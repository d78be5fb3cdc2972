/** `ParseCommand` of `pkg/util/parser.go`: a quote and escape automaton over the runes of a command. */
module Tokenizer {
  import opened Options
  import opened ShellWords

  datatype Parsed = Args(args: seq<string>) | UnclosedQuote

  /** The loop's variables; `quote` is `quoteChar` while the source's state is "quotes". */
  datatype State = State(args: seq<string>, current: string, quote: Option<char>, escaped: bool)

  const START := State([], "", None, false)

  function Flush(current: string): seq<string> {
    if current == "" then [] else [current]
  }

  function Step(st: State, r: char): State {
    if st.escaped then st.(current := st.current + [r], escaped := false)
    else if r == '\\' then st.(escaped := true)
    else if st.quote.Some? then
      if r == st.quote.value then st.(quote := None) else st.(current := st.current + [r])
    else if r == '"' || r == '\'' then st.(quote := Some(r))
    else if r == ' ' || r == '\t' then st.(args := st.args + Flush(st.current), current := "")
    else st.(current := st.current + [r])
  }

  function Run(s: string, st: State): State {
    if s == "" then st else Run(s[1..], Step(st, s[0]))
  }

  function Finish(st: State): Parsed {
    if st.quote.Some? then UnclosedQuote else Args(st.args + Flush(st.current))
  }

  /** The recursive reading of a command. */
  function Parse(s: string): Parsed {
    Finish(Run(s, START))
  }

  lemma {:induction false} RunConcat(a: string, b: string, st: State)
    ensures Run(a + b, st) == Run(b, Run(a, st))
  {
    if a == "" {
      assert a + b == b;
    } else {
      assert (a + b)[1..] == a[1..] + b;
      RunConcat(a[1..], b, Step(st, a[0]));
    }
  }

  lemma RunCons(c: char, s: string, st: State)
    ensures Run([c] + s, st) == Run(s, Step(st, c))
  {
    assert ([c] + s)[1..] == s;
  }

  lemma RunSnoc(s: string, i: nat, st: State)
    requires i < |s|
    ensures Run(s[..i + 1], st) == Step(Run(s[..i], st), s[i])
  {
    assert s[..i + 1] == s[..i] + [s[i]];
    RunConcat(s[..i], [s[i]], st);
  }

  /** The loop as written computes what the recursive automaton defines. */
  method ParseCommand(command: string) returns (result: Parsed)
    ensures result == Parse(command)
  {
    var args: seq<string> := [];
    var quotes := false;
    var current := "";
    var quoteChar := '\0';
    var isEscaped := false;
    for i := 0 to |command|
      invariant quotes ==> quoteChar == '"' || quoteChar == '\''
      invariant Run(command[..i], START) == State(args, current, if quotes then Some(quoteChar) else None, isEscaped)
    {
      RunSnoc(command, i, START);
      var r := command[i];
      if isEscaped {
        current := current + [r];
        isEscaped := false;
        continue;
      }
      if r == '\\' {
        isEscaped := true;
        continue;
      }
      if quotes {
        if r == quoteChar {
          quotes := false;
        } else {
          current := current + [r];
        }
        continue;
      }
      if r == '"' || r == '\'' {
        quotes := true;
        quoteChar := r;
        continue;
      }
      if r == ' ' || r == '\t' {
        if |current| > 0 {
          args := args + [current];
          current := "";
        }
      } else {
        current := current + [r];
      }
    }
    assert command[..|command|] == command;
    if quotes {
      return UnclosedQuote;
    }
    if |current| > 0 {
      args := args + [current];
    }
    return Args(args);
  }

  // ---------------------------------------------------------------- what a parse result can be

  function Flat(args: seq<string>): string {
    if args == [] then "" else Flat(args[..|args| - 1]) + args[|args| - 1]
  }

  ghost predicate Subsequence(a: string, b: string) {
    || a == ""
    || (b != "" && Subsequence(a, b[..|b| - 1]))
    || (b != "" && a[|a| - 1] == b[|b| - 1] && Subsequence(a[..|a| - 1], b[..|b| - 1]))
  }

  ghost predicate Sound(st: State, consumed: string) {
    && (forall i :: 0 <= i < |st.args| ==> st.args[i] != "")
    && (st.quote.Some? ==> st.quote.value == '"' || st.quote.value == '\'')
    && Subsequence(Flat(st.args) + st.current, consumed)
  }

  lemma FlatFlush(args: seq<string>, current: string)
    ensures Flat(args + Flush(current)) == Flat(args) + current
  {
    if current == "" {
      assert args + Flush(current) == args;
    } else {
      assert (args + [current])[..|args|] == args;
    }
  }

  lemma SubsequenceSnoc(a: string, b: string, c: char)
    requires Subsequence(a, b)
    ensures Subsequence(a, b + [c]) && Subsequence(a + [c], b + [c])
  {
    assert (b + [c])[..|b|] == b && (a + [c])[..|a|] == a;
  }

  /** One step either appends the rune to what has been collected or drops it. */
  lemma StepKeepsOrDrops(st: State, r: char)
    ensures var before, after := Flat(st.args) + st.current, Flat(Step(st, r).args) + Step(st, r).current;
            after == before || after == before + [r]
  {
    hide Flat, Flush;
    FlatFlush(st.args, st.current);
    var before := Flat(st.args) + st.current;
    assert Flat(st.args) + (st.current + [r]) == before + [r];
    assert Flat(st.args + Flush(st.current)) + "" == before;
  }

  lemma StepSound(st: State, consumed: string, r: char)
    requires Sound(st, consumed)
    ensures Sound(Step(st, r), consumed + [r])
  {
    StepKeepsOrDrops(st, r);
    SubsequenceSnoc(Flat(st.args) + st.current, consumed, r);
  }

  lemma {:induction false} RunSound(s: string)
    ensures Sound(Run(s, START), s)
    decreases |s|
  {
    if s == "" {
      assert Flat([]) + "" == "";
    } else {
      var n := |s| - 1;
      RunSound(s[..n]);
      RunSnoc(s, n, START);
      assert s[..n + 1] == s == s[..n] + [s[n]];
      StepSound(Run(s[..n], START), s[..n], s[n]);
    }
  }

  /** Every argument is non-empty, and the arguments put together are the command with some
      characters dropped, in order. */
  lemma ResultsComeFromInput(s: string)
    ensures Parse(s).Args? ==>
              && (forall i :: 0 <= i < |Parse(s).args| ==> Parse(s).args[i] != "")
              && Subsequence(Flat(Parse(s).args), s)
  {
    hide Run, Flat, Subsequence;
    RunSound(s);
    var st := Run(s, START);
    FlatFlush(st.args, st.current);
  }

  // ---------------------------------------------------------------- composition

  lemma {:induction false} RunFrame(s: string, front: seq<string>, st: State)
    ensures Run(s, st.(args := front + st.args)) == Run(s, st).(args := front + Run(s, st).args)
  {
    if s != "" {
      var st' := Step(st, s[0]);
      assert front + (st.args + Flush(st.current)) == front + st.args + Flush(st.current);
      assert Step(st.(args := front + st.args), s[0]) == st'.(args := front + st'.args);
      RunFrame(s[1..], front, st');
    }
  }

  function Joined(p: Parsed, q: Parsed): Parsed {
    if p.Args? && q.Args? then Args(p.args + q.args) else UnclosedQuote
  }

  /** The command ends outside quotes and not after a lone backslash. */
  predicate EndsClean(s: string) {
    Run(s, START).quote.None? && !Run(s, START).escaped
  }

  lemma RunAfterBlank(s1: string, s2: string)
    ensures Run(s1 + " " + s2, START) == Run(s2, Step(Run(s1, START), ' '))
  {
    RunConcat(s1 + " ", s2, START);
    RunConcat(s1, " ", START);
    assert (" ")[1..] == "";
  }

  lemma CleanComposes(s1: string, s2: string)
    requires EndsClean(s1)
    ensures Parse(s1 + " " + s2) == Joined(Parse(s1), Parse(s2))
  {
    RunAfterBlank(s1, s2);
    var st := Run(s1, START);
    var front := st.args + Flush(st.current);
    assert Step(st, ' ') == START.(args := front + START.args) by {
      assert front + [] == front;
    }
    RunFrame(s2, front, START);
    var end := Run(s2, START);
    assert front + end.args + Flush(end.current) == front + (end.args + Flush(end.current));
  }

  lemma UncleanBreaks(s1: string) returns (s2: string)
    requires !EndsClean(s1)
    ensures Parse(s1 + " " + s2) != Joined(Parse(s1), Parse(s2))
  {
    RunSound(s1);
    var st := Run(s1, START);
    s2 := if st.quote.Some? then [st.quote.value] else "";
    RunAfterBlank(s1, s2);
    if st.quote.Some? {
      assert s2[1..] == "";
    } else {
      assert Parse("") == Args([]);
      var whole, parts := Parse(s1 + " " + s2), Joined(Parse(s1), Parse(s2));
      assert whole.args == st.args + [st.current + " "];
      assert whole.args[|st.args|] == st.current + " ";
      assert parts.args == st.args + Flush(st.current);
    }
  }

  /** Parsing distributes over a blank exactly when the first part ends unquoted and unescaped. */
  lemma ComposesExactlyWhenClean(s1: string)
    ensures EndsClean(s1) <==>
            forall s2 :: Parse(s1 + " " + s2) == Joined(Parse(s1), Parse(s2))
  {
    if EndsClean(s1) {
      forall s2 ensures Parse(s1 + " " + s2) == Joined(Parse(s1), Parse(s2)) {
        CleanComposes(s1, s2);
      }
    } else {
      var s2 := UncleanBreaks(s1);
      assert Parse(s1 + " " + s2) != Joined(Parse(s1), Parse(s2));
    }
  }

  // ---------------------------------------------------------------- what every command means

  /** Characters that have no meaning of their own to the tokenizer. */
  predicate Ordinary(c: char) {
    c !in "\\\"' \t"
  }

  /** Inside quotes: a character for itself, or a backslash and any character. */
  datatype Inner = Lit(c: char) | Esc(c: char)

  /** A piece of a command outside quotes. */
  datatype Part = Itself(c: char) | Backslashed(c: char) | InQuotes(q: char, body: seq<Inner>) | Gap(c: char)

  /** What can be left at the end: nothing, a lone backslash, or an open quote, perhaps with a lone
      backslash in it. */
  datatype Tail = Nothing | Lone | Open(q: char, body: seq<Inner>, lone: bool)

  predicate GoodBody(q: char, body: seq<Inner>) {
    q in "\"'" && forall i :: 0 <= i < |body| ==> body[i].Lit? ==> body[i].c != q && body[i].c != '\\'
  }

  predicate Good(p: Part) {
    match p
    case Itself(c) => Ordinary(c)
    case Backslashed(_) => true
    case InQuotes(q, body) => GoodBody(q, body)
    case Gap(c) => c in " \t"
  }

  predicate AllGood(ps: seq<Part>) {
    forall i :: 0 <= i < |ps| ==> Good(ps[i])
  }

  function BodyText(body: seq<Inner>): string {
    if body == [] then ""
    else BodyText(body[..|body| - 1]) + match body[|body| - 1] case Lit(c) => [c] case Esc(c) => ['\\', c]
  }

  function BodyMeaning(body: seq<Inner>): string {
    seq(|body|, i requires 0 <= i < |body| => body[i].c)
  }

  function PartText(p: Part): string {
    match p
    case Itself(c) => [c]
    case Backslashed(c) => ['\\', c]
    case InQuotes(q, body) => [q] + BodyText(body) + [q]
    case Gap(c) => [c]
  }

  function Text(ps: seq<Part>): string {
    if ps == [] then "" else Text(ps[..|ps| - 1]) + PartText(ps[|ps| - 1])
  }

  function TailText(tail: Tail): string {
    match tail
    case Nothing => ""
    case Lone => "\\"
    case Open(q, body, lone) => [q] + BodyText(body) + if lone then "\\" else ""
  }

  function PartMeaning(p: Part): string {
    match p
    case Itself(c) => [c]
    case Backslashed(c) => [c]
    case InQuotes(_, body) => BodyMeaning(body)
    case Gap(_) => ""
  }

  /** The argument after the last blank, as far as it has been written. */
  function LastWord(ps: seq<Part>): string {
    if ps == [] || ps[|ps| - 1].Gap? then "" else LastWord(ps[..|ps| - 1]) + PartMeaning(ps[|ps| - 1])
  }

  /** The arguments that a blank has ended; those without a character do not count. */
  function EndedWords(ps: seq<Part>): seq<string> {
    if ps == [] then []
    else
      var front := ps[..|ps| - 1];
      if ps[|ps| - 1].Gap? && LastWord(front) != "" then EndedWords(front) + [LastWord(front)] else EndedWords(front)
  }

  function Words(ps: seq<Part>): seq<string> {
    if LastWord(ps) == "" then EndedWords(ps) else EndedWords(ps) + [LastWord(ps)]
  }

  lemma RunOne(c: char, st: State)
    ensures Run([c], st) == Step(st, c)
  {
    assert [c][1..] == "";
  }

  lemma {:induction false} RunBody(q: char, body: seq<Inner>, st: State)
    requires GoodBody(q, body) && st.quote == Some(q) && !st.escaped
    ensures Run(BodyText(body), st) == st.(current := st.current + BodyMeaning(body))
  {
    if body == [] {
      assert st.current + BodyMeaning(body) == st.current;
    } else {
      var n := |body| - 1;
      var front, last := body[..n], body[n];
      RunBody(q, front, st);
      var mid := st.(current := st.current + BodyMeaning(front));
      match last {
        case Lit(c) =>
          RunConcat(BodyText(front), [c], st);
          RunOne(c, mid);
        case Esc(c) =>
          RunConcat(BodyText(front), ['\\', c], st);
          RunCons('\\', [c], mid);
          assert ['\\'] + [c] == ['\\', c];
          RunOne(c, mid.(escaped := true));
      }
      assert st.current + BodyMeaning(front) + [last.c] == st.current + BodyMeaning(body);
    }
  }

  lemma RunOpen(q: char, body: seq<Inner>, st: State)
    requires GoodBody(q, body) && st.quote == None && !st.escaped
    ensures Run([q] + BodyText(body), st) == st.(current := st.current + BodyMeaning(body), quote := Some(q))
  {
    RunCons(q, BodyText(body), st);
    RunBody(q, body, st.(quote := Some(q)));
  }

  lemma RunPart(p: Part, st: State)
    requires Good(p) && st.quote == None && !st.escaped
    ensures Run(PartText(p), st) ==
            if p.Gap? then st.(args := st.args + (if st.current == "" then [] else [st.current]), current := "")
            else st.(current := st.current + PartMeaning(p))
  {
    match p
    case Itself(c) => RunOne(c, st);
    case Gap(c) => RunOne(c, st);
    case Backslashed(c) =>
      assert ['\\'] + [c] == ['\\', c];
      RunCons('\\', [c], st);
      RunOne(c, st.(escaped := true));
    case InQuotes(q, body) =>
      RunOpen(q, body, st);
      RunConcat([q] + BodyText(body), [q], st);
      RunOne(q, st.(current := st.current + BodyMeaning(body), quote := Some(q)));
  }

  lemma {:induction false} RunParts(ps: seq<Part>)
    requires AllGood(ps)
    ensures Run(Text(ps), START) == State(EndedWords(ps), LastWord(ps), None, false)
    decreases |ps|
  {
    if ps != [] {
      hide Run, PartText, PartMeaning;
      var n := |ps| - 1;
      RunParts(ps[..n]);
      RunConcat(Text(ps[..n]), PartText(ps[n]), START);
      RunPart(ps[n], State(EndedWords(ps[..n]), LastWord(ps[..n]), None, false));
    }
  }

  predicate GoodTail(tail: Tail) {
    tail.Open? ==> GoodBody(tail.q, tail.body)
  }

  /** What a command means is read off its pieces: blanks end arguments, quotes and escapes do not, a lone
      backslash at the end is dropped and an open quote is an error. */
  lemma MeaningOfParts(ps: seq<Part>, tail: Tail)
    requires AllGood(ps) && GoodTail(tail)
    ensures Parse(Text(ps) + TailText(tail)) == if tail.Open? then UnclosedQuote else Args(Words(ps))
  {
    RunParts(ps);
    RunConcat(Text(ps), TailText(tail), START);
    var st := State(EndedWords(ps), LastWord(ps), None, false);
    match tail
    case Nothing =>
    case Lone => RunOne('\\', st);
    case Open(q, body, lone) =>
      RunOpen(q, body, st);
      RunConcat([q] + BodyText(body), if lone then "\\" else "", st);
      var open := Run([q] + BodyText(body), st);
      if lone { RunOne('\\', open); }
  }

  lemma TextSnoc(ps: seq<Part>, p: Part)
    ensures Text(ps + [p]) == Text(ps) + PartText(p)
  {
    assert (ps + [p])[..|ps|] == ps;
  }

  lemma BodySnoc(body: seq<Inner>, x: Inner)
    ensures BodyText(body + [x]) == BodyText(body) + match x case Lit(c) => [c] case Esc(c) => ['\\', c]
  {
    assert (body + [x])[..|body|] == body;
  }

  /** Parts and tail for one more character. */
  lemma PartSnoc(ps: seq<Part>, tail: Tail, c: char) returns (ps': seq<Part>, tail': Tail)
    requires AllGood(ps) && GoodTail(tail)
    ensures AllGood(ps') && GoodTail(tail')
    ensures Text(ps') + TailText(tail') == Text(ps) + TailText(tail) + [c]
  {
    hide Text, BodyText;
    ps', tail' := ps, tail;
    match tail {
      case Nothing =>
        if c == '\\' {
          tail' := Lone;
        } else if c == '"' || c == '\'' {
          tail' := Open(c, [], false);
          assert BodyText([]) == "" by { EmptyBody(); }
        } else {
          var p := if c == ' ' || c == '\t' then Gap(c) else Itself(c);
          TextSnoc(ps, p);
          ps' := ps + [p];
        }
      case Lone =>
        TextSnoc(ps, Backslashed(c));
        ps', tail' := ps + [Backslashed(c)], Nothing;
        assert Text(ps) + ['\\', c] == Text(ps) + "\\" + [c];
      case Open(q, body, lone) =>
        if lone {
          BodySnoc(body, Esc(c));
          tail' := Open(q, body + [Esc(c)], false);
          assert [q] + (BodyText(body) + ['\\', c]) + "" == [q] + BodyText(body) + "\\" + [c];
        } else if c == '\\' {
          tail' := Open(q, body, true);
        } else if c == q {
          TextSnoc(ps, InQuotes(q, body));
          ps', tail' := ps + [InQuotes(q, body)], Nothing;
        } else {
          BodySnoc(body, Lit(c));
          tail' := Open(q, body + [Lit(c)], false);
          assert [q] + (BodyText(body) + [c]) + "" == [q] + BodyText(body) + "" + [c];
        }
    }
  }

  lemma EmptyBody()
    ensures BodyText([]) == ""
  {
  }

  /** And every command is made of such pieces. */
  lemma {:induction false} EveryCommand(s: string) returns (ps: seq<Part>, tail: Tail)
    ensures AllGood(ps) && GoodTail(tail) && s == Text(ps) + TailText(tail)
    ensures Parse(s) == if tail.Open? then UnclosedQuote else Args(Words(ps))
    decreases |s|
  {
    if s == "" {
      ps, tail := [], Nothing;
    } else {
      var n := |s| - 1;
      var ps0, tail0 := EveryCommand(s[..n]);
      ps, tail := PartSnoc(ps0, tail0, s[n]);
      assert s == s[..n] + [s[n]];
    }
    MeaningOfParts(ps, tail);
  }

  /** Words with a blank or tab after each. */
  function Separated(words: seq<string>, blanks: seq<char>): string
    requires |words| == |blanks|
  {
    if words == [] then "" else words[0] + [blanks[0]] + Separated(words[1..], blanks[1..])
  }

  predicate OrdinaryWord(w: string) {
    w != "" && forall i :: 0 <= i < |w| ==> Ordinary(w[i])
  }

  lemma {:induction false} RunOrdinary(w: string, st: State)
    requires (forall i :: 0 <= i < |w| ==> Ordinary(w[i])) && st.quote == None && !st.escaped
    ensures Run(w, st) == st.(current := st.current + w)
  {
    if w == "" {
      assert st.current + w == st.current;
    } else {
      assert Ordinary(w[0]);
      RunOrdinary(w[1..], Step(st, w[0]));
      assert st.current + [w[0]] + w[1..] == st.current + w;
    }
  }

  lemma {:induction false} RunSeparated(words: seq<string>, blanks: seq<char>, args: seq<string>)
    requires |words| == |blanks| && (forall i :: 0 <= i < |words| ==> OrdinaryWord(words[i]) && blanks[i] in " \t")
    ensures Run(Separated(words, blanks), State(args, "", None, false)) == State(args + words, "", None, false)
  {
    if words == [] {
      assert args + words == args;
    } else {
      var w, rest := words[0], Separated(words[1..], blanks[1..]);
      var st := State(args, "", None, false);
      assert OrdinaryWord(w);
      RunConcat(w + [blanks[0]], rest, st);
      RunConcat(w, [blanks[0]], st);
      RunOrdinary(w, st);
      assert "" + w == w;
      RunOne(blanks[0], State(args, w, None, false));
      RunSeparated(words[1..], blanks[1..], args + [w]);
      assert args + [w] + words[1..] == args + words;
    }
  }

  /** Words without blank, tab, quote or backslash, with a blank or tab between them, parse to
      themselves. */
  lemma OrdinaryWordsRecovered(words: seq<string>, blanks: seq<char>, last: string)
    requires |words| == |blanks| && (forall i :: 0 <= i < |words| ==> OrdinaryWord(words[i]) && blanks[i] in " \t")
    requires OrdinaryWord(last)
    ensures Parse(Separated(words, blanks) + last) == Args(words + [last])
  {
    RunSeparated(words, blanks, []);
    assert [] + words == words;
    RunConcat(Separated(words, blanks), last, START);
    RunOrdinary(last, State(words, "", None, false));
    assert "" + last == last;
  }

  // ---------------------------------------------------------------- a printer that escapes

  function EscapeBackslashes(a: string): string {
    if a == "" then ""
    else (if a[0] == '\\' || a[0] == '"' then ['\\', a[0]] else [a[0]]) + EscapeBackslashes(a[1..])
  }

  function DoubleQuoted(a: string): string {
    "\"" + EscapeBackslashes(a) + "\""
  }

  function Spaced(words: seq<string>): string {
    if words == [] then ""
    else if |words| == 1 then words[0]
    else words[0] + " " + Spaced(words[1..])
  }

  function Map(f: string -> string, args: seq<string>): seq<string> {
    if args == [] then [] else [f(args[0])] + Map(f, args[1..])
  }

  lemma {:induction false} RunEscaped(a: string, cur: string)
    ensures Run(EscapeBackslashes(a), State([], cur, Some('"'), false)) == State([], cur + a, Some('"'), false)
  {
    if a == "" {
      assert cur + a == cur;
    } else {
      var st := State([], cur, Some('"'), false);
      var tail := EscapeBackslashes(a[1..]);
      if a[0] == '\\' || a[0] == '"' {
        assert EscapeBackslashes(a) == ['\\'] + ([a[0]] + tail);
        RunCons('\\', [a[0]] + tail, st);
        RunCons(a[0], tail, st.(escaped := true));
      } else {
        RunCons(a[0], tail, st);
      }
      RunEscaped(a[1..], cur + [a[0]]);
      assert cur + [a[0]] + a[1..] == cur + a;
    }
  }

  lemma RunDoubleQuoted(a: string)
    ensures Run(DoubleQuoted(a), START) == START.(current := a)
  {
    RunConcat("\"" + EscapeBackslashes(a), "\"", START);
    RunConcat("\"", EscapeBackslashes(a), START);
    assert ("\"")[1..] == "";
    RunEscaped(a, "");
    assert "" + a == a;
  }

  /** Whatever the arguments are, as long as none is empty, printing them with escapes and parsing
      the line gives them back. */
  lemma {:induction false} PrintedArgumentsRecovered(args: seq<string>)
    requires forall i :: 0 <= i < |args| ==> args[i] != ""
    ensures Parse(Spaced(Map(DoubleQuoted, args))) == Args(args)
  {
    if args != [] {
      RunDoubleQuoted(args[0]);
      assert Parse(DoubleQuoted(args[0])) == Args([args[0]]);
      if |args| == 1 {
        assert args == [args[0]];
      } else {
        assert Map(DoubleQuoted, args)[1..] == Map(DoubleQuoted, args[1..]);
        CleanComposes(DoubleQuoted(args[0]), Spaced(Map(DoubleQuoted, args[1..])));
        PrintedArgumentsRecovered(args[1..]);
        assert [args[0]] + args[1..] == args;
      }
    }
  }

  // ---------------------------------------------------------------- the printer of fs.go

  /** A quote printed inside single quotes closes them, is escaped, and opens them again. */
  lemma RunPrintedQuote(s: string, cur: string)
    ensures Run("'\\''" + s, State([], cur, Some('\''), false)) == Run("'" + s, State([], cur + "'", None, false))
    ensures Run("'" + s, State([], cur, None, false)) == Run(s, State([], cur, Some('\''), false))
  {
    var st := State([], cur, Some('\''), false);
    assert "'\\''" + s == ['\''] + (['\\'] + (['\''] + ("'" + s)));
    RunCons('\'', ['\\'] + (['\''] + ("'" + s)), st);
    RunCons('\\', ['\''] + ("'" + s), st.(quote := None));
    RunCons('\'', "'" + s, st.(quote := None, escaped := true));
    RunCons('\'', s, State([], cur, None, false));
  }

  lemma {:induction false} RunEscapedQuotes(a: string, cur: string, rest: string)
    requires '\\' !in a
    ensures Run(EscapeQuotes(a) + rest, State([], cur, Some('\''), false)) ==
            Run(rest, State([], cur + a, Some('\''), false))
  {
    if a == "" {
      assert cur + a == cur;
      assert "" + rest == rest;
    } else {
      var tail := EscapeQuotes(a[1..]) + rest;
      if a[0] == '\'' {
        assert EscapeQuotes(a) + rest == "'\\''" + tail;
        RunPrintedQuote(tail, cur);
        RunPrintedQuote(tail, cur + "'");
      } else {
        assert EscapeQuotes(a) + rest == [a[0]] + tail;
        RunCons(a[0], tail, State([], cur, Some('\''), false));
      }
      RunEscapedQuotes(a[1..], cur + [a[0]], rest);
      assert cur + [a[0]] + a[1..] == cur + a;
    }
  }

  lemma RunSingleQuoted(a: string)
    requires '\\' !in a
    ensures Run(SingleQuoted(a), START) == START.(current := a)
  {
    assert SingleQuoted(a) == ['\''] + (EscapeQuotes(a) + "'");
    RunCons('\'', EscapeQuotes(a) + "'", START);
    RunEscapedQuotes(a, "", "'");
    assert "" + a == a;
    assert ("'")[1..] == "";
  }

  /** Text already collected can only be extended: it begins the next argument. */
  lemma {:induction false} CurrentBeginsNext(s: string, st: State)
    requires st.args == [] && st.current != ""
    ensures Finish(Run(s, st)).Args? ==>
              Finish(Run(s, st)).args != [] && st.current <= Finish(Run(s, st)).args[0]
  {
    if s != "" {
      var st' := Step(st, s[0]);
      if st'.args == [] {
        CurrentBeginsNext(s[1..], st');
      } else {
        assert st' == State([st.current] + [], "", None, false);
        RunFrame(s[1..], [st.current], State([], "", None, false));
      }
    }
  }

  /** The printed form of `a` from position `j` on, its closing quote, and what follows. */
  function Printed(a: string, j: nat, rest: string): string
    requires j <= |a|
  {
    EscapeQuotes(a[j..]) + "'" + rest
  }

  lemma PrintedStep(a: string, j: nat, rest: string)
    requires j < |a|
    ensures Printed(a, j, rest) == (if a[j] == '\'' then "'\\''" else [a[j]]) + Printed(a, j + 1, rest)
  {
    assert a[j..][1..] == a[j + 1..];
  }

  /** Going on from `st` with `s`, the first argument will not be `a`. */
  ghost predicate Loses(a: string, s: string, st: State) {
    var r := Finish(Run(s, st));
    r.Args? ==> r.args != [] && r.args[0] != a
  }

  lemma LosesCons(a: string, c: char, s: string, st: State)
    requires Loses(a, s, Step(st, c))
    ensures Loses(a, [c] + s, st)
  {
    RunCons(c, s, st);
  }

  lemma Mismatch(a: string, m: nat, c: char, s: string, st: State)
    requires m < |a| && a[m] != c
    requires st.args == [] && st.current == a[..m] + [c]
    ensures Loses(a, s, st)
  {
    CurrentBeginsNext(s, st);
    assert st.current[m] == c;
  }

  lemma OtherThanBackslash(a: string, m: nat, c: char, tail: string)
    requires m < |a| && a[m] == '\\' && c != '\\'
    ensures Loses(a, (if c == '\'' then "'\\''" else [c]) + tail, State([], a[..m], Some('\''), false))
  {
    if c == '\'' {
      RunPrintedQuote(tail, a[..m]);
      Mismatch(a, m, '\'', "'" + tail, State([], a[..m] + "'", None, false));
    } else {
      var st := State([], a[..m], Some('\''), false);
      RunCons(c, tail, st);
      Mismatch(a, m, c, tail, Step(st, c));
    }
  }

  /** A word that is closed before a blank or the end comes out as it is. */
  lemma ClosedWord(a: string, w: string, rest: string)
    requires w != "" && w != a && (rest == "" || rest[0] == ' ')
    ensures Loses(a, ['\''] + rest, State([], w, Some('\''), false))
  {
    RunCons('\'', rest, State([], w, Some('\''), false));
    if rest != "" {
      assert Step(State([], w, None, false), ' ') == State([w] + [], "", None, false);
      RunFrame(rest[1..], [w], State([], "", None, false));
    }
  }

  /** Inside single quotes with `a[..m]` collected. */
  function Quoting(a: string, m: nat): State
    requires m <= |a|
  {
    State([], a[..m], Some('\''), false)
  }

  /** Two printed backslashes in a row come out as one. */
  lemma BackslashPair(a: string, m: nat, j: nat, rest: string)
    requires m <= j && j + 2 <= |a| && a[m] == '\\' && a[j] == '\\' && a[j + 1] == '\\'
    requires Loses(a, Printed(a, j + 2, rest), Quoting(a, m + 1))
    ensures Loses(a, Printed(a, j, rest), Quoting(a, m))
  {
    PrintedStep(a, j, rest);
    PrintedStep(a, j + 1, rest);
    hide Loses, Printed;
    var escaped := Quoting(a, m).(escaped := true);
    assert a[..m] + "\\" == a[..m + 1];
    LosesCons(a, '\\', Printed(a, j + 2, rest), escaped);
    LosesCons(a, '\\', Printed(a, j + 1, rest), Quoting(a, m));
  }

  /** A printed backslash in front of anything else is dropped. */
  lemma LastBackslash(a: string, m: nat, j: nat, rest: string)
    requires m <= j < |a| && a[m] == '\\' && a[j] == '\\' && (j + 1 < |a| ==> a[j + 1] != '\\')
    ensures Loses(a, Printed(a, j, rest), Quoting(a, m))
  {
    PrintedStep(a, j, rest);
    EscapedOther(a, j + 1, rest);
    hide Loses, Printed;
    var tail := Printed(a, j + 1, rest);
    var escaped := Quoting(a, m).(escaped := true);
    assert tail == [tail[0]] + tail[1..];
    Mismatch(a, m, tail[0], tail[1..], Step(escaped, tail[0]));
    LosesCons(a, tail[0], tail[1..], escaped);
    LosesCons(a, '\\', tail, Quoting(a, m));
  }

  /** Inside single quotes, with `a[..m]` collected where `a[..j]` was printed and only backslashes
      in between, or with a backslash coming next, the argument `a` can no longer come out. */
  lemma {:induction false} LostBackslash(a: string, m: nat, j: nat, rest: string)
    requires m <= j <= |a|
    requires if m == j then j < |a| && a[j] == '\\' else m >= 1
    requires forall k :: m <= k < j ==> a[k] == '\\'
    requires rest == "" || rest[0] == ' '
    ensures Loses(a, Printed(a, j, rest), Quoting(a, m))
    decreases |a| - j
  {
    hide Loses;
    if j == |a| {
      assert Printed(a, j, rest) == ['\''] + rest;
      ClosedWord(a, a[..m], rest);
    } else if a[j] != '\\' {
      PrintedStep(a, j, rest);
      OtherThanBackslash(a, m, a[j], Printed(a, j + 1, rest));
    } else if j + 1 < |a| && a[j + 1] == '\\' {
      hide Printed;
      LostBackslash(a, m + 1, j + 2, rest);
      BackslashPair(a, m, j, rest);
    } else {
      LastBackslash(a, m, j, rest);
    }
  }

  lemma EscapedOther(a: string, j: nat, rest: string)
    requires j <= |a| && (j < |a| ==> a[j] != '\\')
    ensures Printed(a, j, rest) != "" && Printed(a, j, rest)[0] != '\\'
  {
    if j < |a| {
      PrintedStep(a, j, rest);
    }
  }

  /** A single-quoted word with a backslash in it is never recovered. */
  lemma BackslashNeverSurvives(a: string, rest: string)
    requires '\\' in a
    requires rest == "" || rest[0] == ' '
    ensures Loses(a, SingleQuoted(a) + rest, START)
  {
    var i := FirstBackslash(a);
    var body := Printed(a, i, rest);
    EscapeSplit(a, i);
    assert SingleQuoted(a) + rest == ['\''] + (EscapeQuotes(a[..i]) + body);
    RunCons('\'', EscapeQuotes(a[..i]) + body, START);
    RunEscapedQuotes(a[..i], "", body);
    assert "" + a[..i] == a[..i];
    LostBackslash(a, i, i, rest);
  }

  lemma FirstBackslash(a: string) returns (i: nat)
    requires '\\' in a
    ensures i < |a| && a[i] == '\\' && '\\' !in a[..i]
  {
    i := 0;
    while a[i] != '\\'
      invariant i < |a| && '\\' !in a[..i]
      invariant '\\' in a[i..]
      decreases |a| - i
    {
      i := i + 1;
    }
  }

  lemma {:induction false} EscapeSplit(a: string, i: nat)
    requires i <= |a|
    ensures EscapeQuotes(a) == EscapeQuotes(a[..i]) + EscapeQuotes(a[i..])
  {
    if i == 0 {
      assert a[0..] == a;
    } else {
      EscapeSplit(a[1..], i - 1);
      assert a[1..][..i - 1] == a[..i][1..];
      assert a[1..][i - 1..] == a[i..];
    }
  }

  predicate Recoverable(args: seq<string>) {
    forall i :: 0 <= i < |args| ==> args[i] != "" && '\\' !in args[i]
  }

  lemma OneWord(a: string)
    requires a != "" && '\\' !in a
    ensures Parse(SingleQuoted(a)) == Args([a]) && EndsClean(SingleQuoted(a))
  {
    RunSingleQuoted(a);
  }

  /** A bad first argument is never the first to come out. */
  lemma BadFirst(args: seq<string>, rest: string)
    requires args != [] && (args[0] == "" || '\\' in args[0])
    requires rest == "" || rest[0] == ' '
    ensures Parse(SingleQuoted(args[0]) + rest) != Args(args)
  {
    if args[0] == "" {
      ResultsComeFromInput(SingleQuoted(args[0]) + rest);
    } else {
      BackslashNeverSurvives(args[0], rest);
    }
  }

  lemma GoodFirst(args: seq<string>, others: string)
    requires args != [] && args[0] != "" && '\\' !in args[0]
    ensures Parse(SingleQuoted(args[0]) + " " + others) == Args(args) <==> Parse(others) == Args(args[1..])
  {
    OneWord(args[0]);
    CleanComposes(SingleQuoted(args[0]), others);
    hide Parse, SingleQuoted;
    var p := Parse(others);
    assert [args[0]] + args[1..] == args;
    if p.Args? { assert ([args[0]] + p.args)[1..] == p.args; }
  }

  lemma MapStep(f: string -> string, args: seq<string>)
    requires args != []
    ensures Spaced(Map(f, args)) ==
            if |args| == 1 then f(args[0]) else f(args[0]) + " " + Spaced(Map(f, args[1..]))
  {
    assert Map(f, args)[1..] == Map(f, args[1..]);
  }

  lemma RecoverableStep(args: seq<string>)
    requires args != []
    ensures Recoverable(args) <==> args[0] != "" && '\\' !in args[0] && Recoverable(args[1..])
  {
    assert args == [args[0]] + args[1..];
  }

  /** Arguments printed as fs.go prints paths, and joined by blanks, come back exactly when none is empty
      or contains a backslash. */
  lemma {:induction false} RecoverableGivesBack(args: seq<string>)
    ensures Parse(Spaced(Map(SingleQuoted, args))) == Args(args) <==> Recoverable(args)
  {
    if args != [] {
      MapStep(SingleQuoted, args);
      RecoverableStep(args);
      hide Parse, SingleQuoted, Map, Spaced, Recoverable;
      var others := Spaced(Map(SingleQuoted, args[1..]));
      if args[0] == "" || '\\' in args[0] {
        BadFirst(args, if |args| == 1 then "" else " " + others);
        assert SingleQuoted(args[0]) + "" == SingleQuoted(args[0]);
        assert SingleQuoted(args[0]) + (" " + others) == SingleQuoted(args[0]) + " " + others;
      } else if |args| == 1 {
        OneWord(args[0]);
        assert args == [args[0]];
        NothingRecoverable();
      } else {
        GoodFirst(args, others);
        RecoverableGivesBack(args[1..]);
      }
    }
  }

  lemma NothingRecoverable()
    ensures Recoverable([])
  {
  }
}
