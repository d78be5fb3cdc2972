/** The command strings that `internal/service/fs.go` sends to the guest, and a reader for them:
    the part of the POSIX.1-2017 Shell Command Language that those strings use (section 2.2.1,
    escape character; section 2.2.2, single-quotes; section 2.3, token recognition). */
module ShellWords {
  import opened Options
  import opened Text

  // ---------------------------------------------------------------- the reader

  datatype Token = Word(text: string) | AndIf

  datatype Lexed =
    | Tokens(tokens: seq<Token>)
    | Unterminated            // end of input inside single-quotes
    | Unsupported(at: char)   // a construct outside sections 2.2.1, 2.2.2 and 2.3 as used here
  {
    function After(front: seq<Token>): Lexed {
      match this
      case Tokens(ts) => Tokens(front + ts)
      case _ => this
    }
  }

  /** Characters that stand for themselves outside quotes. */
  predicate Plain(c: char) {
    || 'a' <= c <= 'z'
    || 'A' <= c <= 'Z'
    || '0' <= c <= '9'
    || c in "-_./"
  }

  function Delimit(word: Option<string>): seq<Token> {
    match word
    case None => []
    case Some(w) => [Word(w)]
  }

  function Extend(word: Option<string>, c: char): Option<string> {
    match word
    case None => Some([c])
    case Some(w) => Some(w + [c])
  }

  /** Token recognition outside quotes; `word` is the word being built, if one has begun. */
  function Lex(s: string, word: Option<string>): Lexed
    decreases |s|
  {
    if s == "" then Tokens(Delimit(word))
    else if s[0] == '\'' then
      LexQuoted(s[1..], if word.Some? then word.value else "")
    else if s[0] == '\\' then
      if |s| == 1 then Unsupported('\\')
      else if s[1] == '\n' then Lex(s[2..], word)
      else Lex(s[2..], Extend(word, s[1]))
    else if s[0] == ' ' || s[0] == '\t' then
      Lex(s[1..], None).After(Delimit(word))
    else if s[0] == '&' then
      if |s| > 1 && s[1] == '&' then Lex(s[2..], None).After(Delimit(word) + [AndIf])
      else Unsupported('&')
    else if Plain(s[0]) then Lex(s[1..], Extend(word, s[0]))
    else Unsupported(s[0])
  }

  /** Inside single-quotes every character is literal up to the next single-quote. */
  function LexQuoted(s: string, word: string): Lexed
    decreases |s|
  {
    if s == "" then Unterminated
    else if s[0] == '\'' then Lex(s[1..], Some(word))
    else LexQuoted(s[1..], word + [s[0]])
  }

  // ---------------------------------------------------------------- the printer

  /** `strings.ReplaceAll(s, "'", "'\\''")`. */
  function EscapeQuotes(s: string): string {
    if s == "" then ""
    else (if s[0] == '\'' then "'\\''" else [s[0]]) + EscapeQuotes(s[1..])
  }

  /** The `'%s'` of the format strings, filled with an escaped path. */
  function SingleQuoted(s: string): string {
    "'" + EscapeQuotes(s) + "'"
  }

  lemma {:induction false} LexEscaped(p: string, word: string, rest: string)
    ensures LexQuoted(EscapeQuotes(p) + "'" + rest, word) == Lex(rest, Some(word + p))
  {
    var s := EscapeQuotes(p) + "'" + rest;
    if p == "" {
      assert s[1..] == rest;
      assert word + p == word;
    } else {
      var next := EscapeQuotes(p[1..]) + "'" + rest;
      LexEscaped(p[1..], word + [p[0]], rest);
      assert word + [p[0]] + p[1..] == word + p;
      if p[0] == '\'' {
        assert s == "'\\''" + next;
        var s1, s2 := s[1..], s[3..];
        assert s1 == "\\''" + next;
        assert s1[2..] == s2 == "'" + next;
        assert s2[1..] == next;
        assert LexQuoted(s, word) == Lex(s1, Some(word)) == Lex(s2, Some(word + ['\'']));
      } else {
        assert s == [p[0]] + next;
        assert s[1..] == next;
      }
    }
  }

  /** A single-quoted word is read back unchanged whatever it contains and whatever follows it. */
  lemma LexSingleQuoted(p: string, rest: string)
    ensures Lex(SingleQuoted(p) + rest, None) == Lex(rest, Some(p))
  {
    var s := SingleQuoted(p) + rest;
    assert s == "'" + (EscapeQuotes(p) + "'" + rest);
    assert s[1..] == EscapeQuotes(p) + "'" + rest;
    LexEscaped(p, "", rest);
    assert "" + p == p;
  }

  // ---------------------------------------------------------------- command lines

  /** What a builder means to send: literal words, quoted data and the `&&` operator. */
  datatype Piece = Bare(text: string) | Quoted(data: string) | Then

  predicate WellFormed(p: Piece) {
    p.Bare? ==> p.text != "" && forall i :: 0 <= i < |p.text| ==> Plain(p.text[i])
  }

  function Print(p: Piece): string {
    match p
    case Bare(w) => w
    case Quoted(d) => SingleQuoted(d)
    case Then => "&&"
  }

  function Meaning(p: Piece): Token {
    match p
    case Bare(w) => Word(w)
    case Quoted(d) => Word(d)
    case Then => AndIf
  }

  function Line(ps: seq<Piece>): string {
    if ps == [] then ""
    else if |ps| == 1 then Print(ps[0])
    else Print(ps[0]) + (" " + Line(ps[1..]))
  }

  function Meanings(ps: seq<Piece>): seq<Token> {
    seq(|ps|, i requires 0 <= i < |ps| => Meaning(ps[i]))
  }

  lemma {:induction false} LexPlain(w: string, front: string, rest: string)
    requires forall i :: 0 <= i < |w| ==> Plain(w[i])
    requires front != ""
    ensures Lex(w + rest, Some(front)) == Lex(rest, Some(front + w))
  {
    if w == "" {
      assert w + rest == rest;
      assert front + w == front;
    } else {
      assert (w + rest)[1..] == w[1..] + rest;
      LexPlain(w[1..], front + [w[0]], rest);
      assert front + [w[0]] + w[1..] == front + w;
    }
  }

  /** A word ends at a blank or at the end of the line. */
  lemma LexEndOfWord(w: string, rest: string)
    requires rest == "" || rest[0] == ' '
    ensures Lex(rest, Some(w)) ==
            (if rest == "" then Tokens([Word(w)]) else Lex(rest[1..], None).After([Word(w)]))
  {
  }

  lemma LexThen(rest: string)
    requires rest == "" || rest[0] == ' '
    ensures Lex("&&" + rest, None) ==
            (if rest == "" then Tokens([AndIf]) else Lex(rest[1..], None).After([AndIf]))
  {
    var s := "&&" + rest;
    assert s[2..] == rest;
    assert Lex(s, None) == Lex(rest, None).After([] + [AndIf]);
    if rest != "" {
      var l := Lex(rest[1..], None);
      if l.Tokens? { assert [] + l.tokens == l.tokens; }
    }
  }

  lemma LexPiece(p: Piece, rest: string)
    requires WellFormed(p)
    requires rest == "" || rest[0] == ' '
    ensures Lex(Print(p) + rest, None) ==
            (if rest == "" then Tokens([Meaning(p)]) else Lex(rest[1..], None).After([Meaning(p)]))
  {
    match p
    case Bare(w) =>
      assert (w + rest)[1..] == w[1..] + rest;
      LexPlain(w[1..], [w[0]], rest);
      assert [w[0]] + w[1..] == w;
      LexEndOfWord(w, rest);
    case Quoted(d) =>
      LexSingleQuoted(d, rest);
      LexEndOfWord(d, rest);
    case Then =>
      LexThen(rest);
  }

  /** Reading a printed command line gives exactly the intended tokens, with every datum intact. */
  lemma {:induction false} LineRoundTrip(ps: seq<Piece>)
    requires forall i :: 0 <= i < |ps| ==> WellFormed(ps[i])
    ensures Lex(Line(ps), None) == Tokens(Meanings(ps))
  {
    if ps == [] {
    } else if |ps| == 1 {
      LexPiece(ps[0], "");
      assert Print(ps[0]) + "" == Print(ps[0]);
    } else {
      var rest := " " + Line(ps[1..]);
      LexPiece(ps[0], rest);
      assert Line(ps) == Print(ps[0]) + rest;
      assert rest[1..] == Line(ps[1..]);
      LineRoundTrip(ps[1..]);
      assert Meanings(ps) == [Meaning(ps[0])] + Meanings(ps[1..]);
    }
  }

  // ---------------------------------------------------------------- the builders of fs.go

  /** `filepath.Clean` and `filepath.Dir`, of which nothing is assumed. */
  datatype Paths = Paths(clean: string -> string, dir: string -> string)

  /** The cleaned path with a leading slash. */
  function Rooted(fp: Paths, path: string): (r: string)
    ensures r != "" && r[0] == '/'
    ensures r == fp.clean(path) || r == "/" + fp.clean(path)
    ensures "/" <= fp.clean(path) ==> r == fp.clean(path)
  {
    var clean := fp.clean(path);
    if clean != "" && clean[0] == '/' then clean else "/" + clean
  }

  function DeleteFile(fp: Paths, filePath: string): string {
    "rm -rf " + SingleQuoted(Rooted(fp, filePath))
  }

  function CreateDirectory(fp: Paths, dirPath: string): string {
    "mkdir -p " + SingleQuoted(Rooted(fp, dirPath))
  }

  function DiskUsage(fp: Paths, dirPath: string): string {
    "du -sh " + SingleQuoted(Rooted(fp, dirPath))
  }

  function ChangePermissions(fp: Paths, filePath: string, mode: string): string {
    "chmod " + SingleQuoted(mode) + " " + SingleQuoted(Rooted(fp, filePath))
  }

  function ClampLines(lines: int): (n: nat)
    ensures 1 <= n <= 10000
    ensures n == if lines <= 0 then 10 else if lines > 10000 then 10000 else lines
  {
    if lines <= 0 then 10 else if lines > 10000 then 10000 else lines
  }

  function HeadTail(fp: Paths, filePath: string, lines: int, isHead: bool): string {
    (if isHead then "head" else "tail") + " -n " + Decimal(ClampLines(lines)) + " " + SingleQuoted(Rooted(fp, filePath))
  }

  function CreateFile(fp: Paths, filePath: string): string {
    var clean := Rooted(fp, filePath);
    "mkdir -p " + SingleQuoted(fp.dir(clean)) + " && touch " + SingleQuoted(clean)
  }

  function MoveFile(fp: Paths, source: string, dest: string): string {
    var src, dst := Rooted(fp, source), Rooted(fp, dest);
    "mkdir -p " + SingleQuoted(fp.dir(dst)) + " && mv -f " + SingleQuoted(src) + " " + SingleQuoted(dst)
  }

  function CopyFile(fp: Paths, source: string, dest: string): string {
    var src, dst := Rooted(fp, source), Rooted(fp, dest);
    "mkdir -p " + SingleQuoted(fp.dir(dst)) + " && cp -r " + SingleQuoted(src) + " " + SingleQuoted(dst)
  }

  function Read(command: string): Lexed {
    Lex(command, None)
  }

  lemma Assoc(a: string, b: string, c: string)
    ensures (a + b) + c == a + (b + c)
  {
  }

  /** One step of the printer: a piece, a blank, and the line of the other pieces. */
  lemma LineStep(p: Piece, ps: seq<Piece>)
    requires ps != []
    ensures Line([p] + ps) == Print(p) + " " + Line(ps)
    ensures Meanings([p] + ps) == [Meaning(p)] + Meanings(ps)
  {
    hide Print, Meaning;
    assert ([p] + ps)[1..] == ps;
    Assoc(Print(p), " ", Line(ps));
  }

  /** `op flag 'data'` */
  lemma OneCommand(op: string, flag: string, data: string)
    requires WellFormed(Bare(op)) && WellFormed(Bare(flag))
    ensures Read(op + " " + flag + " " + SingleQuoted(data)) == Tokens([Word(op), Word(flag), Word(data)])
  {
    var p2 := [Quoted(data)];
    var p1 := [Bare(flag)] + p2;
    var ps := [Bare(op)] + p1;
    LineStep(Bare(flag), p2);
    LineStep(Bare(op), p1);
    LineRoundTrip(ps);
    Assoc(op + " ", flag + " ", SingleQuoted(data));
    Assoc(op + " ", flag, " ");
  }

  lemma DeleteFileWords(fp: Paths, filePath: string)
    ensures Read(DeleteFile(fp, filePath)) == Tokens([Word("rm"), Word("-rf"), Word(Rooted(fp, filePath))])
  {
    OneCommand("rm", "-rf", Rooted(fp, filePath));
    assert "rm" + " " + "-rf" + " " == "rm -rf ";
  }

  lemma CreateDirectoryWords(fp: Paths, dirPath: string)
    ensures Read(CreateDirectory(fp, dirPath)) == Tokens([Word("mkdir"), Word("-p"), Word(Rooted(fp, dirPath))])
  {
    OneCommand("mkdir", "-p", Rooted(fp, dirPath));
    assert "mkdir" + " " + "-p" + " " == "mkdir -p ";
  }

  lemma DiskUsageWords(fp: Paths, dirPath: string)
    ensures Read(DiskUsage(fp, dirPath)) == Tokens([Word("du"), Word("-sh"), Word(Rooted(fp, dirPath))])
  {
    OneCommand("du", "-sh", Rooted(fp, dirPath));
    assert "du" + " " + "-sh" + " " == "du -sh ";
  }

  lemma ChangePermissionsWords(fp: Paths, filePath: string, mode: string)
    ensures Read(ChangePermissions(fp, filePath, mode)) ==
            Tokens([Word("chmod"), Word(mode), Word(Rooted(fp, filePath))])
  {
    var path := Rooted(fp, filePath);
    var p2 := [Quoted(path)];
    var p1 := [Quoted(mode)] + p2;
    LineStep(Quoted(mode), p2);
    LineStep(Bare("chmod"), p1);
    LineRoundTrip([Bare("chmod")] + p1);
    assert "chmod" + " " == "chmod ";
    Assoc("chmod ", SingleQuoted(mode) + " ", SingleQuoted(path));
    Assoc("chmod ", SingleQuoted(mode), " ");
  }

  lemma HeadTailWords(fp: Paths, filePath: string, lines: int, isHead: bool)
    ensures Read(HeadTail(fp, filePath, lines, isHead)) ==
            Tokens([Word(if isHead then "head" else "tail"), Word("-n"), Word(Decimal(ClampLines(lines))),
                    Word(Rooted(fp, filePath))])
  {
    var op := if isHead then "head" else "tail";
    var n := Decimal(ClampLines(lines));
    var q := SingleQuoted(Rooted(fp, filePath));
    var p3 := [Quoted(Rooted(fp, filePath))];
    var p2 := [Bare(n)] + p3;
    var p1 := [Bare("-n")] + p2;
    LineStep(Bare(n), p3);
    LineStep(Bare("-n"), p2);
    LineStep(Bare(op), p1);
    LineRoundTrip([Bare(op)] + p1);
    Assoc(op + " ", "-n" + " ", n + " " + q);
    Assoc(op, " ", "-n" + " ");
    assert " " + ("-n" + " ") == " -n ";
    Assoc(op + " -n ", n + " ", q);
    Assoc(op + " -n ", n, " ");
  }

  /** Without a sensible number of lines the commands ask for 10, and never for more than 10000. */
  lemma HeadTailLimits(fp: Paths, filePath: string, lines: int, isHead: bool)
    ensures lines <= 0 ==> Read(HeadTail(fp, filePath, lines, isHead)) == Read(HeadTail(fp, filePath, 10, isHead))
    ensures lines > 10000 ==> Read(HeadTail(fp, filePath, lines, isHead)) == Read(HeadTail(fp, filePath, 10000, isHead))
    ensures 1 <= lines <= 10000 ==>
              Read(HeadTail(fp, filePath, lines, isHead)) ==
              Tokens([Word(if isHead then "head" else "tail"), Word("-n"),
                      Word(Decimal(lines)), Word(Rooted(fp, filePath))])
  {
    hide Read, HeadTail, Rooted, Decimal;
    HeadTailWords(fp, filePath, lines, isHead);
    HeadTailWords(fp, filePath, 10, isHead);
    HeadTailWords(fp, filePath, 10000, isHead);
  }

  lemma MkdirText(q: string, l: string)
    ensures "mkdir" + " " + ("-p" + " " + (q + " " + ("&&" + " " + l))) == "mkdir -p " + q + " && " + l
  {
    Assoc(q + " ", "&&" + " ", l);
    Assoc(q, " ", "&&" + " ");
    assert " " + ("&&" + " ") == " && ";
    Assoc("mkdir" + " ", "-p" + " ", q + " && " + l);
    assert "mkdir" + " " + ("-p" + " ") == "mkdir -p ";
    Assoc("mkdir -p ", q + " && ", l);
    Assoc("mkdir -p ", q, " && ");
  }

  lemma PieceThenLine(p: Piece, rest: string)
    requires WellFormed(p)
    ensures Read(Print(p) + " " + rest) == Read(rest).After([Meaning(p)])
  {
    LexPiece(p, " " + rest);
    Assoc(Print(p), " ", rest);
    assert (" " + rest)[1..] == rest;
  }

  /** `mkdir -p 'd' && ` in front of another command line. */
  lemma AfterMkdir(d: string, line: string)
    ensures Read("mkdir -p " + SingleQuoted(d) + " && " + line) ==
            Read(line).After([Word("mkdir"), Word("-p"), Word(d), AndIf])
  {
    var l3 := "&&" + " " + line;
    var l2 := SingleQuoted(d) + " " + l3;
    var l1 := "-p" + " " + l2;
    MkdirText(SingleQuoted(d), line);
    PieceThenLine(Then, line);
    PieceThenLine(Quoted(d), l3);
    PieceThenLine(Bare("-p"), l2);
    PieceThenLine(Bare("mkdir"), l1);
    var read := Read(line);
    if read.Tokens? {
      assert [Word("mkdir")] + ([Word("-p")] + ([Word(d)] + ([AndIf] + read.tokens)))
          == [Word("mkdir"), Word("-p"), Word(d), AndIf] + read.tokens;
    }
  }

  lemma CreateFileWords(fp: Paths, filePath: string)
    ensures var clean := Rooted(fp, filePath);
            Read(CreateFile(fp, filePath)) ==
            Tokens([Word("mkdir"), Word("-p"), Word(fp.dir(clean)), AndIf, Word("touch"), Word(clean)])
  {
    var clean := Rooted(fp, filePath);
    var front := "mkdir -p " + SingleQuoted(fp.dir(clean));
    var ps := [Bare("touch")] + [Quoted(clean)];
    LineStep(Bare("touch"), [Quoted(clean)]);
    LineRoundTrip(ps);
    AfterMkdir(fp.dir(clean), Line(ps));
    assert "touch" + " " == "touch ";
    Assoc(front + " && ", "touch ", SingleQuoted(clean));
    Assoc(front, " && ", "touch ");
    assert " && " + "touch " == " && touch ";
  }

  /** The common part of MoveFile and CopyFile. */
  lemma TwoPathWords(op: string, flag: string, lit: string, d: string, src: string, dst: string)
    requires WellFormed(Bare(op)) && WellFormed(Bare(flag))
    requires lit == " && " + (op + " " + flag + " ")
    ensures Read("mkdir -p " + SingleQuoted(d) + lit + SingleQuoted(src) + " " + SingleQuoted(dst)) ==
            Tokens([Word("mkdir"), Word("-p"), Word(d), AndIf, Word(op), Word(flag), Word(src), Word(dst)])
  {
    var front, s, t := "mkdir -p " + SingleQuoted(d), SingleQuoted(src), SingleQuoted(dst);
    var opFlag := op + " " + flag + " ";
    var p2 := [Quoted(src)] + [Quoted(dst)];
    var p1 := [Bare(flag)] + p2;
    LineStep(Quoted(src), [Quoted(dst)]);
    LineStep(Bare(flag), p2);
    LineStep(Bare(op), p1);
    LineRoundTrip([Bare(op)] + p1);
    AfterMkdir(d, Line([Bare(op)] + p1));
    Assoc(op + " ", flag + " ", s + " " + t);
    Assoc(op + " ", flag, " ");
    assert Line([Bare(op)] + p1) == opFlag + (s + " " + t);
    Assoc(front + " && ", opFlag, s + " " + t);
    Assoc(front, " && ", opFlag);
    Assoc(front + lit, s + " ", t);
    Assoc(front + lit, s, " ");
  }

  lemma MoveFileWords(fp: Paths, source: string, dest: string)
    ensures var src, dst := Rooted(fp, source), Rooted(fp, dest);
            Read(MoveFile(fp, source, dest)) ==
            Tokens([Word("mkdir"), Word("-p"), Word(fp.dir(dst)), AndIf, Word("mv"), Word("-f"), Word(src), Word(dst)])
  {
    assert " && mv -f " == " && " + ("mv" + " " + "-f" + " ");
    TwoPathWords("mv", "-f", " && mv -f ", fp.dir(Rooted(fp, dest)), Rooted(fp, source), Rooted(fp, dest));
  }

  lemma CopyFileWords(fp: Paths, source: string, dest: string)
    ensures var src, dst := Rooted(fp, source), Rooted(fp, dest);
            Read(CopyFile(fp, source, dest)) ==
            Tokens([Word("mkdir"), Word("-p"), Word(fp.dir(dst)), AndIf, Word("cp"), Word("-r"), Word(src), Word(dst)])
  {
    assert " && cp -r " == " && " + ("cp" + " " + "-r" + " ");
    TwoPathWords("cp", "-r", " && cp -r ", fp.dir(Rooted(fp, dest)), Rooted(fp, source), Rooted(fp, dest));
  }

  // ---------------------------------------------------------------- all builders together

  /** A call of one of the builders. */
  datatype Call =
    | Delete(path: string)
    | Mkdir(path: string)
    | Touch(path: string)
    | Move(source: string, dest: string)
    | Copy(source: string, dest: string)
    | Lines(path: string, lines: int, isHead: bool)
    | Chmod(path: string, mode: string)
    | Usage(path: string)

  function Command(fp: Paths, call: Call): string {
    match call
    case Delete(path) => DeleteFile(fp, path)
    case Mkdir(path) => CreateDirectory(fp, path)
    case Touch(path) => CreateFile(fp, path)
    case Move(source, dest) => MoveFile(fp, source, dest)
    case Copy(source, dest) => CopyFile(fp, source, dest)
    case Lines(path, lines, isHead) => HeadTail(fp, path, lines, isHead)
    case Chmod(path, mode) => ChangePermissions(fp, path, mode)
    case Usage(path) => DiskUsage(fp, path)
  }

  /** The tokens of `mkdir -p dir &&`. */
  function AfterMkdirOf(dir: string): seq<Token> {
    [Word("mkdir"), Word("-p"), Word(dir), AndIf]
  }

  function Words(fp: Paths, call: Call): seq<Token> {
    match call
    case Delete(path) => [Word("rm"), Word("-rf"), Word(Rooted(fp, path))]
    case Mkdir(path) => [Word("mkdir"), Word("-p"), Word(Rooted(fp, path))]
    case Touch(path) => AfterMkdirOf(fp.dir(Rooted(fp, path))) + [Word("touch"), Word(Rooted(fp, path))]
    case Move(source, dest) =>
      AfterMkdirOf(fp.dir(Rooted(fp, dest))) +
      [Word("mv"), Word("-f"), Word(Rooted(fp, source)), Word(Rooted(fp, dest))]
    case Copy(source, dest) =>
      AfterMkdirOf(fp.dir(Rooted(fp, dest))) +
      [Word("cp"), Word("-r"), Word(Rooted(fp, source)), Word(Rooted(fp, dest))]
    case Lines(path, lines, isHead) =>
      [Word(if isHead then "head" else "tail"), Word("-n"), Word(Decimal(ClampLines(lines))), Word(Rooted(fp, path))]
    case Chmod(path, mode) => [Word("chmod"), Word(mode), Word(Rooted(fp, path))]
    case Usage(path) => [Word("du"), Word("-sh"), Word(Rooted(fp, path))]
  }

  /** The shell reads every command as its intended words. */
  lemma CommandWords(fp: Paths, call: Call)
    ensures Read(Command(fp, call)) == Tokens(Words(fp, call))
  {
    hide Read, DeleteFile, CreateDirectory, CreateFile, MoveFile, CopyFile, HeadTail, ChangePermissions, DiskUsage;
    hide Rooted, Decimal, ClampLines;
    match call
    case Delete(path) => DeleteFileWords(fp, path);
    case Mkdir(path) => CreateDirectoryWords(fp, path);
    case Touch(path) => CreateFileWords(fp, path);
    case Move(source, dest) => MoveFileWords(fp, source, dest);
    case Copy(source, dest) => CopyFileWords(fp, source, dest);
    case Lines(path, lines, isHead) => HeadTailWords(fp, path, lines, isHead);
    case Chmod(path, mode) => ChangePermissionsWords(fp, path, mode);
    case Usage(path) => DiskUsageWords(fp, path);
  }

  /** The same builder, the same cleaned paths, and the same mode or clamped number of lines. */
  predicate SameRequest(fp: Paths, a: Call, b: Call) {
    match (a, b)
    case (Delete(p), Delete(q)) => Rooted(fp, p) == Rooted(fp, q)
    case (Mkdir(p), Mkdir(q)) => Rooted(fp, p) == Rooted(fp, q)
    case (Touch(p), Touch(q)) => Rooted(fp, p) == Rooted(fp, q)
    case (Move(s, d), Move(s', d')) => Rooted(fp, s) == Rooted(fp, s') && Rooted(fp, d) == Rooted(fp, d')
    case (Copy(s, d), Copy(s', d')) => Rooted(fp, s) == Rooted(fp, s') && Rooted(fp, d) == Rooted(fp, d')
    case (Lines(p, n, h), Lines(q, m, h')) =>
      Rooted(fp, p) == Rooted(fp, q) && ClampLines(n) == ClampLines(m) && h == h'
    case (Chmod(p, m), Chmod(q, n)) => Rooted(fp, p) == Rooted(fp, q) && m == n
    case (Usage(p), Usage(q)) => Rooted(fp, p) == Rooted(fp, q)
    case _ => false
  }

  lemma WordsInjective(fp: Paths, a: Call, b: Call)
    requires Words(fp, a) == Words(fp, b)
    ensures SameRequest(fp, a, b)
  {
    hide Rooted, Decimal, ClampLines;
    var v, w := Words(fp, a), Words(fp, b);
    assert v[0] == w[0] && v[1] == w[1] && v[2] == w[2];
    assert |v| > 3 ==> v[3] == w[3];
    assert |v| > 4 ==> v[4] == w[4] && v[5] == w[5];
    assert |v| > 6 ==> v[6] == w[6] && v[7] == w[7];
    if a.Lines? && b.Lines? {
      DecimalRoundTrip(ClampLines(a.lines));
      DecimalRoundTrip(ClampLines(b.lines));
    }
  }

  /** Two calls, of whatever builders, send the same command exactly when they make the same request. */
  lemma BuildersInjective(fp: Paths, a: Call, b: Call)
    ensures Command(fp, a) == Command(fp, b) <==> SameRequest(fp, a, b)
  {
    hide Words, Read;
    CommandWords(fp, a);
    CommandWords(fp, b);
    if Command(fp, a) == Command(fp, b) {
      WordsInjective(fp, a, b);
    }
  }
}
