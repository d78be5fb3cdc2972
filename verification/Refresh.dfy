/** The status reconciler RefreshStatuses (`internal/service/sandbox.go`, lines 409-491), run as
    interleaved steps over the fan-out, against the loop that recomputes and writes every row. */
module Refresh {
  import FanOut

  type Id = nat

  /** The host while a refresh runs: which sandboxes have a socket, and what `vm.info` answers where it
      answers at all. */
  datatype Host = Host(sockets: set<Id>, replies: map<Id, string>)

  type Table = map<Id, string>

  /** Lower case where it is an ASCII letter; besides the capitals there are two other such characters. */
  function Lower(c: char): char {
    if 'A' <= c <= 'Z' then 'a' + (c - 'A')
    else if c == '\U{0130}' then 'i'
    else if c == '\U{212A}' then 'k'
    else c
  }

  function ToLower(s: string): string {
    seq(|s|, i requires 0 <= i < |s| => Lower(s[i]))
  }

  /** The status a worker decides on. */
  function StatusOf(host: Host, id: Id): string {
    if id !in host.sockets || id !in host.replies then "stopped"
    else
      var state := ToLower(host.replies[id]);
      if state == "running" || state == "runningvirtualized" then "running"
      else if state == "paused" then "paused"
      else "stopped"
  }

  /** The word in any letter case; an i can also be U+0130, a k U+212A. */
  predicate SpelledAs(s: string, word: string) {
    && |s| == |word|
    && forall i :: 0 <= i < |word| ==>
         || s[i] == word[i]
         || s[i] as int == word[i] as int - 32
         || (word[i] == 'i' && s[i] == '\U{0130}')
         || (word[i] == 'k' && s[i] == '\U{212A}')
  }

  predicate LowerCase(word: string) {
    forall i :: 0 <= i < |word| ==> 'a' <= word[i] <= 'z'
  }

  lemma LowerSpelling(s: string, word: string)
    requires LowerCase(word)
    ensures ToLower(s) == word <==> SpelledAs(s, word)
  {
    if |s| == |word| {
      forall i | 0 <= i < |s|
        ensures Lower(s[i]) == word[i] <==>
                || s[i] == word[i]
                || s[i] as int == word[i] as int - 32
                || (word[i] == 'i' && s[i] == '\U{0130}')
                || (word[i] == 'k' && s[i] == '\U{212A}')
      {
        assert 'a' <= word[i] <= 'z';
      }
      if ToLower(s) == word {
        assert forall i :: 0 <= i < |s| ==> ToLower(s)[i] == Lower(s[i]);
      }
    }
  }

  /** The sandbox has a socket and its VMM answers with the word, in whatever letter case. */
  predicate Replies(host: Host, id: Id, word: string) {
    id in host.sockets && id in host.replies && SpelledAs(host.replies[id], word)
  }

  /** The status the answer calls for. */
  predicate RightStatus(host: Host, id: Id, status: string) {
    if Replies(host, id, "running") || Replies(host, id, "runningvirtualized") then status == "running"
    else if Replies(host, id, "paused") then status == "paused"
    else status == "stopped"
  }

  lemma StatusIsRight(host: Host, id: Id, status: string)
    ensures RightStatus(host, id, status) <==> status == StatusOf(host, id)
  {
    hide ToLower, SpelledAs;
    if id in host.sockets && id in host.replies {
      LowerSpelling(host.replies[id], "running");
      LowerSpelling(host.replies[id], "runningvirtualized");
      LowerSpelling(host.replies[id], "paused");
    }
  }

  /** The table with every row recomputed. */
  function Recomputed(host: Host, table: Table): Table {
    map id | id in table :: StatusOf(host, id)
  }

  /** The sequential loop: no skipping, no comparison, every row written. */
  class SequentialRefresh {
    var table: Table

    constructor (table: Table)
      ensures this.table == table
    {
      this.table := table;
    }

    method Run(host: Host, ids: seq<Id>)
      requires forall id :: id in table <==> id in ids
      modifies this
      ensures table == Recomputed(host, old(table))
      ensures table.Keys == old(table).Keys && forall id :: id in table ==> RightStatus(host, id, table[id])
    {
      hide StatusOf, RightStatus;
      var i := 0;
      while i < |ids|
        invariant i <= |ids| && table.Keys == old(table).Keys
        invariant forall id :: id in table ==> table[id] == StatusOf(host, id) || id in ids[i..]
      {
        assert ids[i..] == [ids[i]] + ids[i + 1..];
        table := table[ids[i] := StatusOf(host, ids[i])];
        i := i + 1;
      }
      forall id | id in table ensures RightStatus(host, id, table[id]) {
        StatusIsRight(host, id, table[id]);
      }
    }
  }

  // ---------------------------------------------------------------- the concurrent refresh

  datatype Row = Row(id: Id, status: string)

  /** `rows` is what Find returned; writes to the ids in `failing` report an error. */
  datatype Job = Job(host: Host, rows: seq<Row>, concurrency: int, failing: set<Id>)

  function MaxConcurrency(configured: int): (cap: nat)
    ensures cap > 0
    ensures cap == if configured > 0 then configured else 20
  {
    if configured <= 0 then 20 else configured
  }

  /** Rows the launcher passes over: the table says stopped and the socket is gone. */
  predicate FastPath(job: Job, i: nat)
    requires i < |job.rows|
  {
    job.rows[i].status == "stopped" && job.rows[i].id !in job.host.sockets
  }

  function Fan(job: Job): FanOut.Config {
    FanOut.Config(MaxConcurrency(job.concurrency), set i: nat | i < |job.rows| && FastPath(job, i))
  }

  /** A worker's first step asks for the state, its second writes if that differs from the row it was
      given. `decided` are the workers' locals, `attempts` counts the UpdateStatus calls per id. */
  datatype World = World(fan: FanOut.World, decided: map<nat, string>, table: Table, attempts: multiset<Id>)

  ghost predicate Starts(job: Job, w: World) {
    && FanOut.Starts(w.fan)
    && |w.fan.tasks| == |job.rows|
    && (forall i :: 0 <= i < |job.rows| ==> w.fan.tasks[i] == FanOut.Pending(2))
    && w.decided == map[] && w.attempts == multiset{}
    && Lists(job.rows, w.table)
  }

  /** `rows` lists the table, each row once. */
  ghost predicate Lists(rows: seq<Row>, table: Table) {
    && (forall i, j :: 0 <= i < j < |rows| ==> rows[i].id != rows[j].id)
    && (forall i :: 0 <= i < |rows| ==> rows[i].id in table && table[rows[i].id] == rows[i].status)
    && (forall id :: id in table ==> exists i :: 0 <= i < |rows| && rows[i].id == id)
  }

  function Next(job: Job, w: World, m: FanOut.Move): World
    requires FanOut.Enabled(Fan(job), w.fan, m)
  {
    var fan := FanOut.Next(Fan(job), w.fan, m);
    if m.Work? && m.i < |job.rows| && w.fan.tasks[m.i].left == 2 then
      w.(fan := fan, decided := w.decided[m.i := StatusOf(job.host, job.rows[m.i].id)])
    else if m.Work? && m.i < |job.rows| && w.fan.tasks[m.i].left == 1 && m.i in w.decided then
      var Row(id, status) := job.rows[m.i];
      if status == w.decided[m.i] then w.(fan := fan)
      else
        w.(fan := fan, attempts := w.attempts + multiset{id},
           table := if id in job.failing || id !in w.table then w.table else w.table[id := w.decided[m.i]])
    else w.(fan := fan)
  }

  ghost predicate IsRun(job: Job, run: seq<World>, moves: seq<FanOut.Move>) {
    && |run| == |moves| + 1
    && Starts(job, run[0])
    && forall k :: 0 <= k < |moves| ==>
         FanOut.Enabled(Fan(job), run[k].fan, moves[k]) && run[k + 1] == Next(job, run[k], moves[k])
  }

  /** What becomes of row `i`. */
  function Outcome(job: Job, i: nat): string
    requires i < |job.rows|
  {
    if job.rows[i].id in job.failing then job.rows[i].status else StatusOf(job.host, job.rows[i].id)
  }

  predicate Differs(job: Job, i: nat)
    requires i < |job.rows|
  {
    job.rows[i].status != StatusOf(job.host, job.rows[i].id)
  }

  predicate PastWrite(t: FanOut.Task) {
    t == FanOut.Working(0) || t.Freed? || t.Done?
  }

  ghost predicate RowInv(job: Job, w: World, i: nat)
    requires i < |job.rows| == |w.fan.tasks|
  {
    var t, id := w.fan.tasks[i], job.rows[i].id;
    && id in w.table
    && w.table[id] == (if PastWrite(t) then Outcome(job, i) else job.rows[i].status)
    && w.attempts[id] == (if PastWrite(t) && Differs(job, i) then 1 else 0)
    && (t == FanOut.Working(1) ==> i in w.decided && w.decided[i] == StatusOf(job.host, id))
    && (t.Working? ==> t.left <= 2)
    && (t.Pending? || t.Counted? || t.Admitted? ==> t.work == 2)
  }

  ghost predicate Inv(job: Job, w: World, start: Table) {
    && |w.fan.tasks| == |job.rows|
    && w.table.Keys == start.Keys
    && Lists(job.rows, start)
    && (forall i :: 0 <= i < |job.rows| ==> RowInv(job, w, i))
    && (forall id :: id in w.attempts ==> id in start)
  }

  /** A move leaves the rows it is not about alone. */
  lemma OtherRowStep(job: Job, w: World, m: FanOut.Move, start: Table, i: nat)
    requires Inv(job, w, start) && FanOut.Enabled(Fan(job), w.fan, m)
    requires i < |job.rows| && i != FanOut.Touched(w.fan, m)
    ensures RowInv(job, Next(job, w, m), i)
  {
    hide Outcome, Differs, Fan;
    assert RowInv(job, w, i);
    if m.Work? {
      assert job.rows[i].id != job.rows[m.i].id;
    }
  }

  lemma OwnRowStep(job: Job, w: World, m: FanOut.Move, start: Table, i: nat)
    requires Inv(job, w, start) && FanOut.Enabled(Fan(job), w.fan, m)
    requires i < |job.rows| && i == FanOut.Touched(w.fan, m)
    ensures RowInv(job, Next(job, w, m), i)
  {
    hide Fan, StatusOf;
    assert RowInv(job, w, i);
  }

  lemma StepKeepsInv(job: Job, w: World, m: FanOut.Move, start: Table)
    requires Inv(job, w, start) && FanOut.Enabled(Fan(job), w.fan, m)
    ensures Inv(job, Next(job, w, m), start)
  {
    hide RowInv, Outcome, Fan, StatusOf;
    forall i | 0 <= i < |job.rows| ensures RowInv(job, Next(job, w, m), i) {
      if i == FanOut.Touched(w.fan, m) {
        OwnRowStep(job, w, m, start, i);
      } else {
        OtherRowStep(job, w, m, start, i);
      }
    }
    if m.Work? {
      assert job.rows[m.i].id in start;
    }
  }

  lemma {:induction false} RunKeepsInv(job: Job, run: seq<World>, moves: seq<FanOut.Move>, k: nat)
    requires IsRun(job, run, moves) && k < |run|
    ensures Inv(job, run[k], run[0].table)
  {
    if k > 0 {
      RunKeepsInv(job, run, moves, k - 1);
      StepKeepsInv(job, run[k - 1], moves[k - 1], run[0].table);
    }
  }

  /** Forgetting the table, a refresh is a run of the fan-out. */
  lemma RefreshIsFanOut(job: Job, run: seq<World>, moves: seq<FanOut.Move>) returns (fans: seq<FanOut.World>)
    requires IsRun(job, run, moves)
    ensures |fans| == |run| && forall k :: 0 <= k < |run| ==> fans[k] == run[k].fan
    ensures FanOut.IsRun(Fan(job), fans, moves)
    ensures Fan(job).cap == if job.concurrency > 0 then job.concurrency else 20
  {
    fans := seq(|run|, k requires 0 <= k < |run| => run[k].fan);
  }

  /** A finished refresh has skipped or finished every row, so whatever the interleaving its table is
      fixed by the host and the rows: rows whose write fails keep their status, all others are
      recomputed, and exactly the rows that differ are written, once each. */
  lemma FinishedRefresh(job: Job, run: seq<World>, moves: seq<FanOut.Move>)
    requires IsRun(job, run, moves) && run[|moves|].fan.returned
    ensures var last := run[|moves|];
            && last.table.Keys == run[0].table.Keys
            && (forall i :: 0 <= i < |job.rows| ==>
                  && last.table[job.rows[i].id] == Outcome(job, i)
                  && last.attempts[job.rows[i].id] == (if Differs(job, i) then 1 else 0))
            && (forall id :: id in last.attempts ==> id in run[0].table)
  {
    var last := run[|moves|];
    RunKeepsInv(job, run, moves, |moves|);
    var fans := RefreshIsFanOut(job, run, moves);
    FanOut.RunsEndProperly(Fan(job), fans, moves);
    forall i | 0 <= i < |job.rows|
      ensures last.table[job.rows[i].id] == Outcome(job, i)
      ensures last.attempts[job.rows[i].id] == (if Differs(job, i) then 1 else 0)
    {
      assert RowInv(job, last, i);
      if i in Fan(job).skip {
        assert FastPath(job, i);
      } else {
        assert last.fan.tasks[i] == FanOut.Done;
      }
    }
  }

  /** In terms of the host's answers: every finishing interleaving leaves each row with the status its
      sandbox's answer calls for, unless its write fails, and tries to write exactly the rows that did not
      have it. */
  lemma RowsAreRight(job: Job, run: seq<World>, moves: seq<FanOut.Move>, i: nat)
    requires IsRun(job, run, moves) && run[|moves|].fan.returned && i < |job.rows|
    ensures var last, Row(id, status) := run[|moves|], job.rows[i];
            && id in last.table
            && (if id in job.failing then last.table[id] == status else RightStatus(job.host, id, last.table[id]))
            && last.attempts[id] == (if RightStatus(job.host, id, status) then 0 else 1)
            // no worker is started exactly for a stopped row without a socket
            && |last.fan.tasks| == |job.rows|
            && (last.fan.tasks[i].Skipped? <==> status == "stopped" && id !in job.host.sockets)
  {
    hide StatusOf, RightStatus;
    FinishedRefresh(job, run, moves);
    var fans := RefreshIsFanOut(job, run, moves);
    FanOut.RunsEndProperly(Fan(job), fans, moves);
    var Row(id, status) := job.rows[i];
    StatusIsRight(job.host, id, run[|moves|].table[id]);
    StatusIsRight(job.host, id, status);
  }

  /** With successful writes, every finishing interleaving leaves the table of the sequential loop. */
  lemma RefreshRefinesLoop(job: Job, run: seq<World>, moves: seq<FanOut.Move>)
    requires IsRun(job, run, moves) && run[|moves|].fan.returned && job.failing == {}
    ensures run[|moves|].table == Recomputed(job.host, run[0].table)
  {
    FinishedRefresh(job, run, moves);
    forall id | id in run[0].table ensures run[|moves|].table[id] == StatusOf(job.host, id) {
      var i :| 0 <= i < |job.rows| && job.rows[i].id == id;
      assert run[|moves|].table[job.rows[i].id] == Outcome(job, i);
    }
  }

  /** A second refresh of an unchanged host writes nothing. */
  lemma SecondRefreshWritesNothing(job: Job, run: seq<World>, moves: seq<FanOut.Move>,
                                   again: Job, run': seq<World>, moves': seq<FanOut.Move>)
    requires IsRun(job, run, moves) && run[|moves|].fan.returned && job.failing == {}
    requires again.host == job.host && IsRun(again, run', moves') && run'[0].table == run[|moves|].table
    ensures forall k :: 0 <= k < |run'| ==> run'[k].attempts == multiset{} && run'[k].table == run[|moves|].table
  {
    RefreshRefinesLoop(job, run, moves);
    forall k | 0 <= k < |run'|
      ensures run'[k].attempts == multiset{} && run'[k].table == run[|moves|].table
    {
      RunKeepsInv(again, run', moves', k);
      forall id | id in run'[0].table
        ensures run'[k].attempts[id] == 0 && run'[k].table[id] == run'[0].table[id]
      {
        var i :| 0 <= i < |again.rows| && again.rows[i].id == id;
        assert RowInv(again, run'[k], i);
      }
      assert run'[k].attempts == multiset{};
    }
  }

  /** Every refresh ends: its interleavings are no longer than seven moves a row and one return, and
      one that cannot go on has returned. */
  lemma RefreshEnds(job: Job, run: seq<World>, moves: seq<FanOut.Move>)
    requires IsRun(job, run, moves)
    ensures |moves| <= 7 * |job.rows| + 1
    ensures (forall m :: !FanOut.Enabled(Fan(job), run[|moves|].fan, m)) <==> run[|moves|].fan.returned
  {
    var fans := RefreshIsFanOut(job, run, moves);
    FanOut.RunsEndProperly(Fan(job), fans, moves);
    SevenEach(fans[0].tasks);
  }

  lemma {:induction false} SevenEach(tasks: seq<FanOut.Task>)
    requires forall i :: 0 <= i < |tasks| ==> tasks[i] == FanOut.Pending(2)
    ensures FanOut.Total(FanOut.Steps, tasks) == 7 * |tasks|
  {
    if tasks != [] {
      SevenEach(tasks[1..]);
    }
  }
}
