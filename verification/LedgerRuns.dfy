/** Interleaved calls of RegisterSandbox and UnregisterSandbox: one critical section per call, then
    three gauge writes outside the lock (`internal/metrics/manager.go`, lines 429-448 and 457-476). */
module LedgerRuns {
  import opened Options
  import Ledger

  datatype Op = Reg(id: string, name: string, socket: string, spec: Ledger.Alloc) | Unreg(id: string)

  /** The calls that get past the early returns. */
  predicate Effective(op: Op) {
    op.id != "" && (op.Reg? ==> op.socket != "" && Ledger.NonNegativeAlloc(op.spec))
  }

  function Apply(s: Ledger.State, op: Op): Ledger.State {
    match op
    case Reg(id, name, socket, spec) => Ledger.Register(s, id, name, socket, spec)
    case Unreg(id) => Ledger.Unregister(s, id)
  }

  /** `totals` are the locals copied under the lock; `commit` numbers the critical section. */
  datatype Call = Waiting(op: Op) | Publishing(totals: Ledger.Alloc, commit: nat, written: nat) | Returned

  /** `commit`, the critical section the value is from, is history: no gauge carries it. */
  datatype Gauge = Gauge(value: int, commit: nat)

  /** `history` holds the ledger at the start and after every critical section. */
  datatype World = World(history: seq<Ledger.State>, calls: seq<Call>,
                         vcpu: Option<Gauge>, mem: Option<Gauge>, disk: Option<Gauge>)

  const INIT := World([Ledger.EMPTY], [], None, None, None)

  function Current(w: World): Ledger.State
    requires w.history != []
  {
    w.history[|w.history| - 1]
  }

  datatype Move = Begin(op: Op) | Commit(call: nat) | Publish(call: nat)

  predicate Enabled(w: World, m: Move) {
    && w.history != []
    && match m
       case Begin(op) => Effective(op)
       case Commit(i) => i < |w.calls| && w.calls[i].Waiting?
       case Publish(i) => i < |w.calls| && w.calls[i].Publishing?
  }

  function Next(w: World, m: Move): World
    requires Enabled(w, m)
  {
    match m
    case Begin(op) => w.(calls := w.calls + [Waiting(op)])
    case Commit(i) =>
      var after := Apply(Current(w), w.calls[i].op);
      w.(history := w.history + [after], calls := w.calls[i := Publishing(after.totals, |w.history|, 0)])
    case Publish(i) =>
      var Publishing(totals, commit, written) := w.calls[i];
      if written == 0 then
        w.(vcpu := Some(Gauge(totals.vcpu, commit)), calls := w.calls[i := Publishing(totals, commit, 1)])
      else if written == 1 then
        w.(mem := Some(Gauge(totals.mem, commit)), calls := w.calls[i := Publishing(totals, commit, 2)])
      else
        w.(disk := Some(Gauge(totals.disk, commit)), calls := w.calls[i := Returned])
  }

  ghost predicate IsPath(run: seq<World>, moves: seq<Move>) {
    && |run| == |moves| + 1
    && forall k :: 0 <= k < |moves| ==> Enabled(run[k], moves[k]) && run[k + 1] == Next(run[k], moves[k])
  }

  ghost predicate IsRun(run: seq<World>, moves: seq<Move>) {
    IsPath(run, moves) && run[0] == INIT
  }

  // ---------------------------------------------------------------- safety in every interleaving

  datatype Part = Vcpu | Mem | Disk

  function Component(a: Ledger.Alloc, part: Part): int {
    match part
    case Vcpu => a.vcpu
    case Mem => a.mem
    case Disk => a.disk
  }

  function GaugeOf(w: World, part: Part): Option<Gauge> {
    match part
    case Vcpu => w.vcpu
    case Mem => w.mem
    case Disk => w.disk
  }

  predicate Recorded(g: Option<Gauge>, history: seq<Ledger.State>, part: Part) {
    g.Some? ==> g.value.commit < |history| && g.value.value == Component(history[g.value.commit].totals, part)
  }

  ghost predicate Inv(w: World) {
    && w.history != []
    && (forall c :: 0 <= c < |w.history| ==> Ledger.Valid(w.history[c]))
    && (forall i :: 0 <= i < |w.calls| ==>
          match w.calls[i]
          case Waiting(op) => Effective(op)
          case Publishing(totals, commit, written) =>
            commit < |w.history| && totals == w.history[commit].totals && written <= 2
          case Returned => true)
    && Recorded(w.vcpu, w.history, Vcpu)
    && Recorded(w.mem, w.history, Mem)
    && Recorded(w.disk, w.history, Disk)
  }

  lemma CommitKeepsValid(s: Ledger.State, op: Op)
    requires Ledger.Valid(s) && Effective(op)
    ensures Ledger.Valid(Apply(s, op))
  {
    match op
    case Reg(id, name, socket, spec) => Ledger.RegisterKeepsValid(s, id, name, socket, spec);
    case Unreg(id) => Ledger.UnregisterKeepsValid(s, id);
  }

  lemma PublishKeepsInv(w: World, m: Move)
    requires Inv(w) && Enabled(w, m) && m.Publish?
    ensures Inv(Next(w, m))
  {
    hide Ledger.Valid, Effective;
  }

  lemma StepKeepsInv(w: World, m: Move)
    requires Inv(w) && Enabled(w, m)
    ensures Inv(Next(w, m))
  {
    hide Ledger.Valid, Ledger.NonNegativeAlloc, Effective, Apply;
    if m.Commit? {
      CommitKeepsValid(Current(w), w.calls[m.call].op);
    } else if m.Publish? {
      PublishKeepsInv(w, m);
    }
  }

  lemma {:induction false} RunKeepsInv(run: seq<World>, moves: seq<Move>, k: nat)
    requires IsRun(run, moves) && k < |run|
    ensures Inv(run[k])
  {
    if k > 0 {
      RunKeepsInv(run, moves, k - 1);
      StepKeepsInv(run[k - 1], moves[k - 1]);
    } else {
      assert Ledger.Valid(Ledger.EMPTY);
    }
  }

  /** In every reachable state the totals are the (int64) sums over the per-VM map, the three maps
      have the same keys, and each published value was such a sum after some earlier critical section. */
  lemma PublishedValuesWereTotals(run: seq<World>, moves: seq<Move>, k: nat)
    requires IsRun(run, moves) && k < |run|
    ensures var w := run[k];
            && w.history != []
            && Ledger.Valid(Current(w))
            && forall part :: GaugeOf(w, part).Some? ==>
                 exists c :: 0 <= c < |w.history| &&
                   GaugeOf(w, part).value.value == Component(Ledger.WrapAlloc(Ledger.Sum(w.history[c].alloc)), part)
  {
    hide Ledger.WrapAlloc, Ledger.Sum;
    RunKeepsInv(run, moves, k);
    var w := run[k];
    forall part | GaugeOf(w, part).Some?
      ensures exists c :: 0 <= c < |w.history| &&
                GaugeOf(w, part).value.value == Component(Ledger.WrapAlloc(Ledger.Sum(w.history[c].alloc)), part)
    {
      var c := GaugeOf(w, part).value.commit;
      assert w.history[c].totals == Ledger.WrapAlloc(Ledger.Sum(w.history[c].alloc));
    }
  }

  // ---------------------------------------------------------------- when gauges are the latest

  /** No call is between its critical section and its last gauge write. */
  predicate Quiet(w: World) {
    forall i :: 0 <= i < |w.calls| ==> !w.calls[i].Publishing?
  }

  predicate AllReturned(w: World) {
    forall i :: 0 <= i < |w.calls| ==> w.calls[i].Returned?
  }

  predicate NoneWaiting(w: World) {
    forall i :: 0 <= i < |w.calls| ==> !w.calls[i].Waiting?
  }

  /** The three gauges were written by the latest critical section. */
  ghost predicate GaugesLatest(w: World) {
    && w.history != []
    && (|w.history| > 1 ==>
          && w.vcpu == Some(Gauge(Current(w).totals.vcpu, |w.history| - 1))
          && w.mem == Some(Gauge(Current(w).totals.mem, |w.history| - 1))
          && w.disk == Some(Gauge(Current(w).totals.disk, |w.history| - 1)))
  }

  /** No call enters its critical section while another is still publishing. */
  ghost predicate Serial(run: seq<World>, moves: seq<Move>)
    requires IsPath(run, moves)
  {
    forall k :: 0 <= k < |moves| && moves[k].Commit? ==> Quiet(run[k])
  }

  /** At most one call publishes, it publishes the current totals, and `written` of the three gauges
      are already current; with none publishing, all three are. */
  ghost predicate SerialInv(w: World) {
    && (forall i, j :: 0 <= i < j < |w.calls| ==> !(w.calls[i].Publishing? && w.calls[j].Publishing?))
    && (forall i :: 0 <= i < |w.calls| && w.calls[i].Publishing? ==>
          var last := |w.history| - 1;
          && w.calls[i].commit == last
          && (w.calls[i].written >= 1 ==> w.vcpu == Some(Gauge(w.calls[i].totals.vcpu, last)))
          && (w.calls[i].written >= 2 ==> w.mem == Some(Gauge(w.calls[i].totals.mem, last))))
    && (Quiet(w) ==> GaugesLatest(w))
  }

  lemma SerialStep(w: World, m: Move)
    requires Inv(w) && SerialInv(w) && Enabled(w, m)
    requires m.Commit? ==> Quiet(w)
    ensures SerialInv(Next(w, m))
  {
    hide Ledger.Valid, Ledger.Register, Ledger.Unregister, Recorded;
    var w' := Next(w, m);
    if m.Commit? {
      assert w'.calls[m.call].Publishing?;
    } else if m.Begin? {
      assert forall i :: 0 <= i < |w.calls| ==> w'.calls[i] == w.calls[i];
    } else {
      SerialPublish(w, m.call);
    }
  }

  lemma SerialPublish(w: World, i: nat)
    requires Inv(w) && SerialInv(w) && Enabled(w, Publish(i))
    ensures SerialInv(Next(w, Publish(i)))
  {
    hide Ledger.Valid, Recorded, Effective;
    var w', last := Next(w, Publish(i)), |w.history| - 1;
    forall j | 0 <= j < |w.calls| && j != i ensures !w'.calls[j].Publishing? {
      assert w'.calls[j] == w.calls[j];
    }
    assert w.calls[i].totals == Current(w).totals && w.calls[i].commit == last;
    if w.calls[i].written == 2 {
      assert GaugesLatest(w');
    } else {
      assert w'.calls[i].Publishing?;
    }
  }

  lemma {:induction false} SerialRunKeepsInv(run: seq<World>, moves: seq<Move>, k: nat)
    requires IsRun(run, moves) && Serial(run, moves) && k < |run|
    ensures Inv(run[k]) && SerialInv(run[k])
  {
    RunKeepsInv(run, moves, k);
    if k > 0 {
      SerialRunKeepsInv(run, moves, k - 1);
      SerialStep(run[k - 1], moves[k - 1]);
    }
  }

  /** Without overlap the gauges are the latest totals whenever no call is publishing. */
  lemma SerialGaugesAreCurrent(run: seq<World>, moves: seq<Move>, k: nat)
    requires IsRun(run, moves) && Serial(run, moves) && k < |run|
    requires Quiet(run[k])
    ensures GaugesLatest(run[k])
  {
    SerialRunKeepsInv(run, moves, k);
  }

  // ---------------------------------------------------------------- how gauges go stale

  predicate OnlyPublishes(moves: seq<Move>) {
    forall k :: 0 <= k < |moves| ==> moves[k].Publish?
  }

  /** One more move in front. */
  lemma PathCons(w: World, m: Move, run: seq<World>, moves: seq<Move>)
    requires Enabled(w, m) && IsPath(run, moves) && run[0] == Next(w, m)
    ensures IsPath([w] + run, [m] + moves)
  {
    hide Enabled, Next;
    var run', moves' := [w] + run, [m] + moves;
    forall k | 0 <= k < |moves'| ensures Enabled(run'[k], moves'[k]) && run'[k + 1] == Next(run'[k], moves'[k]) {
      if k > 0 {
        assert run'[k] == run[k - 1] && run'[k + 1] == run[k] && moves'[k] == moves[k - 1];
      }
    }
  }

  lemma PathConcat(run: seq<World>, moves: seq<Move>, run2: seq<World>, moves2: seq<Move>)
    requires IsPath(run, moves) && IsPath(run2, moves2) && run[|moves|] == run2[0]
    ensures IsPath(run + run2[1..], moves + moves2)
    ensures forall k :: 0 <= k <= |moves2| ==> (run + run2[1..])[|moves| + k] == run2[k]
  {
    hide Enabled, Next;
    var run', moves' := run + run2[1..], moves + moves2;
    assert forall k :: 0 <= k <= |moves2| ==> run'[|moves| + k] == run2[k];
    forall k | 0 <= k < |moves'| ensures Enabled(run'[k], moves'[k]) && run'[k + 1] == Next(run'[k], moves'[k]) {
      if k >= |moves| {
        var j := k - |moves|;
        assert run'[k] == run2[j] && run'[k + 1] == run2[j + 1] && moves'[k] == moves2[j];
      }
    }
  }

  /** How many moves a call still has to make. */
  function Remaining(c: Call): nat {
    match c
    case Waiting(_) => 4
    case Publishing(_, _, written) => if written < 2 then 3 - written else 1
    case Returned => 0
  }

  /** Whether a call is to be brought to its end: all of them, or those that are publishing. */
  predicate Open(c: Call, all: bool) {
    c.Publishing? || (all && c.Waiting?)
  }

  /** A move of call `j`, its next one. */
  function MoveOf(w: World, j: nat): Move
    requires j < |w.calls| && !w.calls[j].Returned?
  {
    if w.calls[j].Waiting? then Commit(j) else Publish(j)
  }

  /** The calls from `j` on except `i`, if there is such a call, can be brought to their end before `i`
      makes another move. */
  lemma {:induction false} Drain(w: World, i: nat, j: nat, all: bool) returns (run: seq<World>, moves: seq<Move>)
    requires j <= |w.calls| && w.history != []
    requires forall k :: 0 <= k < j && k != i ==> !Open(w.calls[k], all)
    ensures IsPath(run, moves) && run[0] == w
    ensures !all ==> OnlyPublishes(moves)
    ensures var last := run[|moves|];
            && |last.calls| == |w.calls| && (i < |w.calls| ==> last.calls[i] == w.calls[i])
            && (forall k :: 0 <= k < |w.calls| && k != i ==> !Open(last.calls[k], all))
            && |last.history| >= |w.history| && (!all ==> last.history == w.history)
            && (NoneWaiting(w) ==> NoneWaiting(last))
    decreases |w.calls| - j, if j < |w.calls| then Remaining(w.calls[j]) else 0
  {
    hide Apply;
    if j == |w.calls| {
      run, moves := [w], [];
    } else if j == i || !Open(w.calls[j], all) {
      run, moves := Drain(w, i, j + 1, all);
    } else {
      var m := MoveOf(w, j);
      var run1, moves1 := Drain(Next(w, m), i, j, all);
      PathCons(w, m, run1, moves1);
      run, moves := [w] + run1, [m] + moves1;
    }
  }

  /** The call still has this gauge to write. */
  predicate WillWrite(c: Call, part: Part) {
    && c.Publishing?
    && match part
       case Vcpu => c.written == 0
       case Mem => c.written <= 1
       case Disk => true
  }

  /** A publishing call makes its last moves; the gauges it still has to write then show its totals. */
  lemma {:induction false} Finish(w: World, i: nat) returns (run: seq<World>, moves: seq<Move>)
    requires i < |w.calls| && w.calls[i].Publishing? && w.history != []
    ensures IsPath(run, moves) && OnlyPublishes(moves) && run[0] == w
    ensures var Publishing(totals, commit, _) := w.calls[i];
            var last := run[|moves|];
            && last.history == w.history && last.calls == w.calls[i := Returned]
            && forall part :: GaugeOf(last, part) ==
                 if WillWrite(w.calls[i], part) then Some(Gauge(Component(totals, part), commit)) else GaugeOf(w, part)
    decreases Remaining(w.calls[i])
  {
    var w1 := Next(w, Publish(i));
    if w1.calls[i].Returned? {
      run, moves := [w, w1], [Publish(i)];
    } else {
      var run1, moves1 := Finish(w1, i);
      PathCons(w, Publish(i), run1, moves1);
      run, moves := [w] + run1, [Publish(i)] + moves1;
    }
  }

  /** Any publishing call can be the last to publish: all others, or all that are publishing, come first. */
  lemma LastToPublish(w: World, i: nat, all: bool) returns (run: seq<World>, moves: seq<Move>)
    requires i < |w.calls| && w.calls[i].Publishing? && w.history != []
    ensures IsPath(run, moves) && run[0] == w && (!all ==> OnlyPublishes(moves))
    ensures var last := run[|moves|];
            && (if all then AllReturned(last) else Quiet(last) && last.history == w.history)
            && |last.history| >= |w.history|
            && (NoneWaiting(w) ==> AllReturned(last))
            && forall part :: WillWrite(w.calls[i], part) ==>
                 GaugeOf(last, part) == Some(Gauge(Component(w.calls[i].totals, part), w.calls[i].commit))
  {
    hide Enabled, Next;
    var run1, moves1 := Drain(w, i, 0, all);
    var mid := run1[|moves1|];
    var run2, moves2 := Finish(mid, i);
    PathConcat(run1, moves1, run2, moves2);
    run, moves := run1 + run2[1..], moves1 + moves2;
    var last := run[|moves|];
    assert last == run2[|moves2|];
    assert forall k :: 0 <= k < |w.calls| && k != i ==> last.calls[k] == mid.calls[k];
  }

  /** From here, with no further critical section, the gauges can come to rest on older totals. */
  ghost predicate CanStayStale(w: World) {
    exists run, moves ::
      && IsPath(run, moves) && run[0] == w && OnlyPublishes(moves)
      && Quiet(run[|moves|]) && !GaugesLatest(run[|moves|])
  }

  lemma OverlappedCanStayStale(w: World, i: nat)
    requires i < |w.calls| && w.calls[i].Publishing? && w.history != []
    requires w.calls[i].commit < |w.history| - 1
    ensures CanStayStale(w)
  {
    var run, moves := LastToPublish(w, i, false);
    assert GaugeOf(run[|moves|], Disk).value.commit == w.calls[i].commit;
    assert !GaugesLatest(run[|moves|]);
  }

  /** Once a call is overtaken by another's critical section, all calls can return with stale gauges,
      those still waiting for the lock included. */
  lemma OvertakenCanWin(w: World, i: nat) returns (run: seq<World>, moves: seq<Move>)
    requires i < |w.calls| && w.calls[i].Publishing? && w.history != []
    requires w.calls[i].commit < |w.history| - 1
    ensures IsPath(run, moves) && run[0] == w
    ensures AllReturned(run[|moves|]) && !GaugesLatest(run[|moves|])
  {
    run, moves := LastToPublish(w, i, true);
    assert GaugeOf(run[|moves|], Disk).value.commit == w.calls[i].commit;
  }

  lemma SerialPrefix(run: seq<World>, moves: seq<Move>, k: nat, run2: seq<World>, moves2: seq<Move>)
    requires IsRun(run, moves) && Serial(run, moves) && k < |run|
    requires IsPath(run2, moves2) && run2[0] == run[k] && OnlyPublishes(moves2)
    ensures Quiet(run2[|moves2|]) ==> GaugesLatest(run2[|moves2|])
  {
    hide Enabled, Next, GaugesLatest, Quiet;
    assert IsPath(run[..k + 1], moves[..k]);
    PathConcat(run[..k + 1], moves[..k], run2, moves2);
    var run', moves' := run[..k + 1] + run2[1..], moves[..k] + moves2;
    assert IsRun(run', moves');
    assert Serial(run', moves');
    assert run'[|moves'|] == run2[|moves2|];
    if Quiet(run'[|moves'|]) {
      SerialGaugesAreCurrent(run', moves', |moves'|);
    }
  }

  lemma SerialNotStale(run: seq<World>, moves: seq<Move>, k: nat)
    requires IsRun(run, moves) && Serial(run, moves) && k < |run|
    ensures !CanStayStale(run[k])
  {
    hide Enabled, Next, GaugesLatest, Quiet;
    forall run2, moves2 | IsPath(run2, moves2) && run2[0] == run[k] && OnlyPublishes(moves2)
      ensures Quiet(run2[|moves2|]) ==> GaugesLatest(run2[|moves2|])
    {
      SerialPrefix(run, moves, k, run2, moves2);
    }
  }

  lemma CommitOvertakes(w: World, m: Move, i: nat)
    requires Inv(w) && Enabled(w, m) && m.Commit?
    requires i < |w.calls| && w.calls[i].Publishing?
    ensures var w' := Next(w, m);
            |w'.calls| == |w.calls| && w'.calls[i] == w.calls[i] &&
            w'.history != [] && w.calls[i].commit < |w'.history| - 1
  {
    hide Apply, Ledger.Valid, Recorded;
  }

  /** Calls never overlap exactly when at no point of the run the gauges can come to rest as some critical
      section but the latest wrote them, the remaining gauge writes taken in some order. An older section
      may have left the same totals. */
  lemma SerialIffNeverStale(run: seq<World>, moves: seq<Move>)
    requires IsRun(run, moves)
    ensures Serial(run, moves) <==> forall k :: 0 <= k < |run| ==> !CanStayStale(run[k])
  {
    hide Enabled, Next, GaugesLatest, CanStayStale, Inv;
    if Serial(run, moves) {
      forall k | 0 <= k < |run| ensures !CanStayStale(run[k]) {
        SerialNotStale(run, moves, k);
      }
    } else {
      var k :| 0 <= k < |moves| && moves[k].Commit? && !Quiet(run[k]);
      var i :| 0 <= i < |run[k].calls| && run[k].calls[i].Publishing?;
      RunKeepsInv(run, moves, k);
      CommitOvertakes(run[k], moves[k], i);
      OverlappedCanStayStale(run[k + 1], i);
    }
  }

  // ---------------------------------------------------------------- when gauges show the right values

  function Total(w: World, part: Part): int
    requires w.history != []
  {
    Component(Current(w).totals, part)
  }

  /** The gauge shows a value other than the current total. */
  predicate Wrong(w: World, part: Part) {
    w.history != [] && GaugeOf(w, part).Some? && GaugeOf(w, part).value.value != Total(w, part)
  }

  /** From here, with no further critical section, the gauge can come to rest on a wrong value. */
  ghost predicate CanEndWrong(w: World, part: Part) {
    exists run, moves ::
      && IsPath(run, moves) && run[0] == w && OnlyPublishes(moves)
      && Quiet(run[|moves|]) && Wrong(run[|moves|], part)
  }

  /** The calls that still have the gauge to write hold the current total for it, and if there are none the
      gauge is not wrong already. */
  predicate Settled(w: World, part: Part) {
    && w.history != []
    && (forall i :: 0 <= i < |w.calls| && WillWrite(w.calls[i], part) ==>
         Component(w.calls[i].totals, part) == Total(w, part))
    && (Wrong(w, part) ==> exists i :: 0 <= i < |w.calls| && WillWrite(w.calls[i], part))
  }

  predicate NobodyWrites(w: World, part: Part) {
    forall i :: 0 <= i < |w.calls| ==> !WillWrite(w.calls[i], part)
  }

  lemma PublishEffect(w: World, i: nat, part: Part)
    requires Enabled(w, Publish(i))
    ensures var w' := Next(w, Publish(i));
            && w'.history == w.history && |w'.calls| == |w.calls|
            && (forall j :: 0 <= j < |w.calls| && j != i ==> w'.calls[j] == w.calls[j])
            && (WillWrite(w'.calls[i], part) ==> w'.calls[i].totals == w.calls[i].totals)
            && (if WillWrite(w.calls[i], part) && !WillWrite(w'.calls[i], part)
                then GaugeOf(w', part).Some? && GaugeOf(w', part).value.value == Component(w.calls[i].totals, part)
                else WillWrite(w.calls[i], part) == WillWrite(w'.calls[i], part) &&
                     GaugeOf(w', part) == GaugeOf(w, part))
  {
  }

  lemma PublishKeepsSettled(w: World, i: nat, part: Part)
    requires Enabled(w, Publish(i))
    ensures Settled(w, part) ==> Settled(Next(w, Publish(i)), part)
    ensures NobodyWrites(w, part) ==>
              NobodyWrites(Next(w, Publish(i)), part) && GaugeOf(Next(w, Publish(i)), part) == GaugeOf(w, part)
  {
    hide Next, GaugeOf, Component;
    PublishEffect(w, i, part);
    var w' := Next(w, Publish(i));
    if Wrong(w, part) && Settled(w, part) && WillWrite(w.calls[i], part) == WillWrite(w'.calls[i], part) {
      var j :| 0 <= j < |w.calls| && WillWrite(w.calls[j], part);
      assert WillWrite(w'.calls[j], part);
    }
  }

  lemma {:induction false} PublishesKeepSettled(run: seq<World>, moves: seq<Move>, part: Part, k: nat)
    requires IsPath(run, moves) && OnlyPublishes(moves) && k < |run| && run[0].history != []
    ensures run[k].history == run[0].history
    ensures Settled(run[0], part) ==> Settled(run[k], part)
    ensures NobodyWrites(run[0], part) ==> NobodyWrites(run[k], part) && GaugeOf(run[k], part) == GaugeOf(run[0], part)
  {
    hide Settled, NobodyWrites, GaugeOf;
    if k > 0 {
      PublishesKeepSettled(run, moves, part, k - 1);
      PublishKeepsSettled(run[k - 1], moves[k - 1].call, part);
    }
  }

  /** Some order of the remaining writes ends with a wrong value exactly when a call that still has the
      gauge to write holds another value than the current total, or nobody writes it any more and it is
      wrong already. */
  lemma CanEndWrongIff(w: World, part: Part)
    requires w.history != []
    ensures CanEndWrong(w, part) <==> !Settled(w, part)
  {
    if Settled(w, part) {
      forall run, moves | IsPath(run, moves) && run[0] == w && OnlyPublishes(moves) && Quiet(run[|moves|])
        ensures !Wrong(run[|moves|], part)
      {
        PublishesKeepSettled(run, moves, part, |moves|);
      }
    } else {
      UnsettledEndsWrong(w, part);
    }
  }

  lemma UnsettledEndsWrong(w: World, part: Part)
    requires w.history != [] && !Settled(w, part)
    ensures CanEndWrong(w, part)
  {
    hide Component, Next, Enabled;
    if i :| 0 <= i < |w.calls| && WillWrite(w.calls[i], part) && Component(w.calls[i].totals, part) != Total(w, part) {
      var run, moves := LastToPublish(w, i, false);
      assert Wrong(run[|moves|], part);
    } else {
      var run, moves := Drain(w, |w.calls|, 0, false);
      PublishesKeepSettled(run, moves, part, |moves|);
      assert Quiet(run[|moves|]) && Wrong(run[|moves|], part);
    }
  }

  /** A critical section is entered only when no call still has a gauge to write with a value other than
      the total it leaves. */
  predicate Agrees(w: World, m: Move) {
    m.Commit? && Enabled(w, m) ==>
      forall i, part :: 0 <= i < |w.calls| && WillWrite(w.calls[i], part) ==>
        Component(w.calls[i].totals, part) == Component(Apply(Current(w), w.calls[m.call].op).totals, part)
  }

  lemma OtherStepSettled(w: World, m: Move, part: Part)
    requires Enabled(w, m) && Settled(w, part) && !m.Commit?
    ensures Settled(Next(w, m), part)
  {
    if m.Publish? {
      PublishKeepsSettled(w, m.call, part);
    } else {
      var w' := Next(w, m);
      assert forall i :: 0 <= i < |w.calls| ==> w'.calls[i] == w.calls[i];
    }
  }

  /** After a critical section all gauges are settled exactly when it agrees with the calls publishing. */
  lemma CommitSettledIff(w: World, m: Move)
    requires Enabled(w, m) && m.Commit?
    ensures (forall part :: Settled(Next(w, m), part)) <==> Agrees(w, m)
  {
    hide Apply, Component;
    var w' := Next(w, m);
    assert forall part :: WillWrite(w'.calls[m.call], part);
    assert forall i :: 0 <= i < |w.calls| && i != m.call ==> w'.calls[i] == w.calls[i];
    assert forall part :: Total(w', part) == Component(Apply(Current(w), w.calls[m.call].op).totals, part);
    if forall part :: Settled(w', part) {
      forall i, part | 0 <= i < |w.calls| && WillWrite(w.calls[i], part)
        ensures Component(w.calls[i].totals, part) == Total(w', part)
      {
        assert Settled(w', part) && w'.calls[i] == w.calls[i];
      }
    }
  }

  lemma {:induction false} AgreeingRunSettled(run: seq<World>, moves: seq<Move>, k: nat, part: Part)
    requires IsRun(run, moves) && k < |run|
    requires forall i :: 0 <= i < |moves| ==> Agrees(run[i], moves[i])
    ensures Settled(run[k], part)
  {
    hide Next, Agrees, Settled;
    if k == 0 {
      InitSettled(part);
    } else if moves[k - 1].Commit? {
      CommitSettledIff(run[k - 1], moves[k - 1]);
    } else {
      AgreeingRunSettled(run, moves, k - 1, part);
      OtherStepSettled(run[k - 1], moves[k - 1], part);
    }
  }

  lemma InitSettled(part: Part)
    ensures Settled(INIT, part)
  {
  }

  lemma {:induction false} HistoryGrows(run: seq<World>, moves: seq<Move>, k: nat)
    requires IsPath(run, moves) && run[0].history != [] && k < |run|
    ensures run[k].history != []
  {
    if k > 0 {
      HistoryGrows(run, moves, k - 1);
    }
  }

  /** At no point of a run the remaining writes can leave a gauge with a value other than the current total
      exactly when no critical section is entered while a call still has a gauge to write with a value
      other than the total it leaves. */
  lemma RightValuesIffCommitsAgree(run: seq<World>, moves: seq<Move>)
    requires IsRun(run, moves)
    ensures (forall k, part :: 0 <= k < |run| ==> !CanEndWrong(run[k], part)) <==>
            (forall k :: 0 <= k < |moves| ==> Agrees(run[k], moves[k]))
  {
    hide Next, Enabled, Agrees, Settled, CanEndWrong;
    forall k, part | 0 <= k < |run| ensures CanEndWrong(run[k], part) <==> !Settled(run[k], part) {
      HistoryGrows(run, moves, k);
      CanEndWrongIff(run[k], part);
    }
    if forall k :: 0 <= k < |moves| ==> Agrees(run[k], moves[k]) {
      forall k, part | 0 <= k < |run| ensures !CanEndWrong(run[k], part) {
        AgreeingRunSettled(run, moves, k, part);
      }
    }
    if forall k, part :: 0 <= k < |run| ==> !CanEndWrong(run[k], part) {
      forall k | 0 <= k < |moves| ensures Agrees(run[k], moves[k]) {
        var after := run[k + 1];
        forall part ensures Settled(after, part) {
          assert !CanEndWrong(run[k + 1], part);
        }
        if moves[k].Commit? { CommitSettledIff(run[k], moves[k]); } else { OnlyCommitsDisagree(run[k], moves[k]); }
      }
    }
  }

  lemma OnlyCommitsDisagree(w: World, m: Move)
    requires !m.Commit?
    ensures Agrees(w, m)
  {
  }

  /** In particular when calls do not overlap. */
  lemma SerialAgrees(run: seq<World>, moves: seq<Move>)
    requires IsRun(run, moves) && Serial(run, moves)
    ensures forall k :: 0 <= k < |moves| ==> Agrees(run[k], moves[k])
  {
    hide Next, Apply, Component;
  }

  /** But overlapping calls can agree: here two that unregister unknown ids. */
  lemma OverlapCanAgree(x: string, y: string) returns (run: seq<World>, moves: seq<Move>)
    requires x != "" && y != ""
    ensures IsRun(run, moves) && !Serial(run, moves)
    ensures forall k :: 0 <= k < |moves| ==> Agrees(run[k], moves[k])
  {
    var a, b := Unreg(x), Unreg(y);
    assert Apply(Ledger.EMPTY, a) == Ledger.EMPTY && Apply(Ledger.EMPTY, b) == Ledger.EMPTY;
    run, moves := TwoCommits(INIT, a, b);
    assert run[3].calls[0] == Publishing(Ledger.NOTHING, 1, 0);
    assert moves[3].Commit? && !Quiet(run[3]);
  }

  // ---------------------------------------------------------------- an older total wins

  lemma TwoCommits(w: World, a: Op, b: Op) returns (run: seq<World>, moves: seq<Move>)
    requires w.history != [] && Effective(a) && Effective(b)
    ensures IsPath(run, moves) && |moves| == 4 && run[0] == w
    ensures moves == [Begin(a), Begin(b), Commit(|w.calls|), Commit(|w.calls| + 1)]
    ensures var s1 := Apply(Current(w), a);
            var s2 := Apply(s1, b);
            var p1 := Publishing(s1.totals, |w.history|, 0);
            && run[2].history == w.history && run[2].calls == w.calls + [Waiting(a), Waiting(b)]
            && run[3].history == w.history + [s1] && run[3].calls == w.calls + [p1, Waiting(b)]
            && run[4].history == w.history + [s1, s2]
            && run[4].calls == w.calls + [p1, Publishing(s2.totals, |w.history| + 1, 0)]
  {
    hide Apply;
    var n, h := |w.calls|, |w.history|;
    var s1 := Apply(Current(w), a);
    var s2 := Apply(s1, b);
    moves := [Begin(a), Begin(b), Commit(n), Commit(n + 1)];
    var w1 := w.(calls := w.calls + [Waiting(a)]);
    var w2 := w.(calls := w.calls + [Waiting(a), Waiting(b)]);
    var w3 := w.(history := w.history + [s1], calls := w.calls + [Publishing(s1.totals, h, 0), Waiting(b)]);
    var w4 := w.(history := w.history + [s1, s2],
                 calls := w.calls + [Publishing(s1.totals, h, 0), Publishing(s2.totals, h + 1, 0)]);
    assert w1.calls + [Waiting(b)] == w2.calls;
    assert w2.calls[n := Publishing(s1.totals, h, 0)] == w3.calls;
    assert w3.calls[n + 1 := Publishing(s2.totals, h + 1, 0)] == w4.calls && w3.history + [s2] == w4.history;
    assert Next(w, moves[0]) == w1 && Next(w1, moves[1]) == w2;
    assert Next(w2, moves[2]) == w3 && Next(w3, moves[3]) == w4;
    run := [w, w1, w2, w3, w4];
  }

  /** At any time two new calls can overlap so that, with nothing publishing any more, the vCPU gauge shows
      what the first one left; whatever other calls are about. */
  lemma OlderTotalsCanWin(w: World, a: Op, b: Op) returns (run: seq<World>, moves: seq<Move>)
    requires w.history != [] && Effective(a) && Effective(b)
    ensures IsPath(run, moves) && run[0] == w
    ensures var last := run[|moves|];
            && Quiet(last) && (AllReturned(w) ==> AllReturned(last))
            && last.history != [] && Current(last) == Apply(Apply(Current(w), a), b)
            && last.vcpu == Some(Gauge(Apply(Current(w), a).totals.vcpu, |w.history|))
  {
    hide Apply, Next, Enabled;
    var run1, moves1 := TwoCommits(w, a, b);
    var mid, i := run1[4], |w.calls|;
    var run2, moves2 := LastToPublish(mid, i, false);
    PathConcat(run1, moves1, run2, moves2);
    run, moves := run1 + run2[1..], moves1 + moves2;
    assert run[|moves|] == run2[|moves2|];
    assert WillWrite(mid.calls[i], Vcpu) && GaugeOf(run2[|moves2|], Vcpu) == run2[|moves2|].vcpu;
  }

  /** So, whatever the ledger, a registration overtaken by its own unregistration can leave the ledger as it
      was and the vCPU gauge counting the sandbox, with no call left to correct it. */
  lemma GaugeCanStayStale(w: World, a: Op) returns (run: seq<World>, moves: seq<Move>)
    requires w.history != [] && Ledger.Valid(Current(w)) && AllReturned(w)
    requires a.Reg? && Effective(a) && a.id !in Current(w).alloc && 0 < a.spec.vcpu < Ledger.TWO63
    ensures IsPath(run, moves) && run[0] == w
    ensures var last := run[|moves|];
            && AllReturned(last) && last.history != [] && Current(last) == Current(w) && last.vcpu.Some?
            && last.vcpu.value.value == Ledger.Wrap(Current(w).totals.vcpu + a.spec.vcpu) != Current(w).totals.vcpu
  {
    hide Next, Enabled, Ledger.Sum;
    Ledger.UnregisterUndoesRegister(Current(w), a.id, a.name, a.socket, a.spec);
    run, moves := OlderTotalsCanWin(w, a, Unreg(a.id));
  }
}
