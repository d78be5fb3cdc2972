/** The bounded fan-out shared by RefreshStatuses (`internal/service/sandbox.go`, lines 417-490) and
    pollOnce (`internal/metrics/manager.go`, lines 505-587): a launcher that adds to a wait group, takes
    a token from a channel of capacity `cap` and starts a worker; workers give the token back and then
    leave the wait group. */
module FanOut {

  /** `work` is how many steps its worker will take, `left` how many remain. */
  datatype Task =
    | Pending(work: nat)
    | Counted(work: nat)     // wg.Add(1) done, blocked on or about to send on the channel
    | Admitted(work: nat)    // token taken, goroutine not yet started
    | Working(left: nat)
    | Freed                  // token given back, wg.Done() still to come
    | Done
    | Skipped

  datatype Config = Config(cap: nat, skip: set<nat>)

  datatype World = World(next: nat, tasks: seq<Task>, tokens: nat, wg: nat, returned: bool)

  datatype Move = Skip | Add | Acquire | Spawn | Work(i: nat) | Free(i: nat) | Leave(i: nat) | Return

  ghost predicate Starts(w: World) {
    w.next == 0 && w.tokens == 0 && w.wg == 0 && !w.returned &&
    forall i :: 0 <= i < |w.tasks| ==> w.tasks[i].Pending?
  }

  predicate Enabled(c: Config, w: World, m: Move) {
    && !w.returned
    && match m
       case Skip => w.next < |w.tasks| && w.tasks[w.next].Pending? && w.next in c.skip
       case Add => w.next < |w.tasks| && w.tasks[w.next].Pending? && w.next !in c.skip
       case Acquire => w.next < |w.tasks| && w.tasks[w.next].Counted? && w.tokens < c.cap
       case Spawn => w.next < |w.tasks| && w.tasks[w.next].Admitted?
       case Work(i) => i < |w.tasks| && w.tasks[i].Working? && w.tasks[i].left > 0
       case Free(i) => i < |w.tasks| && w.tasks[i] == Working(0) && w.tokens > 0
       case Leave(i) => i < |w.tasks| && w.tasks[i].Freed? && w.wg > 0
       case Return => w.next == |w.tasks| && w.wg == 0
  }

  function Next(c: Config, w: World, m: Move): World
    requires Enabled(c, w, m)
  {
    match m
    case Skip => w.(tasks := w.tasks[w.next := Skipped], next := w.next + 1)
    case Add => w.(tasks := w.tasks[w.next := Counted(w.tasks[w.next].work)], wg := w.wg + 1)
    case Acquire => w.(tasks := w.tasks[w.next := Admitted(w.tasks[w.next].work)], tokens := w.tokens + 1)
    case Spawn => w.(tasks := w.tasks[w.next := Working(w.tasks[w.next].work)], next := w.next + 1)
    case Work(i) => w.(tasks := w.tasks[i := Working(w.tasks[i].left - 1)])
    case Free(i) => w.(tasks := w.tasks[i := Freed], tokens := w.tokens - 1)
    case Leave(i) => w.(tasks := w.tasks[i := Done], wg := w.wg - 1)
    case Return => w.(returned := true)
  }

  ghost predicate IsRun(c: Config, run: seq<World>, moves: seq<Move>) {
    && |run| == |moves| + 1
    && Starts(run[0])
    && forall k :: 0 <= k < |moves| ==> Enabled(c, run[k], moves[k]) && run[k + 1] == Next(c, run[k], moves[k])
  }

  // ---------------------------------------------------------------- counting

  datatype What = Tokens | Members | Waiting | Leaving | Steps

  /** Whether a task holds a token, belongs to the wait group, is the launcher's waiting task, is
      between giving back its token and leaving; and how many moves it still has to make. */
  function Weight(what: What, t: Task): nat {
    match what
    case Tokens => if t.Admitted? || t.Working? then 1 else 0
    case Members => if t.Counted? || t.Admitted? || t.Working? || t.Freed? then 1 else 0
    case Waiting => if t.Counted? then 1 else 0
    case Leaving => if t.Freed? then 1 else 0
    case Steps =>
      match t
      case Pending(n) => n + 5
      case Counted(n) => n + 4
      case Admitted(n) => n + 3
      case Working(n) => n + 2
      case Freed => 1
      case Done => 0
      case Skipped => 0
  }

  function Total(what: What, tasks: seq<Task>): nat {
    if tasks == [] then 0 else Weight(what, tasks[0]) + Total(what, tasks[1..])
  }

  lemma {:induction false} TotalUpdate(what: What, tasks: seq<Task>, i: nat, t: Task)
    requires i < |tasks|
    ensures Total(what, tasks[i := t]) == Total(what, tasks) - Weight(what, tasks[i]) + Weight(what, t)
  {
    if i == 0 {
      assert tasks[0 := t][1..] == tasks[1..];
    } else {
      TotalUpdate(what, tasks[1..], i - 1, t);
      assert tasks[i := t][1..] == tasks[1..][i - 1 := t];
    }
  }

  lemma {:induction false} TotalZero(what: What, tasks: seq<Task>)
    ensures Total(what, tasks) == 0 <==> forall i :: 0 <= i < |tasks| ==> Weight(what, tasks[i]) == 0
  {
    if tasks != [] {
      TotalZero(what, tasks[1..]);
      assert forall i :: 1 <= i < |tasks| ==> tasks[i] == tasks[1..][i - 1];
    }
  }

  lemma {:induction false} TotalsAddUp(tasks: seq<Task>)
    ensures Total(Members, tasks) == Total(Tokens, tasks) + Total(Waiting, tasks) + Total(Leaving, tasks)
  {
    if tasks != [] {
      TotalsAddUp(tasks[1..]);
    }
  }

  // ---------------------------------------------------------------- invariant

  ghost predicate Inv(c: Config, w: World) {
    && w.next <= |w.tasks|
    && w.tokens == Total(Tokens, w.tasks)
    && w.wg == Total(Members, w.tasks)
    && w.tokens <= c.cap
    && (forall i :: 0 <= i < w.next ==>
          if i in c.skip then w.tasks[i].Skipped? else w.tasks[i].Working? || w.tasks[i].Freed? || w.tasks[i].Done?)
    && (forall i :: w.next < i < |w.tasks| ==> w.tasks[i].Pending?)
    && (w.next < |w.tasks| ==>
          w.tasks[w.next].Pending? || (w.next !in c.skip && (w.tasks[w.next].Counted? || w.tasks[w.next].Admitted?)))
    && (w.returned ==> w.next == |w.tasks| && w.wg == 0)
  }

  lemma StartInv(c: Config, w: World)
    requires Starts(w)
    ensures Inv(c, w)
  {
    TotalZero(Tokens, w.tasks);
    TotalZero(Members, w.tasks);
  }

  /** Which element of `tasks` a move is about. */
  function Touched(w: World, m: Move): nat {
    match m
    case Work(i) => i
    case Free(i) => i
    case Leave(i) => i
    case _ => w.next
  }

  lemma MoveTotals(c: Config, w: World, m: Move, what: What)
    requires Enabled(c, w, m) && !m.Return?
    ensures var i, w' := Touched(w, m), Next(c, w, m);
            i < |w.tasks| == |w'.tasks| &&
            Total(what, w'.tasks) == Total(what, w.tasks) - Weight(what, w.tasks[i]) + Weight(what, w'.tasks[i])
  {
    var i := Touched(w, m);
    TotalUpdate(what, w.tasks, i, Next(c, w, m).tasks[i]);
  }

  lemma StepKeepsInv(c: Config, w: World, m: Move)
    requires Inv(c, w) && Enabled(c, w, m)
    ensures Inv(c, Next(c, w, m))
  {
    if !m.Return? {
      MoveTotals(c, w, m, Tokens);
      MoveTotals(c, w, m, Members);
    }
  }

  lemma {:induction false} RunKeepsInv(c: Config, run: seq<World>, moves: seq<Move>, k: nat)
    requires IsRun(c, run, moves) && k < |run|
    ensures Inv(c, run[k]) && |run[k].tasks| == |run[0].tasks|
  {
    if k == 0 {
      StartInv(c, run[0]);
    } else {
      RunKeepsInv(c, run, moves, k - 1);
      StepKeepsInv(c, run[k - 1], moves[k - 1]);
    }
  }

  /** At most `cap` tasks hold a token, and the wait group counts the token holders, the launcher's task
      while it waits for a token, and the workers between their two deferred steps. */
  lemma BoundedAndCounted(c: Config, run: seq<World>, moves: seq<Move>, k: nat)
    requires IsRun(c, run, moves) && k < |run|
    ensures var w := run[k];
            && Total(Tokens, w.tasks) == w.tokens <= c.cap
            && w.wg == w.tokens + Total(Waiting, w.tasks) + Total(Leaving, w.tasks)
            && Total(Waiting, w.tasks) <= 1
  {
    RunKeepsInv(c, run, moves, k);
    var w := run[k];
    TotalsAddUp(w.tasks);
    if w.next < |w.tasks| {
      TotalUpdate(Waiting, w.tasks, w.next, Done);
      TotalZero(Waiting, w.tasks[w.next := Done]);
    } else {
      TotalZero(Waiting, w.tasks);
    }
  }

  /** The wait group can count more than the token holders: the launcher waiting for a token, and a worker
      that has given its token back. */
  lemma GroupExceedsTokens() returns (c: Config, run: seq<World>, moves: seq<Move>)
    ensures IsRun(c, run, moves) && |moves| == 5
    ensures run[1].wg == 1 && run[1].tokens == 0
    ensures run[5].wg == 1 && run[5].tokens == 0
  {
    c := Config(1, {});
    var w0 := World(0, [Pending(1)], 0, 0, false);
    var w1 := World(0, [Counted(1)], 0, 1, false);
    var w2 := World(0, [Admitted(1)], 1, 1, false);
    var w3 := World(1, [Working(1)], 1, 1, false);
    var w4 := World(1, [Working(0)], 1, 1, false);
    var w5 := World(1, [Freed], 0, 1, false);
    assert Enabled(c, w0, Add) && Next(c, w0, Add) == w1;
    assert Enabled(c, w1, Acquire) && Next(c, w1, Acquire) == w2;
    assert Enabled(c, w2, Spawn) && Next(c, w2, Spawn) == w3;
    assert Enabled(c, w3, Work(0)) && Next(c, w3, Work(0)) == w4;
    assert Enabled(c, w4, Free(0)) && Next(c, w4, Free(0)) == w5;
    hide Enabled, Next;
    moves := [Add, Acquire, Spawn, Work(0), Free(0)];
    run := [w0, w1, w2, w3, w4, w5];
  }

  // ---------------------------------------------------------------- progress

  ghost function Measure(w: World): nat {
    Total(Steps, w.tasks) + if w.returned then 0 else 1
  }

  /** Every move brings the end nearer. */
  lemma MovesDecrease(c: Config, w: World, m: Move)
    requires Enabled(c, w, m)
    ensures Measure(Next(c, w, m)) < Measure(w)
  {
    if !m.Return? {
      MoveTotals(c, w, m, Steps);
    }
  }

  /** No state but the final one is stuck, provided the channel has room for at least one token. */
  lemma NeverStuck(c: Config, w: World) returns (m: Move)
    requires Inv(c, w) && c.cap > 0 && !w.returned
    ensures Enabled(c, w, m)
  {
    TotalZero(Tokens, w.tasks);
    TotalZero(Members, w.tasks);
    if i :| 0 <= i < w.next && w.tasks[i].Working? {
      assert Weight(Tokens, w.tasks[i]) == 1;
      m := if w.tasks[i].left > 0 then Work(i) else Free(i);
    } else if i :| 0 <= i < w.next && w.tasks[i].Freed? {
      assert Weight(Members, w.tasks[i]) == 1;
      m := Leave(i);
    } else if w.next == |w.tasks| {
      m := Return;
    } else if w.tasks[w.next].Pending? {
      m := if w.next in c.skip then Skip else Add;
    } else if w.tasks[w.next].Counted? {
      m := Acquire;
    } else {
      m := Spawn;
    }
  }

  lemma {:induction false} RunsAreShort(c: Config, run: seq<World>, moves: seq<Move>, k: nat)
    requires IsRun(c, run, moves) && k < |run|
    ensures k + Measure(run[k]) <= Measure(run[0])
  {
    if k > 0 {
      RunsAreShort(c, run, moves, k - 1);
      MovesDecrease(c, run[k - 1], moves[k - 1]);
    }
  }

  /** Every run is at most as long as the work in it, and a run that cannot be continued has returned,
      with every task done except the skipped ones. */
  lemma RunsEndProperly(c: Config, run: seq<World>, moves: seq<Move>)
    requires IsRun(c, run, moves) && c.cap > 0
    ensures |moves| <= Total(Steps, run[0].tasks) + 1
    ensures var last := run[|moves|];
            (forall m :: !Enabled(c, last, m)) <==> last.returned
    ensures var last := run[|moves|];
            last.returned ==>
              && |last.tasks| == |run[0].tasks|
              && forall i :: 0 <= i < |last.tasks| ==> last.tasks[i] == (if i in c.skip then Skipped else Done)
  {
    var last := run[|moves|];
    RunsAreShort(c, run, moves, |moves|);
    RunKeepsInv(c, run, moves, |moves|);
    if last.returned {
      TotalZero(Members, last.tasks);
      forall i | 0 <= i < |last.tasks|
        ensures last.tasks[i] == if i in c.skip then Skipped else Done
      {
        assert Weight(Members, last.tasks[i]) == 0;
      }
    } else {
      var m := NeverStuck(c, last);
    }
  }
}
