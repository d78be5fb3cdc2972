/** The two-way relay of Proxy and ConnectSession (`internal/handler/pty.go`, lines 54-127 and 206-273):
    two goroutines copying messages, a shutdown channel closed through a sync.Once, and a wait group. */
module Relay {

  datatype Message = Message(kind: nat, data: string)

  datatype Phase =
    | Top                       // about to poll the shutdown channel
    | Reading                   // blocked in ReadMessage
    | Writing(msg: Message)     // about to WriteMessage
    | Closing                   // read or write failed, about to call closeShutdown
    | Exited

  /** One direction. `inbox` is everything its peer will ever send; `late` counts the messages
      delivered after the shutdown channel was closed. */
  datatype Pump = Pump(inbox: seq<Message>, phase: Phase, read: seq<Message>, delivered: seq<Message>, late: nat)

  /** `once` is the sync.Once, `closes` how often `close(shutdownChan)` has been executed. */
  datatype World = World(toAgent: Pump, toClient: Pump, once: bool, closes: nat, wg: nat, returned: bool)

  datatype Direction = ToAgent | ToClient

  datatype Act = Poll | Read | ReadFails | Write | WriteFails | Close

  datatype Move = Move(dir: Direction, act: Act) | Return

  function Dir(w: World, d: Direction): Pump {
    if d == ToAgent then w.toAgent else w.toClient
  }

  function With(w: World, d: Direction, p: Pump): World {
    if d == ToAgent then w.(toAgent := p) else w.(toClient := p)
  }

  /** A receive from the closed channel succeeds at once, so the poll sees the shutdown iff it happened. */
  predicate Shut(w: World) {
    w.closes > 0
  }

  predicate PumpEnabled(p: Pump, act: Act) {
    match act
    case Poll => p.phase.Top?
    case Read => p.phase.Reading? && |p.read| < |p.inbox|
    case ReadFails => p.phase.Reading?
    case Write => p.phase.Writing?
    case WriteFails => p.phase.Writing?
    case Close => p.phase.Closing?
  }

  predicate Enabled(w: World, m: Move) {
    match m
    case Return => w.wg == 0 && !w.returned
    case Move(d, act) => PumpEnabled(Dir(w, d), act) && w.wg > 0
  }

  /** A goroutine's own part of a step; `shut` is whether the channel is closed when it takes it. */
  function NextPump(p: Pump, act: Act, shut: bool): Pump
    requires PumpEnabled(p, act)
  {
    match act
    case Poll => p.(phase := if shut then Exited else Reading)
    case Read => p.(phase := Writing(p.inbox[|p.read|]), read := p.read + [p.inbox[|p.read|]])
    case ReadFails => p.(phase := Closing)
    case Write => p.(phase := Top, delivered := p.delivered + [p.phase.msg], late := p.late + if shut then 1 else 0)
    case WriteFails => p.(phase := Closing)
    case Close => p.(phase := Exited)
  }

  function Next(w: World, m: Move): World
    requires Enabled(w, m)
  {
    match m
    case Return => w.(returned := true)
    case Move(d, act) =>
      var w' := With(w, d, NextPump(Dir(w, d), act, Shut(w)));
      match act
      case Poll => if Shut(w) then w'.(wg := w.wg - 1) else w'     // the deferred wg.Done
      case Close =>
        // shutdownOnce.Do(close), then the deferred wg.Done
        w'.(once := true, closes := if w.once then w.closes else w.closes + 1, wg := w.wg - 1)
      case _ => w'
  }

  predicate Starts(w: World) {
    && (forall d :: var p := Dir(w, d); p.phase.Top? && p.read == [] && p.delivered == [] && p.late == 0)
    && !w.once && w.closes == 0 && w.wg == 2 && !w.returned
  }

  ghost predicate IsRun(run: seq<World>, moves: seq<Move>) {
    && |run| == |moves| + 1
    && Starts(run[0])
    && forall k :: 0 <= k < |moves| ==> Enabled(run[k], moves[k]) && run[k + 1] == Next(run[k], moves[k])
  }

  ghost predicate PumpInv(p: Pump, shut: bool) {
    && p.delivered <= p.read <= p.inbox
    && |p.read| - |p.delivered| <= 1
    && (p.phase.Writing? ==> p.read == p.delivered + [p.phase.msg])
    && (p.phase.Top? || p.phase.Reading? ==> p.read == p.delivered)
    && p.late <= 1
    && (!shut ==> p.late == 0)
    && (p.late == 1 ==> p.phase.Top? || p.phase.Exited?)
  }

  function Running(p: Pump): nat {
    if p.phase.Exited? then 0 else 1
  }

  ghost predicate Inv(w: World) {
    && PumpInv(w.toAgent, Shut(w)) && PumpInv(w.toClient, Shut(w))
    && w.closes == (if w.once then 1 else 0)
    && w.wg == Running(w.toAgent) + Running(w.toClient)
    && (w.returned ==> w.wg == 0)
    && (w.toAgent.phase.Exited? || w.toClient.phase.Exited? ==> Shut(w))
  }

  lemma PumpStepKeepsInv(p: Pump, act: Act, shut: bool)
    requires PumpInv(p, shut) && PumpEnabled(p, act)
    ensures PumpInv(NextPump(p, act, shut), shut)
  {
    var p' := NextPump(p, act, shut);
    if act.Write? {
      assert p'.delivered == p.read;
    } else if act.Read? {
      assert p'.read == p.delivered + [p'.phase.msg];
      assert p'.read == p.inbox[..|p.read| + 1];
    }
  }

  lemma StepKeepsInv(w: World, m: Move)
    requires Inv(w) && Enabled(w, m)
    ensures Inv(Next(w, m))
  {
    if m.Move? {
      PumpStepKeepsInv(Dir(w, m.dir), m.act, Shut(w));
    }
  }

  lemma {:induction false} RunKeepsInv(run: seq<World>, moves: seq<Move>, k: nat)
    requires IsRun(run, moves) && k < |run|
    ensures Inv(run[k])
    ensures forall d :: Dir(run[k], d).inbox == Dir(run[0], d).inbox
  {
    if k > 0 {
      RunKeepsInv(run, moves, k - 1);
      StepKeepsInv(run[k - 1], moves[k - 1]);
    } else {
      assert PumpInv(Dir(run[0], ToAgent), false) && PumpInv(Dir(run[0], ToClient), false);
    }
  }

  /** In every interleaving and each direction: what was delivered is a prefix of what was read, which is
      a prefix of what the peer sent, at most one message behind; the shutdown channel is closed at most
      once; after that at most one more message is delivered; and the handler returns only when both
      goroutines have exited, the channel then being closed. */
  lemma RelaySafety(run: seq<World>, moves: seq<Move>, k: nat, d: Direction)
    requires IsRun(run, moves) && k < |run|
    ensures var w := run[k];
            var p := Dir(w, d);
            && p.delivered <= p.read <= Dir(run[0], d).inbox
            && |p.read| <= |p.delivered| + 1
            && w.closes <= 1
            && p.late <= 1
            && (w.returned ==> w.closes == 1 && p.phase.Exited?)
  {
    RunKeepsInv(run, moves, k);
  }

  // ---------------------------------------------------------------- what a relay can do

  ghost predicate IsPath(run: seq<World>, moves: seq<Move>) {
    && |run| == |moves| + 1
    && forall k :: 0 <= k < |moves| ==> Enabled(run[k], moves[k]) && run[k + 1] == Next(run[k], moves[k])
  }

  function Other(d: Direction): Direction {
    if d == ToAgent then ToClient else ToAgent
  }

  /** The move of a goroutine that meets no failure. */
  function Onward(p: Pump): Act
    requires p.phase.Top? || p.phase.Writing? || (p.phase.Reading? && |p.read| < |p.inbox|)
  {
    if p.phase.Top? then Poll else if p.phase.Writing? then Write else Read
  }

  function Ahead(p: Pump): nat
    requires |p.read| <= |p.inbox|
  {
    3 * (|p.inbox| - |p.read|) + if p.phase.Writing? then 2 else if p.phase.Top? then 1 else 0
  }

  /** While the channel is open and nothing fails, a direction goes on until it has delivered everything its
      peer sends, whatever the other direction is doing. */
  lemma {:induction false} DeliversEverything(w: World, d: Direction) returns (run: seq<World>, moves: seq<Move>)
    requires Inv(w) && !Shut(w) && !Dir(w, d).phase.Closing?
    ensures IsPath(run, moves) && run[0] == w
    ensures var last := run[|moves|];
            Dir(last, d).delivered == Dir(w, d).inbox && Dir(last, Other(d)) == Dir(w, Other(d)) && !Shut(last)
    decreases Ahead(Dir(w, d))
  {
    var p := Dir(w, d);
    if p.delivered == p.inbox {
      run, moves := [w], [];
    } else {
      assert p.phase.Writing? || p.read == p.delivered;
      var m := Move(d, Onward(p));
      StepKeepsInv(w, m);
      var run1, moves1 := DeliversEverything(Next(w, m), d);
      run, moves := [w] + run1, [m] + moves1;
      PathCons(w, m, run1, moves1);
    }
  }

  /** The move of a goroutine whose connections have failed. */
  function Failing(p: Pump): Act
    requires !p.phase.Exited?
  {
    match p.phase
    case Top => Poll
    case Reading => ReadFails
    case Writing(_) => WriteFails
    case Closing => Close
  }

  function ToExit(p: Pump): nat {
    match p.phase
    case Top => 3
    case Reading => 2
    case Writing(_) => 2
    case Closing => 1
    case Exited => 0
  }

  /** From any reachable state, once the connections fail, both goroutines exit and the handler returns. */
  lemma {:induction false} EndsWhenConnectionsFail(w: World) returns (run: seq<World>, moves: seq<Move>)
    requires Inv(w)
    ensures IsPath(run, moves) && run[0] == w && run[|moves|].returned
    decreases ToExit(w.toAgent) + ToExit(w.toClient), if w.returned then 0 else 1
  {
    if w.returned {
      run, moves := [w], [];
    } else {
      var m := if !w.toAgent.phase.Exited? then Move(ToAgent, Failing(w.toAgent))
               else if !w.toClient.phase.Exited? then Move(ToClient, Failing(w.toClient))
               else Return;
      StepKeepsInv(w, m);
      var run1, moves1 := EndsWhenConnectionsFail(Next(w, m));
      run, moves := [w] + run1, [m] + moves1;
      PathCons(w, m, run1, moves1);
    }
  }

  lemma PathCons(w: World, m: Move, run: seq<World>, moves: seq<Move>)
    requires Enabled(w, m) && IsPath(run, moves) && run[0] == Next(w, m)
    ensures IsPath([w] + run, [m] + moves)
  {
    hide Enabled, Next;
    var run', moves' := [w] + run, [m] + moves;
    forall k | 0 <= k < |moves'| ensures Enabled(run'[k], moves'[k]) && run'[k + 1] == Next(run'[k], moves'[k]) {
      if k > 0 {
        assert run'[k] == run[k - 1] && run'[k + 1] == run[k] && moves'[k] == moves[k - 1];
      }
    }
  }

  // ---------------------------------------------------------------- after the shutdown

  ghost predicate SameOrOneMore(before: seq<Message>, after: seq<Message>) {
    before <= after && |after| <= |before| + 1
  }

  lemma LateStep(w: World, m: Move, d: Direction)
    requires Enabled(w, m) && Shut(w)
    ensures var p, p' := Dir(w, d), Dir(Next(w, m), d);
            && Shut(Next(w, m))
            && p.delivered <= p'.delivered && |p'.delivered| - |p.delivered| == p'.late - p.late
  {
  }

  lemma {:induction false} LateCounts(run: seq<World>, moves: seq<Move>, j: nat, k: nat, d: Direction)
    requires IsRun(run, moves) && j <= k < |run| && Shut(run[j])
    ensures Shut(run[k])
    ensures Dir(run[j], d).delivered <= Dir(run[k], d).delivered
    ensures |Dir(run[k], d).delivered| - |Dir(run[j], d).delivered| == Dir(run[k], d).late - Dir(run[j], d).late
  {
    if j < k {
      LateCounts(run, moves, j, k - 1, d);
      LateStep(run[k - 1], moves[k - 1], d);
    }
  }

  /** From any state with the channel closed, the rest of the run delivers at most one more message in
      each direction, and none in a direction whose goroutine has exited. */
  lemma AtMostOneAfterShutdown(run: seq<World>, moves: seq<Move>, j: nat, k: nat, d: Direction)
    requires IsRun(run, moves) && j <= k < |run| && Shut(run[j])
    ensures SameOrOneMore(Dir(run[j], d).delivered, Dir(run[k], d).delivered)
    ensures Dir(run[j], d).phase.Exited? ==> Dir(run[k], d).delivered == Dir(run[j], d).delivered
  {
    LateCounts(run, moves, j, k, d);
    RunKeepsInv(run, moves, k);
    if Dir(run[j], d).phase.Exited? {
      ExitedStays(run, moves, j, k, d);
    }
  }

  lemma {:induction false} ExitedStays(run: seq<World>, moves: seq<Move>, j: nat, k: nat, d: Direction)
    requires IsRun(run, moves) && j <= k < |run| && Dir(run[j], d).phase.Exited?
    ensures Dir(run[k], d) == Dir(run[j], d)
  {
    if j < k {
      ExitedStays(run, moves, j, k - 1, d);
    }
  }
}
