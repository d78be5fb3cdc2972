/** All sandboxes of a host together, over whole runs of lifecycle operations: which VMs run, which links
    they own and which addresses they have (`internal/service/sandbox.go`, lines 145-337). */
module Fleet {
  import opened Options
  import opened Addressing
  import opened Machine
  import opened ObjectIds
  import opened Lifecycle
  import opened Conservation
  import Allocator
  import Ledger

  /** A run from a host without sandboxes; links of other owners may exist. */
  ghost predicate IsFreshRun(su: Setup, run: seq<World>, ops: seq<Op>) {
    && IsRun(su, run, ops)
    && run[0].rows == map[] && run[0].host.procs == {} && run[0].host.dirs == map[]
  }

  // ---------------------------------------------------------------- processes and links

  /** Every process has a row to be found by and a pid file to be stopped by. */
  ghost predicate NoOrphans(w: World) {
    forall id :: id in w.host.procs ==> Known(w.rows, id) && id in w.host.dirs && w.host.dirs[id].pid
  }

  /** The link a directory names, if it names one. */
  function TapOf(w: World, id: Id): Option<string> {
    if id in w.host.dirs then w.host.dirs[id].tap else None
  }

  /** Every named link exists, and no two directories name the same one. */
  ghost predicate OwnLinks(w: World) {
    && (forall id :: TapOf(w, id).Some? ==> TapOf(w, id).value in w.host.taps)
    && (forall i, j :: i != j && TapOf(w, i).Some? ==> TapOf(w, i) != TapOf(w, j))
  }

  /** The Delete leaves no process behind without a row or a directory: its text does not name all
      directories while VMs run, and it does not drop, by another spelling, the row of a running VM. */
  predicate KeepsRunning(w: World, op: Op) {
    && (op.Delete? && NamesAll(op.id) ==> w.host.procs == {})
    && (Dropped(w, op).Some? ==> op.id == Hex(Dropped(w, op).value) || Hex(Dropped(w, op).value) !in w.host.procs)
  }

  lemma CreateKeepsLinks(su: Setup, w: World, req: Request, oid: Oid, ip: string, s: Script)
    requires OwnLinks(w) && ValidAnswers(s.host) && FreshId(w, oid)
    ensures var w' := CreateSteps(su.cfg, su.tapPrefix, w, req, oid, ip, s);
            OwnLinks(w') && (NoOrphans(w) ==> NoOrphans(w'))
  {
    hide StageOf, TapFrom, NewRow, RegisterRow, CreateSteps, Parse, Canonical, Hex;
    CreateStepByStep(su.cfg, su.tapPrefix, w, req, oid, ip, s);
    var w' := CreateOutcome(su.cfg, su.tapPrefix, w, req, oid, ip, s);
    var added := TapAdded(su.tapPrefix, w.host.taps, s.host);
    assert forall j :: j != Hex(oid) ==> TapOf(w', j) == TapOf(w, j);
    assert TapOf(w', Hex(oid)).Some? ==> TapOf(w', Hex(oid)) == added;
    KnownHex(w'.rows, oid);
    assert forall id :: Known(w.rows, id) ==> Known(w'.rows, id);
  }

  /** The directories that a Stop, and perhaps a removal, leave name a part of the links there were. */
  lemma StopKeepsLinks(w: World, id: Id)
    requires OwnLinks(w)
    ensures OwnLinks(w.(host := StopState(w.host, id)))
  {
    var w' := w.(host := StopState(w.host, id));
    forall j ensures TapOf(w', j) == (if j == id then None else TapOf(w, j)) {
    }
    forall j | TapOf(w', j).Some? ensures TapOf(w', j).value in w'.host.taps {
      assert TapOf(w, j) != TapOf(w, id);
    }
  }

  /** What a Stop does to the other sandboxes' processes, and to its own. */
  lemma StopKills(w: World, id: Id)
    requires NoOrphans(w)
    ensures StopState(w.host, id).procs == w.host.procs - {id}
    ensures NoOrphans(w.(host := StopState(w.host, id)))
  {
    hide Known;
  }

  lemma StepKeepsLinks(su: Setup, w: World, op: Op)
    requires OwnLinks(w) && Enabled(w, op)
    ensures OwnLinks(Next(su, w, op))
  {
    hide StopState, CreateSteps, Ledger.Unregister, Parse;
    var w' := Next(su, w, op);
    match op
    case Create(req, oid, ip, s) =>
      if ip.Some? { CreateKeepsLinks(su, w, req, oid, ip.value, s); }
    case Delete(id, _, _) =>
      StopKeepsLinks(w, id);
      var stopped := w.(host := StopState(w.host, id));
      assert forall j :: TapOf(w', j) == TapOf(stopped, j) || TapOf(w', j) == None;
    case Stop(id) =>
      StopKeepsLinks(w, id);
      var stopped := w.(host := StopState(w.host, id));
      assert forall j :: TapOf(w', j) == TapOf(stopped, j);
    case _ =>
      assert forall j :: TapOf(w', j) == TapOf(w, j);
  }

  /** In every run, whatever fails on the way and whatever the deletes name, each recorded link exists
      and belongs to one sandbox. */
  lemma {:induction false} LinksStayOwned(su: Setup, run: seq<World>, ops: seq<Op>, k: nat)
    requires IsFreshRun(su, run, ops) && k < |run|
    ensures OwnLinks(run[k])
  {
    hide Next, Enabled;
    if k > 0 {
      LinksStayOwned(su, run, ops, k - 1);
      StepKeepsLinks(su, run[k - 1], ops[k - 1]);
    }
  }

  // ---------------------------------------------------------------- links nobody records

  /** The links in `base`, which others own, exist and are recorded by no directory. */
  ghost predicate ForeignKept(w: World, base: set<string>) {
    base <= w.host.taps && forall id :: TapOf(w, id).Some? ==> TapOf(w, id).value !in base
  }

  /** Every link but those in `base` is recorded by a directory. */
  ghost predicate NoStrays(w: World, base: set<string>) {
    forall t :: t in w.host.taps && t !in base ==> exists id :: TapOf(w, id) == Some(t)
  }

  /** The Create leaves a link behind when it fails, or succeeds with vm.tap not written. */
  predicate LeavesLink(su: Setup, w: World, op: Op)
    requires Enabled(w, op)
  {
    op.Create? && op.ip.Some? &&
    var stage := StageOf(su.tapPrefix, w.host.taps, op.req, op.script);
    LeavesTap(stage, op.script.host) || (stage.Completed? && !op.script.host.tapFile)
  }

  /** The Delete takes directories that record links of other sandboxes. */
  ghost predicate DropsRecords(w: World, op: Op) {
    op.Delete? && NamesAll(op.id) && exists id :: id != op.id && TapOf(w, id).Some?
  }

  lemma CreateStraysIff(su: Setup, w: World, op: Op, base: set<string>)
    requires Enabled(w, op) && op.Create? && op.ip.Some?
    requires OwnLinks(w) && ForeignKept(w, base) && NoStrays(w, base)
    ensures NoStrays(Next(su, w, op), base) <==> !LeavesLink(su, w, op)
  {
    hide TapFrom, NewRow, RegisterRow, CreateSteps, Hex;
    CreateStepByStep(su.cfg, su.tapPrefix, w, op.req, op.oid, op.ip.value, op.script);
    var w', id := Next(su, w, op), Hex(op.oid);
    var added := TapAdded(su.tapPrefix, w.host.taps, op.script.host);
    assert forall j :: j != id ==> TapOf(w', j) == TapOf(w, j);
    assert TapOf(w, id) == None;
    if LeavesLink(su, w, op) {
      assert added.value in w'.host.taps && added.value !in base;
      assert forall j :: TapOf(w', j) != added;
    } else {
      forall t | t in w'.host.taps && t !in base ensures exists j :: TapOf(w', j) == Some(t) {
        if t in w.host.taps {
          var j :| TapOf(w, j) == Some(t);
          assert TapOf(w', j) == Some(t);
        } else {
          assert TapOf(w', id) == Some(t);
        }
      }
    }
  }

  lemma CreateKeepsForeign(su: Setup, w: World, op: Op, base: set<string>)
    requires Enabled(w, op) && op.Create? && op.ip.Some? && ForeignKept(w, base)
    ensures ForeignKept(Next(su, w, op), base)
  {
    hide TapFrom, StageOf, NewRow, RegisterRow, CreateSteps, Hex;
    CreateStepByStep(su.cfg, su.tapPrefix, w, op.req, op.oid, op.ip.value, op.script);
    var w', id := Next(su, w, op), Hex(op.oid);
    var added := TapAdded(su.tapPrefix, w.host.taps, op.script.host);
    assert forall j :: j != id ==> TapOf(w', j) == TapOf(w, j);
    assert TapOf(w', id).Some? ==> TapOf(w', id) == added;
  }

  lemma StopEffect(w: World, id: Id)
    ensures var stopped := w.(host := StopState(w.host, id));
            && stopped.host.taps == (if TapOf(w, id).Some? then w.host.taps - {TapOf(w, id).value} else w.host.taps)
            && forall j :: TapOf(stopped, j) == if j == id then None else TapOf(w, j)
  {
  }

  /** A Stop removes the one link it finds recorded. */
  lemma StopLinks(w: World, id: Id, base: set<string>)
    requires OwnLinks(w) && ForeignKept(w, base)
    ensures var stopped := w.(host := StopState(w.host, id));
            && ForeignKept(stopped, base)
            && (forall j :: TapOf(stopped, j) == if j == id then None else TapOf(w, j))
            && (NoStrays(w, base) ==> NoStrays(stopped, base))
  {
    hide StopState, OwnLinks;
    StopEffect(w, id);
    var stopped := w.(host := StopState(w.host, id));
    assert base <= stopped.host.taps;
    assert forall j :: TapOf(stopped, j).Some? ==> TapOf(w, j) == TapOf(stopped, j);
    if NoStrays(w, base) {
      forall t | t in stopped.host.taps && t !in base ensures exists j :: TapOf(stopped, j) == Some(t) {
        var j :| TapOf(w, j) == Some(t);
        assert TapOf(stopped, j) == Some(t);
      }
    }
  }

  lemma DeleteStraysIff(su: Setup, w: World, op: Op, base: set<string>)
    requires Enabled(w, op) && op.Delete? && OwnLinks(w) && ForeignKept(w, base) && NoStrays(w, base)
    ensures NoStrays(Next(su, w, op), base) <==> !DropsRecords(w, op)
  {
    hide StopState, Ledger.Unregister, Parse, OwnLinks;
    StopLinks(w, op.id, base);
    StopKeepsLinks(w, op.id);
    var stopped, w' := w.(host := StopState(w.host, op.id)), Next(su, w, op);
    if NamesAll(op.id) {
      assert forall j :: TapOf(w', j) == None;
      if j :| j != op.id && TapOf(w, j).Some? {
        assert TapOf(stopped, j) == TapOf(w, j);
        assert TapOf(stopped, j).value in w'.host.taps by { LinkExists(stopped, j); }
      } else {
        assert forall j :: TapOf(stopped, j) == None;
      }
    } else {
      assert forall j :: TapOf(w', j) == TapOf(stopped, j);
    }
  }

  lemma LinkExists(w: World, id: Id)
    requires OwnLinks(w) && TapOf(w, id).Some?
    ensures TapOf(w, id).value in w.host.taps
  {
  }

  lemma StepKeepsForeign(su: Setup, w: World, op: Op, base: set<string>)
    requires Enabled(w, op) && OwnLinks(w) && ForeignKept(w, base)
    ensures ForeignKept(Next(su, w, op), base)
  {
    hide StopState, CreateSteps, Ledger.Unregister, Parse, OwnLinks;
    var w' := Next(su, w, op);
    match op
    case Create(_, _, ip, _) =>
      if ip.Some? { CreateKeepsForeign(su, w, op, base); }
    case Delete(id, _, _) =>
      StopLinks(w, id, base);
      var stopped := w.(host := StopState(w.host, id));
      assert forall j :: TapOf(w', j) == TapOf(stopped, j) || TapOf(w', j) == None;
    case Stop(id) =>
      StopLinks(w, id, base);
      var stopped := w.(host := StopState(w.host, id));
      assert forall j :: TapOf(w', j) == TapOf(stopped, j);
    case _ =>
      assert forall j :: TapOf(w', j) == TapOf(w, j);
  }

  lemma StepStraysIff(su: Setup, w: World, op: Op, base: set<string>)
    requires Enabled(w, op) && OwnLinks(w) && ForeignKept(w, base) && NoStrays(w, base)
    ensures NoStrays(Next(su, w, op), base) <==> !LeavesLink(su, w, op) && !DropsRecords(w, op)
  {
    hide StopState, CreateSteps, DeleteOutcome, Ledger.Unregister, Parse, OwnLinks;
    var w' := Next(su, w, op);
    match op
    case Create(_, _, ip, _) =>
      if ip.Some? { CreateStraysIff(su, w, op, base); }
    case Delete(_, _, _) =>
      DeleteStraysIff(su, w, op, base);
    case Stop(id) =>
      StopLinks(w, id, base);
      var stopped := w.(host := StopState(w.host, id));
      assert forall j :: TapOf(w', j) == TapOf(stopped, j);
    case _ =>
      assert forall j :: TapOf(w', j) == TapOf(w, j);
  }

  /** In every run the links that were there at the start stay, and no sandbox records one of them. */
  lemma {:induction false} ForeignLinksKept(su: Setup, run: seq<World>, ops: seq<Op>, k: nat)
    requires IsFreshRun(su, run, ops) && k < |run|
    ensures ForeignKept(run[k], run[0].host.taps)
  {
    hide Next, Enabled, OwnLinks;
    if k > 0 {
      ForeignLinksKept(su, run, ops, k - 1);
      LinksStayOwned(su, run, ops, k - 1);
      StepKeepsForeign(su, run[k - 1], ops[k - 1], run[0].host.taps);
    }
  }

  lemma {:induction false} RunLeavesNoStrays(su: Setup, run: seq<World>, ops: seq<Op>, k: nat)
    requires IsFreshRun(su, run, ops) && k < |run|
    requires forall i :: 0 <= i < k ==> !LeavesLink(su, run[i], ops[i]) && !DropsRecords(run[i], ops[i])
    ensures NoStrays(run[k], run[0].host.taps)
  {
    hide Next, Enabled, OwnLinks, ForeignKept, LeavesLink, DropsRecords;
    if k > 0 {
      RunLeavesNoStrays(su, run, ops, k - 1);
      LinksStayOwned(su, run, ops, k - 1);
      ForeignLinksKept(su, run, ops, k - 1);
      StepStraysIff(su, run[k - 1], ops[k - 1], run[0].host.taps);
    }
  }

  /** Throughout a run the links beyond the initial ones are exactly the recorded ones, if and only if no
      create leaves its link behind or succeeds without writing vm.tap, and no delete names all
      directories while they record links. */
  lemma NoStraysIff(su: Setup, run: seq<World>, ops: seq<Op>)
    requires IsFreshRun(su, run, ops)
    ensures (forall k :: 0 <= k < |run| ==> NoStrays(run[k], run[0].host.taps)) <==>
            (forall k :: 0 <= k < |ops| ==> !LeavesLink(su, run[k], ops[k]) && !DropsRecords(run[k], ops[k]))
  {
    hide Next, Enabled, OwnLinks, ForeignKept, NoStrays, LeavesLink, DropsRecords;
    var base := run[0].host.taps;
    if forall k :: 0 <= k < |ops| ==> !LeavesLink(su, run[k], ops[k]) && !DropsRecords(run[k], ops[k]) {
      forall k | 0 <= k < |run| ensures NoStrays(run[k], base) {
        RunLeavesNoStrays(su, run, ops, k);
      }
    }
    if forall k :: 0 <= k < |run| ==> NoStrays(run[k], base) {
      forall k | 0 <= k < |ops| ensures !LeavesLink(su, run[k], ops[k]) && !DropsRecords(run[k], ops[k]) {
        LinksStayOwned(su, run, ops, k);
        ForeignLinksKept(su, run, ops, k);
        StepStraysIff(su, run[k], ops[k], base);
        assert NoStrays(run[k + 1], base);
      }
    }
  }

  // ---------------------------------------------------------------- processes nobody can stop

  lemma DeleteKeepsProcessesIff(w: World, op: Op)
    requires NoOrphans(w) && op.Delete?
    ensures NoOrphans(DeleteOutcome(w, op.id, op.removable, op.dropped)) <==> KeepsRunning(w, op)
  {
    hide StopState, Ledger.Unregister, Hex, Parse;
    var w' := DeleteOutcome(w, op.id, op.removable, op.dropped);
    StopKills(w, op.id);
    if NamesAll(op.id) {
      NotCanonical(op.id);
    } else if Dropped(w, op).Some? {
      var o := Dropped(w, op).value;
      KnownHex(w'.rows, o);
    }
  }

  lemma NotCanonical(id: Id)
    requires NamesAll(id)
    ensures !Canonical(id) && Parse(id).None?
  {
  }

  lemma StepKeepsProcessesIff(su: Setup, w: World, op: Op)
    requires NoOrphans(w) && OwnLinks(w) && Enabled(w, op)
    ensures NoOrphans(Next(su, w, op)) <==> KeepsRunning(w, op)
  {
    hide StopState, CreateSteps, DeleteOutcome, Ledger.Unregister, Parse, Canonical, OwnLinks;
    match op
    case Create(req, oid, ip, s) =>
      if ip.Some? { CreateKeepsLinks(su, w, req, oid, ip.value, s); }
    case Delete(_, _, _) =>
      DeleteKeepsProcessesIff(w, op);
    case Stop(id) =>
      StopKills(w, id);
    case _ =>
  }

  lemma {:induction false} RunKeepsProcesses(su: Setup, run: seq<World>, ops: seq<Op>, k: nat)
    requires IsFreshRun(su, run, ops) && k < |run|
    requires forall i :: 0 <= i < k ==> KeepsRunning(run[i], ops[i])
    ensures NoOrphans(run[k])
  {
    hide Next, Enabled, OwnLinks, KeepsRunning;
    if k > 0 {
      RunKeepsProcesses(su, run, ops, k - 1);
      LinksStayOwned(su, run, ops, k - 1);
      StepKeepsProcessesIff(su, run[k - 1], ops[k - 1]);
    }
  }

  /** Whatever else fails on the way, each VMM process has a database row and a pid file throughout a run
      exactly when no delete names all directories while VMs run, or drops the row of a running VM under
      another spelling of its id. */
  lemma EveryVmAccountedIff(su: Setup, run: seq<World>, ops: seq<Op>)
    requires IsFreshRun(su, run, ops)
    ensures (forall k :: 0 <= k < |run| ==> NoOrphans(run[k])) <==>
            (forall k :: 0 <= k < |ops| ==> KeepsRunning(run[k], ops[k]))
  {
    hide Next, Enabled, OwnLinks, NoOrphans, KeepsRunning;
    if forall k :: 0 <= k < |ops| ==> KeepsRunning(run[k], ops[k]) {
      forall k | 0 <= k < |run| ensures NoOrphans(run[k]) {
        RunKeepsProcesses(su, run, ops, k);
      }
    }
    if forall k :: 0 <= k < |run| ==> NoOrphans(run[k]) {
      forall k | 0 <= k < |ops| ensures KeepsRunning(run[k], ops[k]) {
        LinksStayOwned(su, run, ops, k);
        StepKeepsProcessesIff(su, run[k], ops[k]);
        assert NoOrphans(run[k + 1]);
      }
    }
  }

  /** In particular when the deletes carry ids as the server prints them; then a stopped or deleted
      sandbox has no process left, even if the delete fails later. */
  lemma EveryVmAccounted(su: Setup, run: seq<World>, ops: seq<Op>, k: nat)
    requires IsFreshRun(su, run, ops) && k < |ops|
    requires forall i :: 0 <= i < |ops| && ops[i].Delete? ==> Proper(ops[i].id)
    ensures NoOrphans(run[k]) && NoOrphans(run[k + 1])
    ensures ops[k].Stop? || ops[k].Delete? ==> ops[k].id !in run[k + 1].host.procs
  {
    hide Enabled, OwnLinks, NoOrphans, StopState, CreateSteps, Ledger.Unregister, RegisterAll;
    forall i | 0 <= i < |ops| ensures KeepsRunning(run[i], ops[i]) { }
    EveryVmAccountedIff(su, run, ops);
    if ops[k].Stop? || ops[k].Delete? {
      StopKills(run[k], ops[k].id);
    }
  }

  // ---------------------------------------------------------------- isolation

  /** What belongs to a sandbox: its process, directory, link, row and share of the ledger. */
  ghost predicate Unaffected(w: World, w': World, o: Oid) {
    var id := Hex(o);
    && SameHost(w, w', id)
    && (o in w'.rows <==> o in w.rows)
    && (o in w.rows ==> w'.rows[o] == w.rows[o])
    && (id in w'.ledger.alloc <==> id in w.ledger.alloc)
    && (id in w.ledger.alloc ==> w'.ledger.alloc[id] == w.ledger.alloc[id])
  }

  ghost predicate SameHost(w: World, w': World, id: Id) {
    && (id in w'.host.procs <==> id in w.host.procs)
    && (id in w'.host.dirs <==> id in w.host.dirs)
    && (id in w.host.dirs ==> w'.host.dirs[id] == w.host.dirs[id])
    && (TapOf(w, id).Some? ==> TapOf(w, id).value in w'.host.taps)
  }

  /** The text an operation is called with or prints its id as. */
  function TextOf(op: Op): Id
    requires op.Create? || op.Stop? || op.Delete?
  {
    match op
    case Create(_, oid, _, _) => Hex(oid)
    case Delete(id, _, _) => id
    case Stop(id) => id
  }

  /** The operation is not a delete that removes the sandbox's directory with all others or drops its row. */
  predicate Spares(w: World, op: Op, o: Oid) {
    && (op.Delete? && NamesAll(op.id) ==> Hex(o) !in w.host.dirs)
    && (Dropped(w, op) == Some(o) ==> o !in w.rows)
  }

  lemma StopLeavesOthers(w: World, id: Id, other: Id)
    requires OwnLinks(w) && other != id
    ensures SameHost(w, w.(host := StopState(w.host, id)), other)
  {
    if TapOf(w, other).Some? {
      assert TapOf(w, other) != TapOf(w, id);
    }
  }

  lemma CreateLeavesOthers(su: Setup, w: World, req: Request, oid: Oid, ip: string, s: Script, other: Oid)
    requires OwnLinks(w) && ValidAnswers(s.host) && FreshId(w, oid) && other != oid
    ensures Unaffected(w, CreateSteps(su.cfg, su.tapPrefix, w, req, oid, ip, s), other)
  {
    hide StageOf, TapAdded, NewRow, Ledger.Added, Ledger.Removed, Ledger.SpecOf, SocketPath, Hex, CreateSteps;
    CreateStepByStep(su.cfg, su.tapPrefix, w, req, oid, ip, s);
    OidsByText(oid, other);
  }

  lemma StepLeavesOthersIff(su: Setup, w: World, op: Op, other: Oid)
    requires OwnLinks(w) && Enabled(w, op)
    requires (op.Create? || op.Stop? || op.Delete?) && Hex(other) != TextOf(op)
    ensures Unaffected(w, Next(su, w, op), other) <==> Spares(w, op, other)
  {
    hide StopState, CreateSteps, Ledger.Removed, Hex, Parse;
    match op
    case Create(req, oid, ip, s) =>
      if ip.Some? { CreateLeavesOthers(su, w, req, oid, ip.value, s, other); }
    case Stop(id) =>
      StopLeavesOthers(w, id, Hex(other));
    case Delete(id, _, _) =>
      StopLeavesOthers(w, id, Hex(other));
    case _ =>
  }

  /** In every run, creating, stopping or deleting a sandbox leaves all that belongs to any other alone
      exactly when it is not a delete that names all directories, the other's included, or parses to the
      other's object id and drops its row. */
  lemma OperationsAreIsolated(su: Setup, run: seq<World>, ops: seq<Op>, k: nat, other: Oid)
    requires IsFreshRun(su, run, ops) && k < |ops|
    requires ops[k].Create? || ops[k].Stop? || ops[k].Delete?
    requires Hex(other) != TextOf(ops[k])
    ensures Unaffected(run[k], run[k + 1], other) <==> Spares(run[k], ops[k], other)
    ensures ops[k].Delete? && Proper(ops[k].id) ==> Unaffected(run[k], run[k + 1], other)
  {
    hide Unaffected, OwnLinks, Hex, Next, Enabled;
    LinksStayOwned(su, run, ops, k);
    StepLeavesOthersIff(su, run[k], ops[k], other);
  }

  // ---------------------------------------------------------------- deletes that orphan

  /** One successful Create on an empty host. */
  lemma OneSandbox(cfg: Config, req: Request, oid: Oid, ip: string) returns (su: Setup, w: World, op: Op)
    ensures su == Setup(cfg, "tap")
    ensures w == World(HostState({}, {}, map[]), map[], Ledger.EMPTY, {})
    ensures op.Create? && op.ip == Some(ip) && Enabled(w, op)
    ensures var w' := Next(su, w, op);
            && w'.host == HostState({Hex(oid)}, {"tapaaaaaa"}, map[Hex(oid) := Files(true, Some("tapaaaaaa"))])
            && w'.rows == map[oid := NewRow(cfg, req, ip)]
            && w'.ledger.alloc.Keys == {Hex(oid)}
  {
    hide StageOf, TapAdded, CreateSteps, AllWell, Hex, NewRow, SocketPath;
    su := Setup(cfg, "tap");
    w := World(HostState({}, {}, map[]), map[], Ledger.EMPTY, {});
    assert "tap" + "aaaaaa" == "tapaaaaaa";
    AllWellCompletes("tap", {}, req, "aaaaaa");
    op := Create(req, oid, Some(ip), AllWell("aaaaaa"));
    CompletedCreate(su, w, req, oid, ip, op.script);
    var w' := Next(su, w, op);
    assert w'.host.dirs == map[Hex(oid) := Files(true, Some("tapaaaaaa"))];
  }

  /** A Delete that spells the id of a running sandbox in capitals drops its row and nothing else: its
      process, directory and link stay, and so does its share of the ledger. */
  lemma CapitalsOrphan(cfg: Config, req: Request, ip: string)
    returns (su: Setup, run: seq<World>, ops: seq<Op>, oid: Oid)
    ensures IsFreshRun(su, run, ops) && |ops| == 2
    ensures ops[1] == Delete(Capitals(oid), true, true)
    ensures oid in run[1].rows && run[2].rows == map[]
    ensures run[2].host == run[1].host && Hex(oid) in run[2].host.procs
    ensures Hex(oid) in run[2].ledger.alloc
  {
    hide CreateSteps, NewRow, Hex, Capitals, Parse;
    oid := seq(24, _ => 10);
    var w0, op0;
    su, w0, op0 := OneSandbox(cfg, req, oid, ip);
    var w1 := Next(su, w0, op0);
    CapitalsParse(oid);
    CapitalsDiffer(oid);
    var op1 := Delete(Capitals(oid), true, true);
    var w2 := Next(su, w1, op1);
    assert w2.host == w1.host;
    run, ops := [w0, w1, w2], [op0, op1];
  }

  lemma CapitalsDiffer(oid: Oid)
    requires oid[0] == 10
    ensures Capitals(oid) != Hex(oid) && '/' !in Capitals(oid)
    ensures Capitals(oid) != "" && Capitals(oid) != "." && Capitals(oid) != ".."
  {
    assert Capitals(oid)[0] == 'A' && Hex(oid)[0] == 'a';
  }

  /** A Delete of ".." takes every instance directory with it: the process stays, with no pid file left by
      which a later Delete of its sandbox could stop it. */
  lemma ParentOrphans(cfg: Config, req: Request, oid: Oid, ip: string, removable: bool)
    returns (su: Setup, run: seq<World>, ops: seq<Op>)
    ensures IsFreshRun(su, run, ops) && |ops| == 3
    ensures ops[1] == Delete("..", removable, true) && ops[2] == Delete(Hex(oid), true, true)
    ensures Hex(oid) in run[2].host.procs && run[2].host.dirs == map[]
    ensures Hex(oid) in run[3].host.procs && oid !in run[3].rows
  {
    hide CreateSteps, NewRow, Hex, Parse, Ledger.Unregister;
    var w0, op0;
    su, w0, op0 := OneSandbox(cfg, req, oid, ip);
    var w1 := Next(su, w0, op0);
    NotCanonical("..");
    HexHasNoSlash(oid);
    ParseOfHex(oid);
    var op1, op2 := Delete("..", removable, true), Delete(Hex(oid), true, true);
    var w2 := Next(su, w1, op1);
    var w3 := Next(su, w2, op2);
    run, ops := [w0, w1, w2, w3], [op0, op1, op2];
  }

  lemma HexHasNoSlash(oid: Oid)
    ensures '/' !in Hex(oid) && Hex(oid) != "." && Hex(oid) != ".."
  {
    assert forall i :: 0 <= i < 24 ==> Hex(oid)[i] == Lower(oid[i]);
  }

  // ---------------------------------------------------------------- addresses

  ghost predicate DistinctAddresses(rows: map<Oid, Row>) {
    forall i, j :: i in rows && j in rows && i != j ==> rows[i].ip != rows[j].ip
  }

  predicate Covers(ips: set<string>, rows: map<Oid, Row>) {
    forall id :: id in rows ==> rows[id].ip in ips
  }

  /** The address of a Create is what the allocator answers for some draws. */
  ghost predicate Drawn(c: Cidr, w: World, op: Op)
    requires ValidCidr(c)
  {
    op.Create? ==>
      exists draws :: Allocator.ValidDraws(c, draws) && op.ip == Allocator.NextIP(Some(c), w.ips, draws)
  }

  /** A restart that loads the addresses of all rows, as Init does. */
  predicate Loads(w: World, op: Op) {
    op.Restart? ==> Covers(op.ips, w.rows)
  }

  lemma DrawnIsFree(c: Cidr, taken: set<string>, draws: seq<nat>)
    requires ValidCidr(c) && Allocator.ValidDraws(c, draws)
    ensures var ip := Allocator.NextIP(Some(c), taken, draws);
            ip.Some? ==> ip.value !in taken && InPool(c, ip.value)
  {
    Allocator.PickIsFree(c, taken, draws);
  }

  lemma StepKeepsAddresses(su: Setup, c: Cidr, w: World, op: Op)
    requires ValidCidr(c) && Enabled(w, op) && Drawn(c, w, op) && Loads(w, op)
    requires DistinctAddresses(w.rows) && Covers(w.ips, w.rows)
    ensures var w' := Next(su, w, op); DistinctAddresses(w'.rows) && Covers(w'.ips, w'.rows)
  {
    hide StageOf, TapAdded, RegisterRow, StopState, RegisterAll, CreateSteps, Hex;
    hide Ledger.Unregister, Allocator.NextIP, InPool;
    if op.Create? {
      if op.ip.Some? { CreateStepByStep(su.cfg, su.tapPrefix, w, op.req, op.oid, op.ip.value, op.script); }
      var draws :| Allocator.ValidDraws(c, draws) && op.ip == Allocator.NextIP(Some(c), w.ips, draws);
      DrawnIsFree(c, w.ips, draws);
    }
  }

  lemma NoRowsYet(w: World)
    requires w.rows == map[]
    ensures DistinctAddresses(w.rows) && Covers(w.ips, w.rows)
  {
  }

  /** If every restart loads the addresses in the database, then in every run all rows have different
      addresses, none of which the allocator can give out again. */
  lemma {:induction false} AddressesStayDistinct(su: Setup, c: Cidr, run: seq<World>, ops: seq<Op>, k: nat)
    requires ValidCidr(c) && IsFreshRun(su, run, ops) && k < |run|
    requires forall i :: 0 <= i < |ops| ==> Drawn(c, run[i], ops[i]) && Loads(run[i], ops[i])
    ensures DistinctAddresses(run[k].rows) && Covers(run[k].ips, run[k].rows)
  {
    hide Next, Enabled, Drawn, Loads, Covers, DistinctAddresses;
    if k > 0 {
      AddressesStayDistinct(su, c, run, ops, k - 1);
      StepKeepsAddresses(su, c, run[k - 1], ops[k - 1]);
    } else {
      NoRowsYet(run[0]);
    }
  }

  /** An address the allocator can draw. */
  ghost predicate InPool(c: Cidr, ip: string)
    requires ValidCidr(c)
  {
    exists i: nat :: i < Size(c) && Allocator.Name(c, i) == ip
  }

  lemma CompletedCreate(su: Setup, w: World, req: Request, oid: Oid, ip: string, s: Script)
    requires ValidAnswers(s.host) && StageOf(su.tapPrefix, w.host.taps, req, s).Completed? && FreshId(w, oid)
    ensures TapAdded(su.tapPrefix, w.host.taps, s.host).Some?
    ensures var w' := CreateSteps(su.cfg, su.tapPrefix, w, req, oid, ip, s);
            && w'.rows == w.rows[oid := NewRow(su.cfg, req, ip)]
            && w'.host == Booted(w.host, Hex(oid), TapAdded(su.tapPrefix, w.host.taps, s.host).value, s.host.tapFile)
            && w'.ledger.alloc.Keys == w.ledger.alloc.Keys + {Hex(oid)}
  {
    hide TapAdded, CreateSteps, Ledger.Added, Ledger.Removed, Ledger.SpecOf, Hex, NewRow, SocketPath;
    CreateStepByStep(su.cfg, su.tapPrefix, w, req, oid, ip, s);
  }

  lemma SameDraw(c: Cidr, taken: set<string>, i: nat) returns (draws: seq<nat>)
    requires ValidCidr(c) && Size(c) >= 2 && i < Size(c) && Allocator.Name(c, i) !in taken
    ensures Allocator.ValidDraws(c, draws)
    ensures Allocator.NextIP(Some(c), taken, draws) == Some(Allocator.Name(c, i))
  {
    draws := seq(Allocator.ATTEMPTS, _ => i);
  }

  /** Whatever the draws, a Create that completes gives the new sandbox an address of its own, exactly
      when the allocator knows every address of the pool that the database holds. */
  lemma DistinctIffLoaded(su: Setup, c: Cidr, w: World, req: Request, oid: Oid, s: Script)
    requires ValidCidr(c) && Size(c) >= 2 && DistinctAddresses(w.rows)
    requires ValidAnswers(s.host) && FreshId(w, oid) && StageOf(su.tapPrefix, w.host.taps, req, s).Completed?
    ensures (forall draws :: Allocator.ValidDraws(c, draws) ==>
               DistinctAddresses(Next(su, w, Create(req, oid, Allocator.NextIP(Some(c), w.ips, draws), s)).rows))
       <==> (forall r :: r in w.rows && InPool(c, w.rows[r].ip) ==> w.rows[r].ip in w.ips)
  {
    hide StageOf, CreateSteps, Booted, Hex, Allocator.NextIP, Allocator.Name, Size;
    if forall r :: r in w.rows && InPool(c, w.rows[r].ip) ==> w.rows[r].ip in w.ips {
      forall draws | Allocator.ValidDraws(c, draws)
        ensures DistinctAddresses(Next(su, w, Create(req, oid, Allocator.NextIP(Some(c), w.ips, draws), s)).rows)
      {
        DrawnIsFree(c, w.ips, draws);
        var ip := Allocator.NextIP(Some(c), w.ips, draws);
        if ip.Some? { CompletedCreate(su, w, req, oid, ip.value, s); }
      }
    } else {
      var r :| r in w.rows && InPool(c, w.rows[r].ip) && w.rows[r].ip !in w.ips;
      var i: nat :| i < Size(c) && Allocator.Name(c, i) == w.rows[r].ip;
      var draws := SameDraw(c, w.ips, i);
      CompletedCreate(su, w, req, oid, w.rows[r].ip, s);
      var w' := Next(su, w, Create(req, oid, Allocator.NextIP(Some(c), w.ips, draws), s));
      assert r in w'.rows && oid in w'.rows && w'.rows[r].ip == w'.rows[oid].ip;
    }
  }

  lemma AllWellCompletes(prefix: string, taps: set<string>, req: Request, suffix: string)
    requires |prefix| == 3 && |suffix| == 6 && prefix + suffix !in taps
    ensures ValidAnswers(AllWell(suffix).host) && AllWell(suffix).host.tapFile
    ensures StageOf(prefix, taps, req, AllWell(suffix)).Completed?
    ensures TapAdded(prefix, taps, AllWell(suffix).host) == Some(prefix + suffix)
  {
  }

  /** The server starts without calling Init. Then, in a network of any size, a restart between two
      creates can put two running sandboxes on the same address. */
  lemma StartupCanDuplicate(cfg: Config, c: Cidr, req: Request, a: Oid, b: Oid)
    returns (su: Setup, run: seq<World>, ops: seq<Op>)
    requires ValidCidr(c) && Size(c) >= 2 && a != b
    ensures su.cfg == cfg && IsFreshRun(su, run, ops) && |ops| == 3
    ensures forall k :: 0 <= k < 3 ==> Drawn(c, run[k], ops[k])
    ensures ops[1].Restart? && ops[1].ips == {}
    ensures var w := run[3];
            Hex(a) in w.host.procs && Hex(b) in w.host.procs && a in w.rows && b in w.rows &&
            w.rows[a].ip == w.rows[b].ip
  {
    hide StageOf, TapAdded, CreateSteps, AllWell, Allocator.NextIP, Allocator.Name, Size, Hex, SocketPath;
    var address := Allocator.Name(c, 0);
    var draws := SameDraw(c, {}, 0);
    var w0, op0;
    su, w0, op0 := OneSandbox(cfg, req, a, address);
    var w1 := Next(su, w0, op0);
    OidsByText(a, b);
    var op1 := Restart(Some([]), {});
    var w2 := Next(su, w1, op1);
    assert "tapaaaaaa"[3] != "tapbbbbbb"[3];
    assert "tap" + "bbbbbb" == "tapbbbbbb";
    AllWellCompletes("tap", w2.host.taps, req, "bbbbbb");
    var op2 := Create(req, b, Some(address), AllWell("bbbbbb"));
    CompletedCreate(su, w2, req, b, address, op2.script);
    var w3 := Next(su, w2, op2);
    ops, run := [op0, op1, op2], [w0, w1, w2, w3];
  }
}
