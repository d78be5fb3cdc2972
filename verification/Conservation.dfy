/** Whole runs of lifecycle operations, each taken as one step, with crashes, restarts and status
    refreshes in between: what the ledger says against what the database says. */
module Conservation {
  import opened Options
  import opened Machine
  import opened ObjectIds
  import opened Lifecycle
  import Ledger

  datatype Op =
    | Create(req: Request, oid: Oid, ip: Option<string>, script: Script)
    | Delete(id: Id, removable: bool, dropped: bool)     // any text a request can carry
    | Stop(id: Id)
    | Refresh(statuses: map<Oid, string>)
    | Restart(running: Option<seq<Oid>>, ips: set<string>)
    | Crash(id: Id)     // a VMM process ends by itself

  datatype Setup = Setup(cfg: Config, tapPrefix: string)

  predicate Enabled(w: World, op: Op) {
    match op
    case Create(_, oid, _, script) => ValidAnswers(script.host) && FreshId(w, oid)
    case Delete(id, _, _) => '/' !in id
    case Stop(id) => '/' !in id
    case Refresh(_) => true
    case Crash(_) => true
    case Restart(running, _) => running.Some? ==> forall i :: 0 <= i < |running.value| ==> running.value[i] in w.rows
  }

  function WithStatuses(rows: map<Oid, Row>, statuses: map<Oid, string>): (r: map<Oid, Row>)
    ensures r.Keys == rows.Keys && forall o :: o in r && o in statuses ==> r[o].status == statuses[o]
    ensures forall o :: o in r ==> r[o] == rows[o].(status := r[o].status)
  {
    map o | o in rows :: if o in statuses then rows[o].(status := statuses[o]) else rows[o]
  }

  /** A restart begins with an empty ledger and re-registers the rows listed as running. */
  function Next(su: Setup, w: World, op: Op): World
    requires Enabled(w, op)
  {
    match op
    case Create(req, oid, ip, script) =>
      if ip.None? then w else CreateSteps(su.cfg, su.tapPrefix, w, req, oid, ip.value, script)
    case Delete(id, removable, dropped) => DeleteOutcome(w, id, removable, dropped)
    case Stop(id) => StopOutcome(w, id)
    case Refresh(statuses) => w.(rows := WithStatuses(w.rows, statuses))
    case Restart(running, ips) =>
      w.(ips := ips, ledger := if running.None? then Ledger.EMPTY
                               else RegisterAll(su.cfg, Ledger.EMPTY, w.rows, running.value))
    case Crash(id) => w.(host := w.host.(procs := w.host.procs - {id}))
  }

  ghost predicate IsRun(su: Setup, run: seq<World>, ops: seq<Op>) {
    && |run| == |ops| + 1
    && run[0].ledger == Ledger.EMPTY
    && forall k :: 0 <= k < |ops| ==> Enabled(run[k], ops[k]) && run[k + 1] == Next(su, run[k], ops[k])
  }

  /** What a row counts for. */
  function Share(cfg: Config, row: Row): Ledger.Alloc {
    Ledger.SpecOf(row.cpu, row.mem, DiskOf(cfg, row))
  }

  /** The text is what the id of some row is printed as. */
  predicate Known(rows: map<Oid, Row>, id: Id) {
    Canonical(id) && Parse(id).value in rows
  }

  function RowOf(rows: map<Oid, Row>, id: Id): Row
    requires Known(rows, id)
  {
    rows[Parse(id).value]
  }

  lemma KnownHex(rows: map<Oid, Row>, o: Oid)
    ensures Known(rows, Hex(o)) <==> o in rows
    ensures o in rows ==> RowOf(rows, Hex(o)) == rows[o]
  {
    ParseOfHex(o);
  }

  /** The ledger holds ids of the database only, each with its row's share. */
  ghost predicate Backed(cfg: Config, s: Ledger.State, rows: map<Oid, Row>) {
    forall id :: id in s.alloc ==> Known(rows, id) && s.alloc[id] == Share(cfg, RowOf(rows, id))
  }

  ghost predicate Conserved(cfg: Config, w: World) {
    Ledger.Valid(w.ledger) && Backed(cfg, w.ledger, w.rows)
  }

  // ---------------------------------------------------------------- deletes

  /** The row a Delete drops, if it drops one: the row of the object id its text parses to. */
  function Dropped(w: World, op: Op): Option<Oid> {
    if op.Delete? && op.removable && op.id != "." && op.dropped then Parse(op.id) else None
  }

  /** The Delete does not drop the row of a sandbox that stays registered: it drops none, or its text is
      the printed one, or the sandbox is not registered. */
  predicate KeepsRegistered(w: World, op: Op) {
    Dropped(w, op).Some? ==> op.id == Hex(Dropped(w, op).value) || Hex(Dropped(w, op).value) !in w.ledger.alloc
  }

  lemma UnregisterBacked(cfg: Config, s: Ledger.State, rows: map<Oid, Row>, id: Id)
    requires Ledger.Valid(s) && Backed(cfg, s, rows)
    ensures var s' := Ledger.Unregister(s, id); Ledger.Valid(s') && Backed(cfg, s', rows)
  {
    hide Ledger.Valid, Share, Known;
    Ledger.UnregisterKeepsValid(s, id);
    assert forall k :: k in Ledger.Unregister(s, id).alloc ==> k in s.alloc;
  }

  /** Without a row, the ledger stays backed exactly when it does not hold its printed id. */
  lemma DropRow(cfg: Config, s: Ledger.State, rows: map<Oid, Row>, o: Oid)
    requires Backed(cfg, s, rows)
    ensures Backed(cfg, s, rows - {o}) <==> Hex(o) !in s.alloc
  {
    hide Share, Canonical;
    ParseOfHex(o);
    if Hex(o) !in s.alloc {
      forall id | id in s.alloc ensures Known(rows - {o}, id) && RowOf(rows - {o}, id) == RowOf(rows, id) {
        assert Known(rows, id) && Parse(id).value != o by { CanonicalText(id); }
      }
    } else {
      assert !Known(rows - {o}, Hex(o));
    }
  }

  lemma CanonicalText(id: Id)
    requires Canonical(id)
    ensures id == Hex(Parse(id).value)
  {
  }

  /** A Delete keeps the ledger backed by the database exactly when it does not drop the row of a sandbox
      that stays registered. */
  lemma DeleteConservesIff(su: Setup, w: World, op: Op)
    requires Conserved(su.cfg, w) && Enabled(w, op) && op.Delete?
    ensures Conserved(su.cfg, Next(su, w, op)) <==> KeepsRegistered(w, op)
  {
    hide Ledger.Valid, DeleteState, Share, Backed, Hex, Parse;
    var s' := Ledger.Unregister(w.ledger, op.id);
    UnregisterBacked(su.cfg, w.ledger, w.rows, op.id);
    if Dropped(w, op).Some? {
      DropRow(su.cfg, s', w.rows, Dropped(w, op).value);
      assert op.id != "" by { ParseLength(op.id); }
    }
  }

  lemma ParseLength(id: Id)
    requires Parse(id).Some?
    ensures |id| == 24
  {
  }

  // ---------------------------------------------------------------- the other operations

  lemma RegisterConserves(cfg: Config, s: Ledger.State, rows: map<Oid, Row>, o: Oid, diskMB: int)
    requires Ledger.Valid(s) && Backed(cfg, s, rows) && o in rows
    requires diskMB == DiskOf(cfg, rows[o])
    ensures var s' := RegisterRow(cfg, s, Hex(o), rows[o], diskMB); Ledger.Valid(s') && Backed(cfg, s', rows)
  {
    hide Ledger.Valid, Ledger.SpecOf, Known, RowOf;
    KnownHex(rows, o);
    Ledger.RegisterKeepsValid(s, Hex(o), rows[o].name, SocketPath(cfg, Hex(o)), Share(cfg, rows[o]));
  }

  lemma {:induction false} RegisterAllConserves(cfg: Config, s: Ledger.State, rows: map<Oid, Row>, ids: seq<Oid>)
    requires Ledger.Valid(s) && Backed(cfg, s, rows)
    requires forall i :: 0 <= i < |ids| ==> ids[i] in rows
    ensures var s' := RegisterAll(cfg, s, rows, ids); Ledger.Valid(s') && Backed(cfg, s', rows)
    decreases |ids|
  {
    hide Ledger.Valid, Backed, RegisterRow, DiskOf;
    if ids != [] {
      var row := rows[ids[0]];
      RegisterConserves(cfg, s, rows, ids[0], DiskOf(cfg, row));
      RegisterAllConserves(cfg, RegisterRow(cfg, s, Hex(ids[0]), row, DiskOf(cfg, row)), rows, ids[1..]);
    }
  }

  /** A row added under a new id changes no other. */
  lemma AddRow(cfg: Config, s: Ledger.State, rows: map<Oid, Row>, o: Oid, row: Row)
    requires Backed(cfg, s, rows) && o !in rows
    ensures Backed(cfg, s, rows[o := row])
  {
    hide Share, Canonical, Parse;
    assert forall id :: Known(rows, id) ==> Known(rows[o := row], id) && RowOf(rows[o := row], id) == RowOf(rows, id);
  }

  lemma CreateConserves(su: Setup, w: World, op: Op)
    requires Conserved(su.cfg, w) && Enabled(w, op) && op.Create? && op.ip.Some?
    ensures Conserved(su.cfg, Next(su, w, op))
  {
    hide Ledger.Valid, RegisterRow, TapAdded, StageOf, Share, CreateSteps, Backed, Hex;
    CreateStepByStep(su.cfg, su.tapPrefix, w, op.req, op.oid, op.ip.value, op.script);
    var row := NewRow(su.cfg, op.req, op.ip.value);
    AddRow(su.cfg, w.ledger, w.rows, op.oid, row);
    assert su.cfg.diskMB == DiskOf(su.cfg, row);
    RegisterConserves(su.cfg, w.ledger, w.rows[op.oid := row], op.oid, su.cfg.diskMB);
  }

  lemma RefreshConserves(cfg: Config, s: Ledger.State, rows: map<Oid, Row>, statuses: map<Oid, string>)
    requires Backed(cfg, s, rows)
    ensures Backed(cfg, s, WithStatuses(rows, statuses))
  {
    hide Canonical, Parse, Ledger.SpecOf;
    var rows' := WithStatuses(rows, statuses);
    assert forall id :: Known(rows, id) ==>
      Known(rows', id) && Share(cfg, RowOf(rows', id)) == Share(cfg, RowOf(rows, id));
  }

  /** Every operation but a delete conserves, and a delete exactly when it keeps what is registered. */
  lemma StepConservesIff(su: Setup, w: World, op: Op)
    requires Conserved(su.cfg, w) && Enabled(w, op)
    ensures Conserved(su.cfg, Next(su, w, op)) <==> KeepsRegistered(w, op)
  {
    hide Ledger.Valid, Ledger.Unregister, CreateSteps, DeleteOutcome, RegisterAll, Backed;
    match op
    case Create(_, _, ip, _) =>
      if ip.Some? { CreateConserves(su, w, op); }
    case Delete(_, _, _) =>
      DeleteConservesIff(su, w, op);
    case Stop(id) =>
      UnregisterBacked(su.cfg, w.ledger, w.rows, id);
    case Refresh(statuses) =>
      RefreshConserves(su.cfg, w.ledger, w.rows, statuses);
    case Restart(running, _) =>
      EmptyConserved(su.cfg, w.rows);
      if running.Some? { RegisterAllConserves(su.cfg, Ledger.EMPTY, w.rows, running.value); }
    case Crash(_) =>
  }

  lemma EmptyConserved(cfg: Config, rows: map<Oid, Row>)
    ensures Ledger.Valid(Ledger.EMPTY) && Backed(cfg, Ledger.EMPTY, rows)
  {
  }

  /** A restart that can list the running rows registers exactly them, each under its printed id with its
      socket, name and share, the totals being the sums over them. */
  lemma RestartRegistersRunning(su: Setup, w: World, op: Op)
    requires Enabled(w, op) && op.Restart? && op.running.Some?
    ensures var ids, s := op.running.value, Next(su, w, op).ledger;
            && (forall id :: id in s.alloc <==> exists o :: o in ids && id == Hex(o))
            && (forall o :: o in ids ==>
                  RegisteredAs(su.cfg, s, Hex(o), w.rows[o],
                               if w.rows[o].diskMB == 0 then su.cfg.diskMB else w.rows[o].diskMB))
            && s.vms.Keys == s.names.Keys == s.alloc.Keys
            && s.totals == Ledger.WrapAlloc(Ledger.Sum(s.alloc))
  {
    hide RegisterAll, Ledger.SpecOf, Hex, Backed;
    EmptyConserved(su.cfg, w.rows);
    RegisterAllEffect(su.cfg, Ledger.EMPTY, w.rows, op.running.value);
    RegisterAllConserves(su.cfg, Ledger.EMPTY, w.rows, op.running.value);
    var ids, s := op.running.value, Next(su, w, op).ledger;
    forall id ensures id in s.alloc <==> exists o :: o in ids && id == Hex(o) {
      assert Listed(ids, id) || SameEntry(Ledger.EMPTY, s, id);
      if o :| o in ids && id == Hex(o) {
        assert RegisteredAs(su.cfg, s, Hex(o), w.rows[o],
                            if w.rows[o].diskMB == 0 then su.cfg.diskMB else w.rows[o].diskMB);
      }
    }
  }

  // ---------------------------------------------------------------- runs

  lemma {:induction false} RunConserves(su: Setup, run: seq<World>, ops: seq<Op>, k: nat)
    requires IsRun(su, run, ops) && k < |run|
    requires forall i :: 0 <= i < k ==> KeepsRegistered(run[i], ops[i])
    ensures Conserved(su.cfg, run[k])
  {
    hide Conserved, Next, Enabled, KeepsRegistered;
    if k == 0 {
      StartConserved(su.cfg, run[0]);
    } else {
      RunConserves(su, run, ops, k - 1);
      StepConservesIff(su, run[k - 1], ops[k - 1]);
    }
  }

  lemma StartConserved(cfg: Config, w: World)
    requires w.ledger == Ledger.EMPTY
    ensures Conserved(cfg, w)
  {
    EmptyConserved(cfg, w.rows);
  }

  /** A run conserves throughout exactly when none of its deletes drops the row of a sandbox that stays
      registered. */
  lemma RunConservesIff(su: Setup, run: seq<World>, ops: seq<Op>)
    requires IsRun(su, run, ops)
    ensures (forall k :: 0 <= k < |run| ==> Conserved(su.cfg, run[k])) <==>
            (forall k :: 0 <= k < |ops| ==> KeepsRegistered(run[k], ops[k]))
  {
    hide Conserved, Next, Enabled, KeepsRegistered;
    if forall k :: 0 <= k < |ops| ==> KeepsRegistered(run[k], ops[k]) {
      forall k | 0 <= k < |run| ensures Conserved(su.cfg, run[k]) {
        RunConserves(su, run, ops, k);
      }
    }
    if forall k :: 0 <= k < |run| ==> Conserved(su.cfg, run[k]) {
      forall k | 0 <= k < |ops| ensures KeepsRegistered(run[k], ops[k]) {
        StepConservesIff(su, run[k], ops[k]);
        assert Conserved(su.cfg, run[k + 1]);
      }
    }
  }

  /** The text names at most its own sandbox: it is not one of the two that name every directory, and if
      it is an object id it is spelled as the server prints it. */
  predicate Proper(id: Id) {
    !NamesAll(id) && (Parse(id).Some? ==> Canonical(id))
  }

  lemma ProperKeepsRegistered(w: World, op: Op)
    requires op.Delete? ==> Proper(op.id)
    ensures KeepsRegistered(w, op)
  {
  }

  /** The shares of the registered rows. */
  ghost function RegisteredShares(cfg: Config, w: World): map<Id, Ledger.Alloc> {
    map id | id in w.ledger.alloc && Known(w.rows, id) :: Share(cfg, RowOf(w.rows, id))
  }

  /** If no delete drops the row of a sandbox that stays registered, then in every reachable state the
      registered ids are ids of the database and the host totals are the (int64) sums, over the registered
      rows, of their CPUs, memory and disk. */
  lemma TotalsAreSumsOverRows(su: Setup, run: seq<World>, ops: seq<Op>, k: nat)
    requires IsRun(su, run, ops) && k < |run|
    requires forall i :: 0 <= i < k ==> KeepsRegistered(run[i], ops[i])
    ensures run[k].ledger.vms.Keys == run[k].ledger.alloc.Keys
    ensures forall id :: id in run[k].ledger.alloc ==> Known(run[k].rows, id)
    ensures RegisteredShares(su.cfg, run[k]).Keys == run[k].ledger.alloc.Keys
    ensures run[k].ledger.totals == Ledger.WrapAlloc(Ledger.Sum(RegisteredShares(su.cfg, run[k])))
  {
    hide KeepsRegistered, Next, Enabled;
    RunConserves(su, run, ops, k);
    assert RegisteredShares(su.cfg, run[k]) == run[k].ledger.alloc;
  }

  /** In particular in every run whose deletes carry ids as the server prints them, or text that parses to
      none. */
  lemma TotalsUnderProperDeletes(su: Setup, run: seq<World>, ops: seq<Op>, k: nat)
    requires IsRun(su, run, ops) && k < |run|
    requires forall i :: 0 <= i < |ops| && ops[i].Delete? ==> Proper(ops[i].id)
    ensures forall id :: id in run[k].ledger.alloc ==> Known(run[k].rows, id)
    ensures run[k].ledger.totals == Ledger.WrapAlloc(Ledger.Sum(RegisteredShares(su.cfg, run[k])))
  {
    hide Proper, KeepsRegistered, Next, Enabled, Known;
    forall i | 0 <= i < k ensures KeepsRegistered(run[i], ops[i]) {
      ProperKeepsRegistered(run[i], ops[i]);
    }
    TotalsAreSumsOverRows(su, run, ops, k);
  }

  /** A row within the limits the handler enforces counts exactly its CPUs, and MiB for memory and disk. */
  lemma ShareInBytes(cfg: Config, row: Row)
    requires 0 <= row.cpu < Ledger.TWO63 && 0 <= row.mem < 0x800_0000_0000 && 0 <= DiskOf(cfg, row) < 0x800_0000_0000
    ensures Share(cfg, row) == Ledger.Alloc(row.cpu, row.mem * 0x10_0000, DiskOf(cfg, row) * 0x10_0000)
  {
  }
}
