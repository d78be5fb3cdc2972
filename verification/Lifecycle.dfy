/** The sandbox lifecycle of `internal/service/sandbox.go`: Create with its rollback, Delete, Stop and
    RegisterMetricsForExisting, over the host, the database rows, the address pool and the ledger. */
module Lifecycle {
  import opened Options
  import opened Machine
  import opened ObjectIds
  import Ledger
  import Allocator

  datatype Row = Row(name: string, ip: string, cpu: int, mem: int, diskMB: int, status: string)

  datatype Config = Config(vcpus: int, memoryMB: int, diskMB: int, instancesRoot: string)

  datatype Request = Request(name: string, cpu: int, mem: int, sync: Option<bool>)

  /** Everything a lifecycle operation can change. Rows are kept by object id, the rest by its text. */
  datatype World = World(host: HostState, rows: map<Oid, Row>, ledger: Ledger.State, ips: set<string>)

  /** `machine.GetSocketPath`. */
  function SocketPath(cfg: Config, id: Id): (s: string)
    ensures s != ""
  {
    cfg.instancesRoot + "/" + id + "/vm.sock"
  }

  /** The row Create saves, with its defaults applied. */
  function NewRow(cfg: Config, req: Request, ip: string): Row {
    Row(req.name, ip, if req.cpu == 0 then cfg.vcpus else req.cpu, if req.mem == 0 then cfg.memoryMB else req.mem,
        cfg.diskMB, "running")
  }

  /** The row has the requested name, CPUs and memory, the configured defaults standing in for 0, the
      configured disk, and is running. */
  predicate AsRequested(cfg: Config, req: Request, row: Row) {
    && row.name == req.name
    && (if req.cpu != 0 then row.cpu == req.cpu else row.cpu == cfg.vcpus)
    && (if req.mem != 0 then row.mem == req.mem else row.mem == cfg.memoryMB)
    && row.diskMB == cfg.diskMB && row.status == "running"
  }

  lemma RowAsRequested(cfg: Config, req: Request, ip: string)
    ensures AsRequested(cfg, req, NewRow(cfg, req, ip)) && NewRow(cfg, req, ip).ip == ip
  {
  }

  function RegisterRow(cfg: Config, s: Ledger.State, id: Id, row: Row, diskMB: int): Ledger.State {
    Ledger.Register(s, id, row.name, SocketPath(cfg, id), Ledger.SpecOf(row.cpu, row.mem, diskMB))
  }

  /** The disk size that re-registration counts for a row. */
  function DiskOf(cfg: Config, row: Row): int {
    if row.diskMB == 0 then cfg.diskMB else row.diskMB
  }

  function RegisterAll(cfg: Config, s: Ledger.State, rows: map<Oid, Row>, ids: seq<Oid>): Ledger.State
    requires forall i :: 0 <= i < |ids| ==> ids[i] in rows
    decreases |ids|
  {
    if ids == [] then s
    else
      var row := rows[ids[0]];
      RegisterAll(cfg, RegisterRow(cfg, s, Hex(ids[0]), row, DiskOf(cfg, row)), rows, ids[1..])
  }

  // ---------------------------------------------------------------- what registering means

  /** The ledger has the sandbox's socket, its name or "unknown", and its CPUs, memory and disk. */
  predicate RegisteredAs(cfg: Config, s: Ledger.State, id: Id, row: Row, diskMB: int) {
    && id in s.vms && s.vms[id] == cfg.instancesRoot + "/" + id + "/vm.sock"
    && id in s.names && s.names[id] == (if row.name == "" then "unknown" else row.name)
    && id in s.alloc && s.alloc[id] == Ledger.SpecOf(row.cpu, row.mem, diskMB)
  }

  predicate SameEntry(s: Ledger.State, t: Ledger.State, id: Id) {
    && (id in t.vms <==> id in s.vms) && (id in s.vms ==> t.vms[id] == s.vms[id])
    && (id in t.names <==> id in s.names) && (id in s.names ==> t.names[id] == s.names[id])
    && (id in t.alloc <==> id in s.alloc) && (id in s.alloc ==> t.alloc[id] == s.alloc[id])
  }

  lemma RegisterRowEffect(cfg: Config, s: Ledger.State, id: Id, row: Row, diskMB: int)
    requires id != ""
    ensures var s' := RegisterRow(cfg, s, id, row, diskMB);
            RegisteredAs(cfg, s', id, row, diskMB) && forall other :: other != id ==> SameEntry(s, s', other)
  {
    hide Ledger.SpecOf, Ledger.Added, Ledger.Removed;
  }

  lemma SameEntryTransitive(s: Ledger.State, t: Ledger.State, u: Ledger.State, id: Id)
    requires SameEntry(s, t, id) && SameEntry(t, u, id)
    ensures SameEntry(s, u, id)
  {
  }

  predicate Listed(ids: seq<Oid>, id: Id) {
    exists o :: o in ids && Hex(o) == id
  }

  lemma {:induction false} UnlistedStay(cfg: Config, s: Ledger.State, rows: map<Oid, Row>, ids: seq<Oid>, id: Id)
    requires (forall i :: 0 <= i < |ids| ==> ids[i] in rows) && !Listed(ids, id)
    ensures SameEntry(s, RegisterAll(cfg, s, rows, ids), id)
    decreases |ids|
  {
    if ids != [] {
      hide RegisterRow, Hex, SameEntry;
      var row := rows[ids[0]];
      var s1 := RegisterRow(cfg, s, Hex(ids[0]), row, DiskOf(cfg, row));
      RegisterRowEffect(cfg, s, Hex(ids[0]), row, DiskOf(cfg, row));
      assert ids[0] in ids && forall o :: o in ids[1..] ==> o in ids;
      UnlistedStay(cfg, s1, rows, ids[1..], id);
      SameEntryTransitive(s, s1, RegisterAll(cfg, s1, rows, ids[1..]), id);
    } else {
      assert SameEntry(s, s, id);
    }
  }

  lemma EntryTransfers(cfg: Config, s: Ledger.State, t: Ledger.State, id: Id, row: Row, diskMB: int)
    requires RegisteredAs(cfg, s, id, row, diskMB) && SameEntry(s, t, id)
    ensures RegisteredAs(cfg, t, id, row, diskMB)
  {
  }

  lemma {:induction false} ListedRegistered(cfg: Config, s: Ledger.State, rows: map<Oid, Row>, ids: seq<Oid>, o: Oid)
    requires (forall i :: 0 <= i < |ids| ==> ids[i] in rows) && o in ids
    ensures RegisteredAs(cfg, RegisterAll(cfg, s, rows, ids), Hex(o), rows[o],
                         if rows[o].diskMB == 0 then cfg.diskMB else rows[o].diskMB)
    decreases |ids|
  {
    hide RegisterRow, Hex, SameEntry, RegisteredAs;
    var row := rows[ids[0]];
    var s1 := RegisterRow(cfg, s, Hex(ids[0]), row, DiskOf(cfg, row));
    if o in ids[1..] {
      ListedRegistered(cfg, s1, rows, ids[1..], o);
    } else {
      assert o == ids[0];
      RegisterRowEffect(cfg, s, Hex(o), row, DiskOf(cfg, row));
      forall other | other in ids[1..] ensures Hex(other) != Hex(o) { OidsByText(other, o); }
      UnlistedStay(cfg, s1, rows, ids[1..], Hex(o));
      EntryTransfers(cfg, s1, RegisterAll(cfg, s1, rows, ids[1..]), Hex(o), row, DiskOf(cfg, row));
    }
  }

  /** Re-registration: every listed row is registered, with the default disk if it has none, and every other
      entry stays. */
  lemma RegisterAllEffect(cfg: Config, s: Ledger.State, rows: map<Oid, Row>, ids: seq<Oid>)
    requires forall i :: 0 <= i < |ids| ==> ids[i] in rows
    ensures var s' := RegisterAll(cfg, s, rows, ids);
            && (forall o :: o in ids ==>
                  RegisteredAs(cfg, s', Hex(o), rows[o], if rows[o].diskMB == 0 then cfg.diskMB else rows[o].diskMB))
            && (forall id :: Listed(ids, id) || SameEntry(s, s', id))
  {
    hide RegisterAll, Hex, SameEntry, RegisteredAs, Listed;
    forall o | o in ids
      ensures RegisteredAs(cfg, RegisterAll(cfg, s, rows, ids), Hex(o), rows[o],
                           if rows[o].diskMB == 0 then cfg.diskMB else rows[o].diskMB)
    {
      ListedRegistered(cfg, s, rows, ids, o);
    }
    forall id ensures Listed(ids, id) || SameEntry(s, RegisterAll(cfg, s, rows, ids), id) {
      if !Listed(ids, id) {
        UnlistedStay(cfg, s, rows, ids, id);
      }
    }
  }

  // ---------------------------------------------------------------- how far a Create gets

  /** The answers of one Create: the host's, whether the agent comes up and whether the row is saved. */
  datatype Script = Script(host: Answers, agent: bool, save: bool)

  datatype Stage =
    | NoImage | NoDirectory | NoOverlay
    | NoTap | TapLost | MacRefused | NoProcess | NoPidFile
    | NoSocket | NoVm | NoBoot | NoBridge | NoAgent | NoSave
    | Completed

  /** The first step that fails. */
  function StageOf(prefix: string, taps: set<string>, req: Request, s: Script): Stage
    requires ValidAnswers(s.host)
  {
    var a := s.host;
    if !a.baseImage then NoImage
    else if !a.makeDir then NoDirectory
    else if !a.overlay then NoOverlay
    else if TapAdded(prefix, taps, a).None? then NoTap
    else if !a.linkLookup then TapLost
    else if !a.setMac then MacRefused
    else if !a.spawn then NoProcess
    else if !a.pidFile then NoPidFile
    else if !a.socket then NoSocket
    else if !a.vmCreate then NoVm
    else if !a.vmBoot then NoBoot
    else if !a.bridge then NoBridge
    else if req.sync != Some(false) && !s.agent then NoAgent
    else if !s.save then NoSave
    else Completed
  }

  /** The stages whose failure leaves the TAP link behind: the link exists, and no Stop runs or Stop
      finds no vm.tap to name it. */
  predicate LeavesTap(stage: Stage, a: Answers) {
    stage.TapLost? || stage.NoProcess? || stage.NoPidFile? ||
    (!a.tapFile && (stage.NoSocket? || stage.NoVm? || stage.NoBoot? ||
                    stage.NoBridge? || stage.NoAgent? || stage.NoSave?))
  }

  /** The net effect of a Create that got the address `ip`, by the first step that fails. */
  function CreateOutcome(cfg: Config, prefix: string, w: World, req: Request, oid: Oid, ip: string, s: Script): World
    requires ValidAnswers(s.host)
  {
    var id := Hex(oid);
    var stage := StageOf(prefix, w.host.taps, req, s);
    var added := TapAdded(prefix, w.host.taps, s.host);
    var held := w.(ips := w.ips + {ip});
    if stage.Completed? && added.Some? then
      var row := NewRow(cfg, req, ip);
      held.(host := Booted(w.host, id, added.value, s.host.tapFile), rows := w.rows[oid := row],
            ledger := RegisterRow(cfg, w.ledger, id, row, cfg.diskMB))
    else if stage.NoOverlay? then held.(host := w.host.(dirs := w.host.dirs[id := NEW_DIR]))
    else if LeavesTap(stage, s.host) && added.Some? then held.(host := w.host.(taps := w.host.taps + {added.value}))
    else held
  }

  predicate Prepared(a: Answers) {
    a.baseImage && a.makeDir && a.overlay
  }

  predicate Ready(req: Request, s: Script) {
    req.sync == Some(false) || s.agent
  }

  predicate Succeeds(prefix: string, taps: set<string>, req: Request, s: Script)
    requires ValidAnswers(s.host)
  {
    Prepared(s.host) && StartSucceeds(prefix, taps, s.host) && Ready(req, s) && s.save
  }

  /** The steps of a Create that got the address `ip`, in the source's order, each failure followed by
      the clean-up written there. */
  function CreateSteps(cfg: Config, prefix: string, w: World, req: Request, oid: Oid, ip: string, s: Script): World
    requires ValidAnswers(s.host)
  {
    var a, id := s.host, Hex(oid);
    var held := w.(ips := w.ips + {ip});
    var made := w.host.(dirs := if a.baseImage && a.makeDir then w.host.dirs[id := NEW_DIR] else w.host.dirs);
    var started := StartState(made, prefix, id, a);
    if !Prepared(a) then held.(host := made)
    else if !StartSucceeds(prefix, w.host.taps, a) then held.(host := RemoveDir(started, id))
    else if !Ready(req, s) || !s.save then held.(host := RemoveDir(StopState(started, id), id))
    else
      var row := NewRow(cfg, req, ip);
      held.(host := started, rows := w.rows[oid := row], ledger := RegisterRow(cfg, w.ledger, id, row, cfg.diskMB))
  }

  /** An object id that nothing uses yet. */
  predicate FreshId(w: World, oid: Oid) {
    var id := Hex(oid);
    oid !in w.rows && id !in w.host.dirs && id !in w.host.procs && id !in w.ledger.alloc
  }

  /** Directory and ledger go by the text of the id, the row by the object id it parses to. */
  function DeleteOutcome(w: World, id: Id, removable: bool, dropped: bool): World {
    var host := DeleteState(w.host, id, removable);
    if !removable || id == "." then w.(host := host)
    else
      World(host, if Parse(id).Some? && dropped then w.rows - {Parse(id).value} else w.rows,
            Ledger.Unregister(w.ledger, id), w.ips)
  }

  function StopOutcome(w: World, id: Id): World {
    w.(host := StopState(w.host, id), ledger := Ledger.Unregister(w.ledger, id))
  }

  // ---------------------------------------------------------------- the service

  class SandboxService {
    const cfg: Config
    const host: Host
    const repo: Allocator.SandboxRepository
    const metrics: Ledger.Manager
    var rows: map<Oid, Row>

    ghost function Contents(): World
      reads this, host, repo, metrics
    {
      World(host.State(), rows, metrics.Contents(), repo.allocatedIPs)
    }

    ghost predicate Valid()
      reads this, host, repo, metrics
    {
      repo.Valid() && Ledger.Valid(metrics.Contents())
    }

    constructor (cfg: Config, host: Host, repo: Allocator.SandboxRepository, metrics: Ledger.Manager)
      requires repo.Valid() && Ledger.Valid(metrics.Contents())
      ensures Valid() && this.cfg == cfg && this.host == host && this.repo == repo && this.metrics == metrics
      ensures rows == map[]
    {
      this.cfg, this.host, this.repo, this.metrics := cfg, host, repo, metrics;
      rows := map[];
    }

    /** `draws` are the allocator's random draws and `oid` is the generated object id. */
    method Create(req: Request, oid: Oid, draws: seq<nat>, s: Script) returns (created: Option<Row>)
      requires Valid() && ValidAnswers(s.host) && FreshId(Contents(), oid)
      requires repo.network.Some? ==> Allocator.ValidDraws(repo.network.value, draws)
      modifies this`rows, host, repo, metrics
      ensures Valid()
      ensures var address := Allocator.NextIP(repo.network, old(repo.allocatedIPs), draws);
              if address.None? then Contents() == old(Contents()) && created == None
              else
                && Contents() == CreateSteps(cfg, host.tapPrefix, old(Contents()), req, oid, address.value, s)
                && created == (if Succeeds(host.tapPrefix, old(host.taps), req, s)
                               then Some(NewRow(cfg, req, address.value)) else None)
      ensures created.Some? ==> AsRequested(cfg, req, created.value) && rows == old(rows)[oid := created.value]
    {
      hide Ledger.Register, Ledger.Valid, Ledger.SpecOf, Allocator.NextIP, SocketPath, NewRow;
      hide StartState, StopState, StartSucceeds;
      var address := repo.NextAvailableIP(draws);
      if address.None? {
        return None;
      }
      var ip := address.value;
      var id := Hex(oid);
      var prepared := host.PrepareInstance(id, s.host);
      if !prepared {
        return None;
      }
      var started := host.Start(id, s.host);
      if !started {
        var _ := host.RemoveAll(id, true);
        return None;
      }
      var syncEnabled := true;
      if req.sync.Some? {
        syncEnabled := req.sync.value;
      }
      if syncEnabled && !s.agent {
        host.Stop(id);
        var _ := host.RemoveAll(id, true);
        return None;
      }
      if !s.save {
        host.Stop(id);
        var _ := host.RemoveAll(id, true);
        return None;
      }
      var row := NewRow(cfg, req, ip);
      RowAsRequested(cfg, req, ip);
      rows := rows[oid := row];
      metrics.RegisterSandbox(id, row.name, SocketPath(cfg, id), row.cpu, row.mem, cfg.diskMB);
      return Some(row);
    }

    /** `id` is the text in the request, `dropped` whether the database call succeeds. */
    method Delete(id: Id, removable: bool, dropped: bool) returns (ok: bool)
      requires Valid() && '/' !in id
      modifies this`rows, host, metrics
      ensures Valid()
      ensures Contents() == DeleteOutcome(old(Contents()), id, removable, dropped)
      ensures ok <==> removable && id != "." && Parse(id).Some? && dropped
      ensures !removable || id == "." ==> rows == old(rows) && metrics.Contents() == old(metrics.Contents())
      ensures removable && id != "." ==>
                && rows == (if Parse(id).Some? && dropped then old(rows) - {Parse(id).value} else old(rows))
                && (id != "" ==> id !in metrics.alloc && id !in metrics.vms)
    {
      hide Ledger.Unregister, Ledger.Valid, StopState;
      var deleted := host.Delete(id, removable);
      if !deleted {
        return false;
      }
      metrics.UnregisterSandbox(id);
      var objID := Parse(id);
      if objID.None? {
        return false;
      }
      if dropped {
        rows := rows - {objID.value};
      }
      return dropped;
    }

    method Stop(id: Id)
      requires Valid() && '/' !in id
      modifies host, metrics
      ensures Valid()
      ensures Contents() == StopOutcome(old(Contents()), id)
      ensures rows == old(rows) && (id != "" ==> id !in metrics.alloc && id !in metrics.vms)
    {
      hide Ledger.Unregister, Ledger.Valid, StopState;
      host.Stop(id);
      metrics.UnregisterSandbox(id);
    }

    /** `running` is what Find returns for the running rows, None if it fails. */
    method RegisterMetricsForExisting(running: Option<seq<Oid>>) returns (ok: bool)
      requires Valid()
      requires running.Some? ==> forall i :: 0 <= i < |running.value| ==> running.value[i] in rows
      modifies metrics
      ensures Valid() && ok == running.Some?
      ensures Contents() == old(Contents()).(ledger :=
                if running.None? then old(Contents()).ledger
                else RegisterAll(cfg, old(Contents()).ledger, rows, running.value))
      ensures running.Some? ==>
                forall o :: o in running.value ==>
                  RegisteredAs(cfg, metrics.Contents(), Hex(o), rows[o],
                               if rows[o].diskMB == 0 then cfg.diskMB else rows[o].diskMB)
    {
      hide Ledger.Register, Ledger.Valid;
      if running.None? {
        return false;
      }
      var ids := running.value;
      RegisterAllEffect(cfg, metrics.Contents(), rows, ids);
      for i := 0 to |ids|
        invariant Ledger.Valid(metrics.Contents())
        invariant RegisterAll(cfg, old(metrics.Contents()), rows, ids) ==
                  RegisterAll(cfg, metrics.Contents(), rows, ids[i..])
      {
        var sb := rows[ids[i]];
        var diskMB := sb.diskMB;
        if diskMB == 0 {
          diskMB := cfg.diskMB;
        }
        assert ids[i..][1..] == ids[i + 1..];
        metrics.RegisterSandbox(Hex(ids[i]), sb.name, SocketPath(cfg, Hex(ids[i])), sb.cpu, sb.mem, diskMB);
      }
      return true;
    }
  }

  /** After Start fails and the directory is removed, at most the TAP link is left. */
  lemma FailedStartCleaned(h: HostState, prefix: string, id: Id, a: Answers)
    requires ValidAnswers(a) && id !in h.dirs && id !in h.procs
    ensures var h1 := h.(dirs := h.dirs[id := NEW_DIR]);
            var added := TapAdded(prefix, h.taps, a);
            !StartSucceeds(prefix, h.taps, a) ==>
              RemoveDir(StartState(h1, prefix, id, a), id) ==
              if added.Some? && (!a.linkLookup || (a.setMac && (!a.spawn || !a.pidFile || !a.tapFile)))
              then h.(taps := h.taps + {added.value}) else h
  {
    hide TapFrom;
    var h1 := h.(dirs := h.dirs[id := NEW_DIR]);
    var added := TapAdded(prefix, h.taps, a);
    if added.Some? {
      StopUndoesBoot(h1, id, added.value, a.tapFile);
    }
    assert h1.dirs - {id} == h.dirs;
    assert h1.dirs[id := Files(false, added)] - {id} == h.dirs;
  }

  /** After Start succeeds, stopping and removing the directory gives everything back but, if vm.tap
      could not be written, the TAP link. */
  lemma StartedState(h: HostState, prefix: string, id: Id, a: Answers)
    requires ValidAnswers(a) && id !in h.dirs && id !in h.procs && StartSucceeds(prefix, h.taps, a)
    ensures var h1 := h.(dirs := h.dirs[id := NEW_DIR]);
            var tap := TapAdded(prefix, h.taps, a).value;
            && StartState(h1, prefix, id, a) == Booted(h, id, tap, a.tapFile)
            && RemoveDir(StopState(Booted(h, id, tap, a.tapFile), id), id) ==
               if a.tapFile then h else h.(taps := h.taps + {tap})
  {
    hide TapFrom;
    var h1 := h.(dirs := h.dirs[id := NEW_DIR]);
    var tap := TapAdded(prefix, h.taps, a).value;
    StopUndoesBoot(h1, id, tap, a.tapFile);
    assert Booted(h1, id, tap, a.tapFile) == Booted(h, id, tap, a.tapFile);
    assert h1.dirs - {id} == h.dirs;
  }

  /** The steps with their clean-ups add up to the net effect, which only the first failing step decides. */
  lemma CreateStepByStep(cfg: Config, prefix: string, w: World, req: Request, oid: Oid, ip: string, s: Script)
    requires ValidAnswers(s.host) && FreshId(w, oid)
    ensures StageOf(prefix, w.host.taps, req, s).Completed? <==> Succeeds(prefix, w.host.taps, req, s)
    ensures CreateSteps(cfg, prefix, w, req, oid, ip, s) == CreateOutcome(cfg, prefix, w, req, oid, ip, s)
  {
    hide StartState, StopState, TapAdded, RegisterRow, NewRow;
    FailedStartCleaned(w.host, prefix, Hex(oid), s.host);
    if StartSucceeds(prefix, w.host.taps, s.host) {
      StartedState(w.host, prefix, Hex(oid), s.host);
    }
  }

  /** A Create succeeds exactly if the base image is there, directory, overlay, link, process, pid file,
      socket, VM, boot and bridge work out, the agent answers unless the request says not to wait for it,
      and the row is saved. */
  lemma SucceedsExactly(prefix: string, taps: set<string>, req: Request, s: Script)
    requires ValidAnswers(s.host)
    ensures var a := s.host;
            Succeeds(prefix, taps, req, s) <==>
              && a.baseImage && a.makeDir && a.overlay
              && |prefix| <= 9 && (exists k :: 0 <= k < 5 && Accepted(prefix, taps, a, k)) && a.linkLookup && a.setMac
              && a.spawn && a.pidFile && a.socket && a.vmCreate && a.vmBoot && a.bridge
              && (req.sync == Some(false) || s.agent) && s.save
  {
    hide TapAdded, Accepted;
    TapIsFirstAccepted(prefix, taps, s.host);
  }

  /** What a successful Create leaves: the row as requested, the address taken, the VM running with its pid
      file, its link there and, unless vm.tap could not be written, recorded, and the sandbox registered;
      everything else is as before. */
  lemma CreatedSandbox(cfg: Config, prefix: string, w: World, req: Request, oid: Oid, ip: string, s: Script)
    returns (row: Row, tap: string)
    requires ValidAnswers(s.host) && FreshId(w, oid) && Succeeds(prefix, w.host.taps, req, s)
    ensures AsRequested(cfg, req, row) && row.ip == ip && tap !in w.host.taps && prefix <= tap
    ensures var id, w' := Hex(oid), CreateSteps(cfg, prefix, w, req, oid, ip, s);
            && w'.rows == w.rows[oid := row] && w'.ips == w.ips + {ip}
            && w'.host.procs == w.host.procs + {id} && w'.host.taps == w.host.taps + {tap}
            && w'.host.dirs == w.host.dirs[id := Files(true, if s.host.tapFile then Some(tap) else None)]
            && RegisteredAs(cfg, w'.ledger, id, row, cfg.diskMB)
            && forall other :: other != id ==> SameEntry(w.ledger, w'.ledger, other)
  {
    hide CreateSteps, Succeeds, StartSucceeds, TapAdded, RegisterRow, RegisteredAs, SameEntry, Hex, AsRequested;
    row := NewRow(cfg, req, ip);
    RowAsRequested(cfg, req, ip);
    CreateStepByStep(cfg, prefix, w, req, oid, ip, s);
    SucceedsExactly(prefix, w.host.taps, req, s);
    tap := TapAdded(prefix, w.host.taps, s.host).value;
    TapIsFirstAccepted(prefix, w.host.taps, s.host);
    RegisterRowEffect(cfg, w.ledger, Hex(oid), row, cfg.diskMB);
  }

  // ---------------------------------------------------------------- all or nothing

  /** A Create that does not succeed leaves processes, links, directories, rows and ledger as they were,
      with only the address pool grown, by the one address, exactly when it did not fail at the overlay
      and did not leave the TAP link behind. */
  lemma AllOrNothing(cfg: Config, prefix: string, w: World, req: Request, oid: Oid, ip: string, s: Script)
    requires ValidAnswers(s.host) && FreshId(w, oid) && ip !in w.ips
    ensures var stage := StageOf(prefix, w.host.taps, req, s);
            var w' := CreateSteps(cfg, prefix, w, req, oid, ip, s);
            && |w'.ips| == |w.ips| + 1
            && (!Succeeds(prefix, w.host.taps, req, s) ==>
                  (w' == w.(ips := w.ips + {ip}) <==> !stage.NoOverlay? && !LeavesTap(stage, s.host)))
  {
    hide TapFrom, StartState, StopState, Succeeds, CreateSteps;
    CreateStepByStep(cfg, prefix, w, req, oid, ip, s);
    var stage := StageOf(prefix, w.host.taps, req, s);
    var w' := CreateOutcome(cfg, prefix, w, req, oid, ip, s);
    var added := TapAdded(prefix, w.host.taps, s.host);
    if stage.NoOverlay? {
      assert Hex(oid) in w'.host.dirs;
    } else if LeavesTap(stage, s.host) {
      assert added.value in w'.host.taps;
    }
  }

  /** In particular, from the socket wait onward, with vm.tap written, every failure is undone. */
  lemma RollbackFromSocketWait(cfg: Config, prefix: string, w: World, req: Request, oid: Oid, ip: string, s: Script)
    requires ValidAnswers(s.host) && FreshId(w, oid) && ip !in w.ips && s.host.tapFile
    requires var stage := StageOf(prefix, w.host.taps, req, s);
             stage in {NoSocket, NoVm, NoBoot, NoBridge, NoAgent, NoSave}
    ensures CreateSteps(cfg, prefix, w, req, oid, ip, s) == w.(ips := w.ips + {ip})
  {
    hide CreateSteps;
    AllOrNothing(cfg, prefix, w, req, oid, ip, s);
    CreateStepByStep(cfg, prefix, w, req, oid, ip, s);
  }

  /** Answers under which everything succeeds, the link getting the given suffix. */
  function AllWell(suffix: string): Script
    requires |suffix| == 6
  {
    Script(Answers(true, true, true, seq(TAP_ATTEMPTS, _ => suffix), seq(TAP_ATTEMPTS, _ => true), true, true,
                   true, true, true, true, true, true, true), true, true)
  }

  /** On an empty host: with the overlay refused the directory stays, with the VMM not spawned the link. */
  lemma FailedCreateCanLeak(cfg: Config, req: Request, oid: Oid, ip: string)
    returns (noOverlay: Script, noSpawn: Script)
    ensures ValidAnswers(noOverlay.host) && ValidAnswers(noSpawn.host)
    ensures var w := World(HostState({}, {}, map[]), map[], Ledger.EMPTY, {});
            && !Succeeds("tap", {}, req, noOverlay) && !Succeeds("tap", {}, req, noSpawn)
            && CreateSteps(cfg, "tap", w, req, oid, ip, noOverlay).host == HostState({}, {}, map[Hex(oid) := NEW_DIR])
            && CreateSteps(cfg, "tap", w, req, oid, ip, noSpawn).host == HostState({}, {"tapaaaaaa"}, map[])
  {
    hide Hex;
    var well := AllWell("aaaaaa");
    noOverlay := well.(host := well.host.(overlay := false));
    noSpawn := well.(host := well.host.(spawn := false));
    assert "tap" + "aaaaaa" == "tapaaaaaa";
    assert TapAdded("tap", {}, noSpawn.host) == Some("tapaaaaaa");
  }

  /** Deleting a sandbox by the id it is printed with undoes creating it, its address staying allocated,
      exactly when vm.tap was written; otherwise, the error being ignored, the TAP link is left. */
  lemma DeleteUndoesCreate(cfg: Config, prefix: string, w: World, req: Request, oid: Oid, ip: string, s: Script)
    requires ValidAnswers(s.host) && FreshId(w, oid) && Ledger.Valid(w.ledger)
    requires Succeeds(prefix, w.host.taps, req, s)
    ensures DeleteOutcome(CreateSteps(cfg, prefix, w, req, oid, ip, s), Hex(oid), true, true) == w.(ips := w.ips + {ip})
       <==> s.host.tapFile
  {
    hide Ledger.Valid, Ledger.Register, Ledger.Unregister, TapFrom, Parse, Hex, StartState;
    var id := Hex(oid);
    ParseOfHex(oid);
    StartedState(w.host, prefix, id, s.host);
    var row := NewRow(cfg, req, ip);
    Ledger.UnregisterUndoesRegister(w.ledger, id, row.name, SocketPath(cfg, id),
                                    Ledger.SpecOf(row.cpu, row.mem, cfg.diskMB));
    assert w.rows[oid := row] - {oid} == w.rows;
    var tap := TapAdded(prefix, w.host.taps, s.host).value;
    var w' := DeleteOutcome(CreateSteps(cfg, prefix, w, req, oid, ip, s), id, true, true);
    if !s.host.tapFile {
      assert tap in w'.host.taps && tap !in w.host.taps;
    }
  }
}
