/** The host allocation ledger of `internal/metrics/manager.go`: running totals kept beside a per-VM
    map under a lock, and gauges published after the lock is released. */
module Ledger {
  import opened Options

  // ---------------------------------------------------------------- int64 arithmetic

  const TWO63: int := 0x8000_0000_0000_0000
  const TWO64: int := 0x1_0000_0000_0000_0000

  /** The int64 that an integer result is stored as. */
  function Wrap(x: int): (r: int)
    ensures -TWO63 <= r < TWO63
    ensures -TWO63 <= x < TWO63 <==> r == x
  {
    (x + TWO63) % TWO64 - TWO63
  }

  lemma WrapAdd(a: int, b: int)
    ensures Wrap(Wrap(a) + b) == Wrap(a + b)
  {
  }

  lemma WrapUndo(a: int, s: int)
    ensures Wrap(Wrap(a + s) + -a) == Wrap(s)
    ensures Wrap(Wrap(s) + a) == Wrap(a + s)
  {
    WrapAdd(a + s, -a);
    WrapAdd(s, a);
  }

  // ---------------------------------------------------------------- the ledger as a value

  /** vCPUs, memory bytes and disk bytes: of one VM (`allocSpec`) or of the host. */
  datatype Alloc = Alloc(vcpu: int, mem: int, disk: int)

  const NOTHING := Alloc(0, 0, 0)

  function Plus(a: Alloc, b: Alloc): Alloc {
    Alloc(a.vcpu + b.vcpu, a.mem + b.mem, a.disk + b.disk)
  }

  function WrapAlloc(a: Alloc): Alloc {
    Alloc(Wrap(a.vcpu), Wrap(a.mem), Wrap(a.disk))
  }

  function Added(total: Alloc, a: Alloc): Alloc {
    WrapAlloc(Plus(total, a))
  }

  function Removed(total: Alloc, a: Alloc): Alloc {
    WrapAlloc(Plus(total, Alloc(-a.vcpu, -a.mem, -a.disk)))
  }

  function NonNegative(x: int): int {
    if x < 0 then 0 else x
  }

  function MiB(n: int): int {
    n * 1024 * 1024
  }

  predicate NonNegativeAlloc(a: Alloc) {
    a.vcpu >= 0 && a.mem >= 0 && a.disk >= 0
  }

  /** What a registration with these request values puts into the per-VM map. */
  function SpecOf(cpu: int, memMB: int, diskMB: int): (a: Alloc)
    ensures NonNegativeAlloc(a)
  {
    Alloc(NonNegative(Wrap(cpu)), NonNegative(Wrap(MiB(memMB))), NonNegative(Wrap(MiB(diskMB))))
  }

  function AtLeastZero(n: int): int {
    if n < 0 then 0 else n
  }

  /** Within the int64 range, CPUs count one by one and memory and disk in units of 2^20 bytes; negative
      values count nothing. */
  lemma SpecInBytes(cpu: int, memMB: int, diskMB: int)
    requires -TWO63 <= cpu < TWO63
    requires -0x800_0000_0000 <= memMB < 0x800_0000_0000 && -0x800_0000_0000 <= diskMB < 0x800_0000_0000
    ensures SpecOf(cpu, memMB, diskMB) ==
            Alloc(AtLeastZero(cpu), AtLeastZero(memMB) * 0x10_0000, AtLeastZero(diskMB) * 0x10_0000)
  {
    hide Wrap;
    assert -TWO63 <= MiB(memMB) < TWO63 && -TWO63 <= MiB(diskMB) < TWO63;
  }

  datatype State = State(vms: map<string, string>, names: map<string, string>, alloc: map<string, Alloc>, totals: Alloc)

  const EMPTY := State(map[], map[], map[], NOTHING)

  function Register(s: State, id: string, name: string, socket: string, spec: Alloc): State {
    if id == "" || socket == "" then s
    else
      var totals := if id in s.alloc then Removed(s.totals, s.alloc[id]) else s.totals;
      State(s.vms[id := socket], s.names[id := if name == "" then "unknown" else name],
            s.alloc[id := spec], Added(totals, spec))
  }

  function Unregister(s: State, id: string): State {
    if id == "" then s
    else
      State(s.vms - {id}, s.names - {id}, s.alloc - {id},
            if id in s.alloc then Removed(s.totals, s.alloc[id]) else s.totals)
  }

  /** The unbounded sum over a per-VM map. */
  ghost function Sum(m: map<string, Alloc>): Alloc {
    if m == map[] then NOTHING
    else
      var id :| id in m;
      Plus(m[id], Sum(m - {id}))
  }

  ghost predicate Valid(s: State) {
    && s.vms.Keys == s.names.Keys == s.alloc.Keys
    && s.totals == WrapAlloc(Sum(s.alloc))
    && forall id :: id in s.alloc ==> NonNegativeAlloc(s.alloc[id])
  }

  lemma {:induction false} SumRemove(m: map<string, Alloc>, id: string)
    requires id in m
    ensures Sum(m) == Plus(m[id], Sum(m - {id}))
    decreases |m|
  {
    var pick :| pick in m && Sum(m) == Plus(m[pick], Sum(m - {pick}));
    if pick != id {
      var m1, m2 := m - {pick}, m - {id};
      assert m1[id] == m[id] && m2[pick] == m[pick];
      assert m1 - {id} == m2 - {pick};
      SumRemove(m1, id);
      SumRemove(m2, pick);
      assert Sum(m) == Plus(m[pick], Plus(m[id], Sum(m1 - {id})));
    }
  }

  lemma SumUpdate(m: map<string, Alloc>, id: string, a: Alloc)
    ensures Sum(m[id := a]) == Plus(a, Sum(m - {id}))
  {
    SumRemove(m[id := a], id);
    assert m[id := a] - {id} == m - {id};
  }

  lemma RemovedUndoes(sum: Alloc, a: Alloc)
    ensures Removed(WrapAlloc(Plus(a, sum)), a) == WrapAlloc(sum)
    ensures Added(WrapAlloc(sum), a) == WrapAlloc(Plus(a, sum))
  {
    hide Wrap;
    WrapUndo(a.vcpu, sum.vcpu);
    WrapUndo(a.mem, sum.mem);
    WrapUndo(a.disk, sum.disk);
  }

  lemma RegisterKeepsTotals(m: map<string, Alloc>, id: string, spec: Alloc)
    ensures var totals := WrapAlloc(Sum(m));
            Added(if id in m then Removed(totals, m[id]) else totals, spec) == WrapAlloc(Sum(m[id := spec]))
  {
    hide Wrap;
    SumUpdate(m, id, spec);
    if id in m {
      SumRemove(m, id);
      RemovedUndoes(Sum(m - {id}), m[id]);
    } else {
      assert m - {id} == m;
    }
    RemovedUndoes(Sum(m - {id}), spec);
  }

  lemma RegisterKeepsValid(s: State, id: string, name: string, socket: string, spec: Alloc)
    requires Valid(s) && NonNegativeAlloc(spec)
    ensures Valid(Register(s, id, name, socket, spec))
  {
    hide Wrap, Sum, WrapAlloc, Added, Removed;
    RegisterKeepsTotals(s.alloc, id, spec);
  }

  lemma UnregisterKeepsValid(s: State, id: string)
    requires Valid(s)
    ensures Valid(Unregister(s, id))
  {
    if id != "" && id in s.alloc {
      SumRemove(s.alloc, id);
      RemovedUndoes(Sum(s.alloc - {id}), s.alloc[id]);
    } else {
      assert s.alloc - {id} == s.alloc || id == "";
    }
  }

  lemma {:induction false} SumNonNegative(m: map<string, Alloc>)
    requires forall id :: id in m ==> NonNegativeAlloc(m[id])
    ensures NonNegativeAlloc(Sum(m))
    decreases |m|
  {
    if m != map[] {
      var id :| id in m && Sum(m) == Plus(m[id], Sum(m - {id}));
      var rest := m - {id};
      assert forall k :: k in rest ==> k in m && rest[k] == m[k];
      SumNonNegative(rest);
      assert Sum(m) == Plus(m[id], Sum(rest));
    }
  }

  /** The totals are the sums of the map exactly while those sums fit an int64; then they are also
      non-negative. */
  lemma TotalsExactWhileTheyFit(s: State)
    requires Valid(s)
    ensures s.totals == Sum(s.alloc) <==>
            Sum(s.alloc).vcpu < TWO63 && Sum(s.alloc).mem < TWO63 && Sum(s.alloc).disk < TWO63
    ensures s.totals == Sum(s.alloc) ==> NonNegativeAlloc(s.totals)
  {
    SumNonNegative(s.alloc);
  }

  lemma RegisterUnknown(s: State, id: string, name: string, socket: string, spec: Alloc)
    requires id != "" && socket != "" && id !in s.alloc
    ensures var s' := Register(s, id, name, socket, spec);
            s'.alloc == s.alloc[id := spec] && s'.totals == Added(s.totals, spec)
  {
  }

  lemma HugeSpec()
    ensures SpecOf(1, 0x400_0000_0000, 0) == Alloc(1, TWO63 / 2, 0)
  {
    assert MiB(0x400_0000_0000) == TWO63 / 2;
  }

  lemma HugeTwice(a: Alloc)
    requires a == Alloc(1, TWO63 / 2, 0)
    ensures Added(Added(NOTHING, a), a).mem == -TWO63
  {
  }

  /** Two VMs of 2^42 MiB each: their sum does not fit, and the memory total is negative. */
  lemma TotalsCanOverflow()
    ensures var spec := SpecOf(1, 0x400_0000_0000, 0);
            var s := Register(Register(EMPTY, "a", "a", "s", spec), "b", "b", "s", spec);
            s.alloc == map["a" := spec, "b" := spec] && spec.mem == TWO63 / 2 && s.totals.mem == -TWO63
  {
    hide Wrap, SpecOf, Added, Register;
    var spec := SpecOf(1, 0x400_0000_0000, 0);
    HugeSpec();
    HugeTwice(spec);
    var s1 := Register(EMPTY, "a", "a", "s", spec);
    RegisterUnknown(EMPTY, "a", "a", "s", spec);
    assert "b" !in s1.alloc by {
      assert "a"[0] != "b"[0];
    }
    RegisterUnknown(s1, "b", "b", "s", spec);
  }

  /** Unregistering undoes a registration of an unknown id. */
  lemma UnregisterUndoesRegister(s: State, id: string, name: string, socket: string, spec: Alloc)
    requires Valid(s) && id !in s.alloc && id != ""
    ensures Unregister(Register(s, id, name, socket, spec), id) == s
  {
    hide Wrap, Sum, WrapAlloc, Added, Removed;
    assert id !in s.vms.Keys && id !in s.names.Keys;
    assert s.alloc - {id} == s.alloc && s.vms - {id} == s.vms && s.names - {id} == s.names;
    if socket != "" {
      var r := Register(s, id, name, socket, spec);
      assert r.alloc - {id} == s.alloc && r.vms - {id} == s.vms && r.names - {id} == s.names;
      RemovedUndoes(Sum(s.alloc), spec);
    }
  }

  // ---------------------------------------------------------------- the object

  class Manager {
    var vms: map<string, string>
    var sbxNames: map<string, string>
    var alloc: map<string, Alloc>
    var allocVcpu: int
    var allocMemBytes: int
    var allocDiskBytes: int
    var hostAllocVcpu: Option<int>
    var hostAllocMemBytes: Option<int>
    var hostAllocDiskBytes: Option<int>

    ghost function Contents(): State
      reads this
    {
      State(vms, sbxNames, alloc, Alloc(allocVcpu, allocMemBytes, allocDiskBytes))
    }

    constructor ()
      ensures Contents() == EMPTY && Valid(Contents())
      ensures hostAllocVcpu == hostAllocMemBytes == hostAllocDiskBytes == None
    {
      vms, sbxNames, alloc := map[], map[], map[];
      allocVcpu, allocMemBytes, allocDiskBytes := 0, 0, 0;
      hostAllocVcpu, hostAllocMemBytes, hostAllocDiskBytes := None, None, None;
    }

    method RegisterSandbox(vmID: string, sbxName: string, socketPath: string, cpu: int, memMB: int, diskMB: int)
      requires Valid(Contents())
      modifies this
      ensures Contents() == Register(old(Contents()), vmID, sbxName, socketPath, SpecOf(cpu, memMB, diskMB))
      ensures Valid(Contents())
      ensures vmID != "" && socketPath != "" ==>
                && vms == old(vms)[vmID := socketPath]
                && sbxNames == old(sbxNames)[vmID := if sbxName == "" then "unknown" else sbxName]
                && alloc == old(alloc)[vmID := SpecOf(cpu, memMB, diskMB)]
      ensures if vmID == "" || socketPath == ""
              then unchanged(this)
              else hostAllocVcpu == Some(allocVcpu) && hostAllocMemBytes == Some(allocMemBytes) &&
                   hostAllocDiskBytes == Some(allocDiskBytes)
    {
      hide Wrap, Sum, Valid, NonNegative, MiB;
      ghost var spec := SpecOf(cpu, memMB, diskMB);
      RegisterKeepsValid(Contents(), vmID, sbxName, socketPath, spec);
      if vmID == "" || socketPath == "" {
        return;
      }
      var name := if sbxName == "" then "unknown" else sbxName;
      var vcpu := NonNegative(Wrap(cpu));
      var memBytes := NonNegative(Wrap(MiB(memMB)));
      var diskBytes := NonNegative(Wrap(MiB(diskMB)));
      assert Alloc(vcpu, memBytes, diskBytes) == spec;
      vms := vms[vmID := socketPath];
      sbxNames := sbxNames[vmID := name];
      if vmID in alloc {
        var prev := alloc[vmID];
        allocVcpu := Wrap(allocVcpu - prev.vcpu);
        allocMemBytes := Wrap(allocMemBytes - prev.mem);
        allocDiskBytes := Wrap(allocDiskBytes - prev.disk);
      }
      ghost var freed := Alloc(allocVcpu, allocMemBytes, allocDiskBytes);
      assert freed == if vmID in old(alloc) then Removed(old(Contents()).totals, old(alloc)[vmID])
             else old(Contents()).totals;
      alloc := alloc[vmID := Alloc(vcpu, memBytes, diskBytes)];
      allocVcpu := Wrap(allocVcpu + vcpu);
      allocMemBytes := Wrap(allocMemBytes + memBytes);
      allocDiskBytes := Wrap(allocDiskBytes + diskBytes);
      assert Alloc(allocVcpu, allocMemBytes, allocDiskBytes) == Added(freed, spec);
      hostAllocVcpu := Some(allocVcpu);
      hostAllocMemBytes := Some(allocMemBytes);
      hostAllocDiskBytes := Some(allocDiskBytes);
    }

    method UnregisterSandbox(vmID: string)
      requires Valid(Contents())
      modifies this
      ensures Contents() == Unregister(old(Contents()), vmID) && Valid(Contents())
      ensures vmID != "" ==>
                vms == old(vms) - {vmID} && sbxNames == old(sbxNames) - {vmID} && alloc == old(alloc) - {vmID}
      ensures if vmID == ""
              then unchanged(this)
              else hostAllocVcpu == Some(allocVcpu) && hostAllocMemBytes == Some(allocMemBytes) &&
                   hostAllocDiskBytes == Some(allocDiskBytes)
    {
      hide Wrap, Sum, Valid;
      UnregisterKeepsValid(Contents(), vmID);
      if vmID == "" {
        return;
      }
      vms := vms - {vmID};
      sbxNames := sbxNames - {vmID};
      if vmID in alloc {
        var prev := alloc[vmID];
        allocVcpu := Wrap(allocVcpu - prev.vcpu);
        allocMemBytes := Wrap(allocMemBytes - prev.mem);
        allocDiskBytes := Wrap(allocDiskBytes - prev.disk);
        alloc := alloc - {vmID};
      } else {
        assert alloc - {vmID} == alloc;
      }
      hostAllocVcpu := Some(allocVcpu);
      hostAllocMemBytes := Some(allocMemBytes);
      hostAllocDiskBytes := Some(allocDiskBytes);
    }
  }
}
