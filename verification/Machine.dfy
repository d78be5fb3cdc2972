/** What `pkg/machine/manager.go`, `pkg/machine/actions.go`, `pkg/storage/disk.go` and
    `pkg/network/host.go` do to the host: VMM processes, TAP links and instance directories. */
module Machine {
  import opened Options

  type Id = string

  /** The files of an instance directory that Stop looks at. */
  datatype Files = Files(pid: bool, tap: Option<string>)

  datatype HostState = HostState(procs: set<Id>, taps: set<string>, dirs: map<Id, Files>)

  const NEW_DIR := Files(false, None)

  /** How the calls into the operating system and the VMM answer during one Create, in program order. */
  datatype Answers = Answers(
    baseImage: bool, makeDir: bool, overlay: bool,
    suffixes: seq<string>, linkAdd: seq<bool>, linkLookup: bool, setMac: bool,
    tapFile: bool, spawn: bool, pidFile: bool,
    socket: bool, vmCreate: bool, vmBoot: bool, bridge: bool)

  const TAP_ATTEMPTS := 5
  const MAX_IFACE_NAME := 15

  /** The random suffixes are six hex digits each; one kernel answer per attempt. */
  predicate ValidAnswers(a: Answers) {
    && |a.suffixes| == |a.linkAdd| == TAP_ATTEMPTS
    && forall k :: 0 <= k < TAP_ATTEMPTS ==> |a.suffixes[k]| == 6
  }

  /** The first random name from attempt `k` on that the kernel accepts; a name in use is refused. */
  function TapFrom(prefix: string, taps: set<string>, a: Answers, k: nat): (t: Option<string>)
    requires ValidAnswers(a) && k <= TAP_ATTEMPTS
    ensures t.Some? ==> t.value !in taps && |t.value| == |prefix| + 6
    decreases TAP_ATTEMPTS - k
  {
    if k == TAP_ATTEMPTS then None
    else if prefix + a.suffixes[k] !in taps && a.linkAdd[k] then Some(prefix + a.suffixes[k])
    else TapFrom(prefix, taps, a, k + 1)
  }

  /** The TAP link that CreateRandomTap adds, if any. */
  function TapAdded(prefix: string, taps: set<string>, a: Answers): Option<string>
    requires ValidAnswers(a)
  {
    if |prefix| + 6 > MAX_IFACE_NAME then None else TapFrom(prefix, taps, a, 0)
  }

  /** The kernel accepts the name of attempt `k`. */
  predicate Accepted(prefix: string, taps: set<string>, a: Answers, k: nat)
    requires ValidAnswers(a) && k < TAP_ATTEMPTS
  {
    prefix + a.suffixes[k] !in taps && a.linkAdd[k]
  }

  lemma {:induction false} TapFromIsFirst(prefix: string, taps: set<string>, a: Answers, k: nat) returns (i: nat)
    requires ValidAnswers(a) && k <= TAP_ATTEMPTS
    ensures k <= i <= TAP_ATTEMPTS && forall j :: k <= j < i ==> !Accepted(prefix, taps, a, j)
    ensures if i == TAP_ATTEMPTS then TapFrom(prefix, taps, a, k) == None
            else Accepted(prefix, taps, a, i) && TapFrom(prefix, taps, a, k) == Some(prefix + a.suffixes[i])
    decreases TAP_ATTEMPTS - k
  {
    if k < TAP_ATTEMPTS && !Accepted(prefix, taps, a, k) {
      i := TapFromIsFirst(prefix, taps, a, k + 1);
    } else {
      i := k;
    }
  }

  /** A link is added exactly if the prefix has at most nine characters and the kernel accepts one of five
      random names; it gets the first one accepted. */
  lemma TapIsFirstAccepted(prefix: string, taps: set<string>, a: Answers)
    requires ValidAnswers(a)
    ensures |a.suffixes| == 5
    ensures match TapAdded(prefix, taps, a)
            case None => |prefix| > 9 || forall k :: 0 <= k < 5 ==> !Accepted(prefix, taps, a, k)
            case Some(tap) =>
              && |prefix| <= 9
              && exists k :: 0 <= k < 5 && tap == prefix + a.suffixes[k] && Accepted(prefix, taps, a, k) &&
                   forall j :: 0 <= j < k ==> !Accepted(prefix, taps, a, j)
  {
    var i := TapFromIsFirst(prefix, taps, a, 0);
  }

  /** Killing the process and removing the link that the directory's files name. */
  function StopState(h: HostState, id: Id): HostState {
    if id !in h.dirs then h
    else
      var f := h.dirs[id];
      HostState(if f.pid then h.procs - {id} else h.procs,
                if f.tap.Some? then h.taps - {f.tap.value} else h.taps,
                h.dirs[id := NEW_DIR])
  }

  function RemoveDir(h: HostState, id: Id): HostState {
    h.(dirs := h.dirs - {id})
  }

  predicate NamesAll(id: Id) {
    id == "" || id == ".."
  }

  /** The directories left by `os.RemoveAll` of the directory an id names. The path is put together
      without looking at the id: the empty id and ".." name the directory of all instances and its parent,
      whose contents go whatever the call then answers, and a path ending in "." is refused. */
  function Remaining(dirs: map<Id, Files>, id: Id, removable: bool): map<Id, Files> {
    if NamesAll(id) then map[]
    else if removable && id != "." then dirs - {id}
    else dirs
  }

  function DeleteState(h: HostState, id: Id, removable: bool): HostState {
    var stopped := StopState(h, id);
    stopped.(dirs := Remaining(stopped.dirs, id, removable))
  }

  /** A started instance. */
  function Booted(h: HostState, id: Id, tap: string, tapFile: bool): HostState {
    HostState(h.procs + {id}, h.taps + {tap}, h.dirs[id := Files(true, if tapFile then Some(tap) else None)])
  }

  predicate StartSucceeds(prefix: string, taps: set<string>, a: Answers)
    requires ValidAnswers(a)
  {
    TapAdded(prefix, taps, a).Some? && a.linkLookup && a.setMac && a.spawn && a.pidFile &&
    a.socket && a.vmCreate && a.vmBoot && a.bridge
  }

  /** The files and the link after Start, whichever step failed. */
  function StartState(h: HostState, prefix: string, id: Id, a: Answers): HostState
    requires ValidAnswers(a)
  {
    var added := TapAdded(prefix, h.taps, a);
    if added.None? || (a.linkLookup && !a.setMac) then h
    else if !a.linkLookup then h.(taps := h.taps + {added.value})
    else if !a.spawn || !a.pidFile then
      h.(taps := h.taps + {added.value}, dirs := if a.tapFile then h.dirs[id := Files(false, added)] else h.dirs)
    else if StartSucceeds(prefix, h.taps, a) then Booted(h, id, added.value, a.tapFile)
    else StopState(Booted(h, id, added.value, a.tapFile), id)
  }

  class Host {
    const tapPrefix: string
    var procs: set<Id>
    var taps: set<string>
    var dirs: map<Id, Files>

    ghost function State(): HostState
      reads this
    {
      HostState(procs, taps, dirs)
    }

    constructor (tapPrefix: string)
      ensures this.tapPrefix == tapPrefix && State() == HostState({}, {}, map[])
    {
      this.tapPrefix := tapPrefix;
      procs, taps, dirs := {}, {}, map[];
    }

    /** `PrepareInstance`: the directory is made before the overlay is. */
    method PrepareInstance(id: Id, a: Answers) returns (ok: bool)
      modifies this`dirs
      ensures ok <==> a.baseImage && a.makeDir && a.overlay
      ensures dirs == if a.baseImage && a.makeDir && id !in old(dirs) then old(dirs)[id := NEW_DIR] else old(dirs)
    {
      if !a.baseImage {
        return false;
      }
      if !a.makeDir {
        return false;
      }
      if id !in dirs {
        dirs := dirs[id := NEW_DIR];
      }
      return a.overlay;
    }

    /** `CreateRandomTap`: up to five random names, then lookup and MAC. */
    method CreateRandomTap(a: Answers) returns (tap: Option<string>)
      requires ValidAnswers(a)
      modifies this`taps
      ensures var added := TapAdded(tapPrefix, old(taps), a);
              && tap == (if a.linkLookup && a.setMac then added else None)
              // the link stays if it was added and not taken back after a failed MAC
              && taps == (if added.Some? && (!a.linkLookup || a.setMac) then old(taps) + {added.value} else old(taps))
    {
      if |tapPrefix| + 6 > MAX_IFACE_NAME {
        return None;
      }
      for i := 0 to TAP_ATTEMPTS
        invariant taps == old(taps)
        invariant TapFrom(tapPrefix, old(taps), a, 0) == TapFrom(tapPrefix, old(taps), a, i)
      {
        var tapName := tapPrefix + a.suffixes[i];
        if tapName in taps || !a.linkAdd[i] {
          continue;
        }
        taps := taps + {tapName};
        if !a.linkLookup {
          return None;
        }
        if !a.setMac {
          taps := taps - {tapName};
          return None;
        }
        return Some(tapName);
      }
      return None;
    }

    /** `Stop`. */
    method Stop(id: Id)
      modifies this
      ensures State() == StopState(old(State()), id)
      ensures procs == if id in old(dirs) && old(dirs)[id].pid then old(procs) - {id} else old(procs)
      ensures taps == if id in old(dirs) && old(dirs)[id].tap.Some?
                      then old(taps) - {old(dirs)[id].tap.value} else old(taps)
      ensures dirs == if id in old(dirs) then old(dirs)[id := Files(false, None)] else old(dirs)
    {
      if id in dirs && dirs[id].pid {
        procs := procs - {id};
        dirs := dirs[id := dirs[id].(pid := false)];
      }
      if id in dirs && dirs[id].tap.Some? {
        taps := taps - {dirs[id].tap.value};
        dirs := dirs[id := dirs[id].(tap := None)];
      }
      assert id in old(dirs) ==> dirs == old(dirs)[id := NEW_DIR];
    }

    /** `Start`, fresh boot, for an instance whose directory has been prepared. */
    method Start(id: Id, a: Answers) returns (ok: bool)
      requires ValidAnswers(a)
      requires id in dirs && dirs[id] == NEW_DIR && id !in procs
      modifies this
      ensures State() == StartState(old(State()), tapPrefix, id, a)
      ensures ok <==> StartSucceeds(tapPrefix, old(taps), a)
    {
      hide StopState, TapAdded;
      var tap := CreateRandomTap(a);
      if tap.None? {
        return false;
      }
      // the error of writing vm.tap is ignored
      if a.tapFile {
        dirs := dirs[id := dirs[id].(tap := tap)];
      }
      if !a.spawn {
        return false;
      }
      procs := procs + {id};
      if !a.pidFile {
        procs := procs - {id};
        return false;
      }
      dirs := dirs[id := dirs[id].(pid := true)];
      assert State() == Booted(old(State()), id, tap.value, a.tapFile);
      if !a.socket {
        Stop(id);
        return false;
      }
      if !a.vmCreate {
        Stop(id);
        return false;
      }
      if !a.vmBoot {
        Stop(id);
        return false;
      }
      if !a.bridge {
        Stop(id);
        return false;
      }
      return true;
    }

    /** `os.RemoveAll` of an instance directory. */
    method RemoveAll(id: Id, removable: bool) returns (ok: bool)
      modifies this`dirs
      ensures ok == (removable && id != ".")
      ensures dirs == Remaining(old(dirs), id, removable)
    {
      if id == "" || id == ".." {
        dirs := map[];
      } else if id == "." {
        return false;
      } else if removable {
        dirs := dirs - {id};
      }
      return removable;
    }

    /** `Delete`: stop, then remove the directory. */
    method Delete(id: Id, removable: bool) returns (ok: bool)
      modifies this
      ensures ok == (removable && id != ".")
      ensures State() == DeleteState(old(State()), id, removable)
    {
      Stop(id);
      ok := RemoveAll(id, removable);
    }
  }

  /** Stopping a booted instance gives back its process, and its link if vm.tap was written. */
  lemma StopUndoesBoot(h: HostState, id: Id, tap: string, tapFile: bool)
    requires id !in h.procs && tap !in h.taps && id in h.dirs && h.dirs[id] == NEW_DIR
    ensures StopState(Booted(h, id, tap, tapFile), id) == if tapFile then h else h.(taps := h.taps + {tap})
  {
    assert h.procs + {id} - {id} == h.procs;
    assert h.taps + {tap} - {tap} == h.taps;
    assert h.dirs[id := NEW_DIR] == h.dirs;
  }
}
