/** The address allocator of `internal/repository/sandbox.go`: Init loads the addresses in use,
    NextAvailableIP draws up to 100 times. Both run under one mutex, so whole calls are the steps. */
module Allocator {
  import opened Options
  import opened Addressing

  const ATTEMPTS := 100

  /** The text of the `i`-th address of the range, counting from the network address. */
  function Name(c: Cidr, i: nat): string
    requires ValidCidr(c) && i < Size(c)
  {
    RangeFits(c);
    Dotted(Network(c) + i)
  }

  /** The first draw whose address is free. */
  function FirstFree(c: Cidr, taken: set<string>, draws: seq<nat>): (pick: Option<nat>)
    requires ValidCidr(c) && forall k :: 0 <= k < |draws| ==> draws[k] < Size(c)
    ensures pick.Some? ==> pick.value < Size(c)
  {
    if draws == [] then None
    else if Name(c, draws[0]) !in taken then Some(draws[0])
    else FirstFree(c, taken, draws[1..])
  }

  /** What the draws must be: 100 results of `rand.Intn(totalIPs)`. */
  predicate ValidDraws(c: Cidr, draws: seq<nat>)
    requires ValidCidr(c)
  {
    |draws| == ATTEMPTS && forall k :: 0 <= k < |draws| ==> draws[k] < Size(c)
  }

  predicate AllValidDraws(c: Cidr, calls: seq<seq<nat>>)
    requires ValidCidr(c)
  {
    forall k :: 0 <= k < |calls| ==> ValidDraws(c, calls[k])
  }

  /** The index of the address that a call hands out; a range of one address is refused. */
  function Pick(c: Cidr, taken: set<string>, draws: seq<nat>): (pick: Option<nat>)
    requires ValidCidr(c) && ValidDraws(c, draws)
    ensures pick.Some? ==> pick.value < Size(c)
  {
    if Size(c) < 2 then None else FirstFree(c, taken, draws)
  }

  /** What a call of NextAvailableIP returns. */
  function NextIP(network: Option<Cidr>, taken: set<string>, draws: seq<nat>): Option<string>
    requires network.Some? ==> ValidCidr(network.value) && ValidDraws(network.value, draws)
  {
    if network.None? then None
    else
      var pick := Pick(network.value, taken, draws);
      if pick.None? then None else Some(Name(network.value, pick.value))
  }

  /** The documents up to the first that does not decode. */
  function Decoded(docs: seq<Option<string>>): seq<string> {
    if docs == [] || docs[0].None? then [] else [docs[0].value] + Decoded(docs[1..])
  }

  /** They are the texts of documents all whose predecessors decode, too. */
  lemma {:induction false} DecodedMembers(docs: seq<Option<string>>, ip: string)
    ensures ip in Decoded(docs) <==>
            exists k :: 0 <= k < |docs| && docs[k] == Some(ip) && forall j :: 0 <= j < k ==> docs[j].Some?
  {
    if docs != [] && docs[0].Some? {
      DecodedMembers(docs[1..], ip);
      if k :| 0 <= k < |docs| && docs[k] == Some(ip) && forall j :: 0 <= j < k ==> docs[j].Some? {
        if k > 0 {
          assert docs[1..][k - 1] == Some(ip) && forall j :: 0 <= j < k - 1 ==> docs[1..][j] == docs[j + 1];
        }
      }
      if k :| 0 <= k < |docs[1..]| && docs[1..][k] == Some(ip) && forall j :: 0 <= j < k ==> docs[1..][j].Some? {
        assert docs[k + 1] == Some(ip);
        assert forall j :: 1 <= j < k + 1 ==> docs[j] == docs[1..][j - 1];
      }
    }
  }

  class SandboxRepository {
    const network: Option<Cidr>   // None: `networkCIDR` does not parse
    var allocatedIPs: set<string>

    ghost predicate Valid() {
      network.Some? ==> ValidCidr(network.value)
    }

    constructor (network: Option<Cidr>)
      requires network.Some? ==> ValidCidr(network.value)
      ensures Valid() && this.network == network && allocatedIPs == {}
    {
      this.network := network;
      allocatedIPs := {};
    }

    /** `docs` are the rows of the cursor, None for one that does not decode; `found` and `drained` say
        whether Find and the cursor itself succeed. */
    method Init(found: bool, docs: seq<Option<string>>, drained: bool) returns (ok: bool)
      modifies this
      ensures allocatedIPs == old(allocatedIPs) +
                (if found then (set ip | ip in Decoded(docs) && ip != "") else {})
      ensures ok <==> found && drained && forall k :: 0 <= k < |docs| ==> docs[k].Some?
    {
      if !found {
        return false;
      }
      var i := 0;
      while i < |docs|
        invariant 0 <= i <= |docs|
        invariant forall k :: 0 <= k < i ==> docs[k].Some?
        invariant allocatedIPs + (set ip | ip in Decoded(docs[i..]) && ip != "") ==
                  old(allocatedIPs) + (set ip | ip in Decoded(docs) && ip != "")
      {
        assert docs[i..][1..] == docs[i + 1..];
        if docs[i].None? {
          return false;
        }
        if docs[i].value != "" {
          allocatedIPs := allocatedIPs + {docs[i].value};
        }
        i := i + 1;
      }
      return drained;
    }

    /** `draws` are the results of the random draws; those after the successful one are not used. */
    method NextAvailableIP(draws: seq<nat>) returns (ip: Option<string>)
      requires Valid()
      requires network.Some? ==> ValidDraws(network.value, draws)
      modifies this
      ensures ip == NextIP(network, old(allocatedIPs), draws)
      ensures ip.Some? ==> ip.value !in old(allocatedIPs)
      ensures allocatedIPs == if ip.None? then old(allocatedIPs) else old(allocatedIPs) + {ip.value}
    {
      if network.None? {
        return None;
      }
      var c := network.value;
      var totalIPs := Size(c);
      if totalIPs < 2 {
        return None;
      }
      for attempts := 0 to ATTEMPTS
        invariant allocatedIPs == old(allocatedIPs)
        invariant FirstFree(c, old(allocatedIPs), draws) == FirstFree(c, old(allocatedIPs), draws[attempts..])
      {
        var randomIndex := draws[attempts];
        assert draws[attempts..][1..] == draws[attempts + 1..];
        var selectedIP := "";
        var count := 0;
        // c.Each: the addresses of the range in ascending order
        for i := 0 to totalIPs
          invariant count == i && selectedIP == "" && allocatedIPs == old(allocatedIPs)
          invariant randomIndex < i ==> Name(c, randomIndex) in allocatedIPs
        {
          var address := Name(c, i);
          if count == randomIndex {
            if address != "" && address !in allocatedIPs {
              selectedIP := address;
              allocatedIPs := allocatedIPs + {selectedIP};
              break;
            }
          }
          count := count + 1;
        }
        if selectedIP != "" {
          assert FirstFree(c, old(allocatedIPs), draws[attempts..]) == Some(randomIndex);
          return Some(selectedIP);
        }
      }
      assert draws[ATTEMPTS..] == [];
      return None;
    }
  }

  lemma {:induction false} PickInRange(c: Cidr, taken: set<string>, draws: seq<nat>)
    requires ValidCidr(c) && forall k :: 0 <= k < |draws| ==> draws[k] < Size(c)
    ensures var pick := FirstFree(c, taken, draws);
            if pick.Some?
            then pick.value in draws && pick.value < Size(c) && Name(c, pick.value) !in taken
            else forall k :: 0 <= k < |draws| ==> Name(c, draws[k]) in taken
  {
    if draws != [] && Name(c, draws[0]) in taken {
      PickInRange(c, taken, draws[1..]);
      assert forall k :: 1 <= k < |draws| ==> draws[k] == draws[1..][k - 1];
    }
  }

  lemma PickIsFree(c: Cidr, taken: set<string>, draws: seq<nat>)
    requires ValidCidr(c) && ValidDraws(c, draws)
    ensures var pick := Pick(c, taken, draws);
            && (pick.Some? ==> pick.value in draws && Name(c, pick.value) !in taken)
            && (pick.None? <==> Size(c) < 2 || forall k :: 0 <= k < |draws| ==> Name(c, draws[k]) in taken)
  {
    PickInRange(c, taken, draws);
  }

  /** The text of an index reads as the network address plus the index, which lies in the range. */
  lemma NameReads(c: Cidr, i: nat)
    requires ValidCidr(c) && i < Size(c)
    ensures var a := ReadDotted(Name(c, i));
            a.Some? && a.value == Network(c) + i && InRange(c, a.value)
  {
    hide Network, Size, Dotted, ReadDotted;
    RangeFits(c);
    ReadOfDotted(Network(c) + i);
  }

  /** An allocation fails exactly when the range has a single address or all 100 draws hit addresses in
      use. */
  lemma FailsIffAllDrawsTaken(c: Cidr, taken: set<string>, draws: seq<nat>)
    requires ValidCidr(c) && |draws| == 100 && forall k :: 0 <= k < 100 ==> draws[k] < Size(c)
    ensures NextIP(Some(c), taken, draws).None? <==>
            Size(c) < 2 || forall k :: 0 <= k < |draws| ==> Name(c, draws[k]) in taken
  {
    hide Name, Size, Pick;
    PickIsFree(c, taken, draws);
  }

  lemma {:induction false} PickIsFirst(c: Cidr, taken: set<string>, draws: seq<nat>) returns (k: nat)
    requires ValidCidr(c) && (forall j :: 0 <= j < |draws| ==> draws[j] < Size(c)) && FirstFree(c, taken, draws).Some?
    ensures k < |draws| && FirstFree(c, taken, draws) == Some(draws[k]) && Name(c, draws[k]) !in taken
    ensures forall j :: 0 <= j < k ==> Name(c, draws[j]) in taken
  {
    hide Name, Size;
    if Name(c, draws[0]) !in taken {
      k := 0;
    } else {
      var k' := PickIsFirst(c, taken, draws[1..]);
      k := k' + 1;
      assert forall j :: 1 <= j < |draws| ==> draws[j] == draws[1..][j - 1];
    }
  }

  /** What an allocation returns is the text of the network address plus the first draw that is free; it
      was not in use and it lies in the range. */
  lemma ReturnsFirstFreeDraw(c: Cidr, taken: set<string>, draws: seq<nat>) returns (k: nat)
    requires ValidCidr(c) && |draws| == 100 && forall j :: 0 <= j < 100 ==> draws[j] < Size(c)
    requires NextIP(Some(c), taken, draws).Some?
    ensures k < 100 && forall j :: 0 <= j < k ==> Name(c, draws[j]) in taken
    ensures var ip := NextIP(Some(c), taken, draws).value;
            var a := ReadDotted(ip);
            ip !in taken && a.Some? && a.value == Network(c) + draws[k] && InRange(c, a.value)
  {
    hide Name, Size, Network, ReadDotted, InRange;
    k := PickIsFirst(c, taken, draws);
    NameReads(c, draws[k]);
  }

  // ---------------------------------------------------------------- whole runs

  /** The indices handed out by a sequence of calls, one list of draws per call. */
  function Allocate(c: Cidr, taken: set<string>, calls: seq<seq<nat>>): seq<nat>
    requires ValidCidr(c) && AllValidDraws(c, calls)
    decreases |calls|
  {
    if calls == [] then []
    else
      assert ValidDraws(c, calls[0]);
      var pick := Pick(c, taken, calls[0]);
      if pick.None? then Allocate(c, taken, calls[1..])
      else [pick.value] + Allocate(c, taken + {Name(c, pick.value)}, calls[1..])
  }

  lemma NameInjective(c: Cidr, i: nat, j: nat)
    requires ValidCidr(c) && i < Size(c) && j < Size(c)
    ensures Name(c, i) == Name(c, j) <==> i == j
  {
    hide Dotted, Network, Size;
    RangeFits(c);
    DottedInjective(Network(c) + i, Network(c) + j);
  }

  /** The indices of the addresses of the range that are in use. */
  function Used(c: Cidr, taken: set<string>): set<nat>
    requires ValidCidr(c)
  {
    set i | i in Below(Size(c)) && Name(c, i) in taken
  }

  /** Indices in range and not in use, without repetition. */
  ghost predicate Fresh(c: Cidr, taken: set<string>, got: seq<nat>)
    requires ValidCidr(c)
  {
    && (forall k :: 0 <= k < |got| ==> got[k] < Size(c) && Name(c, got[k]) !in taken)
    && (forall j, k :: 0 <= j < k < |got| ==> got[j] != got[k])
  }

  lemma {:induction false} AllocateFresh(c: Cidr, taken: set<string>, calls: seq<seq<nat>>)
    requires ValidCidr(c) && AllValidDraws(c, calls)
    ensures Fresh(c, taken, Allocate(c, taken, calls))
    decreases |calls|
  {
    hide Name, Size, Pick;
    if calls != [] {
      assert ValidDraws(c, calls[0]);
      PickIsFree(c, taken, calls[0]);
      var pick := Pick(c, taken, calls[0]);
      if pick.None? {
        AllocateFresh(c, taken, calls[1..]);
      } else {
        var taken' := taken + {Name(c, pick.value)};
        var rest := Allocate(c, taken', calls[1..]);
        AllocateFresh(c, taken', calls[1..]);
        assert forall k :: 0 <= k < |rest| ==> Name(c, rest[k]) !in taken';
        assert Allocate(c, taken, calls) == [pick.value] + rest;
      }
    }
  }

  /** What a sequence of calls returns, failures left out. */
  function Returned(c: Cidr, taken: set<string>, calls: seq<seq<nat>>): seq<string>
    requires ValidCidr(c) && AllValidDraws(c, calls)
    decreases |calls|
  {
    if calls == [] then []
    else
      assert ValidDraws(c, calls[0]);
      var ip := NextIP(Some(c), taken, calls[0]);
      if ip.None? then Returned(c, taken, calls[1..])
      else [ip.value] + Returned(c, taken + {ip.value}, calls[1..])
  }

  lemma {:induction false} ReturnedNames(c: Cidr, taken: set<string>, calls: seq<seq<nat>>)
    requires ValidCidr(c) && AllValidDraws(c, calls)
    ensures var got, ips := Allocate(c, taken, calls), Returned(c, taken, calls);
            |got| == |ips| && forall k :: 0 <= k < |got| ==> got[k] < Size(c) && ips[k] == Name(c, got[k])
    decreases |calls|
  {
    hide Name, Size, Pick;
    if calls != [] {
      assert ValidDraws(c, calls[0]);
      var pick := Pick(c, taken, calls[0]);
      if pick.None? {
        ReturnedNames(c, taken, calls[1..]);
      } else {
        var taken' := taken + {Name(c, pick.value)};
        ReturnedNames(c, taken', calls[1..]);
        var got, ips := Allocate(c, taken', calls[1..]), Returned(c, taken', calls[1..]);
        assert Allocate(c, taken, calls) == [pick.value] + got;
        assert Returned(c, taken, calls) == [Name(c, pick.value)] + ips;
      }
    }
  }

  /** Over any run of calls the texts returned are of addresses in range, differ from the loaded ones and
      from each other, and there are never more of them than free addresses at the start. */
  lemma AllocatorSafety(c: Cidr, loaded: set<string>, calls: seq<seq<nat>>)
    requires ValidCidr(c) && AllValidDraws(c, calls)
    ensures var ips := Returned(c, loaded, calls);
            && (forall k :: 0 <= k < |ips| ==>
                  ips[k] !in loaded && ReadDotted(ips[k]).Some? && InRange(c, ReadDotted(ips[k]).value))
            && (forall j, k :: 0 <= j < k < |ips| ==> ips[j] != ips[k])
            && |ips| <= Size(c) - |Used(c, loaded)|
  {
    hide Name, Size, Allocate, Returned, ReadDotted, InRange;
    var got, ips := Allocate(c, loaded, calls), Returned(c, loaded, calls);
    AllocateFresh(c, loaded, calls);
    ReturnedNames(c, loaded, calls);
    forall k | 0 <= k < |ips| ensures ReadDotted(ips[k]).Some? && InRange(c, ReadDotted(ips[k]).value) {
      NameReads(c, got[k]);
    }
    forall j, k | 0 <= j < k < |got| ensures ips[j] != ips[k] {
      NameInjective(c, got[j], got[k]);
    }
    Pigeonholes(got, Used(c, loaded), Size(c));
  }

  /** Distinct numbers below `n` outside `used` are at most as many as remain. */
  lemma Pigeonholes(got: seq<nat>, used: set<nat>, n: nat)
    requires forall j, k :: 0 <= j < k < |got| ==> got[j] != got[k]
    requires forall k :: 0 <= k < |got| ==> got[k] < n && got[k] !in used
    requires used <= Below(n)
    ensures |got| <= n - |used|
  {
    DistinctCount(got);
    var handed := set x | x in got;
    assert handed !! used;
    assert |handed + used| == |handed| + |used|;
    SubsetCount(handed + used, Below(n));
  }

  /** The text is of an address in the range. */
  predicate TextInRange(c: Cidr, ip: string)
    requires ValidCidr(c)
  {
    ReadDotted(ip).Some? && InRange(c, ReadDotted(ip).value)
  }

  lemma TextsDiffer(ip: string, jp: string, c: Cidr)
    requires ValidCidr(c) && c.prefix >= 24 && TextInRange(c, ip) && TextInRange(c, jp)
    requires ReadDotted(ip) != ReadDotted(jp)
    ensures GenerateMAC(ReadDotted(ip)) != GenerateMAC(ReadDotted(jp))
    ensures CidOf(ReadDotted(ip)) != CidOf(ReadDotted(jp))
  {
    hide ReadDotted, InRange, GenerateMAC, CidOf;
    IdentifiersDistinctIffPrefix24(c);
    var a, b := ReadDotted(ip).value, ReadDotted(jp).value;
    assert GenerateMAC(Some(a)) != GenerateMAC(Some(b)) && CidOf(Some(a)) != CidOf(Some(b));
  }

  /** Sandboxes whose addresses come from a range of prefix length 24 or more have pairwise distinct MACs
      and CIDs. */
  lemma AllocatedIdentifiersDistinct(c: Cidr, loaded: set<string>, calls: seq<seq<nat>>)
    requires ValidCidr(c) && c.prefix >= 24 && AllValidDraws(c, calls)
    ensures var ips := Returned(c, loaded, calls);
            forall j, k :: 0 <= j < k < |ips| ==>
              && GenerateMAC(ReadDotted(ips[j])) != GenerateMAC(ReadDotted(ips[k]))
              && CidOf(ReadDotted(ips[j])) != CidOf(ReadDotted(ips[k]))
  {
    hide Allocate, Returned, GenerateMAC, CidOf, Network, Size, ReadDotted, Name;
    var got, ips := Allocate(c, loaded, calls), Returned(c, loaded, calls);
    AllocateFresh(c, loaded, calls);
    ReturnedNames(c, loaded, calls);
    forall j, k | 0 <= j < k < |ips|
      ensures GenerateMAC(ReadDotted(ips[j])) != GenerateMAC(ReadDotted(ips[k]))
      ensures CidOf(ReadDotted(ips[j])) != CidOf(ReadDotted(ips[k]))
    {
      NameReads(c, got[j]);
      NameReads(c, got[k]);
      TextsDiffer(ips[j], ips[k], c);
    }
  }

  /** Any 257 allocations, from whatever range, contain two of different addresses with the same MAC and
      CID. */
  lemma Allocations257Collide(c: Cidr, loaded: set<string>, calls: seq<seq<nat>>)
    requires ValidCidr(c) && AllValidDraws(c, calls)
    ensures var ips := Returned(c, loaded, calls);
            |ips| >= 257 ==>
              exists j, k :: 0 <= j < k < |ips| && ips[j] != ips[k] &&
                GenerateMAC(ReadDotted(ips[j])) == GenerateMAC(ReadDotted(ips[k])) &&
                CidOf(ReadDotted(ips[j])) == CidOf(ReadDotted(ips[k]))
  {
    hide Returned, GenerateMAC, CidOf, Network, Size, ReadDotted, Used;
    var ips := Returned(c, loaded, calls);
    AllocatorSafety(c, loaded, calls);
    if |ips| >= 257 {
      var addrs: seq<Addr> := seq(257, i requires 0 <= i < 257 => ReadDotted(ips[i]).value);
      TwoOf257Collide(addrs);
      var j, k :| 0 <= j < k < |addrs| && GenerateMAC(Some(addrs[j])) == GenerateMAC(Some(addrs[k])) &&
                  CidOf(Some(addrs[j])) == CidOf(Some(addrs[k]));
      assert ReadDotted(ips[j]) == Some(addrs[j]) && ReadDotted(ips[k]) == Some(addrs[k]);
    }
  }
}
