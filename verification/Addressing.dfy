/** IPv4 addresses and what is derived from them: the dotted text, the netmask and subnet of a CIDR
    (`internal/config/config.go`, lines 269-280), the MAC (`pkg/network/host.go`, lines 101-112) and the
    vsock CID (`pkg/machine/manager.go`, lines 282-293). */
module Addressing {
  import opened Options
  import opened Text

  const SPACE: nat := 0x1_0000_0000

  type Addr = a: nat | a < SPACE

  // ---------------------------------------------------------------- dotted text

  /** `net.IP.String` of an IPv4 address. */
  function Dotted(a: Addr): (s: string)
    ensures s != ""
  {
    Decimal(a / 0x100_0000) + ("." +
      (Decimal(a / 0x1_0000 % 256) + ("." + (Decimal(a / 256 % 256) + ("." + Decimal(a % 256))))))
  }

  predicate Digits(s: string) {
    forall i :: 0 <= i < |s| ==> Digit(s[i])
  }

  /** The parts of a text between its dots. */
  function Fields(s: string): (f: seq<string>)
    ensures |f| >= 1
  {
    if s == "" then [""]
    else
      var f := Fields(s[1..]);
      if s[0] == '.' then [""] + f else [[s[0]] + f[0]] + f[1..]
  }

  /** A reader of dotted text: four numbers below 256, the first counting most. */
  function ReadDotted(s: string): Option<Addr> {
    var f := Fields(s);
    if |f| == 4 && (forall i :: 0 <= i < 4 ==> Digits(f[i]) && f[i] != "" && Value(f[i]) < 256) then
      Some(Value(f[0]) * 0x100_0000 + Value(f[1]) * 0x1_0000 + Value(f[2]) * 0x100 + Value(f[3]))
    else None
  }

  lemma {:induction false} FieldsCons(x: string, rest: string)
    requires Digits(x)
    ensures Fields(x + ("." + rest)) == [x] + Fields(rest)
    ensures Fields(x) == [x]
  {
    if x == "" {
      assert x + ("." + rest) == "." + rest;
      assert ("." + rest)[1..] == rest;
    } else {
      var s := x + ("." + rest);
      assert s[1..] == x[1..] + ("." + rest);
      assert Digit(x[0]);
      FieldsCons(x[1..], rest);
      assert [x[0]] + x[1..] == x;
    }
  }

  lemma DottedFields(a: Addr)
    ensures Fields(Dotted(a)) ==
            [Decimal(a / 0x100_0000), Decimal(a / 0x1_0000 % 256), Decimal(a / 256 % 256), Decimal(a % 256)]
  {
    hide Fields, Decimal;
    var x3, x2, x1, x0 :=
        Decimal(a / 0x100_0000), Decimal(a / 0x1_0000 % 256), Decimal(a / 256 % 256), Decimal(a % 256);
    FieldsCons(x0, "");
    FieldsCons(x1, x0);
    FieldsCons(x2, x1 + ("." + x0));
    FieldsCons(x3, x2 + ("." + (x1 + ("." + x0))));
  }

  lemma OctetsDetermine(a: Addr)
    ensures a == a / 0x100_0000 * 0x100_0000 + a / 0x1_0000 % 256 * 0x1_0000 + a / 256 % 256 * 0x100 + a % 256
    ensures a / 0x100_0000 < 256
  {
    var q1 := a / 256;
    var q2 := q1 / 256;
    assert a == q1 * 256 + a % 256;
    assert q1 == q2 * 256 + q1 % 256;
    assert q2 == q2 / 256 * 256 + q2 % 256;
    assert q2 == a / 0x1_0000 && q2 / 256 == a / 0x100_0000;
  }

  /** Reading the text of an address gives the address back. */
  lemma ReadOfDotted(a: Addr)
    ensures ReadDotted(Dotted(a)) == Some(a)
  {
    hide Dotted, Fields, Decimal, Value;
    DottedFields(a);
    DecimalRoundTrip(a / 0x100_0000);
    DecimalRoundTrip(a / 0x1_0000 % 256);
    DecimalRoundTrip(a / 256 % 256);
    DecimalRoundTrip(a % 256);
    OctetsDetermine(a);
  }

  /** Different addresses have different texts. */
  lemma DottedInjective(a: Addr, b: Addr)
    ensures Dotted(a) == Dotted(b) <==> a == b
  {
    ReadOfDotted(a);
    ReadOfDotted(b);
  }

  // ---------------------------------------------------------------- masks and subnets

  function Pow2(k: nat): (p: nat)
    ensures p > 0
  {
    if k == 0 then 1 else 2 * Pow2(k - 1)
  }

  lemma {:induction false} Pow2Grows(j: nat, k: nat)
    requires j <= k
    ensures Pow2(j) <= Pow2(k)
  {
    if j < k {
      Pow2Grows(j, k - 1);
    }
  }

  lemma Pow2Of32()
    ensures Pow2(8) == 256 && Pow2(9) == 512 && Pow2(10) == 1024 && Pow2(32) == SPACE
  {
    assert Pow2(8) == 256 && Pow2(9) == 512 && Pow2(10) == 1024;
    assert Pow2(16) == 256 * Pow2(8);
    assert Pow2(24) == 256 * Pow2(16);
    assert Pow2(32) == 256 * Pow2(24);
  }

  /** Bitwise conjunction of two numbers. */
  function And(x: nat, y: nat): nat {
    if x == 0 || y == 0 then 0 else (if x % 2 == 1 && y % 2 == 1 then 1 else 0) + 2 * And(x / 2, y / 2)
  }

  /** A CIDR after `net.ParseCIDR`: an address and a prefix length. */
  datatype Cidr = Cidr(ip: Addr, prefix: nat)

  predicate ValidCidr(c: Cidr) {
    c.prefix <= 32
  }

  function HostBits(c: Cidr): nat
    requires ValidCidr(c)
  {
    32 - c.prefix
  }

  /** The mask with `prefix` leading ones. */
  function Mask(c: Cidr): nat
    requires ValidCidr(c)
  {
    Pow2Grows(HostBits(c), 32);
    Pow2(32) - Pow2(HostBits(c))
  }

  /** The network address: the address ANDed with the mask. */
  function Network(c: Cidr): nat
    requires ValidCidr(c)
  {
    And(c.ip, Mask(c))
  }

  /** How many addresses the allocator walks through, `IPCount`. */
  function Size(c: Cidr): (n: nat)
    requires ValidCidr(c)
    ensures n > 0
  {
    Pow2(HostBits(c))
  }

  /** `GetNetmask`, with its fallback for a CIDR that does not parse. */
  function GetNetmask(cidr: Option<Cidr>): string
    requires cidr.Some? ==> ValidCidr(cidr.value)
  {
    if cidr.None? then "255.255.252.0"
    else
      MaskFits(cidr.value);
      Dotted(Mask(cidr.value))
  }

  lemma MaskFits(c: Cidr)
    requires ValidCidr(c)
    ensures Mask(c) < SPACE
  {
    Pow2Of32();
  }

  /** `a` with its low `k` bits cleared. */
  function Floor(a: nat, k: nat): nat {
    if k == 0 then a else 2 * Floor(a / 2, k - 1)
  }

  lemma AndOdd(x: nat, y: nat)
    ensures And(x, 2 * y + 1) == x % 2 + 2 * And(x / 2, y)
  {
    assert (2 * y + 1) % 2 == 1 && (2 * y + 1) / 2 == y;
  }

  lemma {:induction false} AndOnes(a: nat, n: nat)
    requires a < Pow2(n)
    ensures And(a, Pow2(n) - 1) == a
  {
    if n > 0 && a > 0 {
      hide And;
      AndOdd(a, Pow2(n - 1) - 1);
      AndOnes(a / 2, n - 1);
    }
  }

  lemma AndEven(x: nat, y: nat)
    ensures And(x, 2 * y) == 2 * And(x / 2, y)
  {
    assert 2 * y % 2 == 0 && 2 * y / 2 == y;
  }

  lemma {:induction false} AndMask(a: nat, n: nat, k: nat)
    requires a < Pow2(n + k)
    ensures Pow2(n + k) >= Pow2(k) && And(a, Pow2(n + k) - Pow2(k)) == Floor(a, k)
    decreases k
  {
    hide And;
    Pow2Grows(k, n + k);
    if k == 0 {
      AndOnes(a, n);
    } else {
      AndMask(a / 2, n, k - 1);
      AndEven(a, Pow2(n + k - 1) - Pow2(k - 1));
    }
  }

  /** The `i`-th binary digit, the lowest being the 0th. */
  function Bit(x: nat, i: nat): nat {
    if i == 0 then x % 2 else Bit(x / 2, i - 1)
  }

  /** The conjunction has the digits that both numbers have. */
  lemma {:induction false} AndBits(x: nat, y: nat, i: nat)
    ensures Bit(And(x, y), i) == 1 <==> Bit(x, i) == 1 && Bit(y, i) == 1
  {
    if x == 0 || y == 0 {
      ZeroBits(i);
    } else if i > 0 {
      assert And(x, y) / 2 == And(x / 2, y / 2);
      AndBits(x / 2, y / 2, i - 1);
    }
  }

  lemma {:induction false} ZeroBits(i: nat)
    ensures Bit(0, i) == 0
  {
    if i > 0 {
      ZeroBits(i - 1);
    }
  }

  lemma {:induction false} OnesBits(n: nat, i: nat)
    ensures Bit(Pow2(n) - 1, i) == 1 <==> i < n
  {
    if n == 0 {
      ZeroBits(i);
    } else {
      assert (Pow2(n) - 1) / 2 == Pow2(n - 1) - 1 && (Pow2(n) - 1) % 2 == 1;
      if i > 0 {
        OnesBits(n - 1, i - 1);
      }
    }
  }

  lemma {:induction false} MaskBits(n: nat, k: nat, i: nat)
    ensures Pow2(n + k) >= Pow2(k)
    ensures Bit(Pow2(n + k) - Pow2(k), i) == 1 <==> k <= i < n + k
    decreases k
  {
    Pow2Grows(k, n + k);
    if k == 0 {
      OnesBits(n, i);
    } else {
      Pow2Grows(k - 1, n + k - 1);
      var half := Pow2(n + k - 1) - Pow2(k - 1);
      assert Pow2(n + k) - Pow2(k) == 2 * half;
      if i > 0 {
        MaskBits(n, k - 1, i - 1);
      }
    }
  }

  /** The netmask text is of the address whose leading `prefix` digits are ones and whose others are zeros;
      "255.255.252.0" for a CIDR that does not parse. */
  lemma NetmaskText(cidr: Option<Cidr>)
    requires cidr.Some? ==> ValidCidr(cidr.value)
    ensures cidr.None? ==> GetNetmask(cidr) == "255.255.252.0"
    ensures cidr.Some? ==>
              var mask := ReadDotted(GetNetmask(cidr));
              mask.Some? && forall i: nat :: i < 32 ==> (Bit(mask.value, i) == 1 <==> i >= 32 - cidr.value.prefix)
  {
    if cidr.Some? {
      hide GetNetmask, ReadDotted, Bit, Mask;
      MaskText(cidr.value);
      forall i: nat | i < 32 ensures Bit(Mask(cidr.value), i) == 1 <==> i >= 32 - cidr.value.prefix {
        MaskOnes(cidr.value, i);
      }
    }
  }

  lemma MaskText(c: Cidr)
    requires ValidCidr(c)
    ensures ReadDotted(GetNetmask(Some(c))) == Some(Mask(c))
  {
    hide Dotted, ReadDotted, Mask;
    MaskFits(c);
    ReadOfDotted(Mask(c));
  }

  lemma MaskOnes(c: Cidr, i: nat)
    requires ValidCidr(c) && i < 32
    ensures Bit(Mask(c), i) == 1 <==> i >= 32 - c.prefix
  {
    hide Pow2, Bit;
    assert c.prefix + HostBits(c) == 32;
    MaskBits(c.prefix, HostBits(c), i);
  }

  lemma {:induction false} FloorBlock(a: nat, b: nat, k: nat)
    ensures Floor(a, k) == Floor(b, k) <==> Floor(b, k) <= a < Floor(b, k) + Pow2(k)
  {
    if k > 0 {
      FloorBlock(a / 2, b / 2, k - 1);
    }
  }

  lemma NetworkIsFloor(c: Cidr, a: Addr)
    requires ValidCidr(c)
    ensures And(a, Mask(c)) == Floor(a, HostBits(c))
  {
    Pow2Of32();
    assert c.prefix + HostBits(c) == 32;
    AndMask(a, c.prefix, HostBits(c));
  }

  /** An address ANDed with the netmask gives the network address exactly when it is one of the
      addresses the allocator walks through; so all guests are in the subnet their mask implies. */
  lemma SubnetIsWalkedRange(c: Cidr, a: Addr)
    requires ValidCidr(c)
    ensures And(a, Mask(c)) == Network(c) <==> Network(c) <= a < Network(c) + Size(c)
  {
    NetworkIsFloor(c, a);
    NetworkIsFloor(c, c.ip);
    FloorBlock(a, c.ip, HostBits(c));
  }

  /** The walked range is the block that the CIDR's own address lies in. */
  lemma OwnAddressInRange(c: Cidr)
    requires ValidCidr(c)
    ensures InRange(c, c.ip)
  {
    SubnetIsWalkedRange(c, c.ip);
  }

  lemma {:induction false} FloorAligned(a: nat, k: nat, top: nat)
    requires k <= top && a < Pow2(top)
    ensures Floor(a, k) + Pow2(k) <= Pow2(top)
  {
    if k > 0 {
      FloorAligned(a / 2, k - 1, top - 1);
    }
  }

  /** The walked range lies inside the address space. */
  lemma RangeFits(c: Cidr)
    requires ValidCidr(c)
    ensures Network(c) + Size(c) <= SPACE
  {
    Pow2Of32();
    NetworkIsFloor(c, c.ip);
    FloorAligned(c.ip, HostBits(c), 32);
  }

  lemma {:induction false} Pow2Strict(j: nat, k: nat)
    requires j < k
    ensures Pow2(j) < Pow2(k)
  {
    Pow2Grows(j, k - 1);
  }

  /** The netmask text determines the prefix length. */
  lemma NetmaskDeterminesPrefix(c: Cidr, d: Cidr)
    requires ValidCidr(c) && ValidCidr(d)
    ensures GetNetmask(Some(c)) == GetNetmask(Some(d)) <==> c.prefix == d.prefix
  {
    MaskFits(c);
    MaskFits(d);
    DottedInjective(Mask(c), Mask(d));
    if c.prefix < d.prefix {
      Pow2Strict(HostBits(d), HostBits(c));
    } else if d.prefix < c.prefix {
      Pow2Strict(HostBits(c), HostBits(d));
    }
  }

  lemma FallbackText()
    ensures Decimal(255) == "255" && Decimal(252) == "252" && Decimal(0) == "0"
  {
    assert Decimal(2) == "2" && Decimal(25) == "25";
  }

  /** The fallback is the netmask of a /22, the default network's. */
  lemma FallbackIsSlash22(ip: Addr)
    ensures GetNetmask(None) == GetNetmask(Some(Cidr(ip, 22)))
  {
    hide Decimal, Mask;
    FallbackText();
    Slash22Mask(ip);
    assert "255" + ("." + ("255" + ("." + ("252" + ("." + "0"))))) == "255.255.252.0";
    assert Dotted(0xFFFF_FC00) == "255" + ("." + ("255" + ("." + ("252" + ("." + "0")))));
  }

  lemma Slash22Mask(ip: Addr)
    ensures Mask(Cidr(ip, 22)) == 0xFFFF_FC00
  {
    hide Pow2;
    Pow2Of32();
  }

  // ---------------------------------------------------------------- MAC and CID

  function HexDigit(n: nat): char
    requires n < 16
  {
    if n < 10 then '0' + n as char else 'A' + (n - 10) as char
  }

  /** `%02X` of an octet. */
  function HexOctet(n: nat): string
    requires n < 256
  {
    [HexDigit(n / 16), HexDigit(n % 16)]
  }

  /** `GenerateMAC`; None is text that is not an IPv4 address. */
  function GenerateMAC(ip: Option<Addr>): string {
    match ip
    case None => "AA:FC:00:00:00:01"
    case Some(a) => "AA:FC:00:00:00:" + HexOctet(a % 256)
  }

  /** `getCidFromIP`. */
  function CidOf(ip: Option<Addr>): nat {
    match ip
    case None => 0
    case Some(a) => a % 256 + 1000
  }

  /** Two addresses get the same MAC iff they get the same CID iff they agree modulo 256; CIDs lie in
      1000..1255. */
  lemma SameIdentifiers(a: Addr, b: Addr)
    ensures GenerateMAC(Some(a)) == GenerateMAC(Some(b)) <==> a % 256 == b % 256
    ensures CidOf(Some(a)) == CidOf(Some(b)) <==> a % 256 == b % 256
    ensures 1000 <= CidOf(Some(a)) <= 1255
  {
    hide HexOctet;
    var m, n := a % 256, b % 256;
    HexInjective(m, n);
    var front := "AA:FC:00:00:00:";
    assert (front + HexOctet(m))[|front|..] == HexOctet(m) && (front + HexOctet(n))[|front|..] == HexOctet(n);
  }

  const HEX := "0123456789ABCDEF"

  /** MAC and CID carry the fourth number of the dotted text: the MAC's last two digits in upper-case
      hexadecimal, the CID on top of 1000. */
  lemma IdentifiersFromLastOctet(a: Addr)
    ensures |Fields(Dotted(a))| == 4 && Digits(Fields(Dotted(a))[3])
    ensures var last := Value(Fields(Dotted(a))[3]);
            && last < 256 && CidOf(Some(a)) == 1000 + last
            && GenerateMAC(Some(a)) == "AA:FC:00:00:00:" + [HEX[last / 16], HEX[last % 16]]
    ensures GenerateMAC(None) == "AA:FC:00:00:00:01" && CidOf(None) == 0
  {
    hide Dotted, Fields, Value, Decimal;
    DottedFields(a);
    DecimalRoundTrip(a % 256);
    HexDigits(a % 256 / 16);
    HexDigits(a % 256 % 16);
  }

  lemma HexDigits(n: nat)
    requires n < 16
    ensures HexDigit(n) == HEX[n]
  {
  }

  lemma HexInjective(m: nat, n: nat)
    requires m < 256 && n < 256
    ensures HexOctet(m) == HexOctet(n) <==> m == n
  {
    assert HexOctet(m)[0] == HexDigit(m / 16) && HexOctet(m)[1] == HexDigit(m % 16);
    assert HexOctet(n)[0] == HexDigit(n / 16) && HexOctet(n)[1] == HexDigit(n % 16);
    assert m == m / 16 * 16 + m % 16 && n == n / 16 * 16 + n % 16;
  }

  predicate InRange(c: Cidr, a: Addr)
    requires ValidCidr(c)
  {
    Network(c) <= a < Network(c) + Size(c)
  }

  lemma NetworkInOneBlock(c: Cidr, a: Addr, b: Addr)
    requires ValidCidr(c) && c.prefix >= 24 && InRange(c, a) && InRange(c, b) && a != b
    ensures a % 256 != b % 256
  {
    hide Pow2, Network;
    Pow2Of32();
    Pow2Grows(HostBits(c), 8);
    assert Network(c) <= a < Network(c) + 256 && Network(c) <= b < Network(c) + 256;
    assert a == a / 256 * 256 + a % 256 && b == b / 256 * 256 + b % 256;
  }

  ghost predicate AllMACsDiffer(c: Cidr)
    requires ValidCidr(c)
  {
    forall a: Addr, b: Addr :: InRange(c, a) && InRange(c, b) && a != b ==> GenerateMAC(Some(a)) != GenerateMAC(Some(b))
  }

  ghost predicate AllCidsDiffer(c: Cidr)
    requires ValidCidr(c)
  {
    forall a: Addr, b: Addr :: InRange(c, a) && InRange(c, b) && a != b ==> CidOf(Some(a)) != CidOf(Some(b))
  }

  /** A range wider than a /24 holds two addresses 256 apart. */
  lemma WideRangeCollides(c: Cidr) returns (a: Addr, b: Addr)
    requires ValidCidr(c) && c.prefix < 24
    ensures InRange(c, a) && InRange(c, b) && a != b
    ensures GenerateMAC(Some(a)) == GenerateMAC(Some(b)) && CidOf(Some(a)) == CidOf(Some(b))
  {
    hide Pow2, Network, GenerateMAC, CidOf;
    Pow2Of32();
    RangeFits(c);
    Pow2Grows(9, HostBits(c));
    a, b := Network(c), Network(c) + 256;
    SameIdentifiers(a, b);
  }

  /** Sandboxes of one subnet are told apart by their MACs, and by their CIDs, exactly when the prefix
      length is at least 24; the default network is a /22. */
  lemma IdentifiersDistinctIffPrefix24(c: Cidr)
    requires ValidCidr(c)
    ensures c.prefix >= 24 <==> AllMACsDiffer(c)
    ensures c.prefix >= 24 <==> AllCidsDiffer(c)
  {
    hide GenerateMAC, CidOf, InRange;
    if c.prefix >= 24 {
      forall a: Addr, b: Addr | InRange(c, a) && InRange(c, b) && a != b
        ensures GenerateMAC(Some(a)) != GenerateMAC(Some(b)) && CidOf(Some(a)) != CidOf(Some(b))
      {
        SameIdentifiers(a, b);
        NetworkInOneBlock(c, a, b);
      }
    } else {
      var a, b := WideRangeCollides(c);
    }
  }

  // ---------------------------------------------------------------- pigeonhole

  /** The numbers below `n`. */
  function Below(n: nat): (s: set<nat>)
    ensures forall x: nat :: x in s <==> x < n
    ensures |s| == n
  {
    if n == 0 then {} else Below(n - 1) + {n - 1}
  }

  lemma {:induction false} DistinctCount<T>(s: seq<T>)
    requires forall i, j :: 0 <= i < j < |s| ==> s[i] != s[j]
    ensures |set x | x in s| == |s|
  {
    if s != [] {
      DistinctCount(s[1..]);
      assert (set x | x in s) == {s[0]} + (set x | x in s[1..]);
    } else {
      assert (set x | x in s) == {};
    }
  }

  lemma SubsetCount<T>(a: set<T>, b: set<T>)
    requires a <= b
    ensures |a| <= |b|
  {
    assert b == a + (b - a);
  }

  /** Among any 257 addresses two share both MAC and CID. */
  lemma TwoOf257Collide(addrs: seq<Addr>)
    requires |addrs| == 257
    ensures exists i, j :: 0 <= i < j < |addrs| && GenerateMAC(Some(addrs[i])) == GenerateMAC(Some(addrs[j])) &&
                           CidOf(Some(addrs[i])) == CidOf(Some(addrs[j]))
  {
    var last: seq<nat> := seq(257, i requires 0 <= i < 257 => addrs[i] % 256);
    if forall i, j :: 0 <= i < j < 257 ==> last[i] != last[j] {
      DistinctCount(last);
      SubsetCount((set x | x in last), Below(256));
      assert false;
    }
    var i, j :| 0 <= i < j < 257 && last[i] == last[j];
    SameIdentifiers(addrs[i], addrs[j]);
  }
}
