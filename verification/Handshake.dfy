/** The vsock handshake reader DialVsock of `pkg/machine/agent_client.go`, lines 24-94. */
module Handshake {
  import opened Options
  import opened Text

  type Byte = b: nat | b < 256

  const NEWLINE: Byte := 10
  const LIMIT := 64

  // ---------------------------------------------------------------- what the peer must send

  /** The position of the first newline, or the length if there is none. */
  function NewlineAt(s: seq<Byte>): (n: nat)
    ensures n <= |s|
    ensures forall i :: 0 <= i < n ==> s[i] != NEWLINE
    ensures n < |s| ==> s[n] == NEWLINE
  {
    if s == [] || s[0] == NEWLINE then 0 else 1 + NewlineAt(s[1..])
  }

  /** How many bytes the Unicode white space at the front takes, 0 if there is none. */
  function SpaceWidth(s: seq<Byte>): (n: nat)
    ensures n <= |s|
  {
    if |s| >= 1 && (9 <= s[0] <= 13 || s[0] == 32) then 1
    else if |s| >= 2 && s[0] == 0xC2 && (s[1] == 0x85 || s[1] == 0xA0) then 2
    else if |s| >= 3 && s[0] == 0xE1 && s[1] == 0x9A && s[2] == 0x80 then 3
    else if |s| >= 3 && s[0] == 0xE2 && s[1] == 0x80 &&
         (0x80 <= s[2] <= 0x8A || s[2] == 0xA8 || s[2] == 0xA9 || s[2] == 0xAF) then 3
    else if |s| >= 3 && s[0] == 0xE2 && s[1] == 0x81 && s[2] == 0x9F then 3
    else if |s| >= 3 && s[0] == 0xE3 && s[1] == 0x80 && s[2] == 0x80 then 3
    else 0
  }

  /** `strings.TrimSpace` at the front; trimming at the end cannot change whether "OK" is a prefix. */
  function TrimLeft(s: seq<Byte>): seq<Byte> {
    if SpaceWidth(s) == 0 then s else TrimLeft(s[SpaceWidth(s)..])
  }

  /** The reply starts with "OK" after trimming. */
  predicate Accepts(line: seq<Byte>) {
    var t := TrimLeft(line);
    |t| >= 2 && t[0] == 79 && t[1] == 75
  }

  /** The code points with the White_Space property in Unicode. */
  predicate WhiteSpace(cp: nat) {
    || 0x9 <= cp <= 0xD || cp == 0x20 || cp == 0x85 || cp == 0xA0 || cp == 0x1680 || 0x2000 <= cp <= 0x200A
    || cp == 0x2028 || cp == 0x2029 || cp == 0x202F || cp == 0x205F || cp == 0x3000
  }

  /** UTF-8 of a code point below 0x10000. */
  function Encoded(cp: nat): seq<Byte>
    requires cp < 0x1_0000
  {
    if cp < 0x80 then [cp]
    else if cp < 0x800 then [0xC0 + cp / 64, 0x80 + cp % 64]
    else [0xE0 + cp / 4096, 0x80 + cp / 64 % 64, 0x80 + cp % 64]
  }

  predicate AllWhite(cps: seq<nat>) {
    forall i :: 0 <= i < |cps| ==> WhiteSpace(cps[i])
  }

  function EncodedAll(cps: seq<nat>): seq<Byte>
    requires AllWhite(cps)
  {
    if cps == [] then [] else assert WhiteSpace(cps[0]); Encoded(cps[0]) + EncodedAll(cps[1..])
  }

  const OK: seq<Byte> := [79, 75]     // "OK"

  /** White space, then "OK", then anything. */
  ghost predicate SaysOK(line: seq<Byte>) {
    exists cps :: AllWhite(cps) && EncodedAll(cps) + OK <= line
  }

  lemma WidthOfWhite(cp: nat, rest: seq<Byte>)
    requires WhiteSpace(cp)
    ensures SpaceWidth(Encoded(cp) + rest) == |Encoded(cp)| > 0
  {
    assert forall i :: 0 <= i < |Encoded(cp)| ==> (Encoded(cp) + rest)[i] == Encoded(cp)[i];
  }

  lemma WhiteOfWidth(s: seq<Byte>) returns (cp: nat)
    requires SpaceWidth(s) > 0
    ensures WhiteSpace(cp) && Encoded(cp) == s[..SpaceWidth(s)]
  {
    var n := SpaceWidth(s);
    if n == 1 {
      cp := s[0];
    } else if n == 2 {
      cp := s[1];
      assert Encoded(cp) == [s[0], s[1]];
    } else {
      var b0: int, b1: int, b2: int := s[0], s[1], s[2];
      cp := (b0 - 0xE0) * 4096 + (b1 - 0x80) * 64 + (b2 - 0x80);
      assert Encoded(cp) == [s[0], s[1], s[2]];
    }
  }

  lemma EncodedCons(cp: nat, cps: seq<nat>)
    requires WhiteSpace(cp) && AllWhite(cps)
    ensures AllWhite([cp] + cps) && EncodedAll([cp] + cps) + OK == Encoded(cp) + (EncodedAll(cps) + OK)
  {
    hide WhiteSpace, Encoded;
    assert ([cp] + cps)[1..] == cps;
  }

  lemma PrefixAfter(a: seq<Byte>, b: seq<Byte>, s: seq<Byte>)
    ensures a + b <= s <==> a <= s && b <= s[|a|..]
  {
    if a <= s {
      assert s == a + s[|a|..];
      if b <= s[|a|..] {
        assert (a + b) == s[..|a| + |b|];
      }
      if a + b <= s {
        assert s[|a|..][..|b|] == (a + b)[|a|..];
      }
    }
  }

  lemma {:induction false} TrimOfEncoded(cps: seq<nat>, line: seq<Byte>)
    requires AllWhite(cps) && EncodedAll(cps) + OK <= line
    ensures OK <= TrimLeft(line)
  {
    hide Encoded, SpaceWidth, EncodedAll;
    if cps == [] {
      NothingEncoded();
      OKNotWhite(line);
    } else {
      assert WhiteSpace(cps[0]);
      var first, rest := Encoded(cps[0]), cps[1..];
      assert [cps[0]] + rest == cps;
      EncodedCons(cps[0], rest);
      PrefixAfter(first, EncodedAll(rest) + OK, line);
      assert line == first + line[|first|..];
      WidthOfWhite(cps[0], line[|first|..]);
      TrimOfEncoded(rest, line[|first|..]);
    }
  }

  lemma NothingEncoded()
    ensures EncodedAll([]) + OK == OK
  {
  }

  lemma OKNotWhite(line: seq<Byte>)
    requires OK <= line
    ensures SpaceWidth(line) == 0
  {
    assert line[0] == OK[0];
  }

  lemma {:induction false} EncodedOfTrim(line: seq<Byte>) returns (cps: seq<nat>)
    requires OK <= TrimLeft(line)
    ensures AllWhite(cps) && EncodedAll(cps) + OK <= line
    decreases |line|
  {
    hide WhiteSpace, Encoded, SpaceWidth, EncodedAll;
    var n := SpaceWidth(line);
    if n == 0 {
      cps := [];
      NothingEncoded();
    } else {
      var cp := WhiteOfWidth(line);
      var rest := EncodedOfTrim(line[n..]);
      EncodedCons(cp, rest);
      PrefixAfter(Encoded(cp), EncodedAll(rest) + OK, line);
      cps := [cp] + rest;
    }
  }

  /** A line is accepted exactly if it says "OK" after white space. */
  lemma AcceptsOK(line: seq<Byte>)
    ensures Accepts(line) <==> SaysOK(line)
  {
    assert Accepts(line) <==> OK <= TrimLeft(line);
    if Accepts(line) {
      var cps := EncodedOfTrim(line);
    }
    if SaysOK(line) {
      var cps :| AllWhite(cps) && EncodedAll(cps) + OK <= line;
      TrimOfEncoded(cps, line);
    }
  }

  /** The stream begins with an acceptable line of at most 64 bytes and its newline. */
  predicate GoodReply(s: seq<Byte>) {
    var n := NewlineAt(s);
    n < |s| && n <= LIMIT && Accepts(s[..n])
  }

  // ---------------------------------------------------------------- the connection

  /** `incoming` is what reads deliver, one byte each, before they fail for good. */
  class Conn {
    const incoming: seq<Byte>
    var position: nat
    var closed: bool
    var deadline: bool
    var sent: seq<string>

    ghost predicate Valid()
      reads this
    {
      position <= |incoming|
    }

    constructor (incoming: seq<Byte>)
      ensures Valid() && this.incoming == incoming && position == 0 && !closed && !deadline && sent == []
    {
      this.incoming := incoming;
      position, closed, deadline, sent := 0, false, false, [];
    }

    method Read() returns (b: Option<Byte>)
      requires Valid() && !closed
      modifies this`position
      ensures Valid()
      ensures if old(position) < |incoming|
              then b == Some(incoming[old(position)]) && position == old(position) + 1
              else b == None && position == old(position)
    {
      if position < |incoming| {
        b := Some(incoming[position]);
        position := position + 1;
      } else {
        b := None;
      }
    }

    method Close()
      requires !closed
      modifies this`closed
      ensures closed
    {
      closed := true;
    }
  }

  datatype Error = NoSocket | DialFailed | DeadlineFailed | WriteFailed | ReadFailed | TooLong | Refused | ClearFailed

  /** What the calls around the read loop answer. */
  datatype Host = Host(socketExists: bool, deadlineOk: bool, writeOk: bool, clearOk: bool)

  /** The first thing that goes wrong once the connection is open. */
  function Verdict(host: Host, incoming: seq<Byte>): (err: Option<Error>)
    ensures err == None <==> host.deadlineOk && host.writeOk && host.clearOk && GoodReply(incoming)
  {
    var n := NewlineAt(incoming);
    if !host.deadlineOk then Some(DeadlineFailed)
    else if !host.writeOk then Some(WriteFailed)
    else if n > LIMIT then Some(TooLong)
    else if n == |incoming| then Some(ReadFailed)
    else if !Accepts(incoming[..n]) then Some(Refused)
    else if !host.clearOk then Some(ClearFailed)
    else None
  }

  /** What each error means: which call failed, 65 bytes without a newline, a stream that ends before one, or
      a line that does not say OK. */
  lemma ErrorsMean(host: Host, incoming: seq<Byte>)
    ensures var err, sent, n := Verdict(host, incoming), host.deadlineOk && host.writeOk, NewlineAt(incoming);
            && (err == Some(DeadlineFailed) <==> !host.deadlineOk)
            && (err == Some(WriteFailed) <==> host.deadlineOk && !host.writeOk)
            && (err == Some(TooLong) <==> sent && |incoming| > 64 && NEWLINE !in incoming[..65])
            && (err == Some(ReadFailed) <==> sent && |incoming| <= 64 && NEWLINE !in incoming)
            && (err == Some(Refused) <==> sent && n < |incoming| && n <= 64 && !SaysOK(incoming[..n]))
            && (err == Some(ClearFailed) <==> sent && GoodReply(incoming) && !host.clearOk)
            && err != Some(NoSocket) && err != Some(DialFailed)
  {
    hide Accepts, SaysOK;
    var n := NewlineAt(incoming);
    AcceptsOK(incoming[..n]);
    if n < |incoming| {
      assert incoming[n] == NEWLINE;
      assert n <= 64 && |incoming| > 64 ==> incoming[..65][n] == NEWLINE;
    }
  }

  /** Dialling with the given answers; `peer` is the connection the dial opens, if it opens one. On
      success the caller owns the connection, on failure it has been closed. */
  method DialVsock(host: Host, port: nat, peer: Conn?) returns (conn: Conn?, err: Option<Error>)
    requires peer != null ==> peer.Valid() && peer.position == 0 && !peer.closed && peer.sent == [] && !peer.deadline
    modifies peer
    ensures conn == (if err.None? then peer else null)
    ensures err == if !host.socketExists then Some(NoSocket)
                   else if peer == null then Some(DialFailed)
                   else Verdict(host, peer.incoming)
    ensures err == None <==> host == Host(true, true, true, true) && peer != null && GoodReply(peer.incoming)
    // exactly one line is consumed, and nothing after its newline
    ensures err == None ==> peer != null && !peer.closed && !peer.deadline &&
                            peer.position == NewlineAt(peer.incoming) + 1 <= 65 &&
                            peer.sent == ["CONNECT " + Decimal(port) + "\n"]
    // the connection is closed iff an error is returned after dialling
    ensures peer != null && host.socketExists ==> (peer.closed <==> err.Some?)
    ensures peer != null && !host.socketExists ==> !peer.closed && peer.position == 0
    ensures peer != null ==> peer.position <= 65
  {
    if !host.socketExists {
      return null, Some(NoSocket);
    }
    if peer == null {
      return null, Some(DialFailed);
    }
    conn := peer;
    err := Handshake(host, port, conn);
    // the deferred close; clearing `conn` on success hands the connection over
    if err.Some? {
      conn.Close();
      conn := null;
    }
  }

  method Handshake(host: Host, port: nat, conn: Conn) returns (err: Option<Error>)
    requires conn.Valid() && conn.position == 0 && !conn.closed && conn.sent == [] && !conn.deadline
    modifies conn`position, conn`deadline, conn`sent
    ensures conn.Valid() && conn.position <= 65
    ensures err == Verdict(host, conn.incoming)
    ensures err == None <==> host.deadlineOk && host.writeOk && host.clearOk && GoodReply(conn.incoming)
    ensures err == None ==> conn.position == NewlineAt(conn.incoming) + 1 && !conn.deadline &&
                            conn.sent == ["CONNECT " + Decimal(port) + "\n"]
  {
    if !host.deadlineOk {
      return Some(DeadlineFailed);
    }
    conn.deadline := true;
    if !host.writeOk {
      return Some(WriteFailed);
    }
    conn.sent := conn.sent + ["CONNECT " + Decimal(port) + "\n"];

    var line: seq<Byte> := [];
    while true
      invariant conn.Valid() && !conn.closed && |line| <= LIMIT
      invariant conn.position == |line| && line == conn.incoming[..|line|]
      invariant NEWLINE !in line
      invariant conn.deadline && conn.sent == ["CONNECT " + Decimal(port) + "\n"]
      decreases LIMIT - |line|
    {
      NoNewlineYet(conn.incoming, |line|);
      var b := conn.Read();
      if b.None? {
        return Some(ReadFailed);
      }
      if b.value == NEWLINE {
        break;
      }
      line := line + [b.value];
      if |line| > LIMIT {
        NoNewlineYet(conn.incoming, |line|);
        return Some(TooLong);
      }
    }
    assert NewlineAt(conn.incoming) == |line|;
    if !Accepts(line) {
      return Some(Refused);
    }
    if !host.clearOk {
      return Some(ClearFailed);
    }
    conn.deadline := false;
    return None;
  }

  lemma NoNewlineYet(s: seq<Byte>, n: nat)
    requires n <= |s| && NEWLINE !in s[..n]
    ensures NewlineAt(s) >= n
  {
    assert forall i :: 0 <= i < n ==> s[i] == s[..n][i] && s[..n][i] in s[..n];
  }

  // ---------------------------------------------------------------- framing

  lemma {:induction false} NewlineIn(line: seq<Byte>, rest: seq<Byte>)
    requires NEWLINE !in line
    ensures NewlineAt(line + [NEWLINE] + rest) == |line|
  {
    var s := line + [NEWLINE] + rest;
    assert s[|line|] == NEWLINE;
    assert forall i :: 0 <= i < |line| ==> s[i] == line[i] && s[i] != NEWLINE;
  }

  /** A peer that sends an acceptable line of at most 64 bytes is accepted whatever it sends next, and
      everything after the newline is left for the caller; a longer line is refused. */
  lemma Framing(line: seq<Byte>, rest: seq<Byte>)
    requires NEWLINE !in line
    ensures var s := line + [NEWLINE] + rest;
            && (GoodReply(s) <==> |line| <= 64 && SaysOK(line))
            && NewlineAt(s) < |s| && s[NewlineAt(s) + 1..] == rest
  {
    NewlineIn(line, rest);
    AcceptsOK(line);
    var s := line + [NEWLINE] + rest;
    assert s[..|line|] == line && s[|line| + 1..] == rest;
  }
}
