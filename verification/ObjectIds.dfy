/** Object ids and their texts: the database knows a sandbox by its object id, directories and the ledger
    by a text (`pkg/util/objectid.go`, lines 11-17). */
module ObjectIds {
  import opened Options

  type Nibble = n: nat | n < 16

  /** Twelve bytes, as 24 nibbles. */
  type Oid = o: seq<Nibble> | |o| == 24 witness seq(24, _ => 0)

  function Lower(n: Nibble): char {
    if n < 10 then '0' + n as char else 'a' + (n - 10) as char
  }

  /** `ObjectID.Hex`. */
  function Hex(o: Oid): (s: string)
    ensures |s| == 24
  {
    seq(24, i requires 0 <= i < 24 => Lower(o[i]))
  }

  /** The hex decoder accepts letters of both cases. */
  function Digit(c: char): Option<Nibble> {
    if '0' <= c <= '9' then Some(c as int - '0' as int)
    else if 'a' <= c <= 'f' then Some(c as int - 'a' as int + 10)
    else if 'A' <= c <= 'F' then Some(c as int - 'A' as int + 10)
    else None
  }

  predicate Digits(s: string) {
    forall i :: 0 <= i < |s| ==> Digit(s[i]).Some?
  }

  /** `ParseObjectID`. */
  function Parse(s: string): Option<Oid> {
    if |s| == 24 && Digits(s) then Some(seq(24, i requires 0 <= i < 24 => Digit(s[i]).value)) else None
  }

  /** The text is the one an object id is printed as. */
  predicate Canonical(s: string) {
    Parse(s).Some? && Hex(Parse(s).value) == s
  }

  lemma ParseOfHex(o: Oid)
    ensures Parse(Hex(o)) == Some(o) && Canonical(Hex(o))
  {
    var s := Hex(o);
    assert forall i :: 0 <= i < 24 ==> Digit(Lower(o[i])) == Some(o[i]);
    assert Parse(s).value == o;
  }

  lemma OidsByText(o: Oid, p: Oid)
    ensures Hex(o) == Hex(p) <==> o == p
  {
    ParseOfHex(o);
    ParseOfHex(p);
  }

  predicate Capital(c: char) {
    'A' <= c <= 'F'
  }

  /** A text that parses is the printed one exactly when it has no capital letter. */
  lemma CanonicalIffNoCapitals(s: string)
    requires Parse(s).Some?
    ensures Canonical(s) <==> forall i :: 0 <= i < |s| ==> !Capital(s[i])
  {
    var h := Hex(Parse(s).value);
    forall i | 0 <= i < 24 ensures h[i] == s[i] <==> !Capital(s[i]) {
      assert h[i] == Lower(Digit(s[i]).value);
    }
  }

  function Upper(n: Nibble): char {
    if n < 10 then '0' + n as char else 'A' + (n - 10) as char
  }

  /** The same object id in capital letters. */
  function Capitals(o: Oid): (s: string)
    ensures |s| == 24
  {
    seq(24, i requires 0 <= i < 24 => Upper(o[i]))
  }

  lemma CapitalsParse(o: Oid)
    ensures Parse(Capitals(o)) == Some(o)
  {
    var s := Capitals(o);
    assert forall i :: 0 <= i < 24 ==> Digit(Upper(o[i])) == Some(o[i]);
    assert Parse(s).value == o;
  }
}
