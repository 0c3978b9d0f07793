/** The decoder of the RDP client info packet. */
module Rdp {
  import opened Prelude

  // ---------- get_value ----------

  /** The non-zero bytes in front of the first double zero; None is IndexError at a zero that ends the data. */
  function Scan(data: bytes): Option<bytes> {
    if data == [] then Some([])
    else if data[0] == 0 && |data| == 1 then None
    else if data[0] == 0 && data[1] == 0 then Some([])
    else
      match Scan(data[1..])
      case None => None
      case Some(more) => Some((if data[0] == 0 then [] else [data[0]]) + more)
  }

  /** The scanned bytes, if there are exactly half as many as the length says. */
  function Value(length: nat, data: bytes): bytes {
    match Scan(data)
    case None => []
    case Some(v) => if length == 2 * |v| then v else []
  }

  method GetValue(length: nat, data: bytes) returns (r: bytes)
    ensures r == Value(length, data)
  {
    r := [];
    var found: bytes := [];
    var i := 0;
    ExtendNothing(Scan(data));
    while i < |data|
      invariant i <= |data|
      invariant Extend(found, Scan(data[i..])) == Scan(data)
    {
      if data[i] == 0 && i + 1 == |data| { return []; }
      if data[i] == 0 && data[i + 1] == 0 { break; }
      ScanStep(data, i);
      if data[i] != 0 {
        ExtendTwice(found, [data[i]], Scan(data[i + 1..]));
        found := found + [data[i]];
      }
      i := i + 1;
    }
    assert found + [] == found;
    if length == 2 * |found| { r := found; }
  }

  /** Bytes already found in front of the rest of a scan. */
  function Extend(found: bytes, rest: Option<bytes>): Option<bytes> {
    match rest
    case None => None
    case Some(more) => Some(found + more)
  }

  lemma ExtendNothing(rest: Option<bytes>)
    ensures Extend([], rest) == rest
  {
    if rest.Some? { assert [] + rest.value == rest.value; }
  }

  lemma ExtendTwice(a: bytes, b: bytes, rest: Option<bytes>)
    ensures Extend(a, Extend(b, rest)) == Extend(a + b, rest)
  {
    if rest.Some? { assert a + (b + rest.value) == a + b + rest.value; }
  }

  lemma ScanStep(data: bytes, i: nat)
    requires i < |data| && !(data[i] == 0 && (i + 1 == |data| || data[i + 1] == 0))
    ensures Scan(data[i..]) == if data[i] == 0 then Scan(data[i + 1..]) else Extend([data[i]], Scan(data[i + 1..]))
  {
    assert data[i..][1..] == data[i + 1..];
    ExtendNothing(Scan(data[i + 1..]));
  }

  /** The bytes other than zero, in order. */
  function NonZero(s: bytes): bytes {
    if s == [] then [] else (if s[0] == 0 then [] else [s[0]]) + NonZero(s[1..])
  }

  /** A zero byte at `n` that is followed by another one. */
  predicate DoubleZero(data: bytes, n: nat) { n + 1 < |data| && data[n] == 0 && data[n + 1] == 0 }

  /** The scan, from outside: up to the first double zero, and without one up to the end, which must not be a zero. */
  lemma {:induction false} ScanIs(data: bytes, n: nat)
    requires n <= |data| && forall i: nat :: i < n ==> !DoubleZero(data, i)
    ensures DoubleZero(data, n) ==> Scan(data) == Some(NonZero(data[..n]))
    ensures n == |data| && (n == 0 || data[n - 1] != 0) ==> Scan(data) == Some(NonZero(data))
    ensures n == |data| && n > 0 && data[n - 1] == 0 ==> Scan(data) == None
    decreases n
  {
    if n > 0 && data != [] {
      var rest := data[1..];
      assert !DoubleZero(data, 0);
      forall i: nat | i < n - 1 ensures !DoubleZero(rest, i) { assert !DoubleZero(data, i + 1); }
      ScanIs(rest, n - 1);
      assert data[..n][1..] == rest[..n - 1];
    }
  }

  /** A value is kept exactly if it has half as many bytes as the length says. */
  lemma ValueIs(length: nat, data: bytes)
    ensures Value(length, data) == match Scan(data)
      case None => []
      case Some(found) => if length == |found| + |found| then found else []
  {
  }

  /** So of a string whose code units have no zero byte, all beyond Latin-1, nothing is kept. */
  lemma WideIsDropped(units: seq<CodeUnit>, rest: bytes)
    requires forall i :: 0 <= i < |units| ==> units[i] % 256 != 0 && units[i] / 256 != 0
    ensures Value(2 * |units|, UnitBytes(units) + [0, 0] + rest) == []
  {
    var data, n := UnitBytes(units) + [0, 0] + rest, 2 * |units|;
    WideBytes(units);
    AllNonZero(UnitBytes(units));
    hide UnitBytes, Scan, NonZero;
    var s := UnitBytes(units);
    assert data[..n] == s && data[n] == 0 && data[n + 1] == 0;
    forall i: nat | i < n ensures !DoubleZero(data, i) { assert data[i] == s[i]; }
    ScanIs(data, n);
  }

  lemma {:induction false} WideBytes(units: seq<CodeUnit>)
    requires forall i :: 0 <= i < |units| ==> units[i] % 256 != 0 && units[i] / 256 != 0
    ensures forall i :: 0 <= i < |UnitBytes(units)| ==> UnitBytes(units)[i] != 0
  {
    if units != [] { WideBytes(units[1..]); }
  }

  lemma {:induction false} AllNonZero(s: bytes)
    requires forall i :: 0 <= i < |s| ==> s[i] != 0
    ensures NonZero(s) == s
  {
    if s != [] {
      AllNonZero(s[1..]);
      assert s == [s[0]] + s[1..];
    }
  }

  // ---------- extract_creds ----------

  datatype Credentials = Credentials(user: bytes, password: bytes)

  /** The length field at `at`. */
  function LengthAt(data: bytes, at: nat): nat
    requires at + 2 <= |data|
  {
    FromLe16(data[at..at + 2])
  }

  /** The user name and the password; None when the packet is too short for the lengths and neither is assigned. */
  function Creds(data: bytes): Option<Credentials> {
    if |data| < 37 then None
    else
      var user := 37 + LengthAt(data, 27) + 2;
      var password := user + LengthAt(data, 29) + 2;
      Some(Credentials(Value(LengthAt(data, 29), Drop(data, user)), Value(LengthAt(data, 31), Drop(data, password))))
  }

  /** `extract_creds`: the running location passes all five strings, though only two are used. */
  method ExtractCreds(data: bytes) returns (r: Option<Credentials>)
    ensures r == Creds(data)
  {
    hide Value, LengthAt, Drop;
    if |Slice(data, 27, 37)| != 10 { return None; }
    var domainLength, userLength, passwordLength := LengthAt(data, 27), LengthAt(data, 29), LengthAt(data, 31);
    var shellLength, directoryLength := LengthAt(data, 33), LengthAt(data, 35);
    var location := 37;
    var _ := GetValue(domainLength, Drop(data, location));
    location := location + domainLength + 2;
    var user := GetValue(userLength, Drop(data, location));
    location := location + userLength + 2;
    var password := GetValue(passwordLength, Drop(data, location));
    location := location + passwordLength + 2;
    var _ := GetValue(shellLength, Drop(data, location));
    location := location + shellLength + 2;
    var _ := GetValue(directoryLength, Drop(data, location));
    r := Some(Credentials(user, password));
  }

  /** The credentials are missing exactly for packets that end before the fifth length. */
  lemma ShortPacket(data: bytes)
    ensures Creds(data) == None <==> |data| < 37
  {
  }

  // ---------- Recovery of a string ----------

  predicate Narrow(units: seq<CodeUnit>) { forall i :: 0 <= i < |units| ==> 1 <= units[i] < 256 }

  /** A string on the wire, with its terminator. */
  function Terminated(units: seq<CodeUnit>): bytes { UnitBytes(units) + [0, 0] }

  /** The scan stops at the first zero unit, or at the terminator. */
  function BeforeZero(units: seq<CodeUnit>): (r: seq<CodeUnit>)
    ensures |r| <= |units|
    ensures |r| == |units| ==> r == units && forall i :: 0 <= i < |units| ==> units[i] != 0
  {
    if units == [] || units[0] == 0 then [] else [units[0]] + BeforeZero(units[1..])
  }

  lemma ScanCons(b: byte, rest: bytes)
    ensures b != 0 ==> Scan([b] + rest) == Extend([b], Scan(rest))
    ensures rest != [] && rest[0] != 0 ==> Scan([0] + rest) == Scan(rest)
    ensures rest != [] && rest[0] == 0 ==> Scan([0] + rest) == Some([])
  {
    if b != 0 { ScanStep([b] + rest, 0); }
    assert ([b] + rest)[1..] == rest && ([b] + rest)[0..] == [b] + rest;
    if rest != [] && rest[0] != 0 { ScanStep([0] + rest, 0); }
    assert ([0] + rest)[1..] == rest && ([0] + rest)[0..] == [0] + rest;
  }

  /** The high byte of a narrow unit is skipped, or ends the scan in front of another zero. */
  lemma {:induction false} ScanAfterHigh(units: seq<CodeUnit>, rest: bytes)
    requires forall i :: 0 <= i < |units| ==> units[i] < 256
    ensures Scan([0] + (Terminated(units) + rest)) == Some(BeforeZero(units))
    decreases |units|
  {
    var text := Terminated(units) + rest;
    ScanCons(0, text);
    if units == [] {
      assert text[0] == 0;
    } else {
      var tail := Terminated(units[1..]) + rest;
      assert Le16(units[0]) == [units[0], 0];
      assert text == [units[0]] + ([0] + tail);
      if units[0] != 0 {
        ScanCons(units[0], [0] + tail);
        ScanAfterHigh(units[1..], rest);
      }
    }
  }

  lemma ScanOfUnits(units: seq<CodeUnit>, rest: bytes)
    requires forall i :: 0 <= i < |units| ==> units[i] < 256
    ensures Scan(Terminated(units) + rest) == Some(BeforeZero(units))
  {
    var text := Terminated(units) + rest;
    if units == [] || units[0] == 0 {
      assert text[0] == 0 && text[1] == 0;
    } else {
      ScanAfterHigh(units, rest);
      ScanCons(0, text);
      assert text[0] == units[0];
    }
  }

  /** A string comes back as itself exactly when all its code units are in 1..255. */
  lemma ValueIsExact(units: seq<CodeUnit>, rest: bytes)
    ensures Value(2 * |units|, Terminated(units) + rest) == units <==> Narrow(units)
  {
    var r := Value(2 * |units|, Terminated(units) + rest);
    if r == units {
      forall i | 0 <= i < |units| ensures units[i] < 256 { assert units[i] == r[i]; }
    }
    if forall i :: 0 <= i < |units| ==> units[i] < 256 {
      ScanOfUnits(units, rest);
      assert Narrow(units) ==> forall i :: 0 <= i < |units| ==> units[i] != 0;
      NarrowBeforeZero(units);
    }
  }

  lemma {:induction false} NarrowBeforeZero(units: seq<CodeUnit>)
    ensures (forall i :: 0 <= i < |units| ==> units[i] != 0) ==> BeforeZero(units) == units
  {
    if units != [] {
      NarrowBeforeZero(units[1..]);
      assert units == [units[0]] + units[1..];
    }
  }

  // ---------- Recovery of the credentials ----------

  /** The five strings of section 2.2.1.11.1.1 of [MS-RDPBCGR]. */
  datatype Info = Info(domain: seq<CodeUnit>, user: seq<CodeUnit>, password: seq<CodeUnit>,
                       shell: seq<CodeUnit>, directory: seq<CodeUnit>)

  predicate Sendable(p: Info) {
    |p.domain| < 0x8000 && |p.user| < 0x8000 && |p.password| < 0x8000 && |p.shell| < 0x8000 && |p.directory| < 0x8000
  }

  /** Lengths are below 65536 bytes. */
  lemma SendableInfos(p: Info)
    ensures Sendable(p)
      <==> forall s :: s in [p.domain, p.user, p.password, p.shell, p.directory] ==> 2 * |s| < 0x1_0000
  {
    var all := [p.domain, p.user, p.password, p.shell, p.directory];
    assert all[0] in all && all[1] in all && all[2] in all && all[3] in all && all[4] in all;
  }

  function Lengths(p: Info): (r: bytes)
    requires Sendable(p)
    ensures |r| == 10
  {
    Le16(2 * |p.domain|) + Le16(2 * |p.user|) + Le16(2 * |p.password|) + Le16(2 * |p.shell|) + Le16(2 * |p.directory|)
  }

  /** The packet: 27 bytes of headers and fixed fields, five lengths without terminators, five strings with them. */
  function Encode(head: bytes, p: Info, rest: bytes): bytes
    requires Sendable(p)
  {
    head + Lengths(p) + Terminated(p.domain) + Terminated(p.user) + Terminated(p.password)
    + Terminated(p.shell) + Terminated(p.directory) + rest
  }

  lemma LengthFields(head: bytes, p: Info, strings: bytes)
    requires |head| == 27 && Sendable(p)
    ensures var data := head + Lengths(p) + strings;
      LengthAt(data, 27) == 2 * |p.domain| && LengthAt(data, 29) == 2 * |p.user|
      && LengthAt(data, 31) == 2 * |p.password|
  {
    var data := head + Lengths(p) + strings;
    Read16(2 * |p.domain|);
    Read16(2 * |p.user|);
    Read16(2 * |p.password|);
    assert data[27..29] == Le16(2 * |p.domain|);
    assert data[29..31] == Le16(2 * |p.user|);
    assert data[31..33] == Le16(2 * |p.password|);
  }

  /**
    * Whatever the domain, shell and directory are, the user name and the password come back unchanged if and
    * only if all their code units are in 1..255.
    */
  lemma CredsRoundTrip(head: bytes, p: Info, rest: bytes)
    requires |head| == 27 && Sendable(p)
    ensures Creds(Encode(head, p, rest)).Some?
    ensures var c := Creds(Encode(head, p, rest)).value;
      (c.user == p.user <==> Narrow(p.user)) && (c.password == p.password <==> Narrow(p.password))
  {
    hide Terminated, Lengths, Value, Narrow, Encode;
    var last := Terminated(p.shell) + Terminated(p.directory) + rest;
    CredsOfStrings(head, p, rest);
    ValueIsExact(p.user, Terminated(p.password) + last);
    ValueIsExact(p.password, last);
  }

  /** Both strings are looked for where they are. */
  lemma CredsOfStrings(head: bytes, p: Info, rest: bytes)
    requires |head| == 27 && Sendable(p)
    ensures var c, last := Terminated(p.password), Terminated(p.shell) + Terminated(p.directory) + rest;
      Creds(Encode(head, p, rest))
      == Some(Credentials(Value(2 * |p.user|, Terminated(p.user) + (c + last)), Value(2 * |p.password|, c + last)))
  {
    hide Terminated, Lengths, Value, LengthAt, Drop;
    var a, b, c := Terminated(p.domain), Terminated(p.user), Terminated(p.password);
    var last := Terminated(p.shell) + Terminated(p.directory) + rest;
    var front := head + Lengths(p);
    TerminatedLength(p.domain);
    TerminatedLength(p.user);
    assert Encode(head, p, rest) == front + (a + b + c + last) == front + a + b + (c + last);
    LengthFields(head, p, a + b + c + last);
    DropStrings(front, a, b, c + last);
  }

  lemma DropStrings(front: bytes, a: bytes, b: bytes, c: bytes)
    ensures Drop(front + a + b + c, |front| + |a|) == b + c
    ensures Drop(front + a + b + c, |front| + |a| + |b|) == c
  {
  }

  lemma TerminatedLength(units: seq<CodeUnit>)
    ensures |Terminated(units)| == 2 * |units| + 2
  {
  }
}
