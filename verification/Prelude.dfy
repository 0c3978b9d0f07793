/** Byte strings and the Python operations on them that every decoder shares. */
module Prelude {

  datatype Option<+T> = None | Some(value: T)

  type byte = b: int | 0 <= b < 256

  type bytes = seq<byte>

  /** `s[lo:hi]` for non-negative bounds: Python clamps both to the length. */
  function Slice<T>(s: seq<T>, lo: nat, hi: nat): (r: seq<T>)
    ensures |r| == (if lo <= hi <= |s| then hi - lo else if lo <= |s| <= hi then |s| - lo else 0)
    ensures forall k :: 0 <= k < |r| ==> r[k] == s[lo + k]
  {
    var top := if hi <= |s| then hi else |s|;
    if lo <= top then s[lo..top] else []
  }

  /** `s[lo:]` for a non-negative bound. */
  function Drop<T>(s: seq<T>, lo: nat): seq<T> {
    if lo <= |s| then s[lo..] else []
  }

  /** `s.strip(x)` for one element. */
  function StripOf<T(==)>(s: seq<T>, x: T): seq<T> {
    if s != [] && s[0] == x then StripOf(s[1..], x)
    else if s != [] && s[|s| - 1] == x then StripOf(s[..|s| - 1], x)
    else s
  }

  /** Stripping takes nothing but `x` away, and all of it at both ends. */
  lemma {:induction false} StripIsExact<T>(s: seq<T>, x: T) returns (a: seq<T>, b: seq<T>)
    ensures s == a + StripOf(s, x) + b
    ensures (forall i :: 0 <= i < |a| ==> a[i] == x) && forall i :: 0 <= i < |b| ==> b[i] == x
    ensures var r := StripOf(s, x); r != [] ==> r[0] != x && r[|r| - 1] != x
    decreases |s|
  {
    a, b := [], [];
    if s != [] && s[0] == x {
      var c, d := StripIsExact(s[1..], x);
      a, b := [x] + c, d;
      assert s == [x] + (c + StripOf(s[1..], x) + d);
    } else if s != [] && s[|s| - 1] == x {
      var c, d := StripIsExact(s[..|s| - 1], x);
      a, b := c, d + [x];
      assert s == s[..|s| - 1] + [x];
    }
  }

  lemma NothingToStrip<T>(s: seq<T>, x: T)
    requires s != [] ==> s[0] != x && s[|s| - 1] != x
    ensures StripOf(s, x) == s
  {
  }

  predicate StartsWith<T(==)>(s: seq<T>, prefix: seq<T>) {
    prefix <= s
  }

  /** `sub` occurs in `s` at position `i`. */
  predicate OccursAt<T(==)>(s: seq<T>, sub: seq<T>, i: nat) {
    i + |sub| <= |s| && s[i..i + |sub|] == sub
  }

  /** `s.find(sub)`, with None for -1. */
  function Find<T(==)>(s: seq<T>, sub: seq<T>): (r: Option<nat>)
    ensures r.Some? ==> OccursAt(s, sub, r.value)
    ensures r.Some? ==> forall j: nat :: j < r.value ==> !OccursAt(s, sub, j)
    ensures r.None? ==> forall j: nat :: !OccursAt(s, sub, j)
  {
    FindFrom(s, sub, 0)
  }

  function FindFrom<T(==)>(s: seq<T>, sub: seq<T>, i: nat): (r: Option<nat>)
    requires i <= |s|
    ensures r.Some? ==> i <= r.value && OccursAt(s, sub, r.value)
    ensures r.Some? ==> forall j: nat :: i <= j < r.value ==> !OccursAt(s, sub, j)
    ensures r.None? ==> forall j: nat :: i <= j ==> !OccursAt(s, sub, j)
    decreases |s| - i
  {
    if OccursAt(s, sub, i) then Some(i)
    else if i == |s| then None
    else FindFrom(s, sub, i + 1)
  }

  /** The search result is determined by being an occurrence with none before it. */
  lemma FindIs<T>(s: seq<T>, sub: seq<T>, i: nat)
    requires OccursAt(s, sub, i)
    requires forall j: nat :: j < i ==> !OccursAt(s, sub, j)
    ensures Find(s, sub) == Some(i)
  {
    var r := Find(s, sub);
    assert r.Some?;
  }

  /** The length of the longest prefix without a stop byte. */
  function Span(s: bytes, stop: byte -> bool): (n: nat)
    ensures n <= |s|
    ensures forall i :: 0 <= i < n ==> !stop(s[i])
    ensures n < |s| ==> stop(s[n])
  {
    if s == [] || stop(s[0]) then 0 else 1 + Span(s[1..], stop)
  }

  predicate IsNul(b: byte) { b == 0 }

  lemma {:induction false} SpanOfRun(run: bytes, rest: bytes, stop: byte -> bool)
    requires forall i :: 0 <= i < |run| ==> !stop(run[i])
    requires rest != [] ==> stop(rest[0])
    ensures Span(run + rest, stop) == |run|
  {
    assert forall i :: 0 <= i < |run| ==> (run + rest)[i] == run[i];
    assert rest != [] ==> (run + rest)[|run|] == rest[0];
  }

  /** A NUL-free string ends at the NUL behind it. */
  lemma NulEnds(s: bytes, rest: bytes)
    requires forall i :: 0 <= i < |s| ==> s[i] != 0
    ensures Span(s + [0] + rest, IsNul) == |s|
  {
    SpanOfRun(s, [0] + rest, IsNul);
    assert s + [0] + rest == s + ([0] + rest);
  }

  function Zeros(n: nat): (r: bytes)
    ensures |r| == n && forall i :: 0 <= i < n ==> r[i] == 0
  {
    seq(n, _ => 0)
  }

  /** Unsigned integers in network order (`>H`, `>I`) and in host order (`<H`, `<I`). */
  function Be16(n: nat): (r: bytes)
    requires n < 0x1_0000
    ensures |r| == 2
  {
    [n / 256, n % 256]
  }

  function FromBe16(s: bytes): (n: nat)
    requires |s| == 2
    ensures n < 0x1_0000 && Be16(n) == s
  {
    (s[0] as int) * 256 + s[1]
  }

  function Be32(n: nat): (r: bytes)
    requires n < 0x1_0000_0000
    ensures |r| == 4
  {
    Be16(n / 0x1_0000) + Be16(n % 0x1_0000)
  }

  function FromBe32(s: bytes): (n: nat)
    requires |s| == 4
    ensures n < 0x1_0000_0000 && Be32(n) == s
  {
    var high, low := FromBe16(s[..2]), FromBe16(s[2..]);
    Join32(high, low);
    assert s == s[..2] + s[2..];
    high * 0x1_0000 + low
  }

  lemma Join32(high: nat, low: nat)
    requires high < 0x1_0000 && low < 0x1_0000
    ensures var n := high * 0x1_0000 + low; n < 0x1_0000_0000 && n / 0x1_0000 == high && n % 0x1_0000 == low
  {
  }

  function Le16(n: nat): (r: bytes)
    requires n < 0x1_0000
    ensures |r| == 2
  {
    [n % 256, n / 256]
  }

  function FromLe16(s: bytes): (n: nat)
    requires |s| == 2
    ensures n < 0x1_0000 && Le16(n) == s
  {
    (s[1] as int) * 256 + s[0]
  }

  function Le32(n: nat): (r: bytes)
    requires n < 0x1_0000_0000
    ensures |r| == 4
  {
    Le16(n % 0x1_0000) + Le16(n / 0x1_0000)
  }

  function FromLe32(s: bytes): (n: nat)
    requires |s| == 4
    ensures n < 0x1_0000_0000 && Le32(n) == s
  {
    var high, low := FromLe16(s[2..]), FromLe16(s[..2]);
    Join32(high, low);
    assert s == s[..2] + s[2..];
    high * 0x1_0000 + low
  }

  /** Reading back what was written. */
  lemma Read16(n: nat)
    requires n < 0x1_0000
    ensures FromBe16(Be16(n)) == n && FromLe16(Le16(n)) == n
  {
  }

  lemma Read32(n: nat)
    requires n < 0x1_0000_0000
    ensures |Be32(n)| == 4 && FromBe32(Be32(n)) == n
    ensures |Le32(n)| == 4 && FromLe32(Le32(n)) == n
  {
  }

  // ---------- Dictionaries built from lists ----------

  datatype KeyValue<K, V> = KeyValue(key: K, value: V)

  /** Insertion in order: a later entry replaces an earlier one with the same key. */
  function LastWins<K(==), V>(entries: seq<KeyValue<K, V>>): map<K, V> {
    if entries == [] then map[]
    else map[entries[0].key := entries[0].value] + LastWins(entries[1..])
  }

  /** A key maps to the value of its last entry. */
  lemma {:induction false} LastWinsIsLast<K, V>(entries: seq<KeyValue<K, V>>, i: nat)
    requires i < |entries| && forall j :: i < j < |entries| ==> entries[j].key != entries[i].key
    ensures entries[i].key in LastWins(entries) && LastWins(entries)[entries[i].key] == entries[i].value
    decreases |entries|
  {
    if i > 0 {
      LastWinsIsLast(entries[1..], i - 1);
    } else {
      LastWinsOnlyKeys(entries[1..], entries[0].key);
    }
  }

  /** A key without an entry maps to nothing. */
  lemma {:induction false} LastWinsOnlyKeys<K, V>(entries: seq<KeyValue<K, V>>, key: K)
    requires forall j :: 0 <= j < |entries| ==> entries[j].key != key
    ensures key !in LastWins(entries)
    decreases |entries|
  {
    if entries != [] { LastWinsOnlyKeys(entries[1..], key); }
  }

  /** `a ^ b` on naturals, bit by bit from the lowest. */
  function Xor(a: nat, b: nat): (r: nat)
    decreases a + b
  {
    if a == 0 && b == 0 then 0
    else 2 * Xor(a / 2, b / 2) + (a + b) % 2
  }

  /** One step of the recursion, which also holds when both numbers are zero. */
  lemma XorStep(a: nat, b: nat)
    ensures Xor(a, b) / 2 == Xor(a / 2, b / 2) && Xor(a, b) % 2 == (a + b) % 2
  {
  }

  lemma ParityCancels(a: nat, b: nat, x: nat)
    requires x % 2 == (a + b) % 2
    ensures (x + b) % 2 == a % 2
  {
  }

  lemma {:induction false} XorCancels(a: nat, b: nat)
    ensures Xor(Xor(a, b), b) == a
    decreases a + b
  {
    if a != 0 || b != 0 {
      XorCancels(a / 2, b / 2);
      var x := Xor(a, b);
      XorStep(a, b);
      XorStep(x, b);
      ParityCancels(a, b, x);
    }
  }

  /** The exclusive or of two numbers below a power of two stays below it. */
  lemma {:induction false} XorBelow(a: nat, b: nat, bits: nat)
    requires a < Pow2(bits) && b < Pow2(bits)
    ensures Xor(a, b) < Pow2(bits)
    decreases bits
  {
    if bits == 0 {
    } else {
      XorBelow(a / 2, b / 2, bits - 1);
    }
  }

  function Pow2(n: nat): nat {
    if n == 0 then 1 else 2 * Pow2(n - 1)
  }

  function XorByte(a: byte, b: byte): byte {
    XorFits(a, b);
    Xor(a, b)
  }

  lemma XorFits(a: byte, b: byte)
    ensures Xor(a, b) < 256
  {
    assert Pow2(8) == 256 by {
      assert Pow2(4) == 16;
      assert Pow2(6) == 64;
    }
    XorBelow(a, b, 8);
  }

  // ---------- Text ----------

  type CodePoint = c: int | 0 <= c < 0x11_0000

  type Text = seq<CodePoint>

  /** Surrogates cannot be encoded. */
  predicate Encodable(s: Text) { forall c :: c in s ==> !(0xD800 <= c < 0xE000) }

  /** UTF-8 (section 3 of RFC 3629). */
  function Utf8(c: CodePoint): (r: bytes)
    ensures |r| >= 1
  {
    if c < 0x80 then [c]
    else if c < 0x800 then [0xC0 + c / 0x40, 0x80 + c % 0x40]
    else if c < 0x1_0000 then [0xE0 + c / 0x1000, 0x80 + c / 0x40 % 0x40, 0x80 + c % 0x40]
    else [0xF0 + c / 0x4_0000, 0x80 + c / 0x1000 % 0x40, 0x80 + c / 0x40 % 0x40, 0x80 + c % 0x40]
  }

  function Utf8All(s: Text): bytes {
    if s == [] then [] else Utf8(s[0]) + Utf8All(s[1..])
  }

  /** Strict decoding: it undoes the encoding, and accepts nothing else. */
  ghost predicate Strict(utf8: bytes -> Option<Text>) {
    forall b: bytes, s: Text :: utf8(b) == Some(s) <==> Encodable(s) && Utf8All(s) == b
  }

  /** A byte that only continues a character. */
  predicate Continues(b: byte) { 0x80 <= b < 0xC0 }

  /** The first byte of a character tells how many follow, and all of those only continue it. */
  lemma Utf8Shape(c: CodePoint)
    ensures var r := Utf8(c);
      |r| == (if r[0] < 0x80 then 1 else if r[0] < 0xE0 then 2 else if r[0] < 0xF0 then 3 else 4)
      && (|r| == 1 <==> c < 0x80) && !Continues(r[0]) && forall i :: 0 < i < |r| ==> Continues(r[i])
  {
  }

  /** The number that the bytes of a character stand for. */
  function CodeOf(r: bytes): int {
    match |r|
    case 1 => r[0] as int
    case 2 => (r[0] as int - 0xC0) * 0x40 + (r[1] as int - 0x80)
    case 3 => ((r[0] as int - 0xE0) * 0x40 + (r[1] as int - 0x80)) * 0x40 + (r[2] as int - 0x80)
    case 4 =>
      (((r[0] as int - 0xF0) * 0x40 + (r[1] as int - 0x80)) * 0x40 + (r[2] as int - 0x80)) * 0x40 + (r[3] as int - 0x80)
    case _ => 0
  }

  lemma CodeOfUtf8(c: CodePoint)
    ensures CodeOf(Utf8(c)) == c
  {
    var q, r := c / 0x40, c % 0x40;
    assert c == 0x40 * q + r;
    if c >= 0x800 {
      var p, o := q / 0x40, q % 0x40;
      assert q == 0x40 * p + o && p == c / 0x1000;
      if c >= 0x1_0000 {
        var n, m := p / 0x40, p % 0x40;
        assert p == 0x40 * n + m && n == c / 0x4_0000;
      }
    }
  }

  /** No two texts have the same encoding. */
  lemma {:induction false} Utf8IsInjective(s: Text, t: Text)
    requires Utf8All(s) == Utf8All(t)
    ensures s == t
  {
    hide Utf8, CodeOf;
    if s != [] && t != [] {
      var a, b := Utf8(s[0]), Utf8(t[0]);
      var all := Utf8All(s);
      assert all == a + Utf8All(s[1..]) && all == b + Utf8All(t[1..]);
      assert all[0] == a[0] && all[0] == b[0];
      Utf8Shape(s[0]);
      Utf8Shape(t[0]);
      assert a == all[..|a|] && b == all[..|b|];
      CodeOfUtf8(s[0]);
      CodeOfUtf8(t[0]);
      assert Utf8All(s[1..]) == all[|a|..] && Utf8All(t[1..]) == all[|b|..];
      Utf8IsInjective(s[1..], t[1..]);
      assert s == [s[0]] + s[1..] && t == [t[0]] + t[1..];
    }
  }

  ghost function Decoded(b: bytes): Option<Text> {
    if s: Text :| Encodable(s) && Utf8All(s) == b then Some(s) else None
  }

  /** There is such a decoder. */
  lemma StrictExists()
    ensures Strict((b: bytes) => Decoded(b))
  {
    hide Utf8All, Encodable;
    forall b: bytes, s: Text ensures Decoded(b) == Some(s) <==> Encodable(s) && Utf8All(s) == b {
      if Encodable(s) && Utf8All(s) == b {
        var t: Text :| Encodable(t) && Utf8All(t) == b && Decoded(b) == Some(t);
        Utf8IsInjective(s, t);
      }
    }
  }

  lemma {:induction false} Utf8Append(s: Text, t: Text)
    ensures Utf8All(s + t) == Utf8All(s) + Utf8All(t)
    decreases |s|
  {
    hide Utf8;
    if s == [] {
      assert s + t == t;
    } else {
      assert (s + t)[1..] == s[1..] + t;
      Utf8Append(s[1..], t);
    }
  }

  /** ASCII is its own encoding. */
  lemma {:induction false} AsciiIsItself(s: bytes)
    requires forall i :: 0 <= i < |s| ==> s[i] < 0x80
    ensures Utf8All(s) == s && Encodable(s)
  {
    if s != [] {
      AsciiIsItself(s[1..]);
      assert s == [s[0]] + s[1..];
    }
  }

  lemma FirstOfText(s: Text)
    ensures s != [] ==> Utf8All(s) != [] && !Continues(Utf8All(s)[0])
  {
    if s != [] { Utf8Shape(s[0]); }
  }

  /** A high byte that is not followed by a byte that continues it is in no encoding: it cannot be decoded. */
  lemma {:induction false} LoneHighByte(ascii: bytes, high: byte, rest: bytes, s: Text)
    requires forall i :: 0 <= i < |ascii| ==> ascii[i] < 0x80
    requires high >= 0x80 && (rest != [] ==> !Continues(rest[0]))
    ensures Utf8All(s) != ascii + [high] + rest
    decreases |ascii|
  {
    var all := ascii + [high] + rest;
    if s != [] {
      hide Utf8;
      Utf8Shape(s[0]);
      var first, more := Utf8(s[0]), Utf8All(s[1..]);
      assert Utf8All(s) == first + more && Utf8All(s)[0] == first[0];
      if ascii == [] {
        LoneHighStart(first, more, high, rest);
      } else {
        LoneHighByte(ascii[1..], high, rest, s[1..]);
        assert first[0] == ascii[0] ==> (first + more)[1..] == more;
        assert all[1..] == ascii[1..] + [high] + rest;
      }
    }
  }

  lemma LoneHighStart(first: bytes, more: bytes, high: byte, rest: bytes)
    requires |first| > 0 && (first[0] >= 0x80 ==> |first| > 1 && Continues(first[1]))
    requires high >= 0x80 && (rest != [] ==> !Continues(rest[0]))
    ensures first + more != [high] + rest
  {
    var all := first + more;
    assert all[0] == first[0] && (|first| > 1 ==> all[1] == first[1]);
    assert ([high] + rest)[0] == high && (rest != [] ==> ([high] + rest)[1] == rest[0]);
  }

  type Septet = b: int | 0 <= b < 0x80

  /** The bytes of a text that is ASCII. */
  function Ascii(s: string): (r: seq<Septet>)
    ensures |r| == |s|
    ensures forall i :: 0 <= i < |s| ==> r[i] == if s[i] as int < 0x80 then s[i] as int else 0x3F
  {
    seq(|s|, i requires 0 <= i < |s| => if s[i] as int < 0x80 then s[i] as int else 0x3F)
  }

  // ---------- UTF-16 code units, little end first ----------

  type CodeUnit = u: int | 0 <= u < 0x1_0000

  function UnitBytes(units: seq<CodeUnit>): (r: bytes)
    ensures |r| == 2 * |units|
  {
    if units == [] then [] else Le16(units[0]) + UnitBytes(units[1..])
  }
}
