/** The LDAP simple-bind decoder and its two-message session. */
module Ldap {
  import opened Prelude

  const SIMPLE: byte := 0x80
  const VERSION: bytes := [0x02, 0x01, 0x03]

  datatype Credentials = Credentials(username: bytes, password: bytes)

  /** The password that follows the authentication tag at `at`; empty when a read fails. */
  function PasswordAt(data: bytes, at: nat): bytes {
    if at + 1 >= |data| then []
    else if data[at + 1] == 0x82 then
      var length := Slice(data, at + 2, at + 4);
      if |length| != 2 then [] else Slice(data, at + 4, at + 4 + FromBe16(length))
    else Slice(data, at + 2, at + 2 + data[at + 1])
  }

  /** `parse_ldap_packet`: a failed read leaves what was assigned before it. */
  function ParsePacket(data: bytes): Credentials {
    match Find(data, VERSION)
    case None => Credentials([], [])
    case Some(offset) =>
      var start := offset + 5;
      if offset == 0 || start - 1 >= |data| then Credentials([], [])
      else
        var end := start + data[start - 1];
        var username := Slice(data, start, end);
        if end >= |data| || data[end] != SIMPLE then Credentials(username, [])
        else Credentials(username, PasswordAt(data, end))
  }

  // ---------- Bind requests (section 4.2 of RFC 4511) ----------

  /** The definite forms of a BER length with up to two length bytes. */
  datatype Form = Short | Long1 | Long2

  predicate Fits(form: Form, n: nat) {
    match form
    case Short => n < 128
    case Long1 => n < 256
    case Long2 => n < 0x1_0000
  }

  function Length(form: Form, n: nat): (r: bytes)
    requires Fits(form, n)
    ensures |r| == if form.Short? then 1 else if form.Long1? then 2 else 3
  {
    match form
    case Short => [n]
    case Long1 => [0x81, n]
    case Long2 => [0x82] + Be16(n)
  }

  /** A bind request, with the bytes of its message id and the length forms its sender chose. */
  datatype Bind = Bind(id: bytes, username: bytes, password: bytes, outer: Form, inner: Form, name: Form, secret: Form)

  function Authentication(b: Bind): (r: bytes)
    requires Fits(b.secret, |b.password|)
    ensures |r| >= 2 + |b.password|
  {
    [SIMPLE] + Length(b.secret, |b.password|) + b.password
  }

  function NameLength(b: Bind): bytes
    requires Fits(b.name, |b.username|)
  {
    Length(b.name, |b.username|)
  }

  function BindBody(b: Bind): bytes
    requires Fits(b.secret, |b.password|) && Fits(b.name, |b.username|)
  {
    VERSION + ([0x04] + NameLength(b) + b.username + Authentication(b))
  }

  /** The message id: a tag, its number of bytes, and the bytes of a number below 2^31. */
  function IdField(id: bytes): (r: bytes)
    requires |id| <= 4
    ensures |r| == 2 + |id|
  {
    [0x02, |id|] + id
  }

  predicate Sendable(b: Bind) {
    && 1 <= |b.id| <= 4 && b.id[0] < 128
    && Fits(b.name, |b.username|) && Fits(b.secret, |b.password|)
    && Fits(b.inner, |BindBody(b)|)
    && Fits(b.outer, 3 + |b.id| + |Length(b.inner, |BindBody(b)|)| + |BindBody(b)|)
  }

  function Inner(b: Bind): bytes
    requires Sendable(b)
  {
    Length(b.inner, |BindBody(b)|)
  }

  function Outer(b: Bind): bytes
    requires Sendable(b)
  {
    Length(b.outer, 3 + |b.id| + |Inner(b)| + |BindBody(b)|)
  }

  function Encode(b: Bind): bytes
    requires Sendable(b)
  {
    [0x30] + Outer(b) + IdField(b.id) + ([0x60] + Inner(b) + BindBody(b))
  }

  /** A bind as user "cn=a" with password "pw", byte by byte: sections 4.1.1 and 4.2 of RFC 4511. */
  lemma EncodedBind()
    ensures var b := Bind([1], Ascii("cn=a"), Ascii("pw"), Short, Short, Short, Short);
      Sendable(b)
      && Encode(b) == [0x30, 0x12, 0x02, 0x01, 0x01, 0x60, 0x0d, 0x02, 0x01, 0x03, 0x04, 0x04]
                      + [0x63, 0x6e, 0x3d, 0x61] + [0x80, 0x02] + [0x70, 0x77]
  {
    assert Ascii("cn=a") == [0x63, 0x6e, 0x3d, 0x61] && Ascii("pw") == [0x70, 0x77];
    var b := Bind([1], [0x63, 0x6e, 0x3d, 0x61], [0x70, 0x77], Short, Short, Short, Short);
    assert |BindBody(b)| == 13;
  }

  // ---------- Where the version field is found ----------

  /** What the first byte of a length tells. */
  predicate IsLength(s: bytes) {
    (|s| == 1 && s[0] < 128) || (|s| == 2 && s[0] == 0x81) || (|s| == 3 && s[0] == 0x82)
  }

  lemma LengthStart(form: Form, n: nat)
    requires Fits(form, n)
    ensures IsLength(Length(form, n))
  {
  }

  lemma VersionBytes(s: bytes, j: nat)
    ensures OccursAt(s, VERSION, j) <==> j + 3 <= |s| && s[j] == 2 && s[j + 1] == 1 && s[j + 2] == 3
  {
    if j + 3 <= |s| {
      var m := s[j..j + 3];
      assert m[0] == s[j] && m[1] == s[j + 1] && m[2] == s[j + 2];
      assert m == VERSION <==> m[0] == 2 && m[1] == 1 && m[2] == 3;
    }
  }

  /** In front of the id, no length and no tag holds the version field, nor its first bytes. */
  lemma NothingBeforeId(outer: bytes, rest: bytes, j: nat)
    requires IsLength(outer) && |rest| >= 2 && rest[0] == 2 && j < 1 + |outer|
    ensures !OccursAt([0x30] + outer + rest, VERSION, j)
  {
    var s := [0x30] + outer + rest;
    assert s[0] == 0x30 && s[1] == outer[0] && s[1 + |outer|] == 2;
    VersionBytes(s, j);
  }

  /** Nor does anything behind the id and in front of the body, alone or with the last bytes of the id. */
  lemma NothingBehindId(front: bytes, inner: bytes, body: bytes, j: nat)
    requires IsLength(inner) && |front| >= 2 && |body| >= 2 && body[0] == 2 && body[1] == 1
    requires |front| - 2 <= j <= |front| + |inner|
    ensures !OccursAt(front + ([0x60] + inner + body), VERSION, j)
  {
    var s, e := front + ([0x60] + inner + body), |front|;
    assert s[e] == 0x60 && s[e + 1] == inner[0] && s[e + 1 + |inner|] == 2 && s[e + 2 + |inner|] == 1;
    VersionBytes(s, j);
  }

  lemma OccursInside(front: bytes, middle: bytes, back: bytes, j: nat)
    requires j + 3 <= |middle|
    ensures OccursAt(front + middle + back, VERSION, |front| + j) <==> OccursAt(middle, VERSION, j)
  {
    assert (front + middle + back)[|front| + j..|front| + j + 3] == middle[j..j + 3];
  }

  /** In front of the version field, only the message id can hold its bytes. */
  lemma OnlyTheIdClashes(outer: bytes, field: bytes, inner: bytes, body: bytes, j: nat)
    requires IsLength(outer) && IsLength(inner) && |field| >= 3 && field[0] == 2
    requires |body| >= 3 && body[0] == 2 && body[1] == 1
    requires j < 2 + |outer| + |field| + |inner|
    ensures OccursAt([0x30] + outer + field + ([0x60] + inner + body), VERSION, j)
      <==> 1 + |outer| <= j && OccursAt(field, VERSION, j - 1 - |outer|)
  {
    var front, back := [0x30] + outer, [0x60] + inner + body;
    if j < |front| {
      assert front + field + back == front + (field + back);
      assert (field + back)[0] == 2;
      hide IsLength, OccursAt;
      NothingBeforeId(outer, field + back, j);
    } else if j + 3 <= |front| + |field| {
      hide IsLength, OccursAt;
      OccursInside(front, field, back, j - |front|);
    } else {
      hide IsLength;
      NothingBehindId(front + field, inner, body, j);
    }
  }

  lemma FirstMatchOf(outer: bytes, field: bytes, inner: bytes, body: bytes)
    requires IsLength(outer) && IsLength(inner) && |field| >= 3 && field[0] == 2
    requires |body| >= 3 && body[..3] == VERSION
    ensures Find([0x30] + outer + field + ([0x60] + inner + body), VERSION) == Some(
      if Find(field, VERSION).Some? then 1 + |outer| + Find(field, VERSION).value
      else 2 + |outer| + |field| + |inner|)
  {
    assert body[0] == VERSION[0] && body[1] == VERSION[1];
    var front, rest := [0x30] + outer + field, [0x60] + inner + body;
    hide Find, IsLength, OccursAt;
    VersionOfBody(front + ([0x60] + inner), body);
    assert front + ([0x60] + inner) + body == front + rest;
    OnlyTheIdClashesAnywhere(outer, field, inner, body);
    MatchIsFirst(front + rest, field, 1 + |outer|, 2 + |outer| + |field| + |inner|);
  }

  lemma OnlyTheIdClashesAnywhere(outer: bytes, field: bytes, inner: bytes, body: bytes)
    requires IsLength(outer) && IsLength(inner) && |field| >= 3 && field[0] == 2
    requires |body| >= 3 && body[0] == 2 && body[1] == 1
    ensures var s := [0x30] + outer + field + ([0x60] + inner + body);
      forall j: nat :: j < 2 + |outer| + |field| + |inner| ==>
        (OccursAt(s, VERSION, j) <==> 1 + |outer| <= j && OccursAt(field, VERSION, j - (1 + |outer|)))
  {
    hide IsLength, OccursAt;
    var s := [0x30] + outer + field + ([0x60] + inner + body);
    forall j: nat | j < 2 + |outer| + |field| + |inner|
      ensures OccursAt(s, VERSION, j) <==> 1 + |outer| <= j && OccursAt(field, VERSION, j - (1 + |outer|))
    {
      OnlyTheIdClashes(outer, field, inner, body, j);
    }
  }

  lemma VersionOfBody(front: bytes, body: bytes)
    requires |body| >= 3 && body[..3] == VERSION
    ensures OccursAt(front + body, VERSION, |front|)
  {
    assert (front + body)[|front|..|front| + 3] == body[..3];
  }

  /** A match at `n`, with exactly those of `field`, moved by `k`, in front of it. */
  lemma MatchIsFirst(s: bytes, field: bytes, k: nat, n: nat)
    requires OccursAt(s, VERSION, n) && k + |field| <= n
    requires forall j: nat :: j < n ==> (OccursAt(s, VERSION, j) <==> k <= j && OccursAt(field, VERSION, j - k))
    ensures Find(s, VERSION) == Some(if Find(field, VERSION).Some? then k + Find(field, VERSION).value else n)
  {
    var inside := Find(field, VERSION);
    if inside.Some? {
      assert inside.value < |field|;
      hide OccursAt;
      FindIs(s, VERSION, k + inside.value);
    } else {
      FindIs(s, VERSION, n);
    }
  }

  /** The bytes of a message id hold the version field, for some together with the length byte in front of them. */
  predicate Clashes(id: bytes)
    requires |id| <= 4
  {
    Find(IdField(id), VERSION).Some?
  }

  /** How many bytes of the id follow the match. */
  function Left(id: bytes): nat
    requires |id| <= 4 && Clashes(id)
  {
    |IdField(id)| - Find(IdField(id), VERSION).value - 3
  }

  /** The ids 3, 259 and 131331 hold the version field, and those whose first or last three of four bytes do. */
  predicate HoldsVersion(id: bytes) {
    match |id|
    case 1 => id[0] == 3
    case 2 => id[0] == 1 && id[1] == 3
    case 3 => id == VERSION
    case 4 => StartsWithVersion(id) || (id[1] == 2 && id[2] == 1 && id[3] == 3)
    case _ => false
  }

  predicate StartsWithVersion(id: bytes) { |id| == 4 && id[0] == 2 && id[1] == 1 && id[2] == 3 }

  lemma IdBytes(id: bytes)
    requires |id| <= 4
    ensures var s := IdField(id); s[0] == 2 && s[1] == |id| && forall i :: 0 <= i < |id| ==> s[i + 2] == id[i]
  {
  }

  /** Exactly these ids clash, and in one kind of them a byte is left behind the match. */
  lemma ClashingIds(id: bytes)
    requires 1 <= |id| <= 4
    ensures Clashes(id) <==> HoldsVersion(id)
    ensures Clashes(id) ==> Left(id) == if StartsWithVersion(id) then 1 else 0
  {
    var s := IdField(id);
    IdBytes(id);
    hide IdField, OccursAt;
    forall j: nat | OccursAt(s, VERSION, j) ensures HoldsVersion(id) && j == MatchAt(id) {
      NoOtherMatch(id, s, j);
    }
    if HoldsVersion(id) {
      VersionBytes(s, MatchAt(id));
      FindIs(s, VERSION, MatchAt(id));
    }
  }

  function MatchAt(id: bytes): nat {
    if |id| == 1 then 0 else if |id| == 2 then 1 else if |id| == 3 || StartsWithVersion(id) then 2 else 3
  }

  lemma NoOtherMatch(id: bytes, s: bytes, j: nat)
    requires 1 <= |id| <= 4 && |s| == 2 + |id| && s[0] == 2 && s[1] == |id|
    requires forall i :: 0 <= i < |id| ==> s[i + 2] == id[i]
    requires OccursAt(s, VERSION, j)
    ensures HoldsVersion(id) && j == MatchAt(id)
  {
    VersionBytes(s, j);
    hide OccursAt;
    if j == 0 {
      assert s[2] == id[0];
    } else {
      assert j >= 2 ==> s[j] == id[j - 2];
      assert s[j + 1] == id[j - 1] && s[j + 2] == id[j];
    }
  }

  lemma BodyStart(b: Bind)
    requires Fits(b.secret, |b.password|) && Fits(b.name, |b.username|)
    ensures |BindBody(b)| >= 3 && BindBody(b)[..3] == VERSION
    ensures BindBody(b)[0] == 2 && BindBody(b)[1] == 1
  {
  }

  lemma PartsOfBind(b: Bind)
    requires Sendable(b)
    ensures IsLength(Outer(b)) && IsLength(Inner(b)) && |IdField(b.id)| >= 3 && IdField(b.id)[0] == 2
    ensures |BindBody(b)| >= 3 && BindBody(b)[..3] == VERSION
  {
    BodyStart(b);
    hide BindBody, Length, IsLength;
    LengthStart(b.inner, |BindBody(b)|);
    LengthStart(b.outer, 3 + |b.id| + |Inner(b)| + |BindBody(b)|);
  }

  /** The first match is in the id when that clashes, and the version field otherwise. */
  lemma FirstMatch(b: Bind)
    requires Sendable(b)
    ensures Find(Encode(b), VERSION) == Some(
      if Clashes(b.id) then 1 + |Outer(b)| + Find(IdField(b.id), VERSION).value
      else 2 + |Outer(b)| + |IdField(b.id)| + |Inner(b)|)
  {
    hide BindBody, Find, IdField, IsLength, Outer, Inner;
    PartsOfBind(b);
    hide Sendable;
    FirstMatchOf(Outer(b), IdField(b.id), Inner(b), BindBody(b));
  }

  // ---------- What is read behind the match ----------

  /** The two fields, from the byte behind the one that is taken for the length of the user name. */
  function ReadFields(length: byte, tail: bytes): Credentials {
    var username := Slice(tail, 0, length);
    if length >= |tail| || tail[length] != SIMPLE then Credentials(username, [])
    else Credentials(username, PasswordAt(tail, length))
  }

  lemma SliceShift(front: bytes, tail: bytes, lo: nat, hi: nat)
    ensures Slice(front + tail, |front| + lo, |front| + hi) == Slice(tail, lo, hi)
  {
  }

  lemma PasswordShift(front: bytes, tail: bytes, at: nat)
    ensures PasswordAt(front + tail, |front| + at) == PasswordAt(tail, at)
  {
    hide Slice, FromBe16;
    if at + 1 < |tail| {
      assert (front + tail)[|front| + at + 1] == tail[at + 1];
      SliceShift(front, tail, at + 2, at + 4);
      SliceShift(front, tail, at + 2, at + 2 + tail[at + 1]);
      if |Slice(tail, at + 2, at + 4)| == 2 {
        SliceShift(front, tail, at + 4, at + 4 + FromBe16(Slice(tail, at + 2, at + 4)));
      }
    }
  }

  /** One byte is skipped behind the match, and the next is the length of the user name. */
  lemma FieldsBehindMatch(front: bytes, skipped: byte, length: byte, tail: bytes)
    requires front != []
    requires Find(front + VERSION + [skipped, length] + tail, VERSION) == Some(|front|)
    ensures ParsePacket(front + VERSION + [skipped, length] + tail) == ReadFields(length, tail)
  {
    hide Find, PasswordAt;
    var head := front + VERSION + [skipped, length];
    var data := head + tail;
    assert data[|front| + 4] == length;
    assert Slice(data, |head|, |head| + length) == Slice(tail, 0, length);
    if length < |tail| { assert data[|head| + length] == tail[length]; }
    PasswordShift(head, tail, length);
  }

  /** The byte taken for the length, and what stands between it and the user name. */
  datatype Skew = Skew(length: byte, between: bytes)

  function SkewOf(b: Bind): (r: Skew)
    requires Sendable(b)
  {
    if Clashes(b.id) then
      var inner, more := Inner(b), VERSION + [0x04] + NameLength(b);
      if Left(b.id) == 0 then Skew(inner[0], inner[1..] + more) else Skew(0x60, inner + more)
    else Skew(NameLength(b)[0], NameLength(b)[1..])
  }

  lemma MatchInId(id: bytes) returns (before: bytes, after: bytes)
    requires 1 <= |id| <= 4 && Clashes(id)
    ensures IdField(id) == before + VERSION + after && |before| == Find(IdField(id), VERSION).value
    ensures |after| == Left(id) <= 1
  {
    ClashingIds(id);
    var s, at := IdField(id), Find(IdField(id), VERSION).value;
    before, after := s[..at], s[at + 3..];
  }

  /** The body from the tag of the user name on. */
  function Name(b: Bind): bytes
    requires Fits(b.secret, |b.password|) && Fits(b.name, |b.username|)
  {
    NameLength(b) + (b.username + Authentication(b))
  }

  lemma EncodeIs(b: Bind)
    requires Sendable(b)
    ensures Encode(b) == [0x30] + Outer(b) + IdField(b.id) + ([0x60] + Inner(b) + (VERSION + ([0x04] + Name(b))))
  {
    hide Authentication, NameLength, Outer, Inner, IdField;
    assert BindBody(b) == VERSION + ([0x04] + Name(b));
  }

  lemma FieldsInPlace(front: bytes, name: bytes, rest: bytes)
    requires front != [] && name != []
    requires Find(front + (VERSION + ([0x04] + (name + rest))), VERSION) == Some(|front|)
    ensures ParsePacket(front + (VERSION + ([0x04] + (name + rest)))) == ReadFields(name[0], name[1..] + rest)
  {
    hide Find, ParsePacket, ReadFields;
    assert front + (VERSION + ([0x04] + (name + rest))) == front + VERSION + [0x04, name[0]] + (name[1..] + rest);
    FieldsBehindMatch(front, 0x04, name[0], name[1..] + rest);
  }

  /** The match is in the id: what is skipped and taken for a length is at its end or behind it. */
  lemma FieldsInId(front: bytes, after: bytes, inner: bytes, more: bytes, rest: bytes)
    requires front != [] && inner != [] && |after| <= 1
    requires Find(front + VERSION + (after + ([0x60] + inner + (more + rest))), VERSION) == Some(|front|)
    ensures ParsePacket(front + VERSION + (after + ([0x60] + inner + (more + rest))))
         == if |after| == 0 then ReadFields(inner[0], inner[1..] + more + rest)
            else ReadFields(0x60, inner + more + rest)
  {
    hide Find, ParsePacket, ReadFields;
    var data := front + VERSION + (after + ([0x60] + inner + (more + rest)));
    if |after| == 0 {
      assert data == front + VERSION + [0x60, inner[0]] + (inner[1..] + more + rest);
      FieldsBehindMatch(front, 0x60, inner[0], inner[1..] + more + rest);
    } else {
      assert data == front + VERSION + [after[0], 0x60] + (inner + more + rest);
      FieldsBehindMatch(front, after[0], 0x60, inner + more + rest);
    }
  }

  lemma FieldsWithoutClash(b: Bind)
    requires Sendable(b) && !Clashes(b.id)
    ensures var name := NameLength(b);
      ParsePacket(Encode(b)) == ReadFields(name[0], name[1..] + (b.username + Authentication(b)))
  {
    FirstMatch(b);
    EncodeIs(b);
    hide Clashes, Find, ParsePacket, ReadFields, Authentication, Outer, Inner, IdField, NameLength, Encode, Sendable;
    var front, name := [0x30] + Outer(b) + IdField(b.id) + ([0x60] + Inner(b)), NameLength(b);
    var rest := b.username + Authentication(b);
    assert Encode(b) == front + (VERSION + ([0x04] + (name + rest)));
    FieldsInPlace(front, name, rest);
  }

  lemma FieldsWithClash(b: Bind)
    requires Sendable(b) && Clashes(b.id)
    ensures var inner, more := Inner(b), VERSION + [0x04] + NameLength(b);
      var rest := b.username + Authentication(b);
      ParsePacket(Encode(b))
      == if Left(b.id) == 0 then ReadFields(inner[0], inner[1..] + more + rest)
         else ReadFields(0x60, inner + more + rest)
  {
    FirstMatch(b);
    EncodeIs(b);
    var before, after := MatchInId(b.id);
    hide Clashes, Find, ParsePacket, ReadFields, Authentication, Outer, Inner, IdField, NameLength, Encode, Left, Name;
    var inner, more, rest := Inner(b), VERSION + [0x04] + NameLength(b), b.username + Authentication(b);
    MoreOfName(b);
    hide Sendable;
    SplitAtId(Outer(b), before, after, inner, more + rest);
    FieldsInId([0x30] + Outer(b) + before, after, inner, more, rest);
  }

  lemma MoreOfName(b: Bind)
    requires Fits(b.secret, |b.password|) && Fits(b.name, |b.username|)
    ensures VERSION + [0x04] + NameLength(b) + (b.username + Authentication(b)) == VERSION + ([0x04] + Name(b))
  {
    hide NameLength, Authentication;
  }

  lemma SplitAtId(outer: bytes, before: bytes, after: bytes, inner: bytes, body: bytes)
    ensures [0x30] + outer + (before + VERSION + after) + ([0x60] + inner + body)
         == [0x30] + outer + before + VERSION + (after + ([0x60] + inner + body))
  {
  }

  /** Whatever the request, the fields are read behind the first match. */
  lemma FieldsOfBind(b: Bind)
    requires Sendable(b)
    ensures ParsePacket(Encode(b))
         == ReadFields(SkewOf(b).length, SkewOf(b).between + (b.username + Authentication(b)))
  {
    if Clashes(b.id) { FieldsWithClash(b); } else { FieldsWithoutClash(b); }
    hide ParsePacket, Encode, ReadFields, Find, Authentication, Inner, NameLength, Sendable, Clashes, Left;
  }

  // ---------- Exactness ----------

  /** `s` is as much of the endless repetition of `unit` as it is long. */
  predicate Repeats(s: bytes, unit: bytes) { s == (unit + s)[..|s|] }

  /** The byte behind a repetition is the one that goes on with it. */
  lemma {:induction false} NextOfRepetition(user: bytes, between: bytes, more: bytes, i: nat, r: nat, k: nat)
    requires Repeats(user, between) && more != [] && r < |between|
    requires i <= |user| && i == r + k * |between|
    ensures (between + (user + more))[i] == between[r]
    decreases k
  {
    if k > 0 {
      var n := |between|;
      assert i - n == r + (k - 1) * n;
      assert (between + (user + more))[i] == user[i - n] == (between + user)[i - n];
      NextOfRepetition(user, between, more, i - n, r, k - 1);
    }
  }

  /** Read from too early, a user name comes back exactly when it repeats what stands in front of it. */
  lemma NameBehindSkew(length: byte, between: bytes, user: bytes, more: bytes)
    requires between != [] && more != []
    ensures Slice(between + (user + more), 0, length) == user <==> |user| == length && Repeats(user, between)
  {
    var tail := between + (user + more);
    if |user| == length {
      assert Slice(tail, 0, length) == tail[..length];
      assert tail[..length] == (between + user)[..length];
    }
  }

  /** The byte behind such a user name is not taken for the tag of a simple bind. */
  ghost predicate HidesTag(s: Skew, user: bytes, more: bytes) {
    |user| < |s.between + (user + more)| && (s.between + (user + more))[|user|] != SIMPLE
  }

  lemma NoPasswordBehindSkew(b: Bind)
    requires Sendable(b) && SkewOf(b).between != []
    requires |b.username| == SkewOf(b).length && Repeats(b.username, SkewOf(b).between)
    ensures HidesTag(SkewOf(b), b.username, Authentication(b))
  {
    BodyIsLonger(b);
    if !Clashes(b.id) {
      BehindLongName(b);
    } else if Left(b.id) == 0 {
      BehindEarlyByTwo(b);
    } else {
      BehindEarlyByOne(b);
    }
  }

  lemma BodyIsLonger(b: Bind)
    requires Fits(b.secret, |b.password|) && Fits(b.name, |b.username|)
    ensures |BindBody(b)| > |b.username|
  {
  }

  lemma BehindLongName(b: Bind)
    requires Fits(b.secret, |b.password|) && Fits(b.name, |b.username|) && !b.name.Short?
    requires |b.username| == NameLength(b)[0] && Repeats(b.username, NameLength(b)[1..])
    ensures HidesTag(Skew(NameLength(b)[0], NameLength(b)[1..]), b.username, Authentication(b))
  {
    hide Repeats, Authentication;
    var u, between, more := b.username, NameLength(b)[1..], Authentication(b);
    if b.name.Long1? {
      assert between == [129];
      NextOfRepetition(u, between, more, 129, 0, 129);
    } else {
      assert between == [0, 130];
      NextOfRepetition(u, between, more, 130, 0, 65);
    }
  }

  lemma BehindEarlyByTwo(b: Bind)
    requires Sendable(b) && |BindBody(b)| > |b.username| && |b.username| == Inner(b)[0]
    requires Repeats(b.username, Inner(b)[1..] + (VERSION + [0x04] + NameLength(b)))
    ensures var between := Inner(b)[1..] + (VERSION + [0x04] + NameLength(b));
      HidesTag(Skew(Inner(b)[0], between), b.username, Authentication(b))
  {
    hide BindBody, Repeats, Authentication;
    var u, between, more := b.username, Inner(b)[1..] + (VERSION + [0x04] + NameLength(b)), Authentication(b);
    assert !b.name.Short? && !b.inner.Short?;
    if b.inner.Long1? {
      assert |u| == 129 && between[1] == 2 && between[3] == 3;
      if b.name.Long1? {
        NextOfRepetition(u, between, more, 129, 3, 18);
      } else {
        NextOfRepetition(u, between, more, 129, 1, 16);
      }
    } else {
      assert |u| == 130 && between[2] == 2 && between[4] == 3;
      if b.name.Long1? {
        NextOfRepetition(u, between, more, 130, 2, 16);
      } else {
        NextOfRepetition(u, between, more, 130, 4, 14);
      }
    }
  }

  lemma BehindEarlyByOne(b: Bind)
    requires Sendable(b) && |b.username| == 0x60
    requires Repeats(b.username, Inner(b) + (VERSION + [0x04] + NameLength(b)))
    ensures HidesTag(Skew(0x60, Inner(b) + (VERSION + [0x04] + NameLength(b))), b.username, Authentication(b))
  {
    hide BindBody, Repeats, Authentication;
    var u, inner, name, more := b.username, Inner(b), NameLength(b), Authentication(b);
    var between, n := inner + (VERSION + [0x04] + name), |inner| + |name| + 4;
    assert inner[0] != SIMPLE && name[0] != SIMPLE && |between| == n;
    assert between[0] == inner[0] && between[|inner| + 3] == 4 && between[|inner| + 4] == name[0];
    hide Length;
    match n
    case 6 => NextOfRepetition(u, between, more, 96, 0, 16);
    case 7 => NextOfRepetition(u, between, more, 96, 5, 13);
    case 8 => NextOfRepetition(u, between, more, 96, 0, 12);
    case 9 => NextOfRepetition(u, between, more, 96, 6, 10);
    case 10 => NextOfRepetition(u, between, more, 96, 6, 9);
    case _ =>
  }

  /** The request says what the decoder takes it to say: the id does not clash and the user name has a short length. */
  predicate Straight(b: Bind)
    requires |b.id| <= 4
  {
    !Clashes(b.id) && b.name.Short?
  }

  /** A password in the one-byte long form survives if it is 129 times the byte that is taken for its length. */
  predicate SecretSurvives(b: Bind) {
    b.secret.Long1? ==> |b.password| == 0x81 && forall i :: 0 <= i < 0x81 ==> b.password[i] == 0x81
  }

  lemma PasswordIsRead(front: bytes, b: Bind)
    requires Fits(b.secret, |b.password|)
    ensures PasswordAt(front + Authentication(b), |front|)
         == if b.secret.Long1? then Slice([|b.password|] + b.password, 0, 0x81) else b.password
  {
    PasswordShift(front, Authentication(b), 0);
    hide PasswordAt;
    PasswordOfForm(b);
  }

  lemma PasswordOfForm(b: Bind)
    requires Fits(b.secret, |b.password|)
    ensures PasswordAt(Authentication(b), 0)
         == if b.secret.Long1? then Slice([|b.password|] + b.password, 0, 0x81) else b.password
  {
    var data, p := Authentication(b), b.password;
    match b.secret
    case Short =>
      assert Slice(data, 2, 2 + |p|) == p;
    case Long1 =>
      assert data == [SIMPLE, 0x81] + ([|p|] + p);
      SliceShift([SIMPLE, 0x81], [|p|] + p, 0, 0x81);
    case Long2 =>
      assert Slice(data, 2, 4) == Be16(|p|);
      Read16(|p|);
      assert Slice(data, 4, 4 + |p|) == p;
  }

  lemma StraightFields(b: Bind)
    requires Fits(b.secret, |b.password|) && Fits(b.name, |b.username|) && b.name.Short?
    ensures ReadFields(NameLength(b)[0], b.username + Authentication(b)) == Credentials(b.username,
      if b.secret.Long1? then Slice([|b.password|] + b.password, 0, 0x81) else b.password)
  {
    PasswordIsRead(b.username, b);
    assert Authentication(b)[0] == SIMPLE;
    hide Authentication, PasswordAt;
    var tail := b.username + Authentication(b);
    assert NameLength(b)[0] == |b.username| && tail[|b.username|] == SIMPLE;
    assert Slice(tail, 0, |b.username|) == b.username;
  }

  /** What is decoded from a request whose id does not clash and whose user name has a short length. */
  lemma BindIsRead(b: Bind)
    requires Sendable(b) && Straight(b)
    ensures ParsePacket(Encode(b)) == Credentials(b.username,
      if b.secret.Long1? then Slice([|b.password|] + b.password, 0, 0x81) else b.password)
  {
    FieldsOfBind(b);
    StraightFields(b);
    hide Find, ParsePacket, Encode, ReadFields, Authentication;
    assert SkewOf(b).between == [];
    assert [] + (b.username + Authentication(b)) == b.username + Authentication(b);
  }

  /** The one-byte long form is read as a length of 129: right only for 129 bytes that all are 0x81. */
  lemma LongForm(b: Bind)
    requires Sendable(b) && Straight(b) && b.secret.Long1?
    ensures ParsePacket(Encode(b)) == Credentials(b.username, b.password) <==> SecretSurvives(b)
  {
    BindIsRead(b);
    hide ParsePacket, Encode, Sendable, Straight;
    LongSecret(b.password);
  }

  lemma LongSecret(p: bytes)
    requires |p| < 256
    ensures Slice([|p|] + p, 0, 0x81) == p <==> |p| == 0x81 && forall i :: 0 <= i < 0x81 ==> p[i] == 0x81
  {
    var read := Slice([|p|] + p, 0, 0x81);
    if read == p {
      forall i | 0 <= i < 0x81 ensures p[i] == 0x81 { ShiftedByOne(p, i); }
    }
    if |p| == 0x81 && forall i :: 0 <= i < 0x81 ==> p[i] == 0x81 {
      assert read == p;
    }
  }

  lemma {:induction false} ShiftedByOne(p: bytes, i: nat)
    requires i < |p| == 0x81 && p == Slice([0x81] + p, 0, 0x81)
    ensures p[i] == 0x81
  {
    if i > 0 {
      ShiftedByOne(p, i - 1);
      assert p[i] == ([0x81] + p)[i] == p[i - 1];
    }
  }

  /** The user name of any other request survives only without a password, repeating what stands in front of it. */
  predicate SkewSurvives(b: Bind)
    requires Sendable(b)
  {
    b.password == [] && SkewOf(b).between != []
    && |b.username| == SkewOf(b).length && Repeats(b.username, SkewOf(b).between)
  }

  lemma SkewedBind(b: Bind)
    requires Sendable(b) && !Straight(b)
    ensures ParsePacket(Encode(b)) == Credentials(b.username, b.password) <==> SkewSurvives(b)
  {
    FieldsOfBind(b);
    SkewIsNotEmpty(b);
    var s, u, more := SkewOf(b), b.username, Authentication(b);
    hide ParsePacket, Encode, SkewOf, Authentication, Repeats, PasswordAt, Sendable, Straight;
    NameBehindSkew(s.length, s.between, u, more);
    if |u| == s.length && Repeats(u, s.between) { NoPasswordBehindSkew(b); }
  }

  lemma SkewIsNotEmpty(b: Bind)
    requires Sendable(b)
    ensures SkewOf(b).between == [] <==> Straight(b)
  {
    hide Find, BindBody;
  }

  /**
    * Every bind request is decoded exactly if and only if its id does not clash, its user name has a short length
    * and its password survives its form, or it has no password and a user name that repeats the bytes in front of it.
    */
  lemma BindRoundTrip(b: Bind)
    requires Sendable(b)
    ensures ParsePacket(Encode(b)) == Credentials(b.username, b.password)
      <==> if Straight(b) then SecretSurvives(b) else SkewSurvives(b)
  {
    if Straight(b) {
      if b.secret.Long1? { LongForm(b); } else { BindIsRead(b); }
    } else {
      SkewedBind(b);
    }
  }

  lemma {:induction false} RepeatsOne(s: bytes, x: byte, i: nat)
    requires i < |s| && Repeats(s, [x])
    ensures s[i] == x
  {
    assert s[i] == ([x] + s)[i];
    if i > 0 { RepeatsOne(s, x, i - 1); }
  }

  lemma {:induction false} RepeatsTwo(s: bytes, x: byte, y: byte, i: nat)
    requires i < |s| && Repeats(s, [x, y])
    ensures s[i] == if i % 2 == 0 then x else y
  {
    assert s[i] == ([x, y] + s)[i];
    if i > 1 { RepeatsTwo(s, x, y, i - 2); }
  }

  /**
    * When only the long length is at fault: the one-byte form survives for 129 bytes that all are 0x81, the two-byte
    * form for 130 bytes that alternate 0 and 130, and both only without a password.
    */
  lemma LongNames(b: Bind)
    requires Sendable(b) && !Clashes(b.id) && !b.name.Short?
    ensures b.name.Long1? ==> (SkewSurvives(b) <==>
      b.password == [] && |b.username| == 129 && forall i :: 0 <= i < 129 ==> b.username[i] == 0x81)
    ensures b.name.Long2? ==> (SkewSurvives(b) <==>
      b.password == [] && |b.username| == 130
      && forall i :: 0 <= i < 130 ==> b.username[i] == if i % 2 == 0 then 0 else 130)
  {
    var u := b.username;
    hide Sendable, Clashes;
    if b.name.Long1? && |u| == 129 {
      assert SkewOf(b) == Skew(129, [129]);
      if Repeats(u, [129]) {
        forall i | 0 <= i < 129 ensures u[i] == 0x81 { RepeatsOne(u, 129, i); }
      }
    }
    if b.name.Long2? && |u| == 130 {
      assert SkewOf(b) == Skew(130, [0, 130]);
      if Repeats(u, [0, 130]) {
        forall i | 0 <= i < 130 ensures u[i] == if i % 2 == 0 then 0 else 130 { RepeatsTwo(u, 0, 130, i); }
      }
    }
  }

  /** No user name of printable text survives a clash or a long length. */
  lemma PrintableName(b: Bind)
    requires Sendable(b) && forall i :: 0 <= i < |b.username| ==> 0x20 <= b.username[i] < 0x7F
    ensures ParsePacket(Encode(b)) == Credentials(b.username, b.password) <==> Straight(b) && SecretSurvives(b)
  {
    BindRoundTrip(b);
    hide ParsePacket, Encode, SecretSurvives;
    if !Straight(b) && SkewSurvives(b) { SkewIsNotPrintable(b); }
  }

  /** The bytes in front of the user name hold one that is not printable, and a name that repeats them has it too. */
  lemma SkewIsNotPrintable(b: Bind)
    requires Sendable(b) && !Straight(b) && SkewSurvives(b)
    ensures exists i :: 0 <= i < |b.username| && !(0x20 <= b.username[i] < 0x7F)
  {
    var at := UnprintableAt(b);
    hide SkewOf, Sendable;
    assert b.username[at] == (SkewOf(b).between + b.username)[at] == SkewOf(b).between[at];
  }

  lemma UnprintableAt(b: Bind) returns (at: nat)
    requires Sendable(b) && !Straight(b) && |b.username| == SkewOf(b).length
    ensures var s := SkewOf(b); at < |s.between| && at < s.length as int && !(0x20 <= s.between[at] < 0x7F)
  {
    BodyIsLonger(b);
    hide Find, BindBody;
    var s, inner, more := SkewOf(b), Inner(b), VERSION + [0x04] + NameLength(b);
    assert more[0] == 2;
    at := 0;
    if Clashes(b.id) {
      if Left(b.id) == 0 {
        at := |inner| - 1;
        assert s.between[at] == more[0];
      } else {
        at := |inner|;
        assert s.between[at] == more[0];
      }
    } else if b.name.Long1? {
      assert s.between == [129];
    } else {
      assert s.between == [0, 130];
    }
  }

  // ---------- The session ----------

  const FIRST_REPLY: bytes := [0x30, 0x0c, 0x02, 0x01, 0x01, 0x65, 0x07, 0x0a, 0x01, 0x32, 0x04, 0x00, 0x04, 0x00]
  const SECOND_REPLY: bytes := [0x30, 0x0c, 0x02, 0x01, 0x02, 0x65, 0x07, 0x0a, 0x01, 0x32, 0x04, 0x00, 0x04, 0x00]

  /** The state number (0 for None), the credentials checked, the bytes sent and whether the connection was closed. */
  datatype Session = Session(state: nat, checked: seq<Credentials>, sent: seq<bytes>, closed: bool)

  /** The credentials of one message, unless both are empty. */
  function Check(data: bytes): seq<Credentials> {
    var c := ParsePacket(data);
    if c == Credentials([], []) then [] else [c]
  }

  function Receive(s: Session, data: bytes): Session {
    if s.state == 1 then Session(2, s.checked + Check(data), s.sent + [FIRST_REPLY], s.closed)
    else if s.state == 2 then Session(3, s.checked + Check(data), s.sent + [SECOND_REPLY], s.closed)
    else s.(closed := true)
  }

  function ReceiveAll(s: Session, messages: seq<bytes>): Session {
    if messages == [] then s else Receive(ReceiveAll(s, messages[..|messages| - 1]), messages[|messages| - 1])
  }

  const CONNECTED := Session(1, [], [], false)

  class Connection {
    var state: nat
    var checked: seq<Credentials>
    var sent: seq<bytes>
    var closed: bool

    function Now(): Session
      reads this
    {
      Session(state, checked, sent, closed)
    }

    constructor ()
      ensures Now() == CONNECTED
    {
      state, checked, sent, closed := 1, [], [], false;
    }

    method CheckLogin(data: bytes)
      modifies this`checked
      ensures checked == old(checked) + Check(data)
    {
      var c := ParsePacket(data);
      if c.username != [] || c.password != [] { checked := checked + [c]; }
    }

    method DataReceived(data: bytes)
      modifies this
      ensures Now() == Receive(old(Now()), data)
    {
      if state == 1 {
        state := 2;
        CheckLogin(data);
        sent := sent + [FIRST_REPLY];
      } else if state == 2 {
        state := 3;
        CheckLogin(data);
        sent := sent + [SECOND_REPLY];
      } else {
        closed := true;
      }
    }

    method ConnectionLost()
      modifies this`state
      ensures state == 0
    {
      state := 0;
    }
  }

  /** Over every run, only the first two messages are decoded and answered, and the third closes the connection. */
  lemma {:induction false} SessionIsBounded(messages: seq<bytes>)
    ensures var s := ReceiveAll(CONNECTED, messages);
      s.checked == (if |messages| > 0 then Check(messages[0]) else [])
                   + (if |messages| > 1 then Check(messages[1]) else [])
      && s.sent == [FIRST_REPLY, SECOND_REPLY][..if |messages| < 2 then |messages| else 2]
      && (s.closed <==> |messages| > 2)
      && s.state == 1 + if |messages| < 2 then |messages| else 2
  {
    hide Check;
    if messages != [] {
      SessionIsBounded(messages[..|messages| - 1]);
    }
  }

  /** What is checked of a bind that is read right: its credentials, unless it is anonymous. */
  function Expected(b: Bind): seq<Credentials> {
    if b.username == [] && b.password == [] then [] else [Credentials(b.username, b.password)]
  }

  /** Two binds in a row are both decoded, in order, whatever comes after them; an anonymous one is not checked. */
  lemma TwoBinds(a: Bind, b: Bind, rest: seq<bytes>)
    requires Sendable(a) && Straight(a) && SecretSurvives(a)
    requires Sendable(b) && Straight(b) && SecretSurvives(b)
    ensures ReceiveAll(CONNECTED, [Encode(a), Encode(b)] + rest).checked == Expected(a) + Expected(b)
  {
    hide ReceiveAll, ParsePacket, Encode, Sendable, Straight, SecretSurvives, SkewSurvives;
    BindRoundTrip(a);
    BindRoundTrip(b);
    SessionIsBounded([Encode(a), Encode(b)] + rest);
  }

  /** A message without the version field, or with it in front, gives no credentials. */
  lemma NoVersion(data: bytes)
    requires (forall j: nat :: !OccursAt(data, [0x02, 0x01, 0x03], j)) || OccursAt(data, [0x02, 0x01, 0x03], 0)
    ensures ParsePacket(data) == Credentials([], [])
  {
    if OccursAt(data, VERSION, 0) { FindIs(data, VERSION, 0); }
  }

  /** Cut short or with another kind of authentication, a message gives what was read before. */
  lemma CutShort(front: bytes, skipped: byte, length: byte, tail: bytes)
    requires front != []
    requires Find(front + VERSION + [skipped, length] + tail, VERSION) == Some(|front|)
    requires |tail| <= length as int || tail[length] != 0x80
             || (|tail| == 1 + length as int)
             || (tail[length as int + 1] == 0x82 && |tail| < length as int + 4)
    ensures ParsePacket(front + VERSION + [skipped, length] + tail) == Credentials(Slice(tail, 0, length), [])
  {
    FieldsBehindMatch(front, skipped, length, tail);
    hide ParsePacket, Find;
  }

  /** A result message as section 4.1.9 of RFC 4511 has it, without matched name and diagnostics. */
  function Result(id: byte, operation: byte, code: byte): bytes {
    var body: bytes := [0x0a, 1, code] + [0x04, 0] + [0x04, 0];
    [0x30, 5 + |body|] + [0x02, 1, id] + [operation, |body|] + body
  }

  /** The answers are result 50, insufficient access rights, for messages 1 and 2, under the tag of a search result. */
  lemma AnswersAre(messages: seq<bytes>)
    ensures var sent := ReceiveAll(CONNECTED, messages).sent;
      sent == if messages == [] then []
              else if |messages| == 1 then [Result(1, 0x65, 50)]
              else [Result(1, 0x65, 50), Result(2, 0x65, 50)]
  {
    SessionIsBounded(messages);
    RepliesAre();
    hide ReceiveAll, Result, FIRST_REPLY, SECOND_REPLY;
  }

  lemma RepliesAre()
    ensures FIRST_REPLY == Result(1, 0x65, 50) && SECOND_REPLY == Result(2, 0x65, 50)
  {
  }
}
