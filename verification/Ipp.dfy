/** The IPP request decoder and the reply encoder. */
module Ipp {
  import opened Prelude

  // ---------- Tables ----------

  predicate IsOperation(code: int) { 0x01 <= code <= 0x67 && code != 0x32 }

  predicate IsGroupTag(tag: int) { 0x00 <= tag <= 0x0A }

  const INTEGER := 0x21
  const BOOLEAN := 0x22

  predicate IsSyntax(tag: int) {
    0x20 <= tag <= 0x23 || 0x30 <= tag <= 0x37 || 0x40 <= tag <= 0x4A || tag == 0x7F
  }

  // ---------- Fixed-width readers: None is struct.error ----------

  /** One byte is unpacked as a signed integer. */
  function Signed(b: byte): int { if b < 128 then b else b - 256 }

  function GetUint8(index: nat, data: bytes): Option<int> {
    var s := Slice(data, index, index + 1);
    if |s| == 1 then Some(Signed(s[0])) else None
  }

  function GetUint16(index: nat, data: bytes): Option<nat> {
    var s := Slice(data, index, index + 2);
    if |s| == 2 then Some(FromBe16(s)) else None
  }

  function GetUint32(index: nat, data: bytes): Option<nat> {
    var s := Slice(data, index, index + 4);
    if |s| == 4 then Some(FromBe32(s)) else None
  }

  /** A string read never fails: past the end of the data it is cut short. */
  function GetString(index: nat, length: nat, data: bytes): bytes {
    Slice(data, index, index + length)
  }

  datatype Counted = Counted(raw: bytes, next: nat)

  /** A two-byte length and then the string. */
  function GetCounted(index: nat, data: bytes): (r: Option<Counted>)
    ensures r.Some? ==> r.value.next > index
  {
    match GetUint16(index, data)
    case None => None
    case Some(n) => Some(Counted(GetString(index + 2, n, data), index + 2 + n))
  }

  // ---------- Attributes ----------

  /** An attribute name or value before it is rendered as text. */
  datatype Field = Text(raw: bytes) | Number(n: int)

  datatype Attribute = Attribute(name: Field, values: seq<Field>)

  /** What one pass of the loop reads, and the index after it. */
  datatype Body = Body(name: Field, value: Field, next: nat)

  /** The body that follows a value tag; None for the errors the loop catches. */
  function ReadBody(data: bytes, index: nat, tag: int): (r: Option<Body>)
    ensures r.Some? ==> r.value.next > index
  {
    if !IsSyntax(tag) then None
    else if tag == INTEGER then
      match GetUint32(index, data)
      case None => None
      case Some(n) => Some(Body(Number(n), Text([]), index + 4))
    else if tag == BOOLEAN then
      match GetUint8(index, data)
      case None => None
      case Some(n) => Some(Body(Number(n), Text([]), index + 1))
    else
      match GetCounted(index, data)
      case None => None
      case Some(name) =>
        match GetCounted(name.next, data)
        case None => None
        case Some(value) => Some(Body(Text(name.raw), Text(value.raw), value.next))
  }

  /** An empty name adds a value to the last attribute, which must exist. */
  function Add(groups: seq<Attribute>, name: Field, value: Field): Option<seq<Attribute>> {
    if name != Text([]) then Some(groups + [Attribute(name, [value])])
    else if groups == [] then None
    else
      var last := groups[|groups| - 1];
      Some(groups[..|groups| - 1] + [last.(values := last.values + [value])])
  }

  /** A body that was read, between the value tag before it and the tag byte after it. */
  datatype Record = Record(tag: int, name: Field, value: Field, following: int)

  /** The attributes found, whether parsing succeeded, the complete records read and where reading stopped. */
  datatype Outcome = Outcome(groups: seq<Attribute>, ok: bool, records: seq<Record>, end: nat)

  /** One pass of the loop: an error with the attributes so far, or a complete record. */
  datatype Pass = Failed(groups: seq<Attribute>, at: nat) | Read(groups: seq<Attribute>, record: Record, next: nat)

  function OnePass(data: bytes, index: nat, tag: int, groups: seq<Attribute>): (r: Pass)
    ensures r.Read? ==> r.next > index
  {
    match ReadBody(data, index, tag)
    case None => Failed(groups, index)
    case Some(body) =>
      match Add(groups, body.name, body.value)
      case None => Failed(groups, body.next)
      case Some(more) =>
        match GetUint8(body.next, data)
        case None => Failed(more, body.next)
        case Some(following) => Read(more, Record(tag, body.name, body.value, following), body.next + 1)
  }

  /** The attribute loop as a recursive function. */
  function Scan(data: bytes, limit: nat, index: nat, tag: int, groups: seq<Attribute>): (r: Outcome)
    decreases if index < limit then limit - index else 0
  {
    if index >= limit then Outcome(groups, true, [], index)
    else
      match OnePass(data, index, tag, groups)
      case Failed(more, at) => Outcome(more, false, [], at)
      case Read(more, record, next) =>
        if IsGroupTag(record.following) then Outcome(more, true, [record], next)
        else
          var rest := Scan(data, limit, next, record.following, more);
          rest.(records := [record] + rest.records)
  }

  /** `_parse_attributes`: the bound is the number of bytes after the start index, not the length of the data. */
  function Parse(data: bytes, index: nat, tag: int): Outcome {
    Scan(data, |Drop(data, index)|, index, tag, [])
  }

  predicate SameResult(a: Outcome, b: Outcome) { a.groups == b.groups && a.ok == b.ok }

  method ParseAttributes(data: bytes, start: nat, startTag: int) returns (groups: seq<Attribute>, ok: bool)
    ensures groups == Parse(data, start, startTag).groups
    ensures ok == Parse(data, start, startTag).ok
  {
    var index, tag := start, startTag;
    groups, ok := [], true;
    hide ReadBody, Add, GetUint8, IsGroupTag;
    var limit := |Drop(data, start)|;
    ghost var goal := Parse(data, start, startTag);
    while index < limit
      invariant ok
      invariant SameResult(Scan(data, limit, index, tag, groups), goal)
    {
      var body := ReadBody(data, index, tag);
      if body == None { return groups, false; }
      index := body.value.next;
      var more := Add(groups, body.value.name, body.value.value);
      if more == None { return groups, false; }
      groups := more.value;
      var following := GetUint8(index, data);
      if following == None { return groups, false; }
      index, tag := index + 1, following.value;
      if IsGroupTag(tag) { break; }
    }
  }

  // ---------- Soundness on every byte string ----------

  /** The bytes of a body, by the rules the decoder reads with. */
  ghost predicate EncodesBody(s: bytes, tag: int, name: Field, value: Field) {
    IsSyntax(tag) &&
    if tag == INTEGER then |s| == 4 && value == Text([]) && name == Number(FromBe32(s))
    else if tag == BOOLEAN then |s| == 1 && value == Text([]) && name == Number(Signed(s[0]))
    else
      && name.Text? && value.Text?
      && |name.raw| < 0x1_0000 && |value.raw| < 0x1_0000
      && s == Be16(|name.raw|) + name.raw + Be16(|value.raw|) + value.raw
  }

  /** `s` is the records in order, each body followed by its tag byte, and the tags chain. */
  ghost predicate EncodesRecords(s: bytes, tag: int, records: seq<Record>) {
    if records == [] then s == []
    else
      var r := records[0];
      r.tag == tag &&
      exists n: nat | n < |s| :: EncodesBody(s[..n], tag, r.name, r.value) && Signed(s[n]) == r.following
                              && EncodesRecords(s[n + 1..], r.following, records[1..])
  }

  /** The attributes a list of records stands for, added to those already there; None if a value has no attribute. */
  function Fold(groups: seq<Attribute>, fields: seq<(Field, Field)>): (r: Option<seq<Attribute>>)
    decreases |fields|
  {
    if fields == [] then Some(groups)
    else
      match Add(groups, fields[0].0, fields[0].1)
      case None => None
      case Some(more) => Fold(more, fields[1..])
  }

  function FieldsOf(records: seq<Record>): (r: seq<(Field, Field)>)
    ensures |r| == |records|
    ensures forall i :: 0 <= i < |r| ==> r[i] == (records[i].name, records[i].value)
  {
    seq(|records|, i requires 0 <= i < |records| => (records[i].name, records[i].value))
  }

  /** A counted string that ends inside the data was not cut short. */
  lemma CountedIsWhole(data: bytes, index: nat)
    requires GetCounted(index, data).Some? && GetCounted(index, data).value.next <= |data|
    ensures var c := GetCounted(index, data).value;
      |c.raw| < 0x1_0000 && c.next == index + 2 + |c.raw|
      && data[index..c.next] == Be16(|c.raw|) + c.raw
  {
    var c := GetCounted(index, data).value;
    assert Slice(data, index, index + 2) == data[index..index + 2];
    assert c.raw == data[index + 2..c.next];
  }

  lemma CountedOfString(pre: bytes, s: bytes, post: bytes)
    requires |s| < 0x1_0000
    ensures GetCounted(|pre|, pre + (Be16(|s|) + s) + post) == Some(Counted(s, |pre| + 2 + |s|))
  {
    var data := pre + (Be16(|s|) + s) + post;
    assert Slice(data, |pre|, |pre| + 2) == Be16(|s|);
    assert Slice(data, |pre| + 2, |pre| + 2 + |s|) == s;
    Read16(|s|);
  }

  /** A body whose strings run past the end is noticed by the read of the next tag. */
  lemma BodyIsWhole(data: bytes, index: nat, tag: int)
    requires ReadBody(data, index, tag).Some?
    requires ReadBody(data, index, tag).value.next < |data|
    ensures var b := ReadBody(data, index, tag).value;
      EncodesBody(data[index..b.next], tag, b.name, b.value)
  {
    var b := ReadBody(data, index, tag).value;
    var s := data[index..b.next];
    if tag == INTEGER {
      assert s == Slice(data, index, index + 4);
    } else if tag != BOOLEAN {
      hide GetCounted;
      CountedIsWhole(data, index);
      var at := GetCounted(index, data).value.next;
      CountedIsWhole(data, at);
      assert s == data[index..at] + data[at..b.next];
    }
  }

  /** A complete pass read a whole body and then the tag byte. */
  lemma PassIsWhole(data: bytes, index: nat, tag: int, groups: seq<Attribute>)
    requires OnePass(data, index, tag, groups).Read?
    ensures var r := OnePass(data, index, tag, groups);
      r.next <= |data| && r.record.tag == tag
      && EncodesBody(data[index..r.next - 1], tag, r.record.name, r.record.value)
      && Signed(data[r.next - 1]) == r.record.following
      && Add(groups, r.record.name, r.record.value) == Some(r.groups)
  {
    BodyIsWhole(data, index, tag);
  }

  lemma RecordsCons(s: bytes, n: nat, tag: int, record: Record, rest: seq<Record>)
    requires n < |s| && record.tag == tag && EncodesBody(s[..n], tag, record.name, record.value)
    requires Signed(s[n]) == record.following && EncodesRecords(s[n + 1..], record.following, rest)
    ensures EncodesRecords(s, tag, [record] + rest)
  {
    assert ([record] + rest)[1..] == rest;
  }

  lemma FoldCons(groups: seq<Attribute>, record: Record, rest: seq<Record>)
    requires Add(groups, record.name, record.value).Some?
    ensures Fold(groups, FieldsOf([record] + rest))
         == Fold(Add(groups, record.name, record.value).value, FieldsOf(rest))
  {
    assert FieldsOf([record] + rest)[1..] == FieldsOf(rest);
  }

  /** The bytes of a record, its body and the tag behind it. */
  function Extent(r: Record): nat {
    if r.tag == INTEGER then 5
    else if r.tag == BOOLEAN then 2
    else if r.name.Text? && r.value.Text? then 5 + |r.name.raw| + |r.value.raw|
    else 0
  }

  lemma BodyExtent(s: bytes, r: Record)
    requires EncodesBody(s, r.tag, r.name, r.value)
    ensures Extent(r) == |s| + 1
  {
  }

  /**
    * Where reading stops: at once when it starts behind the bound, and otherwise with the first record that is
    * followed by a group tag or ends behind the bound.
    */
  predicate Stops(records: seq<Record>, index: nat, end: nat, limit: nat) {
    if records == [] then index >= limit && end == index
    else
      var last := records[|records| - 1];
      (IsGroupTag(last.following) || end >= limit) && end - Extent(last) < limit
      && forall i :: 0 <= i < |records| - 1 ==> !IsGroupTag(records[i].following)
  }

  lemma StopsCons(record: Record, rest: seq<Record>, index: nat, end: nat, limit: nat)
    requires index < limit
    requires if IsGroupTag(record.following) then rest == [] && end == index + Extent(record)
             else Stops(rest, index + Extent(record), end, limit)
    ensures Stops([record] + rest, index, end, limit)
  {
    hide Extent, IsGroupTag;
    var all := [record] + rest;
    assert forall i :: 0 < i < |all| ==> all[i] == rest[i - 1];
  }

  /** A complete pass in front of a sound rest. */
  lemma SoundStep(data: bytes, index: nat, pass: Pass, groups: seq<Attribute>, end: nat,
                  rest: seq<Record>, total: seq<Attribute>)
    requires pass.Read? && index < pass.next <= end <= |data|
    requires EncodesBody(data[index..pass.next - 1], pass.record.tag, pass.record.name, pass.record.value)
    requires Signed(data[pass.next - 1]) == pass.record.following
    requires Add(groups, pass.record.name, pass.record.value) == Some(pass.groups)
    requires EncodesRecords(data[pass.next..end], pass.record.following, rest)
    requires Fold(pass.groups, FieldsOf(rest)) == Some(total)
    ensures EncodesRecords(data[index..end], pass.record.tag, [pass.record] + rest)
    ensures Fold(groups, FieldsOf([pass.record] + rest)) == Some(total)
  {
    hide EncodesRecords, Fold, EncodesBody, Signed, Add;
    var s, n := data[index..end], pass.next - 1 - index;
    assert s[..n] == data[index..pass.next - 1];
    assert s[n + 1..] == data[pass.next..end];
    RecordsCons(s, n, pass.record.tag, pass.record, rest);
    FoldCons(groups, pass.record, rest);
  }

  /** The bytes from `index` to `end` are the encoding of records that fold, and reading stops behind them. */
  ghost predicate Explains(data: bytes, limit: nat, index: nat, tag: int, groups: seq<Attribute>,
                           records: seq<Record>, end: nat) {
    index <= end <= |data| && EncodesRecords(data[index..end], tag, records)
    && Fold(groups, FieldsOf(records)).Some? && Stops(records, index, end, limit)
  }

  lemma NothingToRead(data: bytes, limit: nat, index: nat, tag: int, groups: seq<Attribute>)
    requires limit <= index <= |data|
    ensures Explains(data, limit, index, tag, groups, [], index) && Fold(groups, FieldsOf([])) == Some(groups)
  {
    assert data[index..index] == [];
  }

  /**
    * A run that ends in success consumed exactly the encoding of the records it read, stopped where it has to, and
    * its attributes are those records folded.
    */
  lemma {:induction false} ScanIsSound(data: bytes, limit: nat, index: nat, tag: int, groups: seq<Attribute>)
    requires limit <= |data| && index <= |data|
    requires Scan(data, limit, index, tag, groups).ok
    ensures var r := Scan(data, limit, index, tag, groups);
      Explains(data, limit, index, tag, groups, r.records, r.end)
      && Fold(groups, FieldsOf(r.records)) == Some(r.groups)
    decreases if index < limit then limit - index else 0
  {
    hide OnePass, IsGroupTag, EncodesBody, EncodesRecords, Fold, Stops, Signed, Extent, Add;
    var r := Scan(data, limit, index, tag, groups);
    if index >= limit {
      NothingToRead(data, limit, index, tag, groups);
    } else {
      PassIsWhole(data, index, tag, groups);
      var pass := OnePass(data, index, tag, groups);
      BodyExtent(data[index..pass.next - 1], pass.record);
      if IsGroupTag(pass.record.following) {
        LastRecord(data, pass.next, pass.record.following, pass.groups);
        assert r.records == [pass.record] + [];
        SoundStep(data, index, pass, groups, r.end, [], r.groups);
        StopsCons(pass.record, [], index, r.end, limit);
      } else {
        ScanIsSound(data, limit, pass.next, pass.record.following, pass.groups);
        var rest := Scan(data, limit, pass.next, pass.record.following, pass.groups);
        SoundStep(data, index, pass, groups, r.end, rest.records, r.groups);
        StopsCons(pass.record, rest.records, index, r.end, limit);
      }
    }
  }

  lemma LastRecord(data: bytes, end: nat, tag: int, groups: seq<Attribute>)
    requires end <= |data|
    ensures EncodesRecords(data[end..end], tag, []) && Fold(groups, FieldsOf([])) == Some(groups)
  {
    assert data[end..end] == [];
  }

  // ---------- Failing runs ----------

  /** The bytes of some records: where the body behind them starts. */
  function Extents(records: seq<Record>): nat {
    if records == [] then 0 else Extent(records[0]) + Extents(records[1..])
  }

  /** The value tag in front of the body behind some records. */
  function TagBehind(records: seq<Record>, tag: int): int {
    if records == [] then tag else records[|records| - 1].following
  }

  /** The number in two bytes. */
  function LengthAt(data: bytes, at: nat): nat
    requires at + 2 <= |data|
  {
    (data[at] as int) * 256 + data[at + 1]
  }

  /** No body of this tag starts here: the tag is no value tag, or a number or a length is cut short. */
  predicate NoBody(data: bytes, at: nat, tag: int) {
    if !IsSyntax(tag) then true
    else if tag == 0x21 then |data| < at + 4
    else if tag == 0x22 then |data| < at + 1
    else |data| < at + 2 || |data| < at + 2 + LengthAt(data, at) + 2
  }

  /** The body that starts here, its strings cut short where the data ends, and the index behind it. */
  ghost predicate BodyAt(data: bytes, at: nat, tag: int, name: Field, value: Field, next: nat) {
    IsSyntax(tag) &&
    if tag == 0x21 then next == at + 4 <= |data| && EncodesBody(data[at..next], tag, name, value)
    else if tag == 0x22 then next == at + 1 <= |data| && EncodesBody(data[at..next], tag, name, value)
    else
      at + 2 <= |data|
      && var middle := at + 2 + LengthAt(data, at);
      middle + 2 <= |data|
      && name == Text(data[at + 2..middle]) && next == middle + 2 + LengthAt(data, middle)
      && value == Text(Slice(data, middle + 2, next))
  }

  lemma SliceOfTwo(data: bytes, at: nat)
    ensures at + 2 <= |data| ==> GetUint16(at, data) == Some(LengthAt(data, at))
    ensures |data| < at + 2 ==> GetUint16(at, data) == None
  {
    if at + 2 <= |data| { assert Slice(data, at, at + 2) == data[at..at + 2]; }
  }

  lemma FixedBodyAt(data: bytes, at: nat, tag: int)
    requires tag == INTEGER || tag == BOOLEAN
    ensures match ReadBody(data, at, tag)
      case None => NoBody(data, at, tag)
      case Some(b) => BodyAt(data, at, tag, b.name, b.value, b.next)
  {
    var n := if tag == INTEGER then 4 else 1;
    if at + n <= |data| { assert Slice(data, at, at + n) == data[at..at + n]; }
  }

  /** Reading a body gives it, or there is none. */
  lemma ReadBodyAt(data: bytes, at: nat, tag: int)
    ensures match ReadBody(data, at, tag)
      case None => NoBody(data, at, tag)
      case Some(b) => BodyAt(data, at, tag, b.name, b.value, b.next)
  {
    if tag == INTEGER || tag == BOOLEAN {
      FixedBodyAt(data, at, tag);
    } else if IsSyntax(tag) {
      SliceOfTwo(data, at);
      hide GetUint16;
      if at + 2 <= |data| {
        var middle := at + 2 + LengthAt(data, at);
        SliceOfTwo(data, middle);
        if middle <= |data| { assert Slice(data, at + 2, middle) == data[at + 2..middle]; }
      }
    }
  }

  /**
    * What a failing run has read: complete records from its start on, none of them followed by a group tag, and then,
    * still in front of the bound, no body, a value without an attribute to add it to, or a body with no tag behind it.
    * Its attributes are the records folded, with that last body in the third case.
    */
  ghost predicate Fails(data: bytes, limit: nat, index: nat, tag: int, groups: seq<Attribute>,
                        records: seq<Record>, total: seq<Attribute>)
  {
    var at, next := index + Extents(records), TagBehind(records, tag);
    var known := Fold(groups, FieldsOf(records));
    at <= |data| && at < limit && EncodesRecords(data[index..at], tag, records) && known.Some?
    && NoGroupTag(records) && FailsAt(data, at, next, known.value, total)
  }

  ghost predicate FailsAt(data: bytes, at: nat, tag: int, known: seq<Attribute>, total: seq<Attribute>) {
    (NoBody(data, at, tag) && total == known)
    || exists name, value, end: nat ::
         BodyAt(data, at, tag, name, value, end) && FailsBehind(data, known, name, value, end, total)
  }

  predicate FailsBehind(data: bytes, known: seq<Attribute>, name: Field, value: Field, end: nat,
                        total: seq<Attribute>)
  {
    if name == Text([]) && known == [] then total == []
    else
      end >= |data|
      && if name == Text([]) then
           total == known[..|known| - 1]
                    + [Attribute(known[|known| - 1].name, known[|known| - 1].values + [value])]
         else total == known + [Attribute(name, [value])]
  }

  lemma FailedPass(data: bytes, limit: nat, index: nat, tag: int, groups: seq<Attribute>)
    requires index < limit && index <= |data| && OnePass(data, index, tag, groups).Failed?
    ensures Fails(data, limit, index, tag, groups, [], OnePass(data, index, tag, groups).groups)
  {
    LastRecord(data, index, tag, groups);
    ReadBodyAt(data, index, tag);
    assert index + Extents([]) == index && FieldsOf([]) == [];
    var body := ReadBody(data, index, tag);
    if body.Some? {
      hide BodyAt, ReadBody, NoBody;
      assert FailsBehind(data, groups, body.value.name, body.value.value, body.value.next,
                         OnePass(data, index, tag, groups).groups);
    }
  }

  lemma FailsCons(data: bytes, limit: nat, index: nat, pass: Pass, groups: seq<Attribute>,
                  rest: seq<Record>, total: seq<Attribute>)
    requires pass.Read? && index < pass.next <= |data| && !IsGroupTag(pass.record.following)
    requires EncodesBody(data[index..pass.next - 1], pass.record.tag, pass.record.name, pass.record.value)
    requires Signed(data[pass.next - 1]) == pass.record.following
    requires Add(groups, pass.record.name, pass.record.value) == Some(pass.groups)
    requires Fails(data, limit, pass.next, pass.record.following, pass.groups, rest, total)
    ensures Fails(data, limit, index, pass.record.tag, groups, [pass.record] + rest, total)
  {
    BodyExtent(data[index..pass.next - 1], pass.record);
    RecordInFront(pass.record, rest, pass.record.tag);
    hide EncodesBody, EncodesRecords, Fold, FailsAt, Add, Signed, Extent, Extents, FieldsOf, TagBehind, NoGroupTag,
      IsGroupTag;
    var all, at := [pass.record] + rest, pass.next + Extents(rest);
    var known := Fold(pass.groups, FieldsOf(rest)).value;
    SoundStep(data, index, pass, groups, at, rest, known);
    assert index + Extents(all) == at;
    hide Fails;
    FailsIs(data, limit, index, pass.record.tag, groups, all, known, total);
  }

  lemma FailsIs(data: bytes, limit: nat, index: nat, tag: int, groups: seq<Attribute>,
                records: seq<Record>, known: seq<Attribute>, total: seq<Attribute>)
    requires var at := index + Extents(records);
      at <= |data| && at < limit && EncodesRecords(data[index..at], tag, records)
      && FailsAt(data, at, TagBehind(records, tag), known, total)
    requires Fold(groups, FieldsOf(records)) == Some(known) && NoGroupTag(records)
    ensures Fails(data, limit, index, tag, groups, records, total)
  {
    hide EncodesRecords, Fold, FailsAt, Extents, FieldsOf, TagBehind, NoGroupTag;
  }

  predicate NoGroupTag(records: seq<Record>) {
    forall i :: 0 <= i < |records| ==> !IsGroupTag(records[i].following)
  }

  lemma RecordInFront(record: Record, rest: seq<Record>, tag: int)
    ensures var all := [record] + rest;
      Extents(all) == Extent(record) + Extents(rest) && TagBehind(all, tag) == TagBehind(rest, record.following)
      && (NoGroupTag(all) <==> !IsGroupTag(record.following) && NoGroupTag(rest))
  {
    hide Extent, IsGroupTag;
    var all := [record] + rest;
    assert all[1..] == rest;
    assert forall i :: 0 <= i < |rest| ==> all[i + 1] == rest[i];
    assert all[0] == record;
  }

  /** Every failing run is explained by what it has read, and keeps the attributes of that. */
  lemma {:induction false} FailedScanIsSound(data: bytes, limit: nat, index: nat, tag: int, groups: seq<Attribute>)
    requires limit <= |data| && index <= |data|
    requires !Scan(data, limit, index, tag, groups).ok
    ensures var r := Scan(data, limit, index, tag, groups);
      Fails(data, limit, index, tag, groups, r.records, r.groups)
    decreases if index < limit then limit - index else 0
  {
    hide OnePass, IsGroupTag, EncodesBody, Fails, Signed, Add;
    var pass := OnePass(data, index, tag, groups);
    if pass.Failed? {
      FailedPass(data, limit, index, tag, groups);
    } else {
      PassIsWhole(data, index, tag, groups);
      FailedScanIsSound(data, limit, pass.next, pass.record.following, pass.groups);
      var rest := Scan(data, limit, pass.next, pass.record.following, pass.groups);
      FailsCons(data, limit, index, pass, groups, rest.records, rest.groups);
    }
  }

  // ---------- Completeness on every byte string ----------

  lemma IntegerIsRead(data: bytes, index: nat, end: nat, tag: int, name: Field, value: Field)
    requires index <= end <= |data| && EncodesBody(data[index..end], tag, name, value)
    requires tag == INTEGER || tag == BOOLEAN
    ensures ReadBody(data, index, tag) == Some(Body(name, value, end))
  {
    assert Slice(data, index, end) == data[index..end];
  }

  lemma StringsAreRead(data: bytes, index: nat, end: nat, name: bytes, value: bytes)
    requires index <= end <= |data| && |name| < 0x1_0000 && |value| < 0x1_0000
    requires data[index..end] == Be16(|name|) + name + Be16(|value|) + value
    ensures var middle := index + 2 + |name|;
      GetCounted(index, data) == Some(Counted(name, middle)) && GetCounted(middle, data) == Some(Counted(value, end))
  {
    hide GetCounted, Be16;
    var a, b := Be16(|name|) + name, Be16(|value|) + value;
    var pre, post := data[..index], data[end..];
    assert data[index..end] == a + b;
    assert data == pre + data[index..end] + post;
    assert data == pre + a + (b + post);
    assert data == (pre + a) + b + post;
    CountedOfString(pre, name, b + post);
    CountedOfString(pre + a, value, post);
    assert |pre| == index && |a| == 2 + |name| && |b| == 2 + |value|;
  }

  lemma BodyOfStrings(data: bytes, index: nat, middle: nat, end: nat, tag: int, name: bytes, value: bytes)
    requires IsSyntax(tag) && tag != INTEGER && tag != BOOLEAN
    requires GetCounted(index, data) == Some(Counted(name, middle))
    requires GetCounted(middle, data) == Some(Counted(value, end))
    ensures ReadBody(data, index, tag) == Some(Body(Text(name), Text(value), end))
  {
    hide GetCounted;
  }

  /** A body is read back whole wherever its encoding stands. */
  lemma BodyIsRead(data: bytes, index: nat, end: nat, tag: int, name: Field, value: Field)
    requires index <= end <= |data| && EncodesBody(data[index..end], tag, name, value)
    ensures ReadBody(data, index, tag) == Some(Body(name, value, end))
  {
    hide GetCounted, Be16, ReadBody, IsSyntax;
    if tag == INTEGER || tag == BOOLEAN {
      IntegerIsRead(data, index, end, tag, name, value);
    } else {
      StringsAreRead(data, index, end, name.raw, value.raw);
      BodyOfStrings(data, index, index + 2 + |name.raw|, end, tag, name.raw, value.raw);
    }
  }

  lemma RecordsUncons(s: bytes, tag: int, records: seq<Record>) returns (n: nat)
    requires records != [] && EncodesRecords(s, tag, records)
    ensures records[0].tag == tag && n < |s| && EncodesBody(s[..n], tag, records[0].name, records[0].value)
    ensures Signed(s[n]) == records[0].following && EncodesRecords(s[n + 1..], records[0].following, records[1..])
  {
    hide EncodesBody, Signed;
    var r := records[0];
    n :| n < |s| && EncodesBody(s[..n], tag, r.name, r.value) && Signed(s[n]) == r.following
         && EncodesRecords(s[n + 1..], r.following, records[1..]);
  }

  /** The first of some encoded records, and the rest. */
  lemma FirstRecord(data: bytes, index: nat, tag: int, records: seq<Record>, end: nat) returns (next: nat)
    requires index <= end <= |data| && records != [] && EncodesRecords(data[index..end], tag, records)
    ensures records[0].tag == tag && index < next <= end && next == index + Extent(records[0])
    ensures ReadBody(data, index, tag) == Some(Body(records[0].name, records[0].value, next - 1))
    ensures GetUint8(next - 1, data) == Some(records[0].following)
    ensures EncodesRecords(data[next..end], records[0].following, records[1..])
  {
    hide ReadBody, EncodesBody, Extent, EncodesRecords, Signed;
    var r, s := records[0], data[index..end];
    var n := RecordsUncons(s, tag, records);
    next := index + n + 1;
    assert s[..n] == data[index..next - 1];
    assert s[n + 1..] == data[next..end];
    BodyIsRead(data, index, next - 1, tag, r.name, r.value);
    BodyExtent(s[..n], r);
    assert Slice(data, next - 1, next) == [s[n]];
  }

  lemma FoldHead(groups: seq<Attribute>, records: seq<Record>)
    requires records != [] && Fold(groups, FieldsOf(records)).Some?
    ensures var more := Add(groups, records[0].name, records[0].value);
      more.Some? && Fold(more.value, FieldsOf(records[1..])) == Fold(groups, FieldsOf(records))
  {
    assert FieldsOf(records)[1..] == FieldsOf(records[1..]);
  }

  lemma {:induction false} RecordsExtend(data: bytes, index: nat, tag: int, records: seq<Record>, end: nat)
    requires index <= end <= |data| && EncodesRecords(data[index..end], tag, records)
    ensures records != [] ==> end - Extent(records[|records| - 1]) >= index
    ensures records == [] ==> end == index
    decreases |records|
  {
    hide EncodesBody;
    if records != [] {
      var next := FirstRecord(data, index, tag, records, end);
      hide Extent, EncodesRecords, ReadBody, GetUint8, Signed;
      assert records[1..] != [] ==> records[1..][|records| - 2] == records[|records| - 1];
      RecordsExtend(data, next, records[0].following, records[1..], end);
    }
  }

  lemma StopsTail(records: seq<Record>, index: nat, next: nat, end: nat, limit: nat)
    requires records != [] && Stops(records, index, end, limit)
    requires |records| > 1 ==> next <= end - Extent(records[|records| - 1])
    requires |records| == 1 ==> next == end && index == end - Extent(records[0])
    requires index < next
    ensures index < limit
    ensures if IsGroupTag(records[0].following) then |records| == 1 && end == next
            else Stops(records[1..], next, end, limit)
  {
    hide Extent, IsGroupTag;
    var rest := records[1..];
    assert forall i :: 0 <= i < |rest| ==> rest[i] == records[i + 1];
  }

  /** Every explanation of the bytes is the one that the loop finds. */
  lemma {:induction false} ExplainedSucceeds(data: bytes, limit: nat, index: nat, tag: int, groups: seq<Attribute>,
                                             records: seq<Record>, end: nat)
    requires Explains(data, limit, index, tag, groups, records, end)
    ensures var r := Scan(data, limit, index, tag, groups); r.ok && r.records == records && r.end == end
    decreases |records|
  {
    hide EncodesRecords, Fold, Extent, IsGroupTag, ReadBody, GetUint8, Add;
    if records != [] {
      var first, rest := records[0], records[1..];
      var next := FirstRecord(data, index, tag, records, end);
      FoldHead(groups, records);
      var more := Add(groups, first.name, first.value).value;
      RecordsExtend(data, next, first.following, rest, end);
      StopsTail(records, index, next, end, limit);
      assert records == [first] + rest;
      hide Stops;
      assert OnePass(data, index, tag, groups) == Read(more, first, next);
      if !IsGroupTag(first.following) {
        ExplainedSucceeds(data, limit, next, first.following, more, rest, end);
      }
    }
  }

  ghost predicate Explained(data: bytes, limit: nat, index: nat, tag: int, groups: seq<Attribute>) {
    exists records, end: nat :: Explains(data, limit, index, tag, groups, records, end)
  }

  /**
    * For all tags and all bytes, the loop ends in success if and only if the bytes start with the encoding of records
    * that fold and stop in time.
    */
  lemma ScanSucceedsExactly(data: bytes, limit: nat, index: nat, tag: int, groups: seq<Attribute>)
    requires limit <= |data| && index <= |data|
    ensures Scan(data, limit, index, tag, groups).ok <==> Explained(data, limit, index, tag, groups)
  {
    hide Scan, Explains;
    if Scan(data, limit, index, tag, groups).ok { ScanIsSound(data, limit, index, tag, groups); }
    if records, end: nat :| Explains(data, limit, index, tag, groups, records, end) {
      ExplainedSucceeds(data, limit, index, tag, groups, records, end);
    }
  }

  // ---------- Round trip ----------

  /** A record as section 3.1.4 and 3.1.5 of RFC 8010 put it on the wire, for string syntaxes. */
  datatype RawItem = Item(tag: byte, name: bytes, value: bytes)

  type Item = r: RawItem
    | IsSyntax(r.tag) && r.tag != INTEGER && r.tag != BOOLEAN && |r.name| < 0x1_0000 && |r.value| < 0x1_0000
    witness Item(0x44, [], [])

  function ItemBody(r: Item): (s: bytes)
  {
    Be16(|r.name|) + r.name + Be16(|r.value|) + r.value
  }

  function Wire(items: seq<Item>, delimiter: byte): (s: bytes)
    ensures s != []
    ensures items != [] ==> s[0] == items[0].tag
  {
    if items == [] then [delimiter]
    else [items[0].tag] + ItemBody(items[0]) + Wire(items[1..], delimiter)
  }

  function ItemFields(items: seq<Item>): (r: seq<(Field, Field)>)
    ensures |r| == |items|
    ensures forall i :: 0 <= i < |r| ==> r[i] == (Text(items[i].name), Text(items[i].value))
  {
    seq(|items|, i requires 0 <= i < |items| => (Text(items[i].name), Text(items[i].value)))
  }

  /** Where the body of item `i` starts when the body of item 0 starts at `start`. */
  function BodyStart(items: seq<Item>, start: nat, i: nat): nat
    requires i < |items|
  {
    if i == 0 then start
    else BodyStart(items, start, i - 1) + 5 + |items[i - 1].name| + |items[i - 1].value|
  }

  /** How many leading items have a body that starts before `limit`. */
  function Started(items: seq<Item>, start: nat, limit: nat): (k: nat)
    ensures k <= |items|
  {
    if items == [] || start >= limit then 0
    else 1 + Started(items[1..], start + 5 + |items[0].name| + |items[0].value|, limit)
  }

  lemma {:induction false} BodyStartTail(items: seq<Item>, start: nat, i: nat)
    requires i + 1 < |items|
    ensures BodyStart(items, start, i + 1)
         == BodyStart(items[1..], start + 5 + |items[0].name| + |items[0].value|, i)
  {
    if i > 0 { BodyStartTail(items, start, i - 1); }
  }

  /** The items counted are exactly those whose body starts before the limit. */
  lemma {:induction false} StartedIsExact(items: seq<Item>, start: nat, limit: nat, i: nat)
    requires i < |items|
    ensures i < Started(items, start, limit) <==> BodyStart(items, start, i) < limit
    decreases i
  {
    if i > 0 {
      BodyStartTail(items, start, i - 1);
      StartedIsExact(items[1..], start + 5 + |items[0].name| + |items[0].value|, limit, i - 1);
      if start >= limit { BodyStartGrows(items, start, i); }
    }
  }

  lemma {:induction false} BodyStartGrows(items: seq<Item>, start: nat, i: nat)
    requires i < |items|
    ensures start <= BodyStart(items, start, i)
  {
    if i > 0 { BodyStartGrows(items, start, i - 1); }
  }

  /** One item is read back whole, whatever stands around it. */
  lemma ReadBodyOfItem(pre: bytes, r: Item, post: bytes)
    ensures ReadBody(pre + ItemBody(r) + post, |pre|, r.tag)
         == Some(Body(Text(r.name), Text(r.value), |pre| + |ItemBody(r)|))
  {
    hide GetCounted, Be16;
    var name, value := Be16(|r.name|) + r.name, Be16(|r.value|) + r.value;
    CountedOfString(pre, r.name, value + post);
    CountedOfString(pre + name, r.value, post);
    assert pre + ItemBody(r) + post == pre + name + (value + post) == (pre + name) + value + post;
    assert |name| == 2 + |r.name| && |value| == 2 + |r.value|;
  }

  /** One pass over an encoded item. */
  lemma PassOfItem(pre: bytes, r: Item, following: byte, post: bytes, groups: seq<Attribute>)
    requires groups != [] || r.name != []
    ensures OnePass(pre + ItemBody(r) + ([following] + post), |pre|, r.tag, groups)
         == Read(Add(groups, Text(r.name), Text(r.value)).value,
                 Record(r.tag, Text(r.name), Text(r.value), Signed(following)), |pre| + |ItemBody(r)| + 1)
  {
    ReadBodyOfItem(pre, r, [following] + post);
  }

  lemma AddNamed(groups: seq<Attribute>, name: bytes, value: bytes)
    requires groups != [] || name != []
    ensures var r := Add(groups, Text(name), Text(value)); r.Some? && r.value != []
  {
  }

  lemma TagIsPlain(r: Item)
    ensures Signed(r.tag) == r.tag && !IsGroupTag(r.tag)
  {
  }

  lemma ItemFieldsCons(items: seq<Item>, k: nat)
    requires 0 < k <= |items|
    ensures ItemFields(items[..k]) == [(Text(items[0].name), Text(items[0].value))] + ItemFields(items[1..][..k - 1])
  {
  }

  lemma FoldOfCons(groups: seq<Attribute>, name: Field, value: Field, rest: seq<(Field, Field)>)
    requires Add(groups, name, value).Some?
    ensures Fold(groups, [(name, value)] + rest) == Fold(Add(groups, name, value).value, rest)
  {
    assert ([(name, value)] + rest)[1..] == rest;
  }

  lemma ScanStops(data: bytes, limit: nat, index: nat, tag: int, groups: seq<Attribute>)
    requires index >= limit
    ensures Scan(data, limit, index, tag, groups) == Outcome(groups, true, [], index)
  {
  }

  lemma ScanReads(data: bytes, limit: nat, index: nat, tag: int, groups: seq<Attribute>)
    requires index < limit && OnePass(data, index, tag, groups).Read?
    ensures var pass := OnePass(data, index, tag, groups);
      SameResult(Scan(data, limit, index, tag, groups),
                 if IsGroupTag(pass.record.following) then Outcome(pass.groups, true, [], 0)
                 else Scan(data, limit, pass.next, pass.record.following, pass.groups))
  {
    hide OnePass, IsGroupTag;
  }

  lemma WireNil(delimiter: byte)
    ensures Wire([], delimiter) == [delimiter]
  {
  }

  lemma WireCons(items: seq<Item>, delimiter: byte)
    requires items != []
    ensures Wire(items, delimiter) == [items[0].tag] + ItemBody(items[0]) + Wire(items[1..], delimiter)
  {
  }

  /** Scanning encoded items gives exactly those whose body starts before the limit, folded in order. */
  lemma {:induction false} ScanOfWire(pre: bytes, items: seq<Item>, delimiter: byte, post: bytes,
                                      limit: nat, groups: seq<Attribute>)
    requires items != [] && IsGroupTag(delimiter)
    requires groups != [] || items[0].name != []
    ensures var r := Scan(pre + Wire(items, delimiter) + post, limit, |pre| + 1, items[0].tag, groups);
      r.ok && Fold(groups, ItemFields(items[..Started(items, |pre| + 1, limit)])) == Some(r.groups)
    decreases |items|
  {
    hide Scan, OnePass, Wire, IsSyntax, Add;
    var data := pre + Wire(items, delimiter) + post;
    var k := Started(items, |pre| + 1, limit);
    if |pre| + 1 < limit {
      var r, rest := items[0], items[1..];
      var head, tail := pre + [r.tag], Wire(rest, delimiter);
      WireCons(items, delimiter);
      assert data == head + ItemBody(r) + ([tail[0]] + (tail[1..] + post));
      PassOfItem(head, r, tail[0], tail[1..] + post, groups);
      ScanReads(data, limit, |pre| + 1, r.tag, groups);
      AddNamed(groups, r.name, r.value);
      var more := Add(groups, Text(r.name), Text(r.value)).value;
      ItemFieldsCons(items, k);
      FoldOfCons(groups, Text(r.name), Text(r.value), ItemFields(rest[..k - 1]));
      if rest == [] {
        assert ItemFields(rest[..k - 1]) == [];
        WireNil(delimiter);
      } else {
        TagIsPlain(rest[0]);
        assert data == (head + ItemBody(r)) + tail + post;
        ScanOfWire(head + ItemBody(r), rest, delimiter, post, limit, more);
      }
    } else {
      ScanStops(data, limit, |pre| + 1, items[0].tag, groups);
      assert ItemFields(items[..k]) == [];
    }
  }

  /** The number of values over all attributes. */
  function Values(groups: seq<Attribute>): nat {
    if groups == [] then 0 else Values(groups[..|groups| - 1]) + |groups[|groups| - 1].values|
  }

  lemma {:induction false} FoldKeepsCount(groups: seq<Attribute>, fields: seq<(Field, Field)>)
    requires Fold(groups, fields).Some?
    ensures Values(Fold(groups, fields).value) == Values(groups) + |fields|
    decreases |fields|
  {
    if fields != [] {
      var more := Add(groups, fields[0].0, fields[0].1).value;
      assert more[..|more| - 1] == groups || more[..|more| - 1] == groups[..|groups| - 1];
      FoldKeepsCount(more, fields[1..]);
    }
  }

  lemma {:induction false} FoldAlwaysDefined(groups: seq<Attribute>, fields: seq<(Field, Field)>)
    requires groups != [] || fields == [] || fields[0].0 != Text([])
    ensures Fold(groups, fields).Some?
    decreases |fields|
  {
    if fields != [] { FoldAlwaysDefined(Add(groups, fields[0].0, fields[0].1).value, fields[1..]); }
  }

  /** A request: an eight-byte header, a group tag, the encoded items with their delimiter, and trailing data. */
  function Request(header: bytes, group: byte, items: seq<Item>, delimiter: byte, trailing: bytes): bytes
  {
    header + [group] + Wire(items, delimiter) + trailing
  }

  /** The attributes of a list of items, in full. */
  ghost function Meaning(items: seq<Item>): seq<Attribute>
    requires items == [] || items[0].name != []
  {
    FoldAlwaysDefined([], ItemFields(items));
    Fold([], ItemFields(items)).value
  }

  lemma WireStep(items: seq<Item>, delimiter: byte)
    requires items != []
    ensures |Wire(items, delimiter)| == 5 + |items[0].name| + |items[0].value| + |Wire(items[1..], delimiter)|
  {
  }

  lemma {:induction false} WireLength(items: seq<Item>, delimiter: byte, start: nat)
    requires items != []
    ensures start + |Wire(items, delimiter)| - 1
         == BodyStart(items, start, |items| - 1) + 5 + |items[|items| - 1].name| + |items[|items| - 1].value|
    decreases |items|
  {
    hide Wire;
    var rest := items[1..];
    WireStep(items, delimiter);
    if rest == [] {
      WireNil(delimiter);
    } else {
      WireLength(rest, delimiter, start + 5 + |items[0].name| + |items[0].value|);
      BodyStartTail(items, start, |items| - 2);
    }
  }

  /**
    * Decoding an encoded request always succeeds, and recovers exactly the items whose body
    * starts before ten bytes from the end.
    */
  lemma RoundTrip(header: bytes, group: byte, items: seq<Item>, delimiter: byte, trailing: bytes)
    requires |header| == 8 && items != [] && items[0].name != [] && IsGroupTag(delimiter)
    ensures var data := Request(header, group, items, delimiter, trailing);
      |data| >= 10 && var k := Started(items, 10, |data| - 10);
      Parse(data, 10, items[0].tag).ok
      && Fold([], ItemFields(items[..k])) == Some(Parse(data, 10, items[0].tag).groups)
  {
    var data := Request(header, group, items, delimiter, trailing);
    var k := Started(items, 10, |data| - 10);
    ScanOfWire(header + [group], items, delimiter, trailing, |data| - 10, []);
    assert |Drop(data, 10)| == |data| - 10;
  }

  /** Everything is recovered if and only if the last item and the trailing data are long enough. */
  lemma RoundTripIsComplete(header: bytes, group: byte, items: seq<Item>, delimiter: byte, trailing: bytes)
    requires |header| == 8 && items != [] && items[0].name != [] && IsGroupTag(delimiter)
    ensures var last := items[|items| - 1];
      Parse(Request(header, group, items, delimiter, trailing), 10, items[0].tag).groups == Meaning(items)
      <==> |last.name| + |last.value| + |trailing| >= 6
  {
    hide Scan, Fold, Wire, Started, BodyStart, IsSyntax, IsGroupTag;
    var data := Request(header, group, items, delimiter, trailing);
    RoundTrip(header, group, items, delimiter, trailing);
    var n := |items|;
    var k := Started(items, 10, |data| - 10);
    StartedIsExact(items, 10, |data| - 10, n - 1);
    WireLength(items, delimiter, 10);
    FoldAlwaysDefined([], ItemFields(items));
    FoldAlwaysDefined([], ItemFields(items[..k]));
    FoldKeepsCount([], ItemFields(items));
    FoldKeepsCount([], ItemFields(items[..k]));
    assert k == n ==> items[..k] == items;
  }

  // ---------- The whole request ----------

  datatype Summary = Summary(
    major: int, minor: int, requestId: nat, operation: nat, group: int, attributes: seq<Attribute>)

  /** `_build_response`: None stands for the empty string that any decoding error leaves behind. */
  method BuildResponse(data: bytes) returns (response: Option<Summary>, ok: bool)
    ensures (response, ok) == Decode(data)
  {
    ok := true;
    var major := GetUint8(0, data);
    if major == None { return None, ok; }
    var minor := GetUint8(1, data);
    if minor == None { return None, ok; }
    var operation := GetUint16(2, data);
    if operation == None || !IsOperation(operation.value) { return None, ok; }
    var requestId := GetUint32(4, data);
    if requestId == None { return None, ok; }
    var group := GetUint8(8, data);
    if group == None || !IsGroupTag(group.value) { return None, ok; }
    var tag := GetUint8(9, data);
    if tag == None { return None, ok; }
    var groups: seq<Attribute> := [];
    if IsSyntax(tag.value) {
      groups, ok := ParseAttributes(data, 10, tag.value);
    }
    response := Some(Summary(major.value, minor.value, requestId.value, operation.value, group.value, groups));
  }

  /** The header layout of section 3.1.1 of RFC 8010, followed by the group tag and the first value tag. */
  function Decode(data: bytes): (Option<Summary>, bool) {
    if |data| < 10 || !IsOperation(FromBe16(data[2..4])) || !IsGroupTag(Signed(data[8])) then (None, true)
    else
      var tag := Signed(data[9]);
      var parsed := if IsSyntax(tag) then Parse(data, 10, tag) else Outcome([], true, [], 10);
      (Some(Summary(Signed(data[0]), Signed(data[1]), FromBe32(data[4..8]), FromBe16(data[2..4]),
                    Signed(data[8]), parsed.groups)), parsed.ok)
  }

  /** What is reported of a request: nothing for a broken header, and no attributes for another tag than a value's. */
  lemma ReportIs(data: bytes)
    ensures Decode(data).0.Some?
      <==> |data| >= 10 && IsOperation(FromBe16(data[2..4])) && IsGroupTag(Signed(data[8]))
    ensures Decode(data).0.Some? ==>
      var r := Decode(data).0.value;
      r.major == Signed(data[0]) && r.minor == Signed(data[1]) && r.operation == FromBe16(data[2..4])
      && r.requestId == FromBe32(data[4..8]) && r.group == Signed(data[8])
      && r.attributes == if IsSyntax(Signed(data[9])) then Parse(data, 10, Signed(data[9])).groups else []
  {
    hide Parse;
  }

  /** A request with a good header and enough bytes after its last name decodes to what was sent. */
  lemma RequestRoundTrip(major: byte, minor: byte, operation: nat, requestId: nat, group: byte,
                         items: seq<Item>, delimiter: byte, trailing: bytes)
    requires major < 128 && minor < 128 && IsOperation(operation) && requestId < 0x1_0000_0000
    requires IsGroupTag(group) && IsGroupTag(delimiter)
    requires items != [] && items[0].name != []
    requires |items[|items| - 1].name| + |items[|items| - 1].value| + |trailing| >= 6
    ensures Decode(Request([major, minor] + Be16(operation) + Be32(requestId), group, items, delimiter, trailing))
         == (Some(Summary(major, minor, requestId, operation, group, Meaning(items))), true)
  {
    hide Parse, Meaning, Wire, ItemBody;
    var header := [major, minor] + Be16(operation) + Be32(requestId);
    var data := Request(header, group, items, delimiter, trailing);
    Read16(operation);
    Read32(requestId);
    RoundTrip(header, group, items, delimiter, trailing);
    RoundTripIsComplete(header, group, items, delimiter, trailing);
    assert data[2..4] == Be16(operation);
    assert data[4..8] == Be32(requestId);
    assert data[9] == items[0].tag;
    assert Signed(data[0]) == major && Signed(data[1]) == minor && Signed(data[8]) == group;
    TagIsPlain(items[0]);
  }

  /** No list of records explains the bytes behind the first value tag. */
  ghost predicate Malformed(data: bytes)
    requires |data| >= 10
  {
    IsSyntax(Signed(data[9]))
    && !Explained(data, |data| - 10, 10, Signed(data[9]), [])
  }

  /**
    * The status is a failure only when the header is good, a value tag follows it and the bytes behind that cannot be
    * explained: every broken header counts as success.
    */
  lemma BrokenHeaderSucceeds(data: bytes)
    ensures Decode(data).0 == None ==> Decode(data).1
    ensures !Decode(data).1 <==>
      |data| >= 10 && IsOperation(FromBe16(data[2..4])) && IsGroupTag(Signed(data[8])) && Malformed(data)
  {
    hide Scan, Explained;
    if |data| >= 10 { ScanSucceedsExactly(data, |data| - 10, 10, Signed(data[9]), []); }
  }

  // ---------- The tables ----------

  /** The 102 operations of the table. */
  lemma OperationsAre(code: int)
    ensures IsOperation(code) <==> code in {
      0x01, 0x02, 0x03, 0x04, 0x05, 0x06, 0x07, 0x08, 0x09, 0x0A, 0x0B, 0x0C, 0x0D, 0x0E, 0x0F,
      0x10, 0x11, 0x12, 0x13, 0x14, 0x15, 0x16, 0x17, 0x18, 0x19, 0x1A, 0x1B, 0x1C, 0x1D, 0x1E, 0x1F,
      0x20, 0x21, 0x22, 0x23, 0x24, 0x25, 0x26, 0x27, 0x28, 0x29, 0x2A, 0x2B, 0x2C, 0x2D, 0x2E, 0x2F,
      0x30, 0x31, 0x33, 0x34, 0x35, 0x36, 0x37, 0x38, 0x39, 0x3A, 0x3B, 0x3C, 0x3D, 0x3E, 0x3F,
      0x40, 0x41, 0x42, 0x43, 0x44, 0x45, 0x46, 0x47, 0x48, 0x49, 0x4A, 0x4B, 0x4C, 0x4D, 0x4E, 0x4F,
      0x50, 0x51, 0x52, 0x53, 0x54, 0x55, 0x56, 0x57, 0x58, 0x59, 0x5A, 0x5B, 0x5C, 0x5D, 0x5E, 0x5F,
      0x60, 0x61, 0x62, 0x63, 0x64, 0x65, 0x66, 0x67}
  {
  }

  lemma GroupTagsAre(tag: int)
    ensures IsGroupTag(tag) <==> tag in {0x00, 0x01, 0x02, 0x03, 0x04, 0x05, 0x06, 0x07, 0x08, 0x09, 0x0A}
  {
  }

  lemma SyntaxesAre(tag: int)
    ensures IsSyntax(tag) <==> tag in {
      0x20, 0x21, 0x22, 0x23, 0x30, 0x31, 0x32, 0x33, 0x34, 0x35, 0x36, 0x37, 0x40, 0x41, 0x42, 0x43,
      0x44, 0x45, 0x46, 0x47, 0x48, 0x49, 0x4A, 0x7F}
  {
  }

  /** A byte is read as the number in -128..127 that differs from it by a multiple of 256. */
  lemma SignedIs(b: byte)
    ensures -128 <= Signed(b) < 128 && (Signed(b) - b) % 256 == 0
  {
  }

  // ---------- Reply ----------

  const CHARSET: bytes := Ascii("attributes-charset")
  const LANGUAGE: bytes := Ascii("attributes-natural-language")
  const UTF_8: bytes := Ascii("utf-8")
  const EN_US: bytes := Ascii("en-us")

  /** The value tag of an attribute name; None is KeyError. */
  function ValueTag(name: bytes): Option<byte> {
    if name == CHARSET then Some(0x47) else if name == LANGUAGE then Some(0x48) else None
  }

  /** The dictionary's entries in insertion order can be written: known names and lengths that fit two bytes. */
  predicate Writable(entries: seq<(bytes, bytes)>) {
    forall i :: 0 <= i < |entries| ==> WritableEntry(entries[i])
  }

  predicate WritableEntry(e: (bytes, bytes)) {
    ValueTag(e.0).Some? && |e.1| < 0x1_0000
  }

  function ItemOf(e: (bytes, bytes)): Item
    requires WritableEntry(e)
  {
    Item(ValueTag(e.0).value, e.0, e.1)
  }

  function ItemsOf(entries: seq<(bytes, bytes)>): (r: seq<Item>)
    requires Writable(entries)
    ensures |r| == |entries|
    ensures forall i :: 0 <= i < |r| ==> r[i] == ItemOf(entries[i])
  {
    seq(|entries|, i requires 0 <= i < |entries| => ItemOf(entries[i]))
  }

  /** The encoding without its delimiter. */
  function Open(items: seq<Item>): (s: bytes)
  {
    if items == [] then [] else [items[0].tag] + ItemBody(items[0]) + Open(items[1..])
  }

  lemma OpenNil()
    ensures Open([]) == []
  {
  }

  lemma {:induction false} WireIsOpen(items: seq<Item>, delimiter: byte)
    ensures Wire(items, delimiter) == Open(items) + [delimiter]
  {
    if items != [] {
      WireIsOpen(items[1..], delimiter);
    }
  }

  lemma {:induction false} OpenAppend(items: seq<Item>, r: Item)
    ensures Open(items + [r]) == Open(items) + ([r.tag] + ItemBody(r))
  {
    hide ItemBody;
    if items == [] {
      assert (items + [r])[1..] == [];
    } else {
      OpenAppend(items[1..], r);
      assert (items + [r])[1..] == items[1..] + [r];
    }
  }

  function EntryBytes(tag: byte, name: bytes, value: bytes): bytes
    requires |name| < 0x1_0000 && |value| < 0x1_0000
  {
    [tag] + (Be16(|name|) + name + Be16(|value|) + value)
  }

  lemma OpenOneMore(entries: seq<(bytes, bytes)>, i: nat)
    requires i < |entries| && Writable(entries[..i]) && WritableEntry(entries[i])
    ensures Writable(entries[..i + 1])
    ensures Open(ItemsOf(entries[..i + 1]))
         == Open(ItemsOf(entries[..i])) + EntryBytes(ValueTag(entries[i].0).value, entries[i].0, entries[i].1)
  {
    hide ValueTag;
    OpenAppend(ItemsOf(entries[..i]), ItemOf(entries[i]));
    assert ItemsOf(entries[..i + 1]) == ItemsOf(entries[..i]) + [ItemOf(entries[i])];
  }

  /** `attributes_dict_to_bytes` writes the operation group, one item per entry and the end tag, or fails. */
  method AttributesDictToBytes(entries: seq<(bytes, bytes)>) returns (r: Option<bytes>)
    ensures r == (if Writable(entries) then Some([0x01] + Wire(ItemsOf(entries), 0x03)) else None)
  {
    hide ValueTag, Open, Wire, EntryBytes;
    var out: bytes := [0x01];
    OpenNil();
    assert ItemsOf(entries[..0]) == [];
    for i := 0 to |entries|
      invariant Writable(entries[..i])
      invariant out == [0x01] + Open(ItemsOf(entries[..i]))
    {
      var tag := ValueTag(entries[i].0);
      if tag == None || |entries[i].1| >= 0x1_0000 {
        assert !WritableEntry(entries[i]);
        return None;
      }
      OpenOneMore(entries, i);
      out := out + EntryBytes(tag.value, entries[i].0, entries[i].1);
    }
    assert entries[..|entries|] == entries;
    WireIsOpen(ItemsOf(entries), 0x03);
    assert out + [0x03] == [0x01] + (Open(ItemsOf(entries)) + [0x03]);
    r := Some(out + [0x03]);
  }

  /** Behind any eight-byte header, the decoder reads back every entry of the dictionary. */
  lemma DictRoundTrip(header: bytes, entries: seq<(bytes, bytes)>)
    requires |header| == 8 && Writable(entries) && entries != []
    ensures var data := header + ([0x01] + Wire(ItemsOf(entries), 0x03));
      var r := Parse(data, 10, ItemsOf(entries)[0].tag);
      r.ok && |r.groups| == |entries|
      && forall i :: 0 <= i < |entries| ==> r.groups[i] == Attribute(Text(entries[i].0), [Text(entries[i].1)])
  {
    NamesAreLong(entries);
    hide Parse, Wire, Request, ValueTag, Writable, WritableEntry, IsSyntax;
    var items := ItemsOf(entries);
    NamedRoundTrip(header, items);
    DictIsRequest(header, items);
  }

  lemma DictIsRequest(header: bytes, items: seq<Item>)
    ensures Request(header, 0x01, items, 0x03, []) == header + ([0x01] + Wire(items, 0x03))
  {
    hide Wire;
  }

  /** Items that all have long names come back as one attribute each. */
  lemma NamedRoundTrip(header: bytes, items: seq<Item>)
    requires |header| == 8 && items != [] && forall i :: 0 <= i < |items| ==> |items[i].name| >= 6
    ensures var r := Parse(Request(header, 0x01, items, 0x03, []), 10, items[0].tag);
      r.ok && |r.groups| == |items|
      && forall i :: 0 <= i < |items| ==> r.groups[i] == Attribute(Text(items[i].name), [Text(items[i].value)])
  {
    hide Parse, Request, Wire, Fold, Started, IsSyntax;
    RoundTrip(header, 0x01, items, 0x03, []);
    RoundTripIsComplete(header, 0x01, items, 0x03, []);
    FoldOfNamed([], ItemFields(items));
  }

  lemma NamesAreLong(entries: seq<(bytes, bytes)>)
    requires Writable(entries)
    ensures forall i :: 0 <= i < |entries| ==> |entries[i].0| >= 18
    ensures forall i :: 0 <= i < |entries| ==>
      ItemsOf(entries)[i].name == entries[i].0 && ItemsOf(entries)[i].value == entries[i].1
  {
    assert |CHARSET| == 18 && |LANGUAGE| > 18;
  }

  lemma {:induction false} FoldOfNamed(groups: seq<Attribute>, fields: seq<(Field, Field)>)
    requires forall i :: 0 <= i < |fields| ==> fields[i].0 != Text([])
    ensures Fold(groups, fields)
         == Some(groups + seq(|fields|, i requires 0 <= i < |fields| => Attribute(fields[i].0, [fields[i].1])))
    decreases |fields|
  {
    var all := seq(|fields|, i requires 0 <= i < |fields| => Attribute(fields[i].0, [fields[i].1]));
    if fields == [] {
      assert groups + all == groups;
    } else {
      var more := groups + [Attribute(fields[0].0, [fields[0].1])];
      var rest := fields[1..];
      FoldOfNamed(more, rest);
      assert more + seq(|rest|, i requires 0 <= i < |rest| => Attribute(rest[i].0, [rest[i].1])) == groups + all;
    }
  }

  const REPLY := [(CHARSET, UTF_8), (LANGUAGE, EN_US)]

  const SUPPORTED_VERSIONS: seq<bytes> := [[1, 1], [2, 0], [2, 1], [2, 2]]

  /** `send_response`: the id is cut from bytes 3 to 6 of the request. */
  function SendResponse(request: bytes, successful: bool): bytes {
    var v := Slice(request, 0, 2);
    var version: bytes := if v in SUPPORTED_VERSIONS then v else [2, 0];
    var statusCode: bytes := if successful then [0, 0] else [4, 0];
    version + statusCode + Slice(request, 3, 7) + ([0x01] + Wire(ItemsOf(REPLY), 0x03))
  }

  /**
    * The reply carries the id of the request (section 3.1.1 of RFC 8010 puts it in bytes 4 to 7)
    * if and only if bytes 3 to 7 of the request are all equal.
    */
  lemma ReplyEchoesId(request: bytes, successful: bool)
    requires |request| >= 8
    ensures SendResponse(request, successful)[4..8] == request[4..8]
      <==> forall k :: 3 <= k < 7 ==> request[k] == request[k + 1]
  {
    var echoed := SendResponse(request, successful)[4..8];
    assert |Slice(request, 0, 2)| == 2;
    assert echoed == request[3..7];
    if echoed == request[4..8] {
      forall k | 3 <= k < 7 ensures request[k] == request[k + 1] {
        assert echoed[k - 3] == request[3..7][k - 3] == request[4..8][k - 3];
      }
    }
    if forall k :: 3 <= k < 7 ==> request[k] == request[k + 1] {
      assert request[3..7] == request[4..8];
    }
  }

  const ATTRIBUTES: bytes := [0x01] + Wire(ItemsOf(REPLY), 0x03)

  /** Every reply has a supported version, the request's exactly when that is supported, and status zero for success. */
  lemma ReplyHeader(request: bytes, successful: bool)
    ensures var reply := SendResponse(request, successful);
      |reply| >= 4 && reply[..2] in SUPPORTED_VERSIONS
      && (reply[..2] == Slice(request, 0, 2) <==> Slice(request, 0, 2) in SUPPORTED_VERSIONS)
      && (FromBe16(reply[2..4]) == 0 <==> successful) && FromBe16(reply[2..4]) in {0x0000, 0x0400}
  {
    var v, reply := Slice(request, 0, 2), SendResponse(request, successful);
    assert SUPPORTED_VERSIONS[1] == [2, 0];
    hide Wire, ItemsOf;
    assert reply[..2] == if v in SUPPORTED_VERSIONS then v else [2, 0];
    assert reply[2..4] == if successful then [0, 0] else [4, 0];
  }

  /** The version is repeated for 1.1, 2.0, 2.1 and 2.2, and is 2.0 for every other request; an error is 0x0400. */
  lemma ReplyStart(request: bytes, successful: bool)
    ensures var v, reply := Slice(request, 0, 2), SendResponse(request, successful);
      |reply| >= 4
      && reply[..4] == (if v == [1, 1] || v == [2, 0] || v == [2, 1] || v == [2, 2] then v else [2, 0])
                       + (if successful then [0x00, 0x00] else [0x04, 0x00])
  {
    var v := Slice(request, 0, 2);
    assert v in SUPPORTED_VERSIONS <==> v == [1, 1] || v == [2, 0] || v == [2, 1] || v == [2, 2] by {
      assert SUPPORTED_VERSIONS == [[1, 1], [2, 0], [2, 1], [2, 2]];
    }
    hide Wire, ItemsOf;
  }

  /** The attributes, byte by byte. */
  lemma AttributesAre()
    ensures var charset: bytes, language: bytes := Ascii("attributes-charset"), Ascii("attributes-natural-language");
      var utf8: bytes, english: bytes := Ascii("utf-8"), Ascii("en-us");
      ATTRIBUTES == [0x01] + [0x47] + [0, 18] + charset + [0, 5] + utf8 + [0x48] + [0, 27] + language + [0, 5] + english
                    + [0x03]
  {
    assert |CHARSET| == 18 && |LANGUAGE| == 27 && |UTF_8| == 5 && |EN_US| == 5 && CHARSET != LANGUAGE;
    hide Ascii, CHARSET, LANGUAGE, UTF_8, EN_US, Wire, ItemBody;
    var a, b := Item(0x47, CHARSET, UTF_8), Item(0x48, LANGUAGE, EN_US);
    assert ItemsOf(REPLY) == [a, b];
    hide ItemsOf;
    WireOfTwo(a, b);
    ShortBody(a);
    ShortBody(b);
  }

  lemma WireOfTwo(a: Item, b: Item)
    ensures Wire([a, b], 0x03) == [a.tag] + ItemBody(a) + [b.tag] + ItemBody(b) + [0x03]
  {
    hide ItemBody, IsSyntax;
    WireCons([a, b], 0x03);
    WireCons([b], 0x03);
    WireNil(0x03);
    assert [a, b][1..] == [b] && [b][1..] == [];
  }

  lemma ShortBody(r: Item)
    requires |r.name| < 256 && |r.value| < 256
    ensures ItemBody(r) == [0, |r.name|] + r.name + [0, |r.value|] + r.value
  {
    hide IsSyntax;
  }

  /** The attributes stand behind eight bytes, where they belong, if and only if the request has at least seven. */
  lemma ReplyIsPlaced(request: bytes, successful: bool)
    ensures var reply := SendResponse(request, successful);
      |reply| >= 8 && reply[8..] == ATTRIBUTES <==> |request| >= 7
  {
    hide Wire, ItemsOf;
    var id, reply := Slice(request, 3, 7), SendResponse(request, successful);
    assert |reply| == 4 + |id| + |ATTRIBUTES|;
    assert reply[4 + |id|..] == ATTRIBUTES;
  }

  /** A client that decodes a reply whose attributes are in place finds both of them. */
  lemma ReplyDecodes(request: bytes, successful: bool)
    requires |request| >= 7
    ensures var r := Parse(SendResponse(request, successful), 10, 0x47);
      r.ok && r.groups == [Attribute(Text(CHARSET), [Text(UTF_8)]), Attribute(Text(LANGUAGE), [Text(EN_US)])]
  {
    ReplyIsPlaced(request, successful);
    var reply := SendResponse(request, successful);
    var header := reply[..8];
    assert reply == header + ([0x01] + Wire(ItemsOf(REPLY), 0x03));
    DictRoundTrip(header, REPLY);
  }

  /** The header is good and the bytes behind its value tag cannot be explained. */
  ghost predicate Refused(request: bytes) {
    |request| >= 10 && IsOperation(FromBe16(request[2..4])) && IsGroupTag(Signed(request[8])) && Malformed(request)
  }

  /**
    * The whole reply to every request: its status is zero unless the request is refused, it carries the id if and only
    * if bytes 3 to 7 are equal, and its attributes are in place, and then are found, for seven bytes or more.
    */
  lemma ReplyToRequest(request: bytes)
    ensures var reply := SendResponse(request, Decode(request).1);
      |reply| >= 4 && reply[..2] in SUPPORTED_VERSIONS
      && FromBe16(reply[2..4]) == (if Refused(request) then 0x0400 else 0)
      && (|request| >= 8 ==>
            (reply[4..8] == request[4..8] <==> forall k :: 3 <= k < 7 ==> request[k] == request[k + 1]))
      && (|reply| >= 8 && reply[8..] == ATTRIBUTES <==> |request| >= 7)
      && (|request| >= 7 ==>
            Parse(reply, 10, 0x47).groups
              == [Attribute(Text(CHARSET), [Text(UTF_8)]), Attribute(Text(LANGUAGE), [Text(EN_US)])])
  {
    hide Parse, SendResponse, ATTRIBUTES, Malformed, Decode;
    var ok := Decode(request).1;
    BrokenHeaderSucceeds(request);
    ReplyHeader(request, ok);
    ReplyIsPlaced(request, ok);
    if |request| >= 7 { ReplyDecodes(request, ok); }
    if |request| >= 8 { ReplyEchoesId(request, ok); }
  }
}
