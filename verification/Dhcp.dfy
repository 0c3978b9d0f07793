/** The DHCP option automaton and the reply it can read back. */
module Dhcp {
  import opened Prelude

  type Options = map<byte, bytes>

  // ---------- The automaton ----------

  /** Between two bytes: the tag read so far, the bytes still to come, the value collected and the options found. */
  datatype State = State(name: Option<byte>, size: Option<nat>, tag: bytes, options: Options)

  function Fresh(options: Options): State { State(None, None, [], options) }

  function Step(s: State, b: byte): State {
    if s.name == None then s.(name := Some(b))
    else if s.size == None then s.(size := Some(b), tag := [])
    else if s.size.value == 0 then s
    else if s.size.value == 1 then Fresh(s.options[s.name.value := s.tag + [b]])
    else s.(size := Some(s.size.value - 1), tag := s.tag + [b])
  }

  function Run(s: State, raw: bytes): State
    decreases |raw|
  {
    if raw == [] then s else Run(Step(s, raw[0]), raw[1..])
  }

  /** `parse_options` */
  method ParseOptions(raw: bytes) returns (options: Options)
    ensures options == Run(Fresh(map[]), raw).options
  {
    options := map[];
    var tagName: Option<byte> := None;
    var tagSize: Option<nat> := None;
    var tag: bytes := [];
    for i := 0 to |raw|
      invariant Run(State(tagName, tagSize, tag, options), raw[i..]) == Run(Fresh(map[]), raw)
    {
      var b := raw[i];
      assert raw[i..][1..] == raw[i + 1..];
      if tagName == None {
        tagName := Some(b);
      } else if tagSize == None {
        tagSize := Some(b);
        tag := [];
      } else if tagSize.value != 0 {
        tagSize := Some(tagSize.value - 1);
        tag := tag + [b];
        if tagSize.value == 0 {
          options := options[tagName.value := tag];
          tagName, tagSize, tag := None, None, [];
        }
      }
    }
  }

  /** Reading two chunks is reading their concatenation. */
  lemma {:induction false} RunAppend(s: State, a: bytes, b: bytes)
    ensures Run(s, a + b) == Run(Run(s, a), b)
    decreases |a|
  {
    if a == [] {
      assert a + b == b;
    } else {
      RunAppend(Step(s, a[0]), a[1..], b);
      assert (a + b)[1..] == a[1..] + b;
    }
  }

  // ---------- The automaton refines recursive TLV parsing ----------

  /** A complete option with a non-empty value stands at the front. */
  predicate HasOption(raw: bytes) { |raw| >= 2 && raw[1] > 0 && |raw| >= 2 + raw[1] as int }

  /** Tag, length and value in turn; anything that is not a whole option with a value ends the list. */
  function Tlv(raw: bytes): Options
    decreases |raw|
  {
    if !HasOption(raw) then map[]
    else map[raw[0] := raw[2..2 + raw[1] as int]] + Tlv(raw[2 + raw[1] as int..])
  }

  /** One whole option in front. */
  lemma TlvStep(tag: byte, value: bytes, more: bytes)
    requires 1 <= |value| < 256
    ensures HasOption([tag, |value|] + value + more)
    ensures Tlv([tag, |value|] + value + more) == map[tag := value] + Tlv(more)
  {
    var raw := [tag, |value|] + value + more;
    assert raw[2..2 + raw[1] as int] == value && raw[2 + raw[1] as int..] == more;
  }

  lemma MergeAssociates(a: Options, b: Options, c: Options)
    ensures (a + b) + c == a + (b + c)
  {
  }

  lemma MergeEmpty(a: Options)
    ensures map[] + a == a && a + map[] == a
  {
  }

  /** A length of zero is never left again. */
  lemma {:induction false} ZeroLengthAbsorbs(s: State, raw: bytes)
    requires s.name.Some? && s.size == Some(0)
    ensures Run(s, raw) == s
    decreases |raw|
  {
    if raw != [] { ZeroLengthAbsorbs(s, raw[1..]); }
  }

  /** Inside a value the automaton collects bytes until the value is complete. */
  lemma {:induction false} RunInValue(s: State, value: bytes, rest: bytes)
    requires s.name.Some? && s.size == Some(|value|) && value != []
    ensures Run(s, value + rest) == Run(Fresh(s.options[s.name.value := s.tag + value]), rest)
    decreases |value|
  {
    var s' := Step(s, value[0]);
    assert (value + rest)[1..] == value[1..] + rest;
    if |value| == 1 {
      assert value[1..] + rest == rest;
      assert s.tag + [value[0]] == s.tag + value;
    } else {
      RunInValue(s', value[1..], rest);
      assert s.tag + [value[0]] + value[1..] == s.tag + value;
    }
  }

  lemma {:induction false} RunInCutValue(s: State, part: bytes)
    requires s.name.Some? && s.size.Some? && |part| < s.size.value
    ensures Run(s, part).options == s.options
    decreases |part|
  {
    if part != [] { RunInCutValue(Step(s, part[0]), part[1..]); }
  }

  lemma RunTagAndLength(options: Options, raw: bytes)
    requires |raw| >= 2
    ensures Run(Fresh(options), raw) == Run(State(Some(raw[0]), Some(raw[1]), [], options), raw[2..])
  {
    assert raw[1..][1..] == raw[2..];
  }

  lemma RunWholeOption(options: Options, raw: bytes)
    requires HasOption(raw)
    ensures var n := 2 + raw[1] as int;
      Run(Fresh(options), raw) == Run(Fresh(options[raw[0] := raw[2..n]]), raw[n..])
  {
    hide Step, Run;
    var n := 2 + raw[1] as int;
    RunTagAndLength(options, raw);
    assert raw[2..] == raw[2..n] + raw[n..];
    RunInValue(State(Some(raw[0]), Some(raw[1]), [], options), raw[2..n], raw[n..]);
    assert [] + raw[2..n] == raw[2..n];
  }

  /** Without a whole option in front, the rest of the input adds nothing. */
  lemma RunNoOption(options: Options, raw: bytes)
    requires !HasOption(raw)
    ensures Run(Fresh(options), raw).options == options
  {
    if |raw| >= 2 {
      RunTagAndLength(options, raw);
      var s := State(Some(raw[0]), Some(raw[1]), [], options);
      hide Run, Step;
      if raw[1] == 0 { ZeroLengthAbsorbs(s, raw[2..]); } else { RunInCutValue(s, raw[2..]); }
    } else if |raw| == 1 {
      assert raw[1..] == [];
    }
  }

  /** On every byte string, the automaton adds exactly the options of the recursive parser, later ones winning. */
  lemma {:induction false} RunIsTlv(options: Options, raw: bytes)
    ensures Run(Fresh(options), raw).options == options + Tlv(raw)
    decreases |raw|
  {
    hide Step, Run;
    if HasOption(raw) {
      var n := 2 + raw[1] as int;
      RunWholeOption(options, raw);
      RunIsTlv(options[raw[0] := raw[2..n]], raw[n..]);
      MergeAssociates(options, map[raw[0] := raw[2..n]], Tlv(raw[n..]));
    } else {
      RunNoOption(options, raw);
      MergeEmpty(options);
    }
  }

  // ---------- Round trip ----------

  type Item = KeyValue<byte, bytes>

  predicate Sendable(items: seq<Item>) {
    forall i :: 0 <= i < |items| ==> 1 <= |items[i].value| < 256
  }

  /** Section 2 of RFC 2132: tag, length, value. */
  function Encode(items: seq<Item>): bytes
    requires Sendable(items)
  {
    if items == [] then []
    else [items[0].key, |items[0].value|] + items[0].value + Encode(items[1..])
  }

  lemma {:induction false} TlvOfItems(items: seq<Item>, tail: bytes)
    requires Sendable(items)
    ensures Tlv(Encode(items) + tail) == LastWins(items) + Tlv(tail)
    decreases |items|
  {
    hide Tlv;
    if items == [] {
      assert Encode(items) + tail == tail;
      assert LastWins(items) + Tlv(tail) == Tlv(tail);
    } else {
      var item, more := items[0], Encode(items[1..]) + tail;
      assert Encode(items) + tail == [item.key, |item.value|] + item.value + more;
      TlvStep(item.key, item.value, more);
      TlvOfItems(items[1..], tail);
      MergeAssociates(map[item.key := item.value], LastWins(items[1..]), Tlv(tail));
    }
  }

  /** Encoded options come back last-wins, whatever incomplete option, end byte or zero length follows them. */
  lemma OptionsRoundTrip(items: seq<Item>, tail: bytes)
    requires Sendable(items)
    ensures Run(Fresh(map[]), Encode(items) + tail).options == LastWins(items) + Tlv(tail)
    ensures !HasOption(tail) ==> Run(Fresh(map[]), Encode(items) + tail).options == LastWins(items)
  {
    RunIsTlv(map[], Encode(items) + tail);
    TlvOfItems(items, tail);
    hide Run, Encode, LastWins;
    MergeEmpty(Tlv(Encode(items) + tail));
    MergeEmpty(LastWins(items));
  }

  // ---------- Pad, end and empty options ----------

  /** Section 3 of RFC 2132: a pad is skipped, the end option ends the list, and an option may have an empty value. */
  function Standard(raw: bytes): (r: Options)
    ensures 0 !in r && 255 !in r
    decreases |raw|
  {
    if raw == [] || raw[0] == 255 then map[]
    else if raw[0] == 0 then Standard(raw[1..])
    else if |raw| < 2 || |raw| < 2 + raw[1] as int then map[]
    else map[raw[0] := raw[2..2 + raw[1] as int]] + Standard(raw[2 + raw[1] as int..])
  }

  /** An option that both read alike stands in front. */
  predicate Ordinary(raw: bytes) { HasOption(raw) && raw[0] != 0 && raw[0] != 255 }

  predicate OrdinaryTags(items: seq<Item>) {
    forall i :: 0 <= i < |items| ==> items[i].key != 0 && items[i].key != 255
  }

  /** Every byte string is some ordinary options and a rest that does not start with one. */
  lemma {:induction false} OrdinaryFirst(raw: bytes) returns (items: seq<Item>, rest: bytes)
    ensures Sendable(items) && OrdinaryTags(items) && !Ordinary(rest) && raw == Encode(items) + rest
    decreases |raw|
  {
    items, rest := [], raw;
    if Ordinary(raw) {
      var n := 2 + raw[1] as int;
      var item: Item := KeyValue(raw[0], raw[2..n]);
      var more;
      more, rest := OrdinaryFirst(raw[n..]);
      items := [item] + more;
      assert items[1..] == more;
      assert Encode(items) == [item.key, |item.value|] + item.value + Encode(more);
      assert raw == [item.key, |item.value|] + item.value + raw[n..];
    }
  }

  lemma StandardStep(tag: byte, value: bytes, more: bytes)
    requires 1 <= |value| < 256 && tag != 0 && tag != 255
    ensures Standard([tag, |value|] + value + more) == map[tag := value] + Standard(more)
  {
    var raw := [tag, |value|] + value + more;
    assert raw[2..2 + raw[1] as int] == value && raw[2 + raw[1] as int..] == more;
  }

  lemma {:induction false} StandardOfItems(items: seq<Item>, tail: bytes)
    requires Sendable(items) && OrdinaryTags(items)
    ensures Standard(Encode(items) + tail) == LastWins(items) + Standard(tail)
    decreases |items|
  {
    hide Standard;
    if items == [] {
      assert Encode(items) + tail == tail;
      assert LastWins(items) + Standard(tail) == Standard(tail);
    } else {
      var item, more := items[0], Encode(items[1..]) + tail;
      assert Encode(items) + tail == [item.key, |item.value|] + item.value + more;
      StandardStep(item.key, item.value, more);
      StandardOfItems(items[1..], tail);
      MergeAssociates(map[item.key := item.value], LastWins(items[1..]), Standard(tail));
    }
  }

  /** The options of a rest that the automaton does not read add nothing new. */
  predicate AddsNothing(items: seq<Item>, rest: bytes) {
    forall k :: k in Standard(rest) ==> k in LastWins(items) && LastWins(items)[k] == Standard(rest)[k]
  }

  /**
    * On every byte string, split into ordinary options and the rest, the automaton finds what RFC 2132 says if and
    * only if it reads no pad or end as the tag of an option, and what the standard still finds in the rest is known.
    */
  lemma StandardIsFound(items: seq<Item>, rest: bytes)
    requires Sendable(items) && OrdinaryTags(items) && !Ordinary(rest)
    ensures Run(Fresh(map[]), Encode(items) + rest).options == Standard(Encode(items) + rest)
      <==> !HasOption(rest) && AddsNothing(items, rest)
  {
    OptionsRoundTrip(items, rest);
    StandardOfItems(items, rest);
    var known, found := LastWins(items), Standard(rest);
    if HasOption(rest) {
      assert rest[0] in Tlv(rest);
      assert rest[0] !in Standard(Encode(items) + rest);
    } else {
      hide Run, Encode, LastWins, Standard;
      if known == known + found { assert AddsNothing(items, rest); }
      if AddsNothing(items, rest) { assert known == known + found; }
    }
  }

  /** Behind the end option: exactly unless the next byte, taken for a length, is not zero and that many follow. */
  lemma EndIsRead(items: seq<Item>, tail: bytes)
    requires Sendable(items) && OrdinaryTags(items)
    ensures Run(Fresh(map[]), Encode(items) + ([255] + tail)).options == Standard(Encode(items) + ([255] + tail))
      <==> tail == [] || tail[0] == 0 || |tail| <= tail[0] as int
  {
    StandardIsFound(items, [255] + tail);
    assert Standard([255] + tail) == map[];
  }

  // ---------- The reply ----------

  type Address = a: bytes | |a| == 4 witness [0, 0, 0, 0]

  datatype Config = Config(lease: Address, server: Address, mask: Address, router: Address, dns: Address)

  /** `payload`; None is struct.error for a message shorter than its fixed fields. */
  function Payload(value: byte, message: bytes, c: Config): Option<bytes> {
    if |message| < 44 then None
    else Some(Fixed(message, c) + OptionBytes(value, c))
  }

  const COOKIE: bytes := [0x63, 0x82, 0x53, 0x63]

  /** The fixed fields of section 2 of RFC 2131 and the magic cookie. */
  function Fixed(message: bytes, c: Config): (r: bytes)
    requires |message| >= 44
    ensures |r| == 240
  {
    var xid, chaddr := message[4..8], message[28..44];
    [2, 1, 6, 0] + xid + Zeros(8) + c.lease + c.server + Zeros(4) + chaddr + Zeros(64) + Zeros(128) + COOKIE
  }

  /** The fields that do not depend on the message: a reply over Ethernet, two addresses, zeros and the magic cookie. */
  lemma FixedIs(message: bytes, c: Config)
    requires |message| >= 44
    ensures var r := Fixed(message, c);
      r[..4] == [2, 1, 6, 0] && r[4..8] == message[4..8] && r[28..44] == message[28..44]
      && r[16..20] == c.lease && r[20..24] == c.server && r[236..] == [0x63, 0x82, 0x53, 0x63]
      && forall k :: 8 <= k < 16 || 24 <= k < 28 || 44 <= k < 236 ==> r[k] == 0
  {
    var r, chaddr := Fixed(message, c), message[28..44];
    var front := [2, 1, 6, 0] + message[4..8] + Zeros(8) + c.lease + c.server + Zeros(4) + chaddr;
    assert r == front + Zeros(64) + Zeros(128) + COOKIE && |front| == 44;
  }

  function OptionBytes(value: byte, c: Config): bytes {
    [53, 1, value] + ([54, 4] + c.server) + ([1, 4] + c.mask) + ([3, 4] + c.router) + ([6, 4] + c.dns)
    + ([51, 4] + [0x00, 0x00, 0xa8, 0xc0]) + [0xff]
  }

  function ReplyItems(value: byte, c: Config): (r: seq<Item>)
    ensures Sendable(r)
  {
    [KeyValue(53, [value]), KeyValue(54, c.server), KeyValue(1, c.mask), KeyValue(3, c.router), KeyValue(6, c.dns),
     KeyValue(51, [0x00, 0x00, 0xa8, 0xc0])]
  }

  /** What a datagram is logged as: the client's hardware address, unless the datagram is too short, and its options. */
  datatype Report = Report(mac: Option<bytes>, options: Options)

  method DatagramReceived(data: bytes) returns (report: Report)
    ensures report == Report(if |data| < 34 then None else Some(data[28..34]),
                             Tlv(Drop(data, 240)))
  {
    var mac := if |Slice(data, 0, 34)| == 34 then Some(Slice(data, 28, 34)) else None;
    var options := ParseOptions(Drop(data, 240));
    RunIsTlv(map[], Drop(data, 240));
    assert map[] + Tlv(Drop(data, 240)) == Tlv(Drop(data, 240));
    assert |data| >= 34 ==> Slice(data, 28, 34) == data[28..34];
    report := Report(mac, options);
  }

  lemma OptionBytesAreItems(value: byte, c: Config)
    ensures OptionBytes(value, c) == Encode(ReplyItems(value, c)) + [0xff]
  {
    hide Encode;
    EncodeNothing();
    var items := ReplyItems(value, c);
    EncodeCons(items, 0);
    EncodeCons(items, 1);
    EncodeCons(items, 2);
    EncodeCons(items, 3);
    EncodeCons(items, 4);
    EncodeCons(items, 5);
    assert items[0..] == items && items[6..] == [];
    Reassociate([53, 1, value], [54, 4] + c.server, [1, 4] + c.mask, [3, 4] + c.router, [6, 4] + c.dns,
                [51, 4] + [0x00, 0x00, 0xa8, 0xc0], [0xff]);
    assert [53, 1] + [value] == [53, 1, value];
  }

  lemma Reassociate(a: bytes, b: bytes, c: bytes, d: bytes, e: bytes, f: bytes, g: bytes)
    ensures a + b + c + d + e + f + g == (a + (b + (c + (d + (e + (f + [])))))) + g
  {
  }

  lemma EncodeNothing()
    ensures Encode([]) == []
  {
  }

  lemma EncodeCons(items: seq<Item>, i: nat)
    requires Sendable(items) && i < |items|
    ensures Encode(items[i..]) == [items[i].key, |items[i].value|] + items[i].value + Encode(items[i + 1..])
  {
    assert items[i..][1..] == items[i + 1..];
  }

  /**
    * A reply keeps the transaction id and the client's hardware address in place, offers the lease, and is
    * read back by the server's own parser with its six options.
    */
  lemma ReplyRoundTrip(value: byte, message: bytes, c: Config)
    requires |message| >= 44
    ensures var reply := Payload(value, message, c).value;
      reply[..4] == [2, 1, 6, 0] && reply[4..8] == message[4..8] && reply[28..34] == message[28..34]
      && reply[16..20] == c.lease && reply[20..24] == c.server && reply[236..240] == COOKIE
      && Parsed(Tlv(reply[240..]), value, c)
  {
    FixedFields(message, c);
    var fixed, options := Fixed(message, c), OptionBytes(value, c);
    hide Fixed, OptionBytes, Tlv, LastWins, ReplyItems, Parsed;
    var reply := Payload(value, message, c).value;
    assert reply == fixed + options;
    assert reply[240..] == options;
    assert reply[..4] == fixed[..4] && reply[4..8] == fixed[4..8] && reply[28..34] == fixed[28..34];
    assert reply[16..20] == fixed[16..20] && reply[20..24] == fixed[20..24] && reply[236..240] == fixed[236..240];
    OptionBytesAreItems(value, c);
    TlvOfItems(ReplyItems(value, c), [0xff]);
    ReplyItemsLastWin(value, c);
    EndByteIsEmpty();
    MergeEmpty(LastWins(ReplyItems(value, c)));
  }

  /** Exactly the six options, each with its value. */
  predicate Parsed(options: Options, value: byte, c: Config) {
    && options.Keys == {53, 54, 1, 3, 6, 51}
    && options[53] == [value] && options[54] == c.server && options[1] == c.mask
    && options[3] == c.router && options[6] == c.dns && options[51] == [0x00, 0x00, 0xa8, 0xc0]
  }

  lemma EndByteIsEmpty()
    ensures Tlv([0xff]) == map[]
  {
  }

  lemma FixedFields(message: bytes, c: Config)
    requires |message| >= 44
    ensures var r := Fixed(message, c);
      r[..4] == [2, 1, 6, 0] && r[4..8] == message[4..8] && r[28..34] == message[28..34]
      && r[16..20] == c.lease && r[20..24] == c.server && r[236..240] == COOKIE
  {
    assert message[28..44][..6] == message[28..34];
    assert Fixed(message, c)[28..44] == message[28..44];
  }

  lemma ReplyItemsLastWin(value: byte, c: Config)
    ensures Parsed(LastWins(ReplyItems(value, c)), value, c)
  {
    var items := ReplyItems(value, c);
    hide LastWins;
    LastWinsIsLast(items, 0);
    LastWinsIsLast(items, 1);
    LastWinsIsLast(items, 2);
    LastWinsIsLast(items, 3);
    LastWinsIsLast(items, 4);
    LastWinsIsLast(items, 5);
    forall tag | tag in LastWins(items) ensures tag in {53, 54, 1, 3, 6, 51} {
      if tag !in {53, 54, 1, 3, 6, 51} { LastWinsOnlyKeys(items, tag); }
    }
  }
}
