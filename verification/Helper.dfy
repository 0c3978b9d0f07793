/** The log pipeline: a chain of handlers filters and rewrites one shared record. */
module Helper {
  import opened Prelude

  // ---------- Serialization ----------

  type NulFree = s: string | '\0' !in s witness ""

  /** A logged object: numbers, bytes and other leaves are given by their `str`, decoding and `repr`. */
  datatype Value =
    | Str(s: string)
    | Number(text: NulFree)
    | Raw(decoded: string)
    | Other(repr: string)
    | Items(items: seq<Value>)
    | Dict(fields: map<string, Value>)

  /** `s.replace("\x00", " ")` */
  function Clean(s: string): (r: string)
    ensures |r| == |s| && '\0' !in r
    ensures '\0' !in s ==> r == s
  {
    seq(|s|, i requires 0 <= i < |s| => if s[i] == '\0' then ' ' else s[i])
  }

  function SerializeObject(v: Value): Value {
    match v
    case Dict(fields) => Dict(map k | k in fields :: SerializeObject(fields[k]))
    case Items(items) => Items(seq(|items|, i requires 0 <= i < |items| => SerializeObject(items[i])))
    case Number(text) => Str(text)
    case Raw(decoded) => Str(Clean(decoded))
    case Str(s) => Str(Clean(s))
    case Other(repr) => Str(Clean(repr))
  }

  /** Only mappings, lists and strings without NUL, which any JSON encoder takes. */
  predicate Plain(v: Value) {
    match v
    case Dict(fields) => forall k | k in fields :: Plain(fields[k])
    case Items(items) => forall i | 0 <= i < |items| :: Plain(items[i])
    case Str(s) => '\0' !in s
    case _ => false
  }

  /** Same nesting of mappings and lists, with the same keys and lengths; leaves stay leaves. */
  predicate SameShape(a: Value, b: Value) {
    match a
    case Dict(fields) =>
      b.Dict? && b.fields.Keys == fields.Keys && forall k | k in fields :: SameShape(fields[k], b.fields[k])
    case Items(items) =>
      b.Items? && |b.items| == |items| && forall i | 0 <= i < |items| :: SameShape(items[i], b.items[i])
    case _ => !b.Dict? && !b.Items?
  }

  /** Serialization keeps the shape and leaves only NUL-free strings. */
  lemma {:induction false} SerializedIsPlain(v: Value)
    ensures Plain(SerializeObject(v)) && SameShape(v, SerializeObject(v))
  {
    match v
    case Dict(fields) =>
      forall k | k in fields
        ensures Plain(SerializeObject(fields[k])) && SameShape(fields[k], SerializeObject(fields[k]))
      {
        SerializedIsPlain(fields[k]);
      }
    case Items(items) =>
      forall i | 0 <= i < |items|
        ensures Plain(SerializeObject(items[i])) && SameShape(items[i], SerializeObject(items[i]))
      {
        SerializedIsPlain(items[i]);
      }
    case _ =>
  }

  /** Plain objects are exactly the fixed points, so serializing twice changes nothing more. */
  lemma {:induction false} PlainIsFixed(v: Value)
    ensures Plain(v) <==> SerializeObject(v) == v
  {
    match v
    case Dict(fields) =>
      forall k | k in fields ensures Plain(fields[k]) <==> SerializeObject(fields[k]) == fields[k] {
        PlainIsFixed(fields[k]);
      }
      if SerializeObject(v) == v {
        forall k | k in fields ensures Plain(fields[k]) {
          assert SerializeObject(v).fields[k] == SerializeObject(fields[k]);
        }
      }
    case Items(items) =>
      forall i | 0 <= i < |items| ensures Plain(items[i]) <==> SerializeObject(items[i]) == items[i] {
        PlainIsFixed(items[i]);
      }
      if SerializeObject(v) == v {
        forall i | 0 <= i < |items| ensures Plain(items[i]) {
          assert SerializeObject(v).items[i] == SerializeObject(items[i]);
        }
      }
    case Str(s) =>
    case _ =>
  }

  lemma SerializeTwice(v: Value)
    ensures SerializeObject(SerializeObject(v)) == SerializeObject(v)
  {
    SerializedIsPlain(v);
    PlainIsFixed(SerializeObject(v));
  }

  /** `r` is `v` as text: every character stays, but a space for NUL. */
  predicate SameText(s: string, r: Value) {
    r.Str? && |r.s| == |s| && forall i :: 0 <= i < |s| ==> r.s[i] == if s[i] == '\0' then ' ' else s[i]
  }

  /** What an object is written as, leaf by leaf. */
  predicate WrittenAs(v: Value, r: Value) {
    match v
    case Number(text) => r == Str(text)
    case Str(s) => SameText(s, r)
    case Raw(decoded) => SameText(decoded, r)
    case Other(repr) => SameText(repr, r)
    case Items(items) =>
      r.Items? && |r.items| == |items| && forall i | 0 <= i < |items| :: WrittenAs(items[i], r.items[i])
    case Dict(fields) =>
      r.Dict? && r.fields.Keys == fields.Keys && forall k | k in fields :: WrittenAs(fields[k], r.fields[k])
  }

  /** Serialization writes exactly that: numbers keep their text, and the other leaves every character but NUL. */
  lemma {:induction false} SerializedIsWritten(v: Value, r: Value)
    ensures WrittenAs(v, r) <==> r == SerializeObject(v)
  {
    match v
    case Dict(fields) =>
      if r.Dict? && r.fields.Keys == fields.Keys {
        forall k | k in fields
          ensures WrittenAs(fields[k], r.fields[k]) <==> r.fields[k] == SerializeObject(fields[k])
        {
          SerializedIsWritten(fields[k], r.fields[k]);
        }
        assert r == SerializeObject(v) <==> forall k | k in fields :: r.fields[k] == SerializeObject(fields[k]) by {
          if forall k | k in fields :: r.fields[k] == SerializeObject(fields[k]) {
            assert r.fields == SerializeObject(v).fields;
          }
        }
      }
    case Items(items) =>
      if r.Items? && |r.items| == |items| {
        forall i | 0 <= i < |items|
          ensures WrittenAs(items[i], r.items[i]) <==> r.items[i] == SerializeObject(items[i])
        {
          SerializedIsWritten(items[i], r.items[i]);
        }
        if forall i | 0 <= i < |items| :: r.items[i] == SerializeObject(items[i]) {
          assert r.items == SerializeObject(v).items;
        }
      }
    case Number(text) =>
    case Str(s) => CleanIsSameText(s, r);
    case Raw(s) => CleanIsSameText(s, r);
    case Other(s) => CleanIsSameText(s, r);
  }

  lemma CleanIsSameText(s: string, r: Value)
    ensures SameText(s, r) <==> r == Str(Clean(s))
  {
    if SameText(s, r) { assert r.s == Clean(s); }
  }

  // ---------- Renaming keys ----------

  type Fields = map<string, Value>

  type Change = seq<(string, string)>

  /** One entry of the `change` table: pop the old key and insert its value under the new one. */
  function RenameOne(m: Fields, c: (string, string)): Fields {
    if c.0 in m then (m - {c.0})[c.1 := m[c.0]] else m
  }

  function Rename(m: Fields, change: Change): Fields
    decreases |change|
  {
    if change == [] then m else Rename(RenameOne(m, change[0]), change[1..])
  }

  function RemoveAll(m: Fields, remove: seq<string>): Fields {
    map k | k in m && k !in remove :: m[k]
  }

  /** No old key is also a new key. */
  predicate Disjoint(change: Change) {
    forall i, j :: 0 <= i < |change| && 0 <= j < |change| ==> change[i].0 != change[j].1
  }

  /** Old keys are the keys of a dictionary, so they differ; here the new keys differ too. */
  predicate Distinct(change: Change) {
    forall i, j :: 0 <= i < j < |change| ==> change[i].0 != change[j].0 && change[i].1 != change[j].1
  }

  predicate Fresh(m: Fields, change: Change) {
    forall i :: 0 <= i < |change| ==> change[i].1 !in m
  }

  /** The name a key ends with when it is followed through the whole table. */
  function NewName(change: Change, key: string): string
    decreases |change|
  {
    if change == [] then key else NewName(change[1..], if change[0].0 == key then change[0].1 else key)
  }

  /** A renaming that cannot overwrite: its names are disjoint and distinct and no new one is taken. */
  predicate Injective(m: Fields, change: Change) {
    Disjoint(change) && Distinct(change) && Fresh(m, change)
  }

  /** For every table, the keys after the loop are the names that the keys before it end with. */
  lemma {:induction false} RenamedKeys(m: Fields, change: Change, key: string)
    ensures key in Rename(m, change) <==> exists o :: o in m && NewName(change, o) == key
    decreases |change|
  {
    if change == [] {
      assert key in m ==> NewName(change, key) == key;
    } else {
      var c, next := change[0], RenameOne(m, change[0]);
      RenamedKeys(next, change[1..], key);
      if o :| o in m && NewName(change, o) == key {
        var moved := if o == c.0 then c.1 else o;
        assert moved in next && NewName(change[1..], moved) == key;
      }
      if o :| o in next && NewName(change[1..], o) == key {
        var origin := if o == c.1 && c.0 in m then c.0 else o;
        assert origin in m && NewName(change, origin) == key;
      }
    }
  }

  /** Every value after the loop comes from a key that ends with its name. */
  lemma {:induction false} RenamedValue(m: Fields, change: Change, key: string) returns (origin: string)
    requires key in Rename(m, change)
    ensures origin in m && NewName(change, origin) == key && Rename(m, change)[key] == m[origin]
    decreases |change|
  {
    origin := key;
    if change != [] {
      origin := RenamedValue(RenameOne(m, change[0]), change[1..], key);
      if origin == change[0].1 && change[0].0 in m { origin := change[0].0; }
    }
  }

  lemma CleanTail(m: Fields, change: Change)
    requires Injective(m, change) && change != []
    ensures Injective(RenameOne(m, change[0]), change[1..])
  {
    var rest := change[1..];
    forall i | 0 <= i < |rest| ensures rest[i].1 !in RenameOne(m, change[0]) {
      assert rest[i] == change[i + 1];
    }
  }

  lemma {:induction false} RenameKeepsEntry(m: Fields, change: Change, key: string)
    requires Injective(m, change) && key in m
    ensures NewName(change, key) in Rename(m, change) && Rename(m, change)[NewName(change, key)] == m[key]
    decreases |change|
  {
    if change != [] {
      CleanTail(m, change);
      RenameKeepsEntry(RenameOne(m, change[0]), change[1..], if key == change[0].0 then change[0].1 else key);
    }
  }

  lemma {:induction false} RenameKeepsCount(m: Fields, change: Change)
    requires Injective(m, change)
    ensures |Rename(m, change)| == |m|
    decreases |change|
  {
    if change != [] {
      CleanTail(m, change);
      RenameKeepsCount(RenameOne(m, change[0]), change[1..]);
      RenameOneKeepsCount(m, change[0]);
    }
  }

  /**
    * With disjoint, distinct and fresh names the loop is a simultaneous renaming: every entry
    * survives under its new name, nothing else appears and no two entries collide.
    */
  lemma RenameIsImage(m: Fields, change: Change)
    requires Injective(m, change)
    ensures var r := Rename(m, change);
      (forall k :: k in m ==> NewName(change, k) in r && r[NewName(change, k)] == m[k])
      && r.Keys == (set k | k in m :: NewName(change, k))
      && |r| == |m|
  {
    forall k | k in m ensures NewName(change, k) in Rename(m, change) && Rename(m, change)[NewName(change, k)] == m[k] {
      RenameKeepsEntry(m, change, k);
    }
    forall k ensures k in Rename(m, change) <==> k in (set o | o in m :: NewName(change, o)) {
      RenamedKeys(m, change, k);
    }
    RenameKeepsCount(m, change);
  }

  lemma RenameOneKeepsCount(m: Fields, c: (string, string))
    requires c.1 !in m
    ensures |RenameOne(m, c)| == |m|
  {
    if c.0 in m {
      assert (m - {c.0}).Keys == m.Keys - {c.0};
      assert RenameOne(m, c).Keys == (m.Keys - {c.0}) + {c.1};
      assert |RenameOne(m, c).Keys| == |m.Keys|;
    }
  }

  lemma {:induction false} OtherKeepsName(change: Change, key: string)
    requires forall i :: 0 <= i < |change| ==> change[i].0 != key
    ensures NewName(change, key) == key
    decreases |change|
  {
    if change != [] { OtherKeepsName(change[1..], key); }
  }

  predicate NoSource(m: Fields, change: Change) {
    forall i :: 0 <= i < |change| ==> change[i].0 !in m
  }

  /** After the loop no old key is left. */
  lemma {:induction false} RenameLeavesNoSource(m: Fields, change: Change)
    requires Disjoint(change)
    ensures NoSource(Rename(m, change), change)
    decreases |change|
  {
    if change != [] {
      var c, rest := change[0], change[1..];
      RenameLeavesNoSource(RenameOne(m, c), rest);
      RenameAddsOnlyTargets(RenameOne(m, c), rest, c.0);
    }
  }

  lemma {:induction false} RenameAddsOnlyTargets(m: Fields, change: Change, key: string)
    requires key !in m && forall i :: 0 <= i < |change| ==> change[i].1 != key
    ensures key !in Rename(m, change)
    decreases |change|
  {
    if change != [] { RenameAddsOnlyTargets(RenameOne(m, change[0]), change[1..], key); }
  }

  lemma {:induction false} RenameWithoutSources(m: Fields, change: Change)
    requires NoSource(m, change)
    ensures Rename(m, change) == m
    decreases |change|
  {
    if change != [] {
      assert change[0].0 !in m;
      RenameWithoutSources(m, change[1..]);
    }
  }

  /** A second pass of the loop changes nothing. */
  lemma RenameTwice(m: Fields, change: Change)
    requires Disjoint(change)
    ensures Rename(Rename(m, change), change) == Rename(m, change)
  {
    RenameLeavesNoSource(m, change);
    RenameWithoutSources(Rename(m, change), change);
  }

  /** With disjoint names, a name that a key ends with stays as it is. */
  lemma NewNameIsFinal(change: Change, key: string)
    requires Disjoint(change)
    ensures NewName(change, NewName(change, key)) == NewName(change, key)
  {
    var one: Fields := map[key := Str("")];
    RenamedKeys(one, change, NewName(change, key));
    RenameLeavesNoSource(one, change);
    assert key in one;
    OtherKeepsName(change, NewName(change, key));
  }

  // ---------- The filter ----------

  datatype Filter = Filter(options: seq<string>, change: Change, remove: seq<string>, contains: Option<seq<string>>)

  /** The clock reading and the `repr` of an exception, for one pass. */
  datatype Env = Env(now: string, fault: string)

  predicate Substring(s: string, sub: string) { Find(s, sub).Some? }

  /** `s.replace(sub, "")` for a non-empty `sub`. */
  function Erase(s: string, sub: string): string
    requires sub != []
    decreases |s|
  {
    if s == [] then []
    else if StartsWith(s, sub) then Erase(s[|sub|..], sub)
    else [s[0]] + Erase(s[1..], sub)
  }

  /** `"error" in record.msg`; None is the TypeError of an object without membership. */
  function MentionsError(msg: Value): Option<bool> {
    match msg
    case Str(s) => Some(Substring(s, "error"))
    case Items(items) => Some(Str("error") in items)
    case Dict(fields) => Some("error" in fields)
    case _ => None
  }

  predicate IsProcess(m: Fields) { "action" in m && m["action"] == Str("process") }

  predicate ServerFaults(f: Filter, m: Fields) {
    "remove_word_server" in f.options && "server" in m && !m["server"].Str?
  }

  function StripServer(f: Filter, m: Fields): Fields
    requires !ServerFaults(f, m)
  {
    if "remove_word_server" in f.options && "server" in m
    then m["server" := Str(Erase(m["server"].s, "_server"))] else m
  }

  predicate Missing(f: Filter, m: Fields) {
    f.contains.Some? && exists i :: 0 <= i < |f.contains.value| && f.contains.value[i] !in m
  }

  /** What one pass does: the object to write (None drops the record) and the message left in the record. */
  datatype Pass = Pass(result: Option<Value>, msg: Value)

  function Fault(name: string, env: Env): Value {
    SerializeObject(Dict(map["name" := Str(name), "error" := Str(env.fault)]))
  }

  function Stamp(m: Fields, env: Env): Value {
    SerializeObject(Dict(map["timestamp" := Str(env.now)] + m))
  }

  function Rewritten(f: Filter, m: Fields): Fields
    requires !ServerFaults(f, m)
  {
    RemoveAll(Rename(StripServer(f, m), f.change), f.remove)
  }

  /** The filter on a mapping. */
  function FilterFields(f: Filter, name: string, env: Env, m: Fields): Pass {
    if "remove_errors" in f.options && "error" in m then Pass(None, Dict(m))
    else if "remove_init" in f.options && IsProcess(m) then Pass(None, Dict(m))
    else if ServerFaults(f, m) then Pass(Some(Fault(name, env)), Dict(m))
    else
      var after := Rewritten(f, m);
      Pass(if Missing(f, after) then None else Some(Stamp(after, env)), Dict(after))
  }

  /** `_serialize_message` */
  function Filtered(filter: Option<Filter>, name: string, env: Env, msg: Value): Pass {
    if msg.Dict? then
      match filter
      case None => Pass(Some(Stamp(msg.fields, env)), msg)
      case Some(f) => FilterFields(f, name, env, msg.fields)
    else if filter.Some? && "remove_errors" in filter.value.options && MentionsError(msg) != Some(false) then
      Pass(if MentionsError(msg) == None then Some(Fault(name, env)) else None, msg)
    else Pass(Some(SerializeObject(msg)), msg)
  }

  /** The passes of the two loops over the tables. */
  lemma RenameStep(m: Fields, change: Change, i: nat)
    requires i < |change|
    ensures Rename(m, change[i..]) == Rename(RenameOne(m, change[i]), change[i + 1..])
  {
    assert change[i..][1..] == change[i + 1..];
  }

  lemma RenameNothing(m: Fields, change: Change)
    ensures Rename(m, change[|change|..]) == m
  {
  }

  lemma RemoveStep(m: Fields, remove: seq<string>, i: nat)
    requires i < |remove|
    ensures RemoveAll(m, remove[..i + 1]) == RemoveAll(m, remove[..i]) - {remove[i]}
  {
    assert remove[..i + 1] == remove[..i] + [remove[i]];
  }

  lemma RemoveNothing(m: Fields, remove: seq<string>)
    ensures RemoveAll(m, remove[..0]) == m
  {
  }

  class LogRecord {
    const name: string
    var msg: Value

    constructor (name: string, msg: Value)
      ensures this.name == name && this.msg == msg
    {
      this.name, this.msg := name, msg;
    }

    /** `_serialize_message` rewrites the message in place while it decides. */
    method SerializeMessage(filter: Option<Filter>, env: Env) returns (result: Option<Value>)
      modifies this`msg
      ensures Pass(result, msg) == Filtered(filter, name, env, old(msg))
    {
      hide SerializeObject, Erase, Missing, IsProcess, Fault, Stamp, Substring, Rename, RemoveAll;
      if filter.Some? {
        var f := filter.value;
        if "remove_errors" in f.options {
          var mentions := MentionsError(msg);
          if mentions == None { return Some(Fault(name, env)); }
          if mentions.value { return None; }
        }
        if msg.Dict? {
          ghost var before := msg.fields;
          if "remove_init" in f.options && IsProcess(msg.fields) { return None; }
          if "remove_word_server" in f.options && "server" in msg.fields {
            if !msg.fields["server"].Str? { return Some(Fault(name, env)); }
            msg := Dict(msg.fields["server" := Str(Erase(msg.fields["server"].s, "_server"))]);
          }
          for i := 0 to |f.change|
            invariant msg.Dict?
            invariant Rename(msg.fields, f.change[i..]) == Rename(StripServer(f, before), f.change)
          {
            RenameStep(msg.fields, f.change, i);
            var (oldKey, newKey) := f.change[i];
            if oldKey in msg.fields {
              var value := msg.fields[oldKey];
              msg := Dict(msg.fields - {oldKey});
              msg := Dict(msg.fields[newKey := value]);
            }
          }
          ghost var renamed := msg.fields;
          RenameNothing(msg.fields, f.change);
          RemoveNothing(renamed, f.remove);
          for i := 0 to |f.remove|
            invariant msg.Dict? && msg.fields == RemoveAll(renamed, f.remove[..i])
          {
            RemoveStep(renamed, f.remove, i);
            msg := Dict(msg.fields - {f.remove[i]});
          }
          assert f.remove[..|f.remove|] == f.remove;
          if Missing(f, msg.fields) { return None; }
        }
      }
      if msg.Dict? { return Some(Stamp(msg.fields, env)); }
      result := Some(SerializeObject(msg));
    }

    /** `_parse_record`: true when the record goes on to its destination. */
    method ParseRecord(filter: Option<Filter>, kind: Kind, env: Env, dumps: Value -> Json) returns (kept: bool)
      modifies this`msg
      ensures (kept, msg) == Parsed(filter, kind, env, dumps, name, old(msg))
    {
      var serialized := SerializeMessage(filter, env);
      if serialized == None || Empty(serialized.value) { return false; }
      match kind {
        case File =>
          if filter.Some? && "dump_json_to_file" in filter.value.options {
            msg := Str(dumps(serialized.value));
          }
        case Sqlite =>
        case Terminal =>
          msg := Str(dumps(serialized.value));
      }
      kept := true;
    }
  }

  // ---------- The handlers ----------

  /** The text of a JSON document is never empty. */
  type Json = s: string | |s| > 0 witness "{}"

  datatype Kind = Terminal | File | Sqlite

  /** The falsy objects, which `_parse_record` drops. */
  predicate Empty(v: Value) {
    match v
    case Str(s) => s == ""
    case Items(items) => items == []
    case Dict(fields) => fields == map[]
    case _ => false
  }

  /** The two kinds of pass that replace the message by JSON text. */
  predicate Dumps(filter: Option<Filter>, kind: Kind) {
    kind.Terminal? || (kind.File? && filter.Some? && "dump_json_to_file" in filter.value.options)
  }

  function Parsed(filter: Option<Filter>, kind: Kind, env: Env, dumps: Value -> Json, name: string, msg: Value)
    : (bool, Value)
  {
    var pass := Filtered(filter, name, env, msg);
    if pass.result == None || Empty(pass.result.value) then (false, pass.msg)
    else
      (true, if Dumps(filter, kind) then Str(dumps(pass.result.value)) else pass.msg)
  }

  /** A destination and the clock and fault of the pass made for it. */
  datatype Stop = Stop(kind: Kind, env: Env)

  /** The message that a destination writes. */
  datatype Delivery = Delivery(kind: Kind, msg: Value)

  datatype Trace = Trace(deliveries: seq<Delivery>, msg: Value)

  /** One record through several destinations: every pass filters what the one before it left in the record. */
  function Chain(filter: Option<Filter>, stops: seq<Stop>, dumps: Value -> Json, name: string, msg: Value): Trace
    decreases |stops|
  {
    if stops == [] then Trace([], msg)
    else
      var (kept, after) := Parsed(filter, stops[0].kind, stops[0].env, dumps, name, msg);
      var rest := Chain(filter, stops[1..], dumps, name, after);
      Trace((if kept then [Delivery(stops[0].kind, after)] else []) + rest.deliveries, rest.msg)
  }

  /** The destinations of `CustomHandler` in the order of its tests; "syslog" writes to the terminal too. */
  class CustomHandler {
    const filter: Option<Filter>
    const sqlite: bool
    const terminal: bool
    const syslog: bool
    var written: seq<Delivery>

    constructor (filter: Option<Filter>, sqlite: bool, terminal: bool, syslog: bool)
      ensures this.filter == filter && this.sqlite == sqlite && this.terminal == terminal && this.syslog == syslog
      ensures written == []
    {
      this.filter, this.sqlite, this.terminal, this.syslog := filter, sqlite, terminal, syslog;
      written := [];
    }

    function Stops(first: Env, second: Env, third: Env): seq<Stop> {
      (if sqlite then [Stop(Sqlite, first)] else []) + (if terminal then [Stop(Terminal, second)] else [])
      + (if syslog then [Stop(Terminal, third)] else [])
    }

    /** The destinations of a logger: without database and terminal, the handler is not added. */
    function Added(first: Env, second: Env, third: Env): seq<Stop> {
      if sqlite || terminal then Stops(first, second, third) else []
    }

    method Deliver(record: LogRecord, stop: Stop, dumps: Value -> Json)
      modifies this`written, record`msg
      ensures var t := Chain(filter, [stop], dumps, record.name, old(record.msg));
        record.msg == t.msg && written == old(written) + t.deliveries
    {
      ChainOne(filter, stop, dumps, record.name, record.msg);
      hide Parsed, Chain;
      var kept := record.ParseRecord(filter, stop.kind, stop.env, dumps);
      if kept { written := written + [Delivery(stop.kind, record.msg)]; }
    }

    method Emit(record: LogRecord, first: Env, second: Env, third: Env, dumps: Value -> Json)
      modifies this`written, record`msg
      ensures var t := Chain(filter, Stops(first, second, third), dumps, record.name, old(record.msg));
        record.msg == t.msg && written == old(written) + t.deliveries
    {
      hide Chain;
      ghost var stops: seq<Stop> := [];
      ChainNothing(filter, dumps, record.name, record.msg);
      if sqlite {
        ChainAppend(filter, stops, [Stop(Sqlite, first)], dumps, record.name, old(record.msg));
        Deliver(record, Stop(Sqlite, first), dumps);
        stops := stops + [Stop(Sqlite, first)];
      }
      if terminal {
        ChainAppend(filter, stops, [Stop(Terminal, second)], dumps, record.name, old(record.msg));
        Deliver(record, Stop(Terminal, second), dumps);
        stops := stops + [Stop(Terminal, second)];
      }
      if syslog {
        ChainAppend(filter, stops, [Stop(Terminal, third)], dumps, record.name, old(record.msg));
        Deliver(record, Stop(Terminal, third), dumps);
        stops := stops + [Stop(Terminal, third)];
      }
      assert stops == Stops(first, second, third);
    }
  }

  class FileHandler {
    const filter: Option<Filter>
    var written: seq<Delivery>

    constructor (filter: Option<Filter>)
      ensures this.filter == filter && written == []
    {
      this.filter, written := filter, [];
    }

    method Emit(record: LogRecord, env: Env, dumps: Value -> Json)
      modifies this`written, record`msg
      ensures var t := Chain(filter, [Stop(File, env)], dumps, record.name, old(record.msg));
        record.msg == t.msg && written == old(written) + t.deliveries
    {
      ChainOne(filter, Stop(File, env), dumps, record.name, record.msg);
      hide Parsed, Chain;
      var kept := record.ParseRecord(filter, File, env, dumps);
      if kept { written := written + [Delivery(File, record.msg)]; }
    }
  }

  /**
    * `setup_logger` adds the custom handler before the file handler, but only for the database or the terminal, and
    * both get the same record: first the chain of the custom handler, then the file with the message it left.
    */
  method Log(custom: CustomHandler, file: FileHandler, name: string, m: Fields,
             first: Env, second: Env, third: Env, fourth: Env, dumps: Value -> Json)
    requires custom.filter == file.filter
    modifies custom`written, file`written
    ensures
      var stops := custom.Added(first, second, third);
      var shown := Chain(file.filter, stops, dumps, name, Dict(m));
      var filed := Chain(file.filter, [Stop(File, fourth)], dumps, name, shown.msg);
      custom.written == old(custom.written) + shown.deliveries && file.written == old(file.written) + filed.deliveries
      && shown.deliveries + filed.deliveries
         == Chain(file.filter, stops + [Stop(File, fourth)], dumps, name, Dict(m)).deliveries
  {
    var record := new LogRecord(name, Dict(m));
    ghost var stops := custom.Added(first, second, third);
    ChainNothing(file.filter, dumps, name, Dict(m));
    hide Chain;
    if custom.sqlite || custom.terminal {
      custom.Emit(record, first, second, third, dumps);
    }
    file.Emit(record, fourth, dumps);
    ChainAppend(file.filter, stops, [Stop(File, fourth)], dumps, name, Dict(m));
  }

  /** The destinations in their order; a handler with "syslog" alone is not added. */
  lemma StopsAre(h: CustomHandler, first: Env, second: Env, third: Env)
    ensures h.sqlite && h.terminal && h.syslog
      ==> h.Stops(first, second, third) == [Stop(Sqlite, first), Stop(Terminal, second), Stop(Terminal, third)]
    ensures !h.sqlite && h.terminal && h.syslog
      ==> h.Stops(first, second, third) == [Stop(Terminal, second), Stop(Terminal, third)]
    ensures h.sqlite && !h.terminal && h.syslog
      ==> h.Stops(first, second, third) == [Stop(Sqlite, first), Stop(Terminal, third)]
    ensures !h.sqlite && !h.terminal ==> h.Added(first, second, third) == []
    ensures h.sqlite || h.terminal ==> h.Added(first, second, third) == h.Stops(first, second, third)
  {
  }

  lemma ChainNothing(filter: Option<Filter>, dumps: Value -> Json, name: string, msg: Value)
    ensures Chain(filter, [], dumps, name, msg) == Trace([], msg)
  {
  }

  lemma ChainCons(filter: Option<Filter>, stop: Stop, rest: seq<Stop>, dumps: Value -> Json, name: string, msg: Value)
    ensures var (kept, after) := Parsed(filter, stop.kind, stop.env, dumps, name, msg);
      var t := Chain(filter, rest, dumps, name, after);
      Chain(filter, [stop] + rest, dumps, name, msg)
      == Trace((if kept then [Delivery(stop.kind, after)] else []) + t.deliveries, t.msg)
  {
    hide Parsed;
    assert ([stop] + rest)[1..] == rest;
  }

  lemma ChainOne(filter: Option<Filter>, stop: Stop, dumps: Value -> Json, name: string, msg: Value)
    ensures var (kept, after) := Parsed(filter, stop.kind, stop.env, dumps, name, msg);
      Chain(filter, [stop], dumps, name, msg) == Trace(if kept then [Delivery(stop.kind, after)] else [], after)
  {
    hide Parsed, Chain;
    ChainCons(filter, stop, [], dumps, name, msg);
    ChainNothing(filter, dumps, name, Parsed(filter, stop.kind, stop.env, dumps, name, msg).1);
    assert [stop] + [] == [stop];
  }

  /** Passing two groups of destinations is passing them in one row. */
  lemma {:induction false} ChainAppend(filter: Option<Filter>, a: seq<Stop>, b: seq<Stop>,
                                       dumps: Value -> Json, name: string, msg: Value)
    ensures var t := Chain(filter, a, dumps, name, msg);
      var u := Chain(filter, b, dumps, name, t.msg);
      Chain(filter, a + b, dumps, name, msg) == Trace(t.deliveries + u.deliveries, u.msg)
    decreases |a|
  {
    hide Parsed, Chain;
    if a == [] {
      ChainNothing(filter, dumps, name, msg);
      assert a + b == b;
    } else {
      ChainCons(filter, a[0], a[1..], dumps, name, msg);
      ChainCons(filter, a[0], a[1..] + b, dumps, name, msg);
      ChainAppend(filter, a[1..], b, dumps, name, Parsed(filter, a[0].kind, a[0].env, dumps, name, msg).1);
      assert [a[0]] + a[1..] == a && [a[0]] + (a[1..] + b) == a + b;
    }
  }

  lemma ChainTwo(filter: Option<Filter>, first: Stop, next: Stop, dumps: Value -> Json, name: string, msg: Value)
    ensures var (kept1, msg1) := Parsed(filter, first.kind, first.env, dumps, name, msg);
      var (kept2, msg2) := Parsed(filter, next.kind, next.env, dumps, name, msg1);
      Chain(filter, [first, next], dumps, name, msg).deliveries
      == (if kept1 then [Delivery(first.kind, msg1)] else []) + (if kept2 then [Delivery(next.kind, msg2)] else [])
  {
    hide Parsed, Chain;
    ChainCons(filter, first, [next], dumps, name, msg);
    ChainOne(filter, next, dumps, name, Parsed(filter, first.kind, first.env, dumps, name, msg).1);
    assert [first] + [next] == [first, next];
  }

  /** What the destinations behind a terminal get of the JSON text that it left in the record. */
  function Texts(filter: Option<Filter>, stops: seq<Stop>, dumps: Value -> Json, json: Json): seq<Delivery> {
    if stops == [] || (filter.Some? && "remove_errors" in filter.value.options && Substring(json, "error")) then []
    else
      var text := if Dumps(filter, stops[0].kind) then dumps(Str(Clean(json))) else json;
      [Delivery(stops[0].kind, Str(text))] + Texts(filter, stops[1..], dumps, text)
  }

  /**
    * Text passes the destinations unchanged, but for another terminal or `dump_json_to_file`, which quote it once
    * more; with `remove_errors`, the first text that mentions an error reaches no destination any more.
    */
  lemma {:induction false} TextChain(filter: Option<Filter>, stops: seq<Stop>, dumps: Value -> Json,
                                     name: string, json: Json)
    ensures Chain(filter, stops, dumps, name, Str(json)).deliveries == Texts(filter, stops, dumps, json)
    ensures filter.None? || "remove_errors" !in filter.value.options ==> |Texts(filter, stops, dumps, json)| == |stops|
    decreases |stops|
  {
    if stops != [] {
      TextPass(filter, stops[0], dumps, name, json);
      var text := if Dumps(filter, stops[0].kind) then dumps(Str(Clean(json))) else json;
      if filter.Some? && "remove_errors" in filter.value.options && Substring(json, "error") {
        DroppedTextStays(filter, stops, dumps, name, json);
      } else {
        hide Parsed, Clean, Substring;
        TextChain(filter, stops[1..], dumps, name, text);
      }
    }
  }

  lemma {:induction false} DroppedTextStays(filter: Option<Filter>, stops: seq<Stop>, dumps: Value -> Json,
                                            name: string, json: Json)
    requires filter.Some? && "remove_errors" in filter.value.options && Substring(json, "error")
    ensures Chain(filter, stops, dumps, name, Str(json)).deliveries == []
    decreases |stops|
  {
    if stops != [] {
      TextPass(filter, stops[0], dumps, name, json);
      hide Parsed, Substring;
      DroppedTextStays(filter, stops[1..], dumps, name, json);
    }
  }

  lemma TextPass(filter: Option<Filter>, next: Stop, dumps: Value -> Json, name: string, json: Json)
    ensures Parsed(filter, next.kind, next.env, dumps, name, Str(json))
      == if filter.Some? && "remove_errors" in filter.value.options && Substring(json, "error") then (false, Str(json))
         else (true, Str(if Dumps(filter, next.kind) then dumps(Str(Clean(json))) else json))
  {
  }

  /**
    * An accepted mapping reaches the terminal as its JSON text, and whatever destinations follow, in any number,
    * get that text as `Texts` says.
    */
  lemma AcceptedIsText(filter: Option<Filter>, first: Env, rest: seq<Stop>, dumps: Value -> Json,
                       name: string, m: Fields)
    requires Filtered(filter, name, first, Dict(m)).result.Some?
    ensures var json := dumps(Filtered(filter, name, first, Dict(m)).result.value);
      Chain(filter, [Stop(Terminal, first)] + rest, dumps, name, Dict(m)).deliveries
      == [Delivery(Terminal, Str(json))] + Texts(filter, rest, dumps, json)
  {
    ResultIsNotEmpty(filter, name, first, m);
    var json := dumps(Filtered(filter, name, first, Dict(m)).result.value);
    assert Parsed(filter, Terminal, first, dumps, name, Dict(m)) == (true, Str(json));
    hide Parsed, Filtered, Texts, Chain;
    ChainCons(filter, Stop(Terminal, first), rest, dumps, name, Dict(m));
    TextChain(filter, rest, dumps, name, json);
  }

  lemma ResultIsNotEmpty(filter: Option<Filter>, name: string, env: Env, m: Fields)
    requires Filtered(filter, name, env, Dict(m)).result.Some?
    ensures !Empty(Filtered(filter, name, env, Dict(m)).result.value)
  {
    var r := Filtered(filter, name, env, Dict(m)).result.value;
    assert r.Dict? && ("timestamp" in r.fields || "error" in r.fields);
  }

  // ---------- What is written ----------

  /** `w` is `s` without "_server": the first occurrence is cut out, and what follows it is treated alike. */
  predicate Erased(s: string, w: string)
    decreases |s|
  {
    match Find(s, "_server")
    case None => w == s
    case Some(i) => |w| >= i && w[..i] == s[..i] && Erased(s[i + 7..], w[i..])
  }

  lemma {:induction false} EraseIsErased(s: string)
    ensures Erased(s, Erase(s, "_server"))
    decreases |s|
  {
    hide Find, Erased;
    var sub := "_server";
    if s == [] {
      assert Find(s, sub).None?;
      ErasedNowhere(s);
    } else if StartsWith(s, sub) {
      assert OccursAt(s, sub, 0);
      FindIs(s, sub, 0);
      EraseIsErased(s[7..]);
      ErasedHere(s, [], Erase(s[7..], sub));
    } else {
      var rest := s[1..];
      EraseIsErased(rest);
      FindBehind(s, sub);
      ErasedBehind(s, Erase(rest, sub));
    }
  }

  lemma ErasedNowhere(s: string)
    requires Find(s, "_server").None?
    ensures Erased(s, s)
  {
  }

  lemma ErasedHere(s: string, front: string, w: string)
    requires Find(s, "_server") == Some(|front|) && s[..|front|] == front && Erased(s[|front| + 7..], w)
    ensures Erased(s, front + w)
  {
    assert (front + w)[..|front|] == front && (front + w)[|front|..] == w;
  }

  lemma FindBehind(s: string, sub: string)
    requires s != [] && sub != [] && !StartsWith(s, sub)
    ensures match Find(s[1..], sub) case None => Find(s, sub).None? case Some(i) => Find(s, sub) == Some(i + 1)
  {
    hide Find;
    assert !OccursAt(s, sub, 0);
    forall j: nat ensures OccursAt(s[1..], sub, j) <==> OccursAt(s, sub, j + 1) {
      if j + 1 + |sub| <= |s| { assert s[1..][j..j + |sub|] == s[j + 1..j + 1 + |sub|]; }
    }
    hide OccursAt;
    match Find(s[1..], sub)
    case None =>
      forall j: nat ensures !OccursAt(s, sub, j) { if j > 0 { assert !OccursAt(s[1..], sub, j - 1); } }
    case Some(i) =>
      forall j: nat | j < i + 1 ensures !OccursAt(s, sub, j) { if j > 0 { assert !OccursAt(s[1..], sub, j - 1); } }
      FindIs(s, sub, i + 1);
  }

  lemma ErasedBehind(s: string, w: string)
    requires s != [] && !StartsWith(s, "_server") && Erased(s[1..], w)
    requires match Find(s[1..], "_server")
      case None => Find(s, "_server").None?
      case Some(i) => Find(s, "_server") == Some(i + 1)
    ensures Erased(s, [s[0]] + w)
  {
    hide Find;
    var found := Find(s[1..], "_server");
    if found.None? {
      assert s == [s[0]] + s[1..];
    } else {
      var i := found.value;
      var front := s[..i + 1];
      assert front == [s[0]] + s[1..][..i];
      assert s[1..][i + 7..] == s[i + 8..];
      assert Erased(s[i + 8..], w[i..]) && front + w[i..] == [s[0]] + w;
      hide Erased;
      ErasedHere(s, front, w[i..]);
    }
  }

  /** What `remove_word_server` leaves of the value under a key. */
  predicate LeftOf(f: Filter, key: string, v: Value, w: Value) {
    if "remove_word_server" in f.options && key == "server" then v.Str? && w.Str? && Erased(v.s, w.s) else w == v
  }

  /** The value under `o` is written under `key`, where the table takes it and from where it is not removed. */
  ghost predicate WrittenFrom(f: Filter, m: Fields, o: string, key: string, r: Value) {
    o in m && NewName(f.change, o) == key && key !in f.remove
    && exists w :: LeftOf(f, o, m[o], w) && WrittenAs(w, r)
  }

  lemma StripLeaves(f: Filter, m: Fields, o: string)
    requires !ServerFaults(f, m) && o in m
    ensures o in StripServer(f, m) && LeftOf(f, o, m[o], StripServer(f, m)[o])
  {
    if "server" in m && m["server"].Str? { EraseIsErased(m["server"].s); }
  }

  lemma RewrittenIsWritten(f: Filter, m: Fields, key: string)
    requires !ServerFaults(f, m)
    ensures key in Rewritten(f, m) <==> key !in f.remove && exists o :: o in m && NewName(f.change, o) == key
    ensures key in Rewritten(f, m)
      ==> exists o :: WrittenFrom(f, m, o, key, SerializeObject(Rewritten(f, m)[key]))
  {
    RewrittenKeys(f, m, key);
    if key in Rewritten(f, m) {
      var o := RewrittenValue(f, m, key);
      StripLeaves(f, m, o);
      var w := StripServer(f, m)[o];
      SerializedIsWritten(w, SerializeObject(w));
      hide Rewritten, StripServer, SerializeObject;
      assert WrittenFrom(f, m, o, key, SerializeObject(Rewritten(f, m)[key]));
    }
    if o :| o in m && NewName(f.change, o) == key && key !in f.remove { assert After(f, o) == Some(key); }
  }

  lemma StampFields(m: Fields, env: Env)
    ensures var r := Stamp(m, env);
      r.Dict? && r.fields.Keys == m.Keys + {"timestamp"}
      && (forall k :: k in m ==> r.fields[k] == SerializeObject(m[k]))
      && ("timestamp" !in m ==> SameText(env.now, r.fields["timestamp"]))
  {
    var r := Stamp(m, env);
    var all := map["timestamp" := Str(env.now)] + m;
    assert r.fields.Keys == all.Keys;
    if "timestamp" !in m {
      assert all["timestamp"] == Str(env.now);
      assert r.fields["timestamp"] == SerializeObject(all["timestamp"]);
      SerializedIsWritten(Str(env.now), SerializeObject(Str(env.now)));
    }
  }

  /**
    * What an accepted mapping is written as: under a key, the text of a value that the table takes there, unless it
    * is removed; and the clock of this pass under "timestamp", unless the mapping has its own.
    */
  lemma AcceptedIsWritten(f: Filter, name: string, env: Env, m: Fields, key: string)
    requires !ServerFaults(f, m) && Filtered(Some(f), name, env, Dict(m)).result.Some?
    ensures var r := Filtered(Some(f), name, env, Dict(m)).result.value;
      var here := key !in f.remove && exists o :: o in m && NewName(f.change, o) == key;
      r.Dict? && (key in r.fields <==> here || key == "timestamp")
      && (here ==> exists o :: WrittenFrom(f, m, o, key, r.fields[key]))
      && (!here && key == "timestamp" ==> SameText(env.now, r.fields[key]))
  {
    RewrittenIsWritten(f, m, key);
    StampFields(Rewritten(f, m), env);
    hide Rewritten, Stamp, SerializeObject, NewName, WrittenFrom;
  }

  /** Without a filter every key is written, and a mapping is never dropped. */
  lemma UnfilteredIsWritten(name: string, env: Env, m: Fields)
    ensures var p := Filtered(None, name, env, Dict(m));
      p.msg == Dict(m) && p.result.Some? && p.result.value.Dict?
      && p.result.value.fields.Keys == m.Keys + {"timestamp"}
      && (forall k :: k in m ==> WrittenAs(m[k], p.result.value.fields[k]))
      && ("timestamp" !in m ==> SameText(env.now, p.result.value.fields["timestamp"]))
  {
    StampFields(m, env);
    hide Stamp;
    forall k | k in m ensures WrittenAs(m[k], SerializeObject(m[k])) {
      SerializedIsWritten(m[k], SerializeObject(m[k]));
    }
  }

  /** The record's name and the exception, as text. */
  predicate IsFault(name: string, env: Env, r: Value) {
    r.Dict? && r.fields.Keys == {"name", "error"}
    && SameText(name, r.fields["name"]) && SameText(env.fault, r.fields["error"])
  }

  lemma FaultFields(name: string, env: Env)
    ensures IsFault(name, env, Fault(name, env))
  {
    var d := Dict(map["name" := Str(name), "error" := Str(env.fault)]);
    SerializedIsWritten(d, SerializeObject(d));
  }

  /** A value under "server" that is no string is an error when its suffix is to be stripped. */
  lemma FaultIsWritten(f: Filter, name: string, env: Env, m: Fields)
    requires "remove_word_server" in f.options && "server" in m && !m["server"].Str?
    requires "remove_errors" in f.options ==> "error" !in m
    requires "remove_init" in f.options ==> "action" !in m || m["action"] != Str("process")
    ensures var p := Filtered(Some(f), name, env, Dict(m));
      p.msg == Dict(m) && p.result.Some? && IsFault(name, env, p.result.value)
  {
    FaultFields(name, env);
  }

  /** Exactly these mappings are dropped. */
  lemma DroppedExactly(f: Filter, name: string, env: Env, m: Fields)
    ensures Filtered(Some(f), name, env, Dict(m)).result == None
      <==> ("remove_errors" in f.options && "error" in m)
           || ("remove_init" in f.options && "action" in m && m["action"] == Str("process"))
           || (!("remove_word_server" in f.options && "server" in m && !m["server"].Str?)
               && exists c :: c in Required(f)
                              && (c in f.remove || forall o :: o in m ==> NewName(f.change, o) != c))
  {
    if !ServerFaults(f, m) {
      MissingIs(f, Rewritten(f, m));
      forall c ensures c in Rewritten(f, m) <==> c !in f.remove && exists o :: o in m && NewName(f.change, o) == c {
        RewrittenIsWritten(f, m, c);
      }
      hide Rewritten, NewName, Stamp;
      if c :| c in Required(f) && c !in Rewritten(f, m) {
        assert c in Required(f) && (c in f.remove || forall o :: o in m ==> NewName(f.change, o) != c);
      }
    }
  }

  /** What a pass over a mapping leaves in the record before any dump: the rewritten mapping, unless it stops early. */
  lemma LeftInRecord(f: Filter, name: string, env: Env, m: Fields, key: string)
    ensures var left := Filtered(Some(f), name, env, Dict(m)).msg;
      var stopped := ("remove_errors" in f.options && "error" in m)
                     || ("remove_init" in f.options && "action" in m && m["action"] == Str("process"))
                     || ("remove_word_server" in f.options && "server" in m && !m["server"].Str?);
      left.Dict? && (stopped ==> left == Dict(m))
      && (!stopped ==>
            (key in left.fields <==> key !in f.remove && exists o :: o in m && NewName(f.change, o) == key)
            && (key in left.fields ==> exists o :: o in m && NewName(f.change, o) == key
                                                 && LeftOf(f, o, m[o], left.fields[key])))
  {
    if !ServerFaults(f, m) {
      RewrittenIsWritten(f, m, key);
      if key in Rewritten(f, m) {
        var o := RewrittenValue(f, m, key);
        StripLeaves(f, m, o);
      }
    }
    hide Rewritten, NewName, StripServer, Stamp, Fault, LeftOf;
  }

  /** A message that is no mapping: `remove_errors` looks for "error" in it, and raises for one without members. */
  lemma OtherIsWritten(filter: Option<Filter>, name: string, env: Env, msg: Value)
    requires !msg.Dict?
    ensures var p := Filtered(filter, name, env, msg);
      var tested := filter.Some? && "remove_errors" in filter.value.options;
      p.msg == msg
      && (p.result == None <==> tested && ((msg.Str? && exists i :: OccursAt(msg.s, "error", i))
                                            || (msg.Items? && Str("error") in msg.items)))
      && (p.result.Some? && (!tested || msg.Str? || msg.Items?) ==> WrittenAs(msg, p.result.value))
      && (tested && !msg.Str? && !msg.Items? ==> p.result.Some? && IsFault(name, env, p.result.value))
  {
    FaultFields(name, env);
    hide SerializeObject, Fault, IsFault;
    SerializedIsWritten(msg, SerializeObject(msg));
  }

  /** What is kept and what is left in the record after a pass for a destination. */
  lemma ParsedExactly(filter: Option<Filter>, stop: Stop, dumps: Value -> Json, name: string, msg: Value)
    ensures var pass := Filtered(filter, name, stop.env, msg);
      var (kept, after) := Parsed(filter, stop.kind, stop.env, dumps, name, msg);
      (kept <==> pass.result.Some? && pass.result.value !in {Str(""), Items([]), Dict(map[])})
      && after == (if kept && (stop.kind == Terminal
                               || (stop.kind == File && filter.Some? && "dump_json_to_file" in filter.value.options))
                   then Str(dumps(pass.result.value)) else pass.msg)
  {
    hide Filtered;
  }

  // ---------- Dropped once, dropped for good ----------

  /** The message that a mapping leaves in the record, unless it is dumped. */
  function Leftover(f: Filter, m: Fields): Fields {
    if ("remove_errors" in f.options && "error" in m) || ("remove_init" in f.options && IsProcess(m))
       || ServerFaults(f, m)
    then m else Rewritten(f, m)
  }

  predicate Early(f: Filter, m: Fields) {
    ("remove_errors" in f.options && "error" in m) || ("remove_init" in f.options && IsProcess(m))
  }

  predicate Rejects(f: Filter, m: Fields) {
    Early(f, m) || (!ServerFaults(f, m) && Missing(f, Rewritten(f, m)))
  }

  /** A pass for any destination drops exactly the rejected mappings, and leaves the rewritten one or its dump. */
  lemma PassRejects(f: Filter, stop: Stop, dumps: Value -> Json, name: string, m: Fields)
    ensures var (kept, after) := Parsed(Some(f), stop.kind, stop.env, dumps, name, Dict(m));
      (kept <==> !Rejects(f, m))
      && (Rejects(f, m) || !Dumps(Some(f), stop.kind) ==> after == Dict(Leftover(f, m)))
      && (!Rejects(f, m) && Dumps(Some(f), stop.kind) ==> after.Str? && |after.s| > 0)
  {
    if !Rejects(f, m) { ResultIsNotEmpty(Some(f), name, stop.env, m); }
  }

  /** The name of a key after one pass; None when that name is removed. */
  function After(f: Filter, key: string): Option<string> {
    var renamed := NewName(f.change, key);
    if renamed in f.remove then None else Some(renamed)
  }

  function Required(f: Filter): seq<string> {
    if f.contains.Some? then f.contains.value else []
  }

  /** A key that does not by itself get a message dropped. */
  predicate Harmless(f: Filter, key: string) { "remove_errors" in f.options ==> key != "error" }

  /** Only strings, none of them an action that `remove_init` looks for. */
  predicate Inert(m: Fields) { forall k :: k in m ==> m[k].Str? && (k == "action" ==> m[k].s == "") }

  lemma AllInert(f: Filter, m: Fields)
    requires Inert(m)
    ensures !ServerFaults(f, m) && !IsProcess(m)
    ensures StripServer(f, m).Keys == m.Keys && forall k :: k in m ==> StripServer(f, m)[k].Str?
  {
  }

  lemma MissingIs(f: Filter, m: Fields)
    ensures Missing(f, m) <==> exists k :: k in Required(f) && k !in m
  {
    if k :| k in Required(f) && k !in m {
      var i :| 0 <= i < |Required(f)| && Required(f)[i] == k;
    }
  }

  lemma RewrittenKeys(f: Filter, m: Fields, key: string)
    requires !ServerFaults(f, m)
    ensures key in Rewritten(f, m) <==> exists o :: o in m && After(f, o) == Some(key)
  {
    RenamedKeys(StripServer(f, m), f.change, key);
    assert StripServer(f, m).Keys == m.Keys;
    if o :| o in m && After(f, o) == Some(key) { assert o in StripServer(f, m) && NewName(f.change, o) == key; }
    if o :| o in StripServer(f, m) && NewName(f.change, o) == key && key !in f.remove {
      assert o in m && After(f, o) == Some(key);
    }
  }

  lemma RewrittenValue(f: Filter, m: Fields, key: string) returns (origin: string)
    requires !ServerFaults(f, m) && key in Rewritten(f, m)
    ensures origin in m && origin in StripServer(f, m) && After(f, origin) == Some(key)
    ensures Rewritten(f, m)[key] == StripServer(f, m)[origin]
  {
    origin := RenamedValue(StripServer(f, m), f.change, key);
  }

  /** Strings stay strings. */
  lemma RewrittenStrings(f: Filter, m: Fields)
    requires !ServerFaults(f, m) && forall k :: k in m ==> m[k].Str?
    ensures forall k :: k in Rewritten(f, m) ==> Rewritten(f, m)[k].Str?
  {
    forall k | k in Rewritten(f, m) ensures Rewritten(f, m)[k].Str? {
      var origin := RewrittenValue(f, m, k);
    }
  }

  function Picked(f: Filter, pick: string -> string): set<string> {
    set c | c in Required(f) :: pick(c)
  }

  /** A mapping with one entry for each required key, chosen by `pick`. */
  function Message(f: Filter, pick: string -> string, text: string): (m: Fields)
    ensures forall c :: c in Required(f) ==> pick(c) in m
    ensures forall o :: o in m ==> exists c :: c in Required(f) && pick(c) == o
    ensures forall o :: o in m ==> m[o] == Str(if o == "action" then "" else text)
  {
    map o | o in Picked(f, pick) :: Str(if o == "action" then "" else text)
  }

  /** Two passes that turn key `o` into the required key `c`, the first not into `late`. */
  predicate ArrivesLate(f: Filter, late: string, c: string, o: string) {
    After(f, o).Some? && Harmless(f, o) && Harmless(f, After(f, o).value)
    && After(f, o) != Some(late) && After(f, After(f, o).value) == Some(c)
  }

  /** A required key can be missing after the first pass although no required key is missing after the second. */
  ghost predicate Resurrects(f: Filter) {
    exists late :: late in Required(f) && forall c :: c in Required(f) ==> exists o :: ArrivesLate(f, late, c, o)
  }

  /** A value that is no string can be renamed to "server" while another key is required and suffixes are stripped. */
  ghost predicate FaultsLater(f: Filter) {
    "remove_word_server" in f.options
    && (exists c :: c in Required(f) && c != "server")
    && exists o :: o != "server" && Harmless(f, o) && After(f, o) == Some("server")
  }

  /** A dropped mapping that the next pass accepts shows that the filter is of one of the two kinds. */
  lemma DroppedOnlyOnce(f: Filter, m: Fields)
    requires Rejects(f, m) && !Rejects(f, Leftover(f, m))
    ensures Resurrects(f) || FaultsLater(f)
  {
    hide Rewritten, After, IsProcess, FaultsLater, Missing;
    var after := Rewritten(f, m);
    MissingIs(f, after);
    var late :| late in Required(f) && late !in after;
    if ServerFaults(f, after) {
      FaultArises(f, m, late);
    } else {
      MissingIs(f, Rewritten(f, after));
      forall c | c in Required(f) ensures exists o :: ArrivesLate(f, late, c, o) {
        var o := TwoPasses(f, m, late, c);
      }
    }
  }

  lemma FaultArises(f: Filter, m: Fields, late: string)
    requires !Early(f, m) && !ServerFaults(f, m) && ServerFaults(f, Rewritten(f, m))
    requires late in Required(f) && late !in Rewritten(f, m)
    ensures FaultsLater(f)
  {
    hide Rewritten, After, IsProcess;
    var o := RewrittenValue(f, m, "server");
    assert Rewritten(f, m)["server"] == StripServer(f, m)[o];
    assert Harmless(f, o) && o != "server" && late != "server";
  }

  lemma TwoPasses(f: Filter, m: Fields, late: string, c: string) returns (o: string)
    requires !ServerFaults(f, m) && !ServerFaults(f, Rewritten(f, m))
    requires !Early(f, m) && !Early(f, Rewritten(f, m))
    requires late !in Rewritten(f, m) && c in Rewritten(f, Rewritten(f, m))
    ensures ArrivesLate(f, late, c, o)
  {
    hide Rewritten, After, IsProcess, ServerFaults;
    RewrittenKeys(f, Rewritten(f, m), c);
    var mid :| mid in Rewritten(f, m) && After(f, mid) == Some(c);
    RewrittenKeys(f, m, mid);
    o :| o in m && After(f, o) == Some(mid);
  }

  lemma ResurrectedMessage(f: Filter) returns (m: Fields)
    requires Resurrects(f)
    ensures Rejects(f, m) && !Rejects(f, Leftover(f, m))
  {
    var late :| late in Required(f) && forall c :: c in Required(f) ==> exists o :: ArrivesLate(f, late, c, o);
    var pick := (c: string) => LateOrigin(f, late, c);
    m := Message(f, pick, "");
    assert forall c :: c in Required(f) ==> ArrivesLate(f, late, c, pick(c));
    forall o | o in m ensures exists c :: ArrivesLate(f, late, c, o) {
      var c :| c in Required(f) && pick(c) == o;
    }
    hide Rewritten, After, Message, ArrivesLate, Missing;
    LateMessage(f, late, m);
    MissingIs(f, Rewritten(f, m));
    var after := Rewritten(f, m);
    forall c | c in Required(f) ensures c in Rewritten(f, after) {
      ArrivesInTwo(f, m, late, c, pick(c));
    }
    MissingIs(f, Rewritten(f, after));
  }

  ghost function LateOrigin(f: Filter, late: string, c: string): (o: string)
    ensures (exists k :: ArrivesLate(f, late, c, k)) ==> ArrivesLate(f, late, c, o)
  {
    if k :| ArrivesLate(f, late, c, k) then k else c
  }

  lemma LateMessage(f: Filter, late: string, m: Fields)
    requires forall o :: o in m ==> m[o] == Str("") && exists c :: ArrivesLate(f, late, c, o)
    ensures !ServerFaults(f, m) && !Early(f, m) && late !in Rewritten(f, m)
    ensures !ServerFaults(f, Rewritten(f, m)) && !Early(f, Rewritten(f, m))
  {
    hide Rewritten, After;
    AllInert(f, m);
    RewrittenStrings(f, m);
    RewrittenKeys(f, m, late);
    RewrittenKeys(f, m, "error");
    var after := Rewritten(f, m);
    if IsProcess(after) {
      var o := RewrittenValue(f, m, "action");
      EmptyStays(f, m, o);
    }
  }

  lemma ArrivesInTwo(f: Filter, m: Fields, late: string, c: string, o: string)
    requires !ServerFaults(f, m) && !ServerFaults(f, Rewritten(f, m))
    requires o in m && ArrivesLate(f, late, c, o)
    ensures c in Rewritten(f, Rewritten(f, m))
  {
    hide Rewritten, After, ServerFaults;
    RewrittenKeys(f, m, After(f, o).value);
    RewrittenKeys(f, Rewritten(f, m), c);
  }

  lemma EmptyStays(f: Filter, m: Fields, k: string)
    requires !ServerFaults(f, m) && k in m && m[k] == Str("")
    ensures StripServer(f, m)[k] == Str("")
  {
  }

  lemma FaultingMessage(f: Filter) returns (m: Fields)
    requires FaultsLater(f)
    ensures Rejects(f, m) && !Rejects(f, Leftover(f, m))
  {
    var c :| c in Required(f) && c != "server";
    var o :| o != "server" && Harmless(f, o) && After(f, o) == Some("server");
    m := map[o := Number("5")];
    var after := Rewritten(f, m);
    hide Rewritten, After;
    MissingIs(f, after);
    RewrittenKeys(f, m, c);
    RewrittenKeys(f, m, "server");
    RewrittenKeys(f, m, "error");
    RewrittenKeys(f, m, "action");
    assert o in m;
    var origin := RewrittenValue(f, m, "server");
  }

  /**
    * Exactly which filters drop a mapping for good: once dropped, it reaches no later destination, however many
    * there are, if and only if the tables of the filter are of neither kind. `remove_init` makes no difference.
    */
  lemma DroppedForGood(f: Filter, dumps: Value -> Json, name: string)
    ensures (forall m, stops :: Rejects(f, m) ==> Chain(Some(f), stops, dumps, name, Dict(m)).deliveries == [])
      <==> !Resurrects(f) && !FaultsLater(f)
  {
    hide Rejects, Chain, Resurrects, FaultsLater, Leftover;
    if !Resurrects(f) && !FaultsLater(f) {
      forall m, stops | Rejects(f, m) ensures Chain(Some(f), stops, dumps, name, Dict(m)).deliveries == [] {
        DroppedChain(f, stops, dumps, name, m);
      }
    } else {
      var m: Fields;
      if Resurrects(f) { m := ResurrectedMessage(f); } else { m := FaultingMessage(f); }
      var stop := Stop(Terminal, Env("", ""));
      BroughtBack(f, stop, stop, dumps, name, m);
      assert Rejects(f, m) && Chain(Some(f), [stop, stop], dumps, name, Dict(m)).deliveries != [];
    }
  }

  lemma {:induction false} DroppedChain(f: Filter, stops: seq<Stop>, dumps: Value -> Json, name: string, m: Fields)
    requires !Resurrects(f) && !FaultsLater(f) && Rejects(f, m)
    ensures Chain(Some(f), stops, dumps, name, Dict(m)).deliveries == []
    decreases |stops|
  {
    if stops != [] {
      PassRejects(f, stops[0], dumps, name, m);
      if !Rejects(f, Leftover(f, m)) { DroppedOnlyOnce(f, m); }
      hide Parsed, Rejects, Resurrects, FaultsLater, Leftover;
      DroppedChain(f, stops[1..], dumps, name, Leftover(f, m));
    }
  }

  lemma BroughtBack(f: Filter, first: Stop, second: Stop, dumps: Value -> Json, name: string, m: Fields)
    requires Rejects(f, m) && !Rejects(f, Leftover(f, m))
    ensures |Chain(Some(f), [first, second], dumps, name, Dict(m)).deliveries| == 1
  {
    PassRejects(f, first, dumps, name, m);
    PassRejects(f, second, dumps, name, Leftover(f, m));
    hide Parsed, Chain, Rejects, Leftover;
    ChainTwo(Some(f), first, second, dumps, name, Dict(m));
  }

  /** A name stays what one pass made it, unless one of two passes removes it. */
  predicate Settled(f: Filter, key: string) {
    After(f, key).None? || After(f, After(f, key).value).None? || After(f, After(f, key).value) == After(f, key)
  }

  /** Without options, two tables drop mappings for good whatever keys are required exactly when all names settle. */
  lemma TablesDropForGood(change: Change, remove: seq<string>, dumps: Value -> Json, name: string)
    ensures (forall contains, m, stops :: Rejects(Filter([], change, remove, contains), m)
              ==> Chain(Some(Filter([], change, remove, contains)), stops, dumps, name, Dict(m)).deliveries == [])
      <==> forall key :: Settled(Filter([], change, remove, None), key)
  {
    hide Settled, Resurrects, Rejects, Chain;
    if key :| !Settled(Filter([], change, remove, None), key) {
      var g := Unsettled(change, remove, key);
      DroppedForGood(g, dumps, name);
    } else {
      forall contains, m, stops | Rejects(Filter([], change, remove, contains), m)
        ensures Chain(Some(Filter([], change, remove, contains)), stops, dumps, name, Dict(m)).deliveries == []
      {
        if Resurrects(Filter([], change, remove, contains)) {
          var key := ResurrectedKey(change, remove, contains);
        }
        DroppedForGood(Filter([], change, remove, contains), dumps, name);
      }
    }
  }

  lemma Unsettled(change: Change, remove: seq<string>, key: string) returns (g: Filter)
    requires !Settled(Filter([], change, remove, None), key)
    ensures g == Filter([], change, remove, g.contains) && Resurrects(g)
  {
    var f := Filter([], change, remove, None);
    var c := After(f, After(f, key).value).value;
    g := Filter([], change, remove, Some([c]));
    assert forall k :: After(f, k) == After(g, k);
    hide After;
    assert ArrivesLate(g, c, c, key);
    assert c in Required(g);
  }

  lemma ResurrectedKey(change: Change, remove: seq<string>, contains: Option<seq<string>>) returns (key: string)
    requires Resurrects(Filter([], change, remove, contains))
    ensures !Settled(Filter([], change, remove, None), key)
  {
    var f, g := Filter([], change, remove, None), Filter([], change, remove, contains);
    assert forall k :: After(f, k) == After(g, k);
    hide After;
    var late :| late in Required(g) && forall c :: c in Required(g) ==> exists o :: ArrivesLate(g, late, c, o);
    key :| ArrivesLate(g, late, late, key);
  }

  // ---------- The conditions over the tables alone ----------

  predicate IsOldName(change: Change, key: string) {
    exists i :: 0 <= i < |change| && change[i].0 == key
  }

  /** A key that is no old name keeps its own. */
  lemma KeyIsKept(f: Filter, key: string)
    requires !IsOldName(f.change, key)
    ensures After(f, key) == if key in f.remove then None else Some(key)
  {
    OtherKeepsName(f.change, key);
  }

  /** All names settle if and only if the old names of the table do. */
  lemma SettledOldNames(f: Filter)
    ensures (forall key :: Settled(f, key)) <==> forall i :: 0 <= i < |f.change| ==> Settled(f, f.change[i].0)
  {
    if forall i :: 0 <= i < |f.change| ==> Settled(f, f.change[i].0) {
      forall key ensures Settled(f, key) {
        if !IsOldName(f.change, key) { KeyIsKept(f, key); }
      }
    }
  }

  /** A key that arrives late is an old name, and one that becomes another key is an old name or that key. */
  lemma OriginsAreOldNames(f: Filter, late: string, c: string, o: string)
    ensures ArrivesLate(f, late, c, o) ==> o == c || IsOldName(f.change, o)
    ensures After(f, o) == Some(c) ==> o == c || IsOldName(f.change, o)
  {
    if !IsOldName(f.change, o) { KeyIsKept(f, o); }
  }

  /** The condition for being brought back, over required keys and old names only. */
  predicate ResurrectsByTables(f: Filter) {
    exists late :: late in Required(f) && forall c :: c in Required(f) ==> ComesLate(f, late, c)
  }

  predicate ComesLate(f: Filter, late: string, c: string) {
    ArrivesLate(f, late, c, c) || exists i :: 0 <= i < |f.change| && ArrivesLate(f, late, c, f.change[i].0)
  }

  predicate FaultsByTables(f: Filter) {
    "remove_word_server" in f.options
    && (exists c :: c in Required(f) && c != "server")
    && exists i :: 0 <= i < |f.change| && f.change[i].0 != "server" && Harmless(f, f.change[i].0)
                   && After(f, f.change[i].0) == Some("server")
  }

  lemma LateByTables(f: Filter, late: string, c: string)
    ensures (exists o :: ArrivesLate(f, late, c, o)) <==> ComesLate(f, late, c)
  {
    hide ArrivesLate;
    if o :| ArrivesLate(f, late, c, o) { OriginsAreOldNames(f, late, c, o); }
  }

  lemma FaultsOldNames(f: Filter)
    ensures FaultsLater(f) <==> FaultsByTables(f)
  {
    if o :| o != "server" && Harmless(f, o) && After(f, o) == Some("server") {
      OriginsAreOldNames(f, "server", "server", o);
    }
    hide After, Harmless;
  }

  /** Both conditions can be computed from the filter. */
  lemma DroppedByTables(f: Filter)
    ensures Resurrects(f) <==> ResurrectsByTables(f)
    ensures FaultsLater(f) <==> FaultsByTables(f)
  {
    FaultsOldNames(f);
    hide ArrivesLate, ComesLate, FaultsLater, FaultsByTables, Required;
    forall late, c ensures (exists o :: ArrivesLate(f, late, c, o)) <==> ComesLate(f, late, c) {
      LateByTables(f, late, c);
    }
  }

  /** Disjoint names settle, so with them only a new name "server" can bring a mapping back. */
  lemma DisjointDropsForGood(f: Filter)
    requires Disjoint(f.change)
    ensures !Resurrects(f)
    ensures (forall i :: 0 <= i < |f.change| ==> f.change[i].1 != "server") ==> !FaultsLater(f)
  {
    if Resurrects(f) {
      var late :| late in Required(f) && forall c :: c in Required(f) ==> exists o :: ArrivesLate(f, late, c, o);
      var o :| ArrivesLate(f, late, late, o);
      NewNameIsFinal(f.change, o);
    }
    if FaultsLater(f) {
      var o :| o != "server" && Harmless(f, o) && After(f, o) == Some("server");
      if forall i :: 0 <= i < |f.change| ==> f.change[i].1 != "server" { OtherName(f.change, o, "server"); }
    }
  }

  lemma {:induction false} OtherName(change: Change, key: string, name: string)
    requires key != name && forall i :: 0 <= i < |change| ==> change[i].1 != name
    ensures NewName(change, key) != name
    decreases |change|
  {
    if change != [] { OtherName(change[1..], if change[0].0 == key then change[0].1 else key, name); }
  }

  /**
    * With disjoint names, and "server" kept out of the new names if its suffix is stripped, a mapping rejected once
    * reaches none of the destinations behind, however many there are.
    */
  lemma RejectedForever(f: Filter, stops: seq<Stop>, dumps: Value -> Json, name: string, m: Fields)
    requires Disjoint(f.change) && Rejects(f, m)
    requires "remove_word_server" in f.options ==> forall i :: 0 <= i < |f.change| ==> f.change[i].1 != "server"
    ensures Chain(Some(f), stops, dumps, name, Dict(m)).deliveries == []
  {
    DisjointDropsForGood(f);
    assert !FaultsLater(f);
    DroppedChain(f, stops, dumps, name, m);
  }

  const TO_SERVER: Change := [("x", "server")]

  /** Disjoint names alone do not suffice: a number renamed to "server" is dropped, and then logged as an error. */
  lemma DisjointIsNotEnough(first: Stop, second: Stop, dumps: Value -> Json, name: string)
    ensures var f := Filter(["remove_word_server"], TO_SERVER, [], Some(["zzz"]));
      var m: Fields := map["x" := Number("5")];
      Injective(m, f.change) && Rejects(f, m) && |Chain(Some(f), [first, second], dumps, name, Dict(m)).deliveries| == 1
  {
    var f := Filter(["remove_word_server"], TO_SERVER, [], Some(["zzz"]));
    var m: Fields := map["x" := Number("5")];
    assert TO_SERVER[1..] == [];
    assert Rewritten(f, m) == map["server" := Number("5")];
    assert f.contains.value[0] !in Rewritten(f, m);
    BroughtBack(f, first, second, dumps, name, m);
  }

  // ---------- Accepted once, accepted for good ----------

  /** Some message has every required key after a pass. */
  ghost predicate Meets(f: Filter, c: string, o: string) { Harmless(f, o) && After(f, o) == Some(c) }

  ghost predicate Satisfiable(f: Filter) {
    forall c :: c in Required(f) ==> exists o :: Meets(f, c, o)
  }

  /** A pass can make a message look like an error. */
  ghost predicate MakesError(f: Filter) {
    "remove_errors" in f.options && exists o :: Meets(f, "error", o)
  }

  /** A pass can make a message look like the start of a server. */
  ghost predicate MakesProcess(f: Filter) {
    "remove_init" in f.options && exists o :: o != "action" && Meets(f, "action", o)
  }

  /** A required key is renamed or removed by the next pass, and no required key takes its place. */
  predicate LosesKey(f: Filter) {
    exists lost :: lost in Required(f) && forall c :: c in Required(f) ==> After(f, c) != Some(lost)
  }

  ghost predicate DropsLater(f: Filter) {
    Satisfiable(f) && (MakesError(f) || MakesProcess(f) || LosesKey(f))
  }

  lemma AcceptedOnlyOnce(f: Filter, m: Fields)
    requires !Rejects(f, m) && Rejects(f, Leftover(f, m))
    ensures DropsLater(f)
  {
    hide Rewritten, After;
    var after := Rewritten(f, m);
    MissingIs(f, after);
    forall c | c in Required(f) ensures exists o :: Meets(f, c, o) {
      RewrittenKeys(f, m, c);
      var o :| o in m && After(f, o) == Some(c);
      assert Meets(f, c, o);
    }
    if "remove_errors" in f.options && "error" in after {
      RewrittenKeys(f, m, "error");
      var o :| o in m && After(f, o) == Some("error");
      assert Meets(f, "error", o);
    } else if "remove_init" in f.options && IsProcess(after) {
      var o := RewrittenValue(f, m, "action");
      assert Meets(f, "action", o);
    } else {
      MissingIs(f, Rewritten(f, after));
      var lost :| lost in Required(f) && lost !in Rewritten(f, after);
      RewrittenKeys(f, after, lost);
      assert forall c :: c in Required(f) ==> c in after;
    }
  }

  ghost function Origin(f: Filter, c: string): (o: string)
    ensures (exists k :: Meets(f, c, k)) ==> Meets(f, c, o)
  {
    if k :| Meets(f, c, k) then k else c
  }

  lemma AllRequired(f: Filter, m: Fields)
    requires !ServerFaults(f, m) && Covers(f, m)
    ensures !Missing(f, Rewritten(f, m))
  {
    hide Rewritten, After;
    MissingIs(f, Rewritten(f, m));
    forall c | c in Required(f) ensures c in Rewritten(f, m) {
      var o :| o in m && Meets(f, c, o);
      RewrittenKeys(f, m, c);
    }
  }

  /** One entry for each required key, each with a key that turns into it. */
  ghost predicate Covers(f: Filter, m: Fields) {
    (forall c :: c in Required(f) ==> exists o :: o in m && Meets(f, c, o)) && forall o :: o in m ==> Harmless(f, o)
  }

  lemma MessageCovers(f: Filter, pick: string -> string, text: string)
    requires forall c :: c in Required(f) ==> Meets(f, c, pick(c))
    ensures Covers(f, Message(f, pick, text))
    ensures forall o :: o in Message(f, pick, text) ==> exists c :: c in Required(f) && Meets(f, c, o)
  {
    hide Message, After;
    var m := Message(f, pick, text);
    forall c | c in Required(f) ensures exists o :: o in m && Meets(f, c, o) {
      assert pick(c) in m;
    }
    forall o | o in m ensures exists c :: c in Required(f) && Meets(f, c, o) {
      var c :| c in Required(f) && pick(c) == o;
    }
  }

  lemma OriginsMeet(f: Filter)
    requires Satisfiable(f)
    ensures forall c :: c in Required(f) ==> Meets(f, c, Origin(f, c))
  {
    hide Meets;
  }

  lemma ErrorMessage(f: Filter) returns (m: Fields)
    requires Satisfiable(f) && MakesError(f)
    ensures !Rejects(f, m) && Rejects(f, Leftover(f, m))
  {
    var o :| Meets(f, "error", o);
    var pick := (c: string) => Origin(f, c);
    OriginsMeet(f);
    MessageCovers(f, pick, "");
    m := Message(f, pick, "")[o := Str("")];
    hide Rewritten, After, Message;
    AllInert(f, m);
    AllRequired(f, m);
    RewrittenKeys(f, m, "error");
  }

  lemma ProcessMessage(f: Filter) returns (m: Fields)
    requires Satisfiable(f) && MakesProcess(f)
    ensures !Rejects(f, m) && Rejects(f, Leftover(f, m))
  {
    var o :| o != "action" && Meets(f, "action", o);
    OriginsMeet(f);
    hide Message, After, Satisfiable, MakesProcess;
    var pick := (c: string) => if c == "action" then o else Origin(f, c);
    MessageCovers(f, pick, "process");
    m := Message(f, pick, "process")[o := Str("process")];
    ActionIsReplaced(f, pick, o);
    ProcessMessageFails(f, m, o);
  }

  lemma ActionIsReplaced(f: Filter, pick: string -> string, o: string)
    requires forall c :: c in Required(f) ==> Meets(f, c, pick(c))
    requires pick("action") == o != "action"
    ensures "action" in Message(f, pick, "process") ==> After(f, "action") != Some("action")
  {
    hide Message, After;
  }

  lemma ProcessMessageFails(f: Filter, m: Fields, o: string)
    requires "remove_init" in f.options && Covers(f, m) && o in m && After(f, o) == Some("action")
    requires forall k :: k in m ==> m[k] == Str(if k == "action" then "" else "process")
    requires "action" in m ==> After(f, "action") != Some("action")
    ensures !Rejects(f, m) && Rejects(f, Leftover(f, m))
  {
    AllInert(f, m);
    AllRequired(f, m);
    hide Rewritten, Missing, After, Covers, ServerFaults;
    ActionIsProcess(f, m, o);
  }

  lemma ActionIsProcess(f: Filter, m: Fields, o: string)
    requires !ServerFaults(f, m) && o in m && After(f, o) == Some("action")
    requires forall k :: k in m && k != "action" ==> m[k] == Str("process")
    requires "action" in m ==> After(f, "action") != Some("action")
    ensures IsProcess(Rewritten(f, m))
  {
    hide Rewritten, After, ServerFaults;
    RewrittenKeys(f, m, "action");
    var origin := RewrittenValue(f, m, "action");
    ProcessStays(f, m, origin);
  }

  lemma LosingMessage(f: Filter) returns (m: Fields)
    requires Satisfiable(f) && LosesKey(f)
    ensures !Rejects(f, m) && Rejects(f, Leftover(f, m))
  {
    var lost :| lost in Required(f) && forall c :: c in Required(f) ==> After(f, c) != Some(lost);
    OriginsMeet(f);
    hide Message, After, Satisfiable, Meets, Rejects, Covers, Leftover;
    var pick := (c: string) => Origin(f, c);
    MessageCovers(f, pick, "");
    m := Message(f, pick, "");
    LosingMessageFails(f, m, lost);
  }

  lemma LosingMessageFails(f: Filter, m: Fields, lost: string)
    requires Covers(f, m) && forall k :: k in m ==> m[k] == Str("")
    requires forall o :: o in m ==> exists c :: c in Required(f) && Meets(f, c, o)
    requires lost in Required(f) && forall c :: c in Required(f) ==> After(f, c) != Some(lost)
    ensures !Rejects(f, m) && Rejects(f, Leftover(f, m))
  {
    AllInert(f, m);
    AllRequired(f, m);
    RewrittenStrings(f, m);
    hide Rewritten, Missing, After, Covers, Meets;
    LosesIt(f, m, lost);
    MissingIs(f, Rewritten(f, Rewritten(f, m)));
  }

  lemma LosesIt(f: Filter, m: Fields, lost: string)
    requires !ServerFaults(f, m) && !ServerFaults(f, Rewritten(f, m))
    requires forall o :: o in m ==> exists c :: c in Required(f) && Meets(f, c, o)
    requires forall c :: c in Required(f) ==> After(f, c) != Some(lost)
    ensures lost !in Rewritten(f, Rewritten(f, m))
  {
    hide Rewritten, After, ServerFaults;
    var after := Rewritten(f, m);
    forall k | k in after ensures k in Required(f) { RewrittenKeys(f, m, k); }
    RewrittenKeys(f, after, lost);
  }

  lemma ProcessStays(f: Filter, m: Fields, k: string)
    requires !ServerFaults(f, m) && k in m && m[k] == Str("process")
    ensures StripServer(f, m)[k] == Str("process")
  {
    EraseNothing("process", "_server");
  }

  lemma {:induction false} EraseNothing(s: string, sub: string)
    requires sub != [] && sub[0] !in s
    ensures Erase(s, sub) == s
    decreases |s|
  {
    if s != [] { EraseNothing(s[1..], sub); }
  }

  /** Destinations that leave the mapping in the record: the database, and a file that does not dump. */
  predicate Leaves(f: Filter, stops: seq<Stop>) {
    forall i :: 0 <= i < |stops| ==> !Dumps(Some(f), stops[i].kind)
  }

  /**
    * Exactly which filters keep what they accept: over destinations that leave the mapping in the record, every
    * accepted mapping reaches all of them if and only if no message can meet the filter, or its tables make no error
    * and no process entry and lose no required key.
    */
  lemma AcceptedForGood(f: Filter, dumps: Value -> Json, name: string)
    ensures (forall m, stops :: !Rejects(f, m) && Leaves(f, stops)
              ==> |Chain(Some(f), stops, dumps, name, Dict(m)).deliveries| == |stops|)
      <==> !DropsLater(f)
  {
    hide Rejects, Chain, DropsLater, Leftover;
    if DropsLater(f) {
      var stop := Stop(Sqlite, Env("", ""));
      var m := DroppedLater(f);
      LostOnTheWay(f, stop, stop, dumps, name, m);
      assert !Rejects(f, m) && Leaves(f, [stop, stop]);
    } else {
      forall m, stops | !Rejects(f, m) && Leaves(f, stops)
        ensures |Chain(Some(f), stops, dumps, name, Dict(m)).deliveries| == |stops|
      {
        AcceptedChain(f, stops, dumps, name, m);
      }
    }
  }

  /** The same over every chain of destinations, when the options do not test the text that a terminal leaves. */
  lemma AcceptedEverywhere(f: Filter, dumps: Value -> Json, name: string)
    requires "remove_errors" !in f.options
    ensures (forall m, stops :: !Rejects(f, m) ==> |Chain(Some(f), stops, dumps, name, Dict(m)).deliveries| == |stops|)
      <==> !DropsLater(f)
  {
    hide Rejects, Chain, DropsLater, Leftover;
    if DropsLater(f) {
      var stop := Stop(Sqlite, Env("", ""));
      var m := DroppedLater(f);
      LostOnTheWay(f, stop, stop, dumps, name, m);
      assert !Rejects(f, m) && |Chain(Some(f), [stop, stop], dumps, name, Dict(m)).deliveries| != |[stop, stop]|;
    } else {
      forall m, stops | !Rejects(f, m) ensures |Chain(Some(f), stops, dumps, name, Dict(m)).deliveries| == |stops| {
        AcceptedChain(f, stops, dumps, name, m);
      }
    }
  }

  lemma DroppedLater(f: Filter) returns (m: Fields)
    requires DropsLater(f)
    ensures !Rejects(f, m) && Rejects(f, Leftover(f, m))
  {
    hide Rejects, Leftover;
    if MakesError(f) {
      m := ErrorMessage(f);
    } else if MakesProcess(f) {
      m := ProcessMessage(f);
    } else {
      m := LosingMessage(f);
    }
  }

  lemma LostOnTheWay(f: Filter, first: Stop, second: Stop, dumps: Value -> Json, name: string, m: Fields)
    requires !Rejects(f, m) && Rejects(f, Leftover(f, m)) && !Dumps(Some(f), first.kind)
    ensures |Chain(Some(f), [first, second], dumps, name, Dict(m)).deliveries| == 1
  {
    PassRejects(f, first, dumps, name, m);
    PassRejects(f, second, dumps, name, Leftover(f, m));
    hide Parsed, Chain, Rejects, Leftover;
    ChainTwo(Some(f), first, second, dumps, name, Dict(m));
  }

  lemma {:induction false} AcceptedChain(f: Filter, stops: seq<Stop>, dumps: Value -> Json, name: string, m: Fields)
    requires !DropsLater(f) && !Rejects(f, m)
    requires Leaves(f, stops) || "remove_errors" !in f.options
    ensures |Chain(Some(f), stops, dumps, name, Dict(m)).deliveries| == |stops|
    decreases |stops|
  {
    if stops != [] {
      PassRejects(f, stops[0], dumps, name, m);
      if Rejects(f, Leftover(f, m)) { AcceptedOnlyOnce(f, m); }
      var after := Parsed(Some(f), stops[0].kind, stops[0].env, dumps, name, Dict(m)).1;
      hide Parsed, Rejects, DropsLater, Leftover;
      if Dumps(Some(f), stops[0].kind) {
        TextChain(Some(f), stops[1..], dumps, name, after.s);
      } else {
        AcceptedChain(f, stops[1..], dumps, name, Leftover(f, m));
      }
    }
  }

  const CHAINED: Change := [("b", "c"), ("a", "b")]

  lemma ChainedRename(v: Value)
    ensures Rename(map["a" := v], CHAINED) == map["b" := v]
    ensures Rename(map["b" := v], CHAINED) == map["c" := v]
  {
    var a, b, c: Fields := map["a" := v], map["b" := v], map["c" := v];
    assert CHAINED[1..] == [("a", "b")] && CHAINED[1..][1..] == [];
    assert RenameOne(a, ("b", "c")) == a && RenameOne(a, ("a", "b")) == b;
    assert RenameOne(b, ("b", "c")) == c && RenameOne(c, ("a", "b")) == c;
  }

  /** With an old key that is also a new key, a record rejected for the terminal can still be written to the file. */
  lemma ChainedRenameResurrects(v: Value, first: Stop, second: Stop, dumps: Value -> Json, name: string)
    ensures !Disjoint(CHAINED)
    ensures var f := Filter([], CHAINED, [], Some(["c"]));
      Rejects(f, map["a" := v])
      && |Chain(Some(f), [first, second], dumps, name, Dict(map["a" := v])).deliveries| == 1
  {
    hide Rename, Parsed, Chain;
    var f := Filter([], CHAINED, [], Some(["c"]));
    var a, b, c: Fields := map["a" := v], map["b" := v], map["c" := v];
    assert CHAINED[0].0 == CHAINED[1].1;
    ChainedRename(v);
    assert RemoveAll(b, []) == b && RemoveAll(c, []) == c;
    assert f.contains.value[0] !in b;
    assert Leftover(f, a) == b && Rejects(f, a) && !Rejects(f, b);
    PassRejects(f, first, dumps, name, a);
    PassRejects(f, second, dumps, name, b);
    ChainTwo(Some(f), first, second, dumps, name, Dict(a));
  }

  /** An accepted mapping has every required key, and no removed key but a timestamp that is put back. */
  lemma AcceptedKeys(f: Filter, name: string, env: Env, m: Fields)
    requires !ServerFaults(f, m) && Filtered(Some(f), name, env, Dict(m)).result.Some?
    ensures var r := Filtered(Some(f), name, env, Dict(m)).result.value;
      r.Dict? && "timestamp" in r.fields
      && (f.contains.Some? ==> forall k :: k in f.contains.value ==> k in r.fields)
      && (forall k :: k in f.remove && k in r.fields ==> k == "timestamp")
  {
    var after := Rewritten(f, m);
    if f.contains.Some? {
      forall k | k in f.contains.value ensures k in after {
        var i :| 0 <= i < |f.contains.value| && f.contains.value[i] == k;
      }
    }
  }
}
