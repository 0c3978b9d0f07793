/** The Oracle connect-descriptor tokenizer. */
module Oracle {
  import opened Prelude

  const OPEN: byte := 0x28
  const CLOSE: byte := 0x29
  const EQUALS: byte := 0x3D
  const DESCRIPTION: bytes := Ascii("DESCRIPTION")
  const MARKER: bytes := [OPEN] + DESCRIPTION + [EQUALS]
  const SERVICE_NAME: bytes := Ascii("SERVICE_NAME")
  const PROGRAM: bytes := Ascii("PROGRAM")
  const USER: bytes := Ascii("USER")

  // ---------- The decoder ----------

  predicate IsParen(b: byte) { b == OPEN || b == CLOSE }

  predicate IsEquals(b: byte) { b == EQUALS }

  /** `findall(rb"[^\(\)]+", s)`: the maximal runs of bytes that are not parentheses. */
  function Runs(s: bytes): seq<bytes>
    decreases |s|
  {
    if s == [] then []
    else if IsParen(s[0]) then Runs(s[1..])
    else
      var n := Span(s, IsParen);
      [s[..n]] + Runs(s[n..])
  }

  predicate EndsWithEquals(s: bytes) { s != [] && s[|s| - 1] == EQUALS }

  /** `[item for item in items if not item.endswith(b"=")]` */
  function Kept(items: seq<bytes>): seq<bytes> {
    if items == [] then []
    else (if EndsWithEquals(items[0]) then [] else [items[0]]) + Kept(items[1..])
  }

  /** `data[offset:].split(b"\0")[0]` from the first marker; None is ValueError. */
  function Connect(data: bytes): Option<bytes> {
    match Find(data, MARKER)
    case None => None
    case Some(offset) => Some(data[offset..][..Span(data[offset..], IsNul)])
  }

  datatype Pair = Pair(name: bytes, value: bytes)

  /** `item.split(b"=", maxsplit=1)`; None is the failure to unpack an item without "=". */
  function Split(item: bytes): Option<Pair> {
    var n := Span(item, IsEquals);
    if n == |item| then None else Some(Pair(item[..n], item[n + 1..]))
  }

  datatype Names = Names(service: Option<string>, program: Option<string>, user: Option<string>)

  /** One item updates at most one of the three results; None is an exception. */
  function Assign(utf8: bytes -> Option<string>, names: Names, item: bytes): Option<Names> {
    match Split(item)
    case None => None
    case Some(p) =>
      if StartsWith(p.name, SERVICE_NAME) then
        if utf8(p.value) == None then None else Some(names.(service := utf8(p.value)))
      else if StartsWith(p.name, PROGRAM) then
        if utf8(p.value) == None then None else Some(names.(program := utf8(p.value)))
      else if StartsWith(p.name, USER) then
        if utf8(p.value) == None then None else Some(names.(user := utf8(p.value)))
      else Some(names)
  }

  /** The loop over the items: the first exception ends it and keeps what was assigned before. */
  function Gather(utf8: bytes -> Option<string>, names: Names, items: seq<bytes>): Names
    decreases |items|
  {
    if items == [] then names
    else
      match Assign(utf8, names, items[0])
      case None => names
      case Some(more) => Gather(utf8, more, items[1..])
  }

  /** The items of a packet, or none without a descriptor. */
  function Items(data: bytes): seq<bytes> {
    match Connect(data)
    case None => []
    case Some(connect) => Kept(Runs(connect))
  }

  const NOTHING := Names(None, None, None)

  method ParsePayload(data: bytes, utf8: bytes -> Option<string>)
    returns (service: Option<string>, program: Option<string>, user: Option<string>)
    ensures Names(service, program, user) == Gather(utf8, NOTHING, Items(data))
  {
    service, program, user := None, None, None;
    var connect := Connect(data);
    if connect == None { return; }
    var items := Kept(Runs(connect.value));
    for i := 0 to |items|
      invariant Gather(utf8, Names(service, program, user), items[i..]) == Gather(utf8, NOTHING, items)
    {
      var pair := Split(items[i]);
      if pair == None { return; }
      var Pair(name, value) := pair.value;
      if StartsWith(name, SERVICE_NAME) {
        var decoded := utf8(value);
        if decoded == None { return; }
        service := decoded;
      } else if StartsWith(name, PROGRAM) {
        var decoded := utf8(value);
        if decoded == None { return; }
        program := decoded;
      } else if StartsWith(name, USER) {
        var decoded := utf8(value);
        if decoded == None { return; }
        user := decoded;
      }
    }
  }

  // ---------- Last wins ----------

  /** `r` is the value of the last pair whose name starts with `prefix`, or None if there is no such pair. */
  ghost predicate IsLast(pairs: seq<Pair>, prefix: bytes, utf8: bytes -> Option<string>, r: Option<string>) {
    || (r == None && forall i :: 0 <= i < |pairs| ==> !StartsWith(pairs[i].name, prefix))
    || exists i :: 0 <= i < |pairs| && StartsWith(pairs[i].name, prefix) && r == utf8(pairs[i].value)
                   && forall j :: i < j < |pairs| ==> !StartsWith(pairs[j].name, prefix)
  }

  ghost predicate AllLast(pairs: seq<Pair>, utf8: bytes -> Option<string>, names: Names) {
    && IsLast(pairs, SERVICE_NAME, utf8, names.service)
    && IsLast(pairs, PROGRAM, utf8, names.program)
    && IsLast(pairs, USER, utf8, names.user)
  }

  /** A name starts with at most one of the wanted prefixes, so the order of the tests does not matter. */
  lemma PrefixesExclude(name: bytes)
    ensures StartsWith(name, SERVICE_NAME) ==> !StartsWith(name, PROGRAM) && !StartsWith(name, USER)
    ensures StartsWith(name, PROGRAM) ==> !StartsWith(name, USER)
  {
    if StartsWith(name, SERVICE_NAME) { assert name[0] == 0x53; }
    if StartsWith(name, PROGRAM) { assert name[0] == 0x50; }
    if StartsWith(name, USER) { assert name[0] == 0x55; }
  }

  lemma IsLastAppend(pairs: seq<Pair>, p: Pair, prefix: bytes, utf8: bytes -> Option<string>, r: Option<string>)
    requires IsLast(pairs, prefix, utf8, r)
    ensures IsLast(pairs + [p], prefix, utf8, if StartsWith(p.name, prefix) then utf8(p.value) else r)
  {
    var all := pairs + [p];
    if StartsWith(p.name, prefix) {
      assert all[|pairs|] == p;
    } else if exists i :: 0 <= i < |pairs| && StartsWith(pairs[i].name, prefix) && r == utf8(pairs[i].value)
                          && forall j :: i < j < |pairs| ==> !StartsWith(pairs[j].name, prefix) {
      var i :| 0 <= i < |pairs| && StartsWith(pairs[i].name, prefix) && r == utf8(pairs[i].value)
               && forall j :: i < j < |pairs| ==> !StartsWith(pairs[j].name, prefix);
      assert all[i] == pairs[i];
    }
  }

  /** Only a value under a wanted name is decoded. */
  predicate Decodes(utf8: bytes -> Option<string>, p: Pair) {
    StartsWith(p.name, SERVICE_NAME) || StartsWith(p.name, PROGRAM) || StartsWith(p.name, USER) ==> utf8(p.value).Some?
  }

  /** The pairs in front of the first one with a wanted value that cannot be decoded. */
  function Readable(utf8: bytes -> Option<string>, pairs: seq<Pair>): (r: seq<Pair>)
    ensures r <= pairs && (forall i :: 0 <= i < |r| ==> Decodes(utf8, r[i]))
    ensures |r| < |pairs| ==> !Decodes(utf8, pairs[|r|])
  {
    if pairs == [] || !Decodes(utf8, pairs[0]) then [] else [pairs[0]] + Readable(utf8, pairs[1..])
  }

  lemma AssignOne(utf8: bytes -> Option<string>, names: Names, item: bytes, p: Pair, done: seq<Pair>)
    requires Split(item) == Some(p) && AllLast(done, utf8, names)
    ensures Assign(utf8, names, item).Some? <==> Decodes(utf8, p)
    ensures Decodes(utf8, p) ==> AllLast(done + [p], utf8, Assign(utf8, names, item).value)
  {
    hide IsLast, Split, StartsWith;
    PrefixesExclude(p.name);
    IsLastAppend(done, p, SERVICE_NAME, utf8, names.service);
    IsLastAppend(done, p, PROGRAM, utf8, names.program);
    IsLastAppend(done, p, USER, utf8, names.user);
  }

  /** Items that all split are gathered last-wins, up to the first wanted value that cannot be decoded. */
  lemma {:induction false} GatherIsLast(utf8: bytes -> Option<string>, done: seq<Pair>, names: Names,
                                        items: seq<bytes>, pairs: seq<Pair>)
    requires |items| == |pairs| && forall i :: 0 <= i < |items| ==> Split(items[i]) == Some(pairs[i])
    requires AllLast(done, utf8, names)
    ensures AllLast(done + Readable(utf8, pairs), utf8, Gather(utf8, names, items))
    decreases |items|
  {
    hide AllLast, Split, Decodes, Assign;
    if items == [] {
      assert done + Readable(utf8, pairs) == done;
    } else {
      var p := pairs[0];
      AssignOne(utf8, names, items[0], p, done);
      if Decodes(utf8, p) {
        var more := Assign(utf8, names, items[0]).value;
        GatherIsLast(utf8, done + [p], more, items[1..], pairs[1..]);
        assert (done + [p]) + Readable(utf8, pairs[1..]) == done + Readable(utf8, pairs);
      } else {
        assert done + Readable(utf8, pairs) == done;
      }
    }
  }

  /** An item cannot be split exactly if it has no "=", and is split at the first one. */
  lemma SplitIs(item: bytes)
    ensures Split(item) == None <==> 0x3D !in item
    ensures Split(item).Some? ==> var p := Split(item).value; item == p.name + [0x3D] + p.value && 0x3D !in p.name
  {
  }

  /** An item without "=" stops the loop: what stands behind it is not read. */
  lemma {:induction false} GatherStops(utf8: bytes -> Option<string>, names: Names, front: seq<bytes>, item: bytes,
                                       rest: seq<bytes>)
    requires 0x3D !in item
    ensures Gather(utf8, names, front + ([item] + rest)) == Gather(utf8, names, front)
    decreases |front|
  {
    SplitIs(item);
    hide Split;
    var items := front + ([item] + rest);
    if front == [] {
      assert items[0] == item;
    } else {
      assert items[0] == front[0] && items[1..] == front[1..] + ([item] + rest);
      match Assign(utf8, names, front[0])
      case None =>
      case Some(more) => GatherStops(utf8, more, front[1..], item, rest);
    }
  }

  /** A packet without "(DESCRIPTION=" gives nothing. */
  lemma NoDescriptor(data: bytes, utf8: bytes -> Option<string>)
    requires forall i: nat :: !OccursAt(data, MARKER, i)
    ensures Gather(utf8, NOTHING, Items(data)) == Names(None, None, None)
    ensures MARKER == Ascii("(DESCRIPTION=")
  {
  }

  // ---------- Descriptor trees ----------

  datatype Tree = Leaf(name: bytes, value: bytes) | Node(name: bytes, kids: Forest)

  datatype Forest = Nil | Cons(head: Tree, tail: Forest)

  function Print(t: Tree): bytes {
    match t
    case Leaf(name, value) => [OPEN] + (name + [EQUALS] + value) + [CLOSE]
    case Node(name, kids) => [OPEN] + (name + [EQUALS]) + PrintAll(kids) + [CLOSE]
  }

  function PrintAll(f: Forest): bytes {
    match f
    case Nil => []
    case Cons(t, rest) => Print(t) + PrintAll(rest)
  }

  /** The leaves in preorder. */
  function Leaves(t: Tree): seq<Pair> {
    match t
    case Leaf(name, value) => [Pair(name, value)]
    case Node(_, kids) => LeavesAll(kids)
  }

  function LeavesAll(f: Forest): seq<Pair> {
    match f
    case Nil => []
    case Cons(t, rest) => Leaves(t) + LeavesAll(rest)
  }

  /** A leaf survives tokenizing unless its value is empty or ends in "=". */
  predicate Survives(p: Pair) { p.value != [] && p.value[|p.value| - 1] != EQUALS }

  function Survivors(pairs: seq<Pair>): seq<Pair> {
    if pairs == [] then []
    else (if Survives(pairs[0]) then [pairs[0]] else []) + Survivors(pairs[1..])
  }

  predicate Text(s: bytes) { forall i :: 0 <= i < |s| ==> !IsParen(s[i]) && s[i] != 0 }

  predicate Name(s: bytes) { Text(s) && forall i :: 0 <= i < |s| ==> s[i] != EQUALS }

  predicate WellFormed(t: Tree) {
    match t
    case Leaf(name, value) => Name(name) && Text(value)
    case Node(name, kids) => Name(name) && AllWellFormed(kids)
  }

  predicate AllWellFormed(f: Forest) {
    match f
    case Nil => true
    case Cons(t, rest) => WellFormed(t) && AllWellFormed(rest)
  }

  function ItemOf(p: Pair): bytes { p.name + [EQUALS] + p.value }

  function ItemsOf(pairs: seq<Pair>): (r: seq<bytes>)
    ensures |r| == |pairs|
    ensures forall i :: 0 <= i < |r| ==> r[i] == ItemOf(pairs[i])
  {
    seq(|pairs|, i requires 0 <= i < |pairs| => ItemOf(pairs[i]))
  }

  /** Which bytes names and values may hold. */
  lemma TextIs(s: bytes)
    ensures Text(s) <==> 0x28 !in s && 0x29 !in s && 0 !in s
    ensures Name(s) <==> Text(s) && 0x3D !in s
  {
  }

  /** The trees that are built from them are well formed. */
  lemma TreesAre(name: bytes, value: bytes, kids: Forest, t: Tree)
    requires Name(name) && Text(value)
    ensures WellFormed(Leaf(name, value))
    ensures AllWellFormed(Nil) && (AllWellFormed(Cons(t, kids)) <==> WellFormed(t) && AllWellFormed(kids))
    ensures AllWellFormed(kids) ==> WellFormed(Node(name, kids))
  {
  }

  /** A parenthesis-free run in front of a parenthesis is one item. */
  lemma RunsOfRun(run: bytes, rest: bytes)
    requires run != [] && Text(run) && rest != [] && IsParen(rest[0])
    ensures Runs(run + rest) == [run] + Runs(rest)
  {
    SpanOfRun(run, rest, IsParen);
    assert (run + rest)[0] == run[0];
    assert (run + rest)[..|run|] == run && (run + rest)[|run|..] == rest;
  }

  lemma RunsOfParen(p: byte, rest: bytes)
    requires IsParen(p)
    ensures Runs([p] + rest) == Runs(rest)
  {
    assert ([p] + rest)[1..] == rest;
  }

  lemma KeptCons(item: bytes, items: seq<bytes>)
    ensures Kept([item] + items) == (if EndsWithEquals(item) then [] else [item]) + Kept(items)
  {
    assert ([item] + items)[1..] == items;
  }

  lemma {:induction false} SurvivorsAppend(a: seq<Pair>, b: seq<Pair>)
    ensures Survivors(a + b) == Survivors(a) + Survivors(b)
    decreases |a|
  {
    if a == [] {
      assert a + b == b;
    } else {
      hide Survives;
      SurvivorsAppend(a[1..], b);
      assert (a + b)[1..] == a[1..] + b;
    }
  }

  lemma ItemsOfAppend(a: seq<Pair>, b: seq<Pair>)
    ensures ItemsOf(a + b) == ItemsOf(a) + ItemsOf(b)
  {
  }

  /** The tokens contributed by the text of a leaf or of a node's label: kept or dropped as a whole. */
  lemma OneItem(item: bytes, after: bytes)
    requires item != [] && Text(item) && after != [] && IsParen(after[0])
    ensures Kept(Runs([OPEN] + item + after)) == (if EndsWithEquals(item) then [] else [item]) + Kept(Runs(after))
  {
    assert [OPEN] + item + after == [OPEN] + (item + after);
    RunsOfParen(OPEN, item + after);
    RunsOfRun(item, after);
    KeptCons(item, Runs(after));
  }

  /** Tokenizing a printed tree gives its surviving leaves in preorder, whatever follows. */
  lemma {:induction false} TokensOfTree(t: Tree, rest: bytes)
    requires WellFormed(t)
    ensures Kept(Runs(Print(t) + rest)) == ItemsOf(Survivors(Leaves(t))) + Kept(Runs(rest))
    decreases t, 0
  {
    hide Runs, Kept;
    match t
    case Leaf(name, value) =>
      var item := ItemOf(Pair(name, value));
      assert Print(t) + rest == [OPEN] + item + ([CLOSE] + rest);
      OneItem(item, [CLOSE] + rest);
      RunsOfParen(CLOSE, rest);
      assert Leaves(t) == [Pair(name, value)] && Leaves(t)[1..] == [];
      if value != [] {
        assert item[|item| - 1] == value[|value| - 1];
      }
      assert ItemsOf(Survivors(Leaves(t))) == if EndsWithEquals(item) then [] else [item];
    case Node(name, kids) =>
      var tag := name + [EQUALS];
      var after := PrintAll(kids) + ([CLOSE] + rest);
      assert Print(t) + rest == [OPEN] + tag + after;
      PrintAllStart(kids);
      OneItem(tag, after);
      assert EndsWithEquals(tag);
      TokensOfForest(kids, [CLOSE] + rest);
      RunsOfParen(CLOSE, rest);
  }

  lemma {:induction false} TokensOfForest(f: Forest, rest: bytes)
    requires AllWellFormed(f)
    ensures Kept(Runs(PrintAll(f) + rest)) == ItemsOf(Survivors(LeavesAll(f))) + Kept(Runs(rest))
    decreases f, 1
  {
    hide Runs, Kept, Survivors, ItemsOf;
    match f
    case Nil =>
      assert PrintAll(f) + rest == rest;
      NothingSurvives();
    case Cons(t, more) =>
      assert PrintAll(f) + rest == Print(t) + (PrintAll(more) + rest);
      TokensOfTree(t, PrintAll(more) + rest);
      TokensOfForest(more, rest);
      SurvivorsAppend(Leaves(t), LeavesAll(more));
      ItemsOfAppend(Survivors(Leaves(t)), Survivors(LeavesAll(more)));
  }

  lemma NothingSurvives()
    ensures ItemsOf(Survivors([])) == []
  {
  }

  lemma PrintAllStart(f: Forest)
    ensures f.Cons? ==> PrintAll(f) != [] && IsParen(PrintAll(f)[0])
    ensures f.Nil? ==> PrintAll(f) == []
  {
    if f.Cons? { assert Print(f.head)[0] == OPEN; }
  }

  // ---------- The whole packet ----------

  /** No occurrence of the marker straddles the start of a descriptor: it has "(" only in front. */
  lemma MarkerDoesNotStraddle(prefix: bytes, text: bytes, j: nat)
    requires !exists i: nat :: OccursAt(prefix, MARKER, i)
    requires text != [] && text[0] == OPEN && j < |prefix|
    ensures !OccursAt(prefix + text, MARKER, j)
  {
    var s := prefix + text;
    if j + |MARKER| <= |prefix| {
      assert s[j..j + |MARKER|] == prefix[j..j + |MARKER|];
      assert !OccursAt(prefix, MARKER, j);
    } else if j + |MARKER| <= |s| {
      var k := |prefix| - j;
      assert s[j..j + |MARKER|][k] == OPEN;
      assert MARKER[k] != OPEN;
    }
  }

  lemma {:induction false} PrintHasNoNul(t: Tree)
    requires WellFormed(t)
    ensures forall i :: 0 <= i < |Print(t)| ==> Print(t)[i] != 0
    decreases t, 0
  {
    match t
    case Leaf(name, value) =>
    case Node(name, kids) => PrintAllHasNoNul(kids);
  }

  lemma {:induction false} PrintAllHasNoNul(f: Forest)
    requires AllWellFormed(f)
    ensures forall i :: 0 <= i < |PrintAll(f)| ==> PrintAll(f)[i] != 0
    decreases f, 1
  {
    if f.Cons? {
      PrintHasNoNul(f.head);
      PrintAllHasNoNul(f.tail);
    }
  }

  lemma PrintStartsWithMarker(t: Tree)
    requires t.name == DESCRIPTION
    ensures |MARKER| <= |Print(t)| && Print(t)[..|MARKER|] == MARKER
  {
    match t
    case Leaf(name, value) => assert Print(t) == MARKER + (value + [CLOSE]);
    case Node(name, kids) => assert Print(t) == MARKER + (PrintAll(kids) + [CLOSE]);
  }

  /** The descriptor cut out of a packet is the printed tree, when a NUL or nothing follows it. */
  lemma ConnectIsTree(prefix: bytes, t: Tree, suffix: bytes)
    requires !exists i: nat :: OccursAt(prefix, MARKER, i)
    requires t.name == DESCRIPTION && WellFormed(t)
    requires suffix != [] ==> suffix[0] == 0
    ensures Connect(prefix + (Print(t) + suffix)) == Some(Print(t))
  {
    hide Print;
    var text := Print(t) + suffix;
    var data := prefix + text;
    PrintStartsWithMarker(t);
    assert text[..|MARKER|] == MARKER;
    assert text[0] == MARKER[0];
    assert data[|prefix|..|prefix| + |MARKER|] == MARKER;
    forall j: nat | j < |prefix| ensures !OccursAt(data, MARKER, j) { MarkerDoesNotStraddle(prefix, text, j); }
    FindIs(data, MARKER, |prefix|);
    assert data[|prefix|..] == text;
    PrintHasNoNul(t);
    SpanOfRun(Print(t), suffix, IsNul);
    assert text[..|Print(t)|] == Print(t);
  }

  lemma {:induction false} SurvivorsAreLeaves(pairs: seq<Pair>)
    ensures forall p :: p in Survivors(pairs) <==> p in pairs && Survives(p)
  {
    if pairs != [] {
      SurvivorsAreLeaves(pairs[1..]);
      assert pairs == [pairs[0]] + pairs[1..];
    }
  }

  lemma {:induction false} LeavesAreWellFormed(t: Tree)
    requires WellFormed(t)
    ensures forall p :: p in Leaves(t) ==> Name(p.name) && Text(p.value)
    decreases t, 0
  {
    match t
    case Leaf(name, value) =>
    case Node(name, kids) => AllLeavesAreWellFormed(kids);
  }

  lemma {:induction false} AllLeavesAreWellFormed(f: Forest)
    requires AllWellFormed(f)
    ensures forall p :: p in LeavesAll(f) ==> Name(p.name) && Text(p.value)
    decreases f, 1
  {
    if f.Cons? {
      LeavesAreWellFormed(f.head);
      AllLeavesAreWellFormed(f.tail);
    }
  }

  lemma SplitOfItem(p: Pair)
    requires Name(p.name)
    ensures Split(ItemOf(p)) == Some(p)
  {
    var item := ItemOf(p);
    assert item == p.name + ([EQUALS] + p.value);
    SpanOfRun(p.name, [EQUALS] + p.value, IsEquals);
    assert item[..|p.name|] == p.name && item[|p.name| + 1..] == p.value;
  }

  /**
    * A packet with a descriptor tree rooted at DESCRIPTION is tokenized into exactly the surviving leaves, and each
    * result is the value of the last one whose name has the wanted prefix, among the leaves in front of the first
    * wanted value that cannot be decoded, or among all of them when there is no such value.
    */
  lemma DescriptorIsRead(prefix: bytes, t: Tree, suffix: bytes, utf8: bytes -> Option<string>)
    requires !exists i: nat :: OccursAt(prefix, MARKER, i)
    requires t.name == DESCRIPTION && WellFormed(t)
    requires suffix != [] ==> suffix[0] == 0
    ensures var data := prefix + (Print(t) + suffix);
      Items(data) == ItemsOf(Survivors(Leaves(t)))
      && AllLast(Readable(utf8, Survivors(Leaves(t))), utf8, Gather(utf8, NOTHING, Items(data)))
  {
    hide Runs, Kept, Connect, Gather, Split, ItemOf, Print;
    var data := prefix + (Print(t) + suffix);
    var pairs := Survivors(Leaves(t));
    ConnectIsTree(prefix, t, suffix);
    TokensOfTree(t, []);
    assert Print(t) + [] == Print(t);
    RunsOfNothing();
    assert Items(data) == ItemsOf(pairs) + [];
    LeavesAreWellFormed(t);
    SurvivorsAreLeaves(Leaves(t));
    forall i | 0 <= i < |pairs| ensures Split(ItemsOf(pairs)[i]) == Some(pairs[i]) {
      assert pairs[i] in pairs;
      SplitOfItem(pairs[i]);
    }
    GatherIsLast(utf8, [], NOTHING, ItemsOf(pairs), pairs);
    assert [] + Readable(utf8, pairs) == Readable(utf8, pairs);
  }

  /** So each result is the text of the last surviving leaf under its name, when everything can be decoded. */
  lemma WantedIsRead(prefix: bytes, t: Tree, suffix: bytes, utf8: bytes -> Option<string>, wanted: string, i: nat)
    requires !exists i: nat :: OccursAt(prefix, MARKER, i)
    requires t.name == Ascii("DESCRIPTION") && WellFormed(t)
    requires suffix != [] ==> suffix[0] == 0
    requires var pairs := Survivors(Leaves(t));
      i < |pairs| && Ascii(wanted) <= pairs[i].name
      && (forall j :: i < j < |pairs| ==> !(Ascii(wanted) <= pairs[j].name))
      && forall j :: 0 <= j < |pairs| ==> utf8(pairs[j].value).Some?
    ensures var r := Gather(utf8, NOTHING, Items(prefix + (Print(t) + suffix)));
      var text := utf8(Survivors(Leaves(t))[i].value);
      (wanted == "SERVICE_NAME" ==> r.service == text) && (wanted == "PROGRAM" ==> r.program == text)
      && (wanted == "USER" ==> r.user == text)
  {
    hide Gather, Items, Print, Survivors, Leaves, WellFormed, Ascii, Readable, Decodes, IsLast, Connect;
    var pairs := Survivors(Leaves(t));
    DescriptorIsRead(prefix, t, suffix, utf8);
    AllReadable(utf8, pairs);
    var r := Gather(utf8, NOTHING, Items(prefix + (Print(t) + suffix)));
    hide StartsWith;
    LastIs(utf8, pairs, Ascii("SERVICE_NAME"), r.service, i);
    LastIs(utf8, pairs, Ascii("PROGRAM"), r.program, i);
    LastIs(utf8, pairs, Ascii("USER"), r.user, i);
  }

  lemma {:induction false} AllReadable(utf8: bytes -> Option<string>, pairs: seq<Pair>)
    requires forall j :: 0 <= j < |pairs| ==> utf8(pairs[j].value).Some?
    ensures Readable(utf8, pairs) == pairs
  {
    if pairs != [] {
      AllReadable(utf8, pairs[1..]);
      assert pairs == [pairs[0]] + pairs[1..];
    }
  }

  lemma LastIs(utf8: bytes -> Option<string>, pairs: seq<Pair>, prefix: bytes, r: Option<string>, i: nat)
    requires IsLast(pairs, prefix, utf8, r) && i < |pairs|
    ensures prefix <= pairs[i].name && (forall j :: i < j < |pairs| ==> !(prefix <= pairs[j].name))
      ==> r == utf8(pairs[i].value)
  {
  }

  /** A tree as it is sent, in characters. */
  lemma PrintedTree(name: bytes, value: bytes, kids: Forest)
    ensures Print(Leaf(name, value)) == [0x28] + name + [0x3D] + value + [0x29]
    ensures Print(Node(name, kids)) == [0x28] + name + [0x3D] + PrintAll(kids) + [0x29]
  {
  }

  lemma RunsOfNothing()
    ensures Kept(Runs([])) == []
  {
  }
}
