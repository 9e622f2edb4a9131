/** LLSD values. */
module Osd {
  import opened Bytes

  type i32 = x: int | -0x8000_0000 <= x < 0x8000_0000
  /** A double, as its bit pattern. */
  type f64 = x: nat | x < 0x1_0000_0000_0000_0000
  type uuid = bs: seq<byte> | |bs| == 16 witness [0, 0, 0, 0, 0, 0, 0, 0, 0, 0, 0, 0, 0, 0, 0, 0]

  /** A map keeps its entries in insertion order; a date is its nanoseconds since the epoch. */
  datatype OSD =
    | Undef
    | Boolean(flag: bool)
    | Integer(int32: i32)
    | Real(bits: f64)
    | UUID(id: uuid)
    | String(text: string)
    | Uri(text: string)
    | Date(nanos: int)
    | Binary(data: seq<byte>)
    | Array(items: seq<OSD>)
    | Map(entries: seq<Entry>)

  datatype Entry = Entry(key: string, value: OSD)

  /** p holds of v and of every value inside it. */
  ghost predicate All(v: OSD, p: OSD -> bool) {
    p(v) &&
    match v
    case Array(items) => AllItems(items, p)
    case Map(entries) => AllEntries(entries, p)
    case _ => true
  }

  ghost predicate AllItems(items: seq<OSD>, p: OSD -> bool) {
    items == [] || (All(items[0], p) && AllItems(items[1..], p))
  }

  ghost predicate AllEntries(entries: seq<Entry>, p: OSD -> bool) {
    entries == [] || (All(entries[0].value, p) && AllEntries(entries[1..], p))
  }

  /** What follows from p and q of one value follows from them throughout. */
  lemma {:induction false} AllImplies(v: OSD, p: OSD -> bool, q: OSD -> bool, r: OSD -> bool)
    requires All(v, p) && All(v, q) && forall x | p(x) && q(x) :: r(x)
    ensures All(v, r)
  {
    match v
    case Array(items) => AllItemsImplies(items, p, q, r);
    case Map(entries) => AllEntriesImplies(entries, p, q, r);
    case _ =>
  }

  lemma {:induction false} AllItemsImplies(items: seq<OSD>, p: OSD -> bool, q: OSD -> bool, r: OSD -> bool)
    requires AllItems(items, p) && AllItems(items, q) && forall x | p(x) && q(x) :: r(x)
    ensures AllItems(items, r)
  {
    if items == [] {
    } else {
      AllImplies(items[0], p, q, r);
      AllItemsImplies(items[1..], p, q, r);
    }
  }

  lemma {:induction false} AllEntriesImplies(entries: seq<Entry>, p: OSD -> bool, q: OSD -> bool, r: OSD -> bool)
    requires AllEntries(entries, p) && AllEntries(entries, q) && forall x | p(x) && q(x) :: r(x)
    ensures AllEntries(entries, r)
  {
    if entries == [] {
    } else {
      AllImplies(entries[0].value, p, q, r);
      AllEntriesImplies(entries[1..], p, q, r);
    }
  }

  /** v with f applied to every value that holds no others. */
  function MapLeaves(v: OSD, f: OSD -> OSD): OSD {
    match v
    case Array(items) => Array(MapItems(items, f))
    case Map(entries) => Map(MapEntries(entries, f))
    case _ => f(v)
  }

  function MapItems(items: seq<OSD>, f: OSD -> OSD): seq<OSD> {
    if items == [] then [] else [MapLeaves(items[0], f)] + MapItems(items[1..], f)
  }

  function MapEntries(entries: seq<Entry>, f: OSD -> OSD): seq<Entry> {
    if entries == [] then []
    else [Entry(entries[0].key, MapLeaves(entries[0].value, f))] + MapEntries(entries[1..], f)
  }

  predicate Leaf(v: OSD) {
    !v.Array? && !v.Map?
  }

  ghost predicate KeepsLeaves(f: OSD -> OSD) {
    forall v | Leaf(v) :: Leaf(f(v))
  }

  lemma {:induction false} MapLeavesWellFormed(v: OSD, f: OSD -> OSD)
    requires WellFormed(v) && KeepsLeaves(f)
    ensures WellFormed(MapLeaves(v, f))
  {
    match v
    case Array(items) => MapItemsWellFormed(items, f);
    case Map(entries) => MapEntriesWellFormed(entries, f);
    case _ => assert Leaf(f(v));
  }

  lemma {:induction false} MapItemsWellFormed(items: seq<OSD>, f: OSD -> OSD)
    requires AllItems(items, DistinctKeys) && KeepsLeaves(f)
    ensures AllItems(MapItems(items, f), DistinctKeys)
  {
    if items == [] {
    } else {
      MapLeavesWellFormed(items[0], f);
      MapItemsWellFormed(items[1..], f);
    }
  }

  lemma {:induction false} MapEntriesWellFormed(entries: seq<Entry>, f: OSD -> OSD)
    requires AllEntries(entries, DistinctKeys) && KeepsLeaves(f)
    ensures AllEntries(MapEntries(entries, f), DistinctKeys)
    ensures forall k :: HasKey(MapEntries(entries, f), k) <==> HasKey(entries, k)
    ensures UniqueKeys(entries) ==> UniqueKeys(MapEntries(entries, f))
  {
    if entries == [] {
    } else {
      MapLeavesWellFormed(entries[0].value, f);
      MapEntriesWellFormed(entries[1..], f);
      forall k
        ensures HasKey(MapEntries(entries, f), k) <==> HasKey(entries, k)
      {
        KeysSplit(entries, k);
        KeysSplit(MapEntries(entries, f), k);
      }
    }
  }

  /** Mapping leaves changes nothing exactly when it fixes every leaf. */
  lemma {:induction false} MapLeavesFixes(v: OSD, f: OSD -> OSD, fixed: OSD -> bool)
    requires forall x :: fixed(x) <==> (Leaf(x) ==> f(x) == x)
    ensures MapLeaves(v, f) == v <==> All(v, fixed)
  {
    match v
    case Array(items) => MapItemsFixes(items, f, fixed);
    case Map(entries) => MapEntriesFixes(entries, f, fixed);
    case _ =>
  }

  lemma {:induction false} MapItemsFixes(items: seq<OSD>, f: OSD -> OSD, fixed: OSD -> bool)
    requires forall x :: fixed(x) <==> (Leaf(x) ==> f(x) == x)
    ensures MapItems(items, f) == items <==> AllItems(items, fixed)
  {
    if items == [] {
    } else {
      MapLeavesFixes(items[0], f, fixed);
      MapItemsFixes(items[1..], f, fixed);
      assert items == [items[0]] + items[1..];
      assert MapItems(items, f)[1..] == MapItems(items[1..], f);
    }
  }

  lemma {:induction false} MapEntriesFixes(entries: seq<Entry>, f: OSD -> OSD, fixed: OSD -> bool)
    requires forall x :: fixed(x) <==> (Leaf(x) ==> f(x) == x)
    ensures MapEntries(entries, f) == entries <==> AllEntries(entries, fixed)
  {
    if entries == [] {
    } else {
      MapLeavesFixes(entries[0].value, f, fixed);
      MapEntriesFixes(entries[1..], f, fixed);
      assert entries == [entries[0]] + entries[1..];
      assert MapEntries(entries, f)[1..] == MapEntries(entries[1..], f);
    }
  }

  ghost predicate IdempotentOnLeaves(f: OSD -> OSD) {
    forall v | Leaf(v) :: Leaf(f(v)) && f(f(v)) == f(v)
  }

  lemma {:induction false} MapLeavesTwice(v: OSD, f: OSD -> OSD)
    requires IdempotentOnLeaves(f)
    ensures MapLeaves(MapLeaves(v, f), f) == MapLeaves(v, f)
  {
    match v
    case Array(items) => MapItemsTwice(items, f);
    case Map(entries) => MapEntriesTwice(entries, f);
    case _ => assert Leaf(f(v));
  }

  lemma {:induction false} MapItemsTwice(items: seq<OSD>, f: OSD -> OSD)
    requires IdempotentOnLeaves(f)
    ensures MapItems(MapItems(items, f), f) == MapItems(items, f)
  {
    if items == [] {
    } else {
      MapLeavesTwice(items[0], f);
      MapItemsTwice(items[1..], f);
    }
  }

  lemma {:induction false} MapEntriesTwice(entries: seq<Entry>, f: OSD -> OSD)
    requires IdempotentOnLeaves(f)
    ensures MapEntries(MapEntries(entries, f), f) == MapEntries(entries, f)
  {
    if entries == [] {
    } else {
      MapLeavesTwice(entries[0].value, f);
      MapEntriesTwice(entries[1..], f);
    }
  }

  /** How many values there are in v, counting v. */
  function Nodes(v: OSD): (n: nat)
    ensures n >= 1
  {
    1 + match v
        case Array(items) => NodesOfItems(items)
        case Map(entries) => NodesOfEntries(entries)
        case _ => 0
  }

  function NodesOfItems(items: seq<OSD>): nat {
    if items == [] then 0 else Nodes(items[0]) + NodesOfItems(items[1..])
  }

  function NodesOfEntries(entries: seq<Entry>): nat {
    if entries == [] then 0 else Nodes(entries[0].value) + NodesOfEntries(entries[1..])
  }

  // ---------- Insertion-ordered maps ----------

  predicate HasKey(entries: seq<Entry>, key: string) {
    exists e :: e in entries && e.key == key
  }

  predicate UniqueKeys(entries: seq<Entry>) {
    entries == [] || (!HasKey(entries[1..], entries[0].key) && UniqueKeys(entries[1..]))
  }

  /** Insertion keeps the place of a key that is already there, and appends a new one. */
  function Insert(entries: seq<Entry>, key: string, value: OSD): seq<Entry> {
    if entries == [] then [Entry(key, value)]
    else if entries[0].key == key then [Entry(key, value)] + entries[1..]
    else [entries[0]] + Insert(entries[1..], key, value)
  }

  lemma {:induction false} InsertNew(entries: seq<Entry>, key: string, value: OSD)
    requires !HasKey(entries, key)
    ensures Insert(entries, key, value) == entries + [Entry(key, value)]
  {
    if entries == [] {
    } else {
      assert entries[0] in entries;
      assert forall e | e in entries[1..] :: e in entries;
      InsertNew(entries[1..], key, value);
    }
  }

  lemma {:induction false} InsertKeys(entries: seq<Entry>, key: string, value: OSD)
    ensures forall k :: HasKey(Insert(entries, key, value), k) <==> HasKey(entries, k) || k == key
    ensures UniqueKeys(entries) ==> UniqueKeys(Insert(entries, key, value))
  {
    var r := Insert(entries, key, value);
    if entries == [] {
      assert Entry(key, value) in r;
    } else {
      var tail := entries[1..];
      InsertKeys(tail, key, value);
      assert r[0] in r && entries[0] in entries;
      assert forall e :: e in entries <==> e == entries[0] || e in tail;
      assert forall e :: e in r <==> e == r[0] || e in r[1..];
      forall k
        ensures HasKey(r, k) <==> HasKey(entries, k) || k == key
      {
        KeysSplit(entries, k);
        KeysSplit(r, k);
      }
    }
  }

  /** The keys in order. */
  function Keys(entries: seq<Entry>): seq<string> {
    if entries == [] then [] else [entries[0].key] + Keys(entries[1..])
  }

  /** The value under a key: that of its first entry. */
  function ValueAt(entries: seq<Entry>, key: string): Option<OSD> {
    if entries == [] then None
    else if entries[0].key == key then Some(entries[0].value)
    else ValueAt(entries[1..], key)
  }

  /** Insertion gives the key its new value and every other key the one it had, and adds the key at the
      end unless it has a place. */
  lemma {:induction false} InsertSets(entries: seq<Entry>, key: string, value: OSD, k: string)
    ensures ValueAt(Insert(entries, key, value), k) == if k == key then Some(value) else ValueAt(entries, k)
    ensures Keys(Insert(entries, key, value)) == if key in Keys(entries) then Keys(entries) else Keys(entries) + [key]
  {
    if entries == [] {
    } else if entries[0].key == key {
      assert Insert(entries, key, value)[1..] == entries[1..];
    } else {
      InsertSets(entries[1..], key, value, k);
      assert Insert(entries, key, value)[1..] == Insert(entries[1..], key, value);
    }
  }

  lemma KeysSplit(entries: seq<Entry>, k: string)
    requires entries != []
    ensures HasKey(entries, k) <==> entries[0].key == k || HasKey(entries[1..], k)
  {
    assert entries[0] in entries;
    assert forall e :: e in entries <==> e == entries[0] || e in entries[1..];
  }

  /** The tree a parser builds when it inserts the entries it reads into a map one by one. */
  function Collapse(v: OSD): OSD {
    match v
    case Array(items) => Array(CollapseItems(items))
    case Map(entries) => Map(CollapseEntries(entries, []))
    case _ => v
  }

  function CollapseItems(items: seq<OSD>): seq<OSD> {
    if items == [] then [] else [Collapse(items[0])] + CollapseItems(items[1..])
  }

  function CollapseEntries(entries: seq<Entry>, into: seq<Entry>): seq<Entry>
    decreases entries
  {
    if entries == [] then into
    else CollapseEntries(entries[1..], Insert(into, entries[0].key, Collapse(entries[0].value)))
  }

  predicate DistinctKeys(v: OSD) {
    v.Map? ==> UniqueKeys(v.entries)
  }

  /** Every map in v has distinct keys, as every map of the source has. */
  ghost predicate WellFormed(v: OSD) {
    All(v, DistinctKeys)
  }

  lemma {:induction false} CollapseIsWellFormed(v: OSD)
    ensures WellFormed(Collapse(v))
  {
    match v
    case Array(items) => CollapsedItems(items);
    case Map(entries) => CollapsedEntries(entries, []);
    case _ =>
  }

  lemma {:induction false} CollapsedItems(items: seq<OSD>)
    ensures AllItems(CollapseItems(items), DistinctKeys)
  {
    if items == [] {
    } else {
      CollapseIsWellFormed(items[0]);
      CollapsedItems(items[1..]);
    }
  }

  lemma {:induction false} InsertAll(entries: seq<Entry>, key: string, value: OSD, p: OSD -> bool)
    requires AllEntries(entries, p) && All(value, p)
    ensures AllEntries(Insert(entries, key, value), p)
  {
    if entries == [] {
    } else {
      InsertAll(entries[1..], key, value, p);
    }
  }

  lemma {:induction false} CollapsedEntries(entries: seq<Entry>, into: seq<Entry>)
    requires AllEntries(into, DistinctKeys) && UniqueKeys(into)
    ensures AllEntries(CollapseEntries(entries, into), DistinctKeys) && UniqueKeys(CollapseEntries(entries, into))
    decreases entries
  {
    if entries == [] {
    } else {
      CollapseIsWellFormed(entries[0].value);
      InsertAll(into, entries[0].key, Collapse(entries[0].value), DistinctKeys);
      InsertKeys(into, entries[0].key, Collapse(entries[0].value));
      CollapsedEntries(entries[1..], Insert(into, entries[0].key, Collapse(entries[0].value)));
    }
  }

  /** Collapsing changes exactly the trees with a repeated key. */
  lemma CollapseFixesWellFormed(v: OSD)
    ensures Collapse(v) == v <==> WellFormed(v)
  {
    CollapseIsWellFormed(v);
    if WellFormed(v) {
      CollapseIdentity(v);
    }
  }

  lemma {:induction false} CollapseIdentity(v: OSD)
    requires WellFormed(v)
    ensures Collapse(v) == v
  {
    match v
    case Array(items) => CollapseIdentityItems(items);
    case Map(entries) =>
      CollapseIdentityEntries(entries, []);
      assert [] + entries == entries;
    case _ =>
  }

  lemma {:induction false} CollapseIdentityItems(items: seq<OSD>)
    requires AllItems(items, DistinctKeys)
    ensures CollapseItems(items) == items
  {
    if items == [] {
    } else {
      CollapseIdentity(items[0]);
      CollapseIdentityItems(items[1..]);
    }
  }

  ghost predicate NoCommonKey(a: seq<Entry>, b: seq<Entry>) {
    forall e, f | e in a && f in b :: e.key != f.key
  }

  /** The first entry can move over: its key is in neither of what is left. */
  lemma KeyMoves(entries: seq<Entry>, into: seq<Entry>)
    requires entries != [] && UniqueKeys(entries) && NoCommonKey(into, entries)
    ensures !HasKey(into, entries[0].key)
    ensures UniqueKeys(entries[1..]) && NoCommonKey(into + [entries[0]], entries[1..])
  {
    assert entries[0] in entries;
    assert forall f | f in entries[1..] :: f in entries && f.key != entries[0].key;
  }

  lemma {:induction false} CollapseIdentityEntries(entries: seq<Entry>, into: seq<Entry>)
    requires AllEntries(entries, DistinctKeys) && UniqueKeys(entries) && NoCommonKey(into, entries)
    ensures CollapseEntries(entries, into) == into + entries
    decreases entries
  {
    if entries == [] {
      assert into + entries == into;
    } else {
      hide Collapse, All, Insert, HasKey, UniqueKeys, NoCommonKey;
      var e, tail := entries[0], entries[1..];
      CollapseIdentity(e.value);
      KeyMoves(entries, into);
      InsertNew(into, e.key, e.value);
      CollapseIdentityEntries(tail, into + [e]);
      assert into + [e] + tail == into + entries;
    }
  }

  lemma {:induction false} CollapseAppend(entries: seq<Entry>, e: Entry, into: seq<Entry>)
    ensures CollapseEntries(entries + [e], into)
         == Insert(CollapseEntries(entries, into), e.key, Collapse(e.value))
    decreases entries
  {
    if entries == [] {
      assert ([] + [e])[1..] == [];
    } else {
      assert (entries + [e])[1..] == entries[1..] + [e];
      CollapseAppend(entries[1..], e, Insert(into, entries[0].key, Collapse(entries[0].value)));
    }
  }

  /** The value of the last entry under a key. */
  function LastValue(entries: seq<Entry>, key: string): Option<OSD> {
    if entries == [] then None
    else
      var last := entries[|entries| - 1];
      if last.key == key then Some(last.value) else LastValue(entries[..|entries| - 1], key)
  }

  /** The keys in order of their first entries. */
  function FirstKeys(entries: seq<Entry>): seq<string> {
    if entries == [] then []
    else
      var keys, last := FirstKeys(entries[..|entries| - 1]), entries[|entries| - 1].key;
      if last in keys then keys else keys + [last]
  }

  function CollapseOption(v: Option<OSD>): Option<OSD> {
    match v
    case None => None
    case Some(value) => Some(Collapse(value))
  }

  /** The map built from the entries a parser read gives each key its last value, and keeps the keys in
      the order in which they first came. */
  lemma {:induction false} CollapseSets(entries: seq<Entry>, k: string)
    ensures ValueAt(CollapseEntries(entries, []), k) == CollapseOption(LastValue(entries, k))
    ensures Keys(CollapseEntries(entries, [])) == FirstKeys(entries)
  {
    if entries == [] {
    } else {
      hide Collapse, CollapseEntries;
      var init, e := entries[..|entries| - 1], entries[|entries| - 1];
      assert entries == init + [e];
      CollapseSets(init, k);
      CollapseAppend(init, e, []);
      InsertSets(CollapseEntries(init, []), e.key, Collapse(e.value), k);
    }
  }

  lemma {:induction false} CollapseItemsAppend(items: seq<OSD>, v: OSD)
    ensures CollapseItems(items + [v]) == CollapseItems(items) + [Collapse(v)]
  {
    if items == [] {
      assert ([] + [v])[1..] == [];
    } else {
      assert (items + [v])[1..] == items[1..] + [v];
      CollapseItemsAppend(items[1..], v);
    }
  }

  /** p does not look inside containers, so collapsing keeps it. */
  ghost predicate OfLeaves(p: OSD -> bool) {
    forall v | !Leaf(v) :: p(v)
  }

  lemma {:induction false} CollapsePreserves(v: OSD, p: OSD -> bool)
    requires All(v, p) && OfLeaves(p)
    ensures All(Collapse(v), p)
  {
    match v
    case Array(items) => CollapsePreservesItems(items, p);
    case Map(entries) => CollapsePreservesEntries(entries, [], p);
    case _ =>
  }

  lemma {:induction false} CollapsePreservesItems(items: seq<OSD>, p: OSD -> bool)
    requires AllItems(items, p) && OfLeaves(p)
    ensures AllItems(CollapseItems(items), p)
  {
    if items == [] {
    } else {
      CollapsePreserves(items[0], p);
      CollapsePreservesItems(items[1..], p);
    }
  }

  lemma {:induction false} CollapsePreservesEntries(entries: seq<Entry>, into: seq<Entry>, p: OSD -> bool)
    requires AllEntries(entries, p) && AllEntries(into, p) && OfLeaves(p)
    ensures AllEntries(CollapseEntries(entries, into), p)
    decreases entries
  {
    if entries == [] {
    } else {
      CollapsePreserves(entries[0].value, p);
      InsertAll(into, entries[0].key, Collapse(entries[0].value), p);
      CollapsePreservesEntries(entries[1..], Insert(into, entries[0].key, Collapse(entries[0].value)), p);
    }
  }

  // ---------- Collapsing never adds values ----------

  lemma {:induction false} InsertNodes(entries: seq<Entry>, key: string, value: OSD)
    ensures NodesOfEntries(Insert(entries, key, value)) <= NodesOfEntries(entries) + Nodes(value)
  {
    if entries == [] {
    } else {
      if entries[0].key == key {
        assert ([Entry(key, value)] + entries[1..])[1..] == entries[1..];
      } else {
        InsertNodes(entries[1..], key, value);
        assert Insert(entries, key, value)[1..] == Insert(entries[1..], key, value);
      }
    }
  }

  lemma {:induction false} CollapseNodes(v: OSD)
    ensures Nodes(Collapse(v)) <= Nodes(v)
  {
    match v
    case Array(items) => CollapseNodesItems(items);
    case Map(entries) => CollapseNodesEntries(entries, []);
    case _ =>
  }

  lemma {:induction false} CollapseNodesItems(items: seq<OSD>)
    ensures NodesOfItems(CollapseItems(items)) <= NodesOfItems(items)
  {
    if items == [] {
    } else {
      CollapseNodes(items[0]);
      CollapseNodesItems(items[1..]);
    }
  }

  lemma {:induction false} CollapseNodesEntries(entries: seq<Entry>, into: seq<Entry>)
    ensures NodesOfEntries(CollapseEntries(entries, into)) <= NodesOfEntries(into) + NodesOfEntries(entries)
    decreases entries
  {
    if entries == [] {
    } else {
      CollapseNodes(entries[0].value);
      InsertNodes(into, entries[0].key, Collapse(entries[0].value));
      CollapseNodesEntries(entries[1..], Insert(into, entries[0].key, Collapse(entries[0].value)));
    }
  }
}
