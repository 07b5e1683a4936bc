/**
 One namespace of the cache as stored: its own LRU list, byte share, marks and
 kept digests, and what it means for it to mirror its part of the single list.
 */
module NamespaceModel {
  import opened Basics
  import opened Lru

  datatype Entry = Entry(name: Bytes, value: Bytes, expiresAt: Option<nat>, lastUsed: nat)

  datatype Namespace = Namespace(
    name: Bytes,
    entries: seq<Entry>,
    usedBytes: nat,
    budget: Option<nat>,
    migrated: set<Bytes>,
    digests: map<Bytes, Bytes>)

  // ---- an LruCache: its entries from least to most recently used ----

  function Peek(es: seq<Entry>, name: Bytes): Option<Entry> {
    if es == [] then None
    else if es[0].name == name then Some(es[0])
    else Peek(es[1..], name)
  }

  function Pop(es: seq<Entry>, name: Bytes): seq<Entry> {
    if es == [] then []
    else if es[0].name == name then es[1..]
    else [es[0]] + Pop(es[1..], name)
  }

  /** In-place assignment to the entry of that name, its place in the order kept. */
  function Assign(es: seq<Entry>, e: Entry): seq<Entry> {
    if es == [] then []
    else if es[0].name == e.name then [e] + es[1..]
    else [es[0]] + Assign(es[1..], e)
  }

  // ---- mirroring ----

  function ToEntry(x: Item): Entry {
    Entry(x.key.name, x.value, x.expiresAt, x.lastUsed)
  }

  function Entries(items: seq<Item>): (es: seq<Entry>)
    ensures |es| == |items|
    ensures forall i :: 0 <= i < |es| ==> es[i] == ToEntry(items[i])
  {
    if items == [] then [] else [ToEntry(items[0])] + Entries(items[1..])
  }

  ghost function MarkedNames(items: seq<Item>): set<Bytes> {
    set x | x in items && x.marked :: x.key.name
  }

  ghost function DigestedNames(items: seq<Item>): set<Bytes> {
    set x | x in items && x.digested :: x.key.name
  }

  ghost predicate AllIn(items: seq<Item>, ns: Bytes) {
    forall x :: x in items ==> x.key.ns == ns
  }

  /** `n` stores exactly `items`: entries, byte share, marks, and digests that are those of the values. */
  ghost predicate Mirrors(n: Namespace, items: seq<Item>, digest: Bytes -> Bytes) {
    && n.entries == Entries(items)
    && n.usedBytes == Cost(items)
    && n.migrated == MarkedNames(items)
    && n.digests.Keys == DigestedNames(items)
    && (forall x :: x in items && x.digested ==> n.digests[x.key.name] == digest(x.value))
  }

  lemma MirrorsHead(n: Namespace, items: seq<Item>, digest: Bytes -> Bytes)
    requires Mirrors(n, items, digest)
    ensures |n.entries| == |items|
    ensures items != [] ==> n.entries[0] == ToEntry(items[0])
  {
  }

  /** A namespace with no entry left is charged nothing, and keeps no mark and no digest. */
  lemma EmptyShare(n: Namespace, items: seq<Item>, digest: Bytes -> Bytes)
    requires Mirrors(n, items, digest) && n.entries == []
    ensures n.usedBytes == 0 && n.migrated == {} && n.digests == map[]
  {
    MirrorsHead(n, items, digest);
    assert items == [];
  }

  lemma {:induction false} PeekMirrors(items: seq<Item>, key: Key)
    requires AllIn(items, key.ns)
    ensures Peek(Entries(items), key.name) ==
            match Lookup(items, key) case None => None case Some(x) => Some(ToEntry(x))
  {
    if items != [] {
      assert AllIn(items[1..], key.ns);
      assert items[0].key.ns == key.ns;
      if items[0].key != key {
        PeekMirrors(items[1..], key);
        assert Entries(items)[1..] == Entries(items[1..]);
      }
    }
  }

  lemma {:induction false} PopMirrors(items: seq<Item>, key: Key)
    requires AllIn(items, key.ns)
    ensures Pop(Entries(items), key.name) == Entries(Without(items, key))
  {
    if items != [] {
      assert AllIn(items[1..], key.ns);
      assert items[0].key.ns == key.ns;
      assert Entries(items)[1..] == Entries(items[1..]);
      if items[0].key != key {
        PopMirrors(items[1..], key);
        assert Without(items, key)[1..] == Without(items[1..], key);
      }
    }
  }

  lemma {:induction false} AssignMirrors(items: seq<Item>, x: Item)
    requires AllIn(items, x.key.ns)
    ensures Assign(Entries(items), ToEntry(x)) == Entries(Replace(items, x))
  {
    if items != [] {
      assert AllIn(items[1..], x.key.ns);
      assert items[0].key.ns == x.key.ns;
      assert Entries(items)[1..] == Entries(items[1..]);
      if items[0].key != x.key {
        AssignMirrors(items[1..], x);
        assert Replace(items, x)[1..] == Replace(items[1..], x);
      } else {
        assert Replace(items, x)[1..] == items[1..];
      }
    }
  }

  /** Whether `name` is marked or digested is whether its item is. */
  lemma FlagsMirror(n: Namespace, items: seq<Item>, key: Key, digest: Bytes -> Bytes)
    requires Mirrors(n, items, digest) && Ordered(items) && AllIn(items, key.ns)
    ensures key.name in n.migrated <==> Lookup(items, key).Some? && Lookup(items, key).value.marked
    ensures key.name in n.digests <==> Lookup(items, key).Some? && Lookup(items, key).value.digested
    ensures key.name in n.digests ==> n.digests[key.name] == digest(Lookup(items, key).value.value)
  {
    LookupMember(items, key);
    if key.name in n.migrated {
      var x :| x in items && x.marked && x.key.name == key.name;
      LookupUnique(items, x);
    }
    if key.name in n.digests {
      var x :| x in items && x.digested && x.key.name == key.name;
      LookupUnique(items, x);
    }
  }

  /** Removing an entry with its mark and digest mirrors taking the item out. */
  lemma MirrorsWithout(n: Namespace, items: seq<Item>, key: Key, n': Namespace, digest: Bytes -> Bytes)
    requires Mirrors(n, items, digest) && Ordered(items) && AllIn(items, key.ns)
    requires Lookup(items, key).Some? && n.usedBytes >= ItemCost(Lookup(items, key).value)
    requires n' == n.(entries := Pop(n.entries, key.name),
                      usedBytes := n.usedBytes - ItemCost(Lookup(items, key).value),
                      migrated := n.migrated - {key.name},
                      digests := n.digests - {key.name})
    ensures Mirrors(n', Without(items, key), digest)
  {
    PopMirrors(items, key);
    CostWithout(items, key);
    FlagsWithout(items, key);
  }

  lemma FlagsWithout(items: seq<Item>, key: Key)
    requires Ordered(items) && AllIn(items, key.ns)
    ensures MarkedNames(Without(items, key)) == MarkedNames(items) - {key.name}
    ensures DigestedNames(Without(items, key)) == DigestedNames(items) - {key.name}
    ensures forall x :: x in Without(items, key) ==> x in items && x.key.name != key.name
  {
    WithoutMembers(items, key);
    forall x | x in items ensures x in Without(items, key) <==> x.key.name != key.name {
      assert x.key != key <==> x.key.name != key.name;
    }
  }

  /** Appending a new, unmarked entry mirrors appending its item. */
  lemma MirrorsAppend(n: Namespace, items: seq<Item>, x: Item, n': Namespace, digest: Bytes -> Bytes)
    requires Mirrors(n, items, digest) && !x.marked && !x.digested
    requires n' == n.(entries := n.entries + [ToEntry(x)], usedBytes := n.usedBytes + ItemCost(x))
    ensures Mirrors(n', items + [x], digest)
  {
    CostAppend(items, x);
    assert forall y :: y in items + [x] <==> y in items || y == x;
    assert MarkedNames(items + [x]) == MarkedNames(items);
    assert DigestedNames(items + [x]) == DigestedNames(items);
  }

  /** Moving an entry to the most recent place with a new stamp or expiry mirrors doing so in the list. */
  lemma MirrorsPromote(n: Namespace, items: seq<Item>, y: Item, n': Namespace, digest: Bytes -> Bytes)
    requires Mirrors(n, items, digest) && Ordered(items) && AllIn(items, y.key.ns)
    requires Lookup(items, y.key).Some?
    requires y == Lookup(items, y.key).value.(lastUsed := y.lastUsed, expiresAt := y.expiresAt)
    requires n' == n.(entries := Pop(n.entries, y.key.name) + [ToEntry(y)])
    ensures Mirrors(n', Without(items, y.key) + [y], digest)
  {
    hide Ordered, Without, Pop, AllIn, Lookup, Entries, Cost, MarkedNames, DigestedNames;
    LookupMember(items, y.key);
    PopMirrors(items, y.key);
    CostWithout(items, y.key);
    var rest := Without(items, y.key);
    CostAppend(rest, y);
    SameFlags(items, rest + [y], y);
    EntriesAppend(rest, y);
    DigestsPromote(n, items, y, digest);
  }

  lemma EntriesAppend(items: seq<Item>, y: Item)
    ensures Entries(items + [y]) == Entries(items) + [ToEntry(y)]
  {
  }

  lemma DigestsPromote(n: Namespace, items: seq<Item>, y: Item, digest: Bytes -> Bytes)
    requires Mirrors(n, items, digest) && Lookup(items, y.key).Some?
    requires y == Lookup(items, y.key).value.(lastUsed := y.lastUsed, expiresAt := y.expiresAt)
    ensures y.digested ==> y.key.name in n.digests && n.digests[y.key.name] == digest(y.value)
  {
    LookupMember(items, y.key);
  }

  /** In-place changes that keep the key and the stamp. */
  lemma MirrorsReplace(n: Namespace, items: seq<Item>, y: Item, n': Namespace, digest: Bytes -> Bytes)
    requires Mirrors(n, items, digest) && Ordered(items) && AllIn(items, y.key.ns)
    requires Lookup(items, y.key).Some?
    requires y == Lookup(items, y.key).value.(expiresAt := y.expiresAt, marked := y.marked, digested := y.digested)
    requires n'.name == n.name && n'.entries == Assign(n.entries, ToEntry(y))
    requires n'.usedBytes + ItemCost(Lookup(items, y.key).value) == n.usedBytes + ItemCost(y)
    requires n'.migrated == if y.marked then n.migrated + {y.key.name} else n.migrated - {y.key.name}
    requires if y.digested then n'.digests == n.digests[y.key.name := digest(y.value)]
             else n'.digests == n.digests - {y.key.name}
    ensures Mirrors(n', Replace(items, y), digest)
  {
    AssignMirrors(items, y);
    CostReplace(items, y);
    FlagsReplace(items, y);
  }

  lemma FlagsReplace(items: seq<Item>, y: Item)
    requires Ordered(items) && AllIn(items, y.key.ns)
    requires Lookup(items, y.key).Some? && Lookup(items, y.key).value.lastUsed == y.lastUsed
    ensures MarkedNames(Replace(items, y)) ==
              MarkedNames(items) - {y.key.name} + (if y.marked then {y.key.name} else {})
    ensures DigestedNames(Replace(items, y)) ==
              DigestedNames(items) - {y.key.name} + (if y.digested then {y.key.name} else {})
    ensures forall x :: x in Replace(items, y) ==> x == y || (x in items && x.key.name != y.key.name)
  {
    ReplaceMembers(items, y);
    assert y in Replace(items, y);
    forall x | x in items ensures x.key != y.key <==> x.key.name != y.key.name {
    }
  }

  lemma SameFlags(items: seq<Item>, l: seq<Item>, y: Item)
    requires Ordered(items) && AllIn(items, y.key.ns) && Lookup(items, y.key).Some?
    requires y.marked == Lookup(items, y.key).value.marked && y.digested == Lookup(items, y.key).value.digested
    requires l == Without(items, y.key) + [y]
    ensures MarkedNames(l) == MarkedNames(items) && DigestedNames(l) == DigestedNames(items)
    ensures forall x :: x in l <==> x == y || (x in items && x.key != y.key)
  {
    LookupMember(items, y.key);
    WithoutMembers(items, y.key);
    var x := Lookup(items, y.key).value;
    assert y in l;
    forall z | z in items && z != x ensures z in l {
      LookupUnique(items, z);
      assert z.key != y.key;
    }
  }
}
