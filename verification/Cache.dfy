/**
 The cache store as it is kept: an index from names to slots, one LRU list per
 live namespace, a lazily maintained min-heap of the namespaces' oldest stamps,
 and redundant byte counters. Every operation is proved to do to the single list
 exactly what `StoreSpec` says.
 */
module CacheModel {
  import opened Basics
  import opened Lru
  import opened StoreSpec
  import opened NamespaceModel
  import Decimal

  const TAILS_SLACK: nat := 64

  /** A heap item: a stamp no later than the oldest entry of the namespace in that slot. */
  datatype Tail = Tail(stamp: nat, id: nat)

  function Max(a: nat, b: nat): nat {
    if a < b then b else a
  }

  predicate NoLater(a: Tail, b: Tail) {
    a.stamp < b.stamp || (a.stamp == b.stamp && a.id <= b.id)
  }

  /** The stamp of the oldest entry, 0 for a namespace that has none yet. */
  function TailBound(n: Namespace): nat {
    if n.entries == [] then 0 else n.entries[0].lastUsed
  }

  /** A namespace without the entry of `x`, its mark and its digest. */
  function Stripped(n: Namespace, x: Item): Namespace
    requires n.usedBytes >= ItemCost(x)
  {
    n.(entries := Pop(n.entries, x.key.name),
       usedBytes := n.usedBytes - ItemCost(x),
       migrated := n.migrated - {x.key.name},
       digests := n.digests - {x.key.name})
  }

  /** The index and the slots describe the same namespaces, and each slot mirrors its part of `l`. */
  ghost predicate Table(c: Config, names: map<Bytes, nat>, slots: map<nat, Namespace>, l: seq<Item>) {
    && (forall n :: n in names ==> names[n] in slots && slots[names[n]].name == n)
    && (forall id :: id in slots ==> Slot(c, names, slots[id], id, l))
    && Names(l) <= names.Keys
  }

  ghost predicate Slot(c: Config, names: map<Bytes, nat>, n: Namespace, id: nat, l: seq<Item>) {
    && n.name in names && names[n.name] == id
    && n.budget == BudgetOf(c, n.name)
    && Mirrors(n, Of(l, n.name), c.digest)
  }

  /** Each slot id is in the heap at most once, with the stamp `tailOf` gives it. */
  ghost predicate Heap(tails: multiset<Tail>, tailOf: map<nat, nat>) {
    forall t: Tail :: tails[t] == if t.id in tailOf && tailOf[t.id] == t.stamp then 1 else 0
  }

  /** Every live namespace is in the heap, no later than its oldest entry. */
  ghost predicate Covered(slots: map<nat, Namespace>, tailOf: map<nat, nat>) {
    forall id :: id in slots ==> id in tailOf && tailOf[id] <= TailBound(slots[id])
  }

  /** Every live namespace but `out` is in the heap, no later than its oldest entry. */
  ghost predicate CoveredBut(slots: map<nat, Namespace>, tailOf: map<nat, nat>, out: nat) {
    forall id :: id in slots && id != out ==> id in tailOf && tailOf[id] <= TailBound(slots[id])
  }

  ghost predicate Below(tailOf: map<nat, nat>, next: nat) {
    forall id :: id in tailOf ==> id < next
  }

  ghost predicate BelowAll(slots: map<nat, Namespace>, next: nat) {
    forall id :: id in slots ==> id < next
  }

  /** No slot appears or changes its name from `a` to `b`, and no namespace's oldest entry gets older. */
  ghost predicate OnlyLater(a: map<nat, Namespace>, b: map<nat, Namespace>) {
    forall id :: id in b ==> id in a && b[id].name == a[id].name && TailBound(a[id]) <= TailBound(b[id])
  }

  lemma TableEdit(c: Config, names: map<Bytes, nat>, slots: map<nat, Namespace>, l: seq<Item>, l': seq<Item>, id: nat,
                  n: Namespace)
    requires Table(c, names, slots, l)
    requires id in slots && n.name == slots[id].name && n.budget == slots[id].budget
    requires Mirrors(n, Of(l', n.name), c.digest)
    requires forall m :: m != n.name ==> Of(l', m) == Of(l, m)
    requires Names(l') <= names.Keys
    ensures Table(c, names, slots[id := n], l')
  {
    var slots' := slots[id := n];
    forall i | i in slots' ensures Slot(c, names, slots'[i], i, l') {
      if i != id {
        assert Slot(c, names, slots[i], i, l) && Slot(c, names, slots[id], id, l);
        assert slots[i].name != n.name;
      }
    }
    forall m | m in names ensures names[m] in slots' && slots'[names[m]].name == m {
    }
  }

  lemma TableDrop(c: Config, names: map<Bytes, nat>, slots: map<nat, Namespace>, l: seq<Item>, l': seq<Item>, id: nat)
    requires Table(c, names, slots, l)
    requires id in slots
    requires forall m :: m != slots[id].name ==> Of(l', m) == Of(l, m)
    requires Names(l') <= names.Keys - {slots[id].name}
    ensures Table(c, names - {slots[id].name}, slots - {id}, l')
  {
    var name := slots[id].name;
    var names', slots' := names - {name}, slots - {id};
    assert Slot(c, names, slots[id], id, l);
    forall i | i in slots' ensures Slot(c, names', slots'[i], i, l') {
      assert Slot(c, names, slots[i], i, l);
      assert slots[i].name != name;
    }
    forall m | m in names' ensures names'[m] in slots' && slots'[names'[m]].name == m {
      assert names[m] in slots && slots[names[m]].name == m;
    }
  }

  lemma {:induction false} HasLeast(s: multiset<Tail>) returns (t: Tail)
    requires s != multiset{}
    ensures t in s && forall u :: u in s ==> NoLater(t, u)
    decreases |s|
  {
    var first :| first in s;
    var rest := s - multiset{first};
    assert forall u :: u in s ==> u == first || u in rest;
    t := first;
    if rest != multiset{} {
      var r := HasLeast(rest);
      t := if NoLater(r, first) then r else first;
    }
  }

  /** What scanning every namespace finds: one whose oldest entry is the oldest of all. */
  ghost predicate ScanVictim(slots: map<nat, Namespace>, id: nat) {
    && id in slots && slots[id].entries != []
    && (forall i :: i in slots && slots[i].entries != [] ==> TailBound(slots[id]) <= TailBound(slots[i]))
  }

  /** The live namespaces whose heap item is older than their oldest entry. */
  ghost function Stale(slots: map<nat, Namespace>, tailOf: map<nat, nat>): set<nat> {
    set id | id in tailOf && id in slots && slots[id].entries != [] && tailOf[id] != slots[id].entries[0].lastUsed
  }

  /** How many namespaces hold something just before the `i`-th call of a run. */
  ghost function LiveAt(c: Config, s: Store, calls: seq<Call>, i: nat): nat
    requires i <= |calls|
  {
    |Names(After(c, s, calls[..i]).lru)|
  }

  /** No more than `p` namespaces hold something before any call of the run. */
  ghost predicate NeverMoreThan(c: Config, s: Store, calls: seq<Call>, p: nat) {
    forall i :: 0 <= i < |calls| ==> LiveAt(c, s, calls, i) <= p
  }

  lemma NeverMoreBefore(c: Config, s: Store, calls: seq<Call>, last: Call, p: nat)
    requires NeverMoreThan(c, s, calls + [last], p)
    ensures NeverMoreThan(c, s, calls, p) && |Names(After(c, s, calls).lru)| <= p
  {
    var all := calls + [last];
    assert all[..|calls|] == calls;
    assert LiveAt(c, s, all, |calls|) <= p;
    forall i | 0 <= i < |calls| ensures LiveAt(c, s, calls, i) <= p {
      assert all[..i] == calls[..i];
      assert LiveAt(c, s, all, i) <= p;
    }
  }

  /** There are as many slots as named namespaces. */
  lemma {:induction false} SlotsCounted(names: map<Bytes, nat>, slots: map<nat, Namespace>)
    requires forall n :: n in names ==> names[n] in slots && slots[names[n]].name == n
    requires forall id :: id in slots ==> slots[id].name in names && names[slots[id].name] == id
    ensures |slots| == |names|
    decreases |slots|
  {
    if slots.Keys != {} {
      var id :| id in slots;
      var ns := slots[id].name;
      assert (names - {ns}).Keys == names.Keys - {ns} && (slots - {id}).Keys == slots.Keys - {id};
      SlotsCounted(names - {ns}, slots - {id});
    } else {
      assert names.Keys == {};
    }
  }

  class Cache {
    const c: Config
    var names: map<Bytes, nat>
    var slots: map<nat, Namespace>
    var tails: multiset<Tail>
    var nextSlotId: nat
    var marked: nat
    var entryCount: nat
    var usedBytes: nat
    var clock: nat
    var tombstones: map<Key, nat>
    var tombstoneOrder: seq<Stamp>
    var pendingRemoval: seq<Key>
    var lastHandoffAt: Option<nat>
    var handoffWrites: nat

    /** The single list this cache stands for. */
    ghost var lru: seq<Item>
    /** The stamp each slot id has in the heap, dropped slots included. */
    ghost var tailOf: map<nat, nat>
    /** The most namespaces ever live at once. */
    ghost var peak: nat

    ghost function Abs(): Store
      reads this
    {
      Store(lru, clock, Tombs(tombstones, tombstoneOrder), pendingRemoval, lastHandoffAt, handoffWrites)
    }

    /** Table, order and counters, without the heap. */
    ghost predicate Base()
      reads this
    {
      && Table(c, names, slots, lru)
      && Ordered(lru) && StampedBy(lru, clock)
      && entryCount == |lru|
      && marked == MarkCount(lru)
      && usedBytes == Cost(lru) + NameBytes(names.Keys) + TombBytes(tombstones)
    }

    ghost predicate TailsOk()
      reads this
    {
      && Heap(tails, tailOf)
      && Covered(slots, tailOf)
      && Below(tailOf, nextSlotId)
      && |slots| <= peak
      && |tails| <= 2 * peak + TAILS_SLACK + 1
    }

    ghost predicate Valid()
      reads this
    {
      Base() && TailsOk() && names.Keys == Names(lru)
    }

    constructor (c: Config)
      ensures Valid() && this.c == c
      ensures Abs() == Store([], 0, Tombs(map[], []), [], None, 0)
      ensures peak == 0
    {
      this.c := c;
      names, slots, tails, nextSlotId := map[], map[], multiset{}, 0;
      marked, entryCount, usedBytes, clock := 0, 0, 0, 0;
      tombstones, tombstoneOrder, pendingRemoval := map[], [], [];
      lastHandoffAt, handoffWrites := None, 0;
      lru, tailOf, peak := [], map[], 0;
    }

    function FindNamespace(name: Bytes): Option<nat>
      reads this
    {
      if name in names then Some(names[name]) else None
    }

    /** Releases the mark of `name`, if any, from the share and from the two totals. */
    static method ReleaseMark(n: Namespace, name: Bytes, used: nat, marks: nat)
      returns (n': Namespace, used': nat, marks': nat)
      requires name in n.migrated ==> n.usedBytes >= MarkCharge(name) && used >= MarkCharge(name) && marks >= 1
      ensures var charge := if name in n.migrated then MarkCharge(name) else 0;
              n' == n.(usedBytes := n.usedBytes - charge, migrated := n.migrated - {name}) && used' == used - charge
      ensures marks' == marks - (if name in n.migrated then 1 else 0)
    {
      n', used', marks' := n, used, marks;
      assert name !in n.migrated ==> n.migrated - {name} == n.migrated;
      if n.migrated == {} {
        return;
      }
      if name in n.migrated {
        n' := n.(usedBytes := n.usedBytes - MarkCharge(name), migrated := n.migrated - {name});
        used' := used - MarkCharge(name);
        marks' := marks - 1;
      }
    }

    /** Drops the kept digest of `name`, if any, crediting its charge back. */
    static method ReleaseDigest(n: Namespace, name: Bytes, used: nat) returns (n': Namespace, used': nat)
      requires name in n.digests ==> n.usedBytes >= DigestCharge(name) && used >= DigestCharge(name)
      ensures var charge := if name in n.digests then DigestCharge(name) else 0;
              n' == n.(usedBytes := n.usedBytes - charge, digests := n.digests - {name}) && used' == used - charge
    {
      n', used' := n, used;
      assert name !in n.digests ==> n.digests - {name} == n.digests;
      if n.digests == map[] {
        return;
      }
      if name in n.digests {
        n' := n.(usedBytes := n.usedBytes - DigestCharge(name), digests := n.digests - {name});
        used' := used - DigestCharge(name);
      }
    }

    /** What slot `id` holds under a name is what the list holds under the key, charged to every counter. */
    lemma SlotMirrors(id: nat, key: Key)
      requires Base() && id in slots && key.ns == slots[id].name
      ensures key.ns in names && names[key.ns] == id && Names(lru) <= names.Keys
      ensures Lookup(Of(lru, key.ns), key) == Lookup(lru, key)
      ensures Ordered(Of(lru, key.ns)) && AllIn(Of(lru, key.ns), key.ns)
      ensures Mirrors(slots[id], Of(lru, key.ns), c.digest)
      ensures match Lookup(lru, key)
              case None =>
                && Peek(slots[id].entries, key.name).None?
                && key.name !in slots[id].migrated && key.name !in slots[id].digests
                && Without(lru, key) == lru
              case Some(x) =>
                && x.key == key && x in lru
                && Peek(slots[id].entries, key.name) == Some(ToEntry(x))
                && ItemCost(x) <= slots[id].usedBytes && ItemCost(x) <= Cost(lru) && MarkBit(x) <= marked && |lru| >= 1
                && (key.name in slots[id].migrated <==> x.marked)
                && (key.name in slots[id].digests <==> x.digested)
                && (x.digested ==> slots[id].digests[key.name] == c.digest(x.value))
    {
      assert Slot(c, names, slots[id], id, lru);
      var items := Of(lru, key.ns);
      LookupOf(lru, key);
      OfOrdered(lru, key.ns);
      OfMembers(lru, key.ns);
      LookupMember(lru, key);
      PeekMirrors(items, key);
      FlagsMirror(slots[id], items, key, c.digest);
      if Lookup(lru, key).Some? {
        CostMember(lru, Lookup(lru, key).value);
        CostMember(items, Lookup(lru, key).value);
      } else {
        WithoutAbsent(lru, key);
      }
    }

    /** Removes the (empty) sub-map in slot `id` and releases its name charge. */
    method DropNamespace(id: nat)
      requires id in slots && slots[id].name in names
      requires usedBytes >= NameCharge(slots[id].name)
      modifies `names, `slots, `usedBytes
      ensures names == old(names - {slots[id].name}) && slots == old(slots - {id})
      ensures usedBytes == old(usedBytes - NameCharge(slots[id].name))
    {
      var n := slots[id];
      slots := slots - {id};
      names := names - {n.name};
      usedBytes := usedBytes - NameCharge(n.name);
    }

    /** Removes one entry with its mark and digest, and its namespace with its last entry. */
    method RemoveEntryIn(id: nat, name: Bytes) returns (removed: Option<Entry>)
      requires Base()
      modifies `names, `slots, `usedBytes, `entryCount, `marked, `lru
      ensures Base() && OnlyLater(old(slots), slots)
      ensures names.Keys - Names(lru) == old(names.Keys - Names(lru))
      ensures id !in old(slots) ==> removed.None? && lru == old(lru) && slots == old(slots)
      ensures id in old(slots) ==>
                var key := Key(old(slots)[id].name, name);
                && lru == Without(old(lru), key)
                && removed == match Lookup(old(lru), key) case None => None case Some(x) => Some(ToEntry(x))
    {
      hide Table, Ordered, StampedBy, Lookup, Without, Pop, Peek, Names, OnlyLater, Mirrors, AllIn, Of, NameBytes,
           TombBytes, Cost, MarkCount;
      OnlyLaterRefl();
      if id !in slots {
        return None;
      }
      var n := slots[id];
      ghost var key := Key(n.name, name);
      removed := Peek(n.entries, name);
      SlotMirrors(id, key);
      if removed.None? {
        return;
      }
      ghost var x := Lookup(lru, key).value;
      n := n.(entries := Pop(n.entries, name), usedBytes := n.usedBytes - EntryBytes(name, removed.value.value));
      var used, marks := usedBytes - EntryBytes(name, removed.value.value), marked;
      n, used, marks := ReleaseMark(n, name, used, marks);
      n, used := ReleaseDigest(n, name, used);
      RemovalFacts(id, key);
      RemovalKeepsTable(id, key, n);
      entryCount, usedBytes, marked := entryCount - 1, used, marks;
      slots := slots[id := n];
      lru := Without(lru, key);
      if n.entries == [] {
        DropNamespace(id);
        assert slots == old(slots) - {id};
      }
    }

    lemma OnlyLaterRefl()
      ensures OnlyLater(slots, slots)
    {
    }

    /** What taking `key` out of the list does to its order and its sums. */
    lemma RemovalFacts(id: nat, key: Key)
      requires Base() && id in slots && key.ns == slots[id].name && Lookup(lru, key).Some?
      ensures Ordered(Without(lru, key)) && StampedBy(Without(lru, key), clock)
      ensures |Without(lru, key)| == |lru| - 1
      ensures Cost(Without(lru, key)) == Cost(lru) - ItemCost(Lookup(lru, key).value)
      ensures MarkCount(Without(lru, key)) == MarkCount(lru) - MarkBit(Lookup(lru, key).value)
    {
      WithoutMembers(lru, key);
      CostWithout(lru, key);
    }

    /**
     Taking out an entry keeps the table: a slot that still has others mirrors the shorter list, and one whose
     last entry it was is down to a share of exactly zero, so dropping it and its name charge loses nothing.
     */
    lemma RemovalKeepsTable(id: nat, key: Key, n: Namespace)
      requires Base() && id in slots && key.ns == slots[id].name && Lookup(lru, key).Some?
      requires slots[id].usedBytes >= ItemCost(Lookup(lru, key).value)
      requires n == Stripped(slots[id], Lookup(lru, key).value)
      ensures key.ns in names
      ensures n.entries != [] ==> Table(c, names, slots[id := n], Without(lru, key))
      ensures n.entries != [] ==> Names(Without(lru, key)) == Names(lru) && OnlyLater(slots, slots[id := n])
      ensures n.entries == [] ==> n.usedBytes == 0 && n.migrated == {} && n.digests == map[]
      ensures n.entries == [] ==> Table(c, names - {key.ns}, slots - {id}, Without(lru, key))
      ensures n.entries == [] ==> names.Keys - {key.ns} - Names(Without(lru, key)) == names.Keys - Names(lru)
      ensures n.entries == [] ==> NameBytes(names.Keys) == NameCharge(key.ns) + NameBytes((names - {key.ns}).Keys)
      ensures OnlyLater(slots, slots - {id})
    {
      hide Table, Slot, Mirrors, Ordered, Lookup, Without, Pop, Names, AllIn, Of;
      SlotMirrors(id, key);
      var items, l := Of(lru, key.ns), Without(lru, key);
      MirrorsWithout(slots[id], items, key, n, c.digest);
      MirrorsHead(slots[id], items, c.digest);
      MirrorsHead(n, Without(items, key), c.digest);
      forall m ensures Of(l, m) == if m == key.ns then Without(items, key) else Of(lru, m) {
        OfWithout(lru, key, m);
      }
      WithoutNames(lru, key);
      OfEmptyIffUnnamed(lru, key.ns);
      if n.entries == [] {
        EmptyShare(n, Without(items, key), c.digest);
        NameBytesSplit(names.Keys, key.ns);
        assert (names - {key.ns}).Keys == names.Keys - {key.ns};
        TableDrop(c, names, slots, lru, l, id);
      } else {
        TableEdit(c, names, slots, lru, l, id, n);
        HeadOnlyMovesLater(items, key);
      }
    }

    /** Removes namespace `id`'s least recently used entry. */
    method EvictOneFrom(id: nat)
      requires Base() && id in slots && slots[id].entries != []
      modifies `names, `slots, `usedBytes, `entryCount, `marked, `lru
      ensures Base() && OnlyLater(old(slots), slots)
      ensures names.Keys - Names(lru) == old(names.Keys - Names(lru))
      ensures Of(old(lru), old(slots)[id].name) != []
      ensures lru == Without(old(lru), Of(old(lru), old(slots)[id].name)[0].key)
      ensures |old(slots)[id].entries| > 1 ==> id in slots && slots[id].entries != []
    {
      hide Table, Ordered, StampedBy, Lookup, Without, Pop, Peek, Names, OnlyLater, Mirrors, AllIn, Of, NameBytes,
           TombBytes, Cost, MarkCount;
      var n := slots[id];
      var e := n.entries[0];
      ghost var key := Key(n.name, e.name);
      HeadOf(id);
      SlotMirrors(id, key);
      ghost var x := Lookup(lru, key).value;
      n := n.(entries := n.entries[1..], usedBytes := n.usedBytes - EntryBytes(e.name, e.value));
      var used, marks := usedBytes - EntryBytes(e.name, e.value), marked;
      n, used, marks := ReleaseMark(n, e.name, used, marks);
      n, used := ReleaseDigest(n, e.name, used);
      RemovalFacts(id, key);
      RemovalKeepsTable(id, key, n);
      entryCount, usedBytes, marked := entryCount - 1, used, marks;
      slots := slots[id := n];
      lru := Without(lru, key);
      if n.entries == [] {
        DropNamespace(id);
        assert slots == old(slots) - {id};
      }
    }

    /** A slot's first entry is the first item of its namespace. */
    lemma HeadOf(id: nat)
      requires Base() && id in slots && slots[id].entries != []
      ensures var items := Of(lru, slots[id].name);
              && items != [] && items[0].key == Key(slots[id].name, slots[id].entries[0].name)
              && slots[id].entries[0] == ToEntry(items[0])
              && Lookup(lru, items[0].key) == Some(items[0])
              && Pop(slots[id].entries, slots[id].entries[0].name) == slots[id].entries[1..]
    {
      assert Slot(c, names, slots[id], id, lru);
      OfMembers(lru, slots[id].name);
      LookupUnique(lru, Of(lru, slots[id].name)[0]);
    }

    /** The namespace of the list's first item is what a scan for the oldest entry finds, and nothing else is. */
    lemma VictimIsOldest(victim: nat)
      requires Base() && ScanVictim(slots, victim)
      ensures lru != [] && slots[victim].name == lru[0].key.ns
      ensures Of(lru, lru[0].key.ns) != [] && Of(lru, lru[0].key.ns)[0] == lru[0]
    {
      HeadOf(victim);
      HeadIsOldest(lru, slots[victim].name);
      var first := lru[0].key.ns;
      assert first in Names(lru);
      var id := names[first];
      assert Slot(c, names, slots[id], id, lru);
      MirrorsHead(slots[id], Of(lru, first), c.digest);
    }

    /** An entry somewhere means a live namespace that is not empty. */
    lemma SomeSlot() returns (id: nat)
      requires Base() && lru != []
      ensures id in slots && slots[id].entries != []
    {
      var first := lru[0].key.ns;
      assert first in Names(lru);
      id := names[first];
      assert Slot(c, names, slots[id], id, lru);
      MirrorsHead(slots[id], Of(lru, first), c.digest);
      OfMembers(lru, first);
    }

    method PopTail() returns (t: Tail)
      requires Heap(tails, tailOf) && tailOf != map[]
      modifies `tails, `tailOf
      ensures Heap(tails, tailOf) && |tails| == |old(tails)| - 1
      ensures t.id in old(tailOf) && old(tailOf)[t.id] == t.stamp && tailOf == old(tailOf) - {t.id}
      ensures forall id :: id in old(tailOf) ==> t.stamp <= old(tailOf)[id]
    {
      ghost var some :| some in tailOf;
      assert Tail(tailOf[some], some) in tails;
      ghost var least := HasLeast(tails);
      t :| t in tails && forall u :: u in tails ==> NoLater(t, u);
      forall id | id in tailOf ensures t.stamp <= tailOf[id] {
        assert Tail(tailOf[id], id) in tails;
        assert NoLater(t, Tail(tailOf[id], id));
      }
      tails := tails - multiset{t};
      tailOf := tailOf - {t.id};
    }

    method PushTail(t: Tail)
      requires Heap(tails, tailOf) && t.id !in tailOf
      modifies `tails, `tailOf
      ensures Heap(tails, tailOf) && |tails| == |old(tails)| + 1
      ensures tailOf == old(tailOf)[t.id := t.stamp]
    {
      tails := tails + multiset{t};
      tailOf := tailOf[t.id := t.stamp];
    }

    /** Pops heap items until one is current, correcting the stale ones it meets. */
    method PickVictim() returns (t: Tail)
      requires TailsOk() && exists id :: id in slots && slots[id].entries != []
      modifies `tails, `tailOf
      ensures Heap(tails, tailOf) && Below(tailOf, nextSlotId) && |tails| < |old(tails)|
      ensures CoveredBut(slots, tailOf, t.id) && t.id !in tailOf && t.id < nextSlotId
      ensures ScanVictim(slots, t.id) && t.stamp == TailBound(slots[t.id])
    {
      hide Heap;
      ghost var some :| some in slots && slots[some].entries != [];
      var emptyNamespaces := [];
      while true
        invariant Heap(tails, tailOf) && |tails| + |emptyNamespaces| <= |old(tails)|
        invariant forall id :: id in tailOf ==> id < nextSlotId
        invariant forall id :: id in slots ==>
                    if id in emptyNamespaces then slots[id].entries == [] && id !in tailOf
                    else id in tailOf && tailOf[id] <= TailBound(slots[id])
        invariant forall i, j :: 0 <= i < j < |emptyNamespaces| ==> emptyNamespaces[i] != emptyNamespaces[j]
        invariant forall id :: id in emptyNamespaces ==> id in slots && id < nextSlotId
        decreases Stale(slots, tailOf), tailOf.Keys
      {
        ghost var before := tailOf;
        assert some in tailOf;
        t := PopTail();
        if t.id !in slots {
          assert Stale(slots, tailOf) == Stale(slots, before);
          assert t.id in before.Keys && t.id !in tailOf.Keys;
          continue;
        }
        var n := slots[t.id];
        if n.entries != [] && n.entries[0].lastUsed == t.stamp {
          break;
        } else if n.entries != [] {
          assert t.id in Stale(slots, before);
          PushTail(Tail(n.entries[0].lastUsed, t.id));
          assert t.id !in Stale(slots, tailOf);
        } else {
          assert Stale(slots, tailOf) == Stale(slots, before);
          assert t.id in before.Keys && t.id !in tailOf.Keys;
          emptyNamespaces := emptyNamespaces + [t.id];
        }
      }
      PushBack(emptyNamespaces, t.id);
    }

    /** Gives each empty namespace met on the way its item back. */
    method PushBack(emptyNamespaces: seq<nat>, out: nat)
      requires Heap(tails, tailOf) && out !in tailOf && out !in emptyNamespaces
      requires forall id :: id in tailOf ==> id < nextSlotId
      requires forall id :: id in emptyNamespaces ==> id < nextSlotId && id !in tailOf
      requires forall i, j :: 0 <= i < j < |emptyNamespaces| ==> emptyNamespaces[i] != emptyNamespaces[j]
      requires forall id :: id in slots && id != out && id !in emptyNamespaces ==>
                 id in tailOf && tailOf[id] <= TailBound(slots[id])
      modifies `tails, `tailOf
      ensures Heap(tails, tailOf) && Below(tailOf, nextSlotId) && |tails| == |old(tails)| + |emptyNamespaces|
      ensures CoveredBut(slots, tailOf, out) && out !in tailOf
    {
      hide Heap;
      var i := 0;
      while i < |emptyNamespaces|
        invariant 0 <= i <= |emptyNamespaces|
        invariant Heap(tails, tailOf) && |tails| == |old(tails)| + i
        invariant forall id :: id in tailOf ==> id < nextSlotId
        invariant out !in tailOf
        invariant forall j :: i <= j < |emptyNamespaces| ==> emptyNamespaces[j] !in tailOf
        invariant forall j :: 0 <= j < i ==> emptyNamespaces[j] in tailOf && tailOf[emptyNamespaces[j]] == 0
        invariant forall id :: id in slots && id != out && id !in emptyNamespaces ==>
                    id in tailOf && tailOf[id] <= TailBound(slots[id])
      {
        PushTail(Tail(0, emptyNamespaces[i]));
        i := i + 1;
      }
    }

    /** Removes the least recently used entry of all: the one at the front of the single list. */
    method EvictOne() returns (ghost victim: nat)
      requires Base() && TailsOk() && lru != []
      modifies `names, `slots, `usedBytes, `entryCount, `marked, `lru, `tails, `tailOf
      ensures Base() && TailsOk() && OnlyLater(old(slots), slots)
      ensures names.Keys - Names(lru) == old(names.Keys - Names(lru))
      ensures ScanVictim(old(slots), victim)
      ensures lru == old(lru)[1..]
      ensures |tails| <= |old(tails)| && |slots| <= old(|slots|)
    {
      hide Table, Ordered, StampedBy, Lookup, Names, Mirrors, Of, NameBytes, TombBytes, Cost, MarkCount, Heap,
           Covered, CoveredBut, Below, OnlyLater;
      ghost var some := SomeSlot();
      var t := PickVictim();
      victim := t.id;
      VictimIsOldest(victim);
      EvictOneFrom(t.id);
      StillCovered(old(slots), slots, tailOf, t, nextSlotId);
      if t.id in slots {
        PushTail(t);
      }
    }

    /** After an eviction, pushing the victim's old stamp back (if it is still live) covers every namespace. */
    static lemma StillCovered(a: map<nat, Namespace>, b: map<nat, Namespace>, tailOf: map<nat, nat>, t: Tail, next: nat)
      requires OnlyLater(a, b) && CoveredBut(a, tailOf, t.id) && Below(tailOf, next)
      requires t.id in a && t.stamp == TailBound(a[t.id]) && t.id < next
      ensures |b| <= |a|
      ensures if t.id in b then Covered(b, tailOf[t.id := t.stamp]) && Below(tailOf[t.id := t.stamp], next)
              else Covered(b, tailOf)
    {
      assert b.Keys <= a.Keys;
      SubsetSize(b.Keys, a.Keys);
    }

    /** What storing `put` as the newest entry does to the list's order and its sums. */
    lemma InsertionFacts(put: Item)
      requires Base() && put.lastUsed == clock + 1 && !put.marked && !put.digested
      ensures var l := Without(lru, put.key) + [put];
              && Ordered(l) && StampedBy(l, clock + 1) && Names(l) == Names(lru) + {put.key.ns}
      ensures match Lookup(lru, put.key)
              case None =>
                && |Without(lru, put.key) + [put]| == |lru| + 1
                && Cost(Without(lru, put.key) + [put]) == Cost(lru) + ItemCost(put)
                && MarkCount(Without(lru, put.key) + [put]) == MarkCount(lru)
              case Some(x) =>
                && |Without(lru, put.key) + [put]| == |lru|
                && Cost(Without(lru, put.key) + [put]) == Cost(lru) + ItemCost(put) - ItemCost(x)
                && MarkCount(Without(lru, put.key) + [put]) == MarkCount(lru) - MarkBit(x)
    {
      var key := put.key;
      var rest := Without(lru, key);
      WithoutMembers(lru, key);
      WithoutNames(lru, key);
      LookupMember(lru, key);
      LookupMember(rest, key);
      CostAppend(rest, put);
      if Lookup(lru, key).Some? {
        CostWithout(lru, key);
        assert key.ns in Names(lru);
      } else {
        WithoutAbsent(lru, key);
      }
      AppendOrdered(rest, put);
    }

    /** Rewriting an entry, or adding it, as the newest mirrors the same in the list. */
    lemma InsertionKeepsTable(id: nat, put: Item, n: Namespace)
      requires Base() && id in slots && put.key.ns == slots[id].name
      requires put.lastUsed == clock + 1 && !put.marked && !put.digested
      requires match Lookup(lru, put.key)
               case None =>
                 n == slots[id].(entries := slots[id].entries + [ToEntry(put)],
                                 usedBytes := slots[id].usedBytes + ItemCost(put),
                                 migrated := slots[id].migrated - {put.key.name},
                                 digests := slots[id].digests - {put.key.name})
               case Some(x) =>
                 && slots[id].usedBytes >= ItemCost(x) && x.key == put.key
                 && n == Stripped(slots[id], x).(entries := Pop(slots[id].entries, put.key.name) + [ToEntry(put)],
                                                 usedBytes := slots[id].usedBytes - ItemCost(x) + ItemCost(put))
      ensures Table(c, names, slots[id := n], Without(lru, put.key) + [put])
      ensures OnlyLater(slots, slots[id := n])
    {
      hide Table, Slot, Mirrors, Ordered, Lookup, Without, Pop, Names, AllIn, Of, StampedBy;
      var key := put.key;
      SlotMirrors(id, key);
      InsertionFacts(put);
      var items, rest := Of(lru, key.ns), Without(Of(lru, key.ns), key);
      MirrorsHead(slots[id], items, c.digest);
      if Lookup(lru, key).Some? {
        var x := Lookup(lru, key).value;
        var stripped := Stripped(slots[id], x);
        MirrorsWithout(slots[id], items, key, stripped, c.digest);
        MirrorsAppend(stripped, rest, put, n, c.digest);
        if rest != [] { HeadOnlyMovesLater(items, key); }
      } else {
        WithoutAbsent(items, key);
        assert n.migrated == slots[id].migrated && n.digests == slots[id].digests;
        MirrorsAppend(slots[id], items, put, n, c.digest);
      }
      MirrorsHead(n, rest + [put], c.digest);
      OldestBefore(id, put);
      forall m ensures Of(Without(lru, key) + [put], m) == if m == key.ns then rest + [put] else Of(lru, m) {
        OfWithout(lru, key, m);
        OfConcat(Without(lru, key), [put], m);
        OfOne(put, m);
      }
      TableEdit(c, names, slots, lru, Without(lru, key) + [put], id, n);
    }

    lemma OldestBefore(id: nat, put: Item)
      requires Base() && id in slots && put.lastUsed == clock + 1
      ensures TailBound(slots[id]) <= put.lastUsed
    {
      if slots[id].entries != [] {
        HeadOf(id);
        OfMembers(lru, slots[id].name);
      }
    }

    static lemma OfOne(x: Item, m: Bytes)
      ensures Of([x], m) == if x.key.ns == m then [x] else []
    {
      assert Of([x][1..], m) == [];
    }

    /** Stores the entry as its namespace's newest, dropping any mark and kept digest of the old value. */
    method WriteEntry(id: nat, name: Bytes, value: Bytes, expiresAt: Option<nat>)
      requires Base() && TailsOk() && id in slots
      modifies `names, `slots, `usedBytes, `entryCount, `marked, `clock, `lru
      ensures Base() && TailsOk() && clock == old(clock) + 1 && names == old(names) && |slots| <= old(|slots|)
      ensures id in slots && slots[id].name == old(slots)[id].name
      ensures var key := Key(slots[id].name, name);
              lru == Without(old(lru), key) + [Item(key, value, expiresAt, clock, false, false)]
      ensures Names(lru) == Names(old(lru)) + {slots[id].name}
    {
      hide Table, Ordered, StampedBy, Lookup, Without, Pop, Peek, Names, OnlyLater, Mirrors, AllIn, Of, NameBytes,
           TombBytes, Cost, MarkCount, Covered, Heap, Below;
      ghost var key := Key(slots[id].name, name);
      ghost var put := Item(key, value, expiresAt, clock + 1, false, false);
      assert ItemCost(put) == EntryBytes(name, value);
      SlotMirrors(id, key);
      var n, used, marks, count :=
        Rewrite(slots[id], Entry(name, value, expiresAt, clock + 1), usedBytes, marked, entryCount, Lookup(lru, key));
      InsertionFacts(put);
      InsertionKeepsTable(id, put, n);
      StaysCovered(slots, slots[id := n], tailOf);
      clock := clock + 1;
      Commit(names, slots[id := n], count, used, marks, Without(lru, key) + [put]);
    }

    /** The namespace with `e` as its newest entry, and the totals that go with it. */
    static method Rewrite(n: Namespace, e: Entry, used: nat, marks: nat, count: nat, ghost x: Option<Item>)
      returns (n': Namespace, used': nat, marks': nat, count': nat)
      requires Peek(n.entries, e.name) == match x case None => None case Some(x) => Some(ToEntry(x))
      requires e.name in n.migrated <==> x.Some? && x.value.marked
      requires e.name in n.digests <==> x.Some? && x.value.digested
      requires x.Some? ==> x.value.key.name == e.name && ItemCost(x.value) <= n.usedBytes && ItemCost(x.value) <= used
                           && MarkBit(x.value) <= marks
      ensures x.None? ==>
                && n' == n.(entries := n.entries + [e], usedBytes := n.usedBytes + EntryBytes(e.name, e.value),
                            migrated := n.migrated - {e.name}, digests := n.digests - {e.name})
                && used' == used + EntryBytes(e.name, e.value) && marks' == marks && count' == count + 1
      ensures x.Some? ==>
                && n' == Stripped(n, x.value).(entries := Pop(n.entries, e.name) + [e],
                                               usedBytes :=
                                                 n.usedBytes - ItemCost(x.value) + EntryBytes(e.name, e.value))
                && used' == used - ItemCost(x.value) + EntryBytes(e.name, e.value)
                && marks' == marks - MarkBit(x.value) && count' == count
    {
      hide Pop, Peek;
      n', used', marks' := ReleaseMark(n, e.name, used, marks);
      n', used' := ReleaseDigest(n', e.name, used');
      count' := count;
      var existing := Peek(n.entries, e.name);
      if existing.Some? {
        var delta := |e.value| - |existing.value.value|;
        n' := n'.(entries := Pop(n.entries, e.name) + [e], usedBytes := n'.usedBytes + delta);
        used' := used' + delta;
      } else {
        n' := n'.(entries := n.entries + [e], usedBytes := n'.usedBytes + EntryBytes(e.name, e.value));
        used' := used' + EntryBytes(e.name, e.value);
        count' := count + 1;
      }
    }

    static lemma StaysCovered(a: map<nat, Namespace>, b: map<nat, Namespace>, tailOf: map<nat, nat>)
      requires OnlyLater(a, b) && Covered(a, tailOf)
      ensures Covered(b, tailOf) && |b| <= |a|
    {
      assert b.Keys <= a.Keys;
      SubsetSize(b.Keys, a.Keys);
    }

    /** Evicts namespace `id`'s oldest entries until it fits its budget, if it has one. */
    method EnforceNamespaceBudget(id: nat)
      requires Base() && TailsOk() && id in slots && slots[id].entries != []
      modifies `names, `slots, `usedBytes, `entryCount, `marked, `lru
      ensures |slots| <= old(|slots|)
      ensures Base() && TailsOk()
      ensures id in slots && slots[id].name == old(slots)[id].name
      ensures names.Keys - Names(lru) == old(names.Keys - Names(lru))
      ensures lru == EvictOwn(old(lru), slots[id].name, BudgetOf(c, slots[id].name))
    {
      hide Table, Ordered, StampedBy, Names, OnlyLater, Mirrors, Of, NameBytes, TombBytes, Cost, MarkCount, Covered,
           Heap, Below, FitsBudget;
      ghost var ns := slots[id].name;
      while true
        invariant Base() && TailsOk()
        invariant id in slots && slots[id].name == ns && slots[id].entries != []
        invariant names.Keys - Names(lru) == old(names.Keys - Names(lru))
        invariant EvictOwn(lru, ns, BudgetOf(c, ns)) == EvictOwn(old(lru), ns, BudgetOf(c, ns))
        invariant |slots| <= old(|slots|)
        decreases |lru|
      {
        BudgetFacts(id);
        var n := slots[id];
        if n.budget.None? {
          return;
        }
        if n.usedBytes <= n.budget.value || |n.entries| <= 1 {
          return;
        }
        ghost var before, count := slots, entryCount;
        DropsOne(lru, ns);
        EvictOneFrom(id);
        SameNames(before, slots);
        StaysCovered(before, slots, tailOf);
      }
    }

    /** The budget check reads off the slot what the list says. */
    lemma BudgetFacts(id: nat)
      requires Base() && id in slots
      ensures slots[id].budget == BudgetOf(c, slots[id].name)
      ensures FitsBudget(lru, slots[id].name, BudgetOf(c, slots[id].name)) <==>
              slots[id].budget.None? || slots[id].usedBytes <= slots[id].budget.value || |slots[id].entries| <= 1
      ensures |slots[id].entries| == |Of(lru, slots[id].name)|
    {
      assert Slot(c, names, slots[id], id, lru);
      MirrorsHead(slots[id], Of(lru, slots[id].name), c.digest);
    }

    static lemma SameNames(a: map<nat, Namespace>, b: map<nat, Namespace>)
      requires OnlyLater(a, b)
      ensures forall id :: id in b ==> id in a && b[id].name == a[id].name
    {
    }

    /** A slot id stays the id of its namespace for as long as something is stored in it. */
    static lemma SameId(c: Config, names: map<Bytes, nat>, slots: map<nat, Namespace>, l: seq<Item>,
                        names': map<Bytes, nat>, slots': map<nat, Namespace>, l': seq<Item>, id: nat)
      requires Table(c, names, slots, l) && Table(c, names', slots', l') && OnlyLater(slots, slots')
      requires id in slots && l' != [] && l'[|l'| - 1].key.ns == slots[id].name
      ensures id in slots' && slots'[id].name == slots[id].name
    {
      var ns := slots[id].name;
      assert l'[|l'| - 1] in l';
      assert ns in Names(l');
      var id' := names'[ns];
      assert Slot(c, names, slots[id'], id', l) && Slot(c, names, slots[id], id, l);
    }

    lemma AllNamed()
      requires Base() && names.Keys - Names(lru) == {}
      ensures names.Keys == Names(lru)
    {
      forall n | n in names.Keys ensures n in Names(lru) {
        assert n !in names.Keys - Names(lru);
      }
    }

    /** A write into a resolved namespace: store, then fit the namespace's budget, then the memory bound. */
    method InsertInto(id: nat, name: Bytes, value: Bytes, expiresAt: Option<nat>)
      requires Base() && TailsOk() && id in slots && names.Keys == Names(lru) + {slots[id].name}
      modifies `names, `slots, `usedBytes, `entryCount, `marked, `clock, `lru, `tails, `tailOf
      ensures |slots| <= old(|slots|)
      ensures Valid()
      ensures id in slots && slots[id].name == old(slots)[id].name
      ensures Abs() == Put(c, old(Abs()), Key(slots[id].name, name), value, expiresAt)
    {
      hide Table, Ordered, StampedBy, Names, NameBytes, TombBytes, Cost, MarkCount, Covered, Heap, Below, Without,
           EvictOwn, EvictOldest, BudgetOf;
      ghost var ns := slots[id].name;
      WriteEntry(id, name, value, expiresAt);
      ghost var written := lru;
      assert names.Keys - Names(lru) == {};
      NotEmptyNow(id);
      EnforceNamespaceBudget(id);
      AllNamed();
      EvictOwnKeepsNewest(written, ns, BudgetOf(c, ns));
      EnforceMemoryBound(id);
    }

    /** Evicts the globally oldest entries until the cache fits its memory bound, down to one entry. */
    method EnforceMemoryBound(id: nat)
      requires Valid() && id in slots && lru != [] && lru[|lru| - 1].key.ns == slots[id].name
      modifies `names, `slots, `usedBytes, `entryCount, `marked, `lru, `tails, `tailOf
      ensures |slots| <= old(|slots|)
      ensures Valid()
      ensures id in slots && slots[id].name == old(slots)[id].name
      ensures lru == EvictOldest(old(lru), TombBytes(tombstones), c.maxMemory)
    {
      hide Table, Ordered, StampedBy, Names, OnlyLater, NameBytes, TombBytes, Cost, MarkCount, Covered, Heap, Below,
           ScanVictim;
      ghost var ns := slots[id].name;
      while usedBytes > c.maxMemory && entryCount > 1
        invariant Valid()
        invariant lru != [] && lru[|lru| - 1].key.ns == ns
        invariant id in slots && slots[id].name == ns && |slots| <= old(|slots|)
        invariant EvictOldest(lru, TombBytes(tombstones), c.maxMemory) ==
                  EvictOldest(old(lru), TombBytes(tombstones), c.maxMemory)
        decreases |lru|
      {
        ghost var names0, slots0, lru0 := names, slots, lru;
        assert ListBytes(lru) + TombBytes(tombstones) == usedBytes;
        ghost var victim := EvictOne();
        AllNamed();
        SameId(c, names0, slots0, lru0, names, slots, lru, id);
      }
      assert ListBytes(lru) + TombBytes(tombstones) == usedBytes;
    }

    lemma NotEmptyNow(id: nat)
      requires Base() && id in slots && lru != [] && lru[|lru| - 1].key.ns == slots[id].name
      ensures slots[id].entries != []
    {
      assert Slot(c, names, slots[id], id, lru);
      OfMembers(lru, slots[id].name);
      assert lru[|lru| - 1] in lru;
      MirrorsHead(slots[id], Of(lru, slots[id].name), c.digest);
    }

    /** Writes back what an operation worked out, together with the list it now stands for. */
    method Commit(names: map<Bytes, nat>, slots: map<nat, Namespace>, entryCount: nat, usedBytes: nat, marked: nat,
                  ghost lru: seq<Item>)
      modifies `names, `slots, `entryCount, `usedBytes, `marked, `lru
      ensures this.names == names && this.slots == slots && this.lru == lru
      ensures this.entryCount == entryCount && this.usedBytes == usedBytes && this.marked == marked
    {
      this.names, this.slots := names, slots;
      this.entryCount, this.usedBytes, this.marked := entryCount, usedBytes, marked;
      this.lru := lru;
    }

    method Tick()
      requires Base()
      modifies `clock
      ensures Base() && clock == old(clock) + 1 && StampedBy(lru, old(clock))
    {
      clock := clock + 1;
    }

    /** What moving the item of `y.key` to the newest place does to the list's order and its sums. */
    lemma PromotionFacts(y: Item)
      requires Base() && clock > 0 && StampedBy(lru, clock - 1) && y.lastUsed == clock
      requires Lookup(lru, y.key).Some?
      requires y == Lookup(lru, y.key).value.(lastUsed := y.lastUsed, expiresAt := y.expiresAt)
      ensures var l := Without(lru, y.key) + [y];
              && Ordered(l) && StampedBy(l, clock) && Names(l) == Names(lru) && |l| == |lru|
              && Cost(l) == Cost(lru) && MarkCount(l) == MarkCount(lru)
    {
      hide Table, Ordered, Without, Lookup, NameBytes, TombBytes;
      var rest := Without(lru, y.key);
      WithoutMembers(lru, y.key);
      WithoutNames(lru, y.key);
      LookupMember(lru, y.key);
      LookupMember(rest, y.key);
      CostWithout(lru, y.key);
      CostAppend(rest, y);
      assert y.key.ns in Names(lru);
      AppendOrdered(rest, y);
    }

    /** Promoting an entry in its namespace mirrors promoting its item in the list. */
    lemma PromotionKeepsTable(id: nat, y: Item, n: Namespace)
      requires Base() && clock > 0 && StampedBy(lru, clock - 1) && y.lastUsed == clock
      requires id in slots && y.key.ns == slots[id].name && Lookup(lru, y.key).Some?
      requires y == Lookup(lru, y.key).value.(lastUsed := y.lastUsed, expiresAt := y.expiresAt)
      requires n == slots[id].(entries := Pop(slots[id].entries, y.key.name) + [ToEntry(y)])
      ensures Table(c, names, slots[id := n], Without(lru, y.key) + [y])
      ensures OnlyLater(slots, slots[id := n])
    {
      hide Table, Slot, Mirrors, Ordered, Lookup, Without, Pop, Names, AllIn, Of, StampedBy;
      var key := y.key;
      SlotMirrors(id, key);
      PromotionFacts(y);
      var items, rest := Of(lru, key.ns), Without(Of(lru, key.ns), key);
      MirrorsHead(slots[id], items, c.digest);
      MirrorsPromote(slots[id], items, y, n, c.digest);
      if rest != [] { HeadOnlyMovesLater(items, key); }
      MirrorsHead(n, rest + [y], c.digest);
      OldestNow(id);
      forall m ensures Of(Without(lru, key) + [y], m) == if m == key.ns then rest + [y] else Of(lru, m) {
        OfWithout(lru, key, m);
        OfConcat(Without(lru, key), [y], m);
        OfOne(y, m);
      }
      TableEdit(c, names, slots, lru, Without(lru, key) + [y], id, n);
    }

    lemma OldestNow(id: nat)
      requires Base() && id in slots
      ensures TailBound(slots[id]) <= clock
    {
      if slots[id].entries != [] {
        HeadOf(id);
        OfMembers(lru, slots[id].name);
      }
    }

    /** What changing an item in place does to the list's order and its sums. */
    lemma EditFacts(y: Item)
      requires Base() && Lookup(lru, y.key).Some?
      requires y == Lookup(lru, y.key).value.(expiresAt := y.expiresAt, marked := y.marked, digested := y.digested)
      ensures var l := Replace(lru, y);
              && Ordered(l) && StampedBy(l, clock) && Names(l) == Names(lru) && |l| == |lru|
              && Cost(l) + ItemCost(Lookup(lru, y.key).value) == Cost(lru) + ItemCost(y)
              && MarkCount(l) + MarkBit(Lookup(lru, y.key).value) == MarkCount(lru) + MarkBit(y)
    {
      hide Table, Ordered, Lookup, Names, Replace;
      ReplaceMembers(lru, y);
      ReplaceNames(lru, y);
      CostReplace(lru, y);
      LookupMember(lru, y.key);
    }

    /** Changing an entry in place (expiry, mark, kept digest) mirrors changing its item in place. */
    lemma EditKeepsTable(id: nat, y: Item, n: Namespace)
      requires Base() && id in slots && y.key.ns == slots[id].name && Lookup(lru, y.key).Some?
      requires y == Lookup(lru, y.key).value.(expiresAt := y.expiresAt, marked := y.marked, digested := y.digested)
      requires n == slots[id].(entries := Assign(slots[id].entries, ToEntry(y)), usedBytes := n.usedBytes,
                               migrated := n.migrated, digests := n.digests)
      requires n.usedBytes + ItemCost(Lookup(lru, y.key).value) == slots[id].usedBytes + ItemCost(y)
      requires n.migrated == if y.marked then slots[id].migrated + {y.key.name} else slots[id].migrated - {y.key.name}
      requires if y.digested then n.digests == slots[id].digests[y.key.name := c.digest(y.value)]
               else n.digests == slots[id].digests - {y.key.name}
      ensures Table(c, names, slots[id := n], Replace(lru, y))
      ensures OnlyLater(slots, slots[id := n])
    {
      hide Table, Slot, Mirrors, Ordered, Lookup, Pop, Names, AllIn, Of, Replace, StampedBy;
      SlotMirrors(id, y.key);
      EditFacts(y);
      var items := Of(lru, y.key.ns);
      ReplaceMembers(items, y);
      MirrorsHead(slots[id], items, c.digest);
      MirrorsReplace(slots[id], items, y, n, c.digest);
      MirrorsHead(n, Replace(items, y), c.digest);
      forall m ensures Of(Replace(lru, y), m) == if m == y.key.ns then Replace(items, y) else Of(lru, m) {
        OfReplace(lru, y, m);
      }
      TableEdit(c, names, slots, lru, Replace(lru, y), id, n);
    }

    /** `id` is what looking `ns` up gave, however long ago: a slot id is never reused, so it can only miss. */
    ghost predicate Resolved(id: Option<nat>, ns: Bytes)
      reads this
    {
      match id
      case None => ns !in names
      case Some(i) => if i in slots then slots[i].name == ns else ns !in names
    }

    lemma FindResolves(ns: Bytes)
      requires Base()
      ensures Resolved(FindNamespace(ns), ns)
    {
    }

    lemma NothingUnder(ns: Bytes, name: Bytes)
      requires Base() && ns !in names
      ensures Lookup(lru, Key(ns, name)).None? && Without(lru, Key(ns, name)) == lru
    {
      LookupMember(lru, Key(ns, name));
      WithoutAbsent(lru, Key(ns, name));
    }

    static lemma ResolvedLater(c: Config, names: map<Bytes, nat>, slots: map<nat, Namespace>, l: seq<Item>,
                               names': map<Bytes, nat>, slots': map<nat, Namespace>, l': seq<Item>, i: nat)
      requires Table(c, names, slots, l) && Table(c, names', slots', l') && OnlyLater(slots, slots')
      requires i in slots
      ensures if i in slots' then slots'[i].name == slots[i].name else slots[i].name !in names'
    {
      var ns := slots[i].name;
      if ns in names' {
        var id := names'[ns];
        assert Slot(c, names, slots[id], id, l) && Slot(c, names, slots[i], i, l);
      }
    }

    /** `RemoveEntryIn` between operations, where every live namespace holds something. */
    method Remove(id: nat, ghost ns: Bytes, name: Bytes) returns (removed: Option<Entry>)
      requires Valid() && Resolved(Some(id), ns)
      modifies `names, `slots, `usedBytes, `entryCount, `marked, `lru
      ensures |slots| <= old(|slots|)
      ensures Valid() && Resolved(Some(id), ns)
      ensures lru == Without(old(lru), Key(ns, name))
      ensures removed == match Lookup(old(lru), Key(ns, name)) case None => None case Some(x) => Some(ToEntry(x))
    {
      hide Table, Ordered, StampedBy, Names, NameBytes, TombBytes, Cost, MarkCount, Covered, Heap, Below, Without,
           Lookup, OnlyLater;
      if id !in slots {
        NothingUnder(ns, name);
        return None;
      }
      ghost var names0, slots0, lru0 := names, slots, lru;
      assert names.Keys - Names(lru) == {};
      removed := RemoveEntryIn(id, name);
      AllNamed();
      StaysCovered(slots0, slots, tailOf);
      ResolvedLater(c, names0, slots0, lru0, names, slots, lru, id);
    }

    method RemoveEntry(key: Key) returns (removed: Option<Entry>)
      requires Valid()
      modifies `names, `slots, `usedBytes, `entryCount, `marked, `lru
      ensures |slots| <= old(|slots|)
      ensures Valid() && lru == Without(old(lru), key)
      ensures removed == match Lookup(old(lru), key) case None => None case Some(x) => Some(ToEntry(x))
    {
      hide Table, Ordered, StampedBy, Names, NameBytes, TombBytes, Cost, MarkCount, Covered, Heap, Below, Without,
           Lookup;
      var id := FindNamespace(key.ns);
      FindResolves(key.ns);
      if id.None? {
        NothingUnder(key.ns, key.name);
        return None;
      }
      removed := Remove(id.value, key.ns, key.name);
    }

    function PeekKey(key: Key): Option<Entry>
      reads this
    {
      if key.ns in names && names[key.ns] in slots then Peek(slots[names[key.ns]].entries, key.name) else None
    }

    predicate IsMarked(key: Key)
      reads this
    {
      key.ns in names && names[key.ns] in slots && key.name in slots[names[key.ns]].migrated
    }

    lemma PeekIsLookup(key: Key)
      requires Base()
      ensures PeekKey(key) == match Lookup(lru, key) case None => None case Some(x) => Some(ToEntry(x))
      ensures IsMarked(key) <==> Marked(lru, key)
    {
      if key.ns in names {
        SlotMirrors(names[key.ns], key);
      } else {
        NothingUnder(key.ns, key.name);
      }
    }

    /** A read: a live entry becomes the newest of all, an expired one goes. */
    method GetIn(id: Option<nat>, ghost ns: Bytes, name: Bytes, now: nat) returns (value: Option<Bytes>)
      requires Valid() && Resolved(id, ns)
      modifies `names, `slots, `usedBytes, `entryCount, `marked, `clock, `lru
      ensures Valid() && Resolved(id, ns)
      ensures (Abs(), value) == Get(old(Abs()), Key(ns, name), now)
    {
      hide Table, Ordered, StampedBy, Names, NameBytes, TombBytes, Cost, MarkCount, Covered, Heap, Below, Without,
           Lookup, OnlyLater, Peek, Pop, Mirrors, AllIn, Of;
      Tick();
      ghost var key := Key(ns, name);
      if id.None? || id.value !in slots {
        NothingUnder(ns, name);
        return None;
      }
      SlotMirrors(id.value, key);
      var n := slots[id.value];
      var e := Peek(n.entries, name);
      if e.None? {
        return None;
      }
      if Expired(e.value.expiresAt, now) {
        var _ := Remove(id.value, ns, name);
        return None;
      }
      Promote(id.value, ns, e.value.(lastUsed := clock));
      return Some(e.value.value);
    }

    /** Makes an entry just read the newest, with its new stamp and expiry. */
    method Promote(id: nat, ghost ns: Bytes, e: Entry)
      requires Valid() && id in slots && slots[id].name == ns
      requires clock > 0 && StampedBy(lru, clock - 1) && e.lastUsed == clock
      requires Lookup(lru, Key(ns, e.name)).Some? && e.value == Lookup(lru, Key(ns, e.name)).value.value
      modifies `slots, `lru
      ensures Valid() && id in slots && slots[id].name == ns
      ensures var x := Lookup(old(lru), Key(ns, e.name)).value;
              lru == Without(old(lru), Key(ns, e.name)) + [x.(lastUsed := e.lastUsed, expiresAt := e.expiresAt)]
    {
      hide Table, Ordered, StampedBy, Names, NameBytes, TombBytes, Cost, MarkCount, Covered, Heap, Below, Without,
           Lookup, OnlyLater, Pop, Mirrors, AllIn, Of;
      ghost var key := Key(ns, e.name);
      SlotMirrors(id, key);
      ghost var y := Lookup(lru, key).value.(lastUsed := e.lastUsed, expiresAt := e.expiresAt);
      assert ToEntry(y) == e;
      var n := slots[id].(entries := Pop(slots[id].entries, e.name) + [e]);
      PromotionFacts(y);
      PromotionKeepsTable(id, y, n);
      StaysCovered(slots, slots[id := n], tailOf);
      slots := slots[id := n];
      lru := Without(lru, key) + [y];
    }

    method GetAt(key: Key, now: nat) returns (value: Option<Bytes>)
      requires Valid()
      modifies `names, `slots, `usedBytes, `entryCount, `marked, `clock, `lru
      ensures Valid()
      ensures (Abs(), value) == Get(old(Abs()), key, now)
    {
      hide Table, Ordered, StampedBy, Names, NameBytes, TombBytes, Cost, MarkCount, Covered, Heap, Below, Get;
      FindResolves(key.ns);
      value := GetIn(FindNamespace(key.ns), key.ns, key.name, now);
    }

    method DeleteAt(key: Key, now: nat) returns (deleted: bool)
      requires Valid()
      modifies `names, `slots, `usedBytes, `entryCount, `marked, `lru
      ensures |slots| <= old(|slots|)
      ensures Valid()
      ensures (Abs(), deleted) == Delete(old(Abs()), key, now)
    {
      hide Table, Ordered, StampedBy, Names, NameBytes, TombBytes, Cost, MarkCount, Covered, Heap, Below, Without,
           Lookup, PeekKey;
      PeekIsLookup(key);
      var e := PeekKey(key);
      if e.Some? && Expired(e.value.expiresAt, now) {
        var _ := RemoveEntry(key);
        return false;
      }
      var removed := RemoveEntry(key);
      return removed.Some?;
    }

    /** An in-place change of flags only: the entry itself is untouched. */
    lemma FlagEdit(id: nat, y: Item, n: Namespace)
      requires Base() && id in slots && y.key.ns == slots[id].name && Lookup(lru, y.key).Some?
      requires y == Lookup(lru, y.key).value.(marked := y.marked, digested := y.digested)
      requires n == slots[id].(usedBytes := n.usedBytes, migrated := n.migrated, digests := n.digests)
      requires n.usedBytes + ItemCost(Lookup(lru, y.key).value) == slots[id].usedBytes + ItemCost(y)
      requires n.migrated == if y.marked then slots[id].migrated + {y.key.name} else slots[id].migrated - {y.key.name}
      requires if y.digested then n.digests == slots[id].digests[y.key.name := c.digest(y.value)]
               else n.digests == slots[id].digests - {y.key.name}
      ensures Table(c, names, slots[id := n], Replace(lru, y))
      ensures OnlyLater(slots, slots[id := n])
    {
      hide Table, Ordered, StampedBy, Names, Lookup, OnlyLater, Mirrors, AllIn, Of, Replace;
      SlotMirrors(id, y.key);
      AssignSame(slots[id].entries, ToEntry(y));
      EditKeepsTable(id, y, n);
    }

    static lemma {:induction false} AssignSame(es: seq<Entry>, e: Entry)
      requires Peek(es, e.name) == Some(e)
      ensures Assign(es, e) == es
    {
      if es[0].name != e.name {
        AssignSame(es[1..], e);
      }
    }

    /** A change of expiry only: byte share, mark and kept digest stay. */
    lemma ExpiryEdit(id: nat, y: Item, n: Namespace)
      requires Base() && id in slots && y.key.ns == slots[id].name && Lookup(lru, y.key).Some?
      requires y == Lookup(lru, y.key).value.(expiresAt := y.expiresAt)
      requires n == slots[id].(entries := Assign(slots[id].entries, ToEntry(y)))
      ensures Table(c, names, slots[id := n], Replace(lru, y))
      ensures OnlyLater(slots, slots[id := n])
    {
      hide Table, Ordered, StampedBy, Names, Lookup, OnlyLater, Mirrors, AllIn, Of, Replace, Assign;
      SlotMirrors(id, y.key);
      var name := y.key.name;
      assert slots[id].migrated == if y.marked then slots[id].migrated + {name} else slots[id].migrated - {name};
      if y.digested {
        assert slots[id].digests == slots[id].digests[name := c.digest(y.value)];
      } else {
        assert slots[id].digests == slots[id].digests - {name};
      }
      EditKeepsTable(id, y, n);
    }

    /** A touch replaces a live entry's expiry; with `promote` it is a read as well. */
    method TouchIn(id: Option<nat>, ghost ns: Bytes, name: Bytes, ttl: Option<nat>, promote: bool, now: nat)
      returns (r: Option<Touched>)
      requires Valid() && Resolved(id, ns)
      modifies `names, `slots, `usedBytes, `entryCount, `marked, `clock, `lru
      ensures Valid() && Resolved(id, ns)
      ensures (Abs(), r) == Touch(c, old(Abs()), Key(ns, name), ttl, promote, now)
    {
      hide Table, Ordered, StampedBy, Names, NameBytes, TombBytes, Cost, MarkCount, Covered, Heap, Below, Without,
           Lookup, OnlyLater, Peek, Pop, Mirrors, AllIn, Of, Replace, Assign;
      ghost var key := Key(ns, name);
      if promote {
        Tick();
      }
      if id.None? || id.value !in slots {
        NothingUnder(ns, name);
        return None;
      }
      SlotMirrors(id.value, key);
      var n := slots[id.value];
      var e := Peek(n.entries, name);
      if e.None? {
        return None;
      }
      if Expired(e.value.expiresAt, now) {
        var _ := Remove(id.value, ns, name);
        return None;
      }
      var expiresAt := Expiry(c, now, ttl);
      if promote {
        Promote(id.value, ns, e.value.(expiresAt := expiresAt, lastUsed := clock));
      } else {
        SetExpiry(id.value, ns, e.value.(expiresAt := expiresAt));
      }
      return Some(Touched(e.value.value, Remaining(expiresAt, now)));
    }

    method SetExpiry(id: nat, ghost ns: Bytes, e: Entry)
      requires Valid() && id in slots && slots[id].name == ns
      requires Lookup(lru, Key(ns, e.name)).Some?
      requires var x := Lookup(lru, Key(ns, e.name)).value; e.value == x.value && e.lastUsed == x.lastUsed
      modifies `slots, `lru
      ensures Valid() && id in slots && slots[id].name == ns
      ensures lru == Replace(old(lru), Lookup(old(lru), Key(ns, e.name)).value.(expiresAt := e.expiresAt))
    {
      hide Table, Ordered, StampedBy, Names, NameBytes, TombBytes, Cost, MarkCount, Covered, Heap, Below, Without,
           Lookup, OnlyLater, Peek, Pop, Mirrors, AllIn, Of, Replace, Assign;
      SlotMirrors(id, Key(ns, e.name));
      ghost var y := Lookup(lru, Key(ns, e.name)).value.(expiresAt := e.expiresAt);
      assert ToEntry(y) == e;
      var n := slots[id].(entries := Assign(slots[id].entries, e));
      EditFacts(y);
      ExpiryEdit(id, y, n);
      StaysCovered(slots, slots[id := n], tailOf);
      slots := slots[id := n];
      lru := Replace(lru, y);
    }

    method TouchAt(key: Key, ttl: Option<nat>, promote: bool, now: nat) returns (r: Option<Touched>)
      requires Valid()
      modifies `names, `slots, `usedBytes, `entryCount, `marked, `clock, `lru
      ensures Valid()
      ensures (Abs(), r) == Touch(c, old(Abs()), key, ttl, promote, now)
    {
      hide Table, Ordered, StampedBy, Names, NameBytes, TombBytes, Cost, MarkCount, Covered, Heap, Below, Touch;
      FindResolves(key.ns);
      r := TouchIn(FindNamespace(key.ns), key.ns, key.name, ttl, promote, now);
    }

    /** Marks a stored key as handed off, charging the copy of its name. */
    method MarkMigrated(key: Key)
      requires Valid()
      modifies `names, `slots, `entryCount, `usedBytes, `marked, `lru
      ensures Valid()
      ensures Abs() == Mark(old(Abs()), key)
    {
      hide Table, Ordered, StampedBy, Names, NameBytes, TombBytes, Cost, MarkCount, Covered, Heap, Below, Lookup,
           OnlyLater, Peek, Mirrors, AllIn, Of, Replace;
      var id := FindNamespace(key.ns);
      FindResolves(key.ns);
      if id.None? || id.value !in slots {
        NothingUnder(key.ns, key.name);
        return;
      }
      SlotMirrors(id.value, key);
      var n := slots[id.value];
      if Peek(n.entries, key.name).Some? {
        if key.name !in n.migrated {
          ghost var x := Lookup(lru, key).value;
          ghost var y := x.(marked := true);
          n := n.(migrated := n.migrated + {key.name}, usedBytes := n.usedBytes + MarkCharge(key.name));
          KeptDigest(id.value, key);
          EditFacts(y);
          FlagEdit(id.value, y, n);
          StaysCovered(slots, slots[id.value := n], tailOf);
          Commit(names, slots[id.value := n], entryCount, usedBytes + MarkCharge(key.name), marked + 1,
            Replace(lru, y));
        } else {
          ReplaceSame(lru, Lookup(lru, key).value);
        }
      }
    }

    /** A slot's digest map already says of `key` what its item says. */
    lemma KeptDigest(id: nat, key: Key)
      requires Base() && id in slots && key.ns == slots[id].name && Lookup(lru, key).Some?
      ensures var x := Lookup(lru, key).value;
              if x.digested then slots[id].digests == slots[id].digests[key.name := c.digest(x.value)]
              else slots[id].digests == slots[id].digests - {key.name}
    {
      hide Base, Mirrors, Of, Peek, AllIn, Ordered, Names, Without, ToEntry, ItemCost, Cost;
      SlotMirrors(id, key);
    }

    /** Takes the mark of `key` away, if it has one, crediting its charge back. */
    method ClearMigratedMark(key: Key)
      requires Valid()
      modifies `names, `slots, `entryCount, `usedBytes, `marked, `lru
      ensures Valid() && lru == Unmark(old(lru), key)
    {
      hide Table, Ordered, StampedBy, Names, NameBytes, TombBytes, Cost, MarkCount, Covered, Heap, Below, Lookup,
           OnlyLater, Peek, Mirrors, AllIn, Of, Replace;
      var id := FindNamespace(key.ns);
      FindResolves(key.ns);
      if id.None? || id.value !in slots {
        NothingUnder(key.ns, key.name);
        return;
      }
      SlotMirrors(id.value, key);
      var n, used, marks := ReleaseMark(slots[id.value], key.name, usedBytes, marked);
      if Lookup(lru, key).Some? {
        ghost var y := Lookup(lru, key).value.(marked := false);
        KeptDigest(id.value, key);
        EditFacts(y);
        FlagEdit(id.value, y, n);
        StaysCovered(slots, slots[id.value := n], tailOf);
      } else {
        assert n.migrated == slots[id.value].migrated;
        assert slots[id.value := n] == slots;
      }
      Commit(names, slots[id.value := n], entryCount, used, marks, Unmark(lru, key));
    }

    method UnmarkMigratedMany(keys: seq<Key>) returns (unmarked: nat)
      requires Valid()
      modifies `names, `slots, `entryCount, `usedBytes, `marked, `lru
      ensures Valid() && lru == UnmarkAll(old(lru), keys)
      ensures unmarked == MarkCount(old(lru)) - MarkCount(lru)
    {
      hide Table, Ordered, StampedBy, Names, NameBytes, TombBytes, Cost, MarkCount, Covered, Heap, Below, Unmark;
      var before := marked;
      var i := 0;
      while i < |keys|
        invariant 0 <= i <= |keys| && Valid() && marked <= before
        invariant UnmarkAll(lru, keys[i..]) == UnmarkAll(old(lru), keys)
      {
        UnmarkFewer(lru, keys[i]);
        ClearMigratedMark(keys[i]);
        i := i + 1;
      }
      unmarked := before - marked;
    }

    static lemma UnmarkFewer(l: seq<Item>, key: Key)
      ensures MarkCount(Unmark(l, key)) <= MarkCount(l)
    {
      LookupMember(l, key);
      if Lookup(l, key).Some? {
        CostReplace(l, Lookup(l, key).value.(marked := false));
      }
    }

    method Insert(key: Key, value: Bytes, expiresAt: Option<nat>)
      requires Valid()
      modifies this
      ensures Valid()
      ensures peak <= Max(old(peak), old(|slots|) + 1)
      ensures Abs() == Put(c, old(Abs()), key, value, expiresAt)
    {
      hide Table, Ordered, StampedBy, Names, NameBytes, TombBytes, Cost, MarkCount, Covered, Heap, Below, Put;
      var id := EnsureNamespace(key.ns);
      InsertInto(id, key.name, value, expiresAt);
    }

    // ---- digests and conditions ----

    /** The digest of the value stored under `key`; a large value's is kept, charged and reused. */
    method DigestOf(key: Key) returns (digest: Option<Bytes>)
      requires Valid()
      modifies `slots, `usedBytes, `lru
      ensures Valid() && |slots| <= old(|slots|)
      ensures match Lookup(old(lru), key)
              case None => digest.None? && lru == old(lru)
              case Some(x) =>
                && digest == Some(c.digest(x.value))
                && lru == if |x.value| < DIGEST_CACHE_MIN_VALUE_BYTES then old(lru)
                          else Replace(old(lru), x.(digested := true))
    {
      hide Table, Ordered, StampedBy, Names, NameBytes, TombBytes, Cost, MarkCount, Covered, Heap, Below, Lookup,
           OnlyLater, Peek, Mirrors, AllIn, Of, Replace;
      var id := FindNamespace(key.ns);
      FindResolves(key.ns);
      if id.None? || id.value !in slots {
        NothingUnder(key.ns, key.name);
        return None;
      }
      SlotMirrors(id.value, key);
      var n := slots[id.value];
      var e := Peek(n.entries, key.name);
      if e.None? {
        return None;
      }
      if |e.value.value| < DIGEST_CACHE_MIN_VALUE_BYTES {
        return Some(c.digest(e.value.value));
      }
      if key.name in n.digests {
        ReplaceSame(lru, Lookup(lru, key).value);
        return Some(n.digests[key.name]);
      }
      digest := Some(c.digest(e.value.value));
      ghost var y := Lookup(lru, key).value.(digested := true);
      n := n.(digests := n.digests[key.name := digest.value], usedBytes := n.usedBytes + DigestCharge(key.name));
      assert n.migrated == if y.marked then n.migrated + {key.name} else n.migrated - {key.name};
      EditFacts(y);
      FlagEdit(id.value, y, n);
      StaysCovered(slots, slots[id.value := n], tailOf);
      usedBytes, slots := usedBytes + DigestCharge(key.name), slots[id.value := n];
      lru := Replace(lru, y);
    }

    /** Expires the key lazily, then decides the condition as if the value were hashed afresh. */
    method ConditionHoldsAt(key: Key, cond: Condition, now: nat) returns (holds: bool)
      requires Valid()
      modifies `names, `slots, `usedBytes, `entryCount, `marked, `lru
      ensures |slots| <= old(|slots|)
      ensures Valid()
      ensures (Abs(), holds) == Holds(c, old(Abs()), key, cond, now)
    {
      hide Table, Ordered, StampedBy, Names, NameBytes, TombBytes, Cost, MarkCount, Covered, Heap, Below, Lookup,
           Without, Replace, PeekKey;
      PeekIsLookup(key);
      var e := PeekKey(key);
      if e.Some? && Expired(e.value.expiresAt, now) {
        var _ := RemoveEntry(key);
      }
      assert Abs() == ExpireLazily(old(Abs()), key, now);
      PeekIsLookup(key);
      match cond
      case Matches(expected) =>
        var digest := DigestOf(key);
        holds := digest.Some? && digest.value == expected;
      case Absent =>
        e := PeekKey(key);
        holds := e.None?;
      case Present =>
        e := PeekKey(key);
        holds := e.Some?;
    }

    method CasSetAt(key: Key, cond: Condition, value: Bytes, ttl: Option<nat>, now: nat) returns (stored: bool)
      requires Valid()
      modifies this
      ensures Valid()
      ensures peak <= Max(old(peak), old(|slots|) + 1)
      ensures (Abs(), stored) == CasSet(c, old(Abs()), key, cond, value, ttl, now)
    {
      hide Table, Ordered, StampedBy, Names, NameBytes, TombBytes, Cost, MarkCount, Covered, Heap, Below, Holds, Put;
      stored := ConditionHoldsAt(key, cond, now);
      if stored {
        Insert(key, value, Expiry(c, now, ttl));
      }
    }

    method CasDeleteAt(key: Key, expected: Bytes, now: nat) returns (deleted: bool)
      requires Valid()
      modifies `names, `slots, `usedBytes, `entryCount, `marked, `lru
      ensures Valid()
      ensures (Abs(), deleted) == CasDelete(c, old(Abs()), key, expected, now)
    {
      hide Table, Ordered, StampedBy, Names, NameBytes, TombBytes, Cost, MarkCount, Covered, Heap, Below, Holds,
           Without;
      deleted := ConditionHoldsAt(key, Matches(expected), now);
      if deleted {
        var _ := RemoveEntry(key);
      }
    }

    /** Adds `delta` to a stored counter, keeping its absolute expiry. */
    method IncrAt(key: Key, delta: int, now: nat) returns (r: IncrResult)
      requires Valid()
      modifies this
      ensures Valid()
      ensures peak <= Max(old(peak), old(|slots|) + 1)
      ensures (Abs(), r) == Incr(c, old(Abs()), key, delta, now)
    {
      hide Table, Ordered, StampedBy, Names, NameBytes, TombBytes, Cost, MarkCount, Covered, Heap, Below, Lookup,
           Without, Put, PeekKey, Decimal.ParseI64, Decimal.PrintInt;
      PeekIsLookup(key);
      var e := PeekKey(key);
      if e.None? {
        return NotFound;
      }
      if Expired(e.value.expiresAt, now) {
        var _ := RemoveEntry(key);
        return NotFound;
      }
      var current := Decimal.ParseI64(e.value.value);
      if current.None? {
        return NotNumeric;
      }
      var sum := current.value + delta;
      if !(Decimal.I64_MIN <= sum <= Decimal.I64_MAX) {
        return NotNumeric;
      }
      Insert(key, Decimal.PrintInt(sum), e.value.expiresAt);
      return Counted(sum, Remaining(e.value.expiresAt, now));
    }

    method SetAt(key: Key, value: Bytes, ttl: Option<nat>, now: nat)
      requires Valid()
      modifies this
      ensures Valid()
      ensures peak <= Max(old(peak), old(|slots|) + 1)
      ensures Abs() == Put(c, old(Abs()), key, value, Expiry(c, now, ttl))
    {
      hide Table, Ordered, StampedBy, Names, NameBytes, TombBytes, Cost, MarkCount, Covered, Heap, Below, Put;
      Insert(key, value, Expiry(c, now, ttl));
    }

    // ---- clearing ----

    /** Drops a whole namespace by one map removal and one subtraction. */
    method ClearNamespace(ns: Bytes) returns (removed: nat)
      requires Valid()
      modifies `names, `slots, `usedBytes, `entryCount, `marked, `lru
      ensures Valid()
      ensures (Abs(), removed) == Clear(old(Abs()), ns)
    {
      hide Table, Ordered, StampedBy, Names, NameBytes, TombBytes, Cost, MarkCount, Covered, Heap, Below, NotOf, Of,
           Mirrors, OnlyLater, MarkedNames;
      if ns !in names {
        NotOfAbsent(lru, ns);
        OfEmptyIffUnnamed(lru, ns);
        return 0;
      }
      var id := names[ns];
      IndexedSlot(ns);
      ClearFacts(id);
      var dropped := slots[id];
      removed := |dropped.entries|;
      Commit(names - {ns}, slots - {id}, entryCount - removed,
             usedBytes - (dropped.usedBytes + NameCharge(dropped.name)), marked - |dropped.migrated|, NotOf(lru, ns));
    }

    /** The dropped slot's own counters are exactly what the whole cache loses. */
    lemma ClearFacts(id: nat)
      requires Valid() && id in slots
      ensures var ns := slots[id].name;
              && ns in names && names[ns] == id
              && |slots[id].entries| == |Of(lru, ns)| && |NotOf(lru, ns)| == |lru| - |Of(lru, ns)|
              && Cost(NotOf(lru, ns)) == Cost(lru) - slots[id].usedBytes
              && MarkCount(NotOf(lru, ns)) == MarkCount(lru) - |slots[id].migrated|
              && NameBytes((names - {ns}).Keys) == NameBytes(names.Keys) - NameCharge(ns)
      ensures var ns := slots[id].name;
              && Ordered(NotOf(lru, ns)) && StampedBy(NotOf(lru, ns), clock)
              && (names - {ns}).Keys == Names(NotOf(lru, ns))
              && Table(c, names - {ns}, slots - {id}, NotOf(lru, ns))
              && Covered(slots - {id}, tailOf) && |slots - {id}| <= |slots|
    {
      var ns := slots[id].name;
      var items, rest := Of(lru, ns), NotOf(lru, ns);
      assert Slot(c, names, slots[id], id, lru);
      MirrorsHead(slots[id], items, c.digest);
      OfOrdered(lru, ns);
      OfMembers(lru, ns);
      MarkedNamesCount(items, ns);
      Split(lru, ns);
      NotOfMembers(lru, ns);
      NotOfNames(lru, ns);
      NotOfOrdered(lru, ns);
      NameBytesSplit(names.Keys, ns);
      assert (names - {ns}).Keys == names.Keys - {ns};
      forall m | m != ns ensures Of(rest, m) == Of(lru, m) {
        OfNotOf(lru, ns, m);
      }
      TableDrop(c, names, slots, lru, rest, id);
      SubsetSize((slots - {id}).Keys, slots.Keys);
    }

    method ClearEverything() returns (removed: nat)
      requires Valid()
      modifies `names, `slots, `tails, `tailOf, `entryCount, `usedBytes, `marked, `lru, `tombstones, `tombstoneOrder
      ensures Valid()
      ensures (Abs(), removed) == ClearAll(old(Abs()))
    {
      hide Table, Ordered, StampedBy, Names, NameBytes, TombBytes, Cost, MarkCount, Covered, Heap, Below;
      removed := entryCount;
      ForgetTombstones();
      DropAll();
    }

    method ForgetTombstones()
      modifies `tombstones, `tombstoneOrder
      ensures tombstones == map[] && tombstoneOrder == []
    {
      tombstones, tombstoneOrder := map[], [];
    }

    method DropAll()
      requires |slots| <= peak && tombstones == map[]
      modifies `names, `slots, `tails, `tailOf, `entryCount, `usedBytes, `marked, `lru
      ensures Valid() && lru == []
    {
      hide Table, Ordered, StampedBy, Names, NameBytes, TombBytes, Cost, MarkCount, Covered, Heap, Below;
      NothingStored(c, clock, nextSlotId, map[]);
      names, slots, tails := map[], map[], multiset{};
      entryCount, usedBytes, marked := 0, 0, 0;
      lru, tailOf := [], map[];
    }

    // ---- handoff tombstones ----

    /** Removes `key`'s tombstone if it still carries `stamped`, crediting its charge back. */
    method ForgetTombstoneIfStamped(key: Key, stamped: nat) returns (forgotten: bool)
      requires Valid()
      modifies `tombstones, `usedBytes
      ensures Valid()
      ensures tombstones == Forget(old(tombstones), Stamp(stamped, key))
      ensures forgotten <==> tombstones != old(tombstones)
    {
      hide Table, Ordered, StampedBy, Names, NameBytes, TombBytes, Cost, MarkCount, Covered, Heap, Below;
      if key !in tombstones || tombstones[key] != stamped {
        return false;
      }
      TombBytesSplit(tombstones, key);
      assert key in tombstones && key !in tombstones - {key};
      tombstones := tombstones - {key};
      usedBytes := usedBytes - TombstoneBytes(key);
      return true;
    }

    static lemma TombBytesSplit(live: map<Key, nat>, key: Key)
      requires key in live
      ensures TombBytes(live) == TombstoneBytes(key) + TombBytes(live - {key})
    {
      SetSumSplit(live.Keys, TombstoneBytes, key);
      assert (live - {key}).Keys == live.Keys - {key};
    }

    /** Drops every tombstone older than its TTL, by the order queue. */
    method PruneTombstones(now: nat)
      requires Valid()
      modifies `tombstones, `tombstoneOrder, `usedBytes
      ensures Valid()
      ensures Tombs(tombstones, tombstoneOrder) == Prune(old(Tombs(tombstones, tombstoneOrder)), now)
    {
      hide Table, Ordered, StampedBy, Names, NameBytes, TombBytes, Cost, MarkCount, Covered, Heap, Below, Forget;
      while tombstoneOrder != []
        invariant Valid()
        invariant Prune(Tombs(tombstones, tombstoneOrder), now) == Prune(old(Tombs(tombstones, tombstoneOrder)), now)
        decreases |tombstoneOrder|
      {
        if SaturatingSub(now, tombstoneOrder[0].at) < HANDOFF_TOMBSTONE_TTL {
          break;
        }
        var stamp := tombstoneOrder[0];
        tombstoneOrder := tombstoneOrder[1..];
        var _ := ForgetTombstoneIfStamped(stamp.key, stamp.at);
      }
    }

    /** Drops the oldest live tombstone, for the cap. */
    method ForgetOldestTombstone()
      requires Valid()
      modifies `tombstones, `tombstoneOrder, `usedBytes
      ensures Valid()
      ensures Tombs(tombstones, tombstoneOrder) == ForgetOldest(old(Tombs(tombstones, tombstoneOrder)))
    {
      hide Table, Ordered, StampedBy, Names, NameBytes, TombBytes, Cost, MarkCount, Covered, Heap, Below, Forget;
      while tombstoneOrder != []
        invariant Valid()
        invariant ForgetOldest(Tombs(tombstones, tombstoneOrder)) ==
                  ForgetOldest(old(Tombs(tombstones, tombstoneOrder)))
        decreases |tombstoneOrder|
      {
        var stamp := tombstoneOrder[0];
        tombstoneOrder := tombstoneOrder[1..];
        var forgotten := ForgetTombstoneIfStamped(stamp.key, stamp.at);
        if forgotten {
          return;
        }
      }
    }

    /** Records `key` as handoff-deleted at `now`. */
    method Tombstone(key: Key, now: nat)
      requires Valid()
      modifies `tombstones, `tombstoneOrder, `usedBytes
      ensures Valid()
      ensures Tombs(tombstones, tombstoneOrder) == Bury(old(Tombs(tombstones, tombstoneOrder)), key, now)
    {
      hide Table, Ordered, StampedBy, Names, NameBytes, TombBytes, Cost, MarkCount, Covered, Heap, Below, Prune,
           ForgetOldest, LiveStamps;
      PruneTombstones(now);
      if |tombstones| >= MAX_HANDOFF_TOMBSTONES {
        ForgetOldestTombstone();
      }
      NewTombstone(tombstones, key, now);
      if key !in tombstones {
        usedBytes := usedBytes + TombstoneBytes(key);
      }
      tombstones := tombstones[key := now];
      tombstoneOrder := tombstoneOrder + [Stamp(now, key)];
      if |tombstoneOrder| > 2 * MAX_HANDOFF_TOMBSTONES {
        tombstoneOrder := LiveStamps(tombstoneOrder, tombstones);
      }
    }

    static lemma NewTombstone(live: map<Key, nat>, key: Key, now: nat)
      ensures TombBytes(live[key := now]) == TombBytes(live) + (if key in live then 0 else TombstoneBytes(key))
    {
      TombBytesSplit(live[key := now], key);
      if key in live {
        assert live[key := now].Keys == live.Keys;
      } else {
        assert live[key := now] - {key} == live;
      }
    }

    /** Drops `key`'s tombstone, whatever its age. */
    method ForgetTombstone(key: Key)
      requires Valid()
      modifies `tombstones, `usedBytes
      ensures Valid()
      ensures tombstones == old(tombstones) - {key}
    {
      hide Table, Ordered, StampedBy, Names, NameBytes, TombBytes, Cost, MarkCount, Covered, Heap, Below;
      if tombstones == map[] {
        return;
      }
      if key in tombstones {
        TombBytesSplit(tombstones, key);
        tombstones := tombstones - {key};
        usedBytes := usedBytes - TombstoneBytes(key);
      } else {
        assert tombstones - {key} == tombstones;
      }
    }

    // ---- handoffs ----

    method NoteHandoffAt(now: nat, ahead: bool)
      requires Valid()
      modifies `lastHandoffAt, `handoffWrites
      ensures Valid()
      ensures Abs() == NoteHandoff(old(Abs()), ahead, now)
    {
      hide Table, Ordered, StampedBy, Names, NameBytes, TombBytes, Cost, MarkCount, Covered, Heap, Below;
      if ahead {
        lastHandoffAt := Some(now);
        handoffWrites := (handoffWrites + 1) % WRITES_WRAP;
      }
    }

    method HandoffDeleteAt(key: Key, now: nat) returns (removed: bool)
      requires Valid()
      modifies `names, `slots, `usedBytes, `entryCount, `marked, `lru, `tombstones, `tombstoneOrder
      ensures Valid()
      ensures (Abs(), removed) == HandoffDelete(old(Abs()), key, now)
    {
      hide Table, Ordered, StampedBy, Names, NameBytes, TombBytes, Cost, MarkCount, Covered, Heap, Below, Bury, Delete;
      removed := DeleteAt(key, now);
      Tombstone(key, now);
    }

    /** A handed-off write; a zero TTL is a relayed delete. */
    method HandoffSetAt(key: Key, value: Bytes, ttl: Option<nat>, ahead: bool, now: nat) returns (changed: bool)
      requires Valid()
      modifies this
      ensures Valid()
      ensures peak <= Max(old(peak), old(|slots|) + 1)
      ensures (Abs(), changed) == HandoffSet(c, old(Abs()), key, value, ttl, ahead, now)
    {
      hide Table, Ordered, StampedBy, Names, NameBytes, TombBytes, Cost, MarkCount, Covered, Heap, Below, Lookup, Put,
           HandoffDelete, PeekKey;
      NoteHandoffAt(now, ahead);
      if ttl == Some(0) {
        var _ := HandoffDeleteAt(key, now);
        return true;
      }
      var expiresAt := Expiry(c, now, ttl);
      PeekIsLookup(key);
      var e := PeekKey(key);
      var same := e.Some? && !Expired(e.value.expiresAt, now) && e.value.value == value
                  && e.value.expiresAt.Some? == expiresAt.Some?;
      Insert(key, value, expiresAt);
      return !same;
    }

    /** A put-if-absent handoff: refused under a live tombstone or over a live unmarked copy. */
    method HandoffSetIfAbsentAt(key: Key, value: Bytes, ttl: Option<nat>, ahead: bool, now: nat) returns (stored: bool)
      requires Valid()
      modifies this
      ensures Valid()
      ensures peak <= Max(old(peak), old(|slots|) + 1)
      ensures (Abs(), stored) == HandoffSetIfAbsent(c, old(Abs()), key, value, ttl, ahead, now)
    {
      hide Table, Ordered, StampedBy, Names, NameBytes, TombBytes, Cost, MarkCount, Covered, Heap, Below, Lookup, Put,
           Holds, PeekKey, IsMarked, Marked;
      NoteHandoffAt(now, ahead);
      if key in tombstones && SaturatingSub(now, tombstones[key]) < HANDOFF_TOMBSTONE_TTL {
        return false;
      }
      var absent := ConditionHoldsAt(key, Absent, now);
      PeekIsLookup(key);
      if !absent && !IsMarked(key) {
        return false;
      }
      Insert(key, value, Expiry(c, now, ttl));
      return true;
    }

    /** Removes the listed keys held but not owned, unless a handoff ahead of its ring landed recently. */
    method ReclaimUnownedAt(keys: seq<Key>, owned: Key -> bool, quiet: nat, now: nat) returns (removed: Option<nat>)
      requires Valid()
      modifies `names, `slots, `usedBytes, `entryCount, `marked, `lru, `tombstones, `tombstoneOrder
      ensures Valid()
      ensures (Abs(), removed) == Reclaim(old(Abs()), keys, owned, quiet, now)
    {
      hide Table, Ordered, StampedBy, Names, NameBytes, TombBytes, Cost, MarkCount, Covered, Heap, Below, Lookup,
           Without;
      if lastHandoffAt.Some? && SaturatingSub(now, lastHandoffAt.value) < quiet {
        return None;
      }
      var count := 0;
      var i := 0;
      while i < |keys|
        invariant 0 <= i <= |keys| && Valid()
        invariant ReclaimAll(Abs(), keys[i..], owned).0 == ReclaimAll(old(Abs()), keys, owned).0
        invariant ReclaimAll(Abs(), keys[i..], owned).1 + count == ReclaimAll(old(Abs()), keys, owned).1
      {
        assert keys[i..][0] == keys[i] && keys[i..][1..] == keys[i + 1..];
        var gone := ReclaimOne(keys[i], owned);
        if gone {
          count := count + 1;
        }
        i := i + 1;
      }
      return Some(count);
    }

    method ReclaimOne(key: Key, owned: Key -> bool) returns (gone: bool)
      requires Valid()
      modifies `names, `slots, `usedBytes, `entryCount, `marked, `lru, `tombstones, `tombstoneOrder
      ensures Valid()
      ensures gone <==> Lookup(old(lru), key).Some? && !owned(key)
      ensures Abs() == if gone then old(Abs()).(lru := Without(old(lru), key),
                                                tombs := Tombs(old(tombstones) - {key}, old(tombstoneOrder)))
                       else old(Abs())
    {
      hide Table, Ordered, StampedBy, Names, NameBytes, TombBytes, Cost, MarkCount, Covered, Heap, Below, Lookup,
           Without, PeekKey;
      PeekIsLookup(key);
      var e := PeekKey(key);
      gone := false;
      if e.Some? && !owned(key) {
        var removed := RemoveEntry(key);
        if removed.Some? {
          gone := true;
          ForgetTombstone(key);
        }
      }
    }

    // ---- sweeping ----

    /** The expired keys of every namespace, namespaces in no particular order. */
    method CollectExpired(now: nat) returns (keys: seq<Key>)
      requires Valid()
      ensures Enumerates(keys, ExpiredKeys(lru, now))
    {
      hide Ordered, StampedBy, NameBytes, TombBytes, Cost, MarkCount, Covered, Heap, Below, Mirrors, Enumerates,
           ExpiredKeys;
      keys := [];
      var left := slots.Keys;
      NoneExpiredYet(now);
      while left != {}
        invariant left <= slots.Keys
        invariant Enumerates(keys, ExpiredKeys(Done(left), now))
        decreases left
      {
        var id :| id in left;
        ExpiredOfSlot(id, now);
        DoneWith(left, id, now);
        EnumeratesConcat(keys, ExpiredKeys(Done(left), now), ExpiredOf(slots[id].entries, slots[id].name, now),
                         ExpiredKeys(Of(lru, slots[id].name), now));
        keys := keys + ExpiredOf(slots[id].entries, slots[id].name, now);
        left := left - {id};
      }
      AllDone();
    }

    /** The marked keys of every namespace, in no particular order. */
    method CollectMarked() returns (keys: seq<Key>)
      requires Valid()
      ensures Enumerates(keys, MarkedKeys(lru))
    {
      hide Ordered, StampedBy, NameBytes, TombBytes, Cost, MarkCount, Covered, Heap, Below, Mirrors, Enumerates,
           MarkedKeys;
      keys := [];
      var left := slots.Keys;
      NoneMarkedYet();
      while left != {}
        invariant left <= slots.Keys
        invariant Enumerates(keys, MarkedKeys(Done(left)))
        decreases left
      {
        var id :| id in left;
        var some := ListMarks(slots[id]);
        MarkedOfSlot(id, some);
        DoneWith(left, id, 0);
        EnumeratesConcat(keys, MarkedKeys(Done(left)), some, MarkedKeys(Of(lru, slots[id].name)));
        keys := keys + some;
        left := left - {id};
      }
      AllDone();
    }

    static method ListMarks(n: Namespace) returns (keys: seq<Key>)
      ensures forall i, j :: 0 <= i < j < |keys| ==> keys[i] != keys[j]
      ensures forall k :: k in keys <==> k.ns == n.name && k.name in n.migrated
    {
      keys := [];
      var left := n.migrated;
      while left != {}
        invariant left <= n.migrated
        invariant forall i, j :: 0 <= i < j < |keys| ==> keys[i] != keys[j]
        invariant forall k :: k in keys <==> k.ns == n.name && k.name in n.migrated - left
        decreases left
      {
        var name :| name in left;
        keys := keys + [Key(n.name, name)];
        left := left - {name};
      }
    }

    /** The items of the namespaces already visited. */
    ghost function Done(left: set<nat>): seq<Item>
      reads this
    {
      Visited(lru, names, left)
    }

    lemma NoneExpiredYet(now: nat)
      requires Valid()
      ensures Enumerates([], ExpiredKeys(Done(slots.Keys), now))
    {
      NobodyVisited();
    }

    lemma NoneMarkedYet()
      requires Valid()
      ensures Enumerates([], MarkedKeys(Done(slots.Keys)))
    {
      NobodyVisited();
    }

    lemma NobodyVisited()
      requires Valid()
      ensures Done(slots.Keys) == []
    {
      forall x | x in lru ensures x.key.ns in names && names[x.key.ns] in slots.Keys {
        assert x.key.ns in Names(lru);
      }
      VisitedNone(lru, names, slots.Keys);
    }

    lemma AllDone()
      requires Valid()
      ensures Done({}) == lru
    {
      VisitedAll(lru, names);
    }

    /** Visiting one more namespace adds exactly its items, none of them already there. */
    lemma DoneMembers(left: set<nat>, id: nat, x: Item)
      requires Valid() && left <= slots.Keys && id in left
      ensures x in Done(left - {id}) <==> x in Done(left) || x in Of(lru, slots[id].name)
      ensures x in Done(left) ==> x.key.ns != slots[id].name
      ensures x in Of(lru, slots[id].name) ==> x.key.ns == slots[id].name
    {
      hide Ordered, StampedBy, TailsOk, NameBytes, TombBytes, Cost, MarkCount, Mirrors;
      assert Slot(c, names, slots[id], id, lru);
      VisitedMembers(lru, names, left);
      VisitedMembers(lru, names, left - {id});
      OfMembers(lru, slots[id].name);
      if x in lru {
        assert x.key.ns in Names(lru);
        assert names[x.key.ns] in slots;
      }
    }

    lemma DoneWith(left: set<nat>, id: nat, now: nat)
      requires Valid() && left <= slots.Keys && id in left
      ensures ExpiredKeys(Done(left - {id}), now) ==
                ExpiredKeys(Done(left), now) + ExpiredKeys(Of(lru, slots[id].name), now)
      ensures ExpiredKeys(Done(left), now) !! ExpiredKeys(Of(lru, slots[id].name), now)
      ensures MarkedKeys(Done(left - {id})) == MarkedKeys(Done(left)) + MarkedKeys(Of(lru, slots[id].name))
      ensures MarkedKeys(Done(left)) !! MarkedKeys(Of(lru, slots[id].name))
    {
      hide Valid, Done, Of;
      forall x
        ensures x in Done(left - {id}) <==> x in Done(left) || x in Of(lru, slots[id].name)
        ensures x in Done(left) ==> x.key.ns != slots[id].name
        ensures x in Of(lru, slots[id].name) ==> x.key.ns == slots[id].name
      {
        DoneMembers(left, id, x);
      }
    }

    lemma ExpiredOfSlot(id: nat, now: nat)
      requires Valid() && id in slots
      ensures Enumerates(ExpiredOf(slots[id].entries, slots[id].name, now), ExpiredKeys(Of(lru, slots[id].name), now))
    {
      assert Slot(c, names, slots[id], id, lru);
      OfOrdered(lru, slots[id].name);
      OfMembers(lru, slots[id].name);
      ExpiredMirrors(Of(lru, slots[id].name), slots[id].name, now);
    }

    lemma MarkedOfSlot(id: nat, keys: seq<Key>)
      requires Valid() && id in slots
      requires forall i, j :: 0 <= i < j < |keys| ==> keys[i] != keys[j]
      requires forall k :: k in keys <==> k.ns == slots[id].name && k.name in slots[id].migrated
      ensures Enumerates(keys, MarkedKeys(Of(lru, slots[id].name)))
    {
      assert Slot(c, names, slots[id], id, lru);
      OfMembers(lru, slots[id].name);
      var items := Of(lru, slots[id].name);
      forall k ensures k in keys <==> k in MarkedKeys(items) {
        if k in keys {
          var x :| x in items && x.marked && x.key.name == k.name;
          assert x.key == k;
        }
      }
    }

    /** One bounded pass: prune tombstones, refill the queue if it is empty, judge up to the budget. */
    method SweepAt(now: nat, includeMarked: bool, owned: Option<Key -> bool>)
      returns (removed: nat, ghost refill: seq<Key>)
      requires Valid()
      modifies `names, `slots, `usedBytes, `entryCount, `marked, `lru, `tombstones, `tombstoneOrder, `pendingRemoval
      ensures Valid()
      ensures old(pendingRemoval) == [] ==> Candidates(refill, old(lru), includeMarked, now)
      ensures (Abs(), removed) == Sweep(old(Abs()), refill, includeMarked, owned, now)
    {
      hide Table, Ordered, StampedBy, Names, NameBytes, TombBytes, Cost, MarkCount, Covered, Heap, Below, Prune,
           Candidates, SweepSome, ExpiredKeys, MarkedKeys, Enumerates;
      PruneTombstones(now);
      refill := [];
      if pendingRemoval == [] {
        var expired := CollectExpired(now);
        var marks := [];
        if includeMarked {
          marks := CollectMarked();
        }
        TwoParts(expired, marks, lru, includeMarked, now);
        refill := expired + marks;
        pendingRemoval := expired + marks;
      }
      removed := SweepQueue(includeMarked, owned, now);
    }

    method SweepQueue(includeMarked: bool, owned: Option<Key -> bool>, now: nat) returns (removed: nat)
      requires Valid()
      modifies `names, `slots, `usedBytes, `entryCount, `marked, `lru, `tombstones, `tombstoneOrder, `pendingRemoval
      ensures Valid()
      ensures (Abs(), removed) == SweepSome(old(Abs()), SWEEP_BUDGET, includeMarked, owned, now)
    {
      hide Valid, SweepOne, SweepSome;
      removed := 0;
      var i := 0;
      while i < SWEEP_BUDGET && pendingRemoval != []
        invariant 0 <= i <= SWEEP_BUDGET && Valid()
        invariant SweepSome(Abs(), SWEEP_BUDGET - i, includeMarked, owned, now).0
                  == SweepSome(old(Abs()), SWEEP_BUDGET, includeMarked, owned, now).0
        invariant SweepSome(Abs(), SWEEP_BUDGET - i, includeMarked, owned, now).1 + removed
                  == SweepSome(old(Abs()), SWEEP_BUDGET, includeMarked, owned, now).1
        decreases SWEEP_BUDGET - i
      {
        SweepSomeStep(Abs(), SWEEP_BUDGET - i, includeMarked, owned, now);
        var gone := SweepNext(includeMarked, owned, now);
        removed := removed + gone;
        i := i + 1;
      }
      SweepSomeStep(Abs(), SWEEP_BUDGET - i, includeMarked, owned, now);
    }

    static lemma SweepSomeStep(s: Store, budget: nat, includeMarked: bool, owned: Option<Key -> bool>, now: nat)
      ensures budget == 0 || s.pending == [] ==> SweepSome(s, budget, includeMarked, owned, now) == (s, 0)
      ensures budget > 0 && s.pending != [] ==>
                var one := SweepOne(s.(pending := s.pending[1..]), s.pending[0], includeMarked, owned, now);
                var rest := SweepSome(one.0, budget - 1, includeMarked, owned, now);
                SweepSome(s, budget, includeMarked, owned, now) == (rest.0, one.1 + rest.1)
    {
      hide SweepOne;
    }

    /** Takes the first candidate off the queue and judges it. */
    method SweepNext(includeMarked: bool, owned: Option<Key -> bool>, now: nat) returns (gone: nat)
      requires Valid() && pendingRemoval != []
      modifies `names, `slots, `usedBytes, `entryCount, `marked, `lru, `tombstones, `tombstoneOrder, `pendingRemoval
      ensures Valid()
      ensures var s := old(Abs());
              (Abs(), gone) == SweepOne(s.(pending := s.pending[1..]), s.pending[0], includeMarked, owned, now)
    {
      hide Table, Ordered, StampedBy, Names, NameBytes, TombBytes, Cost, MarkCount, Covered, Heap, Below, SweepOne;
      var key := pendingRemoval[0];
      pendingRemoval := pendingRemoval[1..];
      gone := SweepKey(key, includeMarked, owned, now);
    }

    static lemma TwoParts(expired: seq<Key>, marks: seq<Key>, l: seq<Item>, includeMarked: bool, now: nat)
      requires Enumerates(expired, ExpiredKeys(l, now))
      requires if includeMarked then Enumerates(marks, MarkedKeys(l)) else marks == []
      ensures Candidates(expired + marks, l, includeMarked, now)
    {
      var refill, n := expired + marks, |expired|;
      assert refill[..n] == expired && refill[n..] == marks;
    }

    /** Judges one candidate against what is stored now. */
    method SweepKey(key: Key, includeMarked: bool, owned: Option<Key -> bool>, now: nat) returns (gone: nat)
      requires Valid()
      modifies `names, `slots, `usedBytes, `entryCount, `marked, `lru, `tombstones, `tombstoneOrder
      ensures Valid()
      ensures (Abs(), gone) == SweepOne(old(Abs()), key, includeMarked, owned, now)
    {
      hide Table, Ordered, StampedBy, Names, NameBytes, TombBytes, Cost, MarkCount, Covered, Heap, Below, Lookup,
           Without, PeekKey, IsMarked, Unmark;
      PeekIsLookup(key);
      var e := PeekKey(key);
      var marked := includeMarked && IsMarked(key);
      var expired := e.Some? && Expired(e.value.expiresAt, now);
      if marked && !expired && Keeps(owned, key) {
        ClearMigratedMark(key);
        return 0;
      }
      gone := 0;
      if marked || expired {
        var removed := RemoveEntry(key);
        if removed.Some? {
          gone := 1;
          if marked {
            ForgetTombstone(key);
          }
        }
      }
    }

    // ---- batches ----

    /** A batched set: the namespace is resolved once, and never dropped before the batch ends. */
    method SetManyAt(ns: Bytes, items: seq<Pair>, ttl: Option<nat>, now: nat)
      requires Valid()
      modifies this
      ensures Valid()
      ensures peak <= Max(old(peak), old(|slots|) + 1)
      ensures Abs() == SetMany(c, old(Abs()), ns, items, Expiry(c, now, ttl))
    {
      hide Table, Ordered, StampedBy, Names, NameBytes, TombBytes, Cost, MarkCount, Covered, Heap, Below, Put;
      var expiresAt := Expiry(c, now, ttl);
      var id: Option<nat> := None;
      var i := 0;
      while i < |items|
        invariant 0 <= i <= |items| && Valid()
        invariant id.Some? ==> id.value in slots && slots[id.value].name == ns
        invariant peak <= Max(old(peak), old(|slots|) + 1) && (id.None? ==> |slots| == old(|slots|))
        invariant SetMany(c, Abs(), ns, items[i..], expiresAt) == SetMany(c, old(Abs()), ns, items, expiresAt)
      {
        assert items[i..][0] == items[i] && items[i..][1..] == items[i + 1..];
        var live;
        if id.Some? && id.value in slots {
          live := id.value;
          NamedAlready(live);
        } else {
          live := EnsureNamespace(ns);
        }
        id := Some(live);
        InsertInto(live, items[i].name, items[i].value, expiresAt);
        i := i + 1;
      }
    }

    lemma NamedAlready(id: nat)
      requires Valid() && id in slots
      ensures names.Keys == Names(lru) + {slots[id].name}
    {
      assert Slot(c, names, slots[id], id, lru);
    }

    /** A batched get: the namespace is resolved once, and the values returned never exceed `cap` bytes. */
    method GetManyAt(ns: Bytes, wanted: seq<Bytes>, cap: nat, now: nat) returns (results: seq<Option<Bytes>>)
      requires Valid()
      modifies `names, `slots, `usedBytes, `entryCount, `marked, `clock, `lru
      ensures Valid()
      ensures var b := GetMany(Begin(old(Abs())), ns, wanted, cap, now); Abs() == b.store && results == b.results
    {
      hide Table, Ordered, StampedBy, Names, NameBytes, TombBytes, Cost, MarkCount, Covered, Heap, Below, Get;
      FindResolves(ns);
      var id := FindNamespace(ns);
      var used: nat := 0;
      results := [];
      var i := 0;
      while i < |wanted|
        invariant 0 <= i <= |wanted| && Valid() && Resolved(id, ns)
        invariant GetMany(Batch(Abs(), used, map[], results), ns, wanted[i..], cap, now)
                  == GetMany(Begin(old(Abs())), ns, wanted, cap, now)
      {
        assert wanted[i..][0] == wanted[i] && wanted[i..][1..] == wanted[i + 1..];
        if used >= cap {
          results := results + [None];
        } else {
          var value := GetIn(id, ns, wanted[i], now);
          if value.Some? && used + |value.value| <= cap {
            used := used + |value.value|;
            results := results + [value];
          } else {
            results := results + [None];
          }
        }
        i := i + 1;
      }
    }

    /** A batched touch; a value left out of the reply is left alone too. */
    method TouchManyAt(ns: Bytes, wanted: seq<Bytes>, ttl: Option<nat>, promote: bool, cap: Option<nat>, now: nat)
      returns (results: seq<Option<Bytes>>)
      requires Valid()
      modifies `names, `slots, `usedBytes, `entryCount, `marked, `clock, `lru
      ensures Valid()
      ensures var b := TouchMany(c, Begin(old(Abs())), ns, wanted, ttl, promote, cap, now);
              Abs() == b.store && results == b.results
    {
      hide Table, Ordered, StampedBy, Names, NameBytes, TombBytes, Cost, MarkCount, Covered, Heap, Below, TouchNext;
      FindResolves(ns);
      var id := FindNamespace(ns);
      var used: nat := 0;
      var seen: map<Bytes, Bytes> := map[];
      results := [];
      var i := 0;
      while i < |wanted|
        invariant 0 <= i <= |wanted| && Valid() && Resolved(id, ns)
        invariant TouchMany(c, Batch(Abs(), used, seen, results), ns, wanted[i..], ttl, promote, cap, now)
                  == TouchMany(c, Begin(old(Abs())), ns, wanted, ttl, promote, cap, now)
      {
        assert wanted[i..][0] == wanted[i] && wanted[i..][1..] == wanted[i + 1..];
        used, seen, results := TouchNextAt(id, ns, wanted[i], ttl, promote, cap, now, used, seen, results);
        i := i + 1;
      }
    }

    method TouchNextAt(id: Option<nat>, ghost ns: Bytes, name: Bytes, ttl: Option<nat>, promote: bool, cap: Option<nat>,
                       now: nat, used: nat, seen: map<Bytes, Bytes>, results: seq<Option<Bytes>>)
      returns (used': nat, seen': map<Bytes, Bytes>, results': seq<Option<Bytes>>)
      requires Valid() && Resolved(id, ns)
      modifies `names, `slots, `usedBytes, `entryCount, `marked, `clock, `lru
      ensures Valid() && Resolved(id, ns)
      ensures Batch(Abs(), used', seen', results')
              == TouchNext(c, Batch(old(Abs()), used, seen, results), Key(ns, name), ttl, promote, cap, now)
    {
      hide Table, Ordered, StampedBy, Names, NameBytes, TombBytes, Cost, MarkCount, Covered, Heap, Below, Touch,
           LiveLength;
      used', seen', results' := used, seen, results + [None];
      if name in seen {
        if !Over(used, |seen[name]|, cap) {
          used' := used + |seen[name]|;
          results' := results + [Some(seen[name])];
        }
        return;
      }
      var length := LiveValueLength(id, ns, name, now);
      if Over(used, length, cap) {
        return;
      }
      var touched := TouchIn(id, ns, name, ttl, promote, now);
      if touched.Some? {
        used' := used + |touched.value.value|;
        if ttl == Some(0) {
          seen' := seen[name := touched.value.value];
        }
        results' := results + [Some(touched.value.value)];
      }
    }

    method LiveValueLength(id: Option<nat>, ghost ns: Bytes, name: Bytes, now: nat) returns (length: nat)
      requires Valid() && Resolved(id, ns)
      ensures length == LiveLength(lru, Key(ns, name), now)
    {
      if id.None? || id.value !in slots {
        NothingUnder(ns, name);
        return 0;
      }
      SlotMirrors(id.value, Key(ns, name));
      var e := Peek(slots[id.value].entries, name);
      return if e.None? || Expired(e.value.expiresAt, now) then 0 else |e.value.value|;
    }

    // ---- runs ----

    /** A client's request for one key, or a clear. */
    method ExecuteOne(op: Op, now: nat) returns (answer: Answer, ghost done: Op)
      requires Valid()
      requires op.Setting? || op.Getting? || op.Touching? || op.Deleting? || op.Incrementing? || op.CasSetting?
                || op.CasDeleting?
            || op.Clearing? || op.ClearingAll?
      modifies this
      ensures Valid()
      ensures peak <= Max(old(peak), old(|slots|) + 1)
      ensures Realizes(done, op, old(Abs()), now)
      ensures (Abs(), answer) == Apply(c, old(Abs()), done, now)
    {
      hide Table, Ordered, StampedBy, Names, NameBytes, TombBytes, Cost, MarkCount, Covered, Heap, Below, Put, Get,
           Touch, Delete, Incr, CasSet, CasDelete, Clear, ClearAll, SetMany, GetMany, TouchMany, HandoffSet,
             HandoffSetIfAbsent, HandoffDelete, Reclaim, Mark, UnmarkAll, Sweep, Candidates, Valid;
      done := op;
      answer := Acknowledged;
      match op
      case Setting(key, value, ttl) =>
        SetAt(key, value, ttl, now);
      case Getting(key) =>
        var v := GetAt(key, now);
        answer := Value(v);
      case Touching(key, ttl, promote) =>
        var r := TouchAt(key, ttl, promote, now);
        answer := Refreshed(r);
      case Deleting(key) =>
        var b := DeleteAt(key, now);
        answer := Flag(b);
      case Incrementing(key, delta) =>
        var r := IncrAt(key, delta, now);
        answer := Counter(r);
      case CasSetting(key, cond, value, ttl) =>
        var b := CasSetAt(key, cond, value, ttl, now);
        answer := Flag(b);
      case CasDeleting(key, digest) =>
        var b := CasDeleteAt(key, digest, now);
        answer := Flag(b);
      case Clearing(ns) =>
        var n := ClearNamespace(ns);
        answer := Count(n);
      case ClearingAll =>
        var n := ClearEverything();
        answer := Count(n);
    }

    /** A batch, or a write another node hands over. */
    method ExecuteBatch(op: Op, now: nat) returns (answer: Answer, ghost done: Op)
      requires Valid()
      requires op.SettingMany? || op.GettingMany? || op.TouchingMany? || op.HandingOff? || op.HandingOffIfAbsent?
                || op.HandingOffDelete?
      modifies this
      ensures Valid()
      ensures peak <= Max(old(peak), old(|slots|) + 1)
      ensures Realizes(done, op, old(Abs()), now)
      ensures (Abs(), answer) == Apply(c, old(Abs()), done, now)
    {
      hide Table, Ordered, StampedBy, Names, NameBytes, TombBytes, Cost, MarkCount, Covered, Heap, Below, Put, Get,
           Touch, Delete, Incr, CasSet, CasDelete, Clear, ClearAll, SetMany, GetMany, TouchMany, HandoffSet,
             HandoffSetIfAbsent, HandoffDelete, Reclaim, Mark, UnmarkAll, Sweep, Candidates, Valid;
      done := op;
      answer := Acknowledged;
      match op
      case SettingMany(ns, items, ttl) =>
        SetManyAt(ns, items, ttl, now);
      case GettingMany(ns, wanted, limit) =>
        var vs := GetManyAt(ns, wanted, limit, now);
        answer := Values(vs);
      case TouchingMany(ns, wanted, ttl, promote, cap) =>
        var vs := TouchManyAt(ns, wanted, ttl, promote, cap, now);
        answer := Values(vs);
      case HandingOff(key, value, ttl, ahead) =>
        var b := HandoffSetAt(key, value, ttl, ahead, now);
        answer := Flag(b);
      case HandingOffIfAbsent(key, value, ttl, ahead) =>
        var b := HandoffSetIfAbsentAt(key, value, ttl, ahead, now);
        answer := Flag(b);
      case HandingOffDelete(key) =>
        var b := HandoffDeleteAt(key, now);
        answer := Flag(b);
    }

    /** What the node does to its own entries: reclaims, marks and sweeps. */
    method ExecuteUpkeep(op: Op, now: nat) returns (answer: Answer, ghost done: Op)
      requires Valid()
      requires op.Reclaiming? || op.Marking? || op.Unmarking? || op.Sweeping?
      modifies this
      ensures Valid()
      ensures peak <= Max(old(peak), old(|slots|) + 1)
      ensures Realizes(done, op, old(Abs()), now)
      ensures (Abs(), answer) == Apply(c, old(Abs()), done, now)
    {
      hide Table, Ordered, StampedBy, Names, NameBytes, TombBytes, Cost, MarkCount, Covered, Heap, Below, Put, Get,
           Touch, Delete, Incr, CasSet, CasDelete, Clear, ClearAll, SetMany, GetMany, TouchMany, HandoffSet,
             HandoffSetIfAbsent, HandoffDelete, Reclaim, Mark, UnmarkAll, Sweep, Candidates, Valid;
      done := op;
      answer := Acknowledged;
      match op
      case Reclaiming(keys, mine, quiet) =>
        var n := ReclaimUnownedAt(keys, mine, quiet, now);
        answer := Reclaimed(n);
      case Marking(key) =>
        MarkMigrated(key);
      case Unmarking(keys) =>
        var _ := UnmarkMigratedMany(keys);
      case Sweeping(_, includeMarked, owned) =>
        var n; ghost var refill;
        n, refill := SweepAt(now, includeMarked, owned);
        done := Sweeping(refill, includeMarked, owned);
        answer := Count(n);
    }

    /** Any one operation answers and leaves behind what the single list does. */
    method Execute(op: Op, now: nat) returns (answer: Answer, ghost done: Op)
      requires Valid()
      modifies this
      ensures Valid()
      ensures peak <= Max(old(peak), old(|slots|) + 1)
      ensures Realizes(done, op, old(Abs()), now)
      ensures (Abs(), answer) == Apply(c, old(Abs()), done, now)
    {
      hide Valid, Apply, Realizes;
      if op.SettingMany? || op.GettingMany? || op.TouchingMany? || op.HandingOff? || op.HandingOffIfAbsent?
         || op.HandingOffDelete? {
        answer, done := ExecuteBatch(op, now);
      } else if op.Reclaiming? || op.Marking? || op.Unmarking? || op.Sweeping? {
        answer, done := ExecuteUpkeep(op, now);
      } else {
        answer, done := ExecuteOne(op, now);
      }
    }

    /** Every run answers as the single list does, and every counter is exact after it. */
    method Run(calls: seq<Call>) returns (answers: seq<Answer>, ghost done: seq<Call>)
      requires Valid()
      modifies this
      ensures Valid()
      ensures |done| == |calls|
      ensures forall i :: 0 <= i < |calls| ==>
                done[i].now == calls[i].now
                && Realizes(done[i].op, calls[i].op, After(c, old(Abs()), done[..i]), calls[i].now)
      ensures Abs() == After(c, old(Abs()), done)
      ensures answers == Answers(c, old(Abs()), done)
      ensures usedBytes == StoreBytes(Abs()) && entryCount == |lru| && marked == MarkCount(lru)
      ensures forall p: nat :: NeverMoreThan(c, old(Abs()), done, p) ==>
                |tails| <= 2 * Max(old(peak), p + 1) + TAILS_SLACK + 1
    {
      hide Table, Ordered, StampedBy, Names, NameBytes, TombBytes, Cost, MarkCount, Covered, Heap, Below, Apply,
           Realizes, NeverMoreThan;
      answers, done := [], [];
      var i := 0;
      while i < |calls|
        invariant 0 <= i <= |calls| && |done| == i && Valid()
        invariant Abs() == After(c, old(Abs()), done)
        invariant answers == Answers(c, old(Abs()), done)
        invariant forall p: nat :: NeverMoreThan(c, old(Abs()), done, p) ==> peak <= Max(old(peak), p + 1)
        invariant forall j :: 0 <= j < i ==>
                    done[j].now == calls[j].now
                    && Realizes(done[j].op, calls[j].op, After(c, old(Abs()), done[..j]), calls[j].now)
      {
        LiveSlots();
        var answer; ghost var op;
        ghost var was := peak;
        answer, op := Execute(calls[i].op, calls[i].now);
        ghost var next := done + [Call(op, calls[i].now)];
        assert next[..i] == done;
        forall j | 0 <= j < i ensures next[..j] == done[..j] {
        }
        forall p: nat | NeverMoreThan(c, old(Abs()), next, p) ensures peak <= Max(old(peak), p + 1) {
          NeverMoreBefore(c, old(Abs()), done, Call(op, calls[i].now), p);
        }
        done := next;
        answers := answers + [answer];
        i := i + 1;
      }
      assert usedBytes == StoreBytes(Abs());
    }

    lemma LiveSlots()
      requires Valid()
      ensures |slots| == |Names(lru)|
    {
      forall id | id in slots ensures slots[id].name in names && names[slots[id].name] == id {
        assert Slot(c, names, slots[id], id, lru);
      }
      SlotsCounted(names, slots);
    }

    // ---- namespaces ----

    /** The slot of `name`, created empty (and charged for its name) if there is none. */
    method EnsureNamespace(name: Bytes) returns (id: nat)
      requires Valid()
      modifies `names, `slots, `usedBytes, `tails, `tailOf, `nextSlotId, `peak
      ensures Base() && TailsOk()
      ensures id in slots && slots[id].name == name
      ensures names.Keys == Names(lru) + {name}
      ensures peak == Max(old(peak), |slots|) && |slots| <= old(|slots|) + 1
    {
      hide Table, Ordered, StampedBy, Names, TombBytes, Cost, MarkCount, Heap, Covered, Below, NameBytes;
      if name in names {
        IndexedSlot(name);
        return names[name];
      }
      id := CreateNamespace(name);
      peak := Max(peak, |slots|);
      if |tails| > 2 * |slots| + TAILS_SLACK {
        RebuildTails();
      } else {
        PushTail(Tail(0, id));
      }
    }

    method CreateNamespace(name: Bytes) returns (id: nat)
      requires Base() && Covered(slots, tailOf) && Below(tailOf, nextSlotId) && name !in names
      modifies `names, `slots, `usedBytes, `nextSlotId
      ensures Base() && id in slots && slots[id].name == name && names.Keys == old(names.Keys) + {name}
      ensures id !in tailOf && Covered(slots, tailOf[id := 0]) && Below(tailOf[id := 0], nextSlotId)
      ensures BelowAll(slots, nextSlotId) && |slots| == old(|slots|) + 1
    {
      hide Table, Ordered, StampedBy, Names, TombBytes, Cost, MarkCount, Covered, Below, NameBytes, NameCharge,
           BudgetOf, BelowAll;
      id := nextSlotId;
      FreshSlot(slots, tailOf, id, Namespace(name, [], 0, BudgetOf(c, name), {}, map[]));
      TableAdd(c, names, slots, lru, id, name);
      NewName(names, name, id);
      nextSlotId := nextSlotId + 1;
      usedBytes := usedBytes + NameCharge(name);
      names := names[name := id];
      slots := slots[id := Namespace(name, [], 0, BudgetOf(c, name), {}, map[])];
    }

    /** A new slot's id is in no slot and no heap item, and stamp 0 covers it. */
    static lemma FreshSlot(slots: map<nat, Namespace>, tailOf: map<nat, nat>, id: nat, n: Namespace)
      requires Covered(slots, tailOf) && Below(tailOf, id) && n.entries == []
      ensures id !in slots && id !in tailOf
      ensures Covered(slots[id := n], tailOf[id := 0]) && Below(tailOf[id := 0], id + 1)
      ensures BelowAll(slots[id := n], id + 1)
    {
    }

    static lemma NewName(names: map<Bytes, nat>, name: Bytes, id: nat)
      requires name !in names
      ensures names[name := id].Keys == names.Keys + {name}
      ensures NameBytes(names[name := id].Keys) == NameBytes(names.Keys) + NameCharge(name)
    {
      NameBytesSplit(names[name := id].Keys, name);
      assert names[name := id].Keys - {name} == names.Keys;
    }

    /** One heap item per live namespace, at its real oldest stamp. */
    method RebuildTails()
      requires BelowAll(slots, nextSlotId)
      modifies `tails, `tailOf
      ensures Heap(tails, tailOf) && Covered(slots, tailOf) && Below(tailOf, nextSlotId) && |tails| == |slots|
    {
      tails := multiset(set id | id in slots :: Tail(TailBound(slots[id]), id));
      tailOf := map id | id in slots :: TailBound(slots[id]);
      OneTailEach(slots);
    }

    lemma IndexedSlot(name: Bytes)
      requires Base() && name in names
      ensures names[name] in slots && slots[names[name]].name == name
    {
    }
  }

  /** The items of `l` whose namespace's slot is not in `left`. */
  function Visited(l: seq<Item>, names: map<Bytes, nat>, left: set<nat>): seq<Item> {
    if l == [] then []
    else if l[0].key.ns in names && names[l[0].key.ns] in left then Visited(l[1..], names, left)
    else [l[0]] + Visited(l[1..], names, left)
  }

  lemma {:induction false} VisitedMembers(l: seq<Item>, names: map<Bytes, nat>, left: set<nat>)
    ensures forall x :: x in Visited(l, names, left) <==> x in l && !(x.key.ns in names && names[x.key.ns] in left)
  {
    if l != [] {
      VisitedMembers(l[1..], names, left);
      assert forall x :: x in l <==> x == l[0] || x in l[1..];
    }
  }

  lemma {:induction false} VisitedNone(l: seq<Item>, names: map<Bytes, nat>, left: set<nat>)
    requires forall x :: x in l ==> x.key.ns in names && names[x.key.ns] in left
    ensures Visited(l, names, left) == []
  {
    if l != [] {
      VisitedNone(l[1..], names, left);
    }
  }

  lemma {:induction false} VisitedAll(l: seq<Item>, names: map<Bytes, nat>)
    ensures Visited(l, names, {}) == l
  {
    if l != [] {
      VisitedAll(l[1..], names);
    }
  }

  /** The keys of the entries past their TTL, in list order. */
  function ExpiredOf(es: seq<Entry>, ns: Bytes, now: nat): seq<Key> {
    if es == [] then []
    else if Expired(es[0].expiresAt, now) then [Key(ns, es[0].name)] + ExpiredOf(es[1..], ns, now)
    else ExpiredOf(es[1..], ns, now)
  }

  lemma {:induction false} ExpiredMirrors(items: seq<Item>, ns: Bytes, now: nat)
    requires Ordered(items) && AllIn(items, ns)
    ensures Enumerates(ExpiredOf(Entries(items), ns, now), ExpiredKeys(items, now))
  {
    if items != [] {
      var rest := items[1..];
      ExpiredMirrors(rest, ns, now);
      assert Entries(items)[1..] == Entries(rest);
      assert forall x :: x in items <==> x == items[0] || x in rest;
      assert items[0].key.ns == ns;
      forall k | k in ExpiredKeys(rest, now) ensures k != items[0].key {
      }
      if Expired(items[0].expiresAt, now) {
        assert ExpiredKeys(items, now) == ExpiredKeys(rest, now) + {items[0].key};
      } else {
        assert ExpiredKeys(items, now) == ExpiredKeys(rest, now);
      }
    }
  }

  lemma EnumeratesConcat(a: seq<Key>, s: set<Key>, b: seq<Key>, t: set<Key>)
    requires Enumerates(a, s) && Enumerates(b, t) && s !! t
    ensures Enumerates(a + b, s + t)
  {
    var ab := a + b;
    forall i, j | 0 <= i < j < |ab| ensures ab[i] != ab[j] {
      assert i < |a| ==> ab[i] in a;
      assert j >= |a| ==> ab[j] in b;
    }
  }

  lemma NothingStored(c: Config, clock: nat, next: nat, none: map<Bytes, nat>)
    requires none == map[]
    ensures Table(c, map[], map[], []) && Ordered([]) && StampedBy([], clock) && Names([]) == {}
    ensures Cost([]) == 0 && MarkCount([]) == 0 && NameBytes({}) == 0 && TombBytes(map[]) == 0
    ensures NameBytes(none.Keys) == 0 && Names([]) == none.Keys
    ensures Heap(multiset{}, map[]) && Covered(map[], map[]) && Below(map[], next)
  {
  }

  lemma {:induction false} MarkedNamesCount(items: seq<Item>, ns: Bytes)
    requires Ordered(items) && AllIn(items, ns)
    ensures |MarkedNames(items)| == MarkCount(items)
  {
    if items != [] {
      var rest := items[1..];
      MarkedNamesCount(rest, ns);
      assert forall x :: x in items <==> x == items[0] || x in rest;
      if items[0].marked {
        forall x | x in rest ensures x.key.name != items[0].key.name {
          assert x.key != items[0].key;
        }
        assert MarkedNames(items) == MarkedNames(rest) + {items[0].key.name};
      } else {
        assert MarkedNames(items) == MarkedNames(rest);
      }
    }
  }

  lemma {:induction false} OneTailEach(slots: map<nat, Namespace>)
    ensures |set id | id in slots :: Tail(TailBound(slots[id]), id)| == |slots|
    decreases |slots|
  {
    var s := set id | id in slots :: Tail(TailBound(slots[id]), id);
    if slots.Keys == {} {
      assert s == {};
    } else {
      var i :| i in slots;
      var rest := slots - {i};
      var t := set id | id in rest :: Tail(TailBound(rest[id]), id);
      OneTailEach(rest);
      forall id | id in slots && id != i ensures Tail(TailBound(slots[id]), id) in t {
        assert id in rest && rest[id] == slots[id];
      }
      assert s == t + {Tail(TailBound(slots[i]), i)};
      assert |rest| == |slots| - 1 by { assert rest.Keys == slots.Keys - {i}; }
    }
  }

  /** A namespace nothing is stored in yet mirrors the list as it is. */
  lemma TableAdd(c: Config, names: map<Bytes, nat>, slots: map<nat, Namespace>, l: seq<Item>, id: nat, name: Bytes)
    requires Table(c, names, slots, l) && name !in names && id !in slots
    ensures Table(c, names[name := id], slots[id := Namespace(name, [], 0, BudgetOf(c, name), {}, map[])], l)
  {
    var n := Namespace(name, [], 0, BudgetOf(c, name), {}, map[]);
    var names', slots' := names[name := id], slots[id := n];
    OfEmptyIffUnnamed(l, name);
    assert Mirrors(n, [], c.digest);
    forall i | i in slots' ensures Slot(c, names', slots'[i], i, l) {
      if i != id {
        assert Slot(c, names, slots[i], i, l);
      }
    }
  }

}
