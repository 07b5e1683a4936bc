/** What a write evicts, and what it never does. */
module Eviction {
  import opened Basics
  import opened Lru
  import opened StoreSpec

  lemma {:induction false} NotOfWithout(l: seq<Item>, key: Key)
    ensures NotOf(Without(l, key), key.ns) == NotOf(l, key.ns)
  {
    if l != [] && l[0].key != key {
      NotOfWithout(l[1..], key);
      assert Without(l, key)[1..] == Without(l[1..], key);
    }
  }

  /** Having dropped `j` items from the front of its own list, a namespace is still over its budget. */
  ghost predicate OverBudget(items: seq<Item>, j: nat, budget: Option<nat>) {
    j <= |items| && budget.Some? && Cost(items[j..]) > budget.value && |items| - j > 1
  }

  /** Having dropped `j` items from the front of the list, the store is still over its bound. */
  ghost predicate OverBound(l: seq<Item>, j: nat, extra: nat, bound: nat) {
    j <= |l| && ListBytes(l[j..]) + extra > bound && |l| - j > 1
  }

  /** The items a namespace loses to its budget are its oldest, and no more of them than it takes. */
  lemma {:induction false} EvictOwnShortest(l: seq<Item>, ns: Bytes, budget: Option<nat>) returns (k: nat)
    requires Ordered(l)
    ensures Ordered(EvictOwn(l, ns, budget))
    ensures k <= |Of(l, ns)| && Of(EvictOwn(l, ns, budget), ns) == Of(l, ns)[k..]
    ensures NotOf(EvictOwn(l, ns, budget), ns) == NotOf(l, ns)
    ensures FitsBudget(EvictOwn(l, ns, budget), ns, budget)
    ensures forall j :: 0 <= j < k ==> OverBudget(Of(l, ns), j, budget)
    decreases |l|
  {
    var items := Of(l, ns);
    if FitsBudget(l, ns, budget) {
      return 0;
    }
    DropsOne(l, ns);
    OfMembers(l, ns);
    var key := items[0].key;
    var rest := Without(l, key);
    OfWithout(l, key, ns);
    WithoutMembers(l, key);
    assert items[0] in l;
    NotOfWithout(l, key);
    assert Of(rest, ns) == items[1..];
    var m := EvictOwnShortest(rest, ns, budget);
    k := m + 1;
    assert items[0..] == items;
    forall j | 0 <= j < k ensures OverBudget(items, j, budget) {
      if j > 0 {
        assert OverBudget(items[1..], j - 1, budget);
        assert items[1..][j - 1..] == items[j..];
      }
    }
    assert items[1..][m..] == items[k..];
  }

  /** The items the whole store loses to the memory bound are the globally oldest, and no more than it takes. */
  lemma {:induction false} EvictOldestShortest(l: seq<Item>, extra: nat, bound: nat) returns (k: nat)
    ensures k <= |l| && EvictOldest(l, extra, bound) == l[k..]
    ensures ListBytes(l[k..]) + extra <= bound || |l[k..]| <= 1
    ensures forall j :: 0 <= j < k ==> OverBound(l, j, extra, bound)
  {
    assert l[0..] == l;
    if ListBytes(l) + extra <= bound || |l| <= 1 {
      return 0;
    }
    var m := EvictOldestShortest(l[1..], extra, bound);
    k := m + 1;
    forall j | 0 <= j < k ensures OverBound(l, j, extra, bound) {
      if j > 0 {
        assert OverBound(l[1..], j - 1, extra, bound);
        assert l[1..][j - 1..] == l[j..];
      }
    }
    assert l[1..][m..] == l[k..];
  }

  /** The list as written, before anything is evicted. */
  function Written(s: Store, key: Key, value: Bytes, expiresAt: Option<nat>): seq<Item> {
    Without(s.lru, key) + [Item(key, value, expiresAt, s.clock + 1, false, false)]
  }

  lemma WrittenOrdered(s: Store, key: Key, value: Bytes, expiresAt: Option<nat>)
    requires Ordered(s.lru) && StampedBy(s.lru, s.clock)
    ensures Ordered(Written(s, key, value, expiresAt)) && StampedBy(Written(s, key, value, expiresAt), s.clock + 1)
  {
    hide Ordered, Without, Lookup, Names;
    WithoutMembers(s.lru, key);
    LookupMember(Without(s.lru, key), key);
    AppendOrdered(Without(s.lru, key), Item(key, value, expiresAt, s.clock + 1, false, false));
  }

  /**
   A write evicts `own` of its own namespace's oldest items, the fewest that fit the budget, then
   `oldest` of the globally oldest, the fewest that fit the memory bound. The item just written is
   never among them, and the store then fits its bound unless it holds that one item only.
   */
  lemma WriteEvictsShortestPrefixes(c: Config, s: Store, key: Key, value: Bytes, expiresAt: Option<nat>)
    returns (own: nat, mid: seq<Item>, oldest: nat)
    requires Ordered(s.lru) && StampedBy(s.lru, s.clock)
    ensures var w := Of(Written(s, key, value, expiresAt), key.ns);
            && own <= |w| && Of(mid, key.ns) == w[own..]
            && (forall j :: 0 <= j < own ==> OverBudget(w, j, BudgetOf(c, key.ns)))
    ensures FitsBudget(mid, key.ns, BudgetOf(c, key.ns))
    ensures NotOf(mid, key.ns) == NotOf(Written(s, key, value, expiresAt), key.ns)
    ensures Ordered(mid) && oldest <= |mid| && Put(c, s, key, value, expiresAt).lru == mid[oldest..]
    ensures forall j :: 0 <= j < oldest ==> OverBound(mid, j, TombBytes(s.tombs.live), c.maxMemory)
    ensures var t := Put(c, s, key, value, expiresAt);
            && t.lru != [] && t.lru[|t.lru| - 1] == Item(key, value, expiresAt, s.clock + 1, false, false)
            && (StoreBytes(t) <= c.maxMemory || |t.lru| == 1)
  {
    hide Of, NotOf, EvictOwn, EvictOldest, FitsBudget, BudgetOf, OverBudget, ListBytes, TombBytes, Without;
    var written := Written(s, key, value, expiresAt);
    WrittenOrdered(s, key, value, expiresAt);
    own := EvictOwnShortest(written, key.ns, BudgetOf(c, key.ns));
    EvictOwnKeepsNewest(written, key.ns, BudgetOf(c, key.ns));
    mid := EvictOwn(written, key.ns, BudgetOf(c, key.ns));
    oldest := EvictOldestShortest(mid, TombBytes(s.tombs.live), c.maxMemory);
    assert oldest > 0 ==> OverBound(mid, oldest - 1, TombBytes(s.tombs.live), c.maxMemory);
  }

  /** The value just written is there to be read, whatever the bound. */
  lemma WriteIsKept(c: Config, s: Store, key: Key, value: Bytes, expiresAt: Option<nat>)
    requires Ordered(s.lru) && StampedBy(s.lru, s.clock)
    ensures var t := Put(c, s, key, value, expiresAt);
            && Lookup(t.lru, key) == Some(Item(key, value, expiresAt, s.clock + 1, false, false))
            && Ordered(t.lru) && StampedBy(t.lru, t.clock)
  {
    hide Of, NotOf, EvictOwn, EvictOldest, FitsBudget, BudgetOf, OverBudget, OverBound, ListBytes, TombBytes, Without,
         StoreBytes;
    var own, mid, oldest := WriteEvictsShortestPrefixes(c, s, key, value, expiresAt);
    var t := Put(c, s, key, value, expiresAt);
    WrittenOrdered(s, key, value, expiresAt);
    PutSubset(c, s, key, value, expiresAt);
    LookupUnique(t.lru, t.lru[|t.lru| - 1]);
  }

  lemma {:induction false} EvictOwnSubset(l: seq<Item>, ns: Bytes, budget: Option<nat>)
    ensures forall x :: x in EvictOwn(l, ns, budget) ==> x in l
    decreases |l|
  {
    if !FitsBudget(l, ns, budget) {
      DropsOne(l, ns);
      WithoutSubset(l, Of(l, ns)[0].key);
      EvictOwnSubset(Without(l, Of(l, ns)[0].key), ns, budget);
    }
  }

  lemma {:induction false} WithoutSubset(l: seq<Item>, key: Key)
    ensures forall x :: x in Without(l, key) ==> x in l
  {
    if l != [] && l[0].key != key {
      WithoutSubset(l[1..], key);
    }
  }

  /** A write leaves nothing in the list but items that were there and the one it wrote. */
  lemma PutSubset(c: Config, s: Store, key: Key, value: Bytes, expiresAt: Option<nat>)
    ensures forall x :: x in Put(c, s, key, value, expiresAt).lru ==> x in Written(s, key, value, expiresAt)
    ensures forall x :: x in Put(c, s, key, value, expiresAt).lru && x.key != key ==> x in s.lru
  {
    var written := Written(s, key, value, expiresAt);
    EvictOwnSubset(written, key.ns, BudgetOf(c, key.ns));
    var mid := EvictOwn(written, key.ns, BudgetOf(c, key.ns));
    var k := EvictOldestShortest(mid, TombBytes(s.tombs.live), c.maxMemory);
    WithoutSubset(s.lru, key);
  }

  /** Nothing newer than a survivor is evicted for memory: what goes is older than all that stays. */
  lemma OldestGoFirst(c: Config, s: Store, key: Key, value: Bytes, expiresAt: Option<nat>, gone: Item, kept: Item)
    requires Ordered(s.lru) && StampedBy(s.lru, s.clock)
    requires gone in s.lru && gone.key != key && gone !in Put(c, s, key, value, expiresAt).lru
    requires kept in Put(c, s, key, value, expiresAt).lru
    requires gone.key.ns != key.ns || kept.key.ns == key.ns
    ensures gone.lastUsed < kept.lastUsed
  {
    var own, mid, oldest := WriteEvictsShortestPrefixes(c, s, key, value, expiresAt);
    var written := Written(s, key, value, expiresAt);
    WrittenOrdered(s, key, value, expiresAt);
    WithoutMembers(s.lru, key);
    assert gone in Without(s.lru, key) && gone in written;
    assert kept in mid;
    if gone in mid {
      DroppedAreOlder(mid, oldest, gone, kept);
    } else {
      OfMembers(written, key.ns);
      OfMembers(mid, key.ns);
      OfOrdered(written, key.ns);
      if gone.key.ns != key.ns {
        InNotOf(written, key.ns, gone);
        InNotOf(mid, key.ns, gone);
        assert false;
      } else {
        DroppedAreOlder(Of(written, key.ns), own, gone, kept);
      }
    }
  }

  /** In an ordered list, what a dropped prefix held is older than what is left. */
  lemma DroppedAreOlder(l: seq<Item>, n: nat, gone: Item, kept: Item)
    requires Ordered(l) && n <= |l| && gone in l && gone !in l[n..] && kept in l[n..]
    ensures gone.lastUsed < kept.lastUsed
  {
    assert l == l[..n] + l[n..];
    var i :| 0 <= i < n && l[..n][i] == gone;
    var j :| 0 <= j < |l[n..]| && l[n..][j] == kept;
    assert l[i] == gone && l[n + j] == kept;
  }

  lemma {:induction false} InNotOf(l: seq<Item>, ns: Bytes, x: Item)
    requires x.key.ns != ns
    ensures x in NotOf(l, ns) <==> x in l
  {
    if l != [] {
      InNotOf(l[1..], ns, x);
    }
  }
}
