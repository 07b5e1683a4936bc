/** How far over its memory bound a store can be: writes restore it, and three kinds of upkeep add to it. */
module MemoryBound {
  import opened Basics
  import opened Lru
  import opened StoreSpec
  import opened Eviction
  import opened Tombstones
  import opened NoResurrection
  import opened Reachable
  import opened Sweeping
  import opened ClientLaws
  import Decimal

  // ---- sums over sets ----

  lemma {:induction false} SetSumMonotone<T>(a: set<T>, b: set<T>, f: T -> nat)
    requires a <= b
    ensures SetSum(a, f) <= SetSum(b, f)
    decreases |a|
  {
    if a != {} {
      var x :| x in a;
      SetSumSplit(a, f, x);
      SetSumSplit(b, f, x);
      SetSumMonotone(a - {x}, b - {x}, f);
    }
  }

  lemma SetSumAdd<T>(a: set<T>, x: T, f: T -> nat)
    ensures SetSum(a + {x}, f) == SetSum(a, f) + if x in a then 0 else f(x)
  {
    if x in a {
      assert a + {x} == a;
    } else {
      SetSumSplit(a + {x}, f, x);
      assert a + {x} - {x} == a;
    }
  }

  lemma TombBytesMonotone(a: map<Key, nat>, b: map<Key, nat>)
    requires a.Keys <= b.Keys
    ensures TombBytes(a) <= TombBytes(b)
  {
    SetSumMonotone(a.Keys, b.Keys, TombstoneBytes);
  }

  // ---- what list edits are charged ----

  /** No more bytes and no more items. */
  ghost predicate NoLarger(a: seq<Item>, b: seq<Item>) {
    ListBytes(a) <= ListBytes(b) && |a| <= |b|
  }

  lemma NoLargerFrom(a: seq<Item>, b: seq<Item>)
    requires Cost(a) <= Cost(b) && |a| <= |b|
    requires forall x :: x in a ==> x.key.ns in Names(b)
    ensures NoLarger(a, b)
  {
    hide Cost;
    assert Names(a) <= Names(b);
    SetSumMonotone(Names(a), Names(b), NameCharge);
  }

  lemma RemovalIsSmaller(l: seq<Item>, key: Key)
    requires Ordered(l)
    ensures NoLarger(Without(l, key), l)
  {
    WithoutSubset(l, key);
    WithoutMembers(l, key);
    SumWithout(l, key, ItemCost);
    NoLargerFrom(Without(l, key), l);
  }

  /** Moving an item to the newest end, its expiry and stamp changed, is not charged. */
  lemma PromotionIsFree(l: seq<Item>, key: Key, y: Item)
    requires Ordered(l) && Lookup(l, key).Some? && y.key == key && ItemCost(y) == ItemCost(Lookup(l, key).value)
    ensures NoLarger(Without(l, key) + [y], l)
  {
    hide Ordered, Without, Lookup, ItemCost;
    WithoutMembers(l, key);
    LookupMember(l, key);
    CostWithout(l, key);
    CostAppend(Without(l, key), y);
    assert key.ns in Names(l);
    NoLargerFrom(Without(l, key) + [y], l);
  }

  /** Editing an item in its place changes the bytes by the difference in what it is charged. */
  lemma EditBytes(l: seq<Item>, x: Item)
    requires Ordered(l) && Lookup(l, x.key).Some? && Lookup(l, x.key).value.lastUsed == x.lastUsed
    ensures ListBytes(Replace(l, x)) + ItemCost(Lookup(l, x.key).value) == ListBytes(l) + ItemCost(x)
    ensures |Replace(l, x)| == |l|
  {
    hide Ordered, Replace, Lookup, ItemCost;
    ReplaceNames(l, x);
    ReplaceMembers(l, x);
    CostReplace(l, x);
  }

  lemma NotOfIsSmaller(l: seq<Item>, ns: Bytes)
    requires Ordered(l)
    ensures NoLarger(NotOf(l, ns), l)
  {
    NotOfMembers(l, ns);
    NotOfCost(l, ns);
    NoLargerFrom(NotOf(l, ns), l);
  }

  lemma {:induction false} NotOfCost(l: seq<Item>, ns: Bytes)
    ensures Cost(NotOf(l, ns)) <= Cost(l) && |NotOf(l, ns)| <= |l|
  {
    if l != [] {
      NotOfCost(l[1..], ns);
      if l[0].key.ns != ns {
        assert NotOf(l, ns)[1..] == NotOf(l[1..], ns);
      }
    }
  }

  lemma UnmarkIsSmaller(l: seq<Item>, key: Key)
    requires Ordered(l)
    ensures NoLarger(Unmark(l, key), l)
  {
    LookupMember(l, key);
    if Lookup(l, key).Some? {
      EditBytes(l, Lookup(l, key).value.(marked := false));
    }
  }

  // ---- what each operation adds ----

  /** What marking adds: a mark's charge, the first time, for a key that is there. */
  lemma MarkAdds(s: Store, key: Key)
    requires Listed(s)
    ensures StoreBytes(Mark(s, key)) == StoreBytes(s) + MarkAdded(s, key) && |Mark(s, key).lru| == |s.lru|
  {
    hide ListBytes, Replace, Ordered;
    LookupMember(s.lru, key);
    if Lookup(s.lru, key).Some? {
      EditBytes(s.lru, Lookup(s.lru, key).value.(marked := true));
    }
  }

  function MarkAdded(s: Store, key: Key): nat {
    match Lookup(s.lru, key)
    case None => 0
    case Some(x) => if x.marked then 0 else MarkCharge(key.name)
  }

  /** What a conditional operation adds by keeping a large value's digest. */
  function DigestAdded(s: Store, key: Key, cond: Condition, now: nat): nat {
    match Lookup(s.lru, key)
    case None => 0
    case Some(x) =>
      if !cond.Matches? || Expired(x.expiresAt, now) || |x.value| < DIGEST_CACHE_MIN_VALUE_BYTES || x.digested then 0
      else DigestCharge(key.name)
  }

  /** Deciding a condition adds the digest it keeps; an entry past its TTL goes, and gives back what it was charged. */
  lemma ConditionAdds(c: Config, s: Store, key: Key, cond: Condition, now: nat)
    requires Listed(s)
    ensures var t := Holds(c, s, key, cond, now).0;
            && t.tombs == s.tombs && |t.lru| <= |s.lru|
            && StoreBytes(t) <= StoreBytes(s) + DigestAdded(s, key, cond, now)
            && (!(Lookup(s.lru, key).Some? && Expired(Lookup(s.lru, key).value.expiresAt, now)) ==>
                StoreBytes(t) == StoreBytes(s) + DigestAdded(s, key, cond, now))
  {
    hide ListBytes, Replace, Ordered, Without;
    LookupMember(s.lru, key);
    RemovalIsSmaller(s.lru, key);
    LookupWithoutSame(s.lru, key);
    var t := ExpireLazily(s, key, now);
    if Lookup(t.lru, key).Some? {
      EditBytes(t.lru, Lookup(t.lru, key).value.(digested := true));
    }
  }

  /** What a handoff delete adds: a tombstone's charge for a key that had none once room was made. */
  lemma BurialAdds(t: Tombs, key: Key, now: nat)
    requires Queued(t)
    ensures TombBytes(Bury(t, key, now).live) ==
            TombBytes(Roomy(t, now).live) + (if key in Roomy(t, now).live then 0 else TombstoneBytes(key))
    ensures TombBytes(Bury(t, key, now).live) <= TombBytes(t.live) + (if key in t.live then 0 else TombstoneBytes(key))
  {
    hide Prune, ForgetOldest, LiveStamps, SetSum, Queued;
    var r := Roomy(t, now).live;
    assert Bury(t, key, now).live == r[key := now];
    assert r[key := now].Keys == r.Keys + {key};
    SetSumAdd(r.Keys, key, TombstoneBytes);
    RoomyKeys(t, now);
    SetSumAdd(t.live.Keys, key, TombstoneBytes);
    SetSumMonotone(r.Keys + {key}, t.live.Keys + {key}, TombstoneBytes);
  }

  lemma RoomyKeys(t: Tombs, now: nat)
    requires Queued(t)
    ensures Roomy(t, now).live.Keys <= t.live.Keys
  {
    PruneKeepsQueued(t, now);
    PruneDropsPrefix(t, now);
    ForgetOldestDropsOne(Prune(t, now));
  }

  /** With no tombstone to expire and room for one more, a handoff delete of an absent key adds exactly one. */
  lemma HandoffDeleteAdds(s: Store, key: Key, now: nat)
    requires Lookup(s.lru, key).None? && key !in s.tombs.live && Prune(s.tombs, now) == s.tombs
    requires |s.tombs.live| < MAX_HANDOFF_TOMBSTONES && Queued(s.tombs)
    ensures StoreBytes(HandoffDelete(s, key, now).0) == StoreBytes(s) + TombstoneBytes(key)
  {
    hide ListBytes, TombBytes, Lookup, Bury, Prune;
    WithoutAbsent(s.lru, key);
    BurialAdds(s.tombs, key, now);
  }

  // ---- every operation ----

  /** `t` is at most `added` bytes larger than `s` and has no more items. */
  ghost predicate Within(t: Store, s: Store, added: nat) {
    StoreBytes(t) <= StoreBytes(s) + added && |t.lru| <= |s.lru|
  }

  lemma SmallerIsWithin(t: Store, s: Store)
    requires NoLarger(t.lru, s.lru) && t.tombs.live.Keys <= s.tombs.live.Keys
    ensures Within(t, s, 0)
  {
    TombBytesMonotone(t.tombs.live, s.tombs.live);
  }

  lemma GetIsFree(s: Store, key: Key, now: nat)
    requires Listed(s)
    ensures Within(Get(s, key, now).0, s, 0)
  {
    hide NoLarger, Within, Without, ListBytes, StoreBytes;
    RemovalIsSmaller(s.lru, key);
    LookupMember(s.lru, key);
    SameIsNoLarger(s.lru);
    if Lookup(s.lru, key).Some? {
      PromotionIsFree(s.lru, key, Lookup(s.lru, key).value.(lastUsed := s.clock + 1));
    }
    SmallerIsWithin(Get(s, key, now).0, s);
  }

  lemma SameIsNoLarger(l: seq<Item>)
    ensures NoLarger(l, l)
  {
  }

  lemma TouchIsFree(c: Config, s: Store, key: Key, ttl: Option<nat>, promote: bool, now: nat)
    requires Listed(s)
    ensures Within(Touch(c, s, key, ttl, promote, now).0, s, 0)
  {
    hide Within, Without, Replace, ListBytes, StoreBytes;
    RemovalIsSmaller(s.lru, key);
    LookupMember(s.lru, key);
    if Lookup(s.lru, key).Some? {
      var x := Lookup(s.lru, key).value;
      PromotionIsFree(s.lru, key, x.(expiresAt := Expiry(c, now, ttl), lastUsed := s.clock + 1));
      EditBytes(s.lru, x.(expiresAt := Expiry(c, now, ttl)));
    }
    SmallerIsWithin(Touch(c, s, key, ttl, promote, now).0, s);
  }

  lemma {:induction false} GetManyIsFree(b: Batch, ns: Bytes, names: seq<Bytes>, cap: nat, now: nat)
    requires Listed(b.store)
    ensures Within(GetMany(b, ns, names, cap, now).store, b.store, 0)
    decreases |names|
  {
    if names != [] {
      hide Get, StoreBytes, Listed;
      GetListed(b.store, Key(ns, names[0]), now);
      GetIsFree(b.store, Key(ns, names[0]), now);
      var b' := GetNext(b, Key(ns, names[0]), cap, now);
      assert b'.store == b.store || b'.store == Get(b.store, Key(ns, names[0]), now).0;
      GetManyIsFree(b', ns, names[1..], cap, now);
    }
  }

  lemma {:induction false} TouchManyIsFree(c: Config, b: Batch, ns: Bytes, names: seq<Bytes>, ttl: Option<nat>,
                                           promote: bool, cap: Option<nat>, now: nat)
    requires Listed(b.store)
    ensures Within(TouchMany(c, b, ns, names, ttl, promote, cap, now).store, b.store, 0)
    decreases |names|
  {
    if names != [] {
      hide Touch, StoreBytes, Listed;
      var b' := TouchNext(c, b, Key(ns, names[0]), ttl, promote, cap, now);
      TouchListed(c, b.store, Key(ns, names[0]), ttl, promote, now);
      TouchIsFree(c, b.store, Key(ns, names[0]), ttl, promote, now);
      TouchManyIsFree(c, b', ns, names[1..], ttl, promote, cap, now);
    }
  }

  lemma {:induction false} UnmarkAllIsFree(s: Store, keys: seq<Key>)
    requires Listed(s)
    ensures NoLarger(UnmarkAll(s.lru, keys), s.lru)
    decreases |keys|
  {
    if keys != [] {
      hide Unmark, ListBytes, Listed;
      UnmarkListed(s, keys[0]);
      assert Ordered(s.lru) by { ListedOrdered(s); }
      UnmarkIsSmaller(s.lru, keys[0]);
      UnmarkAllIsFree(s.(lru := Unmark(s.lru, keys[0])), keys[1..]);
    }
  }

  lemma ListedOrdered(s: Store)
    requires Listed(s)
    ensures Ordered(s.lru) && StampedBy(s.lru, s.clock)
  {
  }

  lemma {:induction false} ReclaimIsFree(s: Store, keys: seq<Key>, owned: Key -> bool)
    requires Listed(s)
    ensures Within(ReclaimAll(s, keys, owned).0, s, 0)
    decreases |keys|
  {
    if keys != [] {
      hide Without, ListBytes, StoreBytes, Listed, NoLarger, Ordered;
      ListedOrdered(s);
      var t := s.(lru := Without(s.lru, keys[0]), tombs := s.tombs.(live := s.tombs.live - {keys[0]}));
      RemovalListed(s, keys[0]);
      TombsDoNotMatter(t, s.(lru := Without(s.lru, keys[0])));
      RemovalIsSmaller(s.lru, keys[0]);
      SmallerIsWithin(t, s);
      ReclaimIsFree(if Lookup(s.lru, keys[0]).Some? && !owned(keys[0]) then t else s, keys[1..], owned);
    }
  }

  lemma TombsDoNotMatter(t: Store, s: Store)
    requires Listed(s) && t.lru == s.lru && t.clock == s.clock
    ensures Listed(t)
  {
  }

  lemma SweepOneIsFree(s: Store, key: Key, includeMarked: bool, owned: Option<Key -> bool>, now: nat)
    requires Listed(s)
    ensures Within(SweepOne(s, key, includeMarked, owned, now).0, s, 0)
  {
    hide Within, Without, Unmark, ListBytes, StoreBytes, NoLarger;
    RemovalIsSmaller(s.lru, key);
    UnmarkIsSmaller(s.lru, key);
    SameIsNoLarger(s.lru);
    SmallerIsWithin(SweepOne(s, key, includeMarked, owned, now).0, s);
  }

  lemma {:induction false} SweepIsFree(s: Store, budget: nat, includeMarked: bool, owned: Option<Key -> bool>, now: nat)
    requires Listed(s)
    ensures Within(SweepSome(s, budget, includeMarked, owned, now).0, s, 0)
    decreases budget
  {
    if budget > 0 && s.pending != [] {
      hide SweepOne, ListBytes, Listed, TombBytes;
      var s' := s.(pending := s.pending[1..]);
      TombsDoNotMatter(s', s);
      SweepOneIsFree(s', s.pending[0], includeMarked, owned, now);
      OneListed(s', s.pending[0], includeMarked, owned, now);
      SweepIsFree(SweepOne(s', s.pending[0], includeMarked, owned, now).0, budget - 1, includeMarked, owned, now);
    }
  }

  lemma HandoffDeleteWithin(s: Store, key: Key, now: nat)
    requires Sound(s)
    ensures Within(HandoffDelete(s, key, now).0, s, if key in s.tombs.live then 0 else TombstoneBytes(key))
  {
    hide ListBytes, TombBytes, Without, Bury;
    RemovalIsSmaller(s.lru, key);
    BurialAdds(s.tombs, key, now);
  }

  /** Whether the operation wrote an entry, and so enforced the bound: for most, what it answers tells. */
  ghost predicate Wrote(op: Op, answer: Answer) {
    match op
    case Setting(_, _, _) => true
    case SettingMany(_, items, _) => items != []
    case CasSetting(_, _, _, _) => answer == Flag(true)
    case Incrementing(_, _) => answer.Counter? && answer.counter.Counted?
    case HandingOff(_, _, ttl, _) => ttl != Some(0)
    case HandingOffIfAbsent(_, _, _, _) => answer == Flag(true)
    case _ => false
  }

  /** The charges an operation that wrote nothing adds: a mark, a kept digest or a tombstone. */
  function Added(s: Store, op: Op, now: nat): nat {
    match op
    case Marking(key) => MarkAdded(s, key)
    case CasSetting(key, cond, _, _) => DigestAdded(s, key, cond, now)
    case CasDeleting(key, digest) => DigestAdded(s, key, Matches(digest), now)
    case _ =>
      if Buries(op).Some? && Buries(op).value !in s.tombs.live then TombstoneBytes(Buries(op).value) else 0
  }

  ghost predicate Fits(c: Config, s: Store) {
    StoreBytes(s) <= c.maxMemory || |s.lru| <= 1
  }

  lemma PutFits(c: Config, s: Store, key: Key, value: Bytes, expiresAt: Option<nat>)
    requires Listed(s)
    ensures Fits(c, Put(c, s, key, value, expiresAt))
  {
    var own, mid, oldest := WriteEvictsShortestPrefixes(c, s, key, value, expiresAt);
  }

  lemma {:induction false} SetManyFits(c: Config, s: Store, ns: Bytes, items: seq<Pair>, expiresAt: Option<nat>)
    requires Listed(s) && items != []
    ensures Fits(c, SetMany(c, s, ns, items, expiresAt))
    decreases |items|
  {
    hide Put, Listed, Fits;
    var t := Put(c, s, Key(ns, items[0].name), items[0].value, expiresAt);
    PutFits(c, s, Key(ns, items[0].name), items[0].value, expiresAt);
    if |items| > 1 {
      SetManyListed(c, s, ns, items[..1], expiresAt);
      assert items[..1][1..] == [];
      assert SetMany(c, s, ns, items[..1], expiresAt) == SetMany(c, t, ns, [], expiresAt);
      SetManyFits(c, t, ns, items[1..], expiresAt);
    } else {
      assert items[1..] == [];
    }
  }

  /** What one operation must come to. */
  ghost predicate Bounded(c: Config, s: Store, op: Op, now: nat) {
    var (t, answer) := Apply(c, s, op, now);
    if Wrote(op, answer) then Fits(c, t) else Within(t, s, Added(s, op, now))
  }

  lemma ClientBound(c: Config, s: Store, op: Op, now: nat)
    requires Sound(s)
    requires op.Setting? || op.Getting? || op.Touching? || op.Deleting? || op.Incrementing? || op.CasSetting?
             || op.CasDeleting? || op.Clearing? || op.ClearingAll?
    ensures Bounded(c, s, op, now)
  {
    hide Put, Get, Touch, Incr, Holds, Without, Fits, ListBytes, TombBytes, DigestAdded, Lookup;
    match op
    case Setting(key, value, ttl) => PutFits(c, s, key, value, Expiry(c, now, ttl));
    case Getting(key) => GetIsFree(s, key, now);
    case Touching(key, ttl, promote) => TouchIsFree(c, s, key, ttl, promote, now);
    case Deleting(key) => RemovalIsSmaller(s.lru, key);
    case Incrementing(key, delta) => IncrBound(c, s, key, delta, now);
    case CasSetting(key, cond, value, ttl) =>
      ConditionAdds(c, s, key, cond, now);
      HoldsListed(c, s, key, cond, now);
      PutFits(c, Holds(c, s, key, cond, now).0, key, value, Expiry(c, now, ttl));
    case CasDeleting(key, digest) =>
      ConditionAdds(c, s, key, Matches(digest), now);
      HoldsListed(c, s, key, Matches(digest), now);
      RemovalIsSmaller(Holds(c, s, key, Matches(digest), now).0.lru, key);
    case Clearing(ns) => NotOfIsSmaller(s.lru, ns);
    case ClearingAll => EmptyIsSmallest(s);
  }

  lemma BatchBound(c: Config, s: Store, op: Op, now: nat)
    requires Sound(s) && (op.SettingMany? || op.GettingMany? || op.TouchingMany?)
    ensures Bounded(c, s, op, now)
  {
    hide SetMany, GetMany, TouchMany, Fits, Within;
    match op
    case SettingMany(ns, items, ttl) =>
      if items != [] {
        SetManyFits(c, s, ns, items, Expiry(c, now, ttl));
      } else {
        SetManyOfNone(c, s, ns, Expiry(c, now, ttl));
        NothingAdded(s);
      }
    case GettingMany(ns, names, limit) => GetManyIsFree(Begin(s), ns, names, limit, now);
    case TouchingMany(ns, names, ttl, promote, cap) => TouchManyIsFree(c, Begin(s), ns, names, ttl, promote, cap, now);
  }

  lemma NothingAdded(s: Store)
    ensures Within(s, s, 0)
  {
  }

  lemma UpkeepBound(c: Config, s: Store, op: Op, now: nat)
    requires Sound(s)
    requires op.HandingOff? || op.HandingOffIfAbsent? || op.HandingOffDelete? || op.Reclaiming? || op.Marking?
             || op.Unmarking? || op.Sweeping?
    ensures Bounded(c, s, op, now)
  {
    hide Put, Holds, Delete, Bury, ReclaimAll, Sweep, UnmarkAll, Mark, Fits, ListBytes, TombBytes, MarkAdded,
         DigestAdded,
         Lookup;
    match op
    case HandingOff(key, value, ttl, ahead) =>
      var t := NoteHandoff(s, ahead, now);
      HandoffDeleteWithin(t, key, now);
      PutFits(c, t, key, value, Expiry(c, now, ttl));
    case HandingOffIfAbsent(key, value, ttl, ahead) =>
      var t := NoteHandoff(s, ahead, now);
      ConditionAdds(c, t, key, Absent, now);
      NoDigestForAbsent(t, key, now);
      HoldsListed(c, t, key, Absent, now);
      PutFits(c, Holds(c, t, key, Absent, now).0, key, value, Expiry(c, now, ttl));
    case HandingOffDelete(key) => HandoffDeleteWithin(s, key, now);
    case Reclaiming(keys, mine, quiet) => ReclaimIsFree(s, keys, mine);
    case Marking(key) => MarkAdds(s, key);
    case Unmarking(keys) => UnmarkAllIsFree(s, keys);
    case Sweeping(refill, includeMarked, owned) => SweepWithin(s, refill, includeMarked, owned, now);
  }

  /** One operation: a write ends within the bound or with one item, and anything else adds no more than its charges. */
  lemma StepBound(c: Config, s: Store, op: Op, now: nat)
    requires Sound(s)
    ensures var (t, answer) := Apply(c, s, op, now);
            if Wrote(op, answer) then Fits(c, t) else Within(t, s, Added(s, op, now))
  {
    hide Apply, Wrote, Fits, Within, Added, Sound;
    if op.SettingMany? || op.GettingMany? || op.TouchingMany? {
      BatchBound(c, s, op, now);
    } else if op.HandingOff? || op.HandingOffIfAbsent? || op.HandingOffDelete? || op.Reclaiming? || op.Marking?
              || op.Unmarking? || op.Sweeping? {
      UpkeepBound(c, s, op, now);
    } else {
      ClientBound(c, s, op, now);
    }
    assert Bounded(c, s, op, now);
  }

  lemma SetManyOfNone(c: Config, s: Store, ns: Bytes, expiresAt: Option<nat>)
    ensures SetMany(c, s, ns, [], expiresAt) == s
  {
  }

  lemma NoDigestForAbsent(s: Store, key: Key, now: nat)
    ensures DigestAdded(s, key, Absent, now) == 0
  {
  }

  lemma EmptyIsSmallest(s: Store)
    ensures Within(ClearAll(s).0, s, 0)
  {
    NoLargerFrom([], s.lru);
    SmallerIsWithin(ClearAll(s).0, s);
  }

  lemma IncrBound(c: Config, s: Store, key: Key, delta: int, now: nat)
    requires Listed(s)
    ensures var (t, r) := Incr(c, s, key, delta, now); if r.Counted? then Fits(c, t) else Within(t, s, 0)
  {
    hide Put, Fits, ListBytes, TombBytes, Without;
    RemovalIsSmaller(s.lru, key);
    match Lookup(s.lru, key)
    case None =>
    case Some(x) =>
      match Decimal.ParseI64(x.value)
      case None =>
      case Some(current) => PutFits(c, s, key, Decimal.PrintInt(current + delta), x.expiresAt);
  }

  lemma SweepWithin(s: Store, refill: seq<Key>, includeMarked: bool, owned: Option<Key -> bool>, now: nat)
    requires Listed(s)
    ensures Within(Sweep(s, refill, includeMarked, owned, now).0, s, 0)
  {
    hide SweepSome, Prune, ListBytes, TombBytes, Listed;
    var t := s.(tombs := Prune(s.tombs, now), pending := if s.pending == [] then refill else s.pending);
    TombsDoNotMatter(t, s);
    PruneDropsPrefix(s.tombs, now);
    TombBytesMonotone(t.tombs.live, s.tombs.live);
    SweepIsFree(t, SWEEP_BUDGET, includeMarked, owned, now);
  }

  // ---- every run ----

  /** The marks, kept digests and tombstones charged since the last write of a run from an empty store. */
  ghost function Owed(c: Config, calls: seq<Call>): nat
    decreases |calls|
  {
    if calls == [] then 0
    else
      var before, last := calls[..|calls| - 1], calls[|calls| - 1];
      var s := After(c, EMPTY, before);
      if Wrote(last.op, Apply(c, s, last.op, last.now).1) then 0
      else Owed(c, before) + Added(s, last.op, last.now)
  }

  /**
   Over every run: the store is over its bound by no more than the marks, kept digests and tombstones
   charged since the last write, unless no more than one item is left.
   */
  lemma {:induction false} ExcessOverRuns(c: Config, calls: seq<Call>)
    ensures StoreBytes(After(c, EMPTY, calls)) <= c.maxMemory + Owed(c, calls) || |After(c, EMPTY, calls).lru| <= 1
    decreases |calls|
  {
    if calls != [] {
      hide Apply, Wrote, Added, Sound, ListBytes, TombBytes;
      var before, last := calls[..|calls| - 1], calls[|calls| - 1];
      ExcessOverRuns(c, before);
      EveryRunIsSound(c, before);
      StepBound(c, After(c, EMPTY, before), last.op, last.now);
    }
  }

  // ---- the bound is passed ----

  /** A write for which there is room evicts nothing. */
  lemma WriteFits(c: Config, s: Store, key: Key, value: Bytes, expiresAt: Option<nat>)
    requires Lookup(s.lru, key).None? && BudgetOf(c, key.ns).None?
    requires ListBytes(Written(s, key, value, expiresAt)) + TombBytes(s.tombs.live) <= c.maxMemory
    ensures Put(c, s, key, value, expiresAt) ==
            s.(lru := s.lru + [Item(key, value, expiresAt, s.clock + 1, false, false)], clock := s.clock + 1)
  {
    hide ListBytes, TombBytes, Lookup, BudgetOf, Without, Of;
    WithoutAbsent(s.lru, key);
  }

  /** An item more is charged more, and with its mark more still. */
  lemma AppendedBytes(l: seq<Item>, x: Item)
    requires !x.marked
    ensures ListBytes(l) <= ListBytes(l + [x])
    ensures ListBytes(l + [x.(marked := true)]) == ListBytes(l + [x]) + MarkCharge(x.key.name)
  {
    var y := x.(marked := true);
    hide Names;
    CostAppend(l, x);
    CostAppend(l, y);
    AppendedNames(l, x);
    AppendedNames(l, y);
    SetSumAdd(Names(l), x.key.ns, NameCharge);
  }

  lemma AppendedNames(l: seq<Item>, x: Item)
    ensures Names(l + [x]) == Names(l) + {x.key.ns}
  {
    assert forall y :: y in l + [x] <==> y in l || y == x;
    assert x in l + [x];
  }

  function TwoItems(a: Key, b: Key): seq<Item> {
    [Item(a, [], None, 1, false, false), Item(b, [], None, 2, false, false)]
  }

  /** Two keys written and the second marked. */
  function OverrunCalls(a: Key, b: Key, now: nat): seq<Call> {
    [Call(Setting(a, [], None), now), Call(Setting(b, [], None), now), Call(Marking(b), now)]
  }

  /**
   A mark can push the store over its bound with two items in it: with room for the two entries but not for
   the mark as well, it does, and nothing is evicted until the next write.
   */
  lemma MarkPassesBound(c: Config, a: Key, b: Key, now: nat)
    requires a != b && BudgetOf(c, a.ns).None? && BudgetOf(c, b.ns).None?
    requires ListBytes(TwoItems(a, b)) <= c.maxMemory
    ensures var s := After(c, EMPTY, OverrunCalls(a, b, now));
            && |s.lru| == 2 && StoreBytes(s) == ListBytes(TwoItems(a, b)) + MarkCharge(b.name)
            && (StoreBytes(s) <= c.maxMemory <==> ListBytes(TwoItems(a, b)) + MarkCharge(b.name) <= c.maxMemory)
  {
    hide ListBytes, Put, BudgetOf, After, Mark;
    var x, y := TwoItems(a, b)[0], TwoItems(a, b)[1];
    var one, two := EMPTY.(lru := [x], clock := 1), EMPTY.(lru := [x, y], clock := 2);
    AppendedBytes([x], y);
    assert [x] + [y] == [x, y] == TwoItems(a, b) && EMPTY.lru + [x] == [x];
    assert [x, y][1..] == [y] && Lookup([y], b) == Some(y) && Lookup([x, y], b) == Some(y);
    assert Lookup([x], b) == None;
    assert TombBytes(map[]) == 0;
    WriteHasRoom(c, EMPTY, a, now);
    WriteHasRoom(c, one, b, now);
    MarkAdds(two, b);
    OneCall(c, EMPTY, Call(Setting(a, [], None), now));
    TwoCalls(c, EMPTY, [Call(Setting(a, [], None), now)], Call(Setting(b, [], None), now), Call(Marking(b), now));
    assert OverrunCalls(a, b, now) == [Call(Setting(a, [], None), now)] + [Call(Setting(b, [], None), now)]
                                      + [Call(Marking(b), now)];
  }

  lemma WriteHasRoom(c: Config, s: Store, key: Key, now: nat)
    requires Lookup(s.lru, key).None? && BudgetOf(c, key.ns).None? && s.tombs.live == map[]
    requires ListBytes(s.lru + [Item(key, [], None, s.clock + 1, false, false)]) <= c.maxMemory
    ensures Apply(c, s, Setting(key, [], None), now).0 ==
            s.(lru := s.lru + [Item(key, [], None, s.clock + 1, false, false)], clock := s.clock + 1)
  {
    hide ListBytes, Put, BudgetOf;
    WithoutAbsent(s.lru, key);
    assert TombBytes(s.tombs.live) == 0;
    WriteFits(c, s, key, [], None);
  }

  // ---- the charges in bytes ----

  /** What one entry is charged: its name and value and 180 bytes, and a named namespace its name and 750. */
  lemma OneEntryBytes(c: Config, key: Key, value: Bytes, ttl: Option<nat>, now: nat)
    ensures var s := Apply(c, EMPTY, Setting(key, value, ttl), now).0;
            && s.lru == [Item(key, value, Expiry(c, now, ttl), 1, false, false)]
            && StoreBytes(s) == |key.name| + |value| + 180 + (if key.ns == [] then 0 else |key.ns| + 750)
  {
    var x := Item(key, value, Expiry(c, now, ttl), 1, false, false);
    var s := Apply(c, EMPTY, Setting(key, value, ttl), now).0;
    assert s.lru == [x] by { LoneWrite(c, key, value, Expiry(c, now, ttl)); }
    CostAppend([], x);
    assert [] + [x] == [x];
    assert Names([x]) == {} + {key.ns};
    SetSumAdd({}, key.ns, NameCharge);
    assert TombBytes(map[]) == 0;
  }

  lemma LoneWrite(c: Config, key: Key, value: Bytes, expiresAt: Option<nat>)
    ensures Put(c, EMPTY, key, value, expiresAt).lru == [Item(key, value, expiresAt, 1, false, false)]
  {
    hide Put, Of, NotOf, OverBudget, OverBound, FitsBudget, StoreBytes;
    var own, mid, oldest := WriteEvictsShortestPrefixes(c, EMPTY, key, value, expiresAt);
    var t := Put(c, EMPTY, key, value, expiresAt);
    PutSubset(c, EMPTY, key, value, expiresAt);
    var x := Item(key, value, expiresAt, 1, false, false);
    assert forall y :: y in t.lru ==> y == x;
    WriteIsKept(c, EMPTY, key, value, expiresAt);
    OneOnly(t.lru, x);
  }

  lemma OneOnly(l: seq<Item>, x: Item)
    requires Ordered(l) && forall y :: y in l ==> y == x
    ensures |l| <= 1
  {
    var second := if |l| > 1 then l[1] else x;
    assert |l| > 1 ==> l[0].lastUsed < second.lastUsed;
    assert |l| > 1 ==> second in l;
    assert l != [] ==> l[0] in l;
  }

  /** A mark is charged the name and 80 bytes, a kept digest the name and 128. */
  lemma ExtraBytes(c: Config, s: Store, key: Key, i: nat, digest: Bytes, now: nat)
    requires Listed(s) && i < |s.lru| && s.lru[i].key == key && Alive(s.lru[i], now)
    ensures !s.lru[i].marked ==> StoreBytes(Mark(s, key)) == StoreBytes(s) + |key.name| + 80
    ensures !s.lru[i].digested && |s.lru[i].value| >= 4096 ==>
              StoreBytes(Holds(c, s, key, Matches(digest), now).0) == StoreBytes(s) + |key.name| + 128
  {
    hide StoreBytes, Mark, Holds, Lookup;
    LookupAt(s.lru, i);
    MarkAdds(s, key);
    ConditionAdds(c, s, key, Matches(digest), now);
  }

  /** A tombstone is charged both names and 250 bytes. */
  lemma TombstoneChargedBytes(key: Key, now: nat)
    ensures StoreBytes(HandoffDelete(EMPTY, key, now).0) == |key.ns| + |key.name| + 250
  {
    hide StoreBytes, HandoffDelete;
    HandoffDeleteAdds(EMPTY, key, now);
    NothingCharged();
  }

  lemma NothingCharged()
    ensures StoreBytes(EMPTY) == 0
  {
  }
}
