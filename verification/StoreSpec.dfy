/**
 The cache as one least-recently-used list: what every operation of the store
 answers and leaves behind, with no per-namespace lists, no heap of tails and no
 byte counters. `Cache` refines this; the theorems about whole runs are proved here.
 */
module StoreSpec {
  import opened Basics
  import opened Lru
  import Decimal

  const SWEEP_BUDGET: nat := 2000
  const DIGEST_CACHE_MIN_VALUE_BYTES: nat := 4096
  const HANDOFF_TOMBSTONE_TTL: nat := 120_000_000_000
  const MAX_HANDOFF_TOMBSTONES: nat := 65536

  /** What never changes after construction. `horizon` is the last representable instant. */
  datatype Config = Config(maxMemory: nat, budgets: map<Bytes, nat>, horizon: nat, digest: Bytes -> Bytes)

  /** A handoff delete in the order queue. */
  datatype Stamp = Stamp(at: nat, key: Key)

  /** Handoff tombstones: the live ones, and the queue they expire by (possibly holding stale stamps). */
  datatype Tombs = Tombs(live: map<Key, nat>, order: seq<Stamp>)

  datatype Store = Store(
    lru: seq<Item>,
    clock: nat,
    tombs: Tombs,
    pending: seq<Key>,
    lastHandoff: Option<nat>,
    handoffWrites: nat)

  datatype Touched = Touched(value: Bytes, remaining: Option<nat>)

  datatype Condition = Absent | Present | Matches(digest: Bytes)

  datatype IncrResult = Counted(value: int, remaining: Option<nat>) | NotFound | NotNumeric

  // ---- what is charged ----

  ghost function ListBytes(l: seq<Item>): nat {
    Cost(l) + NameBytes(Names(l))
  }

  ghost function TombBytes(live: map<Key, nat>): nat {
    SetSum(live.Keys, TombstoneBytes)
  }

  /** Everything charged to the memory bound. */
  ghost function StoreBytes(s: Store): nat {
    ListBytes(s.lru) + TombBytes(s.tombs.live)
  }

  // ---- time ----

  /** When something written at `now` with this TTL expires; a TTL past the horizon never does. */
  function Expiry(c: Config, now: nat, ttl: Option<nat>): Option<nat> {
    if ttl.Some? && now + ttl.value <= c.horizon then Some(now + ttl.value) else None
  }

  function Remaining(expiresAt: Option<nat>, now: nat): Option<nat> {
    match expiresAt
    case None => None
    case Some(at) => Some(SaturatingSub(at, now))
  }

  // ---- eviction ----

  function BudgetOf(c: Config, ns: Bytes): Option<nat> {
    if ns in c.budgets then Some(c.budgets[ns]) else None
  }

  predicate FitsBudget(l: seq<Item>, ns: Bytes, budget: Option<nat>) {
    budget.None? || Cost(Of(l, ns)) <= budget.value || |Of(l, ns)| <= 1
  }

  lemma DropsOne(l: seq<Item>, ns: Bytes)
    requires Of(l, ns) != []
    ensures |Without(l, Of(l, ns)[0].key)| < |l|
  {
    OfMembers(l, ns);
    LookupMember(l, Of(l, ns)[0].key);
    SumWithout(l, Of(l, ns)[0].key, (x: Item) => 1);
    CountIsLength(l);
    CountIsLength(Without(l, Of(l, ns)[0].key));
  }

  lemma {:induction false} CountIsLength(l: seq<Item>)
    ensures Sum(l, (x: Item) => 1) == |l|
  {
    if l != [] {
      CountIsLength(l[1..]);
    }
  }

  /** A namespace over its budget loses its own oldest items, down to one. */
  function EvictOwn(l: seq<Item>, ns: Bytes, budget: Option<nat>): seq<Item>
    decreases |l|
  {
    if FitsBudget(l, ns, budget) then l
    else
      DropsOne(l, ns);
      EvictOwn(Without(l, Of(l, ns)[0].key), ns, budget)
  }

  /** Fitting a namespace to its budget leaves the list's newest item, if it is that namespace's, where it is. */
  lemma {:induction false} EvictOwnKeepsNewest(l: seq<Item>, ns: Bytes, budget: Option<nat>)
    requires l != [] && Ordered(l) && l[|l| - 1].key.ns == ns
    ensures var r := EvictOwn(l, ns, budget); r != [] && r[|r| - 1] == l[|l| - 1] && Ordered(r)
    decreases |l|
  {
    if !FitsBudget(l, ns, budget) {
      hide Ordered, Without;
      DropsOne(l, ns);
      OldestIsNotNewest(l, ns);
      WithoutMembers(l, Of(l, ns)[0].key);
      WithoutKeepsLast(l, Of(l, ns)[0].key);
      EvictOwnKeepsNewest(Without(l, Of(l, ns)[0].key), ns, budget);
    }
  }

  lemma OldestIsNotNewest(l: seq<Item>, ns: Bytes)
    requires l != [] && Ordered(l) && |Of(l, ns)| > 1
    ensures Of(l, ns)[0].key != l[|l| - 1].key
  {
    OfOrdered(l, ns);
    OfMembers(l, ns);
    var first, second := Of(l, ns)[0], Of(l, ns)[1];
    assert first in l && second in l && first.lastUsed < second.lastUsed;
    LookupUnique(l, first);
    LookupUnique(l, l[|l| - 1]);
  }

  lemma {:induction false} WithoutKeepsLast(l: seq<Item>, key: Key)
    requires l != [] && l[|l| - 1].key != key
    ensures var r := Without(l, key); r != [] && r[|r| - 1] == l[|l| - 1]
  {
    if |l| > 1 && l[0].key != key {
      WithoutKeepsLast(l[1..], key);
    }
  }

  /** A list over the bound (with `extra` charged beside it) loses its oldest items, down to one. */
  ghost function EvictOldest(l: seq<Item>, extra: nat, bound: nat): seq<Item> {
    if ListBytes(l) + extra <= bound || |l| <= 1 then l
    else EvictOldest(l[1..], extra, bound)
  }

  // ---- client operations ----

  /** Any write: the item becomes the newest, unmarked and with no kept digest; then evictions. */
  ghost function Put(c: Config, s: Store, key: Key, value: Bytes, expiresAt: Option<nat>): Store {
    var written := Without(s.lru, key) + [Item(key, value, expiresAt, s.clock + 1, false, false)];
    var own := EvictOwn(written, key.ns, BudgetOf(c, key.ns));
    s.(lru := EvictOldest(own, TombBytes(s.tombs.live), c.maxMemory), clock := s.clock + 1)
  }

  function Get(s: Store, key: Key, now: nat): (Store, Option<Bytes>) {
    var t := s.(clock := s.clock + 1);
    match Lookup(s.lru, key)
    case None => (t, None)
    case Some(x) =>
      if Expired(x.expiresAt, now) then (t.(lru := Without(s.lru, key)), None)
      else (t.(lru := Without(s.lru, key) + [x.(lastUsed := t.clock)]), Some(x.value))
  }

  function Touch(c: Config, s: Store, key: Key, ttl: Option<nat>, promote: bool, now: nat): (Store, Option<Touched>) {
    var t := if promote then s.(clock := s.clock + 1) else s;
    match Lookup(s.lru, key)
    case None => (t, None)
    case Some(x) =>
      if Expired(x.expiresAt, now) then (t.(lru := Without(s.lru, key)), None)
      else
        var expiresAt := Expiry(c, now, ttl);
        var y := x.(expiresAt := expiresAt, lastUsed := if promote then t.clock else x.lastUsed);
        (t.(lru := if promote then Without(s.lru, key) + [y] else Replace(s.lru, y)),
         Some(Touched(x.value, Remaining(expiresAt, now))))
  }

  function Delete(s: Store, key: Key, now: nat): (Store, bool) {
    var removed := match Lookup(s.lru, key) case None => false case Some(x) => !Expired(x.expiresAt, now);
    (s.(lru := Without(s.lru, key)), removed)
  }

  function Clear(s: Store, ns: Bytes): (Store, nat) {
    (s.(lru := NotOf(s.lru, ns)), |Of(s.lru, ns)|)
  }

  function ClearAll(s: Store): (Store, nat) {
    (s.(lru := [], tombs := Tombs(map[], [])), |s.lru|)
  }

  // ---- conditional operations ----

  /** Drops `key` if it is past its TTL. */
  function ExpireLazily(s: Store, key: Key, now: nat): Store {
    match Lookup(s.lru, key)
    case None => s
    case Some(x) => if Expired(x.expiresAt, now) then s.(lru := Without(s.lru, key)) else s
  }

  /** Whether the condition holds of the live value; a large value's digest is then kept. */
  function Holds(c: Config, s: Store, key: Key, cond: Condition, now: nat): (Store, bool) {
    var t := ExpireLazily(s, key, now);
    match Lookup(t.lru, key)
    case None => (t, cond.Absent?)
    case Some(x) =>
      match cond
      case Absent => (t, false)
      case Present => (t, true)
      case Matches(digest) =>
        (if |x.value| < DIGEST_CACHE_MIN_VALUE_BYTES then t
         else t.(lru := Replace(t.lru, x.(digested := true))),
         c.digest(x.value) == digest)
  }

  ghost function CasSet(c: Config, s: Store, key: Key, cond: Condition, value: Bytes, ttl: Option<nat>, now: nat)
    : (Store, bool)
  {
    var (t, holds) := Holds(c, s, key, cond, now);
    if holds then (Put(c, t, key, value, Expiry(c, now, ttl)), true) else (t, false)
  }

  function CasDelete(c: Config, s: Store, key: Key, digest: Bytes, now: nat): (Store, bool) {
    var (t, holds) := Holds(c, s, key, Matches(digest), now);
    if holds then (t.(lru := Without(t.lru, key)), true) else (t, false)
  }

  ghost function Incr(c: Config, s: Store, key: Key, delta: int, now: nat): (Store, IncrResult) {
    match Lookup(s.lru, key)
    case None => (s, NotFound)
    case Some(x) =>
      if Expired(x.expiresAt, now) then (s.(lru := Without(s.lru, key)), NotFound)
      else
        match Decimal.ParseI64(x.value)
        case None => (s, NotNumeric)
        case Some(current) =>
          if !(Decimal.I64_MIN <= current + delta <= Decimal.I64_MAX) then (s, NotNumeric)
          else
            (Put(c, s, key, Decimal.PrintInt(current + delta), x.expiresAt),
             Counted(current + delta, Remaining(x.expiresAt, now)))
  }

  // ---- tombstones ----

  /** The tombstones after a popped stamp: its key's, if it still carries that stamp, is gone. */
  function Forget(live: map<Key, nat>, stamp: Stamp): map<Key, nat> {
    if stamp.key in live && live[stamp.key] == stamp.at then live - {stamp.key} else live
  }

  function Prune(t: Tombs, now: nat): Tombs
    decreases |t.order|
  {
    if t.order == [] || SaturatingSub(now, t.order[0].at) < HANDOFF_TOMBSTONE_TTL then t
    else Prune(Tombs(Forget(t.live, t.order[0]), t.order[1..]), now)
  }

  /** Pops stamps until one of them drops a live tombstone. */
  function ForgetOldest(t: Tombs): Tombs
    decreases |t.order|
  {
    if t.order == [] then t
    else
      var live := Forget(t.live, t.order[0]);
      if live != t.live then Tombs(live, t.order[1..]) else ForgetOldest(Tombs(live, t.order[1..]))
  }

  predicate IsLive(live: map<Key, nat>, stamp: Stamp) {
    stamp.key in live && live[stamp.key] == stamp.at
  }

  function LiveStamps(order: seq<Stamp>, live: map<Key, nat>): seq<Stamp> {
    if order == [] then []
    else if IsLive(live, order[0]) then [order[0]] + LiveStamps(order[1..], live)
    else LiveStamps(order[1..], live)
  }

  function Bury(t: Tombs, key: Key, now: nat): Tombs {
    var pruned := Prune(t, now);
    var roomy := if |pruned.live| >= MAX_HANDOFF_TOMBSTONES then ForgetOldest(pruned) else pruned;
    var live := roomy.live[key := now];
    var order := roomy.order + [Stamp(now, key)];
    Tombs(live, if |order| > 2 * MAX_HANDOFF_TOMBSTONES then LiveStamps(order, live) else order)
  }

  predicate Tombstoned(t: Tombs, key: Key, now: nat) {
    key in t.live && SaturatingSub(now, t.live[key]) < HANDOFF_TOMBSTONE_TTL
  }

  // ---- handoffs ----

  const WRITES_WRAP: nat := 0x1_0000_0000_0000_0000

  function NoteHandoff(s: Store, ahead: bool, now: nat): Store {
    if ahead then s.(lastHandoff := Some(now), handoffWrites := (s.handoffWrites + 1) % WRITES_WRAP) else s
  }

  function HandoffDelete(s: Store, key: Key, now: nat): (Store, bool) {
    var (t, removed) := Delete(s, key, now);
    (t.(tombs := Bury(t.tombs, key, now)), removed)
  }

  ghost function HandoffSet(c: Config, s: Store, key: Key, value: Bytes, ttl: Option<nat>, ahead: bool, now: nat)
    : (Store, bool)
  {
    var t := NoteHandoff(s, ahead, now);
    if ttl == Some(0) then (HandoffDelete(t, key, now).0, true)
    else
      var expiresAt := Expiry(c, now, ttl);
      var same :=
        match Lookup(t.lru, key)
        case None => false
        case Some(x) => !Expired(x.expiresAt, now) && x.value == value && x.expiresAt.Some? == expiresAt.Some?;
      (Put(c, t, key, value, expiresAt), !same)
  }

  predicate Marked(l: seq<Item>, key: Key) {
    Lookup(l, key).Some? && Lookup(l, key).value.marked
  }

  ghost function HandoffSetIfAbsent(c: Config, s: Store, key: Key, value: Bytes, ttl: Option<nat>, ahead: bool,
                                    now: nat)
    : (Store, bool)
  {
    var t := NoteHandoff(s, ahead, now);
    if Tombstoned(t.tombs, key, now) then (t, false)
    else
      var (u, absent) := Holds(c, t, key, Absent, now);
      if !absent && !Marked(u.lru, key) then (u, false)
      else (Put(c, u, key, value, Expiry(c, now, ttl)), true)
  }

  // ---- marks, sweeps and reclaims ----

  function Mark(s: Store, key: Key): Store {
    match Lookup(s.lru, key)
    case None => s
    case Some(x) => s.(lru := Replace(s.lru, x.(marked := true)))
  }

  function Unmark(l: seq<Item>, key: Key): seq<Item> {
    match Lookup(l, key)
    case None => l
    case Some(x) => Replace(l, x.(marked := false))
  }

  function UnmarkAll(l: seq<Item>, keys: seq<Key>): seq<Item>
    decreases |keys|
  {
    if keys == [] then l else UnmarkAll(Unmark(l, keys[0]), keys[1..])
  }

  /** Removes the listed keys that are held and not owned, with their tombstones. */
  function ReclaimAll(s: Store, keys: seq<Key>, owned: Key -> bool): (Store, nat)
    decreases |keys|
  {
    if keys == [] then (s, 0)
    else if Lookup(s.lru, keys[0]).Some? && !owned(keys[0]) then
      var t := s.(lru := Without(s.lru, keys[0]), tombs := s.tombs.(live := s.tombs.live - {keys[0]}));
      var (u, removed) := ReclaimAll(t, keys[1..], owned);
      (u, removed + 1)
    else ReclaimAll(s, keys[1..], owned)
  }

  predicate Paused(s: Store, quiet: nat, now: nat) {
    s.lastHandoff.Some? && SaturatingSub(now, s.lastHandoff.value) < quiet
  }

  function Reclaim(s: Store, keys: seq<Key>, owned: Key -> bool, quiet: nat, now: nat): (Store, Option<nat>) {
    if Paused(s, quiet, now) then (s, None)
    else
      var (t, removed) := ReclaimAll(s, keys, owned);
      (t, Some(removed))
  }

  function Keeps(owned: Option<Key -> bool>, key: Key): bool {
    owned.Some? && owned.value(key)
  }

  /** One popped candidate, judged against what is stored now. */
  function SweepOne(s: Store, key: Key, includeMarked: bool, owned: Option<Key -> bool>, now: nat): (Store, nat) {
    match Lookup(s.lru, key)
    case None => (s, 0)
    case Some(x) =>
      var marked := includeMarked && x.marked;
      var expired := Expired(x.expiresAt, now);
      if marked && !expired && Keeps(owned, key) then (s.(lru := Unmark(s.lru, key)), 0)
      else if marked || expired then
        (s.(lru := Without(s.lru, key),
            tombs := if marked then s.tombs.(live := s.tombs.live - {key}) else s.tombs), 1)
      else (s, 0)
  }

  function SweepSome(s: Store, budget: nat, includeMarked: bool, owned: Option<Key -> bool>, now: nat): (Store, nat)
    decreases budget
  {
    if budget == 0 || s.pending == [] then (s, 0)
    else
      var (t, n) := SweepOne(s.(pending := s.pending[1..]), s.pending[0], includeMarked, owned, now);
      var (u, m) := SweepSome(t, budget - 1, includeMarked, owned, now);
      (u, n + m)
  }

  /** `keys` lists exactly the members of `s`, each once. */
  ghost predicate Enumerates(keys: seq<Key>, s: set<Key>) {
    && (forall i, j :: 0 <= i < j < |keys| ==> keys[i] != keys[j])
    && (forall k :: k in keys <==> k in s)
  }

  ghost function ExpiredKeys(l: seq<Item>, now: nat): set<Key> {
    set x | x in l && Expired(x.expiresAt, now) :: x.key
  }

  ghost function MarkedKeys(l: seq<Item>): set<Key> {
    set x | x in l && x.marked :: x.key
  }

  /** The candidates a sweep may queue: the expired keys, then the marked ones, each in any order. */
  ghost predicate Candidates(refill: seq<Key>, l: seq<Item>, includeMarked: bool, now: nat) {
    exists n: nat :: n <= |refill|
      && Enumerates(refill[..n], ExpiredKeys(l, now))
      && Enumerates(refill[n..], if includeMarked then MarkedKeys(l) else {})
  }

  /** `refill` is what the queue is refilled with if it is empty. */
  function Sweep(s: Store, refill: seq<Key>, includeMarked: bool, owned: Option<Key -> bool>, now: nat): (Store, nat) {
    var t := s.(tombs := Prune(s.tombs, now), pending := if s.pending == [] then refill else s.pending);
    SweepSome(t, SWEEP_BUDGET, includeMarked, owned, now)
  }

  // ---- batches ----

  datatype Pair = Pair(name: Bytes, value: Bytes)

  ghost function SetMany(c: Config, s: Store, ns: Bytes, items: seq<Pair>, expiresAt: Option<nat>): Store
    decreases |items|
  {
    if items == [] then s
    else SetMany(c, Put(c, s, Key(ns, items[0].name), items[0].value, expiresAt), ns, items[1..], expiresAt)
  }

  /** A batch under way: the store, the value bytes already in the reply, and the answers so far.
      `seen`: the values a zero TTL has expired earlier in this batch. */
  datatype Batch = Batch(store: Store, used: nat, seen: map<Bytes, Bytes>, results: seq<Option<Bytes>>)

  function Begin(s: Store): Batch {
    Batch(s, 0, map[], [])
  }

  /** One name of a batched get whose reply holds at most `cap` value bytes. */
  function GetNext(b: Batch, key: Key, cap: nat, now: nat): Batch {
    if b.used >= cap then b.(results := b.results + [None])
    else
      var (t, got) := Get(b.store, key, now);
      if got.Some? && b.used + |got.value| <= cap then
        b.(store := t, used := b.used + |got.value|, results := b.results + [got])
      else b.(store := t, results := b.results + [None])
  }

  function GetMany(b: Batch, ns: Bytes, names: seq<Bytes>, cap: nat, now: nat): Batch
    decreases |names|
  {
    if names == [] then b else GetMany(GetNext(b, Key(ns, names[0]), cap, now), ns, names[1..], cap, now)
  }

  /** Whether a value of this length no longer fits a reply capped at `cap` (`None`: no cap). */
  predicate Over(used: nat, length: nat, cap: Option<nat>) {
    cap.Some? && (used >= cap.value || used + length > cap.value)
  }

  function LiveLength(l: seq<Item>, key: Key, now: nat): nat {
    match Lookup(l, key)
    case None => 0
    case Some(x) => if Expired(x.expiresAt, now) then 0 else |x.value|
  }

  /** One name of a batched touch. */
  function TouchNext(c: Config, b: Batch, key: Key, ttl: Option<nat>, promote: bool, cap: Option<nat>, now: nat)
    : Batch
  {
    if key.name in b.seen then
      var value := b.seen[key.name];
      if Over(b.used, |value|, cap) then b.(results := b.results + [None])
      else b.(used := b.used + |value|, results := b.results + [Some(value)])
    else if Over(b.used, LiveLength(b.store.lru, key, now), cap) then b.(results := b.results + [None])
    else
      var (t, got) := Touch(c, b.store, key, ttl, promote, now);
      if got.None? then b.(store := t, results := b.results + [None])
      else
        var value := got.value.value;
        Batch(t, b.used + |value|, if ttl == Some(0) then b.seen[key.name := value] else b.seen,
              b.results + [Some(value)])
  }

  function TouchMany(c: Config, b: Batch, ns: Bytes, names: seq<Bytes>, ttl: Option<nat>, promote: bool,
                     cap: Option<nat>, now: nat): Batch
    decreases |names|
  {
    if names == [] then b
    else TouchMany(c, TouchNext(c, b, Key(ns, names[0]), ttl, promote, cap, now), ns, names[1..], ttl, promote, cap,
      now)
  }

  // ---- runs ----

  datatype Op =
    | Setting(key: Key, value: Bytes, ttl: Option<nat>)
    | Getting(key: Key)
    | Touching(key: Key, ttl: Option<nat>, promote: bool)
    | Deleting(key: Key)
    | Incrementing(key: Key, delta: int)
    | CasSetting(key: Key, cond: Condition, value: Bytes, ttl: Option<nat>)
    | CasDeleting(key: Key, digest: Bytes)
    | Clearing(ns: Bytes)
    | ClearingAll
    | SettingMany(ns: Bytes, items: seq<Pair>, ttl: Option<nat>)
    | GettingMany(ns: Bytes, names: seq<Bytes>, limit: nat)
    | TouchingMany(ns: Bytes, names: seq<Bytes>, ttl: Option<nat>, promote: bool, cap: Option<nat>)
    | HandingOff(key: Key, value: Bytes, ttl: Option<nat>, ahead: bool)
    | HandingOffIfAbsent(key: Key, value: Bytes, ttl: Option<nat>, ahead: bool)
    | HandingOffDelete(key: Key)
    | Reclaiming(keys: seq<Key>, mine: Key -> bool, quiet: nat)
    | Marking(key: Key)
    | Unmarking(keys: seq<Key>)
    | Sweeping(refill: seq<Key>, includeMarked: bool, owned: Option<Key -> bool>)

  datatype Answer =
    | Acknowledged
    | Value(value: Option<Bytes>)
    | Refreshed(touched: Option<Touched>)
    | Flag(flag: bool)
    | Count(count: nat)
    | Counter(counter: IncrResult)
    | Values(values: seq<Option<Bytes>>)
    | Reclaimed(removed: Option<nat>)

  /** One operation of the single-list store at instant `now`. */
  ghost function Apply(c: Config, s: Store, op: Op, now: nat): (Store, Answer) {
    match op
    case Setting(key, value, ttl) => (Put(c, s, key, value, Expiry(c, now, ttl)), Acknowledged)
    case Getting(key) => var (t, v) := Get(s, key, now); (t, Value(v))
    case Touching(key, ttl, promote) => var (t, r) := Touch(c, s, key, ttl, promote, now); (t, Refreshed(r))
    case Deleting(key) => var (t, b) := Delete(s, key, now); (t, Flag(b))
    case Incrementing(key, delta) => var (t, r) := Incr(c, s, key, delta, now); (t, Counter(r))
    case CasSetting(key, cond, value, ttl) => var (t, b) := CasSet(c, s, key, cond, value, ttl, now); (t, Flag(b))
    case CasDeleting(key, digest) => var (t, b) := CasDelete(c, s, key, digest, now); (t, Flag(b))
    case Clearing(ns) => var (t, n) := Clear(s, ns); (t, Count(n))
    case ClearingAll => var (t, n) := ClearAll(s); (t, Count(n))
    case SettingMany(ns, items, ttl) => (SetMany(c, s, ns, items, Expiry(c, now, ttl)), Acknowledged)
    case GettingMany(ns, names, limit) =>
      var b := GetMany(Begin(s), ns, names, limit, now); (b.store, Values(b.results))
    case TouchingMany(ns, names, ttl, promote, cap) =>
      var b := TouchMany(c, Begin(s), ns, names, ttl, promote, cap, now); (b.store, Values(b.results))
    case HandingOff(key, value, ttl, ahead) => var (t, b) := HandoffSet(c, s, key, value, ttl, ahead, now); (t, Flag(b))
    case HandingOffIfAbsent(key, value, ttl, ahead) =>
      var (t, b) := HandoffSetIfAbsent(c, s, key, value, ttl, ahead, now); (t, Flag(b))
    case HandingOffDelete(key) => var (t, b) := HandoffDelete(s, key, now); (t, Flag(b))
    case Reclaiming(keys, mine, quiet) => var (t, n) := Reclaim(s, keys, mine, quiet, now); (t, Reclaimed(n))
    case Marking(key) => (Mark(s, key), Acknowledged)
    case Unmarking(keys) => (s.(lru := UnmarkAll(s.lru, keys)), Acknowledged)
    case Sweeping(refill, includeMarked, owned) =>
      var (t, n) := Sweep(s, refill, includeMarked, owned, now); (t, Count(n))
  }

  /** An operation as requested or as carried out: a sweep picks the order it queues its candidates in. */
  ghost predicate Realizes(done: Op, asked: Op, s: Store, now: nat) {
    match asked
    case Sweeping(_, includeMarked, owned) =>
      && done.Sweeping? && done.includeMarked == includeMarked && done.owned == owned
      && (s.pending == [] ==> Candidates(done.refill, s.lru, includeMarked, now))
    case _ => done == asked
  }

  datatype Call = Call(op: Op, now: nat)

  ghost function After(c: Config, s: Store, calls: seq<Call>): Store
    decreases |calls|
  {
    if calls == [] then s
    else
      var before := After(c, s, calls[..|calls| - 1]);
      Apply(c, before, calls[|calls| - 1].op, calls[|calls| - 1].now).0
  }

  /** What each call of a run answers. */
  ghost function Answers(c: Config, s: Store, calls: seq<Call>): seq<Answer>
    decreases |calls|
  {
    if calls == [] then []
    else
      var before := After(c, s, calls[..|calls| - 1]);
      Answers(c, s, calls[..|calls| - 1]) + [Apply(c, before, calls[|calls| - 1].op, calls[|calls| - 1].now).1]
  }
}
