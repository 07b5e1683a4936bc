/** What a client can count on from each single-key operation, told by the entries alone. */
module ClientLaws {
  import opened Basics
  import opened Lru
  import opened StoreSpec
  import opened Eviction
  import opened Reachable
  import opened Batches
  import opened Touches
  import Decimal

  // ---- places in the list ----

  /** The list with the item at `i` taken out. */
  function Removed(l: seq<Item>, i: nat): seq<Item>
    requires i < |l|
  {
    l[..i] + l[i + 1..]
  }

  lemma LookupAt(l: seq<Item>, i: nat)
    requires Ordered(l) && i < |l|
    ensures Lookup(l, l[i].key) == Some(l[i])
    ensures Without(l, l[i].key) == Removed(l, i)
  {
    LookupUnique(l, l[i]);
    WithoutAt(l, i);
  }

  lemma {:induction false} WithoutAt(l: seq<Item>, i: nat)
    requires Ordered(l) && i < |l|
    ensures Without(l, l[i].key) == Removed(l, i)
  {
    if i > 0 {
      assert l[0].key != l[i].key && l[1..][i - 1] == l[i];
      WithoutAt(l[1..], i - 1);
      assert Removed(l, i) == [l[0]] + Removed(l[1..], i - 1);
    }
  }

  lemma {:induction false} ReplaceAt(l: seq<Item>, i: nat, x: Item)
    requires Ordered(l) && i < |l| && x.key == l[i].key
    ensures Replace(l, x) == l[i := x]
  {
    if i > 0 {
      ReplaceAt(l[1..], i - 1, x);
      assert l[0].key != l[i].key;
      assert l[i := x] == [l[0]] + l[1..][i - 1 := x];
    }
  }

  /** `key` is nowhere in the list. */
  ghost predicate Missing(l: seq<Item>, key: Key) {
    forall i :: 0 <= i < |l| ==> l[i].key != key
  }

  lemma MissingLookup(l: seq<Item>, key: Key)
    ensures Missing(l, key) <==> Lookup(l, key).None?
    ensures Missing(l, key) ==> Without(l, key) == l
  {
    LookupMember(l, key);
    if Missing(l, key) {
      WithoutAbsent(l, key);
    } else {
      var i :| 0 <= i < |l| && l[i].key == key;
      assert l[i] in l;
    }
  }

  /** Still to be read at `now`: no expiry, or one yet to come. */
  predicate Alive(x: Item, now: nat) {
    x.expiresAt.None? || now < x.expiresAt.value
  }

  /** A read of `key` at `now` would find `value`. */
  ghost predicate Reads(l: seq<Item>, key: Key, value: Bytes, now: nat) {
    exists i :: 0 <= i < |l| && l[i].key == key && l[i].value == value && Alive(l[i], now)
  }

  /** A read of `key` at `now` would find something. */
  ghost predicate Live(l: seq<Item>, key: Key, now: nat) {
    exists i :: 0 <= i < |l| && l[i].key == key && Alive(l[i], now)
  }

  lemma ReadsAt(l: seq<Item>, i: nat, value: Bytes, now: nat)
    requires Ordered(l) && i < |l|
    ensures Reads(l, l[i].key, value, now) <==> l[i].value == value && Alive(l[i], now)
    ensures Live(l, l[i].key, now) <==> Alive(l[i], now)
  {
  }

  // ---- get ----

  /** The answer: the value of the live entry under the key, and nothing if there is none. */
  lemma GetAnswers(s: Store, key: Key, value: Bytes, now: nat)
    requires Listed(s)
    ensures Get(s, key, now).1 == Some(value) <==> Reads(s.lru, key, value, now)
    ensures Get(s, key, now).1 == None <==> !Live(s.lru, key, now)
  {
    MissingLookup(s.lru, key);
    if !Missing(s.lru, key) {
      var i :| 0 <= i < |s.lru| && s.lru[i].key == key;
      LookupAt(s.lru, i);
      ReadsAt(s.lru, i, value, now);
    }
  }

  /** What a get does: a live entry becomes the newest, an expired one goes, and everything else stays as it was. */
  lemma GetMoves(s: Store, key: Key, now: nat)
    requires Listed(s)
    ensures var t := Get(s, key, now).0;
            && t == s.(clock := s.clock + 1, lru := t.lru)
            && (Missing(s.lru, key) ==> t.lru == s.lru)
            && forall i :: 0 <= i < |s.lru| && s.lru[i].key == key ==>
                 t.lru == Removed(s.lru, i)
                          + if Alive(s.lru[i], now) then [s.lru[i].(lastUsed := s.clock + 1)] else []
  {
    MissingLookup(s.lru, key);
    forall i | 0 <= i < |s.lru| && s.lru[i].key == key
      ensures var t := Get(s, key, now).0;
              t.lru == Removed(s.lru, i)
                       + if Alive(s.lru[i], now) then [s.lru[i].(lastUsed := s.clock + 1)] else []
    {
      LookupAt(s.lru, i);
      assert Removed(s.lru, i) + [] == Removed(s.lru, i);
    }
  }

  /**
   The key just read outlives every older one: if a write of another key evicts it, nothing else that could
   have gone in its place is left.
   */
  lemma ReadOutlivesOlder(c: Config, s: Store, key: Key, value: Bytes, now: nat, other: Key, w: Bytes,
                          expiresAt: Option<nat>, y: Item)
    requires Listed(s) && Reads(s.lru, key, value, now) && other != key
    requires var t := Put(c, Get(s, key, now).0, other, w, expiresAt);
             y in t.lru && y.key != key && y.key != other && (key.ns != other.ns || y.key.ns == other.ns)
    ensures Put(c, Get(s, key, now).0, other, w, expiresAt).lru != []
    ensures exists x :: x in Put(c, Get(s, key, now).0, other, w, expiresAt).lru && x.key == key && x.value == value
  {
    hide Put, Ordered, StampedBy;
    var u := Get(s, key, now).0;
    var t := Put(c, u, other, w, expiresAt);
    var i :| 0 <= i < |s.lru| && s.lru[i].key == key && s.lru[i].value == value && Alive(s.lru[i], now);
    GetMoves(s, key, now);
    GetListed(s, key, now);
    var x := s.lru[i].(lastUsed := s.clock + 1);
    assert u.lru[|u.lru| - 1] == x;
    if x !in t.lru {
      OldestGoFirst(c, u, other, w, expiresAt, x, y);
      PutSubset(c, u, other, w, expiresAt);
      NewestIsLast(u, y);
      assert false;
    }
  }

  lemma NewestIsLast(s: Store, y: Item)
    requires Listed(s) && y in s.lru
    ensures y.lastUsed <= s.lru[|s.lru| - 1].lastUsed
  {
  }

  // ---- how long what is written lives ----

  /** Under `key` there is `value` and no other, to be read until `ttl` after `at`, or for ever. */
  ghost predicate LivesFor(c: Config, l: seq<Item>, key: Key, value: Bytes, at: nat, ttl: Option<nat>) {
    forall w, now: nat :: Reads(l, key, w, now) <==>
      w == value && (ttl.None? || at + ttl.value > c.horizon || now < at + ttl.value)
  }

  lemma StoredLives(c: Config, l: seq<Item>, i: nat, at: nat, ttl: Option<nat>)
    requires Ordered(l) && i < |l| && l[i].expiresAt == Expiry(c, at, ttl)
    ensures LivesFor(c, l, l[i].key, l[i].value, at, ttl)
  {
    forall w, now: nat
      ensures Reads(l, l[i].key, w, now) <==>
              w == l[i].value && (ttl.None? || at + ttl.value > c.horizon || now < at + ttl.value)
    {
      ReadsAt(l, i, w, now);
    }
  }

  /** Whatever a write evicts, what it wrote is there for its TTL. */
  lemma WriteLives(c: Config, s: Store, key: Key, value: Bytes, at: nat, ttl: Option<nat>)
    requires Listed(s)
    ensures LivesFor(c, Put(c, s, key, value, Expiry(c, at, ttl)).lru, key, value, at, ttl)
  {
    hide Put, Reads, LivesFor, StampedBy;
    var t := Put(c, s, key, value, Expiry(c, at, ttl));
    WriteIsKept(c, s, key, value, Expiry(c, at, ttl));
    LookupMember(t.lru, key);
    var x := Item(key, value, Expiry(c, at, ttl), s.clock + 1, false, false);
    var i :| 0 <= i < |t.lru| && t.lru[i] == x;
    StoredLives(c, t.lru, i, at, ttl);
  }

  /** A value write is read back until its TTL has passed, on whatever store a run has left. */
  lemma SetThenGet(c: Config, before: seq<Call>, key: Key, value: Bytes, ttl: Option<nat>, at: nat, now: nat)
    ensures var calls := before + [Call(Setting(key, value, ttl), at)] + [Call(Getting(key), now)];
            var answers := Answers(c, EMPTY, calls);
            && |answers| > 0
            && answers[|answers| - 1] ==
               Value(if ttl.None? || at + ttl.value > c.horizon || now < at + ttl.value then Some(value) else None)
  {
    hide Apply, Sound, Listed, Get, Put;
    var s := After(c, EMPTY, before);
    var write := Call(Setting(key, value, ttl), at);
    EveryRunIsSound(c, before);
    SetAndGet(c, s, key, value, ttl, at, now);
    assert (before + [write])[..|before|] == before;
    assert (before + [write] + [Call(Getting(key), now)])[..|before| + 1] == before + [write];
  }

  lemma SetAndGet(c: Config, s: Store, key: Key, value: Bytes, ttl: Option<nat>, at: nat, now: nat)
    requires Sound(s)
    ensures var t := Apply(c, s, Setting(key, value, ttl), at).0;
            Apply(c, t, Getting(key), now).1 ==
            Value(if ttl.None? || at + ttl.value > c.horizon || now < at + ttl.value then Some(value) else None)
  {
    hide Put, Get, Reads, Live;
    var t := Put(c, s, key, value, Expiry(c, at, ttl));
    WriteLives(c, s, key, value, at, ttl);
    ApplyListed(c, s, Setting(key, value, ttl), at);
    assert Listed(t);
    var got := Get(t, key, now).1;
    GetAnswers(t, key, value, now);
    if got.Some? {
      GetAnswers(t, key, got.value, now);
    }
  }

  // ---- touch ----

  /** When a TTL asked for at `at` comes to pass, as a time left: none past the horizon. */
  function TimeLeft(c: Config, at: nat, ttl: Option<nat>): Option<nat> {
    if ttl.Some? && at + ttl.value <= c.horizon then ttl else None
  }

  /**
   A touch answers the live value with the time it now has left, and gives it that time; promoted, it becomes
   the newest, otherwise it keeps its place. An expired entry goes. Everything else stays as it was.
   */
  lemma TouchActs(c: Config, s: Store, key: Key, ttl: Option<nat>, promote: bool, now: nat)
    requires Listed(s)
    ensures var (t, answer) := Touch(c, s, key, ttl, promote, now);
            && t == s.(clock := if promote then s.clock + 1 else s.clock, lru := t.lru)
            && (Missing(s.lru, key) ==> answer.None? && t.lru == s.lru)
            && forall i :: 0 <= i < |s.lru| && s.lru[i].key == key ==>
                 if Alive(s.lru[i], now) then
                   && answer == Some(Touched(s.lru[i].value, TimeLeft(c, now, ttl)))
                   && LivesFor(c, t.lru, key, s.lru[i].value, now, ttl)
                   && (if promote then
                         && |t.lru| == |s.lru| && t.lru[..|s.lru| - 1] == Removed(s.lru, i)
                         && t.lru[|s.lru| - 1] == s.lru[i].(expiresAt := t.lru[|s.lru| - 1].expiresAt,
                                                            lastUsed := s.clock + 1)
                       else
                         && |t.lru| == |s.lru|
                         && t.lru == s.lru[i := s.lru[i].(expiresAt := t.lru[i].expiresAt)])
                 else answer.None? && t.lru == Removed(s.lru, i)
  {
    hide LivesFor, Ordered, StampedBy;
    MissingLookup(s.lru, key);
    TouchListed(c, s, key, ttl, promote, now);
    var (t, answer) := Touch(c, s, key, ttl, promote, now);
    forall i | 0 <= i < |s.lru| && s.lru[i].key == key
      ensures if Alive(s.lru[i], now) then
                && answer == Some(Touched(s.lru[i].value, TimeLeft(c, now, ttl)))
                && LivesFor(c, t.lru, key, s.lru[i].value, now, ttl)
                && (if promote then
                      && |t.lru| == |s.lru| && t.lru[..|s.lru| - 1] == Removed(s.lru, i)
                      && t.lru[|s.lru| - 1] == s.lru[i].(expiresAt := t.lru[|s.lru| - 1].expiresAt,
                                                         lastUsed := s.clock + 1)
                    else
                      && |t.lru| == |s.lru|
                      && t.lru == s.lru[i := s.lru[i].(expiresAt := t.lru[i].expiresAt)])
              else answer.None? && t.lru == Removed(s.lru, i)
    {
      LookupAt(s.lru, i);
      if Alive(s.lru[i], now) {
        ReplaceAt(s.lru, i, s.lru[i].(expiresAt := Expiry(c, now, ttl)));
        StoredLives(c, t.lru, if promote then |s.lru| - 1 else i, now, ttl);
      }
    }
  }

  // ---- delete and clear ----

  /** A delete answers whether a live entry was there, and takes out what is under the key and nothing else. */
  lemma DeleteActs(s: Store, key: Key, now: nat)
    requires Listed(s)
    ensures var (t, removed) := Delete(s, key, now);
            && t == s.(lru := t.lru) && (removed <==> Live(s.lru, key, now)) && Missing(t.lru, key)
            && (Missing(s.lru, key) ==> t.lru == s.lru)
            && forall i :: 0 <= i < |s.lru| && s.lru[i].key == key ==> t.lru == Removed(s.lru, i)
  {
    MissingLookup(s.lru, key);
    LookupWithoutSame(s.lru, key);
    MissingLookup(Without(s.lru, key), key);
    forall i | 0 <= i < |s.lru| && s.lru[i].key == key
      ensures Without(s.lru, key) == Removed(s.lru, i)
      ensures Delete(s, key, now).1 <==> Live(s.lru, key, now)
    {
      LookupAt(s.lru, i);
      ReadsAt(s.lru, i, s.lru[i].value, now);
    }
  }

  /** The places in the list of the items of a namespace. */
  ghost function Places(l: seq<Item>, ns: Bytes): set<nat> {
    set i: nat | i < |l| && l[i].key.ns == ns
  }

  lemma {:induction false} PlacesCount(l: seq<Item>, ns: Bytes)
    ensures |Places(l, ns)| == |Of(l, ns)|
  {
    if l == [] {
      assert Places(l, ns) == {};
    } else {
      PlacesCount(l[1..], ns);
      PlacesShift(l, ns);
    }
  }

  lemma PlacesShift(l: seq<Item>, ns: Bytes)
    requires l != []
    ensures |Places(l, ns)| == |Places(l[1..], ns)| + if l[0].key.ns == ns then 1 else 0
  {
    var rest := Places(l[1..], ns);
    ShiftSize(rest);
    forall i | i in Places(l, ns) && i > 0 ensures i in Shifted(rest) {
      assert i - 1 in rest;
    }
    assert Places(l, ns) == Shifted(rest) + if l[0].key.ns == ns then {0} else {};
    assert 0 !in Shifted(rest);
  }

  ghost function Shifted(s: set<nat>): set<nat> {
    set i | i in s :: i + 1
  }

  lemma {:induction false} ShiftSize(s: set<nat>)
    ensures |Shifted(s)| == |s|
    decreases |s|
  {
    if s == {} {
      assert Shifted(s) == {};
    } else {
      var x :| x in s;
      ShiftSize(s - {x});
      forall y | y in Shifted(s) && y != x + 1 ensures y in Shifted(s - {x}) {
        assert y - 1 in s - {x};
      }
      assert Shifted(s) == Shifted(s - {x}) + {x + 1};
      assert x + 1 !in Shifted(s - {x});
    }
  }

  /** A clear takes out a namespace's items and counts them; every other item stays, in the same order. */
  lemma ClearActs(s: Store, ns: Bytes)
    requires Listed(s)
    ensures var (t, count) := Clear(s, ns);
            && t == s.(lru := t.lru) && count == |Places(s.lru, ns)| && Ordered(t.lru)
            && forall x :: x in t.lru <==> x in s.lru && x.key.ns != ns
  {
    PlacesCount(s.lru, ns);
    NotOfOrdered(s.lru, ns);
    NotOfMembers(s.lru, ns);
  }

  // ---- increment ----

  /** Under `key` there is `value` and no other, to be read until `expiresAt`, or for ever. */
  ghost predicate LivesUntil(l: seq<Item>, key: Key, value: Bytes, expiresAt: Option<nat>) {
    forall w, at: nat :: Reads(l, key, w, at) <==> w == value && (expiresAt.None? || at < expiresAt.value)
  }

  /** How an increment of the entry at `i` must end. */
  ghost predicate Incremented(s: Store, t: Store, answer: IncrResult, delta: int, now: nat, i: nat)
    requires i < |s.lru|
  {
    var x, n := s.lru[i], Decimal.ParseI64(s.lru[i].value);
    if !Alive(x, now) then answer == NotFound && t == s.(lru := Removed(s.lru, i))
    else if n.Some? && Decimal.I64_MIN <= n.value + delta <= Decimal.I64_MAX then
      && answer == Counted(n.value + delta, if x.expiresAt.None? then None else Some(x.expiresAt.value - now))
      && LivesUntil(t.lru, x.key, Decimal.PrintInt(n.value + delta), x.expiresAt)
    else answer == NotNumeric && t == s
  }

  /**
   An increment of a live counter answers the sum and the time left and stores the sum for that time; a value
   that is no number, or a sum out of range, is left alone; with nothing live it answers so, and an expired
   entry goes.
   */
  lemma IncrActs(c: Config, s: Store, key: Key, delta: int, now: nat)
    requires Listed(s)
    ensures var (t, answer) := Incr(c, s, key, delta, now);
            && (Missing(s.lru, key) ==> answer == NotFound && t == s)
            && forall i :: 0 <= i < |s.lru| && s.lru[i].key == key ==> Incremented(s, t, answer, delta, now, i)
  {
    hide Put, Decimal.ParseI64, Decimal.PrintInt, Ordered, StampedBy, LivesUntil;
    MissingLookup(s.lru, key);
    var (t, answer) := Incr(c, s, key, delta, now);
    forall i | 0 <= i < |s.lru| && s.lru[i].key == key ensures Incremented(s, t, answer, delta, now, i) {
      LookupAt(s.lru, i);
      var x, n := s.lru[i], Decimal.ParseI64(s.lru[i].value);
      if Alive(x, now) && n.Some? {
        WriteReads(c, s, key, Decimal.PrintInt(n.value + delta), x.expiresAt);
      }
    }
  }

  /** What is written is read exactly until its expiry. */
  lemma WriteReads(c: Config, s: Store, key: Key, value: Bytes, expiresAt: Option<nat>)
    requires Listed(s)
    ensures LivesUntil(Put(c, s, key, value, expiresAt).lru, key, value, expiresAt)
  {
    hide Put, StampedBy;
    var t := Put(c, s, key, value, expiresAt);
    WriteIsKept(c, s, key, value, expiresAt);
    LookupMember(t.lru, key);
    var x := Item(key, value, expiresAt, s.clock + 1, false, false);
    var i :| 0 <= i < |t.lru| && t.lru[i] == x;
    forall w, at: nat
      ensures Reads(t.lru, key, w, at) <==> w == value && (expiresAt.None? || at < expiresAt.value)
    {
      ReadsAt(t.lru, i, w, at);
    }
  }

  // ---- conditional operations ----

  /** Whether a condition is met, told by the live entry alone. */
  ghost predicate Met(c: Config, l: seq<Item>, key: Key, cond: Condition, now: nat) {
    match cond
    case Absent => !Live(l, key, now)
    case Present => Live(l, key, now)
    case Matches(digest) =>
      exists i :: 0 <= i < |l| && l[i].key == key && Alive(l[i], now) && c.digest(l[i].value) == digest
  }

  /** The same entry but for whether its digest is kept. */
  predicate SameContent(x: Item, y: Item) {
    x == y.(digested := x.digested)
  }

  /** Nothing has changed but that an expired entry under `key` has gone, or a digest is kept. */
  ghost predicate Undisturbed(l: seq<Item>, was: seq<Item>, key: Key, now: nat) {
    || (&& |l| == |was| && (forall i :: 0 <= i < |l| ==> SameContent(l[i], was[i]))
        && (forall i :: 0 <= i < |was| && was[i].key == key ==> Alive(was[i], now)))
    || (exists i :: 0 <= i < |was| && was[i].key == key && !Alive(was[i], now) && l == Removed(was, i))
  }

  lemma HoldsIffMet(c: Config, s: Store, key: Key, cond: Condition, now: nat)
    requires Listed(s)
    ensures var (t, holds) := Holds(c, s, key, cond, now);
            (holds <==> Met(c, s.lru, key, cond, now)) && Undisturbed(t.lru, s.lru, key, now) && t == s.(lru := t.lru)
  {
    hide Holds, Met, Undisturbed, Listed;
    if Missing(s.lru, key) {
      HoldsMissing(c, s, key, cond, now);
    } else {
      var i :| 0 <= i < |s.lru| && s.lru[i].key == key;
      if Alive(s.lru[i], now) {
        HoldsAlive(c, s, i, cond, now);
      } else {
        HoldsExpired(c, s, i, cond, now);
      }
    }
  }

  lemma HoldsMissing(c: Config, s: Store, key: Key, cond: Condition, now: nat)
    requires Missing(s.lru, key)
    ensures var (t, holds) := Holds(c, s, key, cond, now);
            (holds <==> Met(c, s.lru, key, cond, now)) && Undisturbed(t.lru, s.lru, key, now) && t == s.(lru := t.lru)
  {
    MissingLookup(s.lru, key);
  }

  lemma HoldsExpired(c: Config, s: Store, i: nat, cond: Condition, now: nat)
    requires Listed(s) && i < |s.lru| && !Alive(s.lru[i], now)
    ensures var key := s.lru[i].key;
            var (t, holds) := Holds(c, s, key, cond, now);
            (holds <==> Met(c, s.lru, key, cond, now)) && Undisturbed(t.lru, s.lru, key, now) && t == s.(lru := t.lru)
  {
    LookupAt(s.lru, i);
    LookupWithoutSame(s.lru, s.lru[i].key);
    ReadsAt(s.lru, i, s.lru[i].value, now);
  }

  lemma HoldsAlive(c: Config, s: Store, i: nat, cond: Condition, now: nat)
    requires Listed(s) && i < |s.lru| && Alive(s.lru[i], now)
    ensures var key := s.lru[i].key;
            var (t, holds) := Holds(c, s, key, cond, now);
            (holds <==> Met(c, s.lru, key, cond, now)) && Undisturbed(t.lru, s.lru, key, now) && t == s.(lru := t.lru)
  {
    LookupAt(s.lru, i);
    ReplaceAt(s.lru, i, s.lru[i].(digested := true));
    assert forall j :: 0 <= j < |s.lru| && s.lru[j].key == s.lru[i].key ==> j == i;
    ReadsAt(s.lru, i, s.lru[i].value, now);
  }

  /**
   A compare-and-set answers true exactly if its condition is met, and then stores the value for its TTL;
   otherwise nothing is disturbed.
   */
  lemma CasSetActs(c: Config, s: Store, key: Key, cond: Condition, value: Bytes, ttl: Option<nat>, now: nat)
    requires Listed(s)
    ensures var (t, stored) := CasSet(c, s, key, cond, value, ttl, now);
            && (stored <==> Met(c, s.lru, key, cond, now))
            && (stored ==> LivesFor(c, t.lru, key, value, now, ttl))
            && (!stored ==> Undisturbed(t.lru, s.lru, key, now) && t == s.(lru := t.lru))
  {
    hide Put, Holds, Met, Undisturbed, LivesFor, Listed;
    HoldsIffMet(c, s, key, cond, now);
    HoldsListed(c, s, key, cond, now);
    WriteLives(c, Holds(c, s, key, cond, now).0, key, value, now, ttl);
  }

  /**
   A compare-and-delete answers true exactly if a live value has that digest, and then the key is gone and every
   other entry is as it was; otherwise nothing is disturbed.
   */
  lemma CasDeleteActs(c: Config, s: Store, key: Key, digest: Bytes, now: nat)
    requires Listed(s)
    ensures var (t, deleted) := CasDelete(c, s, key, digest, now);
            && (deleted <==> Met(c, s.lru, key, Matches(digest), now)) && t == s.(lru := t.lru)
            && (deleted ==> Missing(t.lru, key)
                            && forall i :: 0 <= i < |s.lru| && s.lru[i].key == key ==> t.lru == Removed(s.lru, i))
            && (!deleted ==> Undisturbed(t.lru, s.lru, key, now))
  {
    hide Holds, Met, Undisturbed, Missing;
    HoldsIffMet(c, s, key, Matches(digest), now);
    HoldsListed(c, s, key, Matches(digest), now);
    var u := Holds(c, s, key, Matches(digest), now).0;
    if CasDelete(c, s, key, digest, now).1 {
      LookupWithoutSame(u.lru, key);
      MissingLookup(Without(u.lru, key), key);
      forall i | 0 <= i < |s.lru| && s.lru[i].key == key ensures Without(u.lru, key) == Removed(s.lru, i) {
        MatchedKeeps(c, s, key, digest, now, i);
      }
    }
  }

  lemma MatchedKeeps(c: Config, s: Store, key: Key, digest: Bytes, now: nat, i: nat)
    requires Listed(s) && i < |s.lru| && s.lru[i].key == key && Holds(c, s, key, Matches(digest), now).1
    ensures Without(Holds(c, s, key, Matches(digest), now).0.lru, key) == Removed(s.lru, i)
  {
    LookupAt(s.lru, i);
    LookupWithoutSame(s.lru, key);
    var y := s.lru[i].(digested := true);
    ReplaceAt(s.lru, i, y);
    HoldsListed(c, s, key, Matches(digest), now);
    var u := Holds(c, s, key, Matches(digest), now).0;
    WithoutAt(u.lru, i);
    assert Removed(s.lru[i := y], i) == Removed(s.lru, i);
  }

  // ---- batched gets ----

  /** What the batched operations call live is what a read would find. */
  lemma LiveValueIsRead(l: seq<Item>, key: Key, value: Bytes, now: nat)
    requires Ordered(l)
    ensures LiveValue(l, key, now) == Some(value) <==> Reads(l, key, value, now)
    ensures LiveValue(l, key, now) == None <==> !Live(l, key, now)
  {
    MissingLookup(l, key);
    if !Missing(l, key) {
      var i :| 0 <= i < |l| && l[i].key == key;
      LookupAt(l, i);
      ReadsAt(l, i, value, now);
    }
  }

  /** A get leaves every key as live as it was. */
  lemma GetKeepsLive(s: Store, key: Key, now: nat, k: Key)
    requires Listed(s)
    ensures LiveValue(Get(s, key, now).0.lru, k, now) == LiveValue(s.lru, k, now)
    ensures Get(s, key, now).1 == LiveValue(s.lru, key, now)
  {
    LookupMember(s.lru, key);
    LookupWithoutSame(s.lru, key);
    if k != key {
      LookupWithout(s.lru, key, k);
    }
    if Lookup(s.lru, key).Some? {
      var y := Lookup(s.lru, key).value.(lastUsed := s.clock + 1);
      LookupAppend(Without(s.lru, key), y, k);
    }
  }

  /**
   A batched get, whatever its cap and however its names repeat: each answer is the value live under that name
   when the batch began exactly if there is room left for it in the reply.
   */
  lemma {:induction false} GetManyAnswers(s: Store, ns: Bytes, names: seq<Bytes>, cap: nat, now: nat, k: Key)
    requires Listed(s)
    ensures var b := GetMany(Begin(s), ns, names, cap, now);
            && Listed(b.store) && |b.results| == |names| && b.used == ReplyBytes(b.results) <= cap
            && LiveValue(b.store.lru, k, now) == LiveValue(s.lru, k, now)
            && forall i :: 0 <= i < |names| ==>
                 b.results[i] ==
                 IfRoom(LiveValue(s.lru, Key(ns, names[i]), now), ReplyBytes(b.results[..i]), Some(cap))
    decreases |names|
  {
    if names == [] {
      NoBytes();
    } else {
      hide Get, GetMany, GetNext, Listed, LiveValue, ReplyBytes, IfRoom;
      var n := |names| - 1;
      var key := Key(ns, names[n]);
      var b := GetMany(Begin(s), ns, names[..n], cap, now);
      GetManyAnswers(s, ns, names[..n], cap, now, k);
      GetManyAnswers(s, ns, names[..n], cap, now, key);
      GetManyLast(Begin(s), ns, names, cap, now);
      var b' := GetNext(b, key, cap, now);
      GetNextAnswers(b, key, cap, now, k);
      ReplyGrows(b.results, b'.results[n]);
      assert b'.results[..n] == b.results && forall i :: 0 <= i < n ==> b'.results[..i] == b.results[..i];
    }
  }

  lemma GetNextAnswers(b: Batch, key: Key, cap: nat, now: nat, k: Key)
    requires Listed(b.store) && b.used <= cap
    ensures var b' := GetNext(b, key, cap, now);
            var answer := IfRoom(LiveValue(b.store.lru, key, now), b.used, Some(cap));
            && Listed(b'.store) && b'.results == b.results + [answer] && b'.used == b.used + ValueBytes(answer) <= cap
            && LiveValue(b'.store.lru, k, now) == LiveValue(b.store.lru, k, now)
  {
    hide Get, Listed, LiveValue;
    GetKeepsLive(b.store, key, now, k);
    GetListed(b.store, key, now);
  }

  lemma NoBytes()
    ensures ReplyBytes([]) == 0
  {
  }
}
