/** What the number a sweep returns says about the queue it leaves. */
module SweepCounts {
  import opened Basics
  import opened Lru
  import opened StoreSpec
  import opened Reachable
  import opened Sweeping
  import opened NoResurrection
  import opened MemoryBound

  /** A candidate that the sweep would remove if it came to judge it now. */
  predicate Removable(l: seq<Item>, key: Key, includeMarked: bool, owned: Option<Key -> bool>, now: nat) {
    match Lookup(l, key)
    case None => false
    case Some(x) => Expired(x.expiresAt, now) || (includeMarked && x.marked && !Keeps(owned, key))
  }

  ghost function RemovableAmong(l: seq<Item>, keys: seq<Key>, includeMarked: bool, owned: Option<Key -> bool>, now: nat)
    : set<Key>
  {
    set k | k in keys && Removable(l, k, includeMarked, owned, now)
  }

  /** Judging a candidate removes it if it is removable, and settles that one only. */
  lemma OneSettles(s: Store, key: Key, includeMarked: bool, owned: Option<Key -> bool>, now: nat, k: Key)
    requires Ordered(s.lru)
    ensures var (t, n) := SweepOne(s, key, includeMarked, owned, now);
            && n == (if Removable(s.lru, key, includeMarked, owned, now) then 1 else 0)
            && (k != key ==> Lookup(t.lru, k) == Lookup(s.lru, k))
            && (Removable(t.lru, k, includeMarked, owned, now) <==>
                k != key && Removable(s.lru, k, includeMarked, owned, now))
  {
    if k != key {
      LookupWithout(s.lru, key, k);
    }
    LookupWithoutSame(s.lru, key);
    LookupMember(s.lru, key);
    if Lookup(s.lru, key).Some? {
      LookupReplace(s.lru, Lookup(s.lru, key).value.(marked := false), k);
      LookupReplace(s.lru, Lookup(s.lru, key).value.(marked := false), key);
    }
  }

  lemma SettleFirst(s: Store, rest: seq<Key>, key: Key, includeMarked: bool, owned: Option<Key -> bool>, now: nat)
    requires Ordered(s.lru)
    ensures var (t, n) := SweepOne(s, key, includeMarked, owned, now);
            |RemovableAmong(s.lru, [key] + rest, includeMarked, owned, now)| ==
            n + |RemovableAmong(t.lru, rest, includeMarked, owned, now)|
  {
    hide Lookup, SweepOne, RemovableAmong, Ordered, Removable;
    var (t, n) := SweepOne(s, key, includeMarked, owned, now);
    forall k
      ensures Removable(t.lru, k, includeMarked, owned, now) <==>
              k != key && Removable(s.lru, k, includeMarked, owned, now)
    {
      OneSettles(s, key, includeMarked, owned, now, k);
    }
    OneSettles(s, key, includeMarked, owned, now, key);
    AmongFirst(s.lru, t.lru, rest, key, includeMarked, owned, now);
  }

  lemma AmongFirst(l: seq<Item>, l': seq<Item>, rest: seq<Key>, key: Key, includeMarked: bool,
                   owned: Option<Key -> bool>, now: nat)
    requires forall k :: Removable(l', k, includeMarked, owned, now) <==>
                         k != key && Removable(l, k, includeMarked, owned, now)
    ensures |RemovableAmong(l, [key] + rest, includeMarked, owned, now)| ==
            (if Removable(l, key, includeMarked, owned, now) then 1 else 0)
            + |RemovableAmong(l', rest, includeMarked, owned, now)|
  {
    hide Removable;
    var after := RemovableAmong(l', rest, includeMarked, owned, now);
    assert RemovableAmong(l, [key] + rest, includeMarked, owned, now) ==
           after + (if Removable(l, key, includeMarked, owned, now) then {key} else {});
    assert key !in after;
  }

  /** A pass removes each removable key among the candidates it judges, once. */
  lemma {:induction false} SomeCount(s: Store, budget: nat, includeMarked: bool, owned: Option<Key -> bool>, now: nat)
    requires Listed(s)
    ensures SweepSome(s, budget, includeMarked, owned, now).1 ==
            |RemovableAmong(s.lru, s.pending[..Min(budget, |s.pending|)], includeMarked, owned, now)|
    decreases budget
  {
    if budget > 0 && s.pending != [] {
      hide SweepOne, RemovableAmong, Ordered, StampedBy;
      var s' := s.(pending := s.pending[1..]);
      var key, rest := s.pending[0], s.pending[1..][..Min(budget - 1, |s.pending| - 1)];
      var t := SweepOne(s', key, includeMarked, owned, now).0;
      OneListed(s', key, includeMarked, owned, now);
      OneLeavesQueue(s', key, includeMarked, owned, now);
      SomeCount(t, budget - 1, includeMarked, owned, now);
      SettleFirst(s', rest, key, includeMarked, owned, now);
      assert s.pending[..Min(budget, |s.pending|)] == [key] + rest;
    } else {
      assert s.pending[..Min(budget, |s.pending|)] == [];
      assert RemovableAmong(s.lru, [], includeMarked, owned, now) == {};
    }
  }

  lemma OneLeavesQueue(s: Store, key: Key, includeMarked: bool, owned: Option<Key -> bool>, now: nat)
    ensures SweepOne(s, key, includeMarked, owned, now).0.pending == s.pending
  {
  }

  function Min(a: nat, b: nat): nat {
    if a < b then a else b
  }

  /** The queue a sweep works on. */
  function Queue(s: Store, refill: seq<Key>): seq<Key> {
    if s.pending == [] then refill else s.pending
  }

  /** The number returned: the distinct removable keys among the first SWEEP_BUDGET candidates. */
  lemma SweepCountIsRemovable(s: Store, refill: seq<Key>, includeMarked: bool, owned: Option<Key -> bool>, now: nat)
    requires Listed(s)
    ensures var judged := Queue(s, refill)[..Min(SWEEP_BUDGET, |Queue(s, refill)|)];
            Sweep(s, refill, includeMarked, owned, now).1 == |RemovableAmong(s.lru, judged, includeMarked, owned, now)|
  {
    var t := s.(tombs := Prune(s.tombs, now), pending := Queue(s, refill));
    SomeCount(t, SWEEP_BUDGET, includeMarked, owned, now);
  }

  /** Every candidate is removable and none is listed twice. */
  ghost predicate EachRemovable(l: seq<Item>, keys: seq<Key>, includeMarked: bool, owned: Option<Key -> bool>,
                                now: nat) {
    NoRepeat(keys) && forall k :: k in keys ==> Removable(l, k, includeMarked, owned, now)
  }

  ghost predicate NoRepeat(keys: seq<Key>) {
    forall i, j :: 0 <= i < j < |keys| ==> keys[i] != keys[j]
  }

  lemma {:induction false} DistinctIffSize(keys: seq<Key>)
    ensures |KeySet(keys)| <= |keys|
    ensures |KeySet(keys)| == |keys| <==> NoRepeat(keys)
  {
    if keys == [] {
      assert KeySet(keys) == {};
    } else {
      var last, before := keys[|keys| - 1], keys[..|keys| - 1];
      DistinctIffSize(before);
      assert KeySet(keys) == KeySet(before) + {last};
      if NoRepeat(keys) {
        assert NoRepeat(before) && last !in before;
      }
      if NoRepeat(before) && last !in before {
        assert NoRepeat(keys);
      }
    }
  }

  lemma AllCountIff(l: seq<Item>, keys: seq<Key>, includeMarked: bool, owned: Option<Key -> bool>, now: nat)
    ensures |RemovableAmong(l, keys, includeMarked, owned, now)| <= |keys|
    ensures |RemovableAmong(l, keys, includeMarked, owned, now)| == |keys| <==>
            EachRemovable(l, keys, includeMarked, owned, now)
  {
    hide Removable, NoRepeat;
    var some := RemovableAmong(l, keys, includeMarked, owned, now);
    DistinctIffSize(keys);
    SubsetSize(some, KeySet(keys));
    if some == KeySet(keys) {
      forall k | k in keys ensures Removable(l, k, includeMarked, owned, now) {
        assert k in some;
      }
    } else {
      var k :| k in KeySet(keys) && k !in some;
      SubsetSize(some, KeySet(keys) - {k});
      assert k in keys && !Removable(l, k, includeMarked, owned, now);
    }
  }

  /**
   Exactly when a number below SWEEP_BUDGET shows the queue drained: when the queue was no longer than the
   budget in the first place, or the first SWEEP_BUDGET candidates are all distinct and removable.
   */
  lemma CountShowsDrainedIff(s: Store, refill: seq<Key>, includeMarked: bool, owned: Option<Key -> bool>, now: nat)
    requires Listed(s)
    ensures var queue := Queue(s, refill);
            var (t, removed) := Sweep(s, refill, includeMarked, owned, now);
            (removed < SWEEP_BUDGET ==> t.pending == []) <==>
            (|queue| <= SWEEP_BUDGET || EachRemovable(s.lru, queue[..SWEEP_BUDGET], includeMarked, owned, now))
  {
    hide Sweep, RemovableAmong, EachRemovable, Listed;
    SweepCountIsRemovable(s, refill, includeMarked, owned, now);
    DrainedIffShortQueue(s, refill, includeMarked, owned, now);
    if |Queue(s, refill)| > SWEEP_BUDGET {
      AllCountIff(s.lru, Queue(s, refill)[..SWEEP_BUDGET], includeMarked, owned, now);
    }
  }

  // ---- a number below the budget that does not show it ----

  ghost predicate Unexpired(l: seq<Item>, now: nat) {
    forall x :: x in l ==> !Expired(x.expiresAt, now)
  }

  lemma NoneRemovable(l: seq<Item>, keys: seq<Key>, includeMarked: bool, owned: Option<Key -> bool>, now: nat)
    requires forall k :: k in keys ==> !Removable(l, k, includeMarked, owned, now)
    ensures RemovableAmong(l, keys, includeMarked, owned, now) == {}
  {
  }

  /**
   A sweep that keeps every marked copy it judges removes nothing, so with more than SWEEP_BUDGET marks it
   returns 0 and leaves candidates queued.
   */
  lemma KeptMarksAreNotCounted(s: Store, refill: seq<Key>, owned: Key -> bool, now: nat)
    requires Listed(s) && s.pending == [] && Unexpired(s.lru, now)
    requires Candidates(refill, s.lru, true, now) && |MarkedKeys(s.lru)| > SWEEP_BUDGET
    requires forall k :: k in MarkedKeys(s.lru) ==> owned(k)
    ensures var (t, removed) := Sweep(s, refill, true, Some(owned), now); removed == 0 && t.pending != []
  {
    CandidatesCover(s, refill, now);
    forall k ensures !Removable(s.lru, k, true, Some(owned), now) {
      LookupMember(s.lru, k);
      if Lookup(s.lru, k).Some? && Lookup(s.lru, k).value.marked {
        assert k in MarkedKeys(s.lru);
      }
    }
    hide Sweep, Candidates, Removable, RemovableAmong, Listed;
    SweepCountIsRemovable(s, refill, true, Some(owned), now);
    NoneRemovable(s.lru, refill[..SWEEP_BUDGET], true, Some(owned), now);
    DrainedIffShortQueue(s, refill, true, Some(owned), now);
  }

  /** A pass touches only the candidates it judges. */
  lemma {:induction false} SomeLeaveOthers(s: Store, budget: nat, includeMarked: bool, owned: Option<Key -> bool>,
                                           now: nat, k: Key)
    requires Listed(s) && k !in s.pending[..Min(budget, |s.pending|)]
    ensures Lookup(SweepSome(s, budget, includeMarked, owned, now).0.lru, k) == Lookup(s.lru, k)
    decreases budget
  {
    if budget > 0 && s.pending != [] {
      hide SweepOne, Lookup, Ordered, Removable;
      var s' := s.(pending := s.pending[1..]);
      var key := s.pending[0];
      var judged := s.pending[..Min(budget, |s.pending|)];
      assert judged[0] == key && judged[1..] == s'.pending[..Min(budget - 1, |s'.pending|)];
      assert k != key && k !in judged[1..];
      OneListed(s', key, includeMarked, owned, now);
      OneLeavesQueue(s', key, includeMarked, owned, now);
      OneSettles(s', key, includeMarked, owned, now, k);
      SomeLeaveOthers(SweepOne(s', key, includeMarked, owned, now).0, budget - 1, includeMarked, owned, now, k);
    }
  }

  function Deletes(keys: seq<Key>, now: nat): seq<Call> {
    if keys == [] then [] else Deletes(keys[..|keys| - 1], now) + [Call(Deleting(keys[|keys| - 1]), now)]
  }

  lemma {:induction false} AfterDeletes(c: Config, s: Store, keys: seq<Key>, now: nat, k: Key)
    requires Listed(s)
    ensures var t := After(c, s, Deletes(keys, now));
            && Listed(t) && t.pending == s.pending
            && Lookup(t.lru, k) == if k in keys then None else Lookup(s.lru, k)
    decreases |keys|
  {
    if keys != [] {
      var last, before := keys[|keys| - 1], keys[..|keys| - 1];
      assert keys == before + [last];
      AfterDeletes(c, s, before, now, k);
      var t := After(c, s, Deletes(before, now));
      assert Deletes(keys, now)[..|Deletes(keys, now)| - 1] == Deletes(before, now);
      assert After(c, s, Deletes(keys, now)) == t.(lru := Without(t.lru, last));
      RemovalListed(t, last);
      LookupWithoutSame(t.lru, last);
      if k != last {
        LookupWithout(t.lru, last, k);
      }
    }
  }

  lemma UnexpiredCandidates(l: seq<Item>, refill: seq<Key>, now: nat)
    requires Unexpired(l, now) && Candidates(refill, l, true, now)
    ensures Enumerates(refill, MarkedKeys(l))
  {
    var n: nat :| n <= |refill| && Enumerates(refill[..n], ExpiredKeys(l, now))
      && Enumerates(refill[n..], MarkedKeys(l));
    assert ExpiredKeys(l, now) == {};
    EnumeratesSize(refill[..n], ExpiredKeys(l, now));
    assert refill[n..] == refill;
  }

  /** The first sweep of more than two budgets of marks, with the second budget of candidates deleted after it. */
  ghost function DeletedBetween(c: Config, s: Store, refill: seq<Key>, now: nat): Store
    requires |refill| > 2 * SWEEP_BUDGET
  {
    After(c, Sweep(s, refill, true, None, now).0, Deletes(refill[SWEEP_BUDGET..2 * SWEEP_BUDGET], now))
  }

  lemma BetweenFacts(c: Config, s: Store, refill: seq<Key>, now: nat, k: Key)
    requires Listed(s) && s.pending == [] && |refill| > 2 * SWEEP_BUDGET
    ensures var t := DeletedBetween(c, s, refill, now);
            && Listed(t) && t.pending == refill[SWEEP_BUDGET..]
            && (k in refill[SWEEP_BUDGET..2 * SWEEP_BUDGET] ==> Lookup(t.lru, k).None?)
            && (k !in refill[..2 * SWEEP_BUDGET] ==> Lookup(t.lru, k) == Lookup(s.lru, k))
  {
    var u := s.(tombs := Prune(s.tombs, now), pending := refill);
    SomeConsume(u, SWEEP_BUDGET, true, None, now);
    SweepListed(u, SWEEP_BUDGET, true, None, now);
    AfterDeletes(c, Sweep(s, refill, true, None, now).0, refill[SWEEP_BUDGET..2 * SWEEP_BUDGET], now, k);
    assert refill[..2 * SWEEP_BUDGET] == refill[..SWEEP_BUDGET] + refill[SWEEP_BUDGET..2 * SWEEP_BUDGET];
    if k !in refill[..2 * SWEEP_BUDGET] {
      SomeLeaveOthers(u, SWEEP_BUDGET, true, None, now, k);
    }
  }

  /** The next plain sweep judges deleted keys only: it returns 0, and the marks it did not reach are still there. */
  lemma DeletedCandidatesAreNotCounted(c: Config, s: Store, refill: seq<Key>, now: nat)
    requires Listed(s) && s.pending == [] && Unexpired(s.lru, now)
    requires Candidates(refill, s.lru, true, now) && |refill| > 2 * SWEEP_BUDGET
    ensures var (t, removed) := Sweep(DeletedBetween(c, s, refill, now), [], true, None, now);
            && removed == 0 && t.pending == refill[2 * SWEEP_BUDGET..]
            && forall k :: k in t.pending ==> Marked(t.lru, k)
  {
    hide Sweep, SweepSome, Candidates, RemovableAmong, Listed, DeletedBetween, Deletes, Lookup, Prune;
    var u := DeletedBetween(c, s, refill, now);
    var dead := refill[SWEEP_BUDGET..2 * SWEEP_BUDGET];
    forall k ensures k in dead ==> Lookup(u.lru, k).None? {
      BetweenFacts(c, s, refill, now, k);
    }
    BetweenFacts(c, s, refill, now, refill[0]);
    assert u.pending[..SWEEP_BUDGET] == dead;
    SweepCountIsRemovable(u, [], true, None, now);
    NoneRemovable(u.lru, dead, true, None, now);
    RestStillMarked(c, s, refill, now);
  }

  lemma RestStillMarked(c: Config, s: Store, refill: seq<Key>, now: nat)
    requires Listed(s) && s.pending == [] && Unexpired(s.lru, now)
    requires Candidates(refill, s.lru, true, now) && |refill| > 2 * SWEEP_BUDGET
    ensures var t := Sweep(DeletedBetween(c, s, refill, now), [], true, None, now).0;
            && t.pending == refill[2 * SWEEP_BUDGET..]
            && forall k :: k in t.pending ==> Marked(t.lru, k)
  {
    assert Ordered(s.lru);
    hide SweepSome, Candidates, Listed, DeletedBetween, Deletes, Lookup, Prune, Marked, Ordered;
    var u := DeletedBetween(c, s, refill, now);
    UnexpiredCandidates(s.lru, refill, now);
    BetweenFacts(c, s, refill, now, refill[0]);
    var u' := u.(tombs := Prune(u.tombs, now));
    SweepKeepsListed(u, now);
    SomeConsume(u', SWEEP_BUDGET, true, None, now);
    var rest := refill[2 * SWEEP_BUDGET..];
    assert u'.pending[SWEEP_BUDGET..] == rest;
    assert u'.pending[..SWEEP_BUDGET] == refill[SWEEP_BUDGET..2 * SWEEP_BUDGET];
    forall k | k in rest ensures Marked(SweepSome(u', SWEEP_BUDGET, true, None, now).0.lru, k) {
      LateIsNotEarly(refill, 2 * SWEEP_BUDGET, k);
      BetweenFacts(c, s, refill, now, k);
      SomeLeaveOthers(u', SWEEP_BUDGET, true, None, now, k);
      MarkedKeyIsMarked(s.lru, u.lru, SweepSome(u', SWEEP_BUDGET, true, None, now).0.lru, k);
    }
  }

  lemma SweepKeepsListed(s: Store, now: nat)
    requires Listed(s)
    ensures Listed(s.(tombs := Prune(s.tombs, now)))
  {
  }

  lemma LateIsNotEarly(keys: seq<Key>, n: nat, k: Key)
    requires n <= |keys| && k in keys[n..]
    requires NoRepeat(keys)
    ensures k in keys && k !in keys[..n]
    ensures n == 2 * SWEEP_BUDGET ==> k !in keys[SWEEP_BUDGET..n]
  {
    var j :| 0 <= j < |keys[n..]| && keys[n..][j] == k;
    assert keys[n + j] == k;
  }

  lemma MarkedKeyIsMarked(l: seq<Item>, mid: seq<Item>, end: seq<Item>, k: Key)
    requires Ordered(l) && k in MarkedKeys(l)
    requires Lookup(mid, k) == Lookup(l, k) && Lookup(end, k) == Lookup(mid, k)
    ensures Marked(end, k)
  {
    var x :| x in l && x.marked && x.key == k;
    LookupUnique(l, x);
  }

  // ---- such a store is reached from an empty one ----

  /** The i-th key written i-th and marked. */
  function MarkedList(keys: seq<Key>): seq<Item> {
    if keys == [] then []
    else MarkedList(keys[..|keys| - 1]) + [Item(keys[|keys| - 1], [], None, |keys|, true, false)]
  }

  /** Each key written, with no TTL, and marked. */
  function MarkingRun(keys: seq<Key>, now: nat): seq<Call> {
    if keys == [] then []
    else
      var key := keys[|keys| - 1];
      MarkingRun(keys[..|keys| - 1], now) + [Call(Setting(key, [], None), now)] + [Call(Marking(key), now)]
  }

  lemma {:induction false} MarkedListMembers(keys: seq<Key>)
    requires NoRepeat(keys)
    ensures |MarkedList(keys)| == |keys|
    ensures forall i :: 0 <= i < |keys| ==> MarkedList(keys)[i] == Item(keys[i], [], None, i + 1, true, false)
  {
    if keys != [] {
      MarkedListMembers(keys[..|keys| - 1]);
    }
  }

  /** Everything the keys would be charged, written and marked. */
  ghost predicate Ample(c: Config, keys: seq<Key>) {
    && ListBytes(MarkedList(keys)) <= c.maxMemory
    && forall k :: k in keys ==> BudgetOf(c, k.ns).None?
  }

  lemma {:induction false} ReplaceLast(l: seq<Item>, x: Item, y: Item)
    requires Lookup(l, x.key).None? && y.key == x.key
    ensures Lookup(l + [x], x.key) == Some(x) && Replace(l + [x], y) == l + [y]
  {
    if l != [] {
      assert (l + [x])[1..] == l[1..] + [x];
      ReplaceLast(l[1..], x, y);
    }
  }

  lemma WriteAndMark(c: Config, s: Store, key: Key, now: nat)
    requires Lookup(s.lru, key).None? && BudgetOf(c, key.ns).None? && s.tombs.live == map[]
    requires ListBytes(s.lru + [Item(key, [], None, s.clock + 1, true, false)]) <= c.maxMemory
    ensures Apply(c, Apply(c, s, Setting(key, [], None), now).0, Marking(key), now).0 ==
            s.(lru := s.lru + [Item(key, [], None, s.clock + 1, true, false)], clock := s.clock + 1)
  {
    hide Put, ListBytes, Lookup, BudgetOf, Replace;
    var x := Item(key, [], None, s.clock + 1, false, false);
    AppendedBytes(s.lru, x);
    WriteHasRoom(c, s, key, now);
    ReplaceLast(s.lru, x, x.(marked := true));
  }

  lemma {:induction false} MarkingRunMarks(c: Config, keys: seq<Key>, now: nat)
    requires NoRepeat(keys)
    requires Ample(c, keys)
    ensures After(c, EMPTY, MarkingRun(keys, now)) == Filled(keys)
    decreases |keys|
  {
    if keys != [] {
      hide Apply, ListBytes, Lookup, After, Ample, BudgetOf, NoRepeat;
      var key, before := keys[|keys| - 1], keys[..|keys| - 1];
      AmplePrefix(c, keys);
      NotYetListed(keys);
      MarkingRunMarks(c, before, now);
      var run := MarkingRun(before, now);
      TwoCalls(c, EMPTY, run, Call(Setting(key, [], None), now), Call(Marking(key), now));
      WriteAndMark(c, After(c, EMPTY, run), key, now);
    }
  }

  lemma NotYetListed(keys: seq<Key>)
    requires keys != [] && NoRepeat(keys)
    ensures NoRepeat(keys[..|keys| - 1])
    ensures Lookup(MarkedList(keys[..|keys| - 1]), keys[|keys| - 1]).None?
  {
    var before := keys[..|keys| - 1];
    MarkedListMembers(before);
    LookupMember(MarkedList(before), keys[|keys| - 1]);
  }

  lemma AmplePrefix(c: Config, keys: seq<Key>)
    requires keys != [] && Ample(c, keys)
    ensures Ample(c, keys[..|keys| - 1]) && BudgetOf(c, keys[|keys| - 1].ns).None?
    ensures ListBytes(MarkedList(keys)) <= c.maxMemory
  {
    hide ListBytes, BudgetOf;
    var key, before := keys[|keys| - 1], keys[..|keys| - 1];
    AppendedBytes(MarkedList(before), Item(key, [], None, |keys|, false, false));
    assert key in keys;
  }

  /** Keys written and marked, a plain sweep, and the next budget of candidates deleted. */
  function StaleRun(keys: seq<Key>, refill: seq<Key>, now: nat): seq<Call>
    requires |refill| > 2 * SWEEP_BUDGET
  {
    MarkingRun(keys, now) + ([Call(Sweeping(refill, true, None), now)]
                             + Deletes(refill[SWEEP_BUDGET..2 * SWEEP_BUDGET], now))
  }

  /**
   A plain sweep that returned less than SWEEP_BUDGET has not necessarily drained its backlog, on a store that
   a run from an empty one reaches: it returns 0 here, and every candidate it leaves queued is still marked.
   */
  lemma FewRemovedIsNotDrained(c: Config, keys: seq<Key>, refill: seq<Key>, now: nat)
    requires |keys| > 2 * SWEEP_BUDGET && NoRepeat(keys)
    requires Ample(c, keys) && Enumerates(refill, KeySet(keys))
    ensures |refill| == |keys| && Candidates(refill, After(c, EMPTY, MarkingRun(keys, now)).lru, true, now)
    ensures var (t, removed) := Sweep(After(c, EMPTY, StaleRun(keys, refill, now)), [], true, None, now);
            && removed == 0 && t.pending == refill[2 * SWEEP_BUDGET..] != []
            && forall k :: k in t.pending ==> Marked(t.lru, k)
  {
    hide Sweep, Candidates, Marked, Listed, MarkingRun, Ample, After, StaleRun, DeletedBetween, MarkedList, Enumerates,
         NoRepeat, KeySet;
    MarkedCandidates(keys, refill, now);
    StaleRunReaches(c, keys, refill, now);
    DeletedCandidatesAreNotCounted(c, Filled(keys), refill, now);
  }

  /** The store with those keys written and marked. */
  function Filled(keys: seq<Key>): Store {
    EMPTY.(lru := MarkedList(keys), clock := |keys|)
  }

  lemma StaleRunReaches(c: Config, keys: seq<Key>, refill: seq<Key>, now: nat)
    requires |refill| > 2 * SWEEP_BUDGET && NoRepeat(keys) && Ample(c, keys)
    ensures After(c, EMPTY, MarkingRun(keys, now)) == Filled(keys)
    ensures After(c, EMPTY, StaleRun(keys, refill, now)) == DeletedBetween(c, Filled(keys), refill, now)
  {
    hide Sweep, Deletes, MarkingRun, Ample, After, MarkedList, NoRepeat;
    MarkingRunMarks(c, keys, now);
    var swept := Call(Sweeping(refill, true, None), now);
    var rest := Deletes(refill[SWEEP_BUDGET..2 * SWEEP_BUDGET], now);
    AfterConcat(c, EMPTY, MarkingRun(keys, now), [swept] + rest);
    AfterConcat(c, Filled(keys), [swept], rest);
    OneCall(c, Filled(keys), swept);
  }

  lemma MarkedCandidates(keys: seq<Key>, refill: seq<Key>, now: nat)
    requires NoRepeat(keys)
    requires Enumerates(refill, KeySet(keys))
    ensures var s := Filled(keys);
            Listed(s) && Unexpired(s.lru, now) && Candidates(refill, s.lru, true, now) && |refill| == |keys|
  {
    hide MarkedList;
    MarkedListMembers(keys);
    var l := MarkedList(keys);
    EnumeratesSize(refill, KeySet(keys));
    EnumeratesSize(keys, KeySet(keys));
    forall x | x in l ensures x.marked && x.expiresAt.None? && x.key in keys && x.lastUsed <= |keys| {
    }
    forall k | k in keys ensures k in MarkedKeys(l) {
      var i :| 0 <= i < |keys| && keys[i] == k;
      assert l[i] in l;
    }
    MarksAreCandidates(l, keys, refill, now);
  }

  lemma MarksAreCandidates(l: seq<Item>, keys: seq<Key>, refill: seq<Key>, now: nat)
    requires forall x :: x in l ==> x.marked && x.expiresAt.None? && x.key in keys
    requires forall k :: k in keys ==> k in MarkedKeys(l)
    requires Enumerates(refill, KeySet(keys))
    ensures Candidates(refill, l, true, now)
  {
    hide Enumerates;
    assert ExpiredKeys(l, now) == {};
    assert MarkedKeys(l) == KeySet(keys);
    NothingEnumerated();
    assert refill[..0] == [] && refill[0..] == refill;
  }

  lemma NothingEnumerated()
    ensures Enumerates([], {})
  {
  }
}
