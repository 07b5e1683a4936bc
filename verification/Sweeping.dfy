/** What a sweep may remove, and that repeated sweeps drain the backlog. */
module Sweeping {
  import opened Basics
  import opened Lru
  import opened StoreSpec
  import opened Reachable

  /** What a sweep is entitled to remove or unmark. */
  predicate Sweepable(x: Item, includeMarked: bool, now: nat) {
    Expired(x.expiresAt, now) || (includeMarked && x.marked)
  }

  lemma OneSpares(s: Store, key: Key, includeMarked: bool, owned: Option<Key -> bool>, now: nat, x: Item)
    requires Ordered(s.lru) && x in s.lru && !Sweepable(x, includeMarked, now)
    ensures x in SweepOne(s, key, includeMarked, owned, now).0.lru
  {
    LookupUnique(s.lru, x);
    LookupMember(s.lru, key);
    WithoutMembers(s.lru, key);
    if Lookup(s.lru, key).Some? {
      ReplaceMembers(s.lru, Lookup(s.lru, key).value.(marked := false));
    }
  }

  lemma {:induction false} SomeSpare(s: Store, budget: nat, includeMarked: bool, owned: Option<Key -> bool>, now: nat,
                                     x: Item)
    requires Listed(s) && x in s.lru && !Sweepable(x, includeMarked, now)
    ensures x in SweepSome(s, budget, includeMarked, owned, now).0.lru
    decreases budget
  {
    if budget > 0 && s.pending != [] {
      var s' := s.(pending := s.pending[1..]);
      OneSpares(s', s.pending[0], includeMarked, owned, now, x);
      OneListed(s', s.pending[0], includeMarked, owned, now);
      SomeSpare(SweepOne(s', s.pending[0], includeMarked, owned, now).0, budget - 1, includeMarked, owned, now, x);
    }
  }

  lemma OneListed(s: Store, key: Key, includeMarked: bool, owned: Option<Key -> bool>, now: nat)
    requires Listed(s)
    ensures Listed(SweepOne(s, key, includeMarked, owned, now).0)
  {
    RemovalListed(s, key);
    UnmarkListed(s, key);
  }

  /**
   Whatever candidates are queued, however stale, an item that is unexpired and unmarked when the sweep
   runs is left exactly as it is: a value rewritten after it was queued survives.
   */
  lemma SweepSparesLive(s: Store, refill: seq<Key>, includeMarked: bool, owned: Option<Key -> bool>, now: nat, x: Item)
    requires Listed(s) && x in s.lru && !Sweepable(x, includeMarked, now)
    ensures x in Sweep(s, refill, includeMarked, owned, now).0.lru
  {
    var t := s.(tombs := Prune(s.tombs, now), pending := if s.pending == [] then refill else s.pending);
    SomeSpare(t, SWEEP_BUDGET, includeMarked, owned, now, x);
  }

  // ---- draining ----

  /** Everything sweepable is queued. */
  ghost predicate Covered(s: Store, now: nat) {
    forall x :: x in s.lru && Sweepable(x, true, now) ==> x.key in s.pending
  }

  ghost predicate Clean(s: Store, now: nat) {
    forall x :: x in s.lru ==> !Expired(x.expiresAt, now) && !x.marked
  }

  lemma OneCovers(s: Store, owned: Option<Key -> bool>, now: nat)
    requires Listed(s) && Covered(s, now) && s.pending != []
    ensures Covered(SweepOne(s.(pending := s.pending[1..]), s.pending[0], true, owned, now).0, now)
  {
    var key := s.pending[0];
    var s' := s.(pending := s.pending[1..]);
    var t := SweepOne(s', key, true, owned, now).0;
    LookupMember(s.lru, key);
    WithoutMembers(s.lru, key);
    if Lookup(s.lru, key).Some? {
      ReplaceMembers(s.lru, Lookup(s.lru, key).value.(marked := false));
    }
    forall x | x in t.lru && Sweepable(x, true, now) ensures x.key in t.pending {
      assert x in s.lru;
      LookupUnique(s.lru, x);
      assert x.key in s.pending && x.key != key;
    }
  }

  /** A pass judges as many candidates as its budget allows and leaves the rest queued. */
  lemma {:induction false} SomeCover(s: Store, budget: nat, owned: Option<Key -> bool>, now: nat)
    requires Listed(s) && Covered(s, now)
    ensures var t := SweepSome(s, budget, true, owned, now).0;
            && Listed(t) && Covered(t, now)
            && |t.pending| == (if |s.pending| <= budget then 0 else |s.pending| - budget)
    decreases budget
  {
    if budget > 0 && s.pending != [] {
      var s' := s.(pending := s.pending[1..]);
      OneCovers(s, owned, now);
      OneListed(s', s.pending[0], true, owned, now);
      SomeCover(SweepOne(s', s.pending[0], true, owned, now).0, budget - 1, owned, now);
    }
  }

  /** `n` marked sweeps at one instant, the i-th refilling an empty queue with `refills[i]`. */
  function Sweeps(s: Store, refills: seq<seq<Key>>, owned: Option<Key -> bool>, now: nat): Store
    decreases |refills|
  {
    if refills == [] then s else Sweeps(Sweep(s, refills[0], true, owned, now).0, refills[1..], owned, now)
  }

  /** Each sweep that finds the queue empty refills it with the candidates of that moment. */
  ghost predicate Refilled(s: Store, refills: seq<seq<Key>>, owned: Option<Key -> bool>, now: nat)
    decreases |refills|
  {
    refills == [] ||
    (&& (s.pending == [] ==> Candidates(refills[0], s.lru, true, now))
     && Refilled(Sweep(s, refills[0], true, owned, now).0, refills[1..], owned, now))
  }

  lemma {:induction false} EnumeratesSize(keys: seq<Key>, s: set<Key>)
    requires Enumerates(keys, s)
    ensures |keys| == |s|
  {
    if keys == [] {
      assert s == {};
    } else {
      assert keys[0] in keys && keys[0] in s;
      forall k | k in keys[1..] ensures k in s && k != keys[0] {
        assert k in keys;
      }
      forall k | k in s && k != keys[0] ensures k in keys[1..] {
        assert k in keys;
      }
      EnumeratesSize(keys[1..], s - {keys[0]});
    }
  }

  /** The number of keys a sweep has to judge: the expired and the marked, one that is both counted twice. */
  ghost function Backlog(l: seq<Item>, now: nat): nat {
    |ExpiredKeys(l, now)| + |MarkedKeys(l)|
  }

  lemma CandidatesCover(s: Store, refill: seq<Key>, now: nat)
    requires Candidates(refill, s.lru, true, now)
    ensures Covered(s.(pending := refill), now) && |refill| == Backlog(s.lru, now)
  {
    var n: nat :| n <= |refill| && Enumerates(refill[..n], ExpiredKeys(s.lru, now))
      && Enumerates(refill[n..], MarkedKeys(s.lru));
    EnumeratesSize(refill[..n], ExpiredKeys(s.lru, now));
    EnumeratesSize(refill[n..], MarkedKeys(s.lru));
    forall x | x in s.lru && Sweepable(x, true, now) ensures x.key in refill {
      if Expired(x.expiresAt, now) {
        assert x.key in ExpiredKeys(s.lru, now);
        assert x.key in refill[..n];
      } else {
        assert x.key in MarkedKeys(s.lru);
        assert x.key in refill[n..];
      }
    }
  }

  /** Once covered, the queue shrinks by the budget each sweep until the store is clean, and it stays clean. */
  lemma {:induction false} CoveredDrains(s: Store, refills: seq<seq<Key>>, owned: Option<Key -> bool>, now: nat)
    requires Listed(s) && Covered(s, now) && Refilled(s, refills, owned, now)
    requires |s.pending| <= |refills| * SWEEP_BUDGET
    ensures Clean(Sweeps(s, refills, owned, now), now)
    decreases |refills|
  {
    if refills == [] {
      assert s.pending == [];
    } else {
      if s.pending == [] {
        CandidatesCover(s, refills[0], now);
        NothingLeft(s, now);
      }
      var t := s.(tombs := Prune(s.tombs, now), pending := if s.pending == [] then refills[0] else s.pending);
      SomeCover(t, SWEEP_BUDGET, owned, now);
      assert |refills[1..]| * SWEEP_BUDGET == |refills| * SWEEP_BUDGET - SWEEP_BUDGET;
      CoveredDrains(Sweep(s, refills[0], true, owned, now).0, refills[1..], owned, now);
    }
  }

  lemma NothingLeft(s: Store, now: nat)
    requires Covered(s, now) && s.pending == []
    ensures ExpiredKeys(s.lru, now) == {} && MarkedKeys(s.lru) == {}
  {
    forall x | x in s.lru ensures !Sweepable(x, true, now) {
    }
  }

  /**
   Starting from an empty queue, as many marked sweeps at one instant as the backlog takes at
   SWEEP_BUDGET apiece, rounded up, leave no expired entry and no mark.
   */
  lemma SweepsDrain(s: Store, refills: seq<seq<Key>>, owned: Option<Key -> bool>, now: nat)
    requires Listed(s) && s.pending == [] && Refilled(s, refills, owned, now)
    requires Backlog(s.lru, now) <= |refills| * SWEEP_BUDGET
    ensures Clean(Sweeps(s, refills, owned, now), now)
  {
    if refills == [] {
      forall x | x in s.lru ensures !Expired(x.expiresAt, now) && !x.marked {
        assert Expired(x.expiresAt, now) ==> x.key in ExpiredKeys(s.lru, now);
        assert x.marked ==> x.key in MarkedKeys(s.lru);
      }
    } else {
      CandidatesCover(s, refills[0], now);
      var t := s.(tombs := Prune(s.tombs, now), pending := refills[0]);
      SomeCover(t, SWEEP_BUDGET, owned, now);
      assert |refills[1..]| * SWEEP_BUDGET == |refills| * SWEEP_BUDGET - SWEEP_BUDGET;
      CoveredDrains(Sweep(s, refills[0], true, owned, now).0, refills[1..], owned, now);
    }
  }

  lemma {:induction false} SomeConsume(s: Store, budget: nat, includeMarked: bool, owned: Option<Key -> bool>, now: nat)
    ensures SweepSome(s, budget, includeMarked, owned, now).0.pending ==
            s.pending[if |s.pending| <= budget then |s.pending| else budget..]
    decreases budget
  {
    if budget > 0 && s.pending != [] {
      var s' := s.(pending := s.pending[1..]);
      SomeConsume(SweepOne(s', s.pending[0], includeMarked, owned, now).0, budget - 1, includeMarked, owned, now);
    }
  }

  /**
   A sweep drains its queue exactly when the queue it started on, the refill included, was no longer
   than the budget, whatever it removed.
   */
  lemma DrainedIffShortQueue(s: Store, refill: seq<Key>, includeMarked: bool, owned: Option<Key -> bool>, now: nat)
    ensures var queue := if s.pending == [] then refill else s.pending;
            Sweep(s, refill, includeMarked, owned, now).0.pending == [] <==> |queue| <= SWEEP_BUDGET
  {
    var t := s.(tombs := Prune(s.tombs, now), pending := if s.pending == [] then refill else s.pending);
    SomeConsume(t, SWEEP_BUDGET, includeMarked, owned, now);
  }
}
