/** What relayed writes, reclaims, marks and sweeps do, told by the entries and tombstones alone. */
module UpkeepLaws {
  import opened Basics
  import opened Lru
  import opened StoreSpec
  import opened Eviction
  import opened Reachable
  import opened Sweeping
  import opened ClientLaws

  // ---- relayed writes ----

  /** Only a write ahead of the ring is noted: its instant, and one more in a counter that wraps. */
  lemma HandoffIsNoted(s: Store, ahead: bool, now: nat)
    ensures var t := NoteHandoff(s, ahead, now);
            && t == s.(lastHandoff := t.lastHandoff, handoffWrites := t.handoffWrites)
            && t.lastHandoff == (if ahead then Some(now) else s.lastHandoff)
            && (s.handoffWrites < WRITES_WRAP ==>
                  t.handoffWrites == if !ahead then s.handoffWrites
                                     else if s.handoffWrites + 1 == WRITES_WRAP then 0 else s.handoffWrites + 1)
  {
  }

  /** The entry is already what a relayed write would make it: live, the same value, and just as mortal. */
  ghost predicate Already(c: Config, l: seq<Item>, key: Key, value: Bytes, ttl: Option<nat>, now: nat) {
    exists i :: 0 <= i < |l| && l[i].key == key && l[i].value == value && Alive(l[i], now)
                && (l[i].expiresAt.Some? <==> ttl.Some? && now + ttl.value <= c.horizon)
  }

  /**
   A relayed write with a lifetime stores the value for it and answers whether that changed anything; with a zero
   TTL it leaves nothing under the key and a tombstone stamped now.
   */
  lemma HandoffSetActs(c: Config, s: Store, key: Key, value: Bytes, ttl: Option<nat>, ahead: bool, now: nat)
    requires Listed(s)
    ensures var (t, changed) := HandoffSet(c, s, key, value, ttl, ahead, now);
            if ttl == Some(0) then changed && Missing(t.lru, key) && key in t.tombs.live && t.tombs.live[key] == now
            else
              && LivesFor(c, t.lru, key, value, now, ttl) && t.tombs == s.tombs
              && (changed <==> !Already(c, s.lru, key, value, ttl, now))
  {
    hide Put, LivesFor, Already, Delete, Bury, ClientLaws.Missing;
    var t := NoteHandoff(s, ahead, now);
    if ttl == Some(0) {
      DeleteActs(t, key, now);
      BuryStamps(t.tombs, key, now);
    } else {
      WriteLives(c, t, key, value, now, ttl);
      PutTombs(c);
      AlreadyIs(c, s.lru, key, value, ttl, now);
    }
  }

  lemma BuryStamps(t: Tombs, key: Key, now: nat)
    ensures key in Bury(t, key, now).live && Bury(t, key, now).live[key] == now
  {
  }

  lemma AlreadyIs(c: Config, l: seq<Item>, key: Key, value: Bytes, ttl: Option<nat>, now: nat)
    requires Ordered(l)
    ensures Already(c, l, key, value, ttl, now) <==>
            match Lookup(l, key)
            case None => false
            case Some(x) =>
              !Expired(x.expiresAt, now) && x.value == value && x.expiresAt.Some? == Expiry(c, now, ttl).Some?
  {
    MissingLookup(l, key);
    if !Missing(l, key) {
      var i :| 0 <= i < |l| && l[i].key == key;
      LookupAt(l, i);
      OnlyPlace(l, i);
    }
  }

  /** A relayed delete answers whether a live entry was there, and leaves none and a tombstone stamped now. */
  lemma HandoffDeleteActs(s: Store, key: Key, now: nat)
    requires Listed(s)
    ensures var (t, removed) := HandoffDelete(s, key, now);
            && (removed <==> Live(s.lru, key, now)) && Missing(t.lru, key)
            && key in t.tombs.live && t.tombs.live[key] == now
            && (Missing(s.lru, key) ==> t.lru == s.lru)
            && forall i :: 0 <= i < |s.lru| && s.lru[i].key == key ==> t.lru == Removed(s.lru, i)
  {
    hide Prune, ForgetOldest, LiveStamps, Live, Missing;
    DeleteActs(s, key, now);
  }

  /** A tombstone younger than its TTL stands for the key. */
  predicate Standing(t: Tombs, key: Key, now: nat) {
    key in t.live && now < t.live[key] + HANDOFF_TOMBSTONE_TTL
  }

  /**
   A put-if-absent is stored exactly if no tombstone stands for the key and no live copy is there but a marked
   one; then it lives for its TTL, unmarked, and otherwise the entries are as they were.
   */
  lemma PutIfAbsentActs(c: Config, s: Store, key: Key, value: Bytes, ttl: Option<nat>, ahead: bool, now: nat)
    requires Listed(s)
    ensures var (t, stored) := HandoffSetIfAbsent(c, s, key, value, ttl, ahead, now);
            && (stored <==>
                  && !Standing(s.tombs, key, now)
                  && forall i :: 0 <= i < |s.lru| && s.lru[i].key == key && Alive(s.lru[i], now) ==> s.lru[i].marked)
            && (stored ==> LivesFor(c, t.lru, key, value, now, ttl)
                           && forall i :: 0 <= i < |t.lru| && t.lru[i].key == key ==> !t.lru[i].marked)
            && (!stored ==> t.lru == s.lru) && t.tombs == s.tombs
  {
    hide Put, LivesFor, Ordered, StampedBy;
    var u := NoteHandoff(s, ahead, now);
    MissingLookup(u.lru, key);
    PutTombs(c);
    if !Missing(s.lru, key) {
      var i :| 0 <= i < |s.lru| && s.lru[i].key == key;
      LookupAt(s.lru, i);
      LookupWithoutSame(s.lru, key);
      OnlyPlace(s.lru, i);
    }
    var w := Holds(c, u, key, Absent, now).0;
    HoldsListed(c, u, key, Absent, now);
    WriteLives(c, w, key, value, now, ttl);
    WrittenUnmarked(c, w, key, value, Expiry(c, now, ttl));
  }

  lemma OnlyPlace(l: seq<Item>, i: nat)
    requires Ordered(l) && i < |l|
    ensures forall j :: 0 <= j < |l| && l[j].key == l[i].key ==> j == i
  {
  }

  lemma WrittenUnmarked(c: Config, s: Store, key: Key, value: Bytes, expiresAt: Option<nat>)
    requires Listed(s)
    ensures var t := Put(c, s, key, value, expiresAt);
            forall i :: 0 <= i < |t.lru| && t.lru[i].key == key ==> !t.lru[i].marked
  {
    hide Put;
    WriteIsKept(c, s, key, value, expiresAt);
    var t := Put(c, s, key, value, expiresAt);
    forall i | 0 <= i < |t.lru| && t.lru[i].key == key ensures !t.lru[i].marked {
      LookupUnique(t.lru, t.lru[i]);
    }
  }

  // ---- reclaim ----

  /** The distinct keys a reclaim is to remove: listed, held and not owned. */
  ghost function Unowned(l: seq<Item>, keys: seq<Key>, owned: Key -> bool): set<Key> {
    set k | k in keys && !owned(k) && !Missing(l, k)
  }

  lemma {:induction false} ReclaimAllActs(s: Store, keys: seq<Key>, owned: Key -> bool, k: Key)
    requires Listed(s)
    ensures var (t, removed) := ReclaimAll(s, keys, owned);
            && removed == |Unowned(s.lru, keys, owned)|
            && t == s.(lru := t.lru, tombs := s.tombs.(live := t.tombs.live))
            && (if k in Unowned(s.lru, keys, owned) then Missing(t.lru, k) && k !in t.tombs.live
                else
                  && Lookup(t.lru, k) == Lookup(s.lru, k)
                  && (k in t.tombs.live <==> k in s.tombs.live)
                  && (k in s.tombs.live ==> t.tombs.live[k] == s.tombs.live[k]))
    decreases |keys|
  {
    if keys == [] {
      assert Unowned(s.lru, keys, owned) == {};
    } else {
      hide Ordered, StampedBy, ClientLaws.Missing, Without, Lookup, Unowned;
      var first, rest := keys[0], keys[1..];
      MissingLookup(s.lru, first);
      if Lookup(s.lru, first).Some? && !owned(first) {
        var t := s.(lru := Without(s.lru, first), tombs := s.tombs.(live := s.tombs.live - {first}));
        RemovalListed(s, first);
        ReclaimAllActs(t, rest, owned, k);
        UnownedFirst(s.lru, keys, owned);
        FirstIsGone(s.lru, first, ReclaimAll(t, rest, owned).0.lru, k);
      } else {
        ReclaimAllActs(s, rest, owned, k);
        UnownedRest(s.lru, keys, owned);
      }
    }
  }

  lemma UnownedRest(l: seq<Item>, keys: seq<Key>, owned: Key -> bool)
    requires keys != [] && (owned(keys[0]) || Missing(l, keys[0]))
    ensures Unowned(l, keys, owned) == Unowned(l, keys[1..], owned)
  {
    hide ClientLaws.Missing;
  }

  lemma FirstIsGone(l: seq<Item>, first: Key, end: seq<Item>, k: Key)
    requires Ordered(l)
    ensures k != first ==> Lookup(Without(l, first), k) == Lookup(l, k)
    ensures k == first && Lookup(end, k) == Lookup(Without(l, first), k) ==> Missing(end, k)
  {
    LookupWithoutSame(l, first);
    MissingLookup(end, k);
    if k != first {
      LookupWithout(l, first, k);
    }
  }

  lemma UnownedFirst(l: seq<Item>, keys: seq<Key>, owned: Key -> bool)
    requires Ordered(l) && keys != [] && !owned(keys[0]) && !Missing(l, keys[0])
    ensures var rest := Unowned(Without(l, keys[0]), keys[1..], owned);
            Unowned(l, keys, owned) == rest + {keys[0]} && keys[0] !in rest
  {
    hide Missing, Ordered;
    forall k ensures Missing(Without(l, keys[0]), k) <==> k == keys[0] || Missing(l, k) {
      MissingLookup(l, k);
      MissingLookup(Without(l, keys[0]), k);
      LookupWithoutSame(l, keys[0]);
      if k != keys[0] {
        LookupWithout(l, keys[0], k);
      }
    }
  }

  /**
   A reclaim is paused exactly while the last noted handoff is younger than `quiet`, and then touches nothing.
   Otherwise it removes each listed key that is held and not owned, with its tombstone, counting each once; an
   owned key, and one that is not listed, keeps its entry and its tombstone.
   */
  lemma ReclaimActs(s: Store, keys: seq<Key>, owned: Key -> bool, quiet: nat, now: nat, k: Key)
    requires Listed(s)
    ensures var (t, answer) := Reclaim(s, keys, owned, quiet, now);
            if quiet > 0 && s.lastHandoff.Some? && now < s.lastHandoff.value + quiet then answer == None && t == s
            else
              && answer == Some(|Unowned(s.lru, keys, owned)|)
              && t == s.(lru := t.lru, tombs := s.tombs.(live := t.tombs.live))
              && (if k in keys && !owned(k) && !Missing(s.lru, k) then Missing(t.lru, k) && k !in t.tombs.live
                  else
                    && Lookup(t.lru, k) == Lookup(s.lru, k)
                    && (k in t.tombs.live <==> k in s.tombs.live)
                    && (k in s.tombs.live ==> t.tombs.live[k] == s.tombs.live[k]))
  {
    hide ReclaimAll, Missing, Listed;
    ReclaimAllActs(s, keys, owned, k);
  }

  // ---- marks ----

  /** A mark changes one thing: that the entry under the key is marked. */
  lemma MarkActs(s: Store, key: Key)
    requires Listed(s)
    ensures var t := Mark(s, key);
            && (Missing(s.lru, key) ==> t == s)
            && forall i :: 0 <= i < |s.lru| && s.lru[i].key == key ==>
                 t == s.(lru := s.lru[i := s.lru[i].(marked := true)])
  {
    MissingLookup(s.lru, key);
    forall i | 0 <= i < |s.lru| && s.lru[i].key == key
      ensures Mark(s, key) == s.(lru := s.lru[i := s.lru[i].(marked := true)])
    {
      LookupAt(s.lru, i);
      ReplaceAt(s.lru, i, s.lru[i].(marked := true));
    }
  }

  /** Unmarking clears the marks of the listed keys, and changes nothing else. */
  lemma {:induction false} UnmarkAllActs(s: Store, keys: seq<Key>, i: nat)
    requires Listed(s) && i < |s.lru|
    ensures |UnmarkAll(s.lru, keys)| == |s.lru|
    ensures UnmarkAll(s.lru, keys)[i] == if s.lru[i].key in keys then s.lru[i].(marked := false) else s.lru[i]
    decreases |keys|
  {
    if keys != [] {
      hide Ordered, StampedBy, Unmark;
      UnmarkOne(s.lru, keys[0], i);
      UnmarkListed(s, keys[0]);
      UnmarkAllActs(s.(lru := Unmark(s.lru, keys[0])), keys[1..], i);
    }
  }

  lemma UnmarkOne(l: seq<Item>, key: Key, i: nat)
    requires Ordered(l) && i < |l|
    ensures |Unmark(l, key)| == |l|
    ensures Unmark(l, key)[i] == if l[i].key == key then l[i].(marked := false) else l[i]
  {
    MissingLookup(l, key);
    if !Missing(l, key) {
      var j :| 0 <= j < |l| && l[j].key == key;
      LookupAt(l, j);
      ReplaceAt(l, j, l[j].(marked := false));
      OnlyPlace(l, j);
    }
  }

  // ---- sweeps ----

  /** What judging an entry leaves of it. */
  function Judged(x: Item, includeMarked: bool, owned: Option<Key -> bool>, now: nat): Option<Item> {
    var taken := includeMarked && x.marked;
    var kept := owned.Some? && owned.value(x.key);
    if !Alive(x, now) || (taken && !kept) then None
    else if taken then Some(x.(marked := false))
    else Some(x)
  }

  /** One candidate is judged, and nothing else is touched; a marked entry's tombstone goes with it. */
  lemma SweepOneActs(s: Store, key: Key, includeMarked: bool, owned: Option<Key -> bool>, now: nat, k: Key)
    requires Listed(s)
    ensures var t := SweepOne(s, key, includeMarked, owned, now).0;
            var x := Lookup(s.lru, k);
            && Lookup(t.lru, k) == (if k == key && x.Some? then Judged(x.value, includeMarked, owned, now) else x)
            && (k in t.tombs.live <==>
                  && k in s.tombs.live
                  && !(k == key && x.Some? && Lookup(t.lru, k).None? && includeMarked && x.value.marked))
            && (k in t.tombs.live ==> t.tombs.live[k] == s.tombs.live[k])
  {
    LookupMember(s.lru, key);
    LookupWithoutSame(s.lru, key);
    if k != key {
      LookupWithout(s.lru, key, k);
    }
    if Lookup(s.lru, key).Some? {
      LookupReplace(s.lru, Lookup(s.lru, key).value.(marked := false), k);
    }
  }

  lemma {:induction false} SweepSomeActs(s: Store, budget: nat, includeMarked: bool, owned: Option<Key -> bool>,
                                         now: nat,
                                         k: Key)
    requires Listed(s)
    ensures var t := SweepSome(s, budget, includeMarked, owned, now).0;
            var x := Lookup(s.lru, k);
            var judged := k in s.pending[..if |s.pending| < budget then |s.pending| else budget];
            && Lookup(t.lru, k) == (if judged && x.Some? then Judged(x.value, includeMarked, owned, now) else x)
            && (k in t.tombs.live <==>
                  && k in s.tombs.live
                  && !(judged && x.Some? && Lookup(t.lru, k).None? && includeMarked && x.value.marked))
            && (k in t.tombs.live ==> t.tombs.live[k] == s.tombs.live[k])
    decreases budget
  {
    if budget > 0 && s.pending != [] {
      hide SweepOne, Lookup, Listed;
      var s' := s.(pending := s.pending[1..]);
      var key := s.pending[0];
      var u := SweepOne(s', key, includeMarked, owned, now).0;
      SameList(s, s');
      OneListed(s', key, includeMarked, owned, now);
      QueueKept(s', key, includeMarked, owned, now);
      SweepOneActs(s', key, includeMarked, owned, now, k);
      SweepSomeActs(u, budget - 1, includeMarked, owned, now, k);
      var n := if |s.pending| < budget then |s.pending| else budget;
      assert s.pending[..n] == [key] + s'.pending[..n - 1];
    }
  }

  lemma SameList(s: Store, t: Store)
    requires Listed(s) && t.lru == s.lru && t.clock == s.clock
    ensures Listed(t)
  {
  }

  lemma QueueKept(s: Store, key: Key, includeMarked: bool, owned: Option<Key -> bool>, now: nat)
    ensures SweepOne(s, key, includeMarked, owned, now).0.pending == s.pending
  {
  }

  /**
   What a sweep does to each key: one among the first SWEEP_BUDGET candidates is removed if it is past its TTL,
   or marked and not kept, and unmarked if it is kept; only a marked one's tombstone goes with it. Every other
   entry stays as it was.
   */
  lemma SweepActs(s: Store, refill: seq<Key>, includeMarked: bool, owned: Option<Key -> bool>, now: nat, k: Key)
    requires Listed(s)
    ensures var t := Sweep(s, refill, includeMarked, owned, now).0;
            var queue := if s.pending == [] then refill else s.pending;
            var judged := k in queue[..if |queue| < SWEEP_BUDGET then |queue| else SWEEP_BUDGET];
            var x, tombs := Lookup(s.lru, k), Prune(s.tombs, now).live;
            && Lookup(t.lru, k) == (if judged && x.Some? then Judged(x.value, includeMarked, owned, now) else x)
            && (k in t.tombs.live <==>
                  && k in tombs
                  && !(judged && x.Some? && Lookup(t.lru, k).None? && includeMarked && x.value.marked))
            && (k in t.tombs.live ==> t.tombs.live[k] == tombs[k])
  {
    hide SweepSome, Listed, Prune;
    var u := s.(tombs := Prune(s.tombs, now), pending := if s.pending == [] then refill else s.pending);
    SameList(s, u);
    SweepSomeActs(u, SWEEP_BUDGET, includeMarked, owned, now, k);
  }
}
