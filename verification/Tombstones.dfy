/** Handoff tombstones: their bookkeeping, and that a deleted key does not come back. */
module Tombstones {
  import opened Basics
  import opened Lru
  import opened StoreSpec

  // ---- the queue ----

  /** Every live tombstone has its stamp in the queue. */
  ghost predicate Queued(t: Tombs) {
    forall k :: k in t.live ==> Stamp(t.live[k], k) in t.order
  }

  /** Oldest stamps first. */
  ghost predicate Timed(order: seq<Stamp>) {
    forall i, j :: 0 <= i < j < |order| ==> order[i].at <= order[j].at
  }

  ghost predicate Distinct(order: seq<Stamp>) {
    forall i, j :: 0 <= i < j < |order| ==> order[i] != order[j]
  }

  lemma PopKeepsQueued(t: Tombs)
    requires Queued(t) && t.order != []
    ensures Queued(Tombs(Forget(t.live, t.order[0]), t.order[1..]))
  {
    var live := Forget(t.live, t.order[0]);
    forall k | k in live ensures Stamp(live[k], k) in t.order[1..] {
      assert Stamp(t.live[k], k) in t.order;
      assert Stamp(live[k], k) != t.order[0];
    }
  }

  lemma {:induction false} PruneKeepsQueued(t: Tombs, now: nat)
    requires Queued(t)
    ensures Queued(Prune(t, now))
    decreases |t.order|
  {
    if t.order != [] && SaturatingSub(now, t.order[0].at) >= HANDOFF_TOMBSTONE_TTL {
      PopKeepsQueued(t);
      PruneKeepsQueued(Tombs(Forget(t.live, t.order[0]), t.order[1..]), now);
    }
  }

  lemma {:induction false} ForgetOldestKeepsQueued(t: Tombs)
    requires Queued(t)
    ensures Queued(ForgetOldest(t))
    decreases |t.order|
  {
    if t.order != [] {
      PopKeepsQueued(t);
      ForgetOldestKeepsQueued(Tombs(Forget(t.live, t.order[0]), t.order[1..]));
    }
  }

  lemma {:induction false} LiveStampsMembers(order: seq<Stamp>, live: map<Key, nat>)
    ensures forall x :: x in LiveStamps(order, live) <==> x in order && IsLive(live, x)
    ensures |LiveStamps(order, live)| <= |order|
  {
    if order != [] {
      LiveStampsMembers(order[1..], live);
      assert forall x :: x in order <==> x == order[0] || x in order[1..];
    }
  }

  lemma BuryKeepsQueued(t: Tombs, key: Key, now: nat)
    requires Queued(t)
    ensures Queued(Bury(t, key, now))
    ensures key in Bury(t, key, now).live && Bury(t, key, now).live[key] == now
  {
    PruneKeepsQueued(t, now);
    var pruned := Prune(t, now);
    ForgetOldestKeepsQueued(pruned);
    var roomy := if |pruned.live| >= MAX_HANDOFF_TOMBSTONES then ForgetOldest(pruned) else pruned;
    var live, order := roomy.live[key := now], roomy.order + [Stamp(now, key)];
    forall k | k in live ensures Stamp(live[k], k) in order {
      if k == key {
        assert order[|roomy.order|] == Stamp(now, key);
      } else {
        assert Stamp(roomy.live[k], k) in roomy.order;
      }
    }
    LiveStampsMembers(order, live);
  }

  // ---- what pruning leaves ----

  /** On a time-ordered queue, pruning leaves exactly the tombstones younger than their TTL. */
  lemma {:induction false} PruneIsExact(t: Tombs, now: nat)
    requires Queued(t) && Timed(t.order)
    ensures forall k :: k in Prune(t, now).live <==>
              k in t.live && SaturatingSub(now, t.live[k]) < HANDOFF_TOMBSTONE_TTL
    ensures forall k :: k in Prune(t, now).live ==> Prune(t, now).live[k] == t.live[k]
    decreases |t.order|
  {
    if t.order == [] {
      assert t.live == map[] by {
        assert forall k <- t.live :: Stamp(t.live[k], k) in t.order;
      }
    } else if SaturatingSub(now, t.order[0].at) < HANDOFF_TOMBSTONE_TTL {
      forall k | k in t.live ensures SaturatingSub(now, t.live[k]) < HANDOFF_TOMBSTONE_TTL {
        var i :| 0 <= i < |t.order| && t.order[i] == Stamp(t.live[k], k);
        assert t.order[0].at <= t.order[i].at;
      }
    } else {
      PopKeepsQueued(t);
      PruneIsExact(Tombs(Forget(t.live, t.order[0]), t.order[1..]), now);
    }
  }

  // ---- counting ----

  function KeysOf(order: seq<Stamp>): set<Key> {
    set x | x in order :: x.key
  }

  lemma {:induction false} KeysOfSize(order: seq<Stamp>)
    ensures |KeysOf(order)| <= |order|
  {
    if order != [] {
      KeysOfSize(order[1..]);
      assert KeysOf(order) == KeysOf(order[1..]) + {order[0].key};
    }
  }

  /** With every tombstone queued, there are no more tombstones than stamps. */
  lemma NoMoreThanQueued(t: Tombs)
    requires Queued(t)
    ensures |t.live| <= |t.order|
  {
    KeysOfSize(t.order);
    forall k | k in t.live.Keys ensures k in KeysOf(t.order) {
      assert Stamp(t.live[k], k) in t.order;
    }
    SubsetSize(t.live.Keys, KeysOf(t.order));
  }

  /** Distinct stamps that are all live belong to distinct keys, so there are no more of them than tombstones. */
  lemma {:induction false} LiveStampsBound(order: seq<Stamp>, live: map<Key, nat>)
    requires Distinct(order)
    ensures Distinct(LiveStamps(order, live))
    ensures |LiveStamps(order, live)| == |KeysOf(LiveStamps(order, live))|
    ensures KeysOf(LiveStamps(order, live)) <= live.Keys
  {
    LiveStampsMembers(order, live);
    if order != [] {
      var rest := LiveStamps(order[1..], live);
      LiveStampsMembers(order[1..], live);
      LiveStampsBound(order[1..], live);
      if IsLive(live, order[0]) {
        assert order[0] !in order[1..];
        assert order[0].key !in KeysOf(rest);
        assert KeysOf([order[0]] + rest) == KeysOf(rest) + {order[0].key};
      }
    }
  }

  /** Between calls: every tombstone queued, the queue time-ordered, and no more tombstones than their cap. */
  ghost predicate TombsKept(t: Tombs) {
    Queued(t) && Timed(t.order) && |t.live| <= MAX_HANDOFF_TOMBSTONES
  }

  /** And the queue repeat-free and within its own cap. */
  ghost predicate TombsOk(t: Tombs) {
    TombsKept(t) && Distinct(t.order) && |t.order| <= 2 * MAX_HANDOFF_TOMBSTONES
  }

  ghost predicate SuffixOf(a: seq<Stamp>, b: seq<Stamp>) {
    exists n: nat :: n <= |b| && a == b[n..]
  }

  lemma {:induction false} PruneDropsPrefix(t: Tombs, now: nat)
    ensures SuffixOf(Prune(t, now).order, t.order)
    ensures Prune(t, now).live.Keys <= t.live.Keys
    ensures forall k :: k in Prune(t, now).live ==> Prune(t, now).live[k] == t.live[k]
    decreases |t.order|
  {
    if t.order == [] || SaturatingSub(now, t.order[0].at) < HANDOFF_TOMBSTONE_TTL {
      assert t.order == t.order[0..];
    } else {
      var u := Tombs(Forget(t.live, t.order[0]), t.order[1..]);
      PruneDropsPrefix(u, now);
      var n: nat :| n <= |u.order| && Prune(u, now).order == u.order[n..];
      assert u.order[n..] == t.order[n + 1..];
    }
  }

  lemma {:induction false} ForgetOldestDropsOne(t: Tombs)
    requires Queued(t)
    ensures SuffixOf(ForgetOldest(t).order, t.order)
    ensures t.live != map[] ==> |ForgetOldest(t).live| == |t.live| - 1
    ensures ForgetOldest(t).live.Keys <= t.live.Keys
    decreases |t.order|
  {
    if t.order == [] {
      assert t.order == t.order[0..];
      assert forall k :: k in t.live ==> Stamp(t.live[k], k) in t.order;
    } else {
      var live := Forget(t.live, t.order[0]);
      if live != t.live {
        assert live.Keys == t.live.Keys - {t.order[0].key};
        assert SuffixOf(t.order[1..], t.order);
      } else {
        PopKeepsQueued(t);
        var u := Tombs(live, t.order[1..]);
        ForgetOldestDropsOne(u);
        var n: nat :| n <= |u.order| && ForgetOldest(u).order == u.order[n..];
        assert u.order[n..] == t.order[n + 1..];
      }
    }
  }

  lemma SuffixKeeps(a: seq<Stamp>, b: seq<Stamp>)
    requires SuffixOf(a, b)
    ensures |a| <= |b|
    ensures Timed(b) ==> Timed(a)
    ensures Distinct(b) ==> Distinct(a)
    ensures forall x :: x in a ==> x in b
  {
  }

  lemma {:induction false} LiveStampsTimed(order: seq<Stamp>, live: map<Key, nat>)
    requires Timed(order)
    ensures Timed(LiveStamps(order, live))
  {
    if order != [] {
      LiveStampsTimed(order[1..], live);
      LiveStampsMembers(order[1..], live);
      var rest := LiveStamps(order[1..], live);
      forall j | 0 <= j < |rest| ensures order[0].at <= rest[j].at {
        assert rest[j] in order[1..];
      }
    }
  }

  /** The tombstones a delete at `now` adds its own to: pruned, and below the cap. */
  function Roomy(t: Tombs, now: nat): Tombs {
    var pruned := Prune(t, now);
    if |pruned.live| >= MAX_HANDOFF_TOMBSTONES then ForgetOldest(pruned) else pruned
  }

  lemma RoomyIsSuffix(t: Tombs, now: nat)
    requires Queued(t)
    ensures var r := Roomy(t, now);
            && Queued(r) && |r.order| <= |t.order| && (forall x :: x in r.order ==> x in t.order)
            && (Timed(t.order) ==> Timed(r.order)) && (Distinct(t.order) ==> Distinct(r.order))
            && (|t.live| <= MAX_HANDOFF_TOMBSTONES ==> |r.live| < MAX_HANDOFF_TOMBSTONES)
  {
    hide Prune, ForgetOldest, Queued, Timed, Distinct;
    var pruned := Prune(t, now);
    PruneKeepsQueued(t, now);
    PruneDropsPrefix(t, now);
    SuffixKeeps(pruned.order, t.order);
    SubsetSize(pruned.live.Keys, t.live.Keys);
    ForgetOldestKeepsQueued(pruned);
    ForgetOldestDropsOne(pruned);
    SuffixKeeps(ForgetOldest(pruned).order, pruned.order);
  }

  lemma AppendStamp(order: seq<Stamp>, x: Stamp)
    requires Timed(order) && forall y :: y in order ==> y.at <= x.at
    ensures Timed(order + [x])
    ensures Distinct(order) && x !in order ==> Distinct(order + [x])
  {
    forall i | 0 <= i < |order| ensures order[i].at <= x.at && (x !in order ==> order[i] != x) {
      assert order[i] in order;
    }
  }

  /**
   A handoff delete no earlier than the ones before it keeps the tombstones queued, in time order and within
   their cap; unless it repeats one of the same key at the same instant, it keeps the queue within its own.
   */
  lemma BuryKeepsBooks(t: Tombs, key: Key, now: nat)
    requires TombsKept(t) && forall x :: x in t.order ==> x.at <= now
    ensures TombsKept(Bury(t, key, now))
    ensures forall x :: x in Bury(t, key, now).order ==> x.at <= now
    ensures TombsOk(t) && Stamp(now, key) !in t.order ==> TombsOk(Bury(t, key, now))
  {
    hide Prune, ForgetOldest, Queued, Timed, Distinct, LiveStamps, KeysOf;
    BuryKeepsQueued(t, key, now);
    RoomyIsSuffix(t, now);
    var r := Roomy(t, now);
    var live, order := r.live[key := now], r.order + [Stamp(now, key)];
    assert live.Keys == r.live.Keys + {key};
    AppendStamp(r.order, Stamp(now, key));
    LiveStampsMembers(order, live);
    LiveStampsTimed(order, live);
    if Distinct(order) {
      LiveStampsBound(order, live);
      SubsetSize(KeysOf(LiveStamps(order, live)), live.Keys);
    }
  }

  lemma PruneKeepsBooks(t: Tombs, now: nat)
    requires TombsKept(t)
    ensures TombsKept(Prune(t, now))
    ensures TombsOk(t) ==> TombsOk(Prune(t, now))
    ensures forall x :: x in Prune(t, now).order ==> x in t.order
  {
    hide Prune, Queued, Timed, Distinct;
    PruneKeepsQueued(t, now);
    PruneDropsPrefix(t, now);
    SuffixKeeps(Prune(t, now).order, t.order);
    SubsetSize(Prune(t, now).live.Keys, t.live.Keys);
  }

  // ---- exactly when the queue's cap holds ----

  lemma {:induction false} LiveStampsShorter(order: seq<Stamp>, live: map<Key, nat>)
    ensures |LiveStamps(order, live)| < |order| <==> exists x :: x in order && !IsLive(live, x)
  {
    if order != [] {
      LiveStampsShorter(order[1..], live);
      LiveStampsMembers(order[1..], live);
      assert forall x :: x in order <==> x == order[0] || x in order[1..];
    }
  }

  /**
   Exactly when a handoff delete leaves the queue within its cap: there is still room for one more stamp once
   the expired and the oldest are dropped, or some stamp is stale and compaction takes it out.
   */
  lemma QueueCapIff(t: Tombs, key: Key, now: nat)
    requires Queued(t) && |t.order| <= 2 * MAX_HANDOFF_TOMBSTONES
    ensures |Bury(t, key, now).order| <= 2 * MAX_HANDOFF_TOMBSTONES <==>
            (|| |Roomy(t, now).order| < 2 * MAX_HANDOFF_TOMBSTONES
             || exists x :: x in Roomy(t, now).order + [Stamp(now, key)]
                            && !IsLive(Roomy(t, now).live[key := now], x))
  {
    hide Prune, ForgetOldest, Queued, Timed, Distinct, LiveStamps, IsLive;
    RoomyIsSuffix(t, now);
    var r := Roomy(t, now);
    LiveStampsShorter(r.order + [Stamp(now, key)], r.live[key := now]);
  }

  /** `n` handoff deletes of one key, all at `now`. */
  function BuryTimes(t: Tombs, key: Key, now: nat, n: nat): Tombs {
    if n == 0 then t else Bury(BuryTimes(t, key, now, n - 1), key, now)
  }

  lemma {:induction false} AllLiveStay(order: seq<Stamp>, live: map<Key, nat>)
    requires forall x :: x in order ==> IsLive(live, x)
    ensures LiveStamps(order, live) == order
  {
    if order != [] {
      AllLiveStay(order[1..], live);
    }
  }

  /** Deleting one key over and over at one instant queues it every time: no cap bounds that queue. */
  lemma {:induction false} RepeatsAreUnbounded(key: Key, now: nat, n: nat)
    ensures var t := BuryTimes(Tombs(map[], []), key, now, n);
            && |t.order| == n
            && (n > 0 ==> t.live == map[key := now])
            && (forall x :: x in t.order ==> x == Stamp(now, key))
  {
    if n > 0 {
      RepeatsAreUnbounded(key, now, n - 1);
      var t := BuryTimes(Tombs(map[], []), key, now, n - 1);
      if t.order != [] {
        assert t.order[0] in t.order;
      }
      assert Prune(t, now) == t;
      assert |t.live| < MAX_HANDOFF_TOMBSTONES by {
        assert n > 1 ==> t.live.Keys == {key};
      }
      var order := t.order + [Stamp(now, key)];
      var live := t.live[key := now];
      assert live == map[key := now];
      AllLiveStay(order, live);
    }
  }
}
