/** A key removed by a handoff delete stays removed while its tombstone lives. */
module NoResurrection {
  import opened Basics
  import opened Lru
  import opened StoreSpec
  import opened Eviction
  import opened Tombstones
  import Decimal

  ghost predicate Gone(l: seq<Item>, k: Key) {
    forall x :: x in l ==> x.key != k
  }

  /** The key a handoff delete, or a handoff with a zero TTL, removes. */
  function Buries(op: Op): Option<Key> {
    match op
    case HandingOffDelete(key) => Some(key)
    case HandingOff(key, _, ttl, _) => if ttl == Some(0) then Some(key) else None
    case _ => None
  }

  /** Client writes of `k` and unconditional handoffs of it with a lifetime: newer than the delete by construction. */
  predicate Rewrites(op: Op, k: Key) {
    match op
    case Setting(key, _, _) => key == k
    case CasSetting(key, _, _, _) => key == k
    case SettingMany(ns, items, _) => exists i :: 0 <= i < |items| && Key(ns, items[i].name) == k
    case HandingOff(key, _, ttl, _) => key == k && ttl != Some(0)
    case _ => false
  }

  // ---- nothing but a write of `k` stores `k` ----

  lemma PutLeavesGone(c: Config, s: Store, key: Key, value: Bytes, expiresAt: Option<nat>, k: Key)
    requires Gone(s.lru, k) && key != k
    ensures Gone(Put(c, s, key, value, expiresAt).lru, k)
  {
    PutSubset(c, s, key, value, expiresAt);
  }

  lemma {:induction false} ReplaceLeavesGone(l: seq<Item>, x: Item, k: Key)
    requires Gone(l, k)
    ensures Gone(Replace(l, x), k)
  {
    if l != [] && l[0].key != x.key {
      assert Gone(l[1..], k);
      ReplaceLeavesGone(l[1..], x, k);
    } else if l != [] {
      assert l[0] in l;
    }
  }

  lemma {:induction false} SetManyLeavesGone(c: Config, s: Store, ns: Bytes, items: seq<Pair>, expiresAt: Option<nat>,
                                             k: Key)
    requires Gone(s.lru, k) && !(exists i :: 0 <= i < |items| && Key(ns, items[i].name) == k)
    ensures Gone(SetMany(c, s, ns, items, expiresAt).lru, k)
    ensures SetMany(c, s, ns, items, expiresAt).tombs == s.tombs
    decreases |items|
  {
    if items != [] {
      assert Key(ns, items[0].name) != k;
      PutLeavesGone(c, s, Key(ns, items[0].name), items[0].value, expiresAt, k);
      var t := Put(c, s, Key(ns, items[0].name), items[0].value, expiresAt);
      assert forall i :: 0 <= i < |items[1..]| ==> items[1..][i] == items[i + 1];
      SetManyLeavesGone(c, t, ns, items[1..], expiresAt, k);
    }
  }

  lemma GetLeavesGone(s: Store, key: Key, now: nat, k: Key)
    requires Gone(s.lru, k)
    ensures Gone(Get(s, key, now).0.lru, k) && Get(s, key, now).0.tombs == s.tombs
  {
    WithoutSubset(s.lru, key);
    LookupMember(s.lru, key);
  }

  lemma TouchLeavesGone(c: Config, s: Store, key: Key, ttl: Option<nat>, promote: bool, now: nat, k: Key)
    requires Gone(s.lru, k)
    ensures Gone(Touch(c, s, key, ttl, promote, now).0.lru, k) && Touch(c, s, key, ttl, promote, now).0.tombs == s.tombs
  {
    WithoutSubset(s.lru, key);
    LookupMember(s.lru, key);
    if Lookup(s.lru, key).Some? {
      ReplaceLeavesGone(s.lru, Lookup(s.lru, key).value.(expiresAt := Expiry(c, now, ttl)), k);
    }
  }

  lemma {:induction false} GetManyLeavesGone(b: Batch, ns: Bytes, names: seq<Bytes>, cap: nat, now: nat, k: Key)
    requires Gone(b.store.lru, k)
    ensures var r := GetMany(b, ns, names, cap, now); Gone(r.store.lru, k) && r.store.tombs == b.store.tombs
    decreases |names|
  {
    if names != [] {
      GetLeavesGone(b.store, Key(ns, names[0]), now, k);
      GetManyLeavesGone(GetNext(b, Key(ns, names[0]), cap, now), ns, names[1..], cap, now, k);
    }
  }

  lemma {:induction false} TouchManyLeavesGone(c: Config, b: Batch, ns: Bytes, names: seq<Bytes>, ttl: Option<nat>,
                                               promote: bool, cap: Option<nat>, now: nat, k: Key)
    requires Gone(b.store.lru, k)
    ensures var r := TouchMany(c, b, ns, names, ttl, promote, cap, now);
            Gone(r.store.lru, k) && r.store.tombs == b.store.tombs
    decreases |names|
  {
    if names != [] {
      TouchLeavesGone(c, b.store, Key(ns, names[0]), ttl, promote, now, k);
      TouchManyLeavesGone(c, TouchNext(c, b, Key(ns, names[0]), ttl, promote, cap, now), ns, names[1..], ttl, promote,
        cap, now, k);
    }
  }

  lemma HoldsLeavesGone(c: Config, s: Store, key: Key, cond: Condition, now: nat, k: Key)
    requires Gone(s.lru, k)
    ensures Gone(Holds(c, s, key, cond, now).0.lru, k) && Holds(c, s, key, cond, now).0.tombs == s.tombs
  {
    WithoutSubset(s.lru, key);
    var t := ExpireLazily(s, key, now);
    LookupMember(t.lru, key);
    if Lookup(t.lru, key).Some? {
      ReplaceLeavesGone(t.lru, Lookup(t.lru, key).value.(digested := true), k);
    }
  }

  lemma UnmarkLeavesGone(l: seq<Item>, key: Key, k: Key)
    requires Gone(l, k)
    ensures Gone(Unmark(l, key), k)
  {
    LookupMember(l, key);
    if Lookup(l, key).Some? {
      ReplaceLeavesGone(l, Lookup(l, key).value.(marked := false), k);
    }
  }

  lemma {:induction false} UnmarkAllLeavesGone(l: seq<Item>, keys: seq<Key>, k: Key)
    requires Gone(l, k)
    ensures Gone(UnmarkAll(l, keys), k)
    decreases |keys|
  {
    if keys != [] {
      UnmarkLeavesGone(l, keys[0], k);
      UnmarkAllLeavesGone(Unmark(l, keys[0]), keys[1..], k);
    }
  }

  /** Tombstones only ever leave, and never that of a key nothing is stored under. */
  ghost predicate Thinned(a: Tombs, b: Tombs, k: Key) {
    && a.order == b.order
    && (forall x :: x in a.live ==> x in b.live && a.live[x] == b.live[x])
    && (k in b.live ==> k in a.live)
  }

  lemma {:induction false} ReclaimLeavesGone(s: Store, keys: seq<Key>, owned: Key -> bool, k: Key)
    requires Gone(s.lru, k)
    ensures Gone(ReclaimAll(s, keys, owned).0.lru, k) && Thinned(ReclaimAll(s, keys, owned).0.tombs, s.tombs, k)
    decreases |keys|
  {
    if keys != [] {
      LookupMember(s.lru, keys[0]);
      WithoutSubset(s.lru, keys[0]);
      var t := if Lookup(s.lru, keys[0]).Some? && !owned(keys[0])
               then s.(lru := Without(s.lru, keys[0]), tombs := s.tombs.(live := s.tombs.live - {keys[0]})) else s;
      ReclaimLeavesGone(t, keys[1..], owned, k);
    }
  }

  lemma {:induction false} SweepLeavesGone(s: Store, budget: nat, includeMarked: bool, owned: Option<Key -> bool>,
                                           now: nat, k: Key)
    requires Gone(s.lru, k)
    ensures var t := SweepSome(s, budget, includeMarked, owned, now).0;
            Gone(t.lru, k) && Thinned(t.tombs, s.tombs, k)
    decreases budget
  {
    if budget > 0 && s.pending != [] {
      var key := s.pending[0];
      var s' := s.(pending := s.pending[1..]);
      LookupMember(s.lru, key);
      WithoutSubset(s.lru, key);
      UnmarkLeavesGone(s.lru, key, k);
      var t := SweepOne(s', key, includeMarked, owned, now).0;
      SweepLeavesGone(t, budget - 1, includeMarked, owned, now, k);
    }
  }

  /** One operation that does not write `k` leaves it gone; its tombstone survives all but a cap or its own TTL. */
  lemma StepLeavesGone(c: Config, s: Store, op: Op, now: nat, k: Key)
    requires Gone(s.lru, k) && !Rewrites(op, k) && !op.ClearingAll?
    requires op.HandingOffIfAbsent? && op.key == k ==> Tombstoned(s.tombs, k, now)
    ensures var t := Apply(c, s, op, now).0;
            && Gone(t.lru, k)
            && match op
               case Sweeping(_, _, _) => Thinned(t.tombs, Prune(s.tombs, now), k)
               case Reclaiming(_, _, _) => Thinned(t.tombs, s.tombs, k)
               case _ => t.tombs == if Buries(op).Some? then Bury(s.tombs, Buries(op).value, now) else s.tombs
  {
    hide Bury, Prune, Incr, SetMany, GetMany, TouchMany, ReclaimAll, UnmarkAll, SweepSome;
    match op
    case Setting(key, value, ttl) => PutLeavesGone(c, s, key, value, Expiry(c, now, ttl), k);
    case Getting(key) => GetLeavesGone(s, key, now, k);
    case Touching(key, ttl, promote) => TouchLeavesGone(c, s, key, ttl, promote, now, k);
    case Deleting(key) => WithoutSubset(s.lru, key);
    case Incrementing(key, delta) => IncrLeavesGone(c, s, key, delta, now, k);
    case CasSetting(key, cond, value, ttl) =>
      HoldsLeavesGone(c, s, key, cond, now, k);
      PutLeavesGone(c, Holds(c, s, key, cond, now).0, key, value, Expiry(c, now, ttl), k);
    case CasDeleting(key, digest) =>
      HoldsLeavesGone(c, s, key, Matches(digest), now, k);
      WithoutSubset(Holds(c, s, key, Matches(digest), now).0.lru, key);
    case Clearing(ns) => NotOfLeavesGone(s.lru, ns, k);
    case SettingMany(ns, items, ttl) => SetManyLeavesGone(c, s, ns, items, Expiry(c, now, ttl), k);
    case GettingMany(ns, names, limit) => GetManyLeavesGone(Begin(s), ns, names, limit, now, k);
    case TouchingMany(ns, names, ttl, promote, cap) =>
      TouchManyLeavesGone(c, Begin(s), ns, names, ttl, promote, cap, now, k);
    case HandingOff(key, value, ttl, ahead) =>
      var t := NoteHandoff(s, ahead, now);
      WithoutSubset(s.lru, key);
      if ttl != Some(0) {
        PutLeavesGone(c, t, key, value, Expiry(c, now, ttl), k);
      }
    case HandingOffIfAbsent(key, value, ttl, ahead) =>
      var t := NoteHandoff(s, ahead, now);
      if !Tombstoned(t.tombs, key, now) {
        HoldsLeavesGone(c, t, key, Absent, now, k);
        PutLeavesGone(c, Holds(c, t, key, Absent, now).0, key, value, Expiry(c, now, ttl), k);
      }
    case HandingOffDelete(key) => WithoutSubset(s.lru, key);
    case Reclaiming(keys, mine, quiet) => ReclaimLeavesGone(s, keys, mine, k);
    case Marking(key) =>
      LookupMember(s.lru, key);
      if Lookup(s.lru, key).Some? {
        ReplaceLeavesGone(s.lru, Lookup(s.lru, key).value.(marked := true), k);
      }
    case Unmarking(keys) => UnmarkAllLeavesGone(s.lru, keys, k);
    case Sweeping(refill, includeMarked, owned) =>
      var t := s.(tombs := Prune(s.tombs, now), pending := if s.pending == [] then refill else s.pending);
      SweepLeavesGone(t, SWEEP_BUDGET, includeMarked, owned, now, k);
  }

  lemma IncrLeavesGone(c: Config, s: Store, key: Key, delta: int, now: nat, k: Key)
    requires Gone(s.lru, k)
    ensures Gone(Incr(c, s, key, delta, now).0.lru, k) && Incr(c, s, key, delta, now).0.tombs == s.tombs
  {
    LookupMember(s.lru, key);
    WithoutSubset(s.lru, key);
    if Lookup(s.lru, key).Some? {
      var x := Lookup(s.lru, key).value;
      var current := Decimal.ParseI64(x.value);
      if current.Some? {
        PutLeavesGone(c, s, key, Decimal.PrintInt(current.value + delta), x.expiresAt, k);
      }
    }
  }

  lemma {:induction false} NotOfLeavesGone(l: seq<Item>, ns: Bytes, k: Key)
    requires Gone(l, k)
    ensures Gone(NotOf(l, ns), k)
  {
    if l != [] {
      assert l[0] in l && Gone(l[1..], k);
      NotOfLeavesGone(l[1..], ns, k);
    }
  }

  // ---- the tombstone's place in the queue ----

  /** The first live stamp of `k` is at `p`, none of `k` is later, and at most `d` stamps were queued after it. */
  ghost predicate GuardedAt(t: Tombs, k: Key, p: nat, d: nat) {
    && Queued(t)
    && k in t.live && p < |t.order| && t.order[p] == Stamp(t.live[k], k)
    && Latest(t.order, k, p, t.live[k])
    && |t.order| - p - 1 <= d
  }

  /** No stamp of `k` is later than `at`, and none before place `p` is as late. */
  ghost predicate Latest(order: seq<Stamp>, k: Key, p: nat, at: nat) {
    forall q :: 0 <= q < |order| && order[q].key == k ==> order[q].at <= at && (q < p ==> order[q].at < at)
  }

  ghost predicate Guarded(t: Tombs, k: Key, d: nat) {
    exists p: nat :: GuardedAt(t, k, p, d)
  }

  lemma PopGuards(t: Tombs, k: Key, p: nat, d: nat)
    requires GuardedAt(t, k, p, d) && p > 0
    ensures GuardedAt(Tombs(Forget(t.live, t.order[0]), t.order[1..]), k, p - 1, d)
  {
    PopKeepsQueued(t);
    var u := Tombs(Forget(t.live, t.order[0]), t.order[1..]);
    assert forall q :: 0 <= q < |u.order| ==> u.order[q] == t.order[q + 1];
  }

  /** Pruning passes over a tombstone that is younger than its TTL. */
  lemma {:induction false} PruneGuards(t: Tombs, k: Key, p: nat, d: nat, now: nat) returns (p': nat)
    requires GuardedAt(t, k, p, d) && SaturatingSub(now, t.live[k]) < HANDOFF_TOMBSTONE_TTL
    ensures GuardedAt(Prune(t, now), k, p', d) && Prune(t, now).live[k] == t.live[k]
    decreases |t.order|
  {
    if SaturatingSub(now, t.order[0].at) < HANDOFF_TOMBSTONE_TTL {
      return p;
    }
    PopGuards(t, k, p, d);
    p' := PruneGuards(Tombs(Forget(t.live, t.order[0]), t.order[1..]), k, p - 1, d, now);
  }

  /** The cap drops a tombstone queued before `k`'s while fewer than that many were queued after it. */
  lemma {:induction false} ForgetOldestGuards(t: Tombs, k: Key, p: nat, d: nat) returns (p': nat)
    requires GuardedAt(t, k, p, d) && |t.live| > d + 1
    ensures GuardedAt(ForgetOldest(t), k, p', d) && ForgetOldest(t).live[k] == t.live[k]
    decreases |t.order|
  {
    NoMoreThanQueued(t);
    PopGuards(t, k, p, d);
    p' := p - 1;
    if Forget(t.live, t.order[0]) == t.live {
      p' := ForgetOldestGuards(Tombs(t.live, t.order[1..]), k, p - 1, d);
    }
  }

  lemma {:induction false} LiveStampsGuard(order: seq<Stamp>, live: map<Key, nat>, k: Key, p: nat) returns (p': nat)
    requires k in live && p < |order| && order[p] == Stamp(live[k], k)
    requires Latest(order, k, p, live[k])
    ensures var r := LiveStamps(order, live);
            p' < |r| && r[p'] == Stamp(live[k], k) && |r| - p' <= |order| - p && Latest(r, k, p', live[k])
  {
    var rest := LiveStamps(order[1..], live);
    LiveStampsMembers(order[1..], live);
    if p == 0 {
      p' := 0;
      forall q | 0 <= q < |rest| && rest[q].key == k
        ensures rest[q].at <= live[k]
      {
        assert rest[q] in order[1..];
      }
    } else {
      p' := LiveStampsGuard(order[1..], live, k, p - 1);
      if IsLive(live, order[0]) {
        p' := p' + 1;
      }
    }
  }

  /** A later handoff delete of another key, or of `k` again no earlier, leaves `k` guarded. */
  lemma BuryGuards(t: Tombs, k: Key, d: nat, key: Key, now: nat)
    requires Guarded(t, k, d) && d + 1 < MAX_HANDOFF_TOMBSTONES
    requires SaturatingSub(now, t.live[k]) < HANDOFF_TOMBSTONE_TTL
    requires key == k ==> t.live[k] <= now
    ensures Guarded(Bury(t, key, now), k, d + 1)
    ensures Bury(t, key, now).live[k] == if key == k then now else t.live[k]
  {
    hide Prune, ForgetOldest, LiveStamps, Queued;
    var p: nat :| GuardedAt(t, k, p, d);
    BuryKeepsQueued(t, key, now);
    p := PruneGuards(t, k, p, d, now);
    var r := Prune(t, now);
    if |r.live| >= MAX_HANDOFF_TOMBSTONES {
      p := ForgetOldestGuards(r, k, p, d);
      r := ForgetOldest(r);
    }
    var live, order := r.live[key := now], r.order + [Stamp(now, key)];
    if key == k && r.live[k] < now {
      p := |r.order|;
    }
    assert forall q :: 0 <= q < |r.order| ==> order[q] == r.order[q];
    if |order| > 2 * MAX_HANDOFF_TOMBSTONES {
      p := LiveStampsGuard(order, live, k, p);
    }
    assert GuardedAt(Bury(t, key, now), k, p, d + 1);
  }

  lemma ThinnedGuards(a: Tombs, b: Tombs, k: Key, d: nat)
    requires Guarded(b, k, d) && Thinned(a, b, k)
    ensures Guarded(a, k, d) && a.live[k] == b.live[k]
  {
    var p: nat :| GuardedAt(b, k, p, d);
    assert GuardedAt(a, k, p, d);
  }

  // ---- whole runs ----

  /** How many of the calls are handoff deletes, of whatever key. */
  function Burials(calls: seq<Call>): nat {
    if calls == [] then 0
    else Burials(calls[..|calls| - 1]) + (if Buries(calls[|calls| - 1].op).Some? then 1 else 0)
  }

  ghost predicate BuriesAt(call: Call, k: Key) {
    Buries(call.op) == Some(k)
  }

  /** No call writes `k`, none flushes the store, and all come before the tombstone of instant `t` is due. */
  ghost predicate Harmless(calls: seq<Call>, k: Key, t: nat) {
    forall i :: 0 <= i < |calls| ==>
      !Rewrites(calls[i].op, k) && !calls[i].op.ClearingAll? && calls[i].now < t + HANDOFF_TOMBSTONE_TTL
  }

  /** The handoff deletes of `k` among the calls come no earlier than `t` and than the ones before them. */
  ghost predicate NoEarlier(calls: seq<Call>, k: Key, t: nat) {
    && (forall i :: 0 <= i < |calls| && BuriesAt(calls[i], k) ==> t <= calls[i].now)
    && (forall i, j :: 0 <= i < j < |calls| && BuriesAt(calls[i], k) && BuriesAt(calls[j], k) ==>
          calls[i].now <= calls[j].now)
  }

  /** The instant of the last handoff delete of `k`, the one at `t` included. */
  function LastBurial(calls: seq<Call>, k: Key, t: nat): nat {
    if calls == [] then t
    else if Buries(calls[|calls| - 1].op) == Some(k) then calls[|calls| - 1].now
    else LastBurial(calls[..|calls| - 1], k, t)
  }

  lemma {:induction false} LastBurialIsLast(calls: seq<Call>, k: Key, t: nat)
    requires NoEarlier(calls, k, t)
    ensures t <= LastBurial(calls, k, t)
    ensures LastBurial(calls, k, t) == t ||
            exists i :: 0 <= i < |calls| && BuriesAt(calls[i], k) && calls[i].now == LastBurial(calls, k, t)
  {
    if calls != [] {
      var before := calls[..|calls| - 1];
      LastBurialIsLast(before, k, t);
      if Buries(calls[|calls| - 1].op) == Some(k) {
        assert BuriesAt(calls[|calls| - 1], k);
      } else if LastBurial(before, k, t) != t {
        var i :| 0 <= i < |before| && BuriesAt(before[i], k) && before[i].now == LastBurial(before, k, t);
        assert calls[i] == before[i];
      }
    }
  }

  /** One harmless step leaves `k` gone and guarded, with one more stamp queued after its own if it is a burial. */
  lemma StepGuards(c: Config, u: Store, k: Key, d: nat, op: Op, now: nat)
    requires Gone(u.lru, k) && Guarded(u.tombs, k, d)
    requires !Rewrites(op, k) && !op.ClearingAll?
    requires SaturatingSub(now, u.tombs.live[k]) < HANDOFF_TOMBSTONE_TTL
    requires Buries(op).Some? ==> d + 1 < MAX_HANDOFF_TOMBSTONES
    requires Buries(op) == Some(k) ==> u.tombs.live[k] <= now
    ensures var v := Apply(c, u, op, now).0;
            && Gone(v.lru, k)
            && Guarded(v.tombs, k, if Buries(op).Some? then d + 1 else d)
            && v.tombs.live[k] == if Buries(op) == Some(k) then now else u.tombs.live[k]
  {
    hide Gone, Rewrites, Apply, Bury, GuardedAt, Thinned, Prune;
    IsTombstoned(u.tombs, k, d, now);
    StepLeavesGone(c, u, op, now, k);
    if Buries(op).Some? {
      BuryGuards(u.tombs, k, d, Buries(op).value, now);
    } else if op.Sweeping? {
      var p: nat :| GuardedAt(u.tombs, k, p, d);
      p := PruneGuards(u.tombs, k, p, d, now);
      ThinnedGuards(Apply(c, u, op, now).0.tombs, Prune(u.tombs, now), k, d);
    } else if op.Reclaiming? {
      ThinnedGuards(Apply(c, u, op, now).0.tombs, u.tombs, k, d);
    }
  }

  lemma IsTombstoned(t: Tombs, k: Key, d: nat, now: nat)
    requires Guarded(t, k, d)
    ensures k in t.live
    ensures Tombstoned(t, k, now) <==> SaturatingSub(now, t.live[k]) < HANDOFF_TOMBSTONE_TTL
  {
  }

  /** A burial of `k` in the run comes no earlier than every burial of `k` before it. */
  lemma LaterThanLast(calls: seq<Call>, k: Key, t: nat)
    requires calls != [] && NoEarlier(calls, k, t)
    ensures var n := |calls| - 1;
            && NoEarlier(calls[..n], k, t)
            && (Buries(calls[n].op) == Some(k) ==> LastBurial(calls[..n], k, t) <= calls[n].now)
  {
    var n := |calls| - 1;
    var before := calls[..n];
    LastBurialIsLast(before, k, t);
    if Buries(calls[n].op) == Some(k) {
      assert BuriesAt(calls[n], k);
      if LastBurial(before, k, t) != t {
        var i :| 0 <= i < |before| && BuriesAt(before[i], k) && before[i].now == LastBurial(before, k, t);
        assert calls[i] == before[i];
      }
    }
  }

  /** A key that is gone and guarded stays so over every harmless run the cap has room for. */
  lemma {:induction false} StaysGuarded(c: Config, s: Store, k: Key, t: nat, d: nat, calls: seq<Call>)
    requires Gone(s.lru, k) && Guarded(s.tombs, k, d) && s.tombs.live[k] == t
    requires Harmless(calls, k, t) && NoEarlier(calls, k, t)
    requires d + Burials(calls) < MAX_HANDOFF_TOMBSTONES
    ensures var u := After(c, s, calls);
            Gone(u.lru, k) && Guarded(u.tombs, k, d + Burials(calls)) && u.tombs.live[k] == LastBurial(calls, k, t)
    decreases |calls|
  {
    hide Gone, Guarded, GuardedAt, Apply, Rewrites, NoEarlier;
    if calls != [] {
      var n := |calls| - 1;
      var before, last := calls[..n], calls[n];
      LaterThanLast(calls, k, t);
      StaysGuarded(c, s, k, t, d, before);
      LastBurialIsLast(before, k, t);
      StepGuards(c, After(c, s, before), k, d + Burials(before), last.op, last.now);
    }
  }

  /** Right after the delete, `k` is gone and its stamp is the newest in the queue. */
  lemma BuriedIsGuarded(s: Store, k: Key, t: nat)
    requires Ordered(s.lru) && Queued(s.tombs)
    requires forall i :: 0 <= i < |s.tombs.order| && s.tombs.order[i].key == k ==> s.tombs.order[i].at < t
    ensures var u := HandoffDelete(s, k, t).0; Gone(u.lru, k) && Guarded(u.tombs, k, 0) && u.tombs.live[k] == t
  {
    WithoutMembers(s.lru, k);
    BuryKeepsQueued(s.tombs, k, t);
    PruneDropsPrefix(s.tombs, t);
    PruneKeepsQueued(s.tombs, t);
    var r := Prune(s.tombs, t);
    SuffixKeeps(r.order, s.tombs.order);
    ForgetOldestDropsOne(r);
    SuffixKeeps(ForgetOldest(r).order, r.order);
    r := Roomy(s.tombs, t);
    var live, order := r.live[k := t], r.order + [Stamp(t, k)];
    var p: nat := |r.order|;
    forall q | 0 <= q < |order| && q != p && order[q].key == k
      ensures order[q].at < t
    {
      assert order[q] in r.order;
      assert order[q] in s.tombs.order;
    }
    if |order| > 2 * MAX_HANDOFF_TOMBSTONES {
      p := LiveStampsGuard(order, live, k, p);
    }
    assert GuardedAt(Bury(s.tombs, k, t), k, p, 0);
  }

  /**
   After a handoff delete of `k` at `t`, no run of put-if-absent handoffs, sweeps, reclaims, evictions,
   reads and other keys' traffic brings it back before the tombstone's TTL has passed, as long as nobody
   writes `k`, the store is not flushed, deletes of `k` do not go back in time, and fewer than
   MAX_HANDOFF_TOMBSTONES handoff deletes follow. The delete at `t` is the first of `k` at that instant;
   repeats of it count among those that follow.
   */
  lemma DeletedStaysDeleted(c: Config, s: Store, k: Key, t: nat, calls: seq<Call>)
    requires Ordered(s.lru) && Queued(s.tombs)
    requires forall i :: 0 <= i < |s.tombs.order| && s.tombs.order[i].key == k ==> s.tombs.order[i].at < t
    requires Harmless(calls, k, t) && NoEarlier(calls, k, t)
    requires Burials(calls) < MAX_HANDOFF_TOMBSTONES
    ensures var u := After(c, HandoffDelete(s, k, t).0, calls);
            && Lookup(u.lru, k).None?
            && (forall now: nat :: now < t + HANDOFF_TOMBSTONE_TTL ==> Tombstoned(u.tombs, k, now))
  {
    hide After, HandoffDelete, Harmless, NoEarlier, Burials, Queued, Ordered;
    BuriedIsGuarded(s, k, t);
    StaysGuarded(c, HandoffDelete(s, k, t).0, k, t, 0, calls);
    LastBurialIsLast(calls, k, t);
    LookupMember(After(c, HandoffDelete(s, k, t).0, calls).lru, k);
  }

  /** A handoff with a zero TTL is that delete. */
  lemma ZeroTtlStaysDeleted(c: Config, s: Store, k: Key, value: Bytes, ahead: bool, t: nat, calls: seq<Call>)
    requires Ordered(s.lru) && Queued(s.tombs)
    requires forall i :: 0 <= i < |s.tombs.order| && s.tombs.order[i].key == k ==> s.tombs.order[i].at < t
    requires Harmless(calls, k, t) && NoEarlier(calls, k, t)
    requires Burials(calls) < MAX_HANDOFF_TOMBSTONES
    ensures Lookup(After(c, HandoffSet(c, s, k, value, Some(0), ahead, t).0, calls).lru, k).None?
  {
    DeletedStaysDeleted(c, NoteHandoff(s, ahead, t), k, t, calls);
  }

  // ---- a repeated delete does not renew a tombstone's place ----

  function BuryAll(t: Tombs, keys: seq<Key>, now: nat): Tombs
    decreases |keys|
  {
    if keys == [] then t else Bury(BuryAll(t, keys[..|keys| - 1], now), keys[|keys| - 1], now)
  }

  function StampAll(keys: seq<Key>, now: nat): seq<Stamp> {
    seq(|keys|, i requires 0 <= i < |keys| => Stamp(now, keys[i]))
  }

  function KeySet(keys: seq<Key>): set<Key> {
    set k | k in keys
  }

  lemma {:induction false} KeySetSize(keys: seq<Key>)
    requires forall i, j :: 0 <= i < j < |keys| ==> keys[i] != keys[j]
    ensures |KeySet(keys)| == |keys|
  {
    if keys != [] {
      KeySetSize(keys[1..]);
      assert KeySet(keys) == KeySet(keys[1..]) + {keys[0]};
    }
  }

  /** Below both caps, deletes at one instant just add up. */
  lemma {:induction false} BuryAllAdds(keys: seq<Key>, now: nat)
    requires |keys| <= 2 * MAX_HANDOFF_TOMBSTONES
    requires keys != [] ==> |KeySet(keys[..|keys| - 1])| < MAX_HANDOFF_TOMBSTONES
    ensures var t := BuryAll(Tombs(map[], []), keys, now);
            && t.order == StampAll(keys, now)
            && t.live == map k | k in KeySet(keys) :: now
    decreases |keys|
  {
    if keys != [] {
      var before, key := keys[..|keys| - 1], keys[|keys| - 1];
      if before != [] {
        SubsetSize(KeySet(before[..|before| - 1]), KeySet(before));
      }
      BuryAllAdds(before, now);
      var t := BuryAll(Tombs(map[], []), before, now);
      assert t.live.Keys == KeySet(before);
      assert Prune(t, now) == t;
      assert t.order + [Stamp(now, key)] == StampAll(keys, now);
      assert KeySet(keys) == KeySet(before) + {key};
    }
  }

  /**
   Deleting `k` a second time at one instant does not renew its place in the queue: two more deletes
   are then enough to lose its tombstone, and a put-if-absent copy of `k` would be let in again.
   */
  lemma RepeatAtOneInstantLosesTombstone(k: Key, others: seq<Key>, x: Key, y: Key, now: nat)
    requires |others| == MAX_HANDOFF_TOMBSTONES - 2
    requires var all := [k] + others + [x]; forall i, j :: 0 <= i < j < |all| ==> all[i] != all[j]
    requires y != k
    ensures var twice := BuryAll(Tombs(map[], []), [k] + others + [k], now);
            Tombstoned(twice, k, now) && !Tombstoned(Bury(Bury(twice, x, now), y, now), k, now)
  {
    hide ForgetOldest, Bury, KeySet, BuryAll;
    var early, keys := [k] + others + [k], [k] + others + [k] + [x];
    RepeatedKeys(k, others, x);
    assert early[..|early| - 1] == [k] + others && keys[..|keys| - 1] == early;
    BuryAllAdds(early, now);
    BuryAllAdds(keys, now);
    BuryAllStep(early, x, now);
    var t := BuryAll(Tombs(map[], []), keys, now);
    assert t.live.Keys == KeySet(keys) && |t.live| == |t.live.Keys|;
    assert t.order[0] == Stamp(now, k);
    FullCapDropsFirst(t, y, now);
  }

  lemma BuryAllStep(keys: seq<Key>, x: Key, now: nat)
    ensures BuryAll(Tombs(map[], []), keys + [x], now) == Bury(BuryAll(Tombs(map[], []), keys, now), x, now)
  {
    hide Bury;
    assert (keys + [x])[..|keys|] == keys;
  }

  /** Naming `k` a second time adds no key. */
  lemma RepeatedKeys(k: Key, others: seq<Key>, x: Key)
    requires var all := [k] + others + [x]; forall i, j :: 0 <= i < j < |all| ==> all[i] != all[j]
    ensures |KeySet([k] + others)| == |others| + 1
    ensures KeySet([k] + others + [k]) == KeySet([k] + others)
    ensures |KeySet([k] + others + [k] + [x])| == |others| + 2
    ensures k in KeySet([k] + others + [k] + [x]) && k in KeySet([k] + others + [k])
  {
    var base := [k] + others;
    var all := base + [x];
    assert base[0] == k;
    assert forall i, j :: 0 <= i < j < |base| ==> base[i] == all[i] && base[j] == all[j];
    KeySetSize(all);
    KeySetSize(base);
    assert KeySet(base + [k] + [x]) == KeySet(all);
  }

  /** The key of the first stamp in the queue that is live. */
  function FirstLive(t: Tombs): Option<Key>
    decreases |t.order|
  {
    if t.order == [] then None
    else if IsLive(t.live, t.order[0]) then Some(t.order[0].key)
    else FirstLive(t.(order := t.order[1..]))
  }

  lemma {:induction false} PruneKeepsYoung(t: Tombs, k: Key, now: nat)
    requires k in t.live && SaturatingSub(now, t.live[k]) < HANDOFF_TOMBSTONE_TTL
    ensures k in Prune(t, now).live && Prune(t, now).live[k] == t.live[k]
    decreases |t.order|
  {
    if t.order != [] && SaturatingSub(now, t.order[0].at) >= HANDOFF_TOMBSTONE_TTL {
      PruneKeepsYoung(Tombs(Forget(t.live, t.order[0]), t.order[1..]), k, now);
    }
  }

  lemma {:induction false} ForgetOldestTakesFirst(t: Tombs, k: Key)
    requires k in t.live
    ensures k !in ForgetOldest(t).live <==> FirstLive(t) == Some(k)
    decreases |t.order|
  {
    if t.order != [] && !IsLive(t.live, t.order[0]) {
      ForgetOldestTakesFirst(Tombs(t.live, t.order[1..]), k);
    }
  }

  /**
   Exactly when a delete of another key loses a tombstone that is still due: the map is full once the expired
   ones are pruned, and the tombstone's stamp is the first live one in the queue.
   */
  lemma LostIffFirstAtCap(t: Tombs, k: Key, key: Key, now: nat)
    requires k in t.live && k != key && SaturatingSub(now, t.live[k]) < HANDOFF_TOMBSTONE_TTL
    ensures k !in Bury(t, key, now).live <==>
            |Prune(t, now).live| >= MAX_HANDOFF_TOMBSTONES && FirstLive(Prune(t, now)) == Some(k)
  {
    hide Prune, ForgetOldest, FirstLive;
    PruneKeepsYoung(t, k, now);
    ForgetOldestTakesFirst(Prune(t, now), k);
  }

  /** A delete on a full set of tombstones drops the one whose stamp comes first. */
  lemma FullCapDropsFirst(t: Tombs, y: Key, now: nat)
    requires |t.live| >= MAX_HANDOFF_TOMBSTONES && t.order != [] && IsLive(t.live, t.order[0]) && y != t.order[0].key
    requires t.order[0].at == now
    ensures t.order[0].key !in Bury(t, y, now).live
  {
    assert Prune(t, now) == t;
    var first := t.order[0];
    assert first.key in t.live && first.key !in Forget(t.live, first);
  }
}
