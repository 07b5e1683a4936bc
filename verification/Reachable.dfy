/** What holds of the single-list store after every run. */
module Reachable {
  import opened Basics
  import opened Lru
  import opened StoreSpec
  import opened Eviction
  import opened Tombstones
  import opened NoResurrection
  import Decimal

  /** The list is in use order with unique keys, and every tombstone is queued. */
  ghost predicate Sound(s: Store) {
    Listed(s) && Queued(s.tombs)
  }

  ghost predicate Listed(s: Store) {
    Ordered(s.lru) && StampedBy(s.lru, s.clock)
  }

  const EMPTY := Store([], 0, Tombs(map[], []), [], None, 0)

  // ---- runs in parts ----

  lemma OneCall(c: Config, s: Store, call: Call)
    ensures After(c, s, [call]) == Apply(c, s, call.op, call.now).0
  {
    hide Apply;
    assert [call][..0] == [];
  }

  lemma TwoCalls(c: Config, s: Store, run: seq<Call>, a: Call, b: Call)
    ensures After(c, s, run + [a] + [b]) == Apply(c, Apply(c, After(c, s, run), a.op, a.now).0, b.op, b.now).0
  {
    hide Apply;
    assert (run + [a] + [b])[..|run| + 1] == run + [a];
    assert (run + [a])[..|run|] == run;
  }

  lemma {:induction false} AfterConcat(c: Config, s: Store, first: seq<Call>, later: seq<Call>)
    ensures After(c, s, first + later) == After(c, After(c, s, first), later)
    decreases |later|
  {
    hide Apply;
    if later == [] {
      assert first + later == first;
    } else {
      var n := |later| - 1;
      assert (first + later)[..|first| + n] == first + later[..n];
      AfterConcat(c, s, first, later[..n]);
    }
  }

  // ---- the list ----

  lemma RemovalListed(s: Store, key: Key)
    requires Listed(s)
    ensures Listed(s.(lru := Without(s.lru, key)))
  {
    WithoutMembers(s.lru, key);
  }

  lemma EditListed(s: Store, x: Item)
    requires Listed(s) && Lookup(s.lru, x.key).Some? && Lookup(s.lru, x.key).value.lastUsed == x.lastUsed
    ensures Listed(s.(lru := Replace(s.lru, x)))
  {
    ReplaceMembers(s.lru, x);
    LookupMember(s.lru, x.key);
  }

  lemma PromotionListed(s: Store, y: Item)
    requires Listed(s) && y.lastUsed == s.clock + 1
    ensures Listed(s.(clock := s.clock + 1, lru := Without(s.lru, y.key) + [y]))
  {
    WithoutMembers(s.lru, y.key);
    LookupMember(Without(s.lru, y.key), y.key);
    AppendOrdered(Without(s.lru, y.key), y);
  }

  lemma GetListed(s: Store, key: Key, now: nat)
    requires Listed(s)
    ensures Listed(Get(s, key, now).0)
  {
    RemovalListed(s, key);
    LookupMember(s.lru, key);
    if Lookup(s.lru, key).Some? {
      PromotionListed(s, Lookup(s.lru, key).value.(lastUsed := s.clock + 1));
    }
  }

  lemma TouchListed(c: Config, s: Store, key: Key, ttl: Option<nat>, promote: bool, now: nat)
    requires Listed(s)
    ensures Listed(Touch(c, s, key, ttl, promote, now).0)
  {
    RemovalListed(s, key);
    LookupMember(s.lru, key);
    if Lookup(s.lru, key).Some? {
      var x := Lookup(s.lru, key).value;
      PromotionListed(s, x.(expiresAt := Expiry(c, now, ttl), lastUsed := s.clock + 1));
      EditListed(s, x.(expiresAt := Expiry(c, now, ttl)));
    }
  }

  lemma HoldsListed(c: Config, s: Store, key: Key, cond: Condition, now: nat)
    requires Listed(s)
    ensures Listed(Holds(c, s, key, cond, now).0)
  {
    RemovalListed(s, key);
    var t := ExpireLazily(s, key, now);
    LookupMember(t.lru, key);
    if Lookup(t.lru, key).Some? {
      EditListed(t, Lookup(t.lru, key).value.(digested := true));
    }
  }

  lemma UnmarkListed(s: Store, key: Key)
    requires Listed(s)
    ensures Listed(s.(lru := Unmark(s.lru, key)))
  {
    LookupMember(s.lru, key);
    if Lookup(s.lru, key).Some? {
      EditListed(s, Lookup(s.lru, key).value.(marked := false));
    }
  }

  lemma {:induction false} UnmarkAllListed(s: Store, keys: seq<Key>)
    requires Listed(s)
    ensures Listed(s.(lru := UnmarkAll(s.lru, keys)))
    decreases |keys|
  {
    if keys != [] {
      UnmarkListed(s, keys[0]);
      UnmarkAllListed(s.(lru := Unmark(s.lru, keys[0])), keys[1..]);
    }
  }

  lemma {:induction false} SetManyListed(c: Config, s: Store, ns: Bytes, items: seq<Pair>, expiresAt: Option<nat>)
    requires Listed(s)
    ensures Listed(SetMany(c, s, ns, items, expiresAt))
    decreases |items|
  {
    if items != [] {
      WriteIsKept(c, s, Key(ns, items[0].name), items[0].value, expiresAt);
      SetManyListed(c, Put(c, s, Key(ns, items[0].name), items[0].value, expiresAt), ns, items[1..], expiresAt);
    }
  }

  lemma {:induction false} GetManyListed(b: Batch, ns: Bytes, names: seq<Bytes>, cap: nat, now: nat)
    requires Listed(b.store)
    ensures Listed(GetMany(b, ns, names, cap, now).store)
    decreases |names|
  {
    if names != [] {
      GetListed(b.store, Key(ns, names[0]), now);
      GetManyListed(GetNext(b, Key(ns, names[0]), cap, now), ns, names[1..], cap, now);
    }
  }

  lemma {:induction false} TouchManyListed(c: Config, b: Batch, ns: Bytes, names: seq<Bytes>, ttl: Option<nat>,
                                           promote: bool, cap: Option<nat>, now: nat)
    requires Listed(b.store)
    ensures Listed(TouchMany(c, b, ns, names, ttl, promote, cap, now).store)
    decreases |names|
  {
    if names != [] {
      TouchListed(c, b.store, Key(ns, names[0]), ttl, promote, now);
      TouchManyListed(c, TouchNext(c, b, Key(ns, names[0]), ttl, promote, cap, now), ns, names[1..], ttl, promote,
        cap, now);
    }
  }

  lemma {:induction false} ReclaimListed(s: Store, keys: seq<Key>, owned: Key -> bool)
    requires Listed(s)
    ensures Listed(ReclaimAll(s, keys, owned).0)
    decreases |keys|
  {
    if keys != [] {
      RemovalListed(s, keys[0]);
      var t := if Lookup(s.lru, keys[0]).Some? && !owned(keys[0])
               then s.(lru := Without(s.lru, keys[0]), tombs := s.tombs.(live := s.tombs.live - {keys[0]})) else s;
      ReclaimListed(t, keys[1..], owned);
    }
  }

  lemma {:induction false} SweepListed(s: Store, budget: nat, includeMarked: bool, owned: Option<Key -> bool>, now: nat)
    requires Listed(s)
    ensures Listed(SweepSome(s, budget, includeMarked, owned, now).0)
    decreases budget
  {
    if budget > 0 && s.pending != [] {
      var s' := s.(pending := s.pending[1..]);
      RemovalListed(s', s.pending[0]);
      UnmarkListed(s', s.pending[0]);
      SweepListed(SweepOne(s', s.pending[0], includeMarked, owned, now).0, budget - 1, includeMarked, owned, now);
    }
  }

  lemma IncrListed(c: Config, s: Store, key: Key, delta: int, now: nat)
    requires Listed(s)
    ensures Listed(Incr(c, s, key, delta, now).0)
  {
    RemovalListed(s, key);
    match Lookup(s.lru, key)
    case None =>
    case Some(x) =>
      match Decimal.ParseI64(x.value)
      case None =>
      case Some(current) => WriteIsKept(c, s, key, Decimal.PrintInt(current + delta), x.expiresAt);
  }

  lemma ApplyListed(c: Config, s: Store, op: Op, now: nat)
    requires Listed(s)
    ensures Listed(Apply(c, s, op, now).0)
  {
    hide Put, Get, Touch, Incr, Holds, SetMany, GetMany, TouchMany, ReclaimAll, SweepSome, UnmarkAll, Bury, Prune,
         Without, Replace;
    match op
    case Setting(key, value, ttl) => WriteIsKept(c, s, key, value, Expiry(c, now, ttl));
    case Getting(key) => GetListed(s, key, now);
    case Touching(key, ttl, promote) => TouchListed(c, s, key, ttl, promote, now);
    case Deleting(key) => RemovalListed(s, key);
    case Incrementing(key, delta) => IncrListed(c, s, key, delta, now);
    case CasSetting(key, cond, value, ttl) =>
      HoldsListed(c, s, key, cond, now);
      WriteIsKept(c, Holds(c, s, key, cond, now).0, key, value, Expiry(c, now, ttl));
    case CasDeleting(key, digest) =>
      HoldsListed(c, s, key, Matches(digest), now);
      RemovalListed(Holds(c, s, key, Matches(digest), now).0, key);
    case Clearing(ns) =>
      NotOfOrdered(s.lru, ns);
      NotOfMembers(s.lru, ns);
    case ClearingAll =>
    case SettingMany(ns, items, ttl) => SetManyListed(c, s, ns, items, Expiry(c, now, ttl));
    case GettingMany(ns, names, limit) => GetManyListed(Begin(s), ns, names, limit, now);
    case TouchingMany(ns, names, ttl, promote, cap) => TouchManyListed(c, Begin(s), ns, names, ttl, promote, cap, now);
    case HandingOff(key, value, ttl, ahead) =>
      var t := NoteHandoff(s, ahead, now);
      RemovalListed(t, key);
      WriteIsKept(c, t, key, value, Expiry(c, now, ttl));
    case HandingOffIfAbsent(key, value, ttl, ahead) =>
      var t := NoteHandoff(s, ahead, now);
      HoldsListed(c, t, key, Absent, now);
      WriteIsKept(c, Holds(c, t, key, Absent, now).0, key, value, Expiry(c, now, ttl));
    case HandingOffDelete(key) => RemovalListed(s, key);
    case Reclaiming(keys, mine, quiet) => ReclaimListed(s, keys, mine);
    case Marking(key) =>
      LookupMember(s.lru, key);
      if Lookup(s.lru, key).Some? {
        EditListed(s, Lookup(s.lru, key).value.(marked := true));
      }
    case Unmarking(keys) => UnmarkAllListed(s, keys);
    case Sweeping(refill, includeMarked, owned) =>
      var t := s.(tombs := Prune(s.tombs, now), pending := if s.pending == [] then refill else s.pending);
      SweepListed(t, SWEEP_BUDGET, includeMarked, owned, now);
  }

  // ---- tombstones over runs ----

  /** The queue is untouched and tombstones only leave. */
  ghost predicate Shrunk(a: Tombs, b: Tombs) {
    a.order == b.order && forall x :: x in a.live ==> x in b.live && a.live[x] == b.live[x]
  }

  lemma {:induction false} ReclaimShrinks(s: Store, keys: seq<Key>, owned: Key -> bool)
    ensures Shrunk(ReclaimAll(s, keys, owned).0.tombs, s.tombs)
    decreases |keys|
  {
    if keys != [] {
      var t := if Lookup(s.lru, keys[0]).Some? && !owned(keys[0])
               then s.(lru := Without(s.lru, keys[0]), tombs := s.tombs.(live := s.tombs.live - {keys[0]})) else s;
      ReclaimShrinks(t, keys[1..], owned);
    }
  }

  lemma {:induction false} SweepShrinks(s: Store, budget: nat, includeMarked: bool, owned: Option<Key -> bool>,
                                        now: nat)
    ensures Shrunk(SweepSome(s, budget, includeMarked, owned, now).0.tombs, s.tombs)
    decreases budget
  {
    if budget > 0 && s.pending != [] {
      var s' := s.(pending := s.pending[1..]);
      SweepShrinks(SweepOne(s', s.pending[0], includeMarked, owned, now).0, budget - 1, includeMarked, owned, now);
    }
  }

  lemma {:induction false} SetManyTombs(c: Config, s: Store, ns: Bytes, items: seq<Pair>, expiresAt: Option<nat>)
    ensures SetMany(c, s, ns, items, expiresAt).tombs == s.tombs
    decreases |items|
  {
    if items != [] {
      SetManyTombs(c, Put(c, s, Key(ns, items[0].name), items[0].value, expiresAt), ns, items[1..], expiresAt);
    }
  }

  lemma {:induction false} GetManyTombs(b: Batch, ns: Bytes, names: seq<Bytes>, cap: nat, now: nat)
    ensures GetMany(b, ns, names, cap, now).store.tombs == b.store.tombs
    decreases |names|
  {
    if names != [] {
      GetManyTombs(GetNext(b, Key(ns, names[0]), cap, now), ns, names[1..], cap, now);
    }
  }

  lemma {:induction false} TouchManyTombs(c: Config, b: Batch, ns: Bytes, names: seq<Bytes>, ttl: Option<nat>,
                                          promote: bool, cap: Option<nat>, now: nat)
    ensures TouchMany(c, b, ns, names, ttl, promote, cap, now).store.tombs == b.store.tombs
    decreases |names|
  {
    if names != [] {
      TouchManyTombs(c, TouchNext(c, b, Key(ns, names[0]), ttl, promote, cap, now), ns, names[1..], ttl, promote, cap,
        now);
    }
  }

  /** What one operation does to the tombstones. */
  lemma ApplyTombs(c: Config, s: Store, op: Op, now: nat)
    ensures var t := Apply(c, s, op, now).0.tombs;
            match op
            case ClearingAll => t == Tombs(map[], [])
            case Sweeping(_, _, _) => Shrunk(t, Prune(s.tombs, now))
            case Reclaiming(_, _, _) => Shrunk(t, s.tombs)
            case _ => t == if Buries(op).Some? then Bury(s.tombs, Buries(op).value, now) else s.tombs
  {
    hide Put, SetMany, GetMany, TouchMany, ReclaimAll, SweepSome, UnmarkAll, Bury, Prune, Without, Replace, Lookup;
    match op
    case SettingMany(ns, items, ttl) => SetManyTombs(c, s, ns, items, Expiry(c, now, ttl));
    case GettingMany(ns, names, limit) => GetManyTombs(Begin(s), ns, names, limit, now);
    case TouchingMany(ns, names, ttl, promote, cap) => TouchManyTombs(c, Begin(s), ns, names, ttl, promote, cap, now);
    case Reclaiming(keys, mine, quiet) => ReclaimShrinks(s, keys, mine);
    case Sweeping(refill, includeMarked, owned) =>
      var t := s.(tombs := Prune(s.tombs, now), pending := if s.pending == [] then refill else s.pending);
      SweepShrinks(t, SWEEP_BUDGET, includeMarked, owned, now);
    case _ => PutTombs(c);
  }

  lemma PutTombs(c: Config)
    ensures forall s, key, value, expiresAt :: Put(c, s, key, value, expiresAt).tombs == s.tombs
  {
  }

  lemma ApplySound(c: Config, s: Store, op: Op, now: nat)
    requires Sound(s)
    ensures Sound(Apply(c, s, op, now).0)
  {
    hide Apply, Listed, Prune, Bury;
    ApplyListed(c, s, op, now);
    ApplyTombs(c, s, op, now);
    PruneKeepsQueued(s.tombs, now);
    if Buries(op).Some? {
      BuryKeepsQueued(s.tombs, Buries(op).value, now);
    }
  }

  /** Every run from an empty store leaves a sound one, so the eviction and no-resurrection laws apply to it. */
  lemma {:induction false} EveryRunIsSound(c: Config, calls: seq<Call>)
    ensures Sound(After(c, EMPTY, calls))
    decreases |calls|
  {
    if calls != [] {
      var n := |calls| - 1;
      EveryRunIsSound(c, calls[..n]);
      ApplySound(c, After(c, EMPTY, calls[..n]), calls[n].op, calls[n].now);
    }
  }

  /** The clock never goes back. */
  ghost predicate InOrder(calls: seq<Call>) {
    forall i, j :: 0 <= i < j < |calls| ==> calls[i].now <= calls[j].now
  }

  /** No key is handoff-deleted twice at one instant. */
  ghost predicate NoRepeats(calls: seq<Call>) {
    forall i, j :: 0 <= i < j < |calls| && Buries(calls[i].op).Some? && Buries(calls[i].op) == Buries(calls[j].op) ==>
      calls[i].now != calls[j].now
  }

  /** Every queued stamp is that of a call of the run. */
  ghost predicate Recorded(t: Tombs, calls: seq<Call>) {
    forall x :: x in t.order ==> exists i :: 0 <= i < |calls| && calls[i].now == x.at && BuriesAt(calls[i], x.key)
  }

  lemma ShrunkKeepsBooks(a: Tombs, b: Tombs)
    requires Shrunk(a, b) && TombsKept(b)
    ensures TombsKept(a) && (TombsOk(b) ==> TombsOk(a))
  {
    SubsetSize(a.live.Keys, b.live.Keys);
  }

  lemma RecordedLater(t: Tombs, t': Tombs, calls: seq<Call>, last: Call)
    requires Recorded(t, calls)
    requires forall x :: x in t'.order ==> x in t.order || (BuriesAt(last, x.key) && x.at == last.now)
    ensures Recorded(t', calls + [last])
  {
    var all := calls + [last];
    forall x | x in t'.order ensures exists i :: 0 <= i < |all| && all[i].now == x.at && BuriesAt(all[i], x.key) {
      if x in t.order {
        var i :| 0 <= i < |calls| && calls[i].now == x.at && BuriesAt(calls[i], x.key);
        assert all[i] == calls[i];
      } else {
        assert all[|calls|] == last;
      }
    }
  }

  lemma BuryOrderMembers(t: Tombs, key: Key, now: nat)
    requires Queued(t)
    ensures forall x :: x in Bury(t, key, now).order ==> x in t.order || x == Stamp(now, key)
  {
    hide Prune, ForgetOldest, LiveStamps;
    RoomyIsSuffix(t, now);
    var r := Roomy(t, now);
    LiveStampsMembers(r.order + [Stamp(now, key)], r.live[key := now]);
  }

  /**
   Over every run whose clock never goes back: each tombstone is queued with its stamp, the queue is
   time-ordered and holds only stamps of the run, and the tombstones stay within their cap. If no key is
   handoff-deleted twice at one instant, the queue is repeat-free and within its cap too.
   */
  lemma {:induction false} BooksOverRuns(c: Config, calls: seq<Call>)
    requires InOrder(calls)
    ensures var t := After(c, EMPTY, calls).tombs;
            TombsKept(t) && Recorded(t, calls) && (NoRepeats(calls) ==> TombsOk(t))
    decreases |calls|
  {
    if calls != [] {
      var n := |calls| - 1;
      var before, last := calls[..n], calls[n];
      assert calls == before + [last];
      BooksOverRuns(c, before);
      StepKeepsBooks(c, After(c, EMPTY, before), before, last);
      assert NoRepeats(calls) ==> NoRepeats(before);
    }
  }

  lemma StepKeepsBooks(c: Config, s: Store, before: seq<Call>, last: Call)
    requires InOrder(before + [last]) && TombsKept(s.tombs) && Recorded(s.tombs, before)
    ensures var t := Apply(c, s, last.op, last.now).0.tombs;
            && TombsKept(t) && Recorded(t, before + [last])
            && (NoRepeats(before + [last]) && TombsOk(s.tombs) ==> TombsOk(t))
  {
    hide Apply, TombsOk, TombsKept, Prune, Bury, NoRepeats, InOrder;
    var t := Apply(c, s, last.op, last.now).0.tombs;
    ApplyTombs(c, s, last.op, last.now);
    if last.op.ClearingAll? {
      NoBooks();
    } else if last.op.Sweeping? {
      PruneKeepsBooks(s.tombs, last.now);
      ShrunkKeepsBooks(t, Prune(s.tombs, last.now));
    } else if last.op.Reclaiming? {
      ShrunkKeepsBooks(t, s.tombs);
    } else if Buries(last.op).Some? {
      var key := Buries(last.op).value;
      StampsBefore(s.tombs, before, last);
      BooksQueued(s.tombs);
      BuryOrderMembers(s.tombs, key, last.now);
      BuryKeepsBooks(s.tombs, key, last.now);
    }
    RecordedLater(s.tombs, t, before, last);
  }

  lemma NoBooks()
    ensures TombsOk(Tombs(map[], [])) && TombsKept(Tombs(map[], []))
  {
  }

  lemma BooksQueued(t: Tombs)
    requires TombsKept(t)
    ensures Queued(t)
  {
  }

  lemma StampsBefore(t: Tombs, before: seq<Call>, last: Call)
    requires InOrder(before + [last]) && Recorded(t, before) && Buries(last.op).Some?
    ensures forall x :: x in t.order ==> x.at <= last.now
    ensures NoRepeats(before + [last]) ==> Stamp(last.now, Buries(last.op).value) !in t.order
  {
    var all := before + [last];
    forall x | x in t.order
      ensures x.at <= last.now && (NoRepeats(all) ==> x != Stamp(last.now, Buries(last.op).value))
    {
      var i :| 0 <= i < |before| && before[i].now == x.at && BuriesAt(before[i], x.key);
      assert all[i] == before[i] && all[|before|] == last;
    }
  }
}
