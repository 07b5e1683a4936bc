/** What a batched touch answers and refreshes, at any cap, and when it is the touches one by one. */
module Touches {
  import opened Basics
  import opened Lru
  import opened StoreSpec
  import opened Eviction
  import opened Reachable
  import opened Batches

  /** The value under `key` if it is live. */
  function LiveValue(l: seq<Item>, key: Key, now: nat): Option<Bytes> {
    match Lookup(l, key)
    case None => None
    case Some(x) => if Expired(x.expiresAt, now) then None else Some(x.value)
  }

  datatype Content = Content(value: Bytes, expiresAt: Option<nat>)

  /** The value and expiry under `key`, whatever its recency. */
  function Held(l: seq<Item>, key: Key): Option<Content> {
    match Lookup(l, key)
    case None => None
    case Some(x) => Some(Content(x.value, x.expiresAt))
  }

  /** One touch answers the live value and gives that key the new expiry; no other key's content changes. */
  lemma TouchOnce(c: Config, s: Store, key: Key, ttl: Option<nat>, promote: bool, now: nat, k: Key)
    requires Listed(s)
    ensures var (t, got) := Touch(c, s, key, ttl, promote, now);
            && Listed(t)
            && (k != key ==> Held(t.lru, k) == Held(s.lru, k))
            && Held(t.lru, key) == (match LiveValue(s.lru, key, now)
                                    case None => None
                                    case Some(v) => Some(Content(v, Expiry(c, now, ttl))))
            && (match LiveValue(s.lru, key, now)
                case None => got.None?
                case Some(v) => got.Some? && got.value.value == v)
  {
    TouchListed(c, s, key, ttl, promote, now);
    LookupMember(s.lru, key);
    LookupWithoutSame(s.lru, key);
    if k != key {
      LookupWithout(s.lru, key, k);
    }
    if Lookup(s.lru, key).Some? {
      var x := Lookup(s.lru, key).value;
      var y := x.(expiresAt := Expiry(c, now, ttl));
      LookupReplace(s.lru, y, k);
      LookupReplace(s.lru, y, key);
      LookupAppend(Without(s.lru, key), y.(lastUsed := s.clock + 1), k);
      LookupAppend(Without(s.lru, key), y.(lastUsed := s.clock + 1), key);
    }
  }

  lemma {:induction false} LookupAppend(l: seq<Item>, x: Item, k: Key)
    ensures Lookup(l + [x], k) == if Lookup(l, k).Some? then Lookup(l, k) else if k == x.key then Some(x) else None
  {
    if l != [] {
      assert (l + [x])[1..] == l[1..] + [x];
      LookupAppend(l[1..], x, k);
    }
  }

  /** A batch over one more name is that batch, then that name. */
  lemma {:induction false} TouchManyLast(c: Config, b: Batch, ns: Bytes, names: seq<Bytes>, ttl: Option<nat>,
                                         promote: bool, cap: Option<nat>, now: nat)
    requires names != []
    ensures var n := |names| - 1;
            TouchMany(c, b, ns, names, ttl, promote, cap, now)
            == TouchNext(c, TouchMany(c, b, ns, names[..n], ttl, promote, cap, now), Key(ns, names[n]), ttl, promote,
                         cap, now)
    decreases |names|
  {
    hide TouchNext;
    var n := |names| - 1;
    if n == 0 {
      assert names[1..] == [] && names[..0] == [];
    } else {
      var b' := TouchNext(c, b, Key(ns, names[0]), ttl, promote, cap, now);
      TouchManyLast(c, b', ns, names[1..], ttl, promote, cap, now);
      assert names[1..][..n - 1] == names[..n][1..];
      assert names[..n] != [] && names[..n][0] == names[0];
    }
  }

  /** Some position naming `name` is answered with a value. */
  ghost predicate Answered(results: seq<Option<Bytes>>, names: seq<Bytes>, name: Bytes) {
    exists i :: 0 <= i < |names| && i < |results| && names[i] == name && results[i].Some?
  }

  lemma AnsweredLast(results: seq<Option<Bytes>>, names: seq<Bytes>, answer: Option<Bytes>, last: Bytes, name: Bytes)
    requires |results| == |names|
    ensures Answered(results + [answer], names + [last], name) <==>
            Answered(results, names, name) || (name == last && answer.Some?)
  {
    var r, n := results + [answer], names + [last];
    if Answered(results, names, name) {
      var i :| 0 <= i < |names| && names[i] == name && results[i].Some?;
      assert n[i] == name && r[i].Some?;
    }
    if name == last && answer.Some? {
      assert n[|names|] == name && r[|names|].Some?;
    }
    if Answered(r, n, name) {
      var i :| 0 <= i < |n| && n[i] == name && r[i].Some?;
      assert i < |names| ==> names[i] == name && results[i].Some?;
    }
  }

  /** Whether a value of this length may still join a reply that holds `used` bytes. */
  predicate Room(used: nat, length: nat, cap: Option<nat>) {
    cap.None? || (used < cap.value && used + length <= cap.value)
  }

  /** The value there is, if there is room for it. */
  function IfRoom(value: Option<Bytes>, used: nat, cap: Option<nat>): Option<Bytes> {
    if value.Some? && Room(used, |value.value|, cap) then value else None
  }

  /** The reply: one answer for each name, within the cap, each the value live when the batch began if it fits. */
  ghost predicate RightAnswers(s: Store, b: Batch, ns: Bytes, names: seq<Bytes>, cap: Option<nat>, now: nat) {
    && |b.results| == |names|
    && b.used == ReplyBytes(b.results) && (cap.Some? ==> b.used <= cap.value)
    && forall i :: 0 <= i < |names| ==>
        b.results[i] == IfRoom(LiveValue(s.lru, Key(ns, names[i]), now), ReplyBytes(b.results[..i]), cap)
  }

  /** What is under `k` after the batch: refreshed if and only if some answer carries its value. */
  ghost predicate RightContent(c: Config, s: Store, b: Batch, ns: Bytes, names: seq<Bytes>, ttl: Option<nat>, now: nat,
                               k: Key) {
    if k.ns == ns && Answered(b.results, names, k.name) then
      && LiveValue(s.lru, k, now).Some?
      && Held(b.store.lru, k) == Some(Content(LiveValue(s.lru, k, now).value, Expiry(c, now, ttl)))
    else
      || Held(b.store.lru, k) == Held(s.lru, k)
      || (LiveValue(s.lru, k, now).None? && Held(b.store.lru, k).None?)
  }

  /** A zero TTL remembers each value it has answered. */
  ghost predicate Remembers(s: Store, b: Batch, ns: Bytes, names: seq<Bytes>, ttl: Option<nat>, now: nat) {
    forall name :: name in b.seen <==> ttl == Some(0) && Answered(b.results, names, name)
  }

  ghost predicate RemembersRight(s: Store, b: Batch, ns: Bytes, now: nat) {
    forall name :: name in b.seen ==> LiveValue(s.lru, Key(ns, name), now) == Some(b.seen[name])
  }

  /** A batch under way that has gone right so far. */
  ghost predicate OnCourse(c: Config, s: Store, b: Batch, ns: Bytes, names: seq<Bytes>, ttl: Option<nat>,
                           cap: Option<nat>, now: nat) {
    && Listed(b.store)
    && RightAnswers(s, b, ns, names, cap, now)
    && (forall k :: RightContent(c, s, b, ns, names, ttl, now, k))
    && Remembers(s, b, ns, names, ttl, now)
    && RemembersRight(s, b, ns, now)
  }

  /** Unless a zero TTL has expired it on the way, a name is as live as when the batch began. */
  lemma StillLive(c: Config, s: Store, b: Batch, ns: Bytes, names: seq<Bytes>, ttl: Option<nat>, cap: Option<nat>,
                  now: nat, name: Bytes)
    requires OnCourse(c, s, b, ns, names, ttl, cap, now) && name !in b.seen
    ensures LiveValue(b.store.lru, Key(ns, name), now) == LiveValue(s.lru, Key(ns, name), now)
  {
    assert RightContent(c, s, b, ns, names, ttl, now, Key(ns, name));
    assert !(ttl == Some(0) && Answered(b.results, names, name));
    assert ttl != Some(0) ==> !Expired(Expiry(c, now, ttl), now);
  }

  lemma LiveLengthIs(l: seq<Item>, key: Key, now: nat)
    ensures LiveLength(l, key, now) == match LiveValue(l, key, now) case None => 0 case Some(v) => |v|
  {
  }

  /** The answer one more name gets. */
  lemma NextAnswer(c: Config, s: Store, b: Batch, ns: Bytes, names: seq<Bytes>, ttl: Option<nat>, promote: bool,
                   cap: Option<nat>, now: nat, name: Bytes)
    returns (answer: Option<Bytes>)
    requires OnCourse(c, s, b, ns, names, ttl, cap, now)
    ensures var b' := TouchNext(c, b, Key(ns, name), ttl, promote, cap, now);
            && b'.results == b.results + [answer]
            && RightAnswers(s, b', ns, names + [name], cap, now)
            && (answer.Some? ==> answer == LiveValue(s.lru, Key(ns, name), now))
            && (if answer.Some? && name !in b.seen then
                  && b'.store == Touch(c, b.store, Key(ns, name), ttl, promote, now).0
                  && b'.seen == (if ttl == Some(0) then b.seen[name := answer.value] else b.seen)
                else
                  && b'.seen == b.seen
                  && (|| b'.store == b.store
                      || (b'.store == Touch(c, b.store, Key(ns, name), ttl, promote, now).0
                          && LiveValue(s.lru, Key(ns, name), now).None?)))
  {
    hide Listed, Touch, TouchNext, LiveValue, RightContent, Remembers, ReplyBytes;
    var key := Key(ns, name);
    if name !in b.seen {
      StillLive(c, s, b, ns, names, ttl, cap, now, name);
    }
    answer := NextCases(c, b, key, ttl, promote, cap, now);
    ReplyGrows(b.results, answer);
    AnswersGrow(s, b, TouchNext(c, b, key, ttl, promote, cap, now), ns, names, cap, now, name, answer);
  }

  lemma AnswersGrow(s: Store, b: Batch, b': Batch, ns: Bytes, names: seq<Bytes>, cap: Option<nat>, now: nat,
                    name: Bytes,
                    answer: Option<Bytes>)
    requires RightAnswers(s, b, ns, names, cap, now) && b'.results == b.results + [answer]
    requires b'.used == ReplyBytes(b'.results) && (cap.Some? ==> b'.used <= cap.value)
    requires answer == IfRoom(LiveValue(s.lru, Key(ns, name), now), b.used, cap)
    ensures RightAnswers(s, b', ns, names + [name], cap, now)
  {
    hide LiveValue, ReplyBytes, IfRoom;
    var all := names + [name];
    forall i | 0 <= i < |all|
      ensures b'.results[i] == IfRoom(LiveValue(s.lru, Key(ns, all[i]), now), ReplyBytes(b'.results[..i]), cap)
    {
      if i < |names| {
        assert all[i] == names[i] && b'.results[..i] == b.results[..i];
      } else {
        assert all[i] == name && b'.results[..i] == b.results;
      }
    }
  }

  function ValueBytes(answer: Option<Bytes>): nat {
    if answer.Some? then |answer.value| else 0
  }

  lemma ReplyGrows(results: seq<Option<Bytes>>, answer: Option<Bytes>)
    ensures ReplyBytes(results + [answer]) == ReplyBytes(results) + ValueBytes(answer)
  {
    assert (results + [answer])[..|results|] == results;
  }

  /** One more name, in terms of what is live in the batch's own store. */
  lemma NextCases(c: Config, b: Batch, key: Key, ttl: Option<nat>, promote: bool, cap: Option<nat>, now: nat)
    returns (answer: Option<Bytes>)
    requires Listed(b.store)
    ensures var b' := TouchNext(c, b, key, ttl, promote, cap, now);
            var live := LiveValue(b.store.lru, key, now);
            && b'.results == b.results + [answer] && b'.used == b.used + ValueBytes(answer)
            && (cap.Some? && b.used <= cap.value ==> b'.used <= cap.value)
            && answer == IfRoom(if key.name in b.seen then Some(b.seen[key.name]) else live, b.used, cap)
            && (if key.name in b.seen then b'.store == b.store && b'.seen == b.seen
                else
                  && (if answer.Some? then
                        && b'.store == Touch(c, b.store, key, ttl, promote, now).0
                        && b'.seen == (if ttl == Some(0) then b.seen[key.name := answer.value] else b.seen)
                      else
                        && b'.seen == b.seen
                        && (|| b'.store == b.store
                            || (b'.store == Touch(c, b.store, key, ttl, promote, now).0 && live.None?))))
  {
    hide Lookup, Listed, Touch, LiveValue, LiveLength;
    TouchOnce(c, b.store, key, ttl, promote, now, key);
    LiveLengthIs(b.store.lru, key, now);
    answer := TouchNext(c, b, key, ttl, promote, cap, now).results[|b.results|];
  }

  lemma NextStaysOnCourse(c: Config, s: Store, b: Batch, ns: Bytes, names: seq<Bytes>, ttl: Option<nat>, promote: bool,
                          cap: Option<nat>, now: nat, name: Bytes)
    requires OnCourse(c, s, b, ns, names, ttl, cap, now)
    ensures OnCourse(c, s, TouchNext(c, b, Key(ns, name), ttl, promote, cap, now), ns, names + [name], ttl, cap, now)
  {
    hide Touch, TouchNext, LiveValue, Held, RightAnswers, Answered, Listed;
    var key := Key(ns, name);
    var b' := TouchNext(c, b, key, ttl, promote, cap, now);
    var answer := NextAnswer(c, s, b, ns, names, ttl, promote, cap, now, name);
    assert |b.results| == |names| by { AnswerCount(s, b, ns, names, cap, now); }
    forall other
      ensures Answered(b'.results, names + [name], other) <==>
              Answered(b.results, names, other) || (other == name && answer.Some?)
    {
      AnsweredLast(b.results, names, answer, name, other);
    }
    forall k ensures RightContent(c, s, b', ns, names + [name], ttl, now, k) {
      assert RightContent(c, s, b, ns, names, ttl, now, k);
      NextContent(c, s, b, ns, names, ttl, promote, cap, now, name, answer, k);
    }
    TouchOnce(c, b.store, key, ttl, promote, now, key);
  }

  lemma AnswerCount(s: Store, b: Batch, ns: Bytes, names: seq<Bytes>, cap: Option<nat>, now: nat)
    requires RightAnswers(s, b, ns, names, cap, now)
    ensures |b.results| == |names|
  {
  }

  lemma NextContent(c: Config, s: Store, b: Batch, ns: Bytes, names: seq<Bytes>, ttl: Option<nat>, promote: bool,
                    cap: Option<nat>, now: nat, name: Bytes, answer: Option<Bytes>, k: Key)
    requires OnCourse(c, s, b, ns, names, ttl, cap, now)
    requires var b' := TouchNext(c, b, Key(ns, name), ttl, promote, cap, now);
             && b'.results == b.results + [answer]
             && (answer.Some? ==> answer == LiveValue(s.lru, Key(ns, name), now))
             && (if answer.Some? && name !in b.seen then
                   b'.store == Touch(c, b.store, Key(ns, name), ttl, promote, now).0
                 else
                   || b'.store == b.store
                   || (b'.store == Touch(c, b.store, Key(ns, name), ttl, promote, now).0
                       && LiveValue(s.lru, Key(ns, name), now).None?))
    ensures RightContent(c, s, TouchNext(c, b, Key(ns, name), ttl, promote, cap, now), ns, names + [name], ttl, now, k)
  {
    var key := Key(ns, name);
    assert RightContent(c, s, b, ns, names, ttl, now, k);
    assert RightContent(c, s, b, ns, names, ttl, now, key);
    AnswerCount(s, b, ns, names, cap, now);
    if name !in b.seen {
      StillLive(c, s, b, ns, names, ttl, cap, now, name);
    }
    hide Touch, TouchNext, LiveValue, Held, RightAnswers, Answered, Listed, OnCourse;
    TouchOnce(c, b.store, key, ttl, promote, now, k);
    AnsweredLast(b.results, names, answer, name, k.name);
  }

  lemma BeginOnCourse(c: Config, s: Store, ns: Bytes, ttl: Option<nat>, cap: Option<nat>, now: nat)
    requires Listed(s)
    ensures OnCourse(c, s, Begin(s), ns, [], ttl, cap, now)
  {
  }

  lemma {:induction false} TouchManyOnCourse(c: Config, s: Store, ns: Bytes, names: seq<Bytes>, ttl: Option<nat>,
                                             promote: bool, cap: Option<nat>, now: nat)
    requires Listed(s)
    ensures OnCourse(c, s, TouchMany(c, Begin(s), ns, names, ttl, promote, cap, now), ns, names, ttl, cap, now)
    decreases |names|
  {
    hide OnCourse, TouchNext, Listed;
    if names == [] {
      BeginOnCourse(c, s, ns, ttl, cap, now);
    } else {
      var n := |names| - 1;
      var b := TouchMany(c, Begin(s), ns, names[..n], ttl, promote, cap, now);
      TouchManyOnCourse(c, s, ns, names[..n], ttl, promote, cap, now);
      TouchManyLast(c, Begin(s), ns, names, ttl, promote, cap, now);
      NextStaysOnCourse(c, s, b, ns, names[..n], ttl, promote, cap, now, names[n]);
      assert names[..n] + [names[n]] == names;
    }
  }

  /**
   A batched touch, whatever its cap and however its names repeat: one answer for each name, never more
   value bytes than the cap, each answer the value that was live when the batch began exactly if there is
   room left for it. Without a cap there always is.
   */
  lemma TouchManyAnswers(c: Config, s: Store, ns: Bytes, names: seq<Bytes>, ttl: Option<nat>, promote: bool,
                         cap: Option<nat>, now: nat)
    requires Listed(s)
    ensures var b := TouchMany(c, Begin(s), ns, names, ttl, promote, cap, now);
            && |b.results| == |names| && (cap.Some? ==> ReplyBytes(b.results) <= cap.value)
            && forall i :: 0 <= i < |names| ==>
                b.results[i] == IfRoom(LiveValue(s.lru, Key(ns, names[i]), now), ReplyBytes(b.results[..i]), cap)
  {
    hide TouchMany, LiveValue, ReplyBytes, IfRoom, Listed, RightContent, Answered;
    TouchManyOnCourse(c, s, ns, names, ttl, promote, cap, now);
  }

  /**
   A value is refreshed exactly when some answer carries it: then it has the new expiry. One that is left
   out of the whole reply keeps its content, unless it was past its TTL already and was dropped.
   */
  lemma TouchManyRefreshes(c: Config, s: Store, ns: Bytes, names: seq<Bytes>, ttl: Option<nat>, promote: bool,
                           cap: Option<nat>, now: nat, k: Key)
    requires Listed(s)
    ensures var b := TouchMany(c, Begin(s), ns, names, ttl, promote, cap, now);
            if k.ns == ns && Answered(b.results, names, k.name) then
              && LiveValue(s.lru, k, now).Some?
              && Held(b.store.lru, k) == Some(Content(LiveValue(s.lru, k, now).value, Expiry(c, now, ttl)))
            else
              || Held(b.store.lru, k) == Held(s.lru, k)
              || (LiveValue(s.lru, k, now).None? && Held(b.store.lru, k).None?)
  {
    hide TouchMany, LiveValue, Listed, Held, RightAnswers, Answered;
    TouchManyOnCourse(c, s, ns, names, ttl, promote, cap, now);
    assert RightContent(c, s, TouchMany(c, Begin(s), ns, names, ttl, promote, cap, now), ns, names, ttl, now, k);
  }

  // ---- one by one ----

  /** Touches one after another, with no bound on the reply. */
  function TouchAll(c: Config, s: Store, ns: Bytes, names: seq<Bytes>, ttl: Option<nat>, promote: bool, now: nat)
    : (Store, seq<Option<Bytes>>)
    decreases |names|
  {
    if names == [] then (s, [])
    else
      var (t, rest) := TouchAll(c, s, ns, names[..|names| - 1], ttl, promote, now);
      var (u, got) := Touch(c, t, Key(ns, names[|names| - 1]), ttl, promote, now);
      (u, rest + [match got case None => None case Some(touched) => Some(touched.value)])
  }

  /** One by one, a touch that expires its entry at once makes every later touch of that name a miss. */
  lemma {:induction false} TouchAllAnswers(c: Config, s: Store, ns: Bytes, names: seq<Bytes>, ttl: Option<nat>,
                                           promote: bool, now: nat, k: Key)
    requires Listed(s)
    ensures var (t, results) := TouchAll(c, s, ns, names, ttl, promote, now);
            && Listed(t) && |results| == |names|
            && LiveValue(t.lru, k, now) ==
               (if Expired(Expiry(c, now, ttl), now) && k.ns == ns && k.name in names then None
                else LiveValue(s.lru, k, now))
            && forall i :: 0 <= i < |names| ==>
                results[i] == if Expired(Expiry(c, now, ttl), now) && names[i] in names[..i] then None
                              else LiveValue(s.lru, Key(ns, names[i]), now)
    decreases |names|
  {
    hide Touch, Listed, Expiry;
    if names != [] {
      var n := |names| - 1;
      var key := Key(ns, names[n]);
      var t := TouchAll(c, s, ns, names[..n], ttl, promote, now).0;
      TouchAllAnswers(c, s, ns, names[..n], ttl, promote, now, k);
      TouchAllAnswers(c, s, ns, names[..n], ttl, promote, now, key);
      TouchOnce(c, t, key, ttl, promote, now, k);
      LiveFromHeld(t.lru, k, now);
      LiveFromHeld(Touch(c, t, key, ttl, promote, now).0.lru, k, now);
      assert names == names[..n] + [names[n]];
      forall i | 0 <= i < n ensures names[..n][..i] == names[..i] {
      }
    }
  }

  lemma LiveFromHeld(l: seq<Item>, k: Key, now: nat)
    ensures LiveValue(l, k, now) == match Held(l, k)
                                    case None => None
                                    case Some(h) => if Expired(h.expiresAt, now) then None else Some(h.value)
  {
  }

  /** Some live name comes more than once. */
  ghost predicate LiveRepeat(s: Store, ns: Bytes, names: seq<Bytes>, now: nat) {
    exists i :: 0 <= i < |names| && names[i] in names[..i] && LiveValue(s.lru, Key(ns, names[i]), now).Some?
  }

  lemma NoLiveRepeatBefore(s: Store, ns: Bytes, names: seq<Bytes>, now: nat)
    requires names != [] && !LiveRepeat(s, ns, names, now)
    ensures !LiveRepeat(s, ns, names[..|names| - 1], now)
  {
    var before := names[..|names| - 1];
    forall i | 0 <= i < |before| && before[i] in before[..i] ensures LiveValue(s.lru, Key(ns, before[i]), now).None? {
      assert before[i] == names[i] && before[..i] == names[..i];
    }
  }

  /** A name a batch remembers is live and has come before. */
  lemma RememberedRepeats(c: Config, s: Store, b: Batch, ns: Bytes, names: seq<Bytes>, ttl: Option<nat>, now: nat,
                          name: Bytes)
    requires OnCourse(c, s, b, ns, names, ttl, None, now) && name in b.seen
    ensures ttl == Some(0) && LiveRepeat(s, ns, names + [name], now)
  {
    assert Answered(b.results, names, name);
    var all := names + [name];
    assert all[|names|] == name && all[..|names|] == names;
  }

  lemma UnseenIsTouched(c: Config, b: Batch, key: Key, ttl: Option<nat>, promote: bool, now: nat)
    requires key.name !in b.seen
    ensures var b' := TouchNext(c, b, key, ttl, promote, None, now);
            var (t, got) := Touch(c, b.store, key, ttl, promote, now);
            && b'.store == t
            && b'.results == b.results + [match got case None => None case Some(touched) => Some(touched.value)]
  {
  }

  lemma {:induction false} TouchManyIsTouches(c: Config, s: Store, ns: Bytes, names: seq<Bytes>, ttl: Option<nat>,
                                              promote: bool, now: nat)
    requires Listed(s) && (ttl != Some(0) || !LiveRepeat(s, ns, names, now))
    ensures var b := TouchMany(c, Begin(s), ns, names, ttl, promote, None, now);
            (b.store, b.results) == TouchAll(c, s, ns, names, ttl, promote, now)
    decreases |names|
  {
    if names != [] {
      hide LiveRepeat, Listed, Touch, TouchMany, TouchNext;
      var n := |names| - 1;
      var b := TouchMany(c, Begin(s), ns, names[..n], ttl, promote, None, now);
      if ttl == Some(0) {
        NoLiveRepeatBefore(s, ns, names, now);
      }
      TouchManyIsTouches(c, s, ns, names[..n], ttl, promote, now);
      TouchManyLast(c, Begin(s), ns, names, ttl, promote, None, now);
      LastIsUnseen(c, s, ns, names, ttl, promote, now);
      UnseenIsTouched(c, b, Key(ns, names[n]), ttl, promote, now);
    }
  }

  lemma LastIsUnseen(c: Config, s: Store, ns: Bytes, names: seq<Bytes>, ttl: Option<nat>, promote: bool, now: nat)
    requires names != [] && Listed(s) && (ttl != Some(0) || !LiveRepeat(s, ns, names, now))
    ensures var n := |names| - 1;
            names[n] !in TouchMany(c, Begin(s), ns, names[..n], ttl, promote, None, now).seen
  {
    hide OnCourse, LiveRepeat, Listed, TouchMany;
    var n := |names| - 1;
    var b := TouchMany(c, Begin(s), ns, names[..n], ttl, promote, None, now);
    TouchManyOnCourse(c, s, ns, names[..n], ttl, promote, None, now);
    assert names[..n] + [names[n]] == names;
    if names[n] in b.seen {
      RememberedRepeats(c, s, b, ns, names[..n], ttl, now, names[n]);
      assert false;
    }
  }

  /**
   An uncapped batch is the touches one by one exactly when its TTL is not zero or no live name is repeated:
   a zero TTL answers a repeated name with what the first touch returned.
   */
  lemma TouchManyIsTouchesIff(c: Config, s: Store, ns: Bytes, names: seq<Bytes>, ttl: Option<nat>, promote: bool,
                              now: nat)
    requires Listed(s) && now <= c.horizon
    ensures var b := TouchMany(c, Begin(s), ns, names, ttl, promote, None, now);
            (b.store, b.results) == TouchAll(c, s, ns, names, ttl, promote, now) <==>
            (ttl != Some(0) || !LiveRepeat(s, ns, names, now))
  {
    hide TouchMany, TouchAll, Listed, LiveValue;
    if ttl != Some(0) || !LiveRepeat(s, ns, names, now) {
      TouchManyIsTouches(c, s, ns, names, ttl, promote, now);
    } else {
      var i :| 0 <= i < |names| && names[i] in names[..i] && LiveValue(s.lru, Key(ns, names[i]), now).Some?;
      TouchManyAnswers(c, s, ns, names, ttl, promote, None, now);
      TouchAllAnswers(c, s, ns, names, ttl, promote, now, Key(ns, names[i]));
      assert TouchAll(c, s, ns, names, ttl, promote, now).1[i] == None;
    }
  }

  // ---- one position ----

  lemma {:induction false} ResultsSoFar(c: Config, s: Store, ns: Bytes, names: seq<Bytes>, ttl: Option<nat>,
                                        promote: bool, cap: Option<nat>, now: nat, n: nat)
    requires n <= |names|
    ensures var some := TouchMany(c, Begin(s), ns, names[..n], ttl, promote, cap, now).results;
            some <= TouchMany(c, Begin(s), ns, names, ttl, promote, cap, now).results && |some| == n
    decreases |names|
  {
    hide TouchNext;
    if names == [] {
      assert names[..n] == [];
    } else {
      var m := |names| - 1;
      var b := TouchMany(c, Begin(s), ns, names[..m], ttl, promote, cap, now);
      TouchManyLast(c, Begin(s), ns, names, ttl, promote, cap, now);
      OneMoreResult(c, b, Key(ns, names[m]), ttl, promote, cap, now);
      if n <= m {
        assert names[..m][..n] == names[..n];
        ResultsSoFar(c, s, ns, names[..m], ttl, promote, cap, now, n);
      } else {
        assert names[..n] == names && names[..m][..m] == names[..m];
        ResultsSoFar(c, s, ns, names[..m], ttl, promote, cap, now, m);
      }
    }
  }

  lemma OneMoreResult(c: Config, b: Batch, key: Key, ttl: Option<nat>, promote: bool, cap: Option<nat>, now: nat)
    ensures var r := TouchNext(c, b, key, ttl, promote, cap, now).results;
            b.results <= r && |r| == |b.results| + 1
  {
  }

  /**
   A position of a batched touch answered with nothing refreshed nothing when it was reached: every item
   after it was there before it, and only an expired one of that name can have gone.
   */
  lemma TouchLeftOutIsUntouched(c: Config, s: Store, ns: Bytes, names: seq<Bytes>, ttl: Option<nat>, promote: bool,
                                cap: Option<nat>, now: nat, i: nat)
    requires Listed(s) && i < |names|
    ensures var results := TouchMany(c, Begin(s), ns, names, ttl, promote, cap, now).results;
            var before := TouchMany(c, Begin(s), ns, names[..i], ttl, promote, cap, now).store.lru;
            var after := TouchMany(c, Begin(s), ns, names[..i + 1], ttl, promote, cap, now).store.lru;
            && |results| == |names|
            && (results[i].None? ==>
                  && (forall x :: x in after ==> x in before)
                  && (forall x :: x in before && !(x.key == Key(ns, names[i]) && Expired(x.expiresAt, now)) ==>
                                  x in after))
  {
    hide TouchMany, TouchNext, Listed, Ordered;
    ResultsSoFar(c, s, ns, names, ttl, promote, cap, now, |names|);
    assert names[..|names|] == names;
    var b := TouchMany(c, Begin(s), ns, names[..i], ttl, promote, cap, now);
    ResultsSoFar(c, s, ns, names, ttl, promote, cap, now, i + 1);
    ResultsSoFar(c, s, ns, names, ttl, promote, cap, now, i);
    TouchManyLast(c, Begin(s), ns, names[..i + 1], ttl, promote, cap, now);
    assert names[..i + 1][..i] == names[..i] && names[..i + 1][i] == names[i];
    TouchManyListed(c, Begin(s), ns, names[..i], ttl, promote, cap, now);
    if TouchMany(c, Begin(s), ns, names, ttl, promote, cap, now).results[i].None? {
      LeftOutIsUntouched(c, b, Key(ns, names[i]), ttl, promote, cap, now);
    }
  }

  lemma LeftOutIsUntouched(c: Config, b: Batch, key: Key, ttl: Option<nat>, promote: bool, cap: Option<nat>, now: nat)
    requires Listed(b.store)
    requires var r := TouchNext(c, b, key, ttl, promote, cap, now).results; r[|r| - 1].None?
    ensures var after := TouchNext(c, b, key, ttl, promote, cap, now).store.lru;
            && (forall x :: x in after ==> x in b.store.lru)
            && (forall x :: x in b.store.lru && !(x.key == key && Expired(x.expiresAt, now)) ==> x in after)
  {
    WithoutSubset(b.store.lru, key);
    WithoutMembers(b.store.lru, key);
    forall x | x in b.store.lru && x.key == key ensures Lookup(b.store.lru, key) == Some(x) {
      LookupUnique(b.store.lru, x);
    }
  }
}
