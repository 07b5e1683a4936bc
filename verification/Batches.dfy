/** Batched operations against their one-by-one forms, and counters over whole runs. */
module Batches {
  import opened Basics
  import opened Lru
  import opened StoreSpec
  import opened Eviction
  import opened Reachable
  import Decimal

  /** Gets one after another, with no bound on the reply. */
  function GetAll(s: Store, ns: Bytes, names: seq<Bytes>, now: nat): (Store, seq<Option<Bytes>>)
    decreases |names|
  {
    if names == [] then (s, [])
    else
      var (t, rest) := GetAll(s, ns, names[..|names| - 1], now);
      var (u, got) := Get(t, Key(ns, names[|names| - 1]), now);
      (u, rest + [got])
  }

  function ReplyBytes(values: seq<Option<Bytes>>): nat {
    if values == [] then 0
    else ReplyBytes(values[..|values| - 1]) + (match values[|values| - 1] case None => 0 case Some(v) => |v|)
  }

  /** A batch over one more name is that batch, then that name. */
  lemma {:induction false} GetManyLast(b: Batch, ns: Bytes, names: seq<Bytes>, cap: nat, now: nat)
    requires names != []
    ensures GetMany(b, ns, names, cap, now)
            == GetNext(GetMany(b, ns, names[..|names| - 1], cap, now), Key(ns, names[|names| - 1]), cap, now)
    decreases |names|
  {
    var n := |names| - 1;
    if n == 0 {
      assert names[1..] == [];
      assert names[..0] == [];
    } else {
      var b' := GetNext(b, Key(ns, names[0]), cap, now);
      GetManyLast(b', ns, names[1..], cap, now);
      assert names[1..][..n - 1] == names[..n][1..];
      assert names[..n] != [] && names[..n][0] == names[0];
    }
  }

  /** The reply never holds more value bytes than its cap, and has one answer for each name. */
  lemma {:induction false} GetManyWithinCap(s: Store, ns: Bytes, names: seq<Bytes>, cap: nat, now: nat)
    ensures var b := GetMany(Begin(s), ns, names, cap, now);
            b.used == ReplyBytes(b.results) <= cap && |b.results| == |names|
    decreases |names|
  {
    if names != [] {
      var n := |names| - 1;
      GetManyLast(Begin(s), ns, names, cap, now);
      GetManyWithinCap(s, ns, names[..n], cap, now);
      var b := GetMany(Begin(s), ns, names[..n], cap, now);
      var r := GetMany(Begin(s), ns, names, cap, now).results;
      assert r[..|r| - 1] == b.results;
    }
  }

  /** A cap the values of the one-by-one gets stay below changes nothing, lazy expiry on the way included. */
  lemma {:induction false} GetManyIsGets(s: Store, ns: Bytes, names: seq<Bytes>, cap: nat, now: nat)
    requires ReplyBytes(GetAll(s, ns, names, now).1) < cap
    ensures var b := GetMany(Begin(s), ns, names, cap, now);
            && (b.store, b.results) == GetAll(s, ns, names, now)
            && b.used == ReplyBytes(b.results)
    decreases |names|
  {
    if names != [] {
      var n := |names| - 1;
      var all := GetAll(s, ns, names, now).1;
      var before := GetAll(s, ns, names[..n], now);
      assert all[..|all| - 1] == before.1;
      GetManyIsGets(s, ns, names[..n], cap, now);
      GetManyLast(Begin(s), ns, names, cap, now);
    }
  }

  /** A batched set is the batch without its last pair, then a plain set of that pair. */
  lemma {:induction false} SetManyLast(c: Config, s: Store, ns: Bytes, items: seq<Pair>, expiresAt: Option<nat>)
    requires items != []
    ensures var n := |items| - 1;
            SetMany(c, s, ns, items, expiresAt)
            == Put(c, SetMany(c, s, ns, items[..n], expiresAt), Key(ns, items[n].name), items[n].value, expiresAt)
    decreases |items|
  {
    var n := |items| - 1;
    if n == 0 {
      assert items[1..] == [] && items[..0] == [];
    } else {
      var t := Put(c, s, Key(ns, items[0].name), items[0].value, expiresAt);
      SetManyLast(c, t, ns, items[1..], expiresAt);
      assert items[1..][..n - 1] == items[..n][1..];
      assert items[..n] != [] && items[..n][0] == items[0];
    }
  }

  // ---- counters ----

  datatype Increment = Increment(delta: int, now: nat)

  ghost function IncrAll(c: Config, s: Store, key: Key, steps: seq<Increment>): Store
    decreases |steps|
  {
    if steps == [] then s
    else Incr(c, IncrAll(c, s, key, steps[..|steps| - 1]), key, steps[|steps| - 1].delta, steps[|steps| - 1].now).0
  }

  /** `value` after the increments that did not overflow. */
  function Total(value: int, steps: seq<Increment>): int {
    if steps == [] then value
    else
      var v := Total(value, steps[..|steps| - 1]) + steps[|steps| - 1].delta;
      if Decimal.I64_MIN <= v <= Decimal.I64_MAX then v else v - steps[|steps| - 1].delta
  }

  /**
   Over any run of increments of a live counter, whatever is evicted on the way, the stored value is
   the start plus the deltas that did not overflow, and its absolute expiry never moves.
   */
  lemma {:induction false} CounterOverRuns(c: Config, s: Store, key: Key, x: Item, value: int, steps: seq<Increment>)
    requires Listed(s) && Lookup(s.lru, key) == Some(x) && Decimal.ParseI64(x.value) == Some(value)
    requires forall i :: 0 <= i < |steps| ==> !Expired(x.expiresAt, steps[i].now)
    ensures var t := IncrAll(c, s, key, steps);
            && Listed(t) && Lookup(t.lru, key).Some?
            && Decimal.ParseI64(Lookup(t.lru, key).value.value) == Some(Total(value, steps))
            && Lookup(t.lru, key).value.expiresAt == x.expiresAt
    decreases |steps|
  {
    if steps != [] {
      var n := |steps| - 1;
      CounterOverRuns(c, s, key, x, value, steps[..n]);
      IncrementOnce(c, IncrAll(c, s, key, steps[..n]), key, Total(value, steps[..n]), steps[n]);
    }
  }

  lemma IncrementOnce(c: Config, s: Store, key: Key, value: int, step: Increment)
    requires Listed(s) && Lookup(s.lru, key).Some?
    requires Decimal.ParseI64(Lookup(s.lru, key).value.value) == Some(value)
    requires !Expired(Lookup(s.lru, key).value.expiresAt, step.now)
    ensures var (t, r) := Incr(c, s, key, step.delta, step.now);
            && Listed(t) && Lookup(t.lru, key).Some?
            && Lookup(t.lru, key).value.expiresAt == Lookup(s.lru, key).value.expiresAt
            && (if Decimal.I64_MIN <= value + step.delta <= Decimal.I64_MAX then
                  && Decimal.ParseI64(Lookup(t.lru, key).value.value) == Some(value + step.delta)
                  && r == Counted(value + step.delta, Remaining(Lookup(s.lru, key).value.expiresAt, step.now))
                else t == s && r == NotNumeric)
  {
    hide Put, Decimal.ParseI64, Decimal.PrintInt, Lookup;
    if Decimal.I64_MIN <= value + step.delta <= Decimal.I64_MAX {
      Decimal.CounterRoundTrip(value + step.delta);
      WriteIsKept(c, s, key, Decimal.PrintInt(value + step.delta), Lookup(s.lru, key).value.expiresAt);
    }
  }
}
