/**
 The single least-recently-used list that the per-namespace lists of the cache
 stand for: its items, what each is charged, and the list edits (look up, take
 out, replace, project onto one namespace) with the laws the refinement rests on.
 */
module Lru {
  import opened Basics

  const ENTRY_OVERHEAD_BYTES: nat := 180
  const MARK_OVERHEAD_BYTES: nat := 80
  const DIGEST_OVERHEAD_BYTES: nat := 128
  const NAMESPACE_OVERHEAD_BYTES: nat := 750
  const TOMBSTONE_OVERHEAD_BYTES: nat := 250

  /** One stored entry. `marked`: handed off by a join and awaiting a sweep; `digested`: its digest is kept. */
  datatype Item = Item(key: Key, value: Bytes, expiresAt: Option<nat>, lastUsed: nat, marked: bool, digested: bool)

  predicate Expired(expiresAt: Option<nat>, now: nat) {
    expiresAt.Some? && expiresAt.value <= now
  }

  function EntryBytes(name: Bytes, value: Bytes): nat {
    |name| + |value| + ENTRY_OVERHEAD_BYTES
  }

  function MarkCharge(name: Bytes): nat {
    |name| + MARK_OVERHEAD_BYTES
  }

  function DigestCharge(name: Bytes): nat {
    |name| + DIGEST_OVERHEAD_BYTES
  }

  function NameCharge(name: Bytes): nat {
    if name == [] then 0 else |name| + NAMESPACE_OVERHEAD_BYTES
  }

  function TombstoneBytes(key: Key): nat {
    |key.ns| + |key.name| + TOMBSTONE_OVERHEAD_BYTES
  }

  /** All an item is charged: the entry, and its mark and kept digest if it has them. */
  function ItemCost(x: Item): nat {
    EntryBytes(x.key.name, x.value)
    + (if x.marked then MarkCharge(x.key.name) else 0)
    + (if x.digested then DigestCharge(x.key.name) else 0)
  }

  function MarkBit(x: Item): nat {
    if x.marked then 1 else 0
  }

  function Sum(l: seq<Item>, f: Item -> nat): nat {
    if l == [] then 0 else f(l[0]) + Sum(l[1..], f)
  }

  /** What the items of a list are charged together. */
  function Cost(l: seq<Item>): nat {
    Sum(l, ItemCost)
  }

  function MarkCount(l: seq<Item>): nat {
    Sum(l, MarkBit)
  }

  /** Sum of `f` over a set, in whatever order. */
  ghost function SetSum<T>(s: set<T>, f: T -> nat): nat {
    if s == {} then 0 else
      var x :| x in s;
      f(x) + SetSum(s - {x}, f)
  }

  ghost function NameBytes(names: set<Bytes>): nat {
    SetSum(names, NameCharge)
  }

  lemma NameBytesSplit(names: set<Bytes>, name: Bytes)
    requires name in names
    ensures NameBytes(names) == NameCharge(name) + NameBytes(names - {name})
  {
    SetSumSplit(names, NameCharge, name);
  }

  /** The items of namespace `ns`, in list order. */
  function Of(l: seq<Item>, ns: Bytes): seq<Item> {
    if l == [] then []
    else if l[0].key.ns == ns then [l[0]] + Of(l[1..], ns)
    else Of(l[1..], ns)
  }

  function Lookup(l: seq<Item>, key: Key): Option<Item> {
    if l == [] then None
    else if l[0].key == key then Some(l[0])
    else Lookup(l[1..], key)
  }

  function Without(l: seq<Item>, key: Key): seq<Item> {
    if l == [] then []
    else if l[0].key == key then l[1..]
    else [l[0]] + Without(l[1..], key)
  }

  /** `l` with the item stored under `x.key` replaced by `x`, in its place. */
  function Replace(l: seq<Item>, x: Item): seq<Item> {
    if l == [] then []
    else if l[0].key == x.key then [x] + l[1..]
    else [l[0]] + Replace(l[1..], x)
  }

  ghost function Names(l: seq<Item>): set<Bytes> {
    set x | x in l :: x.key.ns
  }

  /** Least recently used first, no key twice, no stamp twice. */
  ghost predicate Ordered(l: seq<Item>) {
    forall i, j :: 0 <= i < j < |l| ==> l[i].lastUsed < l[j].lastUsed && l[i].key != l[j].key
  }

  ghost predicate StampedBy(l: seq<Item>, clock: nat) {
    forall x :: x in l ==> x.lastUsed <= clock
  }

  // ---- sums ----

  lemma {:induction false} SumConcat(a: seq<Item>, b: seq<Item>, f: Item -> nat)
    ensures Sum(a + b, f) == Sum(a, f) + Sum(b, f)
  {
    if a == [] {
      assert a + b == b;
    } else {
      assert (a + b)[1..] == a[1..] + b;
      SumConcat(a[1..], b, f);
    }
  }

  lemma {:induction false} SumWithout(l: seq<Item>, key: Key, f: Item -> nat)
    ensures Sum(Without(l, key), f) + (match Lookup(l, key) case None => 0 case Some(x) => f(x)) == Sum(l, f)
  {
    if l != [] && l[0].key != key {
      SumWithout(l[1..], key, f);
      assert Without(l, key)[1..] == Without(l[1..], key);
    }
  }

  lemma {:induction false} SumReplace(l: seq<Item>, x: Item, f: Item -> nat)
    requires Lookup(l, x.key).Some?
    ensures Sum(Replace(l, x), f) + f(Lookup(l, x.key).value) == Sum(l, f) + f(x)
  {
    if l[0].key == x.key {
      assert Replace(l, x)[1..] == l[1..];
    } else {
      SumReplace(l[1..], x, f);
      assert Replace(l, x)[1..] == Replace(l[1..], x);
    }
  }

  lemma CostWithout(l: seq<Item>, key: Key)
    requires Lookup(l, key).Some?
    ensures Cost(Without(l, key)) + ItemCost(Lookup(l, key).value) == Cost(l)
    ensures MarkCount(Without(l, key)) + MarkBit(Lookup(l, key).value) == MarkCount(l)
  {
    SumWithout(l, key, ItemCost);
    SumWithout(l, key, MarkBit);
  }

  lemma CostAppend(l: seq<Item>, x: Item)
    ensures Cost(l + [x]) == Cost(l) + ItemCost(x)
    ensures MarkCount(l + [x]) == MarkCount(l) + MarkBit(x)
  {
    SumConcat(l, [x], ItemCost);
    SumConcat(l, [x], MarkBit);
    assert Sum([x], ItemCost) == ItemCost(x) + Sum([], ItemCost);
    assert Sum([x], MarkBit) == MarkBit(x) + Sum([], MarkBit);
  }

  lemma CostReplace(l: seq<Item>, x: Item)
    requires Lookup(l, x.key).Some?
    ensures Cost(Replace(l, x)) + ItemCost(Lookup(l, x.key).value) == Cost(l) + ItemCost(x)
    ensures MarkCount(Replace(l, x)) + MarkBit(Lookup(l, x.key).value) == MarkCount(l) + MarkBit(x)
  {
    SumReplace(l, x, ItemCost);
    SumReplace(l, x, MarkBit);
  }

  lemma CostMember(l: seq<Item>, x: Item)
    requires x in l
    ensures ItemCost(x) <= Cost(l) && MarkBit(x) <= MarkCount(l)
  {
    SumMember(l, x, ItemCost);
    SumMember(l, x, MarkBit);
  }

  lemma {:induction false} SumMember(l: seq<Item>, x: Item, f: Item -> nat)
    requires x in l
    ensures f(x) <= Sum(l, f)
  {
    if l[0] != x {
      SumMember(l[1..], x, f);
    }
  }

  lemma {:induction false} SetSumSplit<T>(s: set<T>, f: T -> nat, x: T)
    requires x in s
    ensures SetSum(s, f) == f(x) + SetSum(s - {x}, f)
    decreases |s|
  {
    var y :| y in s && SetSum(s, f) == f(y) + SetSum(s - {y}, f);
    if y != x {
      SetSumSplit(s - {y}, f, x);
      SetSumSplit(s - {x}, f, y);
      assert s - {y} - {x} == s - {x} - {y};
    }
  }

  // ---- projection onto a namespace ----

  lemma {:induction false} OfConcat(a: seq<Item>, b: seq<Item>, ns: Bytes)
    ensures Of(a + b, ns) == Of(a, ns) + Of(b, ns)
  {
    if a == [] {
      assert a + b == b;
    } else {
      assert (a + b)[1..] == a[1..] + b;
      OfConcat(a[1..], b, ns);
    }
  }

  lemma {:induction false} OfMembers(l: seq<Item>, ns: Bytes)
    ensures forall x :: x in Of(l, ns) <==> x in l && x.key.ns == ns
    ensures |Of(l, ns)| <= |l|
  {
    if l != [] {
      OfMembers(l[1..], ns);
      assert forall x :: x in l <==> x == l[0] || x in l[1..];
    }
  }

  lemma {:induction false} OfOrdered(l: seq<Item>, ns: Bytes)
    requires Ordered(l)
    ensures Ordered(Of(l, ns))
  {
    if l != [] {
      OfOrdered(l[1..], ns);
      OfMembers(l[1..], ns);
      var rest := Of(l[1..], ns);
      if l[0].key.ns == ns {
        forall j | 0 <= j < |rest|
          ensures l[0].lastUsed < rest[j].lastUsed && l[0].key != rest[j].key
        {
          assert rest[j] in l[1..];
        }
      }
    }
  }

  lemma {:induction false} LookupOf(l: seq<Item>, key: Key)
    ensures Lookup(Of(l, key.ns), key) == Lookup(l, key)
  {
    if l != [] && l[0].key != key {
      LookupOf(l[1..], key);
      if l[0].key.ns == key.ns {
        assert Of(l, key.ns)[1..] == Of(l[1..], key.ns);
      }
    }
  }

  lemma {:induction false} OfWithout(l: seq<Item>, key: Key, ns: Bytes)
    ensures Of(Without(l, key), ns) == if ns == key.ns then Without(Of(l, ns), key) else Of(l, ns)
  {
    if l != [] && l[0].key != key {
      OfWithout(l[1..], key, ns);
      assert Without(l, key)[1..] == Without(l[1..], key);
      if l[0].key.ns == ns {
        assert Of(l, ns)[1..] == Of(l[1..], ns);
      }
    } else if l != [] && ns == key.ns {
      assert Of(l, ns)[1..] == Of(l[1..], ns);
    }
  }

  lemma {:induction false} OfReplace(l: seq<Item>, x: Item, ns: Bytes)
    ensures Of(Replace(l, x), ns) == if ns == x.key.ns then Replace(Of(l, ns), x) else Of(l, ns)
  {
    if l != [] && l[0].key != x.key {
      OfReplace(l[1..], x, ns);
      assert Replace(l, x)[1..] == Replace(l[1..], x);
      if l[0].key.ns == ns {
        assert Of(l, ns)[1..] == Of(l[1..], ns);
      }
    } else if l != [] {
      assert Replace(l, x)[1..] == l[1..];
      if ns == x.key.ns {
        assert Of(l, ns)[1..] == Of(l[1..], ns);
      }
    }
  }

  lemma OfEmptyIffUnnamed(l: seq<Item>, ns: Bytes)
    ensures Of(l, ns) == [] <==> ns !in Names(l)
  {
    OfMembers(l, ns);
    if Of(l, ns) != [] {
      assert Of(l, ns)[0] in l;
    }
  }

  // ---- membership and order ----

  lemma {:induction false} LookupMember(l: seq<Item>, key: Key)
    ensures Lookup(l, key).None? <==> (forall x :: x in l ==> x.key != key)
    ensures Lookup(l, key).Some? ==> Lookup(l, key).value in l && Lookup(l, key).value.key == key
  {
    if l != [] && l[0].key != key {
      LookupMember(l[1..], key);
      assert forall x :: x in l <==> x == l[0] || x in l[1..];
    }
  }

  lemma {:induction false} LookupUnique(l: seq<Item>, x: Item)
    requires Ordered(l) && x in l
    ensures Lookup(l, x.key) == Some(x)
  {
    if l[0] != x {
      LookupUnique(l[1..], x);
    }
  }

  lemma {:induction false} LookupWithout(l: seq<Item>, key: Key, k: Key)
    requires k != key
    ensures Lookup(Without(l, key), k) == Lookup(l, k)
  {
    if l != [] && l[0].key != key {
      LookupWithout(l[1..], key, k);
    }
  }

  lemma LookupWithoutSame(l: seq<Item>, key: Key)
    requires Ordered(l)
    ensures Lookup(Without(l, key), key).None?
  {
    WithoutMembers(l, key);
    LookupMember(Without(l, key), key);
  }

  lemma {:induction false} LookupReplace(l: seq<Item>, x: Item, k: Key)
    requires Lookup(l, x.key).Some?
    ensures Lookup(Replace(l, x), k) == if k == x.key then Some(x) else Lookup(l, k)
  {
    if l[0].key != x.key {
      LookupReplace(l[1..], x, k);
    }
  }

  lemma {:induction false} WithoutMembership(l: seq<Item>, key: Key, x: Item)
    requires Ordered(l)
    ensures x in Without(l, key) <==> x in l && x.key != key
  {
    if l != [] {
      assert l == [l[0]] + l[1..];
      if l[0].key != key {
        WithoutMembership(l[1..], key, x);
      } else {
        assert forall j :: 0 <= j < |l[1..]| ==> l[1..][j] == l[j + 1];
      }
    }
  }

  lemma {:induction false} WithoutOrdered(l: seq<Item>, key: Key)
    requires Ordered(l)
    ensures Ordered(Without(l, key))
    ensures |Without(l, key)| == |l| - (if Lookup(l, key).Some? then 1 else 0)
  {
    if l != [] {
      WithoutOrdered(l[1..], key);
      if l[0].key != key {
        var rest := Without(l[1..], key);
        forall j | 0 <= j < |rest|
          ensures l[0].lastUsed < rest[j].lastUsed && l[0].key != rest[j].key
        {
          WithoutMembership(l[1..], key, rest[j]);
          var i :| 0 <= i < |l[1..]| && l[1..][i] == rest[j];
          assert l[i + 1] == rest[j];
        }
      }
    }
  }

  lemma WithoutMembers(l: seq<Item>, key: Key)
    requires Ordered(l)
    ensures forall x :: x in Without(l, key) <==> x in l && x.key != key
    ensures Ordered(Without(l, key))
    ensures |Without(l, key)| == |l| - (if Lookup(l, key).Some? then 1 else 0)
  {
    hide Without, Ordered;
    WithoutOrdered(l, key);
    forall x
      ensures x in Without(l, key) <==> x in l && x.key != key
    {
      WithoutMembership(l, key, x);
    }
  }

  lemma {:induction false} WithoutAbsent(l: seq<Item>, key: Key)
    requires Lookup(l, key).None?
    ensures Without(l, key) == l
  {
    if l != [] {
      WithoutAbsent(l[1..], key);
    }
  }

  lemma WithoutNames(l: seq<Item>, key: Key)
    requires Ordered(l)
    ensures Names(Without(l, key)) == if Of(Without(l, key), key.ns) == [] then Names(l) - {key.ns} else Names(l)
  {
    WithoutMembers(l, key);
    OfEmptyIffUnnamed(Without(l, key), key.ns);
    forall ns | ns in Names(l) && ns != key.ns
      ensures ns in Names(Without(l, key))
    {
      var x :| x in l && x.key.ns == ns;
      assert x in Without(l, key);
    }
    if Of(Without(l, key), key.ns) != [] {
      assert key.ns in Names(l);
    }
  }

  /** Replacing an item changes neither the keys in the list nor their stamps. */
  lemma {:induction false} ReplaceShape(l: seq<Item>, x: Item, i: nat)
    requires Lookup(l, x.key).Some? && Lookup(l, x.key).value.lastUsed == x.lastUsed && i < |l|
    ensures |Replace(l, x)| == |l|
    ensures Replace(l, x)[i].key == l[i].key && Replace(l, x)[i].lastUsed == l[i].lastUsed
  {
    if l[0].key != x.key {
      ReplaceShape(l[1..], x, if i == 0 then 0 else i - 1);
    }
  }

  lemma {:induction false} ReplaceMembership(l: seq<Item>, x: Item, y: Item)
    requires Lookup(l, x.key).Some? && Ordered(l)
    ensures y in Replace(l, x) <==> y == x || (y in l && y.key != x.key)
  {
    assert l == [l[0]] + l[1..];
    if l[0].key == x.key {
      assert y in l[1..] ==> y.key != x.key by {
        assert forall j :: 0 <= j < |l[1..]| ==> l[1..][j] == l[j + 1];
      }
    } else {
      ReplaceMembership(l[1..], x, y);
    }
  }

  lemma ReplaceMembers(l: seq<Item>, x: Item)
    requires Lookup(l, x.key).Some?
    requires Ordered(l) && Lookup(l, x.key).value.lastUsed == x.lastUsed
    ensures Ordered(Replace(l, x)) && |Replace(l, x)| == |l|
    ensures forall y :: y in Replace(l, x) <==> y == x || (y in l && y.key != x.key)
    ensures forall i :: 0 <= i < |l| ==> Replace(l, x)[i].key == l[i].key && Replace(l, x)[i].lastUsed == l[i].lastUsed
  {
    hide Replace;
    ReplaceShape(l, x, 0);
    forall y
      ensures y in Replace(l, x) <==> y == x || (y in l && y.key != x.key)
    {
      ReplaceMembership(l, x, y);
    }
    forall i | 0 <= i < |l|
      ensures Replace(l, x)[i].key == l[i].key && Replace(l, x)[i].lastUsed == l[i].lastUsed
    {
      ReplaceShape(l, x, i);
    }
  }

  lemma {:induction false} ReplaceSame(l: seq<Item>, x: Item)
    requires Lookup(l, x.key) == Some(x)
    ensures Replace(l, x) == l
  {
    if l[0].key != x.key {
      ReplaceSame(l[1..], x);
    }
  }

  lemma ReplaceNames(l: seq<Item>, x: Item)
    requires Lookup(l, x.key).Some?
    requires Ordered(l) && Lookup(l, x.key).value.lastUsed == x.lastUsed
    ensures Names(Replace(l, x)) == Names(l)
  {
    ReplaceMembers(l, x);
    LookupMember(l, x.key);
    forall ns | ns in Names(l) ensures ns in Names(Replace(l, x)) {
      var y :| y in l && y.key.ns == ns;
      if y.key == x.key {
        assert x in Replace(l, x);
      } else {
        assert y in Replace(l, x);
      }
    }
  }

  lemma AppendOrdered(l: seq<Item>, x: Item)
    requires Ordered(l) && StampedBy(l, x.lastUsed) && Lookup(l, x.key).None?
    requires forall y :: y in l ==> y.lastUsed < x.lastUsed
    ensures Ordered(l + [x])
    ensures Names(l + [x]) == Names(l) + {x.key.ns}
  {
    LookupMember(l, x.key);
    assert forall y :: y in l + [x] <==> y in l || y == x;
    assert x in l + [x];
    forall ns | ns in Names(l) ensures ns in Names(l + [x]) {
      var y :| y in l && y.key.ns == ns;
      assert y in l + [x];
    }
    forall j | 0 <= j < |l| ensures l[j].lastUsed < x.lastUsed && l[j].key != x.key {
      assert l[j] in l;
    }
  }

  /** The list's first item heads its own namespace, and no other namespace's head is as old. */
  lemma HeadIsOldest(l: seq<Item>, ns: Bytes)
    requires Ordered(l) && Of(l, ns) != []
    ensures l != []
    ensures Of(l, l[0].key.ns) != [] && Of(l, l[0].key.ns)[0] == l[0]
    ensures Of(l, ns)[0].lastUsed >= l[0].lastUsed
    ensures Of(l, ns)[0].lastUsed == l[0].lastUsed ==> ns == l[0].key.ns
  {
    if l[0].key.ns != ns {
      OfMembers(l[1..], ns);
      assert Of(l, ns)[0] in l[1..];
    }
  }

  /** Taking items out, or moving one to the end, never brings a namespace's head forward in time. */
  lemma HeadOnlyMovesLater(l: seq<Item>, key: Key)
    requires Ordered(l) && Without(l, key) != []
    ensures l != [] && l[0].lastUsed <= Without(l, key)[0].lastUsed
  {
    WithoutMembers(l, key);
    assert Without(l, key)[0] in l;
  }

  // ---- the rest of a list, without one namespace ----

  /** The items outside namespace `ns`, in list order. */
  function NotOf(l: seq<Item>, ns: Bytes): seq<Item> {
    if l == [] then []
    else if l[0].key.ns == ns then NotOf(l[1..], ns)
    else [l[0]] + NotOf(l[1..], ns)
  }

  lemma {:induction false} NotOfMembers(l: seq<Item>, ns: Bytes)
    ensures forall x :: x in NotOf(l, ns) <==> x in l && x.key.ns != ns
  {
    if l != [] {
      NotOfMembers(l[1..], ns);
      assert forall x :: x in l <==> x == l[0] || x in l[1..];
    }
  }

  lemma NotOfNames(l: seq<Item>, ns: Bytes)
    ensures Names(NotOf(l, ns)) == Names(l) - {ns}
  {
    NotOfMembers(l, ns);
  }

  lemma {:induction false} NotOfOrdered(l: seq<Item>, ns: Bytes)
    requires Ordered(l)
    ensures Ordered(NotOf(l, ns))
  {
    if l != [] {
      NotOfOrdered(l[1..], ns);
      NotOfMembers(l[1..], ns);
      var rest := NotOf(l[1..], ns);
      if l[0].key.ns != ns {
        forall j | 0 <= j < |rest| ensures l[0].lastUsed < rest[j].lastUsed && l[0].key != rest[j].key {
          assert rest[j] in l[1..];
        }
      }
    }
  }

  lemma {:induction false} NotOfAbsent(l: seq<Item>, ns: Bytes)
    requires ns !in Names(l)
    ensures NotOf(l, ns) == l
  {
    if l != [] {
      assert l[0] in l;
      forall m | m in Names(l[1..]) ensures m in Names(l) {
        var x :| x in l[1..] && x.key.ns == m;
        assert x in l;
      }
      NotOfAbsent(l[1..], ns);
    }
  }

  lemma {:induction false} OfNotOf(l: seq<Item>, ns: Bytes, m: Bytes)
    requires m != ns
    ensures Of(NotOf(l, ns), m) == Of(l, m)
  {
    if l != [] {
      OfNotOf(l[1..], ns, m);
      if l[0].key.ns != ns {
        assert NotOf(l, ns)[1..] == NotOf(l[1..], ns);
      }
    }
  }

  /** A namespace and the rest share a list's length, cost and marks between them. */
  lemma {:induction false} Split(l: seq<Item>, ns: Bytes)
    ensures |l| == |Of(l, ns)| + |NotOf(l, ns)|
    ensures Cost(l) == Cost(Of(l, ns)) + Cost(NotOf(l, ns))
    ensures MarkCount(l) == MarkCount(Of(l, ns)) + MarkCount(NotOf(l, ns))
  {
    if l != [] {
      Split(l[1..], ns);
      if l[0].key.ns == ns {
        assert Of(l, ns)[1..] == Of(l[1..], ns);
      } else {
        assert NotOf(l, ns)[1..] == NotOf(l[1..], ns);
      }
    }
  }
}
