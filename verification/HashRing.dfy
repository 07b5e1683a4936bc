/**
 Who owns a key: the top-ranked members of a ring, and the three ways the
 node and the Go client compute them.
 */
module HashRing {
  import opened Basics
  import opened Words
  import opened Ranking

  // ---- the specification: ranks among a set of members ----

  /** The members that rank ahead of `node` for the key. */
  ghost function Better(node: Bytes, members: set<Bytes>, keyHash: word): set<Bytes> {
    set m | m in members && Ahead(m, node, keyHash)
  }

  ghost function Rank(node: Bytes, members: set<Bytes>, keyHash: word): nat {
    |Better(node, members, keyHash)|
  }

  /** `owners` lists, best first, the `count` members nobody else ranks ahead of. */
  ghost predicate IsTop(owners: seq<Bytes>, members: set<Bytes>, keyHash: word, count: nat) {
    && |owners| == (if count < |members| then count else |members|)
    && (forall i :: 0 <= i < |owners| ==> owners[i] in members)
    && (forall i, j :: 0 <= i < j < |owners| ==> Ahead(owners[i], owners[j], keyHash))
    && (forall i, m :: 0 <= i < |owners| && m in members && m !in owners ==> Ahead(owners[i], m, keyHash))
  }

  ghost function Members(nodes: seq<Bytes>): set<Bytes> {
    set node | node in nodes
  }

  lemma RankInjective(a: Bytes, b: Bytes, members: set<Bytes>, keyHash: word)
    requires a in members && b in members && Rank(a, members, keyHash) == Rank(b, members, keyHash)
    ensures a == b
  {
    if a != b {
      AheadTotal(a, b, keyHash);
      if Ahead(a, b, keyHash) {
        RankGrows(a, b, members, keyHash);
      } else {
        RankGrows(b, a, members, keyHash);
      }
    }
  }

  /** Whoever ranks behind a member has a larger rank. */
  lemma RankGrows(a: Bytes, b: Bytes, members: set<Bytes>, keyHash: word)
    requires a in members && Ahead(a, b, keyHash)
    ensures Rank(a, members, keyHash) < Rank(b, members, keyHash)
  {
    hide Ahead;
    var x, y := Better(a, members, keyHash), Better(b, members, keyHash);
    AheadTotal(a, a, keyHash);
    forall m | m in x
      ensures m in y
    {
      AheadTransitive(m, a, b, keyHash);
    }
    SmallerSet(x, y, a);
  }

  lemma SmallerSet<T>(x: set<T>, y: set<T>, extra: T)
    requires x <= y && extra in y && extra !in x
    ensures |x| < |y|
  {
    assert y == x + (y - x);
    assert extra in y - x;
  }

  lemma {:induction false} DistinctSize(s: seq<Bytes>)
    requires forall i, j :: 0 <= i < j < |s| ==> s[i] != s[j]
    ensures |Members(s)| == |s|
  {
    if s == [] {
      assert Members(s) == {};
    } else {
      var t := s[..|s| - 1];
      DistinctSize(t);
      assert Members(s) == Members(t) + {s[|s| - 1]};
      assert s[|s| - 1] !in t;
    }
  }

  /** Position in the top list is rank. */
  lemma TopRanks(owners: seq<Bytes>, members: set<Bytes>, keyHash: word, count: nat, i: nat)
    requires IsTop(owners, members, keyHash, count) && i < |owners|
    ensures Better(owners[i], members, keyHash) == Members(owners[..i])
    ensures Rank(owners[i], members, keyHash) == i
  {
    hide Ahead;
    var node := owners[i];
    forall m
      ensures m in Better(node, members, keyHash) <==> m in owners[..i]
    {
      AheadTotal(m, node, keyHash);
      if m in owners {
        var j :| 0 <= j < |owners| && owners[j] == m;
        if j < i {
          assert owners[..i][j] == m;
        } else {
          assert j == i || Ahead(node, m, keyHash);
          assert forall h :: 0 <= h < i ==> Ahead(owners[h], owners[i], keyHash);
        }
      }
    }
    forall h, j | 0 <= h < j < i
      ensures owners[..i][h] != owners[..i][j]
    {
      AheadTotal(owners[h], owners[j], keyHash);
      assert Ahead(owners[h], owners[j], keyHash);
    }
    DistinctSize(owners[..i]);
  }

  /** A node is among the top `count` exactly when it is a member outranked by fewer than `count` others. */
  lemma TopMembers(owners: seq<Bytes>, members: set<Bytes>, keyHash: word, count: nat, node: Bytes)
    requires IsTop(owners, members, keyHash, count)
    ensures node in owners <==> node in members && Rank(node, members, keyHash) < count
  {
    hide Ahead;
    if node in owners {
      var i :| 0 <= i < |owners| && owners[i] == node;
      TopRanks(owners, members, keyHash, count, i);
    } else if node in members {
      forall h, j | 0 <= h < j < |owners|
        ensures owners[h] != owners[j]
      {
        AheadTotal(owners[h], owners[j], keyHash);
        assert Ahead(owners[h], owners[j], keyHash);
      }
      DistinctSize(owners);
      var all := Members(owners);
      assert all <= Better(node, members, keyHash);
      SubsetSize(all, Better(node, members, keyHash));
      if |owners| < count {
        SmallerSet(all, members, node);
      }
    }
  }

  /** There is only one such list. */
  lemma TopIsUnique(a: seq<Bytes>, b: seq<Bytes>, members: set<Bytes>, keyHash: word, count: nat)
    requires IsTop(a, members, keyHash, count) && IsTop(b, members, keyHash, count)
    ensures a == b
  {
    hide Ahead;
    forall i | 0 <= i < |a|
      ensures a[i] == b[i]
    {
      TopRanks(a, members, keyHash, count, i);
      TopRanks(b, members, keyHash, count, i);
      RankInjective(a[i], b[i], members, keyHash);
    }
  }

  ghost predicate IsBest(b: Bytes, members: set<Bytes>, keyHash: word) {
    b in members && (forall m :: m in members && m != b ==> Ahead(b, m, keyHash))
  }

  lemma {:induction false} HasBest(members: set<Bytes>, keyHash: word)
    requires members != {}
    ensures exists b :: IsBest(b, members, keyHash)
    decreases |members|
  {
    hide Ahead;
    var x :| x in members;
    var rest := members - {x};
    if rest == {} {
      assert members == {x};
      assert IsBest(x, members, keyHash);
    } else {
      HasBest(rest, keyHash);
      var b :| IsBest(b, rest, keyHash);
      AheadTotal(b, x, keyHash);
      if Ahead(b, x, keyHash) {
        assert IsBest(b, members, keyHash);
      } else {
        forall m | m in members && m != x && m != b
          ensures Ahead(x, m, keyHash)
        {
          AheadTransitive(x, b, m, keyHash);
        }
        assert IsBest(x, members, keyHash);
      }
    }
  }

  /** All the members, best first. */
  ghost function Ranked(members: set<Bytes>, keyHash: word): seq<Bytes>
    decreases |members|
  {
    if members == {} then []
    else
      HasBest(members, keyHash);
      var b :| IsBest(b, members, keyHash);
      [b] + Ranked(members - {b}, keyHash)
  }

  /** The full list misses no member. */
  lemma TopOfAll(all: seq<Bytes>, members: set<Bytes>, keyHash: word, node: Bytes)
    requires IsTop(all, members, keyHash, |members|) && node in members
    ensures node in all
  {
    hide Ahead;
    TopMembers(all, members, keyHash, |members|, node);
    AheadTotal(node, node, keyHash);
    SmallerSet(Better(node, members, keyHash), members, node);
  }

  lemma PrependBest(b: Bytes, rest: seq<Bytes>, members: set<Bytes>, keyHash: word)
    requires IsBest(b, members, keyHash) && IsTop(rest, members - {b}, keyHash, |members - {b}|)
    ensures IsTop([b] + rest, members, keyHash, |members|)
  {
    hide Ahead;
    var all := [b] + rest;
    assert |members| == |members - {b}| + 1;
    assert forall i :: 0 <= i < |rest| ==> all[i + 1] == rest[i];
    forall m | m in members
      ensures m in all
    {
      if m != b {
        TopOfAll(rest, members - {b}, keyHash, m);
      }
    }
    forall i, j | 0 <= i < j < |all|
      ensures Ahead(all[i], all[j], keyHash)
    {
      assert all[j] == rest[j - 1];
      if i != 0 {
        assert all[i] == rest[i - 1];
      }
    }
  }

  lemma {:induction false} RankedIsTop(members: set<Bytes>, keyHash: word)
    ensures IsTop(Ranked(members, keyHash), members, keyHash, |members|)
    decreases |members|
  {
    hide Ahead;
    if members != {} {
      HasBest(members, keyHash);
      var all := Ranked(members, keyHash);
      var b := all[0];
      assert IsBest(b, members, keyHash) && all == [b] + Ranked(members - {b}, keyHash);
      RankedIsTop(members - {b}, keyHash);
      PrependBest(b, Ranked(members - {b}, keyHash), members, keyHash);
    }
  }

  /** The key's owners: the first `count` members in rank order. */
  ghost function Owners(members: set<Bytes>, keyHash: word, count: nat): seq<Bytes> {
    var all := Ranked(members, keyHash);
    if count < |all| then all[..count] else all
  }

  lemma OwnersIsTop(members: set<Bytes>, keyHash: word, count: nat)
    ensures IsTop(Owners(members, keyHash, count), members, keyHash, count)
  {
    hide Ahead, Ranked;
    RankedIsTop(members, keyHash);
    var all := Ranked(members, keyHash);
    assert count < |all| ==> forall j :: 0 <= j < count ==> all[..count][j] == all[j];
    forall i, m | 0 <= i < count < |all| && m in members && m !in all[..count]
      ensures Ahead(all[i], m, keyHash)
    {
      TopOfAll(all, members, keyHash, m);
    }
  }

  lemma OwnersUnique(owners: seq<Bytes>, members: set<Bytes>, keyHash: word, count: nat)
    requires IsTop(owners, members, keyHash, count)
    ensures owners == Owners(members, keyHash, count)
  {
    hide IsTop, Owners;
    OwnersIsTop(members, keyHash, count);
    TopIsUnique(owners, Owners(members, keyHash, count), members, keyHash, count);
  }

  /** Ownership, decided by rank alone. */
  lemma OwnerIffRank(node: Bytes, members: set<Bytes>, keyHash: word, count: nat)
    ensures node in Owners(members, keyHash, count) <==> node in members && Rank(node, members, keyHash) < count
  {
    hide IsTop, Owners, Rank;
    OwnersIsTop(members, keyHash, count);
    TopMembers(Owners(members, keyHash, count), members, keyHash, count, node);
  }
}
