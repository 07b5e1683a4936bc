/** Who owns a key, told by scores and names alone. */
module OwnerLaws {
  import opened Basics
  import opened Words
  import opened Ranking
  import opened HashRing

  /** At the first byte where they differ `a` has the smaller one, or `a` ends where `b` goes on. */
  ghost predicate SmallerName(a: Bytes, b: Bytes) {
    exists n: nat :: n <= |a| && n < |b| && a[..n] == b[..n] && (n == |a| || a[n] < b[n])
  }

  lemma {:induction false} BeforeIsSmaller(a: Bytes, b: Bytes)
    ensures Before(a, b) <==> SmallerName(a, b)
  {
    if b != [] && a != [] {
      BeforeIsSmaller(a[1..], b[1..]);
      if SmallerName(a, b) {
        SmallerTail(a, b);
      }
      if a[0] < b[0] {
        assert a[..0] == b[..0];
      } else if a[0] == b[0] && SmallerName(a[1..], b[1..]) {
        var n: nat :| n <= |a[1..]| && n < |b[1..]| && a[1..][..n] == b[1..][..n]
                      && (n == |a[1..]| || a[1..][n] < b[1..][n]);
        assert a[..n + 1] == [a[0]] + a[1..][..n] && b[..n + 1] == [b[0]] + b[1..][..n];
      }
    } else if b != [] {
      assert a[..0] == b[..0];
    }
  }

  lemma SmallerTail(a: Bytes, b: Bytes)
    requires a != [] && b != [] && SmallerName(a, b)
    ensures a[0] < b[0] || (a[0] == b[0] && SmallerName(a[1..], b[1..]))
  {
    var n: nat :| n <= |a| && n < |b| && a[..n] == b[..n] && (n == |a| || a[n] < b[n]);
    if n > 0 {
      assert a[..n][0] == b[..n][0];
      assert a[1..][..n - 1] == a[..n][1..] && b[1..][..n - 1] == b[..n][1..];
    }
  }

  /** A higher score, or an equal one and a smaller name. */
  ghost predicate Outscores(a: Bytes, b: Bytes, keyHash: word) {
    || NodeScore(a, keyHash) > NodeScore(b, keyHash)
    || (NodeScore(a, keyHash) == NodeScore(b, keyHash) && SmallerName(a, b))
  }

  lemma AheadOutscores(a: Bytes, b: Bytes, keyHash: word)
    ensures Ahead(a, b, keyHash) <==> Outscores(a, b, keyHash)
  {
    hide NodeScore, Before;
    BeforeIsSmaller(a, b);
  }

  /** The list's scores descend, ties by name, and no member left out has a better claim than one listed. */
  ghost predicate Best(owners: seq<Bytes>, members: set<Bytes>, keyHash: word, count: nat) {
    && |owners| == (if count < |members| then count else |members|)
    && (forall i :: 0 <= i < |owners| ==> owners[i] in members)
    && (forall i, j :: 0 <= i < j < |owners| ==>
          && owners[i] != owners[j]
          && NodeScore(owners[i], keyHash) >= NodeScore(owners[j], keyHash)
          && (NodeScore(owners[i], keyHash) == NodeScore(owners[j], keyHash) ==> SmallerName(owners[i], owners[j])))
    && (forall i, m :: 0 <= i < |owners| && m in members && m !in owners ==>
          && NodeScore(owners[i], keyHash) >= NodeScore(m, keyHash)
          && (NodeScore(owners[i], keyHash) == NodeScore(m, keyHash) ==> SmallerName(owners[i], m)))
  }

  lemma TopIsBest(owners: seq<Bytes>, members: set<Bytes>, keyHash: word, count: nat)
    requires IsTop(owners, members, keyHash, count)
    ensures Best(owners, members, keyHash, count)
  {
    hide NodeScore, Ahead, SmallerName;
    forall a, b ensures Ahead(a, b, keyHash) <==> Outscores(a, b, keyHash) {
      AheadOutscores(a, b, keyHash);
    }
    forall i, j | 0 <= i < j < |owners| ensures owners[i] != owners[j] {
      AheadTotal(owners[i], owners[j], keyHash);
    }
  }

  /** The members with a better claim to the key than `node`. */
  ghost function Outscorers(node: Bytes, members: set<Bytes>, keyHash: word): set<Bytes> {
    set m | m in members && Outscores(m, node, keyHash)
  }

  /** A node owns the key exactly if it is a member that fewer than `replicas` others have a better claim than. */
  lemma OwnerIffFewOutscore(node: Bytes, members: set<Bytes>, keyHash: word, replicas: nat)
    ensures node in Owners(members, keyHash, replicas) <==>
            node in members && |Outscorers(node, members, keyHash)| < replicas
  {
    hide NodeScore, Ahead, SmallerName, Owners;
    forall m ensures Ahead(m, node, keyHash) <==> Outscores(m, node, keyHash) {
      AheadOutscores(m, node, keyHash);
    }
    assert Better(node, members, keyHash) == Outscorers(node, members, keyHash);
    OwnerIffRank(node, members, keyHash, replicas);
  }

  /** The owners: the best claims, best first. */
  lemma OwnersAreBest(members: set<Bytes>, keyHash: word, replicas: nat)
    ensures Best(Owners(members, keyHash, replicas), members, keyHash, replicas)
  {
    hide Owners, IsTop, Best;
    OwnersIsTop(members, keyHash, replicas);
    TopIsBest(Owners(members, keyHash, replicas), members, keyHash, replicas);
  }
}
