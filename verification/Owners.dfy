/**
 The ring itself and its three owner computations: the node's partial select and sort,
 the node's early-exit count, and the Go client's bounded insertion.
 */
module OwnerAlgorithms {
  import opened Basics
  import opened Words
  import opened Ranking
  import opened HashRing
  import opened OwnerLaws

  datatype Ring = Ring(nodes: seq<Bytes>, hashes: seq<word>)

  predicate Unique<T(==)>(s: seq<T>) {
    forall i, j :: 0 <= i < j < |s| ==> s[i] != s[j]
  }

  ghost predicate Valid(ring: Ring) {
    && Unique(ring.nodes)
    && |ring.hashes| == |ring.nodes|
    && forall i :: 0 <= i < |ring.nodes| ==> ring.hashes[i] == Fnv(ring.nodes[i])
  }

  /** `kept` is `nodes` with every repetition of an earlier name left out. */
  ghost predicate FirstOccurrences(nodes: seq<Bytes>, kept: seq<Bytes>, from: seq<nat>) {
    && Unique(kept)
    && Members(kept) == Members(nodes)
    && |from| == |kept|
    && (forall i, j :: 0 <= i < j < |from| ==> from[i] < from[j])
    && (forall i :: 0 <= i < |from| ==> from[i] < |nodes| && kept[i] == nodes[from[i]] && kept[i] !in nodes[..from[i]])
  }

  /** Both constructors: keep each name once, where it first appears, and hash it. */
  method NewRing(nodes: seq<Bytes>) returns (ring: Ring, ghost from: seq<nat>)
    ensures Valid(ring)
    ensures FirstOccurrences(nodes, ring.nodes, from)
  {
    hide Fnv;
    var seen: set<Bytes> := {};
    var kept := [];
    from := [];
    for i := 0 to |nodes|
      invariant seen == Members(kept) == Members(nodes[..i])
      invariant FirstOccurrences(nodes[..i], kept, from)
    {
      assert nodes[..i + 1] == nodes[..i] + [nodes[i]];
      assert forall k :: 0 <= k < |from| ==> nodes[..i + 1][..from[k]] == nodes[..i][..from[k]];
      if nodes[i] !in seen {
        assert nodes[..i + 1][..i] == nodes[..i];
        assert nodes[i] !in nodes[..i];
        seen := seen + {nodes[i]};
        kept := kept + [nodes[i]];
        from := from + [i];
      }
    }
    assert nodes[..|nodes|] == nodes;
    var hashes: seq<word> := [];
    for i := 0 to |kept|
      invariant |hashes| == i
      invariant forall j :: 0 <= j < i ==> hashes[j] == Fnv(kept[j])
    {
      var hash := FnvContinue(FNV_OFFSET_BASIS, kept[i]);
      assert hash == Fnv(kept[i]) by {
        FnvIs(kept[i]);
      }
      hashes := hashes + [hash];
    }
    ring := Ring(kept, hashes);
  }

  lemma FnvIs(bytes: Bytes)
    ensures Fnv(bytes) == FnvFrom(FNV_OFFSET_BASIS, bytes)
  {
  }

  datatype Scored = Scored(score: word, node: Bytes)

  /** The comparison every implementation sorts by. */
  predicate Precedes(a: Scored, b: Scored) {
    a.score > b.score || (a.score == b.score && Before(a.node, b.node))
  }

  ghost predicate ScoredFor(s: seq<Scored>, keyHash: word) {
    forall i :: 0 <= i < |s| ==> s[i].score == NodeScore(s[i].node, keyHash)
  }

  ghost function Names(s: seq<Scored>): seq<Bytes> {
    seq(|s|, i requires 0 <= i < |s| => s[i].node)
  }

  lemma PrecedesIsAhead(a: Scored, b: Scored, keyHash: word)
    requires a.score == NodeScore(a.node, keyHash) && b.score == NodeScore(b.node, keyHash)
    ensures Precedes(a, b) <==> Ahead(a.node, b.node, keyHash)
  {
  }

  lemma PrecedesOrders(a: Scored, b: Scored, c: Scored)
    ensures a == b || Precedes(a, b) || Precedes(b, a)
    ensures !(Precedes(a, b) && Precedes(b, a))
    ensures Precedes(a, b) && Precedes(b, c) ==> Precedes(a, c)
  {
    hide Before;
    BeforeTotal(a.node, b.node);
    if Before(a.node, b.node) && Before(b.node, c.node) {
      BeforeTransitive(a.node, b.node, c.node);
    }
  }

  ghost predicate Sorted(s: seq<Scored>) {
    forall i, j :: 0 <= i < j < |s| ==> Precedes(s[i], s[j])
  }

  ghost predicate Rearranges(s: seq<Scored>, t: seq<Scored>) {
    |s| == |t| && Unique(t) && forall x :: x in t <==> x in s
  }

  /** The library's unstable sort. */
  method SortByRank(s: seq<Scored>) returns (t: seq<Scored>)
    requires Unique(s)
    ensures Rearranges(s, t) && Sorted(t)
  {
    hide Precedes;
    t := [];
    for i := 0 to |s|
      invariant Rearranges(s[..i], t) && Sorted(t)
    {
      var pos: nat := |t|;
      while pos > 0 && Precedes(s[i], t[pos - 1])
        invariant pos <= |t|
        invariant forall k :: pos <= k < |t| ==> Precedes(s[i], t[k])
      {
        pos := pos - 1;
      }
      assert s[..i + 1] == s[..i] + [s[i]];
      assert s[i] !in s[..i];
      InsertKeepsSorted(t, pos, s[i]);
      t := t[..pos] + [s[i]] + t[pos..];
    }
    assert s[..|s|] == s;
  }

  lemma InsertMembers<T>(t: seq<T>, pos: nat, x: T, y: T)
    requires pos <= |t|
    ensures y in t[..pos] + [x] + t[pos..] <==> y in t || y == x
  {
    assert t == t[..pos] + t[pos..];
  }

  lemma InsertKeepsSorted(t: seq<Scored>, pos: nat, x: Scored)
    requires Sorted(t) && x !in t && pos <= |t|
    requires pos > 0 ==> !Precedes(x, t[pos - 1])
    requires forall k :: pos <= k < |t| ==> Precedes(x, t[k])
    ensures Sorted(t[..pos] + [x] + t[pos..]) && Unique(t[..pos] + [x] + t[pos..])
    ensures forall y :: y in t[..pos] + [x] + t[pos..] <==> y in t || y == x
  {
    hide Precedes;
    var u := t[..pos] + [x] + t[pos..];
    forall y
      ensures y in u <==> y in t || y == x
    {
      InsertMembers(t, pos, x, y);
    }
    forall k | 0 <= k < pos
      ensures Precedes(t[k], x)
    {
      PrecedesOrders(t[pos - 1], x, x);
      PrecedesOrders(t[k], t[pos - 1], x);
    }
    forall i, j | 0 <= i < j < |u|
      ensures Precedes(u[i], u[j])
    {
      assert u[i] == if i < pos then t[i] else if i == pos then x else t[i - 1];
      assert u[j] == if j < pos then t[j] else if j == pos then x else t[j - 1];
    }
    AllUnique(u);
  }

  /** The library's selection: everything up to `index` ranks no later than everything after it. */
  method SelectNth(s: seq<Scored>, index: nat) returns (t: seq<Scored>)
    requires Unique(s) && index < |s|
    ensures Rearranges(s, t)
    ensures forall i, j :: 0 <= i <= index < j < |t| ==> !Precedes(t[j], t[i])
  {
    hide Precedes;
    t := SortByRank(s);
    forall i, j | 0 <= i <= index < j < |t|
      ensures !Precedes(t[j], t[i])
    {
      PrecedesOrders(t[i], t[j], t[i]);
    }
  }

  /** The node's lookup: score everyone, keep the best few in any order, then sort those. */
  method OwnersHashed(ring: Ring, keyHash: word, replicas: nat) returns (owners: seq<Bytes>)
    requires Valid(ring)
    ensures owners == Owners(Members(ring.nodes), keyHash, replicas)
    ensures Best(owners, Members(ring.nodes), keyHash, replicas)
  {
    hide Score, Fnv, Precedes, Owners, Best;
    var n := |ring.nodes|;
    var scored := seq(n, i requires 0 <= i < n => Scored(Score(ring.hashes[i], keyHash), ring.nodes[i]));
    ghost var all := scored;
    assert ScoredFor(all, keyHash);
    var top := if replicas < |scored| then replicas else |scored|;
    if 0 < top < |scored| {
      scored := SelectNth(scored, top - 1);
    }
    assert Rearranges(all, scored);
    ghost var chosen := scored[..top];
    ghost var behind := scored[top..];
    SplitTop(all, scored, top);
    scored := SortByRank(scored[..top]);
    forall i, j | 0 <= i < |scored| && 0 <= j < |behind|
      ensures !Precedes(behind[j], scored[i])
    {
      assert scored[i] in chosen;
    }
    SelectedAreTop(ring.nodes, all, scored, behind, keyHash, replicas);
    owners := seq(|scored|, i requires 0 <= i < |scored| => scored[i].node);
    assert owners == Names(scored);
    OwnersUnique(owners, Members(ring.nodes), keyHash, replicas);
    OwnersAreBest(Members(ring.nodes), keyHash, replicas);
  }

  lemma SplitTop(all: seq<Scored>, scored: seq<Scored>, top: nat)
    requires Rearranges(all, scored) && top <= |scored|
    ensures Unique(scored[..top])
    ensures forall x :: x in all <==> x in scored[..top] || x in scored[top..]
  {
    assert scored == scored[..top] + scored[top..];
  }

  lemma SelectedAreTop(nodes: seq<Bytes>, all: seq<Scored>, best: seq<Scored>, behind: seq<Scored>, keyHash: word,
                       replicas: nat)
    requires Unique(nodes) && |all| == |nodes|
    requires forall i :: 0 <= i < |nodes| ==> all[i].node == nodes[i]
    requires ScoredFor(all, keyHash)
    requires |best| == if replicas < |all| then replicas else |all|
    requires Sorted(best)
    requires forall x :: x in all <==> x in best || x in behind
    requires forall i, j :: 0 <= i < |best| && 0 <= j < |behind| ==> !Precedes(behind[j], best[i])
    ensures IsTop(Names(best), Members(nodes), keyHash, replicas)
  {
    hide Precedes, NodeScore, Ahead;
    var owners := Names(best);
    DistinctSize(nodes);
    forall i | 0 <= i < |best|
      ensures owners[i] in nodes && best[i].score == NodeScore(best[i].node, keyHash)
    {
      assert best[i] in all;
    }
    forall i, j | 0 <= i < j < |best|
      ensures Ahead(owners[i], owners[j], keyHash)
    {
      PrecedesIsAhead(best[i], best[j], keyHash);
    }
    forall i, m | 0 <= i < |best| && m in nodes && m !in owners
      ensures Ahead(owners[i], m, keyHash)
    {
      var k :| 0 <= k < |nodes| && nodes[k] == m;
      var x := all[k];
      assert x in all;
      assert forall h :: 0 <= h < |best| ==> best[h].node == owners[h] && owners[h] in owners;
      PrecedesIsAhead(x, best[i], keyHash);
      AheadTotal(m, owners[i], keyHash);
      assert owners[i] in owners;
    }
  }

  /** The node's membership test: counts who ranks ahead of `name` and gives up at `replicas`. */
  method IsOwnerHashed(ring: Ring, keyHash: word, name: Bytes, replicas: nat) returns (owns: bool)
    requires Valid(ring)
    ensures owns <==> name in Owners(Members(ring.nodes), keyHash, replicas)
    ensures owns <==> name in ring.nodes && |Outscorers(name, Members(ring.nodes), keyHash)| < replicas
  {
    hide Score, Fnv, Owners, Before, Outscorers;
    ghost var members := Members(ring.nodes);
    OwnerIffFewOutscore(name, members, keyHash, replicas);
    OwnerIffRank(name, members, keyHash, replicas);
    if replicas == 0 {
      return false;
    }
    var at := 0;
    while at < |ring.nodes| && ring.nodes[at] != name
      invariant at <= |ring.nodes|
      invariant name !in ring.nodes[..at]
    {
      at := at + 1;
    }
    if at == |ring.nodes| {
      assert ring.nodes[..at] == ring.nodes;
      return false;
    }
    var nameScore := Score(ring.hashes[at], keyHash);
    var better := 0;
    for i := 0 to |ring.nodes|
      invariant better == Rank(name, Members(ring.nodes[..i]), keyHash) < replicas
    {
      var node := ring.nodes[i];
      CountOneMore(ring.nodes, i, name, keyHash);
      if node == name {
        continue;
      }
      var score := Score(ring.hashes[i], keyHash);
      if score > nameScore || (score == nameScore && Before(node, name)) {
        better := better + 1;
        if better >= replicas {
          MoreMembersMoreBetter(name, Members(ring.nodes[..i + 1]), members, keyHash);
          return false;
        }
      }
    }
    assert ring.nodes[..|ring.nodes|] == ring.nodes;
    return true;
  }

  lemma CountOneMore(nodes: seq<Bytes>, i: nat, name: Bytes, keyHash: word)
    requires Unique(nodes) && i < |nodes|
    ensures Rank(name, Members(nodes[..i + 1]), keyHash)
         == Rank(name, Members(nodes[..i]), keyHash) + (if Ahead(nodes[i], name, keyHash) then 1 else 0)
    ensures !Ahead(name, name, keyHash)
  {
    hide Ahead;
    AheadTotal(name, name, keyHash);
    var before, after := Members(nodes[..i]), Members(nodes[..i + 1]);
    assert nodes[..i + 1] == nodes[..i] + [nodes[i]];
    assert after == before + {nodes[i]} && nodes[i] !in before;
    if Ahead(nodes[i], name, keyHash) {
      assert Better(name, after, keyHash) == Better(name, before, keyHash) + {nodes[i]};
    } else {
      assert Better(name, after, keyHash) == Better(name, before, keyHash);
    }
  }

  /** The Go client's lookup: a best-first list of at most `replicas`, each node inserted in turn. */
  method OwnersBounded(ring: Ring, keyHash: word, replicas: int) returns (owners: seq<Bytes>)
    requires Valid(ring)
    ensures owners == Owners(Members(ring.nodes), keyHash, if replicas < 0 then 0 else replicas)
    ensures Best(owners, Members(ring.nodes), keyHash, if replicas < 0 then 0 else replicas)
  {
    hide Score, Fnv, Precedes, Owners, IsTop, Best;
    ghost var wanted := if replicas < 0 then 0 else replicas;
    ghost var members := Members(ring.nodes);
    OwnersAreBest(members, keyHash, wanted);
    DistinctSize(ring.nodes);
    var limit := if replicas > |ring.nodes| then |ring.nodes| else replicas;
    if limit <= 0 {
      NobodyWanted(members, keyHash, wanted);
      return [];
    }
    var top: seq<Scored> := [];
    NobodyYet(keyHash, limit);
    assert ring.nodes[..0] == [];
    for i := 0 to |ring.nodes|
      invariant ScoredFor(top, keyHash) && IsTop(Names(top), Members(ring.nodes[..i]), keyHash, limit)
      invariant |top| <= limit && Sorted(top)
    {
      var cand := Scored(Score(ring.hashes[i], keyHash), ring.nodes[i]);
      ghost var before, after := Members(ring.nodes[..i]), Members(ring.nodes[..i + 1]);
      assert ring.nodes[..i + 1] == ring.nodes[..i] + [ring.nodes[i]];
      assert after == before + {cand.node} && cand.node !in before;
      if |top| == limit && !Precedes(cand, top[|top| - 1]) {
        SkipKeepsTop(top, before, cand, keyHash, limit);
        continue;
      }
      var pos: nat := |top|;
      while pos > 0 && Precedes(cand, top[pos - 1])
        invariant pos <= |top|
        invariant forall k :: pos <= k < |top| ==> Precedes(cand, top[k])
      {
        pos := pos - 1;
      }
      InsertKeepsTop(top, before, cand, pos, keyHash, limit);
      if |top| < limit {
        top := top[..pos] + [cand] + top[pos..];
      } else {
        top := top[..pos] + [cand] + top[pos..|top| - 1];
      }
    }
    assert ring.nodes[..|ring.nodes|] == ring.nodes;
    owners := seq(|top|, i requires 0 <= i < |top| => top[i].node);
    assert owners == Names(top);
    CapAtSize(owners, members, keyHash, wanted);
    OwnersUnique(owners, members, keyHash, wanted);
  }

  lemma CapAtSize(owners: seq<Bytes>, members: set<Bytes>, keyHash: word, wanted: nat)
    requires IsTop(owners, members, keyHash, if wanted > |members| then |members| else wanted)
    ensures IsTop(owners, members, keyHash, wanted)
  {
  }

  lemma NobodyWanted(members: set<Bytes>, keyHash: word, wanted: nat)
    requires wanted == 0 || members == {}
    ensures Owners(members, keyHash, wanted) == []
  {
    hide Owners;
    OwnersUnique([], members, keyHash, wanted);
  }

  lemma NobodyYet(keyHash: word, limit: nat)
    ensures IsTop(Names([]), Members([]), keyHash, limit)
  {
    assert Members([]) == {};
  }

  lemma SkipKeepsTop(top: seq<Scored>, members: set<Bytes>, cand: Scored, keyHash: word, limit: nat)
    requires ScoredFor(top, keyHash) && Sorted(top) && IsTop(Names(top), members, keyHash, limit)
    requires cand.score == NodeScore(cand.node, keyHash) && cand.node !in members
    requires |top| == limit > 0 && !Precedes(cand, top[limit - 1])
    ensures IsTop(Names(top), members + {cand.node}, keyHash, limit)
  {
    hide Precedes, NodeScore, Ahead;
    var owners := Names(top);
    assert |members + {cand.node}| == |members| + 1;
    forall i | 0 <= i < limit
      ensures Ahead(owners[i], cand.node, keyHash)
    {
      var last := top[limit - 1];
      assert owners[i] in owners && owners[limit - 1] in owners;
      PrecedesIsAhead(cand, last, keyHash);
      AheadTotal(cand.node, last.node, keyHash);
      assert owners[limit - 1] in members;
      if i < limit - 1 {
        AheadTransitive(owners[i], last.node, cand.node, keyHash);
      }
    }
  }

  lemma InsertKeepsTop(top: seq<Scored>, members: set<Bytes>, cand: Scored, pos: nat, keyHash: word, limit: nat)
    requires ScoredFor(top, keyHash) && Sorted(top) && IsTop(Names(top), members, keyHash, limit)
    requires cand.score == NodeScore(cand.node, keyHash) && cand.node !in members
    requires |top| <= limit && pos <= |top|
    requires |top| == limit ==> limit > 0 && Precedes(cand, top[limit - 1])
    requires pos > 0 ==> !Precedes(cand, top[pos - 1])
    requires forall k :: pos <= k < |top| ==> Precedes(cand, top[k])
    ensures var all := top[..pos] + [cand] + top[pos..];
            var next := if |top| < limit then all else all[..limit];
            ScoredFor(next, keyHash) && Sorted(next) && IsTop(Names(next), members + {cand.node}, keyHash, limit)
    ensures |top| == limit ==> (top[..pos] + [cand] + top[pos..])[..limit] == top[..pos] + [cand] + top[pos..limit - 1]
  {
    hide Precedes, NodeScore, Ahead;
    var all := top[..pos] + [cand] + top[pos..];
    forall i | 0 <= i < |top|
      ensures top[i].node in members
    {
      assert Names(top)[i] in members;
    }
    AllUnique(top);
    assert cand !in top;
    InsertKeepsSorted(top, pos, cand);
    forall i | 0 <= i < |all|
      ensures all[i].score == NodeScore(all[i].node, keyHash)
    {
      assert all[i] in all;
    }
    var next := if |top| < limit then all else all[..limit];
    assert forall i :: 0 <= i < |next| ==> next[i] == all[i];
    assert |members + {cand.node}| == |members| + 1;
    InsertedAreTop(top, all, next, members, cand, keyHash, limit);
  }

  lemma AllUnique(s: seq<Scored>)
    requires Sorted(s)
    ensures Unique(s)
  {
    hide Precedes;
    forall i, j | 0 <= i < j < |s|
      ensures s[i] != s[j]
    {
      PrecedesOrders(s[i], s[j], s[i]);
    }
  }

  lemma InsertedAreTop(top: seq<Scored>, all: seq<Scored>, next: seq<Scored>, members: set<Bytes>, cand: Scored,
                       keyHash: word, limit: nat)
    requires ScoredFor(all, keyHash) && Sorted(all)
    requires IsTop(Names(top), members, keyHash, limit) && |all| == |top| + 1
    requires cand.node !in members
    requires forall y :: y in all <==> y in top || y == cand
    requires |top| <= limit && next == if |top| < limit then all else all[..limit]
    requires |top| == limit ==> limit > 0 && top[limit - 1] == all[limit]
    ensures IsTop(Names(next), members + {cand.node}, keyHash, limit)
  {
    hide Precedes, NodeScore, Ahead;
    var owners := Names(next);
    assert |members + {cand.node}| == |members| + 1;
    assert forall i :: 0 <= i < |next| ==> next[i] == all[i];
    forall i | 0 <= i < |next|
      ensures owners[i] in members + {cand.node}
    {
      assert next[i] in all;
      if next[i] in top {
        var h :| 0 <= h < |top| && top[h] == next[i];
        assert Names(top)[h] in members;
      }
    }
    forall i, j | 0 <= i < j < |next|
      ensures Ahead(owners[i], owners[j], keyHash)
    {
      PrecedesIsAhead(all[i], all[j], keyHash);
    }
    forall i, m | 0 <= i < |next| && m in members + {cand.node} && m !in owners
      ensures Ahead(owners[i], m, keyHash)
    {
      OutsideRanksBehind(top, all, next, members, cand, keyHash, limit, i, m);
    }
  }

  lemma OutsideRanksBehind(top: seq<Scored>, all: seq<Scored>, next: seq<Scored>, members: set<Bytes>, cand: Scored,
                           keyHash: word, limit: nat, i: nat, m: Bytes)
    requires ScoredFor(all, keyHash) && Sorted(all)
    requires IsTop(Names(top), members, keyHash, limit) && |all| == |top| + 1
    requires forall y :: y in all <==> y in top || y == cand
    requires |top| <= limit && next == if |top| < limit then all else all[..limit]
    requires |top| == limit ==> limit > 0 && top[limit - 1] == all[limit]
    requires i < |next| && m in members + {cand.node} && m !in Names(next)
    ensures Ahead(next[i].node, m, keyHash)
  {
    hide Precedes, NodeScore, Ahead;
    assert forall k :: 0 <= k < |next| ==> next[k] == all[k] && Names(next)[k] == all[k].node;
    if x :| x in all && x.node == m {
      var k :| 0 <= k < |all| && all[k] == x;
      assert k == limit;
      PrecedesIsAhead(all[i], all[k], keyHash);
    } else {
      assert cand in all && m != cand.node;
      assert forall h :: 0 <= h < |top| ==> top[h] in all && Names(top)[h] == top[h].node;
      TopMembers(Names(top), members, keyHash, limit, m);
      SubsetSize(Better(m, members, keyHash), members);
      assert |top| == limit;
      var last := Names(top)[limit - 1];
      assert Ahead(last, m, keyHash);
      PrecedesIsAhead(all[i], all[limit], keyHash);
      AheadTransitive(all[i].node, last, m, keyHash);
    }
  }

  lemma MoreMembersMoreBetter(node: Bytes, few: set<Bytes>, many: set<Bytes>, keyHash: word)
    requires few <= many
    ensures Rank(node, few, keyHash) <= Rank(node, many, keyHash)
  {
    SubsetSize(Better(node, few, keyHash), Better(node, many, keyHash));
  }
}
