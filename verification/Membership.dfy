/**
 What joins and leaves do to a key's owners, and the rule that decides whether a node
 keeps its dead copy of a key it owns again.
 */
module Membership {
  import opened Basics
  import opened Words
  import opened Ranking
  import opened HashRing
  import opened OwnerLaws
  import opened OwnerAlgorithms

  function Min(a: nat, b: nat): nat {
    if a < b then a else b
  }

  /** `s` without `node`. */
  function Dropping(s: seq<Bytes>, node: Bytes): seq<Bytes> {
    if s == [] then []
    else if s[0] == node then Dropping(s[1..], node)
    else [s[0]] + Dropping(s[1..], node)
  }

  /** Leaves never demote: fewer members can only improve a survivor's rank, and keep it an owner. */
  lemma LeaveKeepsOwners(before: set<Bytes>, after: set<Bytes>, keyHash: word, replicas: nat, node: Bytes)
    requires after <= before && node in after
    ensures Rank(node, after, keyHash) <= Rank(node, before, keyHash)
    ensures node in Owners(before, keyHash, replicas) ==> node in Owners(after, keyHash, replicas)
  {
    hide Owners, Rank;
    MoreMembersMoreBetter(node, after, before, keyHash);
    OwnerIffRank(node, before, keyHash, replicas);
    OwnerIffRank(node, after, keyHash, replicas);
  }

  /** A join moves every node it outranks down one place and nobody else. */
  lemma JoinShiftsRanks(members: set<Bytes>, joiner: Bytes, keyHash: word, node: Bytes)
    requires joiner !in members
    ensures Rank(node, members + {joiner}, keyHash)
         == Rank(node, members, keyHash) + (if Ahead(joiner, node, keyHash) then 1 else 0)
  {
    hide Ahead;
    var x, y := Better(node, members, keyHash), Better(node, members + {joiner}, keyHash);
    if Ahead(joiner, node, keyHash) {
      assert y == x + {joiner} && joiner !in x;
    } else {
      assert y == x;
    }
  }

  lemma {:induction false} DroppingMembers(s: seq<Bytes>, node: Bytes, x: Bytes)
    ensures x in Dropping(s, node) <==> x in s && x != node
    ensures |Dropping(s, node)| <= |s|
  {
    if s != [] {
      assert s == [s[0]] + s[1..];
      DroppingMembers(s[1..], node, x);
    }
  }

  ghost predicate InOrder(s: seq<Bytes>, keyHash: word) {
    forall i, j :: 0 <= i < j < |s| ==> Ahead(s[i], s[j], keyHash)
  }

  lemma {:induction false} DroppingKeepsOrder(s: seq<Bytes>, node: Bytes, keyHash: word)
    requires InOrder(s, keyHash)
    ensures InOrder(Dropping(s, node), keyHash)
  {
    hide Ahead;
    if s != [] {
      var rest := Dropping(s[1..], node);
      DroppingKeepsOrder(s[1..], node, keyHash);
      forall x | x in rest
        ensures Ahead(s[0], x, keyHash)
      {
        DroppingMembers(s[1..], node, x);
        var k :| 0 <= k < |s[1..]| && s[1..][k] == x;
        assert s[k + 1] == x;
      }
    }
  }

  lemma OrderIsDistinct(s: seq<Bytes>, keyHash: word)
    requires InOrder(s, keyHash)
    ensures |Members(s)| == |s|
  {
    hide Ahead;
    forall i, j | 0 <= i < j < |s|
      ensures s[i] != s[j]
    {
      AheadTotal(s[i], s[j], keyHash);
    }
    DistinctSize(s);
  }

  /** Adding a node never reorders the others: take it out of the new ranking and the old one is left. */
  lemma JoinKeepsOrder(members: set<Bytes>, joiner: Bytes, keyHash: word)
    requires joiner !in members
    ensures Dropping(Ranked(members + {joiner}, keyHash), joiner) == Ranked(members, keyHash)
  {
    hide Ahead, Ranked, Dropping;
    var all := Ranked(members + {joiner}, keyHash);
    var rest := Dropping(all, joiner);
    RankedIsTop(members + {joiner}, keyHash);
    RankedIsTop(members, keyHash);
    DroppingKeepsOrder(all, joiner, keyHash);
    OrderIsDistinct(rest, keyHash);
    forall x
      ensures x in rest <==> x in members
    {
      DroppingMembers(all, joiner, x);
      if x in members {
        TopOfAll(all, members + {joiner}, keyHash, x);
      }
    }
    assert Members(rest) == members;
    TopIsUnique(rest, Ranked(members, keyHash), members, keyHash, |members|);
  }

  /**
   A join changes the owners of a key only if the joiner becomes one of them; then it pushes out
   nobody while there is room, and exactly the last owner when there is none.
   */
  lemma JoinDisplacesOne(members: set<Bytes>, joiner: Bytes, keyHash: word, replicas: nat)
    requires joiner !in members
    ensures var was, now := Owners(members, keyHash, replicas), Owners(members + {joiner}, keyHash, replicas);
            && (joiner !in now ==> now == was)
            && (joiner in now && |members| < replicas ==> Members(now) == Members(was) + {joiner})
            && (joiner in now && |members| >= replicas ==>
                  |was| == replicas > 0 && Members(now) == Members(was) - {was[replicas - 1]} + {joiner})
  {
    hide Owners, Rank, IsTop, Ahead;
    var was, now := Owners(members, keyHash, replicas), Owners(members + {joiner}, keyHash, replicas);
    OwnersIsTop(members, keyHash, replicas);
    OwnerIffRank(joiner, members + {joiner}, keyHash, replicas);
    TopLength(was, members, keyHash, replicas);
    AheadTotal(joiner, joiner, keyHash);
    JoinShiftsRanks(members, joiner, keyHash, joiner);
    forall x
      ensures x in now <==> ((x == joiner && joiner in now)
                             || (x in was && !(joiner in now && |members| >= replicas && x == was[replicas - 1])))
    {
      AfterJoin(members, joiner, keyHash, replicas, x);
    }
    if joiner !in now {
      SameMembersSameOwners(members, joiner, keyHash, replicas);
    }
  }

  lemma TopLength(owners: seq<Bytes>, members: set<Bytes>, keyHash: word, count: nat)
    requires IsTop(owners, members, keyHash, count)
    ensures |owners| == Min(count, |members|)
  {
  }

  lemma RankBelowSize(node: Bytes, members: set<Bytes>, keyHash: word)
    ensures Rank(node, members, keyHash) <= |members|
    ensures node in members ==> Rank(node, members, keyHash) < |members|
  {
    hide Ahead;
    AheadTotal(node, node, keyHash);
    SubsetSize(Better(node, members, keyHash), members);
    if node in members {
      SmallerSet(Better(node, members, keyHash), members, node);
    }
  }

  /** The owner at the end of a full list is the only one a joiner that outranks it can push out. */
  lemma AfterJoin(members: set<Bytes>, joiner: Bytes, keyHash: word, replicas: nat, x: Bytes)
    requires joiner !in members
    requires |Owners(members, keyHash, replicas)| == Min(replicas, |members|)
    ensures var was, now := Owners(members, keyHash, replicas), Owners(members + {joiner}, keyHash, replicas);
            && (joiner in now && |members| >= replicas ==> replicas > 0)
            && (x in now <==> ((x == joiner && joiner in now)
                               || (x in was && !(joiner in now && |members| >= replicas && x == was[replicas - 1]))))
  {
    hide Owners, Rank, IsTop, Ahead;
    var was, now := Owners(members, keyHash, replicas), Owners(members + {joiner}, keyHash, replicas);
    OwnersIsTop(members, keyHash, replicas);
    OwnerIffRank(x, members, keyHash, replicas);
    OwnerIffRank(x, members + {joiner}, keyHash, replicas);
    OwnerIffRank(joiner, members + {joiner}, keyHash, replicas);
    JoinShiftsRanks(members, joiner, keyHash, x);
    JoinShiftsRanks(members, joiner, keyHash, joiner);
    AheadTotal(joiner, joiner, keyHash);
    if x in members {
      RankBelowSize(x, members, keyHash);
      RankOrder(joiner, x, members, keyHash);
      if 0 < replicas <= |members| {
        TopRanks(was, members, keyHash, replicas, replicas - 1);
        if x in was && Rank(x, members, keyHash) == replicas - 1 {
          TopMembers(was, members, keyHash, replicas, was[replicas - 1]);
          OwnerIffRank(was[replicas - 1], members, keyHash, replicas);
          RankInjective(x, was[replicas - 1], members, keyHash);
        }
      }
    }
  }

  /** Who ranks ahead, told from the number of members ahead of each. */
  lemma RankOrder(joiner: Bytes, x: Bytes, members: set<Bytes>, keyHash: word)
    requires x in members && joiner !in members
    ensures Ahead(joiner, x, keyHash) <==> Rank(joiner, members, keyHash) <= Rank(x, members, keyHash)
  {
    hide Ahead;
    AheadTotal(joiner, x, keyHash);
    if Ahead(joiner, x, keyHash) {
      forall m | m in Better(joiner, members, keyHash)
        ensures m in Better(x, members, keyHash)
      {
        AheadTransitive(m, joiner, x, keyHash);
      }
      SubsetSize(Better(joiner, members, keyHash), Better(x, members, keyHash));
    } else {
      RankGrows(x, joiner, members, keyHash);
    }
  }

  lemma SameMembersSameOwners(members: set<Bytes>, joiner: Bytes, keyHash: word, replicas: nat)
    requires joiner !in members && joiner !in Owners(members + {joiner}, keyHash, replicas)
    ensures Owners(members + {joiner}, keyHash, replicas) == Owners(members, keyHash, replicas)
  {
    hide Owners, Ahead;
    var now := Owners(members + {joiner}, keyHash, replicas);
    OwnersIsTop(members + {joiner}, keyHash, replicas);
    OwnerIffRank(joiner, members + {joiner}, keyHash, replicas);
    JoinShiftsRanks(members, joiner, keyHash, joiner);
    AheadTotal(joiner, joiner, keyHash);
    RankBelowSize(joiner, members, keyHash);
    assert |members + {joiner}| == |members| + 1;
    OwnersUnique(now, members, keyHash, replicas);
  }

  // ---- dead copies ----

  /** One membership a node's ownership is judged against. */
  datatype OwnerCheck = OwnerCheck(ring: Ring, name: Bytes, replication: nat)

  /** The membership adopted now and the ones before it, newest first. */
  datatype SweepOwnership = SweepOwnership(current: OwnerCheck, since: seq<OwnerCheck>)

  ghost predicate ValidSweep(own: SweepOwnership) {
    Valid(own.current.ring) && forall i :: 0 <= i < |own.since| ==> Valid(own.since[i].ring)
  }

  ghost function OwnersOf(check: OwnerCheck, keyHash: word): seq<Bytes> {
    Owners(Members(check.ring.nodes), keyHash, check.replication)
  }

  ghost predicate Owns(check: OwnerCheck, keyHash: word) {
    check.name in OwnersOf(check, keyHash)
  }

  /** The newest earlier ring under which this node was not an owner, or `|since|`. */
  ghost function Taken(since: seq<OwnerCheck>, keyHash: word): (taken: nat)
    ensures taken <= |since|
    ensures forall i :: 0 <= i < taken ==> Owns(since[i], keyHash)
    ensures taken < |since| ==> !Owns(since[taken], keyHash)
  {
    if since == [] || !Owns(since[0], keyHash) then 0 else
      var rest := Taken(since[1..], keyHash);
      assert forall i :: 0 < i <= rest ==> since[i] == since[1..][i - 1];
      1 + rest
  }

  /** Some current owner other than this node owned the key under `check`. */
  ghost predicate OtherOwned(check: OwnerCheck, own: SweepOwnership, keyHash: word) {
    exists x :: x in OwnersOf(own.current, keyHash) && x != own.current.name && x in OwnersOf(check, keyHash)
  }

  /** What the rule decides: keep only if nobody else owning the key now owned it since it was taken. */
  ghost predicate Keeps(own: SweepOwnership, keyHash: word) {
    && Owns(own.current, keyHash)
    && var taken := Taken(own.since, keyHash);
       (taken < |own.since| ==> forall i :: 0 <= i <= taken ==> !OtherOwned(own.since[i], own, keyHash))
  }

  /** The rule as the node runs it, with its shortcuts. */
  method KeepsHashed(own: SweepOwnership, keyHash: word) returns (kept: bool)
    requires ValidSweep(own)
    ensures kept <==> Keeps(own, keyHash)
  {
    hide Owners, Best, Outscorers;
    var owns := IsOwnerHashed(own.current.ring, keyHash, own.current.name, own.current.replication);
    if !owns {
      return false;
    }
    var owners := OwnersHashed(own.current.ring, keyHash, own.current.replication);
    var others := [];
    for i := 0 to |owners|
      invariant forall x :: x in others <==> x in owners[..i] && x != own.current.name
    {
      assert owners[..i + 1] == owners[..i] + [owners[i]];
      if owners[i] != own.current.name {
        others := others + [owners[i]];
      }
    }
    assert owners[..|owners|] == owners;
    assert forall x :: x in others <==> x in OwnersOf(own.current, keyHash) && x != own.current.name;
    if others == [] {
      NobodyElse(own, keyHash);
      return true;
    }
    var taken := 0;
    while taken < |own.since|
      invariant taken <= |own.since|
      invariant forall i :: 0 <= i < taken ==> Owns(own.since[i], keyHash)
    {
      var check := own.since[taken];
      var still := IsOwnerHashed(check.ring, keyHash, check.name, check.replication);
      if !still {
        break;
      }
      taken := taken + 1;
    }
    assert taken == Taken(own.since, keyHash);
    if taken == |own.since| {
      return true;
    }
    for i := 0 to taken + 1
      invariant forall k :: 0 <= k < i ==> !OtherOwned(own.since[k], own, keyHash)
    {
      var check := own.since[i];
      for j := 0 to |others|
        invariant forall x :: x in others[..j] ==> x !in OwnersOf(check, keyHash)
      {
        assert others[..j + 1] == others[..j] + [others[j]];
        var owned := IsOwnerHashed(check.ring, keyHash, others[j], check.replication);
        if owned {
          assert others[j] in others;
          assert OtherOwned(check, own, keyHash);
          return false;
        }
      }
      assert others[..|others|] == others;
    }
    return true;
  }

  lemma NobodyElse(own: SweepOwnership, keyHash: word)
    requires forall x :: x in OwnersOf(own.current, keyHash) ==> x == own.current.name
    ensures forall check :: !OtherOwned(check, own, keyHash)
  {
  }

  /** The same replication throughout, and nobody joined since the ring that took the key. */
  ghost predicate OnlyLeaves(own: SweepOwnership, keyHash: word) {
    var taken := Taken(own.since, keyHash);
    forall i :: 0 <= i <= taken && i < |own.since| ==>
      && own.since[i].replication == own.current.replication
      && Members(own.current.ring.nodes) <= Members(own.since[i].ring.nodes)
  }

  /** A node other than this one that owned the key since it was taken is still a member. */
  ghost predicate HolderSurvives(own: SweepOwnership, keyHash: word) {
    var taken := Taken(own.since, keyHash);
    taken < |own.since| &&
    exists i, x :: 0 <= i <= taken && x in OwnersOf(own.since[i], keyHash) && x != own.current.name
                && x in Members(own.current.ring.nodes)
  }

  /** The dead copy is kept exactly when every other holder since the key was taken is gone. */
  lemma KeepsIffNoHolderSurvives(own: SweepOwnership, keyHash: word)
    requires OnlyLeaves(own, keyHash) && Owns(own.current, keyHash)
    ensures Keeps(own, keyHash) <==> !HolderSurvives(own, keyHash)
  {
    hide Owners;
    var taken := Taken(own.since, keyHash);
    var members := Members(own.current.ring.nodes);
    if taken < |own.since| {
      forall i | 0 <= i <= taken
        ensures OtherOwned(own.since[i], own, keyHash) <==>
                exists x :: x in OwnersOf(own.since[i], keyHash) && x != own.current.name && x in members
      {
        forall x | x in OwnersOf(own.since[i], keyHash)
          ensures x in members <==> x in OwnersOf(own.current, keyHash)
        {
          if x in members {
            LeaveKeepsOwners(Members(own.since[i].ring.nodes), members, keyHash, own.current.replication, x);
          }
          OwnerIffRank(x, members, keyHash, own.current.replication);
        }
      }
    }
  }

  /** A member that fewer than the replication count of that ring have a better claim than. */
  ghost predicate HoldsUnder(check: OwnerCheck, node: Bytes, keyHash: word) {
    node in check.ring.nodes && |Outscorers(node, Members(check.ring.nodes), keyHash)| < check.replication
  }

  lemma HoldsIsOwning(check: OwnerCheck, node: Bytes, keyHash: word)
    ensures HoldsUnder(check, node, keyHash) <==> node in OwnersOf(check, keyHash)
  {
    hide Owners, Outscorers;
    OwnerIffFewOutscore(node, Members(check.ring.nodes), keyHash, check.replication);
  }

  /** `taken` is the newest earlier ring that took the key from this node. */
  ghost predicate TookIt(own: SweepOwnership, keyHash: word, taken: nat) {
    && taken < |own.since| && !HoldsUnder(own.since[taken], own.since[taken].name, keyHash)
    && forall i :: 0 <= i < taken ==> HoldsUnder(own.since[i], own.since[i].name, keyHash)
  }

  /** No other node that holds the key now held it under the ring at `taken` or a newer one. */
  ghost predicate NobodyElseHeld(own: SweepOwnership, keyHash: word, taken: nat)
    requires taken < |own.since|
  {
    forall i: nat, x :: i <= taken && x != own.current.name && HoldsUnder(own.current, x, keyHash) ==>
      !HoldsUnder(own.since[i], x, keyHash)
  }

  /**
   The rule for any history, by claims alone: the copy is kept exactly if this node holds the key now and, if
   some earlier ring took it, no other node that holds it now held it under that ring or a newer one. A holder
   that is still a member but no longer an owner does not count.
   */
  lemma KeepsByClaims(own: SweepOwnership, keyHash: word)
    ensures Keeps(own, keyHash) <==>
            && HoldsUnder(own.current, own.current.name, keyHash)
            && forall taken: nat :: TookIt(own, keyHash, taken) ==> NobodyElseHeld(own, keyHash, taken)
  {
    hide HoldsUnder, OwnersOf;
    forall check, x ensures HoldsUnder(check, x, keyHash) <==> x in OwnersOf(check, keyHash) {
      HoldsIsOwning(check, x, keyHash);
    }
    var n := Taken(own.since, keyHash);
    forall taken: nat ensures TookIt(own, keyHash, taken) <==> taken == n < |own.since| {
      assert n < |own.since| ==> !Owns(own.since[n], keyHash);
    }
    if n < |own.since| {
      OthersByClaims(own, keyHash, n);
    }
  }

  lemma OthersByClaims(own: SweepOwnership, keyHash: word, taken: nat)
    requires taken < |own.since|
    ensures NobodyElseHeld(own, keyHash, taken) <==>
            forall i :: 0 <= i <= taken ==> !OtherOwned(own.since[i], own, keyHash)
  {
    hide HoldsUnder, OwnersOf;
    forall check, x ensures HoldsUnder(check, x, keyHash) <==> x in OwnersOf(check, keyHash) {
      HoldsIsOwning(check, x, keyHash);
    }
    if NobodyElseHeld(own, keyHash, taken) {
      forall i | 0 <= i <= taken ensures !OtherOwned(own.since[i], own, keyHash) {
      }
    } else {
      var i: nat, x :| i <= taken && x != own.current.name && HoldsUnder(own.current, x, keyHash)
                       && HoldsUnder(own.since[i], x, keyHash);
      assert OtherOwned(own.since[i], own, keyHash);
    }
  }
}
