/** What the parser can yield, and the one frame each of its results stands for. */
module Canonical {
  import opened Basics
  import opened Decimal
  import opened Text
  import opened StoreSpec
  import opened Wire
  import opened Frames
  import opened ClusterFrames
  import opened HeaderSizes

  predicate WellFormed(c: Command) {
    Sendable(c) || Internal(c) || MigrationOk(c)
  }

  /** A command's canonical frame: no leading zeros, the plain letter for the default namespace. */
  function CanonicalFrame(c: Command, tagged: bool, tag: nat): Bytes
    requires WellFormed(c)
  {
    if Sendable(c) then Frame(c, tagged, tag)
    else if Internal(c) then InternalFrame(c, tagged, tag)
    else MigrationFrame(c)
  }

  // ---- headers ----

  predicate TagSound(tag: Option<nat>, tagged: bool) {
    (tag.Some? <==> tagged) && (tag.Some? ==> tag.value <= U32_MAX)
  }

  predicate AllPositive(lengths: seq<nat>) {
    forall i :: 0 <= i < |lengths| ==> lengths[i] > 0
  }

  /** Every other length, from the first, is positive. */
  predicate KeysPositive(lengths: seq<nat>) {
    forall i :: 0 <= i < |lengths| && i % 2 == 0 ==> lengths[i] > 0
  }

  predicate DigestSound(condition: Condition) {
    condition.Matches? ==> |condition.digest| == 16
  }

  /** What every accepted header guarantees. */
  predicate HeadSound(head: Head, tagged: bool)
    requires Fits(head)
  {
    var n := head.lengths;
    match head.shape
    case AuthShape(_, _) => head.tag.None? && n[0] > 0
    case GetShape => TagSound(head.tag, tagged) && n[1] > 0
    case DeleteShape => TagSound(head.tag, tagged) && n[1] > 0
    case SetShape(ttl) => TagSound(head.tag, tagged) && n[1] > 0 && TtlOk(ttl)
    case IncrShape(delta) => TagSound(head.tag, tagged) && n[1] > 0 && I64_MIN <= delta <= I64_MAX
    case CasSetShape(condition, ttl) =>
      TagSound(head.tag, tagged) && n[1] > 0 && TtlOk(ttl) && DigestSound(condition)
    case CasDeleteShape(expected) => TagSound(head.tag, tagged) && n[1] > 0 && |expected| == 16
    case TouchShape(ttl, _) => TagSound(head.tag, tagged) && n[1] > 0 && TtlOk(ttl)
    case MultiGetShape => TagSound(head.tag, tagged) && AllPositive(n[1..])
    case MultiTouchShape(ttl, _) => TagSound(head.tag, tagged) && AllPositive(n[1..]) && TtlOk(ttl)
    case MultiSetShape(ttl) => TagSound(head.tag, tagged) && KeysPositive(n[1..]) && TtlOk(ttl)
    case ClearShape => TagSound(head.tag, tagged)
    case ClearAllShape => TagSound(head.tag, tagged)
    case HandoffDeleteShape => TagSound(head.tag, tagged) && n[0] > 0 && n[2] > 0
    case HandoffClearShape(all) => TagSound(head.tag, tagged) && n[0] > 0 && (all ==> n[1] == 0)
    case HandoffSetShape(ttl, _) => TagSound(head.tag, tagged) && n[0] > 0 && n[2] > 0 && TtlOk(ttl)
    case CancelShape => head.tag.None? && n[0] > 0 && n[1] > 0
    case MigrateShape(count, replication, generation) =>
      && head.tag.None? && AllPositive(n) && count <= MAX_ROSTER_ENTRIES && 0 < replication <= U64_MAX
      && TtlOk(generation)
  }

  lemma LengthSound(field: Bytes)
    ensures Length(field).Ok? ==> Length(field).value <= U64_MAX
  {
  }

  lemma TagFieldSound(parts: seq<Bytes>, at: nat, tagged: bool)
    ensures TrailingTag(parts, at, tagged).Ok? ==> TagSound(TrailingTag(parts, at, tagged).value, tagged)
  {
    hide Length;
  }

  lemma TailSound(parts: seq<Bytes>, at: nat, tagged: bool)
    ensures TtlAndTag(parts, at, tagged).Ok? ==> TagSound(TtlAndTag(parts, at, tagged).value.1, tagged)
  {
    hide Length;
  }

  lemma OptionalSound(field: Option<Bytes>)
    ensures OptionalLength(field).Ok? ==> TtlOk(OptionalLength(field).value)
  {
    if field.Some? {
      LengthSound(field.value);
    }
  }

  lemma TouchTailSound(fields: seq<Bytes>, tagged: bool)
    ensures var r := TouchTail(fields, tagged);
            r.Ok? ==> TtlOk(r.value.0) && TagSound(r.value.2, tagged)
  {
    hide Length, OptionalLength, TtlOk;
    var tail := if |fields| > 4 then fields[..4] else fields;
    if TouchTail(fields, tagged).Ok? {
      var untagged := if tagged then tail[..|tail| - 1] else tail;
      var get := untagged != [] && untagged[|untagged| - 1] == [71];
      var rest := if get then untagged[..|untagged| - 1] else untagged;
      OptionalSound(if rest == [] then None else Some(rest[0]));
    }
  }

  lemma ConditionSound(field: Bytes, allow: bool)
    ensures CasCondition(field, allow).Ok? ==> DigestSound(CasCondition(field, allow).value)
  {
    hide HexBytes;
    HexBytesSize(field);
  }

  lemma {:induction false} KeyLengthsSound(parts: seq<Bytes>, at: nat, count: nat)
    ensures KeyLengths(parts, at, count).Ok? ==> AllPositive(KeyLengths(parts, at, count).value)
    decreases count
  {
    hide LengthAt;
    if count != 0 && KeyLengths(parts, at, count).Ok? {
      KeyLengthsSound(parts, at + 1, count - 1);
    }
  }

  lemma {:induction false} PairLengthsSound(parts: seq<Bytes>, at: nat, count: nat)
    ensures PairLengths(parts, at, count).Ok? ==> KeysPositive(PairLengths(parts, at, count).value)
    decreases count
  {
    hide LengthAt;
    if count != 0 && PairLengths(parts, at, count).Ok? {
      PairLengthsSound(parts, at + 2, count - 1);
      var all, rest := PairLengths(parts, at, count).value, PairLengths(parts, at + 2, count - 1).value;
      forall i | 0 <= i < |all| && i % 2 == 0
        ensures all[i] > 0
      {
        if i > 0 {
          assert all[i] == rest[i - 2];
        }
      }
    }
  }

  lemma CounterSound(field: Bytes)
    ensures ParseI64(field).Some? ==> I64_MIN <= ParseI64(field).value <= I64_MAX
  {
  }

  lemma SimpleHeadSound(parts: seq<Bytes>, tagged: bool, namespaced: bool, shape: Shape)
    requires shape == GetShape || shape == DeleteShape
    ensures KeyHead(parts, tagged, namespaced, shape).Ok? ==>
              HeadSound(KeyHead(parts, tagged, namespaced, shape).value, tagged)
    ensures SetHead(parts, tagged, namespaced).Ok? ==> HeadSound(SetHead(parts, tagged, namespaced).value, tagged)
    ensures ClearHead(parts, tagged).Ok? ==> HeadSound(ClearHead(parts, tagged).value, tagged)
    ensures ClearAllHead(parts, tagged).Ok? ==> HeadSound(ClearAllHead(parts, tagged).value, tagged)
    ensures AuthHead(parts).Ok? ==> HeadSound(AuthHead(parts).value, tagged)
    ensures CancelHead(parts).Ok? ==> HeadSound(CancelHead(parts).value, tagged)
  {
    hide Length, TrailingTag, TtlAndTag, OptionalLength, TagSound, TtlOk;
    var at := if namespaced then 2 else 1;
    TagFieldSound(parts, at + 1, tagged);
    TagFieldSound(parts, 1, tagged);
    TagFieldSound(parts, 2, tagged);
    TailSound(parts, at + 2, tagged);
    if SetHead(parts, tagged, namespaced).Ok? {
      OptionalSound(TtlAndTag(parts, at + 2, tagged).value.0);
    }
  }

  lemma KeyedHeadSound(parts: seq<Bytes>, tagged: bool)
    ensures IncrHead(parts, tagged).Ok? ==> HeadSound(IncrHead(parts, tagged).value, tagged)
    ensures CasSetHead(parts, tagged).Ok? ==> HeadSound(CasSetHead(parts, tagged).value, tagged)
    ensures CasDeleteHead(parts, tagged).Ok? ==> HeadSound(CasDeleteHead(parts, tagged).value, tagged)
    ensures TouchHead(parts, tagged).Ok? ==> HeadSound(TouchHead(parts, tagged).value, tagged)
  {
    hide Length, TrailingTag, TtlAndTag, OptionalLength, TouchTail, CasCondition, ParseI64, TagSound, TtlOk;
    TagFieldSound(parts, 4, tagged);
    TailSound(parts, 5, tagged);
    if |parts| > 3 {
      CounterSound(parts[3]);
      ConditionSound(parts[3], false);
      TouchTailSound(parts[3..], tagged);
    } else if |parts| == 3 {
      TouchTailSound(parts[3..], tagged);
    }
    if |parts| > 4 {
      ConditionSound(parts[4], true);
    }
    if CasSetHead(parts, tagged).Ok? {
      OptionalSound(TtlAndTag(parts, 5, tagged).value.0);
    }
    if CasDeleteHead(parts, tagged).Ok? {
      OnlyDigests(parts[3]);
    }
  }

  lemma OnlyDigests(field: Bytes)
    ensures CasCondition(field, false).Ok? ==> CasCondition(field, false).value.Matches?
  {
  }

  lemma MultiHeadSound(parts: seq<Bytes>, tagged: bool)
    ensures MultiGetHead(parts, tagged).Ok? ==> HeadSound(MultiGetHead(parts, tagged).value, tagged)
    ensures MultiTouchHead(parts, tagged).Ok? ==> HeadSound(MultiTouchHead(parts, tagged).value, tagged)
  {
    hide Length, TrailingTag, TouchTail, TagSound, TtlOk, KeyLengths, AllPositive;
    if LengthAt(parts, 2).Ok? {
      var count := LengthAt(parts, 2).value;
      KeyLengthsSound(parts, 3, count);
      TagFieldSound(parts, 3 + count, tagged);
      if 3 + count <= |parts| {
        TouchTailSound(parts[3 + count..], tagged);
      }
      if MultiGetHead(parts, tagged).Ok? {
        assert MultiGetHead(parts, tagged).value.lengths[1..] == KeyLengths(parts, 3, count).value;
      }
      if MultiTouchHead(parts, tagged).Ok? {
        assert MultiTouchHead(parts, tagged).value.lengths[1..] == KeyLengths(parts, 3, count).value;
      }
    }
  }

  lemma MultiSetHeadSound(parts: seq<Bytes>, tagged: bool)
    ensures MultiSetHead(parts, tagged).Ok? ==> HeadSound(MultiSetHead(parts, tagged).value, tagged)
  {
    hide Length, TtlAndTag, OptionalLength, TagSound, TtlOk, PairLengths, KeysPositive;
    if MultiSetHead(parts, tagged).Ok? {
      var count := LengthAt(parts, 2).value;
      PairLengthsSound(parts, 3, count);
      TailSound(parts, 3 + 2 * count, tagged);
      OptionalSound(TtlAndTag(parts, 3 + 2 * count, tagged).value.0);
      assert MultiSetHead(parts, tagged).value.lengths[1..] == PairLengths(parts, 3, count).value;
    }
  }

  lemma ClusterHeadSound(parts: seq<Bytes>, tagged: bool)
    ensures HandoffDeleteHead(parts, tagged).Ok? ==> HeadSound(HandoffDeleteHead(parts, tagged).value, tagged)
    ensures HandoffClearHead(parts, tagged).Ok? ==> HeadSound(HandoffClearHead(parts, tagged).value, tagged)
  {
    hide Length, TrailingTag;
    TagFieldSound(parts, 4, tagged);
  }

  lemma HandoffSetHeadSound(parts: seq<Bytes>, tagged: bool)
    ensures HandoffSetHead(parts, tagged).Ok? ==> HeadSound(HandoffSetHead(parts, tagged).value, tagged)
  {
    hide Length, OptionalLength, TtlOk;
    if HandoffSetHead(parts, tagged).Ok? {
      var trailing := parts[5..];
      var untagged := if tagged then trailing[..|trailing| - 1] else trailing;
      var ifAbsent := untagged != [] && untagged[|untagged| - 1] == [65];
      var rest := if ifAbsent then untagged[..|untagged| - 1] else untagged;
      OptionalSound(if rest == [] then None else Some(rest[0]));
    }
  }

  lemma MigrateHeadSound(parts: seq<Bytes>, tagged: bool)
    ensures MigrateHead(parts).Ok? ==> HeadSound(MigrateHead(parts).value, tagged)
  {
    hide Length, OptionalLength, TtlOk;
    if 7 <= |parts| <= 8 {
      LengthSound(parts[5]);
      OptionalSound(if |parts| == 8 then Some(parts[7]) else None);
    }
  }

  lemma ParsedHeadSound(parts: seq<Bytes>, tagged: bool)
    requires |parts| >= 1 && ParseHead(parts, tagged).Ok?
    ensures HeadSound(ParseHead(parts, tagged).value, tagged)
  {
    hide HeadSound, Fits, AuthHead, KeyHead, HandoffDeleteHead, MultiGetHead, MultiTouchHead, MultiSetHead, IncrHead,
      CasSetHead, CasDeleteHead, TouchHead, ClearHead, ClearAllHead, HandoffClearHead, SetHead, HandoffSetHead,
      CancelHead, MigrateHead;
    SimpleHeadSound(parts, tagged, false, GetShape);
    SimpleHeadSound(parts, tagged, false, DeleteShape);
    SimpleHeadSound(parts, tagged, true, GetShape);
    SimpleHeadSound(parts, tagged, true, DeleteShape);
    KeyedHeadSound(parts, tagged);
    MultiHeadSound(parts, tagged);
    MultiSetHeadSound(parts, tagged);
    ClusterHeadSound(parts, tagged);
    HandoffSetHeadSound(parts, tagged);
    MigrateHeadSound(parts, tagged);
  }

  // ---- commands ----

  lemma {:induction false} AlternateMembers(fields: seq<Bytes>, i: nat)
    requires i < |Alternate(fields)|
    ensures 2 * i < |fields| && Alternate(fields)[i] == fields[2 * i]
    decreases |fields|
  {
    if i > 0 {
      AlternateMembers(fields[2..], i - 1);
    }
  }

  lemma {:induction false} AlternateHalves(fields: seq<Bytes>)
    ensures |Alternate(fields)| == (|fields| + 1) / 2
  {
    if |fields| > 1 {
      AlternateHalves(fields[2..]);
    }
  }

  lemma MultiBuildSound(head: Head, fields: seq<Bytes>, tagged: bool)
    requires Fits(head) && HeadSound(head, tagged) && MultiKey(head.shape)
    requires |fields| == |head.lengths| && forall i :: 0 <= i < |fields| ==> |fields[i]| == head.lengths[i]
    ensures Build(head, fields).Ok? && Sendable(Build(head, fields).value) && !Untagged(Build(head, fields).value)
  {
    hide TtlOk, TagSound;
    var c := Build(head, fields).value;
    if head.shape.MultiSetShape? {
      var keys := fields[1..];
      AlternateHalves(keys);
      AlternateHalves(fields[2..]);
      forall i | 0 <= i < |c.keys|
        ensures c.keys[i] != []
      {
        AlternateMembers(keys, i);
        assert head.lengths[1..][2 * i] == head.lengths[2 * i + 1] == |fields[2 * i + 1]|;
      }
    } else {
      forall i | 0 <= i < |c.keys|
        ensures c.keys[i] != []
      {
        assert c.keys[i] == fields[i + 1] && head.lengths[1..][i] == head.lengths[i + 1];
      }
    }
  }

  lemma BuildSound(head: Head, fields: seq<Bytes>, tagged: bool)
    requires Fits(head) && HeadSound(head, tagged) && !MultiKey(head.shape) && !head.shape.MigrateShape?
    requires |fields| == |head.lengths| && forall i :: 0 <= i < |fields| ==> |fields[i]| == head.lengths[i]
    ensures Build(head, fields).Ok? ==>
              var c := Build(head, fields).value;
              (Sendable(c) || Internal(c)) && (Untagged(c) ==> head.tag.None?)
              && (!Untagged(c) ==> TagSound(head.tag, tagged))
  {
    hide TtlOk, TagSound, ValidUtf8;
  }

  lemma {:induction false} RosterSound(input: Bytes, cursor: nat, count: nat)
    requires cursor <= |input| && Roster(input, cursor, count).Found?
    ensures forall i :: 0 <= i < count ==>
              var m := Roster(input, cursor, count).value[i];
              0 < |m.name| <= U64_MAX && 0 < |m.addr| <= U64_MAX
    decreases count
  {
    if count != 0 {
      hide NextEntry;
      EntrySound(input, cursor);
      RosterSound(input, NextEntry(input, cursor).end, count - 1);
    }
  }

  lemma EntrySound(input: Bytes, cursor: nat)
    requires cursor <= |input|
    ensures NextEntry(input, cursor).Found? ==>
              var m := NextEntry(input, cursor).value;
              0 < |m.name| <= U64_MAX && 0 < |m.addr| <= U64_MAX
  {
    hide Find, Split, Length;
  }

  /** Whatever bytes arrive: a parsed command is well formed, and it has a tag exactly if the mode asks for one. */
  lemma ParsedIsWellFormed(input: Bytes, tagged: bool)
    requires Parse(input, tagged).Done?
    ensures var r := Parse(input, tagged);
            WellFormed(r.command) && TagSound(r.tag, tagged && !Untagged(r.command))
  {
    hide Find, Split, ParseHead, Fits, HeadSound, TagSound, Build, Roster, Sendable, Internal, ValidUtf8;
    var headerEnd := Find(input, LF).value;
    var parts := Split(input[..headerEnd], SP);
    ParsedHeadSound(parts, tagged);
    var head := ParseHead(parts, tagged).value;
    var fields := Wire.Fields(input, headerEnd + 1, head.lengths);
    if head.shape.MigrateShape? {
      MigrationSound(input, headerEnd, head, tagged);
    } else if MultiKey(head.shape) {
      MultiBuildSound(head, fields, tagged);
      MultiTag(head, tagged);
    } else {
      BuildSound(head, fields, tagged);
      NoTagNeeded(head.tag);
    }
  }

  lemma MultiTag(head: Head, tagged: bool)
    requires Fits(head) && HeadSound(head, tagged) && MultiKey(head.shape)
    ensures TagSound(head.tag, tagged)
  {
  }

  lemma NoTagNeeded(tag: Option<nat>)
    ensures tag.None? ==> TagSound(tag, false)
  {
  }

  lemma MigrationSound(input: Bytes, headerEnd: nat, head: Head, tagged: bool)
    requires headerEnd < |input| && Fits(head) && HeadSound(head, tagged) && head.shape.MigrateShape?
    requires ParseBody(input, headerEnd, head).Done?
    ensures var r := ParseBody(input, headerEnd, head); MigrationOk(r.command) && r.tag.None? && TagSound(r.tag, false)
  {
    hide Roster, ValidUtf8, TtlOk, Wire.Fields;
    var end := headerEnd + 1 + Total(head.lengths);
    RosterSound(input, end, head.shape.joinedCount);
    var fields := Wire.Fields(input, headerEnd + 1, head.lengths);
    assert fields == [fields[0], fields[1], fields[2], fields[3]];
    assert forall i :: 0 <= i < 4 ==> |fields[i]| == head.lengths[i] > 0;
  }

  // ---- the canonical frame is never the longer one ----

  ghost function Again(r: Outcome, tagged: bool): Bytes
    requires r.Done? && WellFormed(r.command)
  {
    CanonicalFrame(r.command, tagged, if r.tag.Some? then r.tag.value else 0)
  }

  lemma MigrationNoLonger(input: Bytes, headerEnd: nat, head: Head)
    requires headerEnd < |input| && Fits(head) && head.shape.MigrateShape? && ParseBody(input, headerEnd, head).Done?
    requires HeadSize(head) <= headerEnd + 1 && head.tag.None?
    ensures var r := ParseBody(input, headerEnd, head); |MigrationFrame(r.command)| <= r.used <= U64_MAX
  {
    hide Roster, ValidUtf8, RosterText, HeadSize, AllUtf8, RosterUtf8;
    var end := headerEnd + 1 + Total(head.lengths);
    var fields := Wire.Fields(input, headerEnd + 1, head.lengths);
    RosterNoLonger(input, end, head.shape.joinedCount);
    var c := ParseBody(input, headerEnd, head).command;
    MigrationSize(c);
    assert Sizes(MigrationBody(c)) == head.lengths;
  }

  lemma ParsedNoLonger(input: Bytes, tagged: bool)
    requires Parse(input, tagged).Done? && WellFormed(Parse(input, tagged).command)
    requires TagSound(Parse(input, tagged).tag, tagged && !Untagged(Parse(input, tagged).command))
    ensures |Again(Parse(input, tagged), tagged)| <= Parse(input, tagged).used <= U64_MAX
  {
    hide Find, Split, ParseHead, Fits, HeadSize, HeadSound, Build, Roster, Sendable, Internal, Frame, InternalFrame,
         MigrationFrame, MigrationOk, ValidUtf8, Weight;
    var r := Parse(input, tagged);
    var tag := if r.tag.Some? then r.tag.value else 0;
    var headerEnd := Find(input, LF).value;
    var parts := Split(input[..headerEnd], SP);
    var head := ParseHead(parts, tagged).value;
    HeaderNoLonger(parts, tagged);
    SplitWeight(input[..headerEnd], SP);
    if head.shape.MigrateShape? {
      ParsedHeadSound(parts, tagged);
      MigrateUntagged(head, tagged);
      MigrationNoLonger(input, headerEnd, head);
      OnlyMigration(r.command);
    } else {
      var fields := Wire.Fields(input, headerEnd + 1, head.lengths);
      BuiltNoLonger(head, fields, tagged, tag);
      NotMigration(head, fields);
      SendableNotUntagged(r.command);
    }
  }

  lemma MigrateUntagged(head: Head, tagged: bool)
    requires Fits(head) && HeadSound(head, tagged) && head.shape.MigrateShape?
    ensures head.tag.None?
  {
  }

  lemma OnlyMigration(c: Command)
    requires c.Migrate?
    ensures !Sendable(c) && !Internal(c)
  {
  }

  lemma NotMigration(head: Head, fields: seq<Bytes>)
    requires Fits(head) && |fields| == |head.lengths| && !head.shape.MigrateShape? && Build(head, fields).Ok?
    ensures !MigrationOk(Build(head, fields).value)
  {
    hide ValidUtf8;
  }

  lemma SendableNotUntagged(c: Command)
    ensures Sendable(c) ==> !Untagged(c) && !Internal(c)
  {
  }

  /**
   Each parsed request stands for one canonical frame, no longer than the bytes it was read from: writing the
   command out again and parsing that gives the same command and tag, whatever follows.
   */
  lemma CanonicalFrameParses(input: Bytes, tagged: bool, rest: Bytes)
    requires Parse(input, tagged).Done?
    ensures var r := Parse(input, tagged);
            WellFormed(r.command) && TagSound(r.tag, tagged && !Untagged(r.command))
            && var again := CanonicalFrame(r.command, tagged, if r.tag.Some? then r.tag.value else 0);
               |again| <= r.used && Parse(again + rest, tagged) == Done(r.command, r.tag, |again|)
  {
    hide Parse, Sendable, Internal, MigrationOk, Frame, InternalFrame, MigrationFrame;
    ParsedIsWellFormed(input, tagged);
    ParsedNoLonger(input, tagged);
    var r := Parse(input, tagged);
    var tag := if r.tag.Some? then r.tag.value else 0;
    if Sendable(r.command) {
      SendableIsTagged(r.command);
      FrameParses(r.command, tagged, tag, rest);
    } else if Internal(r.command) {
      InternalFrameParses(r.command, tagged, tag, rest);
    } else {
      MigrationIsUntagged(r.command);
      MigrationParses(r.command, tagged, rest);
    }
  }

  lemma SendableIsTagged(c: Command)
    requires Sendable(c)
    ensures !Untagged(c)
  {
  }

  lemma MigrationIsUntagged(c: Command)
    requires MigrationOk(c)
    ensures Untagged(c) && c.Migrate?
  {
  }
}
