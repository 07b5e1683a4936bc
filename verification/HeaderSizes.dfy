/** How long a request's header is, and that its canonical form is never longer than any form it can be read from. */
module HeaderSizes {
  import opened Basics
  import opened Decimal
  import opened Text
  import opened Wire
  import opened Frames
  import opened ClusterFrames

  // ---- fields ----

  lemma {:induction false} ValueBelow(s: Bytes)
    requires AllDigits(s)
    ensures Value(s) < TenTo(|s|)
  {
    if s != [] {
      ValueBelow(s[..|s| - 1]);
    }
  }

  /** No text of a number is shorter than its canonical digits. */
  lemma PrintIsShortest(field: Bytes)
    requires ParseLength(field).Some?
    ensures |Print(ParseLength(field).value)| <= |field|
  {
    ValueBelow(field);
    PrintSize(Value(field), |field|);
  }

  lemma CounterIsShortest(field: Bytes)
    requires ParseI64(field).Some?
    ensures |PrintInt(ParseI64(field).value)| <= |field|
  {
    CounterTextIsCanonical(field);
    if field == [MINUS, ZERO] {
      assert field[1..] == [ZERO] && [ZERO][..0] == [];
      assert Value([ZERO]) == 0;
      assert ParseI64(field) == Some(0);
    }
  }

  lemma {:induction false} HexTextSize(bytes: Bytes)
    ensures |HexText(bytes)| == 2 * |bytes|
  {
    if bytes != [] {
      HexTextSize(bytes[1..]);
    }
  }

  lemma {:induction false} HexBytesSize(field: Bytes)
    ensures HexBytes(field).Ok? ==> |HexBytes(field).value| == |field| / 2
    decreases |field|
  {
    hide HexNibble;
    if |field| >= 2 {
      HexBytesSize(field[2..]);
    }
  }

  lemma ConditionIsShortest(field: Bytes, allow: bool)
    requires CasCondition(field, allow).Ok?
    ensures |ConditionText(CasCondition(field, allow).value)| <= |field|
  {
    hide HexBytes, HexText;
    HexBytesSize(field);
    if CasCondition(field, allow).value.Matches? {
      HexTextSize(CasCondition(field, allow).value.digest);
    }
  }

  // ---- lines ----

  /** The fields' bytes, and one for the separator or line end after each. */
  function Weight(parts: seq<Bytes>): nat {
    if parts == [] then 0 else |parts[0]| + 1 + Weight(parts[1..])
  }

  /** What the parts from `at` on weigh. */
  function From(parts: seq<Bytes>, at: nat): nat
    decreases |parts| - at
  {
    if at < |parts| then |parts[at]| + 1 + From(parts, at + 1) else 0
  }

  lemma {:induction false} JoinWeight(parts: seq<Bytes>, b: byte)
    requires |parts| >= 1
    ensures |Join(parts, b)| + 1 == Weight(parts)
  {
    if |parts| > 1 {
      JoinWeight(parts[1..], b);
    }
  }

  lemma {:induction false} SplitWeight(s: Bytes, b: byte)
    ensures Weight(Split(s, b)) == |s| + 1
    decreases |s|
  {
    hide Find;
    if Find(s, b).Some? {
      SplitWeight(s[Find(s, b).value + 1..], b);
    }
  }

  lemma {:induction false} WeightConcat(a: seq<Bytes>, b: seq<Bytes>)
    ensures Weight(a + b) == Weight(a) + Weight(b)
  {
    if a == [] {
      assert a + b == b;
    } else {
      assert (a + b)[1..] == a[1..] + b;
      WeightConcat(a[1..], b);
    }
  }

  lemma {:induction false} FromIsWeight(parts: seq<Bytes>, at: nat)
    requires at <= |parts|
    ensures From(parts, at) == Weight(parts[at..])
    decreases |parts| - at
  {
    if at < |parts| {
      FromIsWeight(parts, at + 1);
      assert parts[at..][1..] == parts[at + 1..];
    }
  }

  lemma Peel(parts: seq<Bytes>, at: nat)
    requires at < |parts|
    ensures From(parts, at) == |parts[at]| + 1 + From(parts, at + 1)
  {
  }

  // ---- what each field is charged ----

  function Digits(n: nat): nat {
    |Print(n)| + 1
  }

  function Optional(n: Option<nat>): nat {
    if n.Some? then Digits(n.value) else 0
  }

  function Letter(on: bool): nat {
    if on then 2 else 0
  }

  function Digitses(lengths: seq<nat>): nat {
    if lengths == [] then 0 else Digits(lengths[0]) + Digitses(lengths[1..])
  }

  /** A namespaced letter with the length of its namespace, or the plain one. */
  function LeadSize(ns: nat): nat {
    if ns == 0 then 2 else 2 + Digits(ns)
  }

  /** How long the canonical header with these contents is, its line end included. */
  function HeadSize(head: Head): nat
    requires Fits(head)
  {
    var n := head.lengths;
    Optional(head.tag) +
    match head.shape
    case AuthShape(tagging, retry) => 2 + Digits(n[0]) + Letter(tagging) + Letter(retry)
    case GetShape => LeadSize(n[0]) + Digits(n[1])
    case DeleteShape => LeadSize(n[0]) + Digits(n[1])
    case SetShape(ttl) => LeadSize(n[0]) + Digits(n[1]) + Digits(n[2]) + Optional(ttl)
    case IncrShape(delta) => 2 + Digits(n[0]) + Digits(n[1]) + |PrintInt(delta)| + 1
    case CasSetShape(condition, ttl) =>
      2 + Digits(n[0]) + Digits(n[1]) + Digits(n[2]) + |ConditionText(condition)| + 1 + Optional(ttl)
    case CasDeleteShape(expected) => 2 + Digits(n[0]) + Digits(n[1]) + |HexText(expected)| + 1
    case TouchShape(ttl, get) => 2 + Digits(n[0]) + Digits(n[1]) + Optional(ttl) + Letter(get)
    case MultiGetShape => 2 + Digits(n[0]) + Digits(|n| - 1) + Digitses(n[1..])
    case MultiTouchShape(ttl, get) =>
      2 + Digits(n[0]) + Digits(|n| - 1) + Digitses(n[1..]) + Optional(ttl) + Letter(get)
    case MultiSetShape(ttl) => 2 + Digits(n[0]) + Digits((|n| - 1) / 2) + Digitses(n[1..]) + Optional(ttl)
    case ClearShape => 2 + Digits(n[0])
    case ClearAllShape => 2
    case HandoffDeleteShape => 2 + Digits(n[0]) + Digits(n[1]) + Digits(n[2])
    case HandoffClearShape(all) => 2 + Digits(n[0]) + Digits(n[1]) + Letter(all)
    case HandoffSetShape(ttl, ifAbsent) =>
      2 + Digits(n[0]) + Digits(n[1]) + Digits(n[2]) + Digits(n[3]) + Optional(ttl) + Letter(ifAbsent)
    case CancelShape => 2 + Digits(n[0]) + Digits(n[1])
    case MigrateShape(count, replication, generation) =>
      2 + Digits(n[0]) + Digits(n[1]) + Digits(n[2]) + Digits(n[3]) + Digits(count) + Digits(replication)
      + Optional(generation)
  }

  // ---- the parts a header is read from ----

  /** A number read from a part is charged no more than the part. */
  lemma PartCovers(parts: seq<Bytes>, at: nat)
    ensures LengthAt(parts, at).Ok? ==>
              at < |parts| && Digits(LengthAt(parts, at).value) + From(parts, at + 1) <= From(parts, at)
  {
    if at < |parts| && Length(parts[at]).Ok? {
      PrintIsShortest(parts[at]);
    }
  }

  lemma FieldCovers(field: Bytes)
    ensures Length(field).Ok? ==> Digits(Length(field).value) <= |field| + 1
    ensures Tag(field).Ok? ==> Digits(Tag(field).value) <= |field| + 1
  {
    if Length(field).Ok? {
      PrintIsShortest(field);
    }
  }

  lemma TagCovers(parts: seq<Bytes>, at: nat, tagged: bool)
    ensures TrailingTag(parts, at, tagged).Ok? ==> Optional(TrailingTag(parts, at, tagged).value) <= From(parts, at)
  {
    hide Length, Digits;
    if at < |parts| {
      FieldCovers(parts[at]);
    }
  }

  lemma TtlAndTagCover(parts: seq<Bytes>, at: nat, tagged: bool)
    ensures var r := TtlAndTag(parts, at, tagged);
            r.Ok? && OptionalLength(r.value.0).Ok? ==>
              Optional(OptionalLength(r.value.0).value) + Optional(r.value.1) <= From(parts, at)
  {
    hide Length, Digits;
    if at < |parts| {
      FieldCovers(parts[at]);
      Peel(parts, at);
      if at + 1 < |parts| {
        FieldCovers(parts[at + 1]);
        Peel(parts, at + 1);
      }
    }
  }

  lemma {:induction false} KeyLengthsCover(parts: seq<Bytes>, at: nat, count: nat)
    ensures KeyLengths(parts, at, count).Ok? ==>
              Digitses(KeyLengths(parts, at, count).value) + From(parts, at + count) <= From(parts, at)
    decreases count
  {
    if count != 0 && KeyLengths(parts, at, count).Ok? {
      hide LengthAt, Digits;
      PartCovers(parts, at);
      KeyLengthsCover(parts, at + 1, count - 1);
    }
  }

  lemma {:induction false} PairLengthsCover(parts: seq<Bytes>, at: nat, count: nat)
    ensures PairLengths(parts, at, count).Ok? ==>
              Digitses(PairLengths(parts, at, count).value) + From(parts, at + 2 * count) <= From(parts, at)
    decreases count
  {
    if count != 0 && PairLengths(parts, at, count).Ok? {
      hide LengthAt, Digits;
      PartCovers(parts, at);
      PartCovers(parts, at + 1);
      PairLengthsCover(parts, at + 2, count - 1);
      var all := PairLengths(parts, at, count).value;
      assert all[1..][1..] == PairLengths(parts, at + 2, count - 1).value;
    }
  }

  lemma Peeled(fields: seq<Bytes>)
    ensures |fields| == 0 ==> From(fields, 0) == 0
    ensures |fields| >= 1 ==> From(fields, 0) >= |fields[0]| + 1
    ensures |fields| >= 2 ==> From(fields, 0) >= |fields[0]| + 1 + |fields[1]| + 1
    ensures |fields| >= 3 ==> From(fields, 0) >= |fields[0]| + 1 + |fields[1]| + 1 + |fields[2]| + 1
  {
    if |fields| >= 1 {
      Peel(fields, 0);
      if |fields| >= 2 {
        Peel(fields, 1);
        if |fields| >= 3 {
          Peel(fields, 2);
        }
      }
    }
  }

  /** A tail read from its end: an optional number, an optional letter, and the tag. */
  lemma TailCovers(tail: seq<Bytes>, tagged: bool, letter: byte, tag: Option<nat>, ttl: Option<nat>, on: bool)
    requires tagged ==> tail != [] && Tag(tail[|tail| - 1]).Ok? && tag == Some(Tag(tail[|tail| - 1]).value)
    requires !tagged ==> tag == None
    requires var untagged := if tagged then tail[..|tail| - 1] else tail;
             && on == (untagged != [] && untagged[|untagged| - 1] == [letter])
             && var rest := if on then untagged[..|untagged| - 1] else untagged;
                |rest| <= 1 && OptionalLength(if rest == [] then None else Some(rest[0])) == Ok(ttl)
    ensures Optional(ttl) + Letter(on) + Optional(tag) <= From(tail, 0)
  {
    hide Length, Digits, From;
    Peeled(tail);
    if |tail| >= 1 {
      FieldCovers(tail[0]);
      if |tail| >= 2 {
        FieldCovers(tail[1]);
        if |tail| >= 3 {
          FieldCovers(tail[2]);
        }
      }
    }
  }

  lemma TouchTailCovers(parts: seq<Bytes>, at: nat, tagged: bool)
    requires at <= |parts|
    ensures var r := TouchTail(parts[at..], tagged);
            r.Ok? ==> Optional(r.value.0) + Letter(r.value.1) + Optional(r.value.2) <= From(parts, at)
  {
    hide OptionalLength, Tag, From, Weight;
    var fields := parts[at..];
    if TouchTail(fields, tagged).Ok? {
      var (ttl, get, tag) := TouchTail(fields, tagged).value;
      assert |fields| <= 4;
      TailCovers(fields, tagged, 71, tag, ttl, get);
      FromIsWeight(parts, at);
      FromIsWeight(fields, 0);
      assert fields[0..] == fields;
    }
  }

  // ---- each header ----

  lemma KeyHeadCovers(parts: seq<Bytes>, tagged: bool, namespaced: bool, shape: Shape)
    requires (shape == GetShape || shape == DeleteShape) && |parts| >= 1 && |parts[0]| == 1
    ensures var r := KeyHead(parts, tagged, namespaced, shape); r.Ok? ==> HeadSize(r.value) <= From(parts, 0)
  {
    hide Length, Digits, From, TrailingTag, Optional;
    Peel(parts, 0);
    if KeyHead(parts, tagged, namespaced, shape).Ok? {
      PartCovers(parts, 1);
      PartCovers(parts, 2);
      TagCovers(parts, if namespaced then 3 else 2, tagged);
    }
  }

  lemma SetHeadCovers(parts: seq<Bytes>, tagged: bool, namespaced: bool)
    requires |parts| >= 1 && |parts[0]| == 1
    ensures var r := SetHead(parts, tagged, namespaced); r.Ok? ==> HeadSize(r.value) <= From(parts, 0)
  {
    hide Length, Digits, From, TtlAndTag, Optional, OptionalLength;
    Peel(parts, 0);
    if SetHead(parts, tagged, namespaced).Ok? {
      PartCovers(parts, 1);
      PartCovers(parts, 2);
      PartCovers(parts, 3);
      TtlAndTagCover(parts, if namespaced then 4 else 3, tagged);
    }
  }

  lemma ClearHeadsCover(parts: seq<Bytes>, tagged: bool)
    requires |parts| >= 1 && |parts[0]| == 1
    ensures var r := ClearHead(parts, tagged); r.Ok? ==> HeadSize(r.value) <= From(parts, 0)
    ensures var r := ClearAllHead(parts, tagged); r.Ok? ==> HeadSize(r.value) <= From(parts, 0)
  {
    hide Length, Digits, From, TrailingTag, Optional;
    Peel(parts, 0);
    PartCovers(parts, 1);
    TagCovers(parts, 1, tagged);
    TagCovers(parts, 2, tagged);
  }

  lemma IncrHeadCovers(parts: seq<Bytes>, tagged: bool)
    requires |parts| >= 1 && |parts[0]| == 1
    ensures var r := IncrHead(parts, tagged); r.Ok? ==> HeadSize(r.value) <= From(parts, 0)
  {
    hide Length, Digits, From, TrailingTag, Optional, ParseI64, PrintInt;
    Peel(parts, 0);
    if IncrHead(parts, tagged).Ok? {
      PartCovers(parts, 1);
      PartCovers(parts, 2);
      CounterIsShortest(parts[3]);
      Peel(parts, 3);
      TagCovers(parts, 4, tagged);
    }
  }

  lemma CasSetHeadCovers(parts: seq<Bytes>, tagged: bool)
    requires |parts| >= 1 && |parts[0]| == 1
    ensures var r := CasSetHead(parts, tagged); r.Ok? ==> HeadSize(r.value) <= From(parts, 0)
  {
    hide Length, Digits, From, TtlAndTag, Optional, OptionalLength, CasCondition, ConditionText;
    Peel(parts, 0);
    if CasSetHead(parts, tagged).Ok? {
      PartCovers(parts, 1);
      PartCovers(parts, 2);
      PartCovers(parts, 3);
      ConditionIsShortest(parts[4], true);
      Peel(parts, 4);
      TtlAndTagCover(parts, 5, tagged);
    }
  }

  lemma CasDeleteHeadCovers(parts: seq<Bytes>, tagged: bool)
    requires |parts| >= 1 && |parts[0]| == 1
    ensures var r := CasDeleteHead(parts, tagged); r.Ok? ==> HeadSize(r.value) <= From(parts, 0)
  {
    hide Length, Digits, From, TrailingTag, Optional, HexText, HexBytes;
    Peel(parts, 0);
    if CasDeleteHead(parts, tagged).Ok? {
      PartCovers(parts, 1);
      PartCovers(parts, 2);
      ConditionIsShortest(parts[3], false);
      Peel(parts, 3);
      TagCovers(parts, 4, tagged);
    }
  }

  lemma TouchHeadCovers(parts: seq<Bytes>, tagged: bool)
    requires |parts| >= 1 && |parts[0]| == 1
    ensures var r := TouchHead(parts, tagged); r.Ok? ==> HeadSize(r.value) <= From(parts, 0)
  {
    hide Length, Digits, From, TouchTail, Optional, Letter;
    Peel(parts, 0);
    if TouchHead(parts, tagged).Ok? {
      PartCovers(parts, 1);
      PartCovers(parts, 2);
      TouchTailCovers(parts, 3, tagged);
    }
  }

  lemma MultiHeadsCover(parts: seq<Bytes>, tagged: bool)
    requires |parts| >= 1 && |parts[0]| == 1
    ensures var r := MultiGetHead(parts, tagged); r.Ok? ==> HeadSize(r.value) <= From(parts, 0)
    ensures var r := MultiTouchHead(parts, tagged); r.Ok? ==> HeadSize(r.value) <= From(parts, 0)
  {
    hide LengthAt, Digits, From, TrailingTag, TouchTail, Optional, Letter, KeyLengths, Digitses;
    Peel(parts, 0);
    PartCovers(parts, 1);
    PartCovers(parts, 2);
    if LengthAt(parts, 2).Ok? {
      var count := LengthAt(parts, 2).value;
      KeyLengthsCover(parts, 3, count);
      if KeyLengths(parts, 3, count).Ok? && count != 0 {
        var keys := KeyLengths(parts, 3, count).value;
        assert forall ns: nat :: ([ns] + keys)[1..] == keys;
        TagCovers(parts, 3 + count, tagged);
        TouchTailCovers(parts, 3 + count, tagged);
      }
    }
  }

  lemma MultiSetHeadCovers(parts: seq<Bytes>, tagged: bool)
    requires |parts| >= 1 && |parts[0]| == 1
    ensures var r := MultiSetHead(parts, tagged); r.Ok? ==> HeadSize(r.value) <= From(parts, 0)
  {
    hide LengthAt, Digits, From, TtlAndTag, Optional, OptionalLength, PairLengths, Digitses;
    Peel(parts, 0);
    PartCovers(parts, 1);
    PartCovers(parts, 2);
    if MultiSetHead(parts, tagged).Ok? {
      var count := LengthAt(parts, 2).value;
      PairLengthsCover(parts, 3, count);
      var pairs := PairLengths(parts, 3, count).value;
      assert MultiSetHead(parts, tagged).value.lengths[1..] == pairs;
      TtlAndTagCover(parts, 3 + 2 * count, tagged);
    }
  }

  lemma HandoffHeadsCover(parts: seq<Bytes>, tagged: bool)
    requires |parts| >= 1 && |parts[0]| == 1
    ensures var r := HandoffDeleteHead(parts, tagged); r.Ok? ==> HeadSize(r.value) <= From(parts, 0)
    ensures var r := CancelHead(parts); r.Ok? ==> HeadSize(r.value) <= From(parts, 0)
  {
    hide Length, Digits, From, TrailingTag;
    Peel(parts, 0);
    PartCovers(parts, 1);
    PartCovers(parts, 2);
    PartCovers(parts, 3);
    TagCovers(parts, 4, tagged);
  }

  lemma AuthHeadCovers(parts: seq<Bytes>)
    requires |parts| >= 1 && |parts[0]| == 1
    ensures var r := AuthHead(parts); r.Ok? ==> HeadSize(r.value) <= From(parts, 0)
  {
    hide Length, Digits, From;
    Peel(parts, 0);
    PartCovers(parts, 1);
    if |parts| > 2 {
      Peel(parts, 2);
      if |parts| > 3 {
        Peel(parts, 3);
      }
    }
  }

  lemma MigrateHeadCovers(parts: seq<Bytes>)
    requires |parts| >= 1 && |parts[0]| == 1
    ensures var r := MigrateHead(parts); r.Ok? ==> HeadSize(r.value) <= From(parts, 0)
  {
    hide Length, Digits, From;
    Peel(parts, 0);
    PartCovers(parts, 1);
    PartCovers(parts, 2);
    PartCovers(parts, 3);
    PartCovers(parts, 4);
    PartCovers(parts, 5);
    PartCovers(parts, 6);
    PartCovers(parts, 7);
  }

  lemma HandoffTailsCover(parts: seq<Bytes>, tagged: bool)
    requires |parts| >= 1 && |parts[0]| == 1
    ensures var r := HandoffClearHead(parts, tagged); r.Ok? ==> HeadSize(r.value) <= From(parts, 0)
    ensures var r := HandoffSetHead(parts, tagged); r.Ok? ==> HeadSize(r.value) <= From(parts, 0)
  {
    hide Length, Digits, From, OptionalLength, Optional, Letter;
    Peel(parts, 0);
    PartCovers(parts, 1);
    PartCovers(parts, 2);
    if HandoffClearHead(parts, tagged).Ok? {
      var head := HandoffClearHead(parts, tagged).value;
      NoLength();
      TailFrom(parts, 3, tagged, head.tag, None, head.shape.all);
    }
    if HandoffSetHead(parts, tagged).Ok? {
      var head := HandoffSetHead(parts, tagged).value;
      PartCovers(parts, 3);
      PartCovers(parts, 4);
      TailFrom(parts, 5, tagged, head.tag, head.shape.ttl, head.shape.ifAbsent);
    }
  }

  lemma NoLength()
    ensures OptionalLength(None) == Ok(None) && Optional(None) == 0
  {
  }

  lemma TailFrom(parts: seq<Bytes>, at: nat, tagged: bool, tag: Option<nat>, ttl: Option<nat>, on: bool)
    requires at <= |parts|
    requires var tail := parts[at..];
             && (tagged ==> tail != [] && Tag(tail[|tail| - 1]).Ok? && tag == Some(Tag(tail[|tail| - 1]).value))
             && (!tagged ==> tag == None)
             && var untagged := if tagged then tail[..|tail| - 1] else tail;
                && on == (untagged != [] && untagged[|untagged| - 1] == [65])
                && var rest := if on then untagged[..|untagged| - 1] else untagged;
                   |rest| <= 1 && OptionalLength(if rest == [] then None else Some(rest[0])) == Ok(ttl)
    ensures Optional(ttl) + Letter(on) + Optional(tag) <= From(parts, at)
  {
    hide OptionalLength, Tag, From, Weight, Optional, Letter;
    var tail := parts[at..];
    TailCovers(tail, tagged, 65, tag, ttl, on);
    FromIsWeight(parts, at);
    FromIsWeight(tail, 0);
    assert tail[0..] == tail;
  }

  /** The canonical header of what was read from a line is no longer than the line. */
  lemma HeaderNoLonger(parts: seq<Bytes>, tagged: bool)
    requires |parts| >= 1 && ParseHead(parts, tagged).Ok?
    ensures HeadSize(ParseHead(parts, tagged).value) <= Weight(parts)
  {
    hide HeadSize, From, Weight, AuthHead, KeyHead, HandoffDeleteHead, MultiGetHead, MultiTouchHead, MultiSetHead,
         IncrHead, CasSetHead, CasDeleteHead, TouchHead, ClearHead, ClearAllHead, HandoffClearHead, SetHead,
         HandoffSetHead, CancelHead, MigrateHead;
    FromIsWeight(parts, 0);
    assert parts[0..] == parts;
    KeyHeadCovers(parts, tagged, false, GetShape);
    KeyHeadCovers(parts, tagged, false, DeleteShape);
    KeyHeadCovers(parts, tagged, true, GetShape);
    KeyHeadCovers(parts, tagged, true, DeleteShape);
    SetHeadCovers(parts, tagged, false);
    SetHeadCovers(parts, tagged, true);
    ClearHeadsCover(parts, tagged);
    IncrHeadCovers(parts, tagged);
    CasSetHeadCovers(parts, tagged);
    CasDeleteHeadCovers(parts, tagged);
    TouchHeadCovers(parts, tagged);
    MultiHeadsCover(parts, tagged);
    MultiSetHeadCovers(parts, tagged);
    HandoffHeadsCover(parts, tagged);
    HandoffTailsCover(parts, tagged);
    AuthHeadCovers(parts);
    MigrateHeadCovers(parts);
  }

  // ---- the canonical frame itself ----

  lemma {:induction false} ConcatSize(body: seq<Bytes>)
    ensures |Concat(body)| == Total(Sizes(body))
  {
    if body != [] {
      ConcatSize(body[1..]);
      assert Sizes(body)[1..] == Sizes(body[1..]);
    }
  }

  lemma FramedSize(fields: seq<Bytes>, body: seq<Bytes>)
    requires |fields| >= 1
    ensures |Framed(fields, body)| == Weight(fields) + Total(Sizes(body))
  {
    JoinWeight(fields, SP);
    ConcatSize(body);
  }

  lemma {:induction false} PrintedWeight(body: seq<Bytes>)
    ensures Weight(Printed(body)) == Digitses(Sizes(body))
  {
    if body != [] {
      PrintedWeight(body[1..]);
      assert Printed(body)[1..] == Printed(body[1..]);
      assert Sizes(body)[1..] == Sizes(body[1..]);
    }
  }

  lemma Weight2(a: Bytes, b: Bytes)
    ensures Weight([a]) == |a| + 1 && Weight([a, b]) == |a| + |b| + 2
  {
    assert [a][1..] == [] && [a, b][1..] == [b] && [b][1..] == [];
  }

  lemma Weight3(a: Bytes, b: Bytes, c: Bytes)
    ensures Weight([a, b, c]) == |a| + |b| + |c| + 3
  {
    Weight2(b, c);
    assert [a, b, c][1..] == [b, c];
  }

  lemma Weight5(a: Bytes, b: Bytes, c: Bytes, d: Bytes, e: Bytes)
    ensures Weight([a, b, c, d]) == |a| + |b| + |c| + |d| + 4
    ensures Weight([a, b, c, d, e]) == |a| + |b| + |c| + |d| + |e| + 5
  {
    Weight3(b, c, d);
    Weight3(c, d, e);
    assert [a, b, c, d][1..] == [b, c, d];
    assert [a, b, c, d, e][1..] == [b, c, d, e] && [b, c, d, e][1..] == [c, d, e];
  }

  lemma OptionalWeights(ttl: Option<nat>, on: bool, letter: byte, tagged: bool, tag: nat)
    ensures Weight(TtlFields(ttl)) == Optional(ttl)
    ensures Weight(Flag(on, letter)) == Letter(on)
    ensures Weight(TagFields(tagged, tag)) == Optional(TagOf(tagged, tag))
  {
    Weight2([letter], [letter]);
    Weight2(Print(tag), Print(tag));
    if ttl.Some? {
      Weight2(Print(ttl.value), Print(ttl.value));
    }
  }

  lemma LeadWeight(letter: byte, ns: Bytes, lower: byte)
    ensures Weight(Frames.Lead(letter, ns, lower)) == LeadSize(|ns|)
  {
    Weight2([letter], [letter]);
    Weight2([lower], Print(|ns|));
  }

  lemma KeyedWeight(c: Command)
    requires Sendable(c) && (c.GetKey? || c.DeleteKey? || c.SetKey? || c.ClearNs? || c.ClearEverything?)
    ensures Fits(HeadFor(c, false, 0)) && Weight(FieldsOf(c)) == HeadSize(HeadFor(c, false, 0))
  {
    hide Weight, Print;
    match c
    case GetKey(key) =>
      LeadWeight(71, key.ns, 103);
      Weight2(Print(|key.name|), []);
      WeightConcat(Frames.Lead(71, key.ns, 103), [Print(|key.name|)]);
    case DeleteKey(key) =>
      LeadWeight(68, key.ns, 100);
      Weight2(Print(|key.name|), []);
      WeightConcat(Frames.Lead(68, key.ns, 100), [Print(|key.name|)]);
    case SetKey(key, value, ttl) =>
      LeadWeight(83, key.ns, 115);
      Weight2(Print(|key.name|), Print(|value|));
      OptionalWeights(ttl, false, 0, false, 0);
      WeightConcat(Frames.Lead(83, key.ns, 115), [Print(|key.name|), Print(|value|)]);
      WeightConcat(Frames.Lead(83, key.ns, 115) + [Print(|key.name|), Print(|value|)], TtlFields(ttl));
    case ClearNs(ns) => Weight2([99], Print(|ns|));
    case ClearEverything => Weight2([70], []);
  }

  lemma ConditionalWeight(c: Command)
    requires Sendable(c) && (c.IncrKey? || c.CasSetKey? || c.CasDeleteKey? || c.TouchKey?)
    ensures Fits(HeadFor(c, false, 0)) && Weight(FieldsOf(c)) == HeadSize(HeadFor(c, false, 0))
  {
    hide Weight, Print, PrintInt, HexText, ConditionText;
    var ns, name := Print(|c.key.ns|), Print(|c.key.name|);
    match c
    case IncrKey(key, delta) => Weight5([105], ns, name, PrintInt(delta), []);
    case CasSetKey(key, condition, value, ttl) =>
      Weight5([107], ns, name, Print(|value|), ConditionText(condition));
      OptionalWeights(ttl, false, 0, false, 0);
      WeightConcat([[107], ns, name, Print(|value|), ConditionText(condition)], TtlFields(ttl));
    case CasDeleteKey(key, expected) => Weight5([120], ns, name, HexText(expected), []);
    case TouchKey(key, ttl, get) =>
      Weight3([116], ns, name);
      OptionalWeights(ttl, get, 71, false, 0);
      WeightConcat([[116], ns, name], TtlFields(ttl));
      WeightConcat([[116], ns, name] + TtlFields(ttl), Flag(get, 71));
  }

  lemma {:induction false} InterleavedSize(keys: seq<Bytes>, values: seq<Bytes>)
    requires |keys| == |values|
    ensures |Interleaved(keys, values)| == 2 * |keys|
  {
    if keys != [] {
      InterleavedSize(keys[1..], values[1..]);
    }
  }

  lemma MultiWeight(c: Command)
    requires Sendable(c) && (c.MultiGet? || c.MultiTouch? || c.MultiSet?)
    ensures Fits(HeadFor(c, false, 0)) && Weight(FieldsOf(c)) == HeadSize(HeadFor(c, false, 0))
  {
    hide Weight, Print, Printed, Digitses, AllNonEmpty;
    var keys := if c.MultiSet? then Interleaved(c.keys, c.values) else c.keys;
    if c.MultiSet? {
      InterleavedSize(c.keys, c.values);
    }
    var lead := [[if c.MultiGet? then 109 else if c.MultiTouch? then 121 else 111], Print(|c.ns|), Print(|c.keys|)];
    Weight3(lead[0], lead[1], lead[2]);
    PrintedWeight(keys);
    WeightConcat(lead, Printed(keys));
    assert Sizes([c.ns] + keys)[1..] == Sizes(keys);
    if !c.MultiGet? {
      OptionalWeights(c.ttl, c.MultiTouch? && c.get, 71, false, 0);
      WeightConcat(lead + Printed(keys), TtlFields(c.ttl));
      if c.MultiTouch? {
        WeightConcat(lead + Printed(keys) + TtlFields(c.ttl), Flag(c.get, 71));
      }
    }
  }

  lemma InternalWeight(c: Command)
    requires Internal(c)
    ensures Fits(InternalHead(c, false, 0)) && Weight(InternalFields(c)) == HeadSize(InternalHead(c, false, 0))
  {
    hide Weight, Print, ValidUtf8;
    match c
    case Auth(secret, tagging, retry) =>
      Weight2([65], Print(|secret|));
      OptionalWeights(None, tagging, 84, false, 0);
      OptionalWeights(None, retry, 82, false, 0);
      WeightConcat([[65], Print(|secret|)], Flag(tagging, 84));
      WeightConcat([[65], Print(|secret|)] + Flag(tagging, 84), Flag(retry, 82));
    case HandoffDeleteKey(key, token) => Weight5([117], Print(|key.ns|), Print(|key.name|), Print(|token|), []);
    case HandoffClear(all, ns, token) =>
      Weight3([102], Print(|ns|), Print(|token|));
      OptionalWeights(None, all, 65, false, 0);
      WeightConcat([[102], Print(|ns|), Print(|token|)], Flag(all, 65));
    case HandoffSetKey(key, value, ttl, ifAbsent, token) =>
      var lead := [[85], Print(|key.ns|), Print(|key.name|), Print(|value|), Print(|token|)];
      Weight5(lead[0], lead[1], lead[2], lead[3], lead[4]);
      OptionalWeights(ttl, ifAbsent, 65, false, 0);
      WeightConcat(lead, TtlFields(ttl));
      WeightConcat(lead + TtlFields(ttl), Flag(ifAbsent, 65));
    case CancelMigration(token, name) => Weight3([88], Print(|name|), Print(|token|));
  }

  lemma SendableSize(c: Command, tagged: bool, tag: nat)
    requires Sendable(c)
    ensures Fits(HeadFor(c, tagged, tag))
    ensures |Frame(c, tagged, tag)| == HeadSize(HeadFor(c, tagged, tag)) + Total(Sizes(BodyOf(c)))
  {
    hide Weight, Print, Join, Concat, FieldsOf, Sizes, Total;
    FramedSize(FieldsOf(c) + TagFields(tagged, tag), BodyOf(c));
    WeightConcat(FieldsOf(c), TagFields(tagged, tag));
    OptionalWeights(None, false, 0, tagged, tag);
    if c.GetKey? || c.DeleteKey? || c.SetKey? || c.ClearNs? || c.ClearEverything? {
      KeyedWeight(c);
    } else if c.MultiGet? || c.MultiTouch? || c.MultiSet? {
      MultiWeight(c);
    } else {
      ConditionalWeight(c);
    }
  }

  lemma InternalSize(c: Command, tagged: bool, tag: nat)
    requires Internal(c)
    ensures Fits(InternalHead(c, tagged, tag))
    ensures |InternalFrame(c, tagged, tag)| == HeadSize(InternalHead(c, tagged, tag)) + Total(Sizes(InternalBody(c)))
  {
    hide Weight, Print, Join, Concat, InternalFields, Sizes, Total, ValidUtf8;
    FramedSize(InternalFields(c) + TagFields(tagged && !Untagged(c), tag), InternalBody(c));
    WeightConcat(InternalFields(c), TagFields(tagged && !Untagged(c), tag));
    OptionalWeights(None, false, 0, tagged && !Untagged(c), tag);
    InternalWeight(c);
  }

  lemma MigrationSize(c: Command)
    requires c.Migrate?
    ensures var head := Head(MigrateShape(|c.joined|, c.replication, c.generation), None, Sizes(MigrationBody(c)));
            |MigrationFrame(c)| == HeadSize(head) + Total(Sizes(MigrationBody(c))) + |RosterText(c.joined)|
  {
    hide Weight, Print, Join, Concat, Total, RosterText;
    var first := [[77], Print(|c.joiningName|), Print(|c.joiningAddr|), Print(|c.joiningToken|), Print(|c.joined|)];
    var second := [Print(c.replication), Print(|c.token|)];
    FramedSize(MigrationFields(c), MigrationBody(c));
    assert MigrationFields(c) == first + second + TtlFields(c.generation);
    WeightConcat(first + second, TtlFields(c.generation));
    WeightConcat(first, second);
    Weight5(first[0], first[1], first[2], first[3], first[4]);
    Weight2(second[0], second[1]);
    OptionalWeights(c.generation, false, 0, false, 0);
  }

  // ---- what was read and what is written again ----

  /** Taking keys and values apart and putting them in wire order again changes nothing. */
  lemma {:induction false} InterleaveAlternate(fields: seq<Bytes>)
    requires |fields| >= 2 && |fields| % 2 == 0
    ensures |Alternate(fields)| == |Alternate(fields[1..])|
    ensures Interleaved(Alternate(fields), Alternate(fields[1..])) == fields
  {
    var keys, values := Alternate(fields), Alternate(fields[1..]);
    if |fields| == 2 {
      assert fields[2..] == [] && keys == [fields[0]] && values == [fields[1]];
      assert keys[1..] == [] && values[1..] == [];
      assert fields == [fields[0], fields[1]];
    } else {
      InterleaveAlternate(fields[2..]);
      assert fields[1..][2..] == fields[2..][1..];
      assert keys[1..] == Alternate(fields[2..]) && values[1..] == Alternate(fields[2..][1..]);
      assert fields == [fields[0], fields[1]] + fields[2..];
    }
  }

  /** A command's own header is the one it was read from, if its body's fields are. */
  lemma BuiltHead(head: Head, fields: seq<Bytes>, tagged: bool, tag: nat)
    requires Fits(head) && !head.shape.MigrateShape? && |fields| == |head.lengths| && Build(head, fields).Ok?
    requires forall i :: 0 <= i < |fields| ==> |fields[i]| == head.lengths[i]
    ensures var c := Build(head, fields).value;
            && (Sendable(c) && head.tag == TagOf(tagged, tag) ==>
                  BodyOf(c) == fields && HeadFor(c, tagged, tag) == head)
            && (Internal(c) && head.tag == TagOf(tagged && !Untagged(c), tag) ==>
                  InternalBody(c) == fields && InternalHead(c, tagged, tag) == head)
  {
    hide ValidUtf8, TtlOk, AllNonEmpty, Alternate, Interleaved;
    assert Sizes(fields) == head.lengths;
    if |fields| > 0 {
      assert [fields[0]] + fields[1..] == fields;
    }
    if head.shape.MultiSetShape? {
      InterleaveAlternate(fields[1..]);
      assert fields[1..][1..] == fields[2..];
    }
  }

  /** The canonical form of a request whose header and body were read is no longer than what it was read from. */
  lemma BuiltNoLonger(head: Head, fields: seq<Bytes>, tagged: bool, tag: nat)
    requires Fits(head) && !head.shape.MigrateShape? && |fields| == |head.lengths| && Build(head, fields).Ok?
    requires forall i :: 0 <= i < |fields| ==> |fields[i]| == head.lengths[i]
    ensures var c := Build(head, fields).value;
            && (Sendable(c) && head.tag == TagOf(tagged, tag) ==>
                  |Frame(c, tagged, tag)| == HeadSize(head) + Total(head.lengths))
            && (Internal(c) && head.tag == TagOf(tagged && !Untagged(c), tag) ==>
                  |InternalFrame(c, tagged, tag)| == HeadSize(head) + Total(head.lengths))
  {
    hide Sendable, Internal, BodyOf, InternalBody, HeadFor, InternalHead, Frame, InternalFrame, HeadSize, Build, Total;
    var c := Build(head, fields).value;
    BuiltHead(head, fields, tagged, tag);
    assert Sizes(fields) == head.lengths;
    if Sendable(c) {
      SendableSize(c, tagged, tag);
    }
    if Internal(c) {
      InternalSize(c, tagged, tag);
    }
  }

  lemma EntryNoLonger(input: Bytes, cursor: nat)
    requires cursor <= |input| && NextEntry(input, cursor).Found?
    ensures var r := NextEntry(input, cursor); |EntryText(r.value)| <= r.end - cursor && r.end <= U64_MAX
  {
    hide Find, Split, Length, Print;
    var window := if |input| < cursor + MAX_ROSTER_LINE_LEN + 1 then |input| else cursor + MAX_ROSTER_LINE_LEN + 1;
    var offset := Find(input[cursor..window], LF).value;
    var line := input[cursor..cursor + offset];
    var parts := Split(line, SP);
    SplitWeight(line, SP);
    FromIsWeight(parts, 0);
    assert parts[0..] == parts;
    PartCovers(parts, 0);
    PartCovers(parts, 1);
  }

  lemma {:induction false} RosterNoLonger(input: Bytes, cursor: nat, count: nat)
    requires cursor <= |input| && Roster(input, cursor, count).Found?
    ensures var r := Roster(input, cursor, count);
            |RosterText(r.value)| <= r.end - cursor && (cursor <= U64_MAX ==> r.end <= U64_MAX)
    decreases count
  {
    if count != 0 {
      hide NextEntry, EntryText;
      var first := NextEntry(input, cursor);
      EntryNoLonger(input, cursor);
      RosterNoLonger(input, first.end, count - 1);
      var all := Roster(input, cursor, count).value;
      assert all[1..] == Roster(input, first.end, count - 1).value;
    }
  }
}
