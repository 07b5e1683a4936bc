/** The Go client's request frames, and that the node's parser reads each back as the command it was built for. */
module Frames {
  import opened Basics
  import opened Decimal
  import opened Text
  import opened StoreSpec
  import opened Wire

  // ---- what a frame is: a line of fields, then the body's fields ----

  function Framed(fields: seq<Bytes>, body: seq<Bytes>): Bytes
    requires |fields| >= 1
  {
    Join(fields, SP) + [LF] + Concat(body)
  }

  function Sizes(body: seq<Bytes>): (sizes: seq<nat>)
    ensures |sizes| == |body|
  {
    seq(|body|, i requires 0 <= i < |body| => |body[i]|)
  }

  function Printed(body: seq<Bytes>): seq<Bytes> {
    seq(|body|, i requires 0 <= i < |body| => Print(|body[i]|))
  }

  /** Keys and values in wire order. */
  function Interleaved(keys: seq<Bytes>, values: seq<Bytes>): seq<Bytes>
    requires |keys| == |values|
  {
    if keys == [] then [] else [keys[0], values[0]] + Interleaved(keys[1..], values[1..])
  }

  function TagFields(tagged: bool, tag: nat): seq<Bytes> {
    if tagged then [Print(tag)] else []
  }

  function TtlFields(ttl: Option<nat>): seq<Bytes> {
    if ttl.Some? then [Print(ttl.value)] else []
  }

  function TtlField(ttl: Option<nat>): Option<Bytes> {
    if ttl.Some? then Some(Print(ttl.value)) else None
  }

  function TagOf(tagged: bool, tag: nat): Option<nat> {
    if tagged then Some(tag) else None
  }

  function HexDigit(n: nat): byte
    requires n < 16
  {
    if n < 10 then (48 + n) as byte else (87 + n) as byte
  }

  function HexText(bytes: Bytes): Bytes {
    if bytes == [] then []
    else [HexDigit(bytes[0] as int / 16), HexDigit(bytes[0] as int % 16)] + HexText(bytes[1..])
  }

  function ConditionText(condition: Condition): Bytes {
    match condition
    case Absent => [65]
    case Present => [80]
    case Matches(digest) => HexText(digest)
  }

  predicate TtlOk(ttl: Option<nat>) {
    ttl.Some? ==> ttl.value <= U64_MAX
  }

  predicate AllNonEmpty(keys: seq<Bytes>) {
    forall i :: 0 <= i < |keys| ==> keys[i] != []
  }

  /** The commands the client sends, with arguments it accepts. */
  predicate Sendable(c: Command) {
    match c
    case GetKey(key) => key.name != []
    case DeleteKey(key) => key.name != []
    case SetKey(key, _, ttl) => key.name != [] && TtlOk(ttl)
    case IncrKey(key, delta) => key.name != [] && I64_MIN <= delta <= I64_MAX
    case CasSetKey(key, condition, _, ttl) =>
      key.name != [] && TtlOk(ttl) && (condition.Matches? ==> |condition.digest| == 16)
    case CasDeleteKey(key, expected) => key.name != [] && |expected| == 16
    case TouchKey(key, ttl, _) => key.name != [] && TtlOk(ttl)
    case MultiGet(_, keys) => keys != [] && AllNonEmpty(keys)
    case MultiTouch(_, keys, ttl, _) => keys != [] && AllNonEmpty(keys) && TtlOk(ttl)
    case MultiSet(_, keys, values, ttl) => keys != [] && AllNonEmpty(keys) && TtlOk(ttl) && |values| == |keys|
    case ClearNs(_) => true
    case ClearEverything => true
    case _ => false
  }

  /** The body's fields in wire order. */
  function BodyOf(c: Command): seq<Bytes>
    requires Sendable(c)
  {
    match c
    case GetKey(key) => [key.ns, key.name]
    case DeleteKey(key) => [key.ns, key.name]
    case SetKey(key, value, _) => [key.ns, key.name, value]
    case IncrKey(key, _) => [key.ns, key.name]
    case CasSetKey(key, _, value, _) => [key.ns, key.name, value]
    case CasDeleteKey(key, _) => [key.ns, key.name]
    case TouchKey(key, _, _) => [key.ns, key.name]
    case MultiGet(ns, keys) => [ns] + keys
    case MultiTouch(ns, keys, _, _) => [ns] + keys
    case MultiSet(ns, keys, values, _) => [ns] + Interleaved(keys, values)
    case ClearNs(ns) => [ns]
    case ClearEverything => []
  }

  function Lead(letter: byte, ns: Bytes, lower: byte): (fields: seq<Bytes>)
    ensures |fields| >= 1
  {
    if ns == [] then [[letter]] else [[lower], Print(|ns|)]
  }

  /** The header's fields up to the tag. */
  function FieldsOf(c: Command): (fields: seq<Bytes>)
    requires Sendable(c)
    ensures |fields| >= 1
  {
    match c
    case GetKey(key) => Lead(71, key.ns, 103) + [Print(|key.name|)]
    case DeleteKey(key) => Lead(68, key.ns, 100) + [Print(|key.name|)]
    case SetKey(key, value, ttl) => Lead(83, key.ns, 115) + [Print(|key.name|), Print(|value|)] + TtlFields(ttl)
    case IncrKey(key, delta) => [[105], Print(|key.ns|), Print(|key.name|), PrintInt(delta)]
    case CasSetKey(key, condition, value, ttl) =>
      [[107], Print(|key.ns|), Print(|key.name|), Print(|value|), ConditionText(condition)] + TtlFields(ttl)
    case CasDeleteKey(key, expected) => [[120], Print(|key.ns|), Print(|key.name|), HexText(expected)]
    case TouchKey(key, ttl, get) =>
      [[116], Print(|key.ns|), Print(|key.name|)] + TtlFields(ttl) + (if get then [[71]] else [])
    case MultiGet(ns, keys) => [[109], Print(|ns|), Print(|keys|)] + Printed(keys)
    case MultiTouch(ns, keys, ttl, get) =>
      [[121], Print(|ns|), Print(|keys|)] + Printed(keys) + TtlFields(ttl) + (if get then [[71]] else [])
    case MultiSet(ns, keys, values, ttl) =>
      [[111], Print(|ns|), Print(|keys|)] + Printed(Interleaved(keys, values)) + TtlFields(ttl)
    case ClearNs(ns) => [[99], Print(|ns|)]
    case ClearEverything => [[70]]
  }

  function Frame(c: Command, tagged: bool, tag: nat): Bytes
    requires Sendable(c)
  {
    Framed(FieldsOf(c) + TagFields(tagged, tag), BodyOf(c))
  }

  /** The header the parser should find. */
  function HeadFor(c: Command, tagged: bool, tag: nat): Head
    requires Sendable(c)
  {
    var t := TagOf(tagged, tag);
    var lengths := Sizes(BodyOf(c));
    match c
    case GetKey(_) => Head(GetShape, t, lengths)
    case DeleteKey(_) => Head(DeleteShape, t, lengths)
    case SetKey(_, _, ttl) => Head(SetShape(ttl), t, lengths)
    case IncrKey(_, delta) => Head(IncrShape(delta), t, lengths)
    case CasSetKey(_, condition, _, ttl) => Head(CasSetShape(condition, ttl), t, lengths)
    case CasDeleteKey(_, expected) => Head(CasDeleteShape(expected), t, lengths)
    case TouchKey(_, ttl, get) => Head(TouchShape(ttl, get), t, lengths)
    case MultiGet(_, _) => Head(MultiGetShape, t, lengths)
    case MultiTouch(_, _, ttl, get) => Head(MultiTouchShape(ttl, get), t, lengths)
    case MultiSet(_, _, _, ttl) => Head(MultiSetShape(ttl), t, lengths)
    case ClearNs(_) => Head(ClearShape, t, lengths)
    case ClearEverything => Head(ClearAllShape, t, lengths)
  }

  // ---- fields survive the line ----

  /** Neither separator occurs in the field. */
  predicate Clean(field: Bytes) {
    SP !in field && LF !in field
  }

  predicate AllClean(fields: seq<Bytes>) {
    forall i :: 0 <= i < |fields| ==> Clean(fields[i])
  }

  lemma DigitsAreClean(s: Bytes)
    requires AllDigits(s)
    ensures Clean(s)
  {
  }

  lemma PrintIsClean(n: nat)
    ensures Clean(Print(n))
  {
    hide Print;
    DigitsAreClean(Print(n));
  }

  lemma PrintIntIsClean(i: int)
    ensures Clean(PrintInt(i))
  {
    hide Print;
    DigitsAreClean(Print(if i < 0 then -i else i));
  }

  lemma {:induction false} HexTextIsClean(bytes: Bytes)
    ensures Clean(HexText(bytes))
  {
    if bytes != [] {
      HexTextIsClean(bytes[1..]);
    }
  }

  lemma {:induction false} HexRoundTrip(bytes: Bytes)
    ensures |HexText(bytes)| == 2 * |bytes|
    ensures HexBytes(HexText(bytes)) == Ok(bytes)
  {
    if bytes != [] {
      HexRoundTrip(bytes[1..]);
      var text := HexText(bytes);
      assert text[2..] == HexText(bytes[1..]);
      var high, low := bytes[0] as int / 16, bytes[0] as int % 16;
      assert HexNibble(text[0]) == Ok(high) && HexNibble(text[1]) == Ok(low);
      assert bytes == [bytes[0]] + bytes[1..];
    }
  }

  lemma PrintedAreClean(body: seq<Bytes>)
    ensures AllClean(Printed(body))
  {
    hide Print;
    forall i | 0 <= i < |body|
      ensures Clean(Printed(body)[i])
    {
      PrintIsClean(|body[i]|);
    }
  }

  lemma CleanAppend(a: seq<Bytes>, b: seq<Bytes>)
    requires AllClean(a) && AllClean(b)
    ensures AllClean(a + b)
  {
    hide Clean;
  }

  lemma LeadClean(letter: byte, ns: Bytes, lower: byte)
    requires letter > 32 && lower > 32
    ensures AllClean(Lead(letter, ns, lower))
  {
    hide Print, Clean;
    LettersClean();
    PrintIsClean(|ns|);
  }

  lemma MultiLeadClean(letter: byte, ns: Bytes, count: nat, body: seq<Bytes>)
    requires letter > 32
    ensures AllClean([[letter], Print(|ns|), Print(count)] + Printed(body))
  {
    hide Print, Clean, Printed;
    LettersClean();
    PrintIsClean(|ns|);
    PrintIsClean(count);
    PrintedAreClean(body);
  }

  lemma HeaderIsClean(c: Command)
    requires Sendable(c)
    ensures AllClean(FieldsOf(c))
  {
    hide Print, PrintInt, HexText, Interleaved, Clean, Printed, TtlFields, Lead, AllNonEmpty;
    LettersClean();
    match c
    case GetKey(key) => KeyClean(key); LeadClean(71, key.ns, 103);
    case DeleteKey(key) => KeyClean(key); LeadClean(68, key.ns, 100);
    case SetKey(key, value, ttl) =>
      KeyClean(key); PrintIsClean(|value|); TtlClean(ttl); LeadClean(83, key.ns, 115);
    case IncrKey(key, delta) => KeyClean(key); PrintIntIsClean(delta);
    case CasSetKey(key, condition, value, ttl) =>
      KeyClean(key); PrintIsClean(|value|); TtlClean(ttl);
      if condition.Matches? { HexTextIsClean(condition.digest); }
    case CasDeleteKey(key, expected) => KeyClean(key); HexTextIsClean(expected);
    case TouchKey(key, ttl, _) => KeyClean(key); TtlClean(ttl);
    case MultiGet(ns, keys) => MultiLeadClean(109, ns, |keys|, keys);
    case MultiTouch(ns, keys, ttl, _) => MultiLeadClean(121, ns, |keys|, keys); TtlClean(ttl);
    case MultiSet(ns, keys, values, ttl) =>
      MultiLeadClean(111, ns, |keys|, Interleaved(keys, values)); TtlClean(ttl);
    case ClearNs(ns) => PrintIsClean(|ns|);
    case ClearEverything =>
  }

  lemma FieldsAreClean(c: Command, tagged: bool, tag: nat)
    requires Sendable(c)
    ensures AllClean(FieldsOf(c) + TagFields(tagged, tag))
  {
    hide Print, FieldsOf, Clean;
    HeaderIsClean(c);
    PrintIsClean(tag);
    CleanAppend(FieldsOf(c), TagFields(tagged, tag));
  }

  lemma LettersClean()
    ensures forall b: byte :: b != SP && b != LF ==> Clean([b])
  {
  }

  lemma KeyClean(key: Key)
    ensures Clean(Print(|key.ns|)) && Clean(Print(|key.name|))
  {
    hide Print, Clean;
    PrintIsClean(|key.ns|);
    PrintIsClean(|key.name|);
  }

  lemma TtlClean(ttl: Option<nat>)
    ensures AllClean(TtlFields(ttl))
  {
    hide Print, Clean;
    if ttl.Some? {
      PrintIsClean(ttl.value);
    }
  }

  // ---- the body splits where it was joined ----

  lemma {:induction false} FieldsOfConcat(before: Bytes, body: seq<Bytes>, rest: Bytes)
    ensures Total(Sizes(body)) == |Concat(body)|
    ensures Fields(before + Concat(body) + rest, |before|, Sizes(body)) == body
    decreases |body|
  {
    if body != [] {
      var first, others := body[0], body[1..];
      var lengths := Sizes(body);
      assert lengths[1..] == Sizes(others);
      var input := before + Concat(body) + rest;
      assert input == (before + first) + Concat(others) + rest;
      FieldsOfConcat(before + first, others, rest);
      assert input[|before|..|before| + |first|] == first;
    }
  }

  /** A clean line followed by the body it announces is parsed as that body, with the rest left over. */
  lemma FramedParses(fields: seq<Bytes>, body: seq<Bytes>, rest: Bytes, tagged: bool, head: Head)
    requires |fields| >= 1 && AllClean(fields)
    requires ParseHead(fields, tagged) == Ok(head) && !head.shape.MigrateShape?
    requires head.lengths == Sizes(body) && Fits(head)
    requires |Framed(fields, body)| <= U64_MAX
    ensures Parse(Framed(fields, body) + rest, tagged) ==
            match Build(head, body)
            case Ok(c) => Done(c, head.tag, |Framed(fields, body)|)
            case Fail(e) => Bad(e, |Framed(fields, body)|)
  {
    hide ParseHead, Build, Join, Split, Find, Fields, Total;
    var line := Join(fields, SP);
    var input := Framed(fields, body) + rest;
    JoinAvoids(fields, SP, LF);
    assert input[..|line|] == line && input[|line|] == LF;
    FindIs(input, LF, |line|);
    SplitJoin(fields, SP);
    var start := line + [LF];
    assert input == start + Concat(body) + rest;
    FieldsOfConcat(start, body, rest);
  }

  // ---- the header reads back ----

  lemma LengthReads(n: nat)
    requires n <= U64_MAX
    ensures Length(Print(n)) == Ok(n)
  {
    hide Print;
    LengthRoundTrip(n);
  }

  lemma TagReads(tag: nat)
    requires tag <= U32_MAX
    ensures Tag(Print(tag)) == Ok(tag)
  {
    hide Print, Length;
    LengthReads(tag);
  }

  lemma TtlReads(ttl: Option<nat>)
    requires TtlOk(ttl)
    ensures OptionalLength(TtlField(ttl)) == Ok(ttl)
  {
    hide Print, Length;
    if ttl.Some? {
      LengthReads(ttl.value);
    }
  }

  lemma TagTail(parts: seq<Bytes>, fields: seq<Bytes>, tagged: bool, tag: nat)
    requires tag <= U32_MAX && parts == fields + TagFields(tagged, tag)
    ensures TrailingTag(parts, |fields|, tagged) == Ok(TagOf(tagged, tag))
    ensures EndsAt(parts, |fields|, tagged) == Pass
  {
    hide Print, Tag;
    TagReads(tag);
  }

  lemma TtlTagTail(parts: seq<Bytes>, fields: seq<Bytes>, ttl: Option<nat>, tagged: bool, tag: nat)
    requires tag <= U32_MAX && TtlOk(ttl) && parts == fields + TtlFields(ttl) + TagFields(tagged, tag)
    ensures TtlAndTag(parts, |fields|, tagged)
         == Ok((TtlField(ttl), TagOf(tagged, tag)))
  {
    hide Print, Tag;
    TagReads(tag);
  }

  lemma PrintIsNotG(n: nat)
    ensures Print(n) != [71]
  {
    hide Print;
    assert AllDigits(Print(n));
    assert !AllDigits([71]) by {
      assert [71 as byte][0] == 71;
    }
  }

  lemma TouchTailReads(ttl: Option<nat>, get: bool, tagged: bool, tag: nat)
    requires tag <= U32_MAX && TtlOk(ttl)
    ensures TouchTail(TtlFields(ttl) + (if get then [[71]] else []) + TagFields(tagged, tag), tagged)
         == Ok((ttl, get, TagOf(tagged, tag)))
  {
    hide Print, Tag, OptionalLength;
    TagReads(tag);
    TtlReads(ttl);
    var flag: seq<Bytes> := if get then [[71]] else [];
    var tail := TtlFields(ttl) + flag;
    var fields := tail + TagFields(tagged, tag);
    assert tagged ==> fields[..|fields| - 1] == tail && fields[|fields| - 1] == Print(tag);
    assert !tagged ==> fields == tail;
    assert get ==> tail[..|tail| - 1] == TtlFields(ttl);
    assert !get ==> tail == TtlFields(ttl);
    if ttl.Some? {
      PrintIsNotG(ttl.value);
    }
  }

  predicate Measurable(body: seq<Bytes>) {
    forall i :: 0 <= i < |body| ==> |body[i]| <= U64_MAX
  }

  /** A length per key, from position `at` of the header on. */
  lemma {:induction false} KeyLengthsRead(parts: seq<Bytes>, at: nat, keys: seq<Bytes>)
    requires AllNonEmpty(keys) && Measurable(keys)
    requires at + |keys| <= |parts| && parts[at..at + |keys|] == Printed(keys)
    ensures KeyLengths(parts, at, |keys|) == Ok(Sizes(keys))
    decreases |keys|
  {
    hide Print, Length;
    assert keys == [] ==> Sizes(keys) == [];
    if keys != [] {
      var rest := keys[1..];
      assert parts[at] == parts[at..at + |keys|][0] == Print(|keys[0]|);
      LengthReads(|keys[0]|);
      assert parts[at + 1..at + 1 + |rest|] == parts[at..at + |keys|][1..] == Printed(rest);
      KeyLengthsRead(parts, at + 1, rest);
      assert Sizes(keys) == [|keys[0]|] + Sizes(rest);
    }
  }

  lemma {:induction false} PairLengthsRead(parts: seq<Bytes>, at: nat, keys: seq<Bytes>, values: seq<Bytes>)
    requires |keys| == |values| && AllNonEmpty(keys) && Measurable(keys) && Measurable(values)
    requires at + 2 * |keys| <= |parts|
    requires |Interleaved(keys, values)| == 2 * |keys|
    requires parts[at..at + 2 * |keys|] == Printed(Interleaved(keys, values))
    ensures PairLengths(parts, at, |keys|) == Ok(Sizes(Interleaved(keys, values)))
    decreases |keys|
  {
    hide Print, Length;
    assert keys == [] ==> Sizes(Interleaved(keys, values)) == [];
    if keys != [] {
      var all := Interleaved(keys, values);
      var rest := Interleaved(keys[1..], values[1..]);
      var span := parts[at..at + 2 * |keys|];
      assert all == [keys[0], values[0]] + rest;
      assert parts[at] == span[0] == Print(|keys[0]|) && parts[at + 1] == span[1] == Print(|values[0]|);
      LengthReads(|keys[0]|);
      LengthReads(|values[0]|);
      assert parts[at + 2..at + 2 + 2 * |keys[1..]|] == span[2..] == Printed(rest);
      PairLengthsRead(parts, at + 2, keys[1..], values[1..]);
      assert Sizes(all) == [|keys[0]|, |values[0]|] + Sizes(rest);
    }
  }

  lemma {:induction false} InterleavedParts(keys: seq<Bytes>, values: seq<Bytes>)
    requires |keys| == |values|
    ensures |Interleaved(keys, values)| == 2 * |keys|
    ensures Alternate(Interleaved(keys, values)) == keys
    ensures keys != [] ==> Alternate(Interleaved(keys, values)[1..]) == values
    decreases |keys|
  {
    if keys != [] {
      var all := Interleaved(keys, values);
      var rest := Interleaved(keys[1..], values[1..]);
      InterleavedParts(keys[1..], values[1..]);
      assert all[2..] == rest;
      assert keys == [keys[0]] + keys[1..];
      assert values == [values[0]] + values[1..];
      if |keys| > 1 {
        assert all[1..][2..] == rest[1..];
      } else {
        assert all[1..] == [values[0]];
      }
    }
  }

  lemma SizesOfTwo(a: Bytes, b: Bytes)
    ensures Sizes([a, b]) == [|a|, |b|]
  {
  }

  lemma SizesOfThree(a: Bytes, b: Bytes, c: Bytes)
    ensures Sizes([a, b, c]) == [|a|, |b|, |c|]
  {
  }

  lemma Front<T>(a: seq<T>, b: seq<T>)
    ensures forall i :: 0 <= i < |a| ==> (a + b)[i] == a[i]
  {
  }

  lemma PlainKeyHeadReads(name: Bytes, tagged: bool, tag: nat, letter: byte, shape: Shape)
    requires name != [] && |name| <= U64_MAX && tag <= U32_MAX
    requires shape == GetShape || shape == DeleteShape
    ensures KeyHead([[letter], Print(|name|)] + TagFields(tagged, tag), tagged, false, shape)
         == Ok(Head(shape, TagOf(tagged, tag), [0, |name|]))
  {
    hide Print, Length, Tag, TrailingTag, EndsAt, TagFields, TagOf;
    var fields := [[letter], Print(|name|)];
    TagTail(fields + TagFields(tagged, tag), fields, tagged, tag);
    LengthReads(|name|);
    Front(fields, TagFields(tagged, tag));
  }

  lemma NamespacedKeyHeadReads(ns: Bytes, name: Bytes, tagged: bool, tag: nat, lower: byte, shape: Shape)
    requires name != [] && |name| <= U64_MAX && |ns| <= U64_MAX && tag <= U32_MAX
    requires shape == GetShape || shape == DeleteShape
    ensures KeyHead([[lower], Print(|ns|), Print(|name|)] + TagFields(tagged, tag), tagged, true, shape)
         == Ok(Head(shape, TagOf(tagged, tag), [|ns|, |name|]))
  {
    hide Print, LengthAt, TrailingTag, EndsAt, TagFields, TagOf, KeyHead;
    var fields := [[lower], Print(|ns|), Print(|name|)];
    var parts := fields + TagFields(tagged, tag);
    TagTail(parts, fields, tagged, tag);
    MultiLead(parts, lower, ns, |name|);
    NamespacedKeyHeadFrom(parts, tagged, |ns|, |name|, TagOf(tagged, tag), shape);
  }

  lemma NamespacedKeyHeadFrom(parts: seq<Bytes>, tagged: bool, ns: nat, key: nat, tag: Option<nat>, shape: Shape)
    requires LengthAt(parts, 1) == Ok(ns) && LengthAt(parts, 2) == Ok(key) && key != 0
    requires TrailingTag(parts, 3, tagged) == Ok(tag) && EndsAt(parts, 3, tagged) == Pass
    requires shape == GetShape || shape == DeleteShape
    ensures KeyHead(parts, tagged, true, shape) == Ok(Head(shape, tag, [ns, key]))
  {
    hide Length, TrailingTag, EndsAt;
  }

  lemma LeadAnd(letter: byte, ns: Bytes, lower: byte, field: Bytes)
    ensures Lead(letter, ns, lower) + [field] == if ns == [] then [[letter], field] else [[lower], Print(|ns|), field]
  {
    hide Print;
  }

  lemma KeyHeadReads(ns: Bytes, name: Bytes, tagged: bool, tag: nat, letter: byte, lower: byte, shape: Shape)
    requires name != [] && |name| <= U64_MAX && |ns| <= U64_MAX && tag <= U32_MAX
    requires shape == GetShape || shape == DeleteShape
    ensures var parts := Lead(letter, ns, lower) + [Print(|name|)] + TagFields(tagged, tag);
            KeyHead(parts, tagged, ns != [], shape)
            == Ok(Head(shape, TagOf(tagged, tag), Sizes([ns, name])))
  {
    hide Print, KeyHead, TagFields, TagOf, Sizes, Lead;
    SizesOfTwo(ns, name);
    LeadAnd(letter, ns, lower, Print(|name|));
    if ns == [] {
      PlainKeyHeadReads(name, tagged, tag, letter, shape);
    } else {
      NamespacedKeyHeadReads(ns, name, tagged, tag, lower, shape);
    }
  }

  lemma SetHeadReads(ns: Bytes, name: Bytes, value: Bytes, ttl: Option<nat>, tagged: bool, tag: nat)
    requires name != [] && |name| <= U64_MAX && |ns| <= U64_MAX && |value| <= U64_MAX && tag <= U32_MAX && TtlOk(ttl)
    ensures var parts := Lead(83, ns, 115) + [Print(|name|), Print(|value|)] + TtlFields(ttl) + TagFields(tagged, tag);
            SetHead(parts, tagged, ns != [])
            == Ok(Head(SetShape(ttl), TagOf(tagged, tag), Sizes([ns, name, value])))
  {
    hide Print, Length, Tag, TtlAndTag, OptionalLength, TtlField, TagOf, TtlFields, TagFields, TtlOk;
    var fields := Lead(83, ns, 115) + [Print(|name|), Print(|value|)];
    var parts := fields + TtlFields(ttl) + TagFields(tagged, tag);
    TtlTagTail(parts, fields, ttl, tagged, tag);
    assert parts == fields + (TtlFields(ttl) + TagFields(tagged, tag));
    Front(fields, TtlFields(ttl) + TagFields(tagged, tag));
    TtlReads(ttl);
    LengthReads(|ns|);
    LengthReads(|name|);
    LengthReads(|value|);
    SizesOfThree(ns, name, value);
  }

  lemma ConditionReads(condition: Condition)
    requires condition.Matches? ==> |condition.digest| == 16
    ensures CasCondition(ConditionText(condition), true) == Ok(condition)
  {
    hide HexText, HexBytes;
    if condition.Matches? {
      HexRoundTrip(condition.digest);
    }
  }

  function CasParts(key: Key, condition: Condition, value: Bytes, ttl: Option<nat>, tagged: bool, tag: nat)
    : seq<Bytes>
  {
    [[107], Print(|key.ns|), Print(|key.name|), Print(|value|), ConditionText(condition)] + TtlFields(ttl)
    + TagFields(tagged, tag)
  }

  lemma CasPartsTail(key: Key, condition: Condition, value: Bytes, ttl: Option<nat>, tagged: bool, tag: nat)
    requires tag <= U32_MAX && TtlOk(ttl)
    ensures TtlAndTag(CasParts(key, condition, value, ttl, tagged, tag), 5, tagged)
         == Ok((TtlField(ttl), TagOf(tagged, tag)))
  {
    hide Print, ConditionText, TtlAndTag, TtlFields, TagFields, TtlOk, TtlField, TagOf;
    TtlTagTail(CasParts(key, condition, value, ttl, tagged, tag),
               [[107], Print(|key.ns|), Print(|key.name|), Print(|value|), ConditionText(condition)], ttl, tagged, tag);
  }

  lemma CasPartsFields(key: Key, condition: Condition, value: Bytes, ttl: Option<nat>, tagged: bool, tag: nat)
    ensures var parts := CasParts(key, condition, value, ttl, tagged, tag);
            && |parts| >= 5 && parts[0] == [107] && parts[1] == Print(|key.ns|) && parts[2] == Print(|key.name|)
            && parts[3] == Print(|value|) && parts[4] == ConditionText(condition)
  {
    hide Print, ConditionText, TtlFields, TagFields;
  }

  lemma CasSetHeadReads(key: Key, condition: Condition, value: Bytes, ttl: Option<nat>, tagged: bool, tag: nat)
    requires key.name != [] && |key.name| <= U64_MAX && |key.ns| <= U64_MAX && |value| <= U64_MAX
    requires tag <= U32_MAX && TtlOk(ttl) && (condition.Matches? ==> |condition.digest| == 16)
    ensures CasSetHead(CasParts(key, condition, value, ttl, tagged, tag), tagged)
            == Ok(Head(CasSetShape(condition, ttl), TagOf(tagged, tag), Sizes([key.ns, key.name, value])))
  {
    hide Print, LengthAt, Length, TtlAndTag, OptionalLength, ConditionText, CasCondition, TtlField, TagOf, TtlOk,
      CasSetHead, CasParts, Sizes;
    var parts := CasParts(key, condition, value, ttl, tagged, tag);
    CasPartsFields(key, condition, value, ttl, tagged, tag);
    CasPartsTail(key, condition, value, ttl, tagged, tag);
    TtlReads(ttl);
    LengthReads(|value|);
    MultiLead(parts, 107, key.ns, |key.name|);
    SizesOfThree(key.ns, key.name, value);
    ConditionReads(condition);
    CasSetHeadFrom(parts, tagged, |key.ns|, |key.name|, |value|, condition, TtlField(ttl), ttl, TagOf(tagged, tag));
  }

  lemma CasSetHeadFrom(parts: seq<Bytes>, tagged: bool, ns: nat, key: nat, value: nat, condition: Condition,
                       ttlField: Option<Bytes>, ttl: Option<nat>, tag: Option<nat>)
    requires |parts| >= 5 && LengthAt(parts, 1) == Ok(ns) && LengthAt(parts, 2) == Ok(key) && key != 0
    requires Length(parts[3]) == Ok(value) && CasCondition(parts[4], true) == Ok(condition)
    requires TtlAndTag(parts, 5, tagged) == Ok((ttlField, tag)) && OptionalLength(ttlField) == Ok(ttl)
    ensures CasSetHead(parts, tagged) == Ok(Head(CasSetShape(condition, ttl), tag, [ns, key, value]))
  {
    hide Length, TtlAndTag, OptionalLength, CasCondition;
  }

  lemma IncrHeadReads(key: Key, delta: int, tagged: bool, tag: nat)
    requires key.name != [] && |key.name| <= U64_MAX && |key.ns| <= U64_MAX
    requires tag <= U32_MAX && I64_MIN <= delta <= I64_MAX
    ensures var fields := [[105], Print(|key.ns|), Print(|key.name|), PrintInt(delta)];
            IncrHead(fields + TagFields(tagged, tag), tagged)
            == Ok(Head(IncrShape(delta), TagOf(tagged, tag), Sizes([key.ns, key.name])))
  {
    hide Print, PrintInt, ParseI64, Length, Tag, TrailingTag, EndsAt;
    var fields := [[105], Print(|key.ns|), Print(|key.name|), PrintInt(delta)];
    TagTail(fields + TagFields(tagged, tag), fields, tagged, tag);
    LengthReads(|key.ns|);
    LengthReads(|key.name|);
    SizesOfTwo(key.ns, key.name);
    CounterRoundTrip(delta);
  }

  lemma CasDeleteHeadReads(key: Key, expected: Bytes, tagged: bool, tag: nat)
    requires key.name != [] && |key.name| <= U64_MAX && |key.ns| <= U64_MAX && tag <= U32_MAX && |expected| == 16
    ensures var fields := [[120], Print(|key.ns|), Print(|key.name|), HexText(expected)];
            CasDeleteHead(fields + TagFields(tagged, tag), tagged)
            == Ok(Head(CasDeleteShape(expected), TagOf(tagged, tag), Sizes([key.ns, key.name])))
  {
    hide Print, Length, Tag, TrailingTag, EndsAt, HexText, HexBytes;
    var fields := [[120], Print(|key.ns|), Print(|key.name|), HexText(expected)];
    TagTail(fields + TagFields(tagged, tag), fields, tagged, tag);
    LengthReads(|key.ns|);
    LengthReads(|key.name|);
    SizesOfTwo(key.ns, key.name);
    HexRoundTrip(expected);
  }

  lemma TouchHeadReads(key: Key, ttl: Option<nat>, get: bool, tagged: bool, tag: nat)
    requires key.name != [] && |key.name| <= U64_MAX && |key.ns| <= U64_MAX && tag <= U32_MAX && TtlOk(ttl)
    ensures var fields := [[116], Print(|key.ns|), Print(|key.name|)];
            TouchHead(fields + TtlFields(ttl) + (if get then [[71]] else []) + TagFields(tagged, tag), tagged)
            == Ok(Head(TouchShape(ttl, get), TagOf(tagged, tag), Sizes([key.ns, key.name])))
  {
    hide Print, Length, TouchTail, TtlFields, TagFields;
    var flag: seq<Bytes> := if get then [[71]] else [];
    var fields := [[116], Print(|key.ns|), Print(|key.name|)];
    var parts := fields + TtlFields(ttl) + flag + TagFields(tagged, tag);
    assert parts[3..] == TtlFields(ttl) + flag + TagFields(tagged, tag);
    TouchTailReads(ttl, get, tagged, tag);
    LengthReads(|key.ns|);
    LengthReads(|key.name|);
    SizesOfTwo(key.ns, key.name);
  }

  lemma ClearHeadReads(ns: Bytes, tagged: bool, tag: nat)
    requires |ns| <= U64_MAX && tag <= U32_MAX
    ensures ClearHead([[99], Print(|ns|)] + TagFields(tagged, tag), tagged)
         == Ok(Head(ClearShape, TagOf(tagged, tag), Sizes([ns])))
    ensures ClearAllHead([[70]] + TagFields(tagged, tag), tagged)
         == Ok(Head(ClearAllShape, TagOf(tagged, tag), Sizes([])))
  {
    hide Print, Length, Tag, TrailingTag, EndsAt;
    TagTail([[99], Print(|ns|)] + TagFields(tagged, tag), [[99], Print(|ns|)], tagged, tag);
    TagTail([[70]] + TagFields(tagged, tag), [[70]], tagged, tag);
    LengthReads(|ns|);
    assert Sizes([ns]) == [|ns|] && Sizes([]) == [];
  }

  lemma SizesOfCons(first: Bytes, rest: seq<Bytes>)
    ensures Sizes([first] + rest) == [|first|] + Sizes(rest)
  {
  }

  lemma Middle<T>(a: seq<T>, b: seq<T>, c: seq<T>)
    ensures (a + b + c)[|a|..|a| + |b|] == b
    ensures (a + b + c)[|a| + |b|..] == c
    ensures forall i :: 0 <= i < |a| ==> (a + b + c)[i] == a[i]
  {
  }

  /** The start every multi-key header shares: the namespace's length and the number of keys. */
  lemma MultiLead(parts: seq<Bytes>, letter: byte, ns: Bytes, count: nat)
    requires |ns| <= U64_MAX && count <= U64_MAX
    requires |parts| >= 3 && parts[0] == [letter] && parts[1] == Print(|ns|) && parts[2] == Print(count)
    ensures LengthAt(parts, 1) == Ok(|ns|) && LengthAt(parts, 2) == Ok(count)
  {
    hide Print, Length;
    LengthReads(|ns|);
    LengthReads(count);
  }

  function MultiGetParts(ns: Bytes, keys: seq<Bytes>, tagged: bool, tag: nat): seq<Bytes> {
    [[109], Print(|ns|), Print(|keys|)] + Printed(keys) + TagFields(tagged, tag)
  }

  lemma MultiGetPartsTail(ns: Bytes, keys: seq<Bytes>, tagged: bool, tag: nat)
    requires tag <= U32_MAX
    ensures var parts := MultiGetParts(ns, keys, tagged, tag);
            && TrailingTag(parts, 3 + |keys|, tagged) == Ok(TagOf(tagged, tag))
            && EndsAt(parts, 3 + |keys|, tagged) == Pass
  {
    hide Print, TrailingTag, EndsAt, Printed, TagFields, TagOf;
    PrintedSize(keys);
    TagTail(MultiGetParts(ns, keys, tagged, tag), [[109], Print(|ns|), Print(|keys|)] + Printed(keys), tagged, tag);
  }

  lemma MultiGetPartsFields(ns: Bytes, keys: seq<Bytes>, tagged: bool, tag: nat)
    requires AllNonEmpty(keys) && Measurable(keys)
    ensures var parts := MultiGetParts(ns, keys, tagged, tag);
            && |parts| >= 3 && parts[0] == [109] && parts[1] == Print(|ns|) && parts[2] == Print(|keys|)
            && KeyLengths(parts, 3, |keys|) == Ok(Sizes(keys))
  {
    hide Print, KeyLengths, Printed, TagFields, AllNonEmpty, Measurable, Sizes;
    var lead: seq<Bytes> := [[109], Print(|ns|), Print(|keys|)];
    PrintedSize(keys);
    Middle(lead, Printed(keys), TagFields(tagged, tag));
    KeyLengthsRead(MultiGetParts(ns, keys, tagged, tag), 3, keys);
  }

  lemma MultiGetHeadReads(ns: Bytes, keys: seq<Bytes>, tagged: bool, tag: nat)
    requires keys != [] && AllNonEmpty(keys) && Measurable(keys) && |ns| <= U64_MAX && |keys| <= U64_MAX
    requires tag <= U32_MAX
    ensures MultiGetHead(MultiGetParts(ns, keys, tagged, tag), tagged)
         == Ok(Head(MultiGetShape, TagOf(tagged, tag), Sizes([ns] + keys)))
  {
    hide Print, LengthAt, TrailingTag, EndsAt, KeyLengths, Sizes, AllNonEmpty, Measurable, MultiGetHead, TagOf,
      MultiGetParts;
    var parts := MultiGetParts(ns, keys, tagged, tag);
    MultiGetPartsFields(ns, keys, tagged, tag);
    MultiGetPartsTail(ns, keys, tagged, tag);
    MultiLead(parts, 109, ns, |keys|);
    SizesOfCons(ns, keys);
    MultiGetHeadFrom(parts, tagged, |ns|, Sizes(keys), TagOf(tagged, tag));
  }

  lemma MultiGetHeadFrom(parts: seq<Bytes>, tagged: bool, ns: nat, sizes: seq<nat>, tag: Option<nat>)
    requires LengthAt(parts, 1) == Ok(ns) && LengthAt(parts, 2) == Ok(|sizes|) && sizes != []
    requires KeyLengths(parts, 3, |sizes|) == Ok(sizes)
    requires TrailingTag(parts, 3 + |sizes|, tagged) == Ok(tag) && EndsAt(parts, 3 + |sizes|, tagged) == Pass
    ensures MultiGetHead(parts, tagged) == Ok(Head(MultiGetShape, tag, [ns] + sizes))
  {
    hide LengthAt, KeyLengths, TrailingTag, EndsAt;
  }

  lemma PrintedSize(body: seq<Bytes>)
    ensures |Printed(body)| == |body|
  {
  }

  lemma MultiTouchHeadReads(ns: Bytes, keys: seq<Bytes>, ttl: Option<nat>, get: bool, tagged: bool, tag: nat)
    requires keys != [] && AllNonEmpty(keys) && Measurable(keys) && |ns| <= U64_MAX && |keys| <= U64_MAX
    requires tag <= U32_MAX && TtlOk(ttl)
    ensures MultiTouchHead([[121], Print(|ns|), Print(|keys|)] + Printed(keys) + TtlFields(ttl)
                           + (if get then [[71]] else []) + TagFields(tagged, tag), tagged)
         == Ok(Head(MultiTouchShape(ttl, get), TagOf(tagged, tag), Sizes([ns] + keys)))
  {
    hide Print, LengthAt, TouchTail, KeyLengths, TtlFields, TagFields, Printed, Sizes, AllNonEmpty, Measurable;
    var flag: seq<Bytes> := if get then [[71]] else [];
    var lead: seq<Bytes> := [[121], Print(|ns|), Print(|keys|)];
    var printed := Printed(keys);
    PrintedSize(keys);
    var tail := TtlFields(ttl) + flag + TagFields(tagged, tag);
    var parts := lead + printed + TtlFields(ttl) + flag + TagFields(tagged, tag);
    assert parts == lead + printed + tail;
    Middle(lead, printed, tail);
    MultiLead(parts, 121, ns, |keys|);
    KeyLengthsRead(parts, 3, keys);
    TouchTailReads(ttl, get, tagged, tag);
    SizesOfCons(ns, keys);
  }

  lemma MultiSetHeadFrom(parts: seq<Bytes>, tagged: bool, ns: nat, count: nat, pairs: seq<nat>,
                         ttlField: Option<Bytes>, ttl: Option<nat>, tag: Option<nat>)
    requires LengthAt(parts, 1) == Ok(ns) && LengthAt(parts, 2) == Ok(count) && count != 0
    requires PairLengths(parts, 3, count) == Ok(pairs)
    requires TtlAndTag(parts, 3 + 2 * count, tagged) == Ok((ttlField, tag)) && OptionalLength(ttlField) == Ok(ttl)
    ensures MultiSetHead(parts, tagged) == Ok(Head(MultiSetShape(ttl), tag, [ns] + pairs))
  {
    hide LengthAt, TtlAndTag, PairLengths, OptionalLength;
  }

  function MultiSetParts(ns: Bytes, keys: seq<Bytes>, values: seq<Bytes>, ttl: Option<nat>, tagged: bool, tag: nat)
    : seq<Bytes>
    requires |keys| == |values|
  {
    [[111], Print(|ns|), Print(|keys|)] + Printed(Interleaved(keys, values)) + TtlFields(ttl) + TagFields(tagged, tag)
  }

  lemma MultiSetPairs(ns: Bytes, keys: seq<Bytes>, values: seq<Bytes>, ttl: Option<nat>, tagged: bool, tag: nat)
    requires |keys| == |values| && AllNonEmpty(keys) && Measurable(keys) && Measurable(values)
    ensures PairLengths(MultiSetParts(ns, keys, values, ttl, tagged, tag), 3, |keys|)
         == Ok(Sizes(Interleaved(keys, values)))
  {
    hide Print, PairLengths, TtlFields, TagFields, Interleaved, Printed, Sizes, AllNonEmpty, Measurable;
    var all := Interleaved(keys, values);
    var lead: seq<Bytes> := [[111], Print(|ns|), Print(|keys|)];
    var tail := TtlFields(ttl) + TagFields(tagged, tag);
    var parts := MultiSetParts(ns, keys, values, ttl, tagged, tag);
    InterleavedParts(keys, values);
    PrintedSize(all);
    assert parts == lead + Printed(all) + tail;
    Middle(lead, Printed(all), tail);
    PairLengthsRead(parts, 3, keys, values);
  }

  lemma MultiSetTail(ns: Bytes, keys: seq<Bytes>, values: seq<Bytes>, ttl: Option<nat>, tagged: bool, tag: nat)
    requires |keys| == |values| && tag <= U32_MAX && TtlOk(ttl)
    ensures TtlAndTag(MultiSetParts(ns, keys, values, ttl, tagged, tag), 3 + 2 * |keys|, tagged)
         == Ok((TtlField(ttl), TagOf(tagged, tag)))
  {
    hide Print, TtlAndTag, TtlFields, TagFields, Interleaved, Printed, TtlField, TagOf;
    var all := Interleaved(keys, values);
    var lead := [[111], Print(|ns|), Print(|keys|)] + Printed(all);
    InterleavedParts(keys, values);
    PrintedSize(all);
    assert |lead| == 3 + 2 * |keys|;
    TtlTagTail(MultiSetParts(ns, keys, values, ttl, tagged, tag), lead, ttl, tagged, tag);
  }

  lemma MultiSetHeadReads(ns: Bytes, keys: seq<Bytes>, values: seq<Bytes>, ttl: Option<nat>, tagged: bool, tag: nat)
    requires keys != [] && |keys| == |values| && AllNonEmpty(keys) && |keys| <= U64_MAX && tag <= U32_MAX && TtlOk(ttl)
    requires |ns| <= U64_MAX && Measurable(keys) && Measurable(values)
    ensures MultiSetHead(MultiSetParts(ns, keys, values, ttl, tagged, tag), tagged)
         == Ok(Head(MultiSetShape(ttl), TagOf(tagged, tag), Sizes([ns] + Interleaved(keys, values))))
  {
    hide Print, LengthAt, TtlAndTag, PairLengths, TtlFields, TagFields, Interleaved, OptionalLength, Printed, Sizes,
      AllNonEmpty, Measurable, MultiSetHead, TtlField, TagOf;
    var parts := MultiSetParts(ns, keys, values, ttl, tagged, tag);
    MultiLead(parts, 111, ns, |keys|);
    MultiSetPairs(ns, keys, values, ttl, tagged, tag);
    MultiSetTail(ns, keys, values, ttl, tagged, tag);
    TtlReads(ttl);
    SizesOfCons(ns, Interleaved(keys, values));
    MultiSetHeadFrom(parts, tagged, |ns|, |keys|, Sizes(Interleaved(keys, values)), TtlField(ttl), ttl,
                     TagOf(tagged, tag));
  }

  predicate AllMeasurable(c: Command)
    requires Sendable(c)
  {
    Measurable(BodyOf(c)) && (c.MultiGet? || c.MultiTouch? || c.MultiSet? ==> |c.keys| <= U64_MAX)
  }

  lemma {:induction false} InterleavedMembers(keys: seq<Bytes>, values: seq<Bytes>, i: nat)
    requires |keys| == |values| && i < |keys|
    ensures keys[i] in Interleaved(keys, values) && values[i] in Interleaved(keys, values)
    decreases |keys|
  {
    if i == 0 {
      assert Interleaved(keys, values)[0] == keys[0] && Interleaved(keys, values)[1] == values[0];
    } else {
      InterleavedMembers(keys[1..], values[1..], i - 1);
    }
  }

  lemma MeasurableParts(ns: Bytes, rest: seq<Bytes>)
    requires Measurable([ns] + rest)
    ensures |ns| <= U64_MAX && Measurable(rest)
  {
    assert ([ns] + rest)[0] == ns;
    forall i | 0 <= i < |rest|
      ensures |rest[i]| <= U64_MAX
    {
      assert ([ns] + rest)[i + 1] == rest[i];
    }
  }

  lemma MeasurablePairs(keys: seq<Bytes>, values: seq<Bytes>)
    requires |keys| == |values| && Measurable(Interleaved(keys, values))
    ensures Measurable(keys) && Measurable(values)
  {
    forall i | 0 <= i < |keys|
      ensures |keys[i]| <= U64_MAX && |values[i]| <= U64_MAX
    {
      InterleavedMembers(keys, values, i);
    }
  }

  lemma LegacyHeadReads(c: Command, tagged: bool, tag: nat)
    requires Sendable(c) && AllMeasurable(c) && tag <= U32_MAX
    requires c.GetKey? || c.DeleteKey? || c.SetKey? || c.ClearNs? || c.ClearEverything?
    ensures ParseHead(FieldsOf(c) + TagFields(tagged, tag), tagged) == Ok(HeadFor(c, tagged, tag))
  {
    hide Print, PrintInt, HexText, Interleaved, TtlFields, TagFields, Printed, KeyHead, SetHead, IncrHead, CasSetHead,
      CasDeleteHead, TouchHead, ClearHead, ClearAllHead, MultiGetHead, MultiTouchHead, MultiSetHead, Sizes, AllNonEmpty,
      TagOf;
    var body := BodyOf(c);
    assert body != [] ==> |body[0]| <= U64_MAX;
    assert |body| > 1 ==> |body[1]| <= U64_MAX;
    assert |body| > 2 ==> |body[2]| <= U64_MAX;
    match c
    case GetKey(key) => KeyHeadReads(key.ns, key.name, tagged, tag, 71, 103, GetShape);
    case DeleteKey(key) => KeyHeadReads(key.ns, key.name, tagged, tag, 68, 100, DeleteShape);
    case SetKey(key, value, ttl) => SetHeadReads(key.ns, key.name, value, ttl, tagged, tag);
    case ClearNs(ns) => ClearHeadReads(ns, tagged, tag);
    case ClearEverything => ClearHeadReads([], tagged, tag);
  }

  lemma KeyedHeadReads(c: Command, tagged: bool, tag: nat)
    requires Sendable(c) && AllMeasurable(c) && tag <= U32_MAX
    requires c.IncrKey? || c.CasSetKey? || c.CasDeleteKey? || c.TouchKey?
    ensures ParseHead(FieldsOf(c) + TagFields(tagged, tag), tagged) == Ok(HeadFor(c, tagged, tag))
  {
    hide Print, PrintInt, HexText, Interleaved, TtlFields, TagFields, Printed, KeyHead, SetHead, IncrHead, CasSetHead,
      CasDeleteHead, TouchHead, ClearHead, ClearAllHead, MultiGetHead, MultiTouchHead, MultiSetHead, Sizes, AllNonEmpty,
      TagOf;
    var body := BodyOf(c);
    assert |body[0]| <= U64_MAX && |body[1]| <= U64_MAX;
    assert |body| > 2 ==> |body[2]| <= U64_MAX;
    match c
    case IncrKey(key, delta) => IncrHeadReads(key, delta, tagged, tag);
    case CasSetKey(key, condition, value, ttl) => CasSetHeadReads(key, condition, value, ttl, tagged, tag);
    case CasDeleteKey(key, expected) => CasDeleteHeadReads(key, expected, tagged, tag);
    case TouchKey(key, ttl, get) => TouchHeadReads(key, ttl, get, tagged, tag);
  }

  lemma MultiHeadReads(c: Command, tagged: bool, tag: nat)
    requires Sendable(c) && AllMeasurable(c) && tag <= U32_MAX
    requires c.MultiGet? || c.MultiTouch? || c.MultiSet?
    ensures ParseHead(FieldsOf(c) + TagFields(tagged, tag), tagged) == Ok(HeadFor(c, tagged, tag))
  {
    hide Print, PrintInt, HexText, Interleaved, TtlFields, TagFields, Printed, KeyHead, SetHead, IncrHead, CasSetHead,
      CasDeleteHead, TouchHead, ClearHead, ClearAllHead, MultiGetHead, MultiTouchHead, MultiSetHead, Sizes, AllNonEmpty,
      TagOf;
    match c
    case MultiGet(ns, keys) =>
      MeasurableParts(ns, keys);
      MultiGetHeadReads(ns, keys, tagged, tag);
    case MultiTouch(ns, keys, ttl, get) =>
      MeasurableParts(ns, keys);
      MultiTouchHeadReads(ns, keys, ttl, get, tagged, tag);
    case MultiSet(ns, keys, values, ttl) =>
      MeasurableParts(ns, Interleaved(keys, values));
      MeasurablePairs(keys, values);
      MultiSetHeadReads(ns, keys, values, ttl, tagged, tag);
  }

  lemma HeadReads(c: Command, tagged: bool, tag: nat)
    requires Sendable(c) && AllMeasurable(c) && tag <= U32_MAX
    ensures ParseHead(FieldsOf(c) + TagFields(tagged, tag), tagged) == Ok(HeadFor(c, tagged, tag))
    ensures Fits(HeadFor(c, tagged, tag))
  {
    hide FieldsOf, TagFields, HeadFor, AllMeasurable, Fits, ParseHead;
    if c.MultiGet? || c.MultiTouch? || c.MultiSet? {
      MultiHeadReads(c, tagged, tag);
    } else if c.IncrKey? || c.CasSetKey? || c.CasDeleteKey? || c.TouchKey? {
      KeyedHeadReads(c, tagged, tag);
    } else {
      LegacyHeadReads(c, tagged, tag);
    }
  }

  lemma BuildsBack(c: Command, tagged: bool, tag: nat)
    requires Sendable(c) && Fits(HeadFor(c, tagged, tag))
    ensures Build(HeadFor(c, tagged, tag), BodyOf(c)) == Ok(c)
  {
    hide Interleaved, AllNonEmpty;
    if c.MultiSet? {
      InterleavedParts(c.keys, c.values);
      var body := BodyOf(c);
      assert body[1..] == Interleaved(c.keys, c.values);
      assert body[2..] == Interleaved(c.keys, c.values)[1..];
    } else if c.MultiGet? || c.MultiTouch? {
      assert BodyOf(c)[1..] == c.keys;
    }
  }

  lemma {:induction false} PartsFit(body: seq<Bytes>, i: nat)
    requires i < |body|
    ensures |body[i]| <= |Concat(body)|
    decreases |body|
  {
    if i != 0 {
      PartsFit(body[1..], i - 1);
    }
  }

  lemma {:induction false} CountFits(body: seq<Bytes>)
    requires AllNonEmpty(body)
    ensures |body| <= |Concat(body)|
  {
    if body != [] {
      CountFits(body[1..]);
    }
  }

  lemma {:induction false} PairsFit(keys: seq<Bytes>, values: seq<Bytes>)
    requires |keys| == |values| && AllNonEmpty(keys)
    ensures |keys| <= |Concat(Interleaved(keys, values))|
    decreases |keys|
  {
    if keys != [] {
      PairsFit(keys[1..], values[1..]);
      var rest := Interleaved(keys[1..], values[1..]);
      assert Interleaved(keys, values)[1..] == [values[0]] + rest;
      assert ([values[0]] + rest)[1..] == rest;
    }
  }

  lemma FrameIsMeasurable(c: Command, tagged: bool, tag: nat)
    requires Sendable(c) && |Frame(c, tagged, tag)| <= U64_MAX
    ensures AllMeasurable(c)
  {
    hide Join, FieldsOf, Interleaved;
    var body := BodyOf(c);
    forall i | 0 <= i < |body|
      ensures |body[i]| <= U64_MAX
    {
      PartsFit(body, i);
    }
    if c.MultiGet? || c.MultiTouch? {
      CountFits(c.keys);
      assert body[1..] == c.keys;
    } else if c.MultiSet? {
      PairsFit(c.keys, c.values);
      assert body[1..] == Interleaved(c.keys, c.values);
    }
  }

  /** The node reads back exactly the command and tag the client framed, and leaves what follows. */
  lemma FrameParses(c: Command, tagged: bool, tag: nat, rest: Bytes)
    requires Sendable(c) && tag <= U32_MAX && |Frame(c, tagged, tag)| <= U64_MAX
    ensures Parse(Frame(c, tagged, tag) + rest, tagged) == Done(c, TagOf(tagged, tag), |Frame(c, tagged, tag)|)
  {
    hide Parse, ParseHead, Build, AllMeasurable, FieldsOf, BodyOf, Framed, AllClean, Fits, TagFields, TagOf;
    FrameIsMeasurable(c, tagged, tag);
    HeadReads(c, tagged, tag);
    FieldsAreClean(c, tagged, tag);
    BuildsBack(c, tagged, tag);
    FramedParses(FieldsOf(c) + TagFields(tagged, tag), BodyOf(c), rest, tagged, HeadFor(c, tagged, tag));
  }
}
