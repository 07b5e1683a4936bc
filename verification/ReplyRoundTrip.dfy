/** The client reads back every reply the node encodes, exactly when it is within the client's caps. */
module ReplyRoundTrip {
  import opened Basics
  import opened Decimal
  import opened Text
  import opened Responses
  import opened ResponseReader

  // ---- what the client should see, and when ----

  function SecondsSeen(ttl: Option<nat>): int {
    if ttl.Some? then WireSeconds(ttl.value) else -1
  }

  function HitSeen(entry: MultiEntry): Entry {
    match entry
    case Hit(value) => Entry(value, true, false)
    case Miss => Entry([], false, false)
    case Elsewhere => Entry([], false, true)
  }

  function HitsSeen(entries: seq<MultiEntry>): seq<Entry> {
    if entries == [] then [] else [HitSeen(entries[0])] + HitsSeen(entries[1..])
  }

  function AcksSeen(entries: seq<AckEntry>): seq<Entry> {
    if entries == [] then [] else [Entry([], entries[0].Kept?, !entries[0].Kept?)] + AcksSeen(entries[1..])
  }

  function TouchesSeen(entries: seq<TouchEntry>): seq<Entry> {
    if entries == [] then []
    else [Entry([], entries[0].Refreshed?, entries[0].TouchElsewhere?)] + TouchesSeen(entries[1..])
  }

  function Seen(reply: Responses.Reply): RoundTrip {
    match reply
    case Value(value) => RoundTrip(86, value, -1, [])
    case TouchedValue(value, ttl) => RoundTrip(86, value, SecondsSeen(ttl), [])
    case Incremented(value, ttl) => RoundTrip(73, value, SecondsSeen(ttl), [])
    case Multi(entries) => RoundTrip(77, [], 0, HitsSeen(entries))
    case MultiAck(acks) => RoundTrip(79, [], 0, AcksSeen(acks))
    case MultiTouched(touches) => RoundTrip(89, [], 0, TouchesSeen(touches))
    case _ => RoundTrip(Letter(reply), [], 0, [])
  }

  predicate TtlReadable(ttl: Option<nat>) {
    ttl.Some? ==> WireSeconds(ttl.value) <= I64_MAX
  }

  predicate HitsReadable(entries: seq<MultiEntry>) {
    && (forall i :: 0 <= i < |entries| && entries[i].Hit? ==> |entries[i].value| <= MAX_VALUE_LENGTH)
    && |HitBytes(entries)| <= MAX_MULTI_BYTES
  }

  /** Within the client's caps: the header line, each value, all of a batch's values, a TTL of an int64. */
  predicate Readable(reply: Responses.Reply, tag: Option<nat>) {
    && (ReadsLine(reply, tag) ==> |Line(reply, tag)| <= MAX_LINE)
    && match reply
       case Value(value) => |value| <= MAX_VALUE_LENGTH
       case TouchedValue(value, ttl) => |value| <= MAX_VALUE_LENGTH && TtlReadable(ttl)
       case Incremented(value, ttl) => |value| <= MAX_VALUE_LENGTH && TtlReadable(ttl)
       case Multi(entries) => HitsReadable(entries)
       case _ => true
  }

  /** Whether the reader looks for a header line after the marker at all. */
  predicate ReadsLine(reply: Responses.Reply, tag: Option<nat>) {
    tag.Some? || reply.Value? || reply.TouchedValue? || reply.Incremented? || reply.Multi? || reply.MultiAck?
    || reply.MultiTouched?
  }

  // ---- tokens survive the line ----

  /** A field the reader's split cannot break: not empty, and free of white space. */
  predicate Word(field: Bytes) {
    field != [] && forall i :: 0 <= i < |field| ==> !IsSpace(field[i])
  }

  predicate Words(fields: seq<Bytes>) {
    forall i :: 0 <= i < |fields| ==> Word(fields[i])
  }

  lemma PrintIsWord(n: nat)
    ensures Word(Print(n))
  {
    hide Print;
    assert AllDigits(Print(n));
  }

  lemma {:induction false} TokenStops(word: Bytes, rest: Bytes)
    requires forall i :: 0 <= i < |word| ==> !IsSpace(word[i])
    requires rest == [] || IsSpace(rest[0])
    ensures TokenLength(word + rest) == |word|
  {
    if word != [] {
      assert (word + rest)[1..] == word[1..] + rest;
      TokenStops(word[1..], rest);
    } else {
      assert word + rest == rest;
    }
  }

  lemma {:induction false} TokensOfSpaced(fields: seq<Bytes>)
    requires Words(fields)
    ensures Tokens(Spaced(fields)) == fields
  {
    if fields != [] {
      var s, rest := Spaced(fields), Spaced(fields[1..]);
      assert s[1..] == fields[0] + rest;
      TokenStops(fields[0], rest);
      assert (fields[0] + rest)[..|fields[0]|] == fields[0] && (fields[0] + rest)[|fields[0]|..] == rest;
      assert (fields[0] + rest)[0] == fields[0][0];
      TokensOfSpaced(fields[1..]);
    }
  }

  lemma {:induction false} SpacedHasNoLine(fields: seq<Bytes>)
    requires Words(fields)
    ensures LF !in Spaced(fields)
  {
    if fields != [] {
      SpacedHasNoLine(fields[1..]);
      assert Word(fields[0]);
    }
  }

  lemma FieldsAreWords(reply: Responses.Reply, tag: Option<nat>)
    ensures Words(Responses.Fields(reply) + Responses.TagFields(tag))
  {
    hide Print, Word;
    FieldsOfReplyAreWords(reply);
    if tag.Some? {
      PrintIsWord(tag.value);
    }
  }

  lemma FieldsOfReplyAreWords(reply: Responses.Reply)
    ensures Words(Responses.Fields(reply))
  {
    hide Print;
    match reply
    case Value(value) => PrintIsWord(|value|);
    case TouchedValue(value, ttl) =>
      PrintIsWord(|value|);
      if ttl.Some? { PrintIsWord(WireSeconds(ttl.value)); }
    case Incremented(value, ttl) =>
      PrintIsWord(|value|);
      if ttl.Some? { PrintIsWord(WireSeconds(ttl.value)); }
    case Multi(entries) =>
      PrintIsWord(|entries|);
      forall i | 0 <= i < |entries|
        ensures Word(MultiToken(entries[i]))
      {
        if entries[i].Hit? { PrintIsWord(|entries[i].value|); }
      }
    case MultiAck(acks) => PrintIsWord(|acks|);
    case MultiTouched(touches) => PrintIsWord(|touches|);
    case _ =>
  }

  /** The reader finds exactly the header line. */
  lemma LineReads(line: Bytes, rest: Bytes)
    requires LF !in line
    ensures ReadLine(line + [LF] + rest)
         == if |line| <= MAX_LINE then LineRead(line, |line| + 1) else TooLong
  {
    hide Find;
    var input := line + [LF] + rest;
    assert input[..|line|] == line && input[|line|] == LF;
    FindIs(input, LF, |line|);
  }

  lemma UintReads(n: nat, limit: nat)
    requires limit <= U64_MAX
    ensures StrictUint(Print(n), limit) == if n <= limit then Some(n) else None
  {
    hide Print;
    ValueOfPrint(n);
  }

  // ---- values ----

  lemma ValueReads(value: Bytes, ttl: Option<nat>, tagged: bool, tag: nat, rest: Bytes, marker: byte)
    requires tag <= U32_MAX
    ensures var t := if tagged then Some(tag) else None;
            var line := Spaced([Print(|value|)] + Responses.TtlFields(ttl) + Responses.TagFields(t));
            ReceiveValue(line + [LF] + value + rest, tagged, marker) ==
            if |line| <= MAX_LINE && |value| <= MAX_VALUE_LENGTH && TtlReadable(ttl)
            then Got(RoundTrip(marker, value, SecondsSeen(ttl), []), if tagged then tag else 0,
                     |line| + 1 + |value|)
            else Failed(ResponseReader.Malformed)
  {
    hide Print, Spaced, Tokens, StrictUint, ReadLine, WireSeconds, Word;
    var t := if tagged then Some(tag) else None;
    var fields := [Print(|value|)] + Responses.TtlFields(ttl) + Responses.TagFields(t);
    var line := Spaced(fields);
    var input := line + [LF] + value + rest;
    PrintIsWord(|value|);
    PrintIsWord(tag);
    if ttl.Some? {
      PrintIsWord(WireSeconds(ttl.value));
      UintReads(WireSeconds(ttl.value), I64_MAX);
    }
    SpacedHasNoLine(fields);
    assert input == line + [LF] + (value + rest);
    LineReads(line, value + rest);
    TokensOfSpaced(fields);
    UintReads(|value|, I64_MAX);
    UintReads(tag, U32_MAX);
    assert input[|line| + 1..|line| + 1 + |value|] == value;
  }

  // ---- rosters ----

  lemma RosterReads(tokens: seq<Bytes>, tagged: bool, tag: nat)
    requires tag <= U32_MAX && Words(tokens)
    requires |Spaced([Print(|tokens|)] + tokens + Responses.TagFields(if tagged then Some(tag) else None))| <= MAX_LINE
    ensures RosterHeader(Spaced([Print(|tokens|)] + tokens
                                + Responses.TagFields(if tagged then Some(tag) else None)), tagged)
         == Some((tokens, if tagged then tag else 0))
  {
    hide Print, Spaced, Tokens, StrictUint, Word;
    var t := if tagged then Some(tag) else None;
    var fields := [Print(|tokens|)] + tokens + Responses.TagFields(t);
    PrintIsWord(|tokens|);
    PrintIsWord(tag);
    TokensOfSpaced(fields);
    SpacedSize(fields);
    UintReads(|tokens|, I64_MAX);
    UintReads(tag, U32_MAX);
    assert !tagged ==> fields[1..] == tokens;
    assert fields[1..1 + |tokens|] == tokens;
  }

  lemma {:induction false} SpacedSize(fields: seq<Bytes>)
    ensures |fields| <= |Spaced(fields)|
  {
    if fields != [] {
      SpacedSize(fields[1..]);
    }
  }

  lemma PrintIsNoMark(n: nat)
    ensures Print(n) != [45] && Print(n) != [87]
  {
    hide Print;
    assert AllDigits(Print(n));
    assert !AllDigits([45]) by {
      assert [45 as byte][0] == 45;
    }
    assert !AllDigits([87]) by {
      assert [87 as byte][0] == 87;
    }
  }

  predicate HitsFit(entries: seq<MultiEntry>, total: nat) {
    && (forall i :: 0 <= i < |entries| && entries[i].Hit? ==> |entries[i].value| <= MAX_VALUE_LENGTH)
    && total + |HitBytes(entries)| <= MAX_MULTI_BYTES
  }

  lemma {:induction false} HitsRead(before: Bytes, entries: seq<MultiEntry>, rest: Bytes, total: nat)
    requires total <= MAX_MULTI_BYTES
    ensures ReadHits(before + HitBytes(entries) + rest, |before|, MultiTokens(entries), total) ==
            if HitsFit(entries, total) then Hits(HitsSeen(entries), |before| + |HitBytes(entries)|)
            else BadHits(ResponseReader.Malformed)
    decreases |entries|
  {
    hide Print, StrictUint, ReadHits;
    var input := before + HitBytes(entries) + rest;
    var tokens := MultiTokens(entries);
    if entries == [] {
      AfterHitsAll(input, |before|, [], tokens, total);
      NoHitsRead(input, |before|, tokens, total);
    } else {
      var first, others := entries[0], entries[1..];
      assert tokens[1..] == MultiTokens(others) && tokens[0] == MultiToken(first);
      HitsStep(input, |before|, tokens, total);
      HitsFitStep(entries, total);
      if first.Hit? {
        PrintIsNoMark(|first.value|);
        UintReads(|first.value|, I64_MAX);
        var next := before + first.value;
        assert input == next + HitBytes(others) + rest;
        if |first.value| <= MAX_VALUE_LENGTH && total + |first.value| <= MAX_MULTI_BYTES {
          assert input[|before|..|before| + |first.value|] == first.value;
          HitsRead(next, others, rest, total + |first.value|);
        }
      } else {
        assert input == before + HitBytes(others) + rest;
        HitsRead(before, others, rest, total);
      }
    }
  }

  lemma NoHitsRead(input: Bytes, next: nat, tokens: seq<Bytes>, total: nat)
    requires next <= |input| && tokens == []
    ensures ReadHits(input, next, tokens, total) == Hits([], next)
  {
  }

  lemma HitsFitStep(entries: seq<MultiEntry>, total: nat)
    requires entries != []
    ensures var first, others := entries[0], entries[1..];
            HitsFit(entries, total) <==>
            if first.Hit? then |first.value| <= MAX_VALUE_LENGTH && HitsFit(others, total + |first.value|)
            else HitsFit(others, total)
  {
    assert forall i :: 0 <= i < |entries| - 1 ==> entries[1..][i] == entries[i + 1];
    assert forall i :: 0 < i < |entries| ==> entries[i] == entries[1..][i - 1];
  }

  lemma MultiReads(entries: seq<MultiEntry>, tagged: bool, tag: nat, rest: Bytes)
    requires tag <= U32_MAX
    ensures var t := if tagged then Some(tag) else None;
            var line := Line(Multi(entries), t);
            ReceiveMulti(line + [LF] + HitBytes(entries) + rest, tagged) ==
            if |line| <= MAX_LINE && HitsReadable(entries)
            then Got(Seen(Multi(entries)), if tagged then tag else 0, |line| + 1 + |HitBytes(entries)|)
            else Failed(ResponseReader.Malformed)
  {
    hide Print, Spaced, ReadLine, ReadHits, RosterHeader, HitBytes, MultiTokens, Word, HitsSeen;
    var t := if tagged then Some(tag) else None;
    var tokens := MultiTokens(entries);
    var line := Line(Multi(entries), t);
    var input := line + [LF] + HitBytes(entries) + rest;
    FieldsAreWords(Multi(entries), t);
    FieldsOfReplyAreWords(Multi(entries));
    assert Words(tokens) by {
      WordsAfter(Print(|entries|), tokens);
    }
    SpacedHasNoLine(Responses.Fields(Multi(entries)) + Responses.TagFields(t));
    assert input == line + [LF] + (HitBytes(entries) + rest);
    LineReads(line, HitBytes(entries) + rest);
    if |line| <= MAX_LINE {
      RosterReads(tokens, tagged, tag);
      HitsRead(line + [LF], entries, rest, 0);
    }
  }

  lemma WordsAfter(first: Bytes, rest: seq<Bytes>)
    requires Words([first] + rest)
    ensures Words(rest)
  {
    hide Word;
    forall i | 0 <= i < |rest|
      ensures Word(rest[i])
    {
      assert ([first] + rest)[i + 1] == rest[i];
    }
  }

  lemma {:induction false} AcksRead(acks: seq<AckEntry>)
    ensures AckEntries(AckTokens(acks), false) == Some(AcksSeen(acks))
  {
    if acks != [] {
      assert AckTokens(acks)[1..] == AckTokens(acks[1..]);
      AcksRead(acks[1..]);
    }
  }

  lemma {:induction false} TouchesRead(touches: seq<TouchEntry>)
    ensures AckEntries(TouchTokens(touches), true) == Some(TouchesSeen(touches))
  {
    if touches != [] {
      assert TouchTokens(touches)[1..] == TouchTokens(touches[1..]);
      TouchesRead(touches[1..]);
    }
  }

  lemma RosterReplyReads(reply: Responses.Reply, tagged: bool, tag: nat, rest: Bytes)
    requires tag <= U32_MAX && (reply.MultiAck? || reply.MultiTouched?)
    ensures var t := if tagged then Some(tag) else None;
            var line := Line(reply, t);
            ReceiveAck(line + [LF] + rest, tagged, Letter(reply)) ==
            if |line| <= MAX_LINE then Got(Seen(reply), if tagged then tag else 0, |line| + 1)
            else Failed(ResponseReader.Malformed)
  {
    hide Print, Spaced, ReadLine, RosterHeader, AckEntries, AckTokens, TouchTokens, Word, AcksSeen, TouchesSeen;
    var t := if tagged then Some(tag) else None;
    var tokens := if reply.MultiAck? then AckTokens(reply.acks) else TouchTokens(reply.touches);
    var line := Line(reply, t);
    FieldsAreWords(reply, t);
    FieldsOfReplyAreWords(reply);
    assert Words(tokens) by {
      WordsAfter(Print(|tokens|), tokens);
    }
    SpacedHasNoLine(Responses.Fields(reply) + Responses.TagFields(t));
    LineReads(line, rest);
    if |line| <= MAX_LINE {
      RosterReads(tokens, tagged, tag);
      if reply.MultiAck? {
        AcksRead(reply.acks);
      } else {
        TouchesRead(reply.touches);
      }
    }
  }

  lemma StatusReads(marker: byte, tagged: bool, tag: nat, rest: Bytes)
    requires tag <= U32_MAX
    ensures var t := if tagged then Some(tag) else None;
            var line := Spaced(Responses.TagFields(t));
            |line| <= MAX_LINE
            && ReceiveStatus(line + [LF] + rest, tagged, marker)
               == Got(RoundTrip(marker, [], 0, []), if tagged then tag else 0, |line| + 1)
  {
    hide Print, Spaced, ReadLine, StrictUint;
    if tagged {
      var line := [SP] + Print(tag);
      OneField(Print(tag));
      PrintIsWord(tag);
      assert Words([Print(tag)]);
      SpacedHasNoLine([Print(tag)]);
      LineReads(line, rest);
      UintReads(tag, U32_MAX);
      TagIsShort(tag);
      assert line[1..] == Print(tag);
    } else {
      NoFields();
    }
  }

  lemma TagIsShort(tag: nat)
    requires tag <= U32_MAX
    ensures |Print(tag)| <= 10
  {
    assert TenTo(5) == 100000;
    assert TenTo(10) == 100000 * 100000;
    PrintSize(tag, 10);
  }

  /**
   The client reads back exactly what the node answered, with its tag, and leaves the stream at the next
   reply; a reply over one of its caps, and only such a one, is refused as malformed.
   */
  lemma ReplyReads(reply: Responses.Reply, tagged: bool, tag: nat, rest: Bytes)
    requires tag <= U32_MAX
    ensures var t := if tagged && Taggable(reply) then Some(tag) else None;
            Receive(Encoded(reply, t) + rest, tagged) ==
            if reply.Rejected? then Failed(Refused)
            else if Readable(reply, t) then Got(Seen(reply), if t.Some? then tag else 0, |Encoded(reply, t)|)
            else Failed(ResponseReader.Malformed)
  {
    hide Print, Spaced, ReceiveValue, ReceiveMulti, ReceiveAck, ReceiveStatus, HitBytes, MultiTokens, AckTokens,
      TouchTokens, HitsSeen, AcksSeen, TouchesSeen, HitsReadable;
    var t := if tagged && Taggable(reply) then Some(tag) else None;
    var all := Encoded(reply, t) + rest;
    var after := Line(reply, t) + [LF] + Body(reply) + rest;
    assert all[0] == Letter(reply) && all[1..] == after;
    if reply.Value? || reply.TouchedValue? || reply.Incremented? {
      ValueReplyReads(reply, tagged, tag, rest);
    } else if reply.Multi? {
      MultiReads(reply.entries, tagged, tag, rest);
    } else if reply.MultiAck? || reply.MultiTouched? {
      assert Line(reply, t) + [LF] + [] == Line(reply, t) + [LF];
      RosterReplyReads(reply, tagged, tag, rest);
    } else if !reply.Rejected? {
      PlainReads(reply, tagged, tag, rest);
    }
  }

  lemma ValueReplyReads(reply: Responses.Reply, tagged: bool, tag: nat, rest: Bytes)
    requires tag <= U32_MAX && (reply.Value? || reply.TouchedValue? || reply.Incremented?)
    ensures var t := if tagged then Some(tag) else None;
            Receive(Encoded(reply, t) + rest, tagged) ==
            if Readable(reply, t) then Got(Seen(reply), if tagged then tag else 0, |Encoded(reply, t)|)
            else Failed(ResponseReader.Malformed)
  {
    hide Print, Spaced, ReceiveValue, ReceiveMulti, ReceiveAck, ReceiveStatus, WireSeconds;
    var t := if tagged then Some(tag) else None;
    var ttl := if reply.Value? then None else reply.ttl;
    assert reply.Value? ==> [Print(|reply.value|)] + Responses.TtlFields(None) == [Print(|reply.value|)];
    assert (Encoded(reply, t) + rest)[1..] == Line(reply, t) + [LF] + reply.value + rest;
    ValueReads(reply.value, ttl, tagged, tag, rest, Letter(reply));
  }

  lemma PlainReads(reply: Responses.Reply, tagged: bool, tag: nat, rest: Bytes)
    requires tag <= U32_MAX && Responses.Fields(reply) == [] && Body(reply) == [] && !reply.Rejected?
    requires !reply.Value? && !reply.TouchedValue? && !reply.Incremented? && !reply.Multi? && !reply.MultiAck?
             && !reply.MultiTouched?
    ensures var t := if tagged && Taggable(reply) then Some(tag) else None;
            Receive(Encoded(reply, t) + rest, tagged) ==
            if Readable(reply, t) then Got(Seen(reply), if t.Some? then tag else 0, |Encoded(reply, t)|)
            else Failed(ResponseReader.Malformed)
  {
    hide Print, Spaced, ReceiveValue, ReceiveMulti, ReceiveAck, ReceiveStatus;
    var t := if tagged && Taggable(reply) then Some(tag) else None;
    var all := Encoded(reply, t) + rest;
    assert Responses.Fields(reply) + Responses.TagFields(t) == Responses.TagFields(t);
    assert all[1..] == Line(reply, t) + [LF] + rest;
    StatusReads(Letter(reply), t.Some?, tag, rest);
  }

  // ---- a stream of replies ----

  /** A reply and the tag it echoes. */
  datatype Answered = Answered(reply: Responses.Reply, tag: nat)

  datatype Arrival = Arrival(result: RoundTrip, tag: nat)

  function TagOf(reply: Responses.Reply, tagged: bool, tag: nat): Option<nat> {
    if tagged && Taggable(reply) then Some(tag) else None
  }

  predicate AllReadable(answers: seq<Answered>, tagged: bool) {
    forall i :: 0 <= i < |answers| ==>
      && answers[i].tag <= U32_MAX
      && !answers[i].reply.Rejected?
      && Readable(answers[i].reply, TagOf(answers[i].reply, tagged, answers[i].tag))
  }

  function StreamOf(answers: seq<Answered>, tagged: bool): Bytes {
    if answers == [] then []
    else Encoded(answers[0].reply, TagOf(answers[0].reply, tagged, answers[0].tag)) + StreamOf(answers[1..], tagged)
  }

  function SeenOf(answers: seq<Answered>, tagged: bool): seq<Arrival> {
    if answers == [] then []
    else [Arrival(Seen(answers[0].reply),
                  if TagOf(answers[0].reply, tagged, answers[0].tag).Some? then answers[0].tag else 0)]
         + SeenOf(answers[1..], tagged)
  }

  /** Everything that can be read off `input`, in order, and what stopped it. */
  function ReceiveAll(input: Bytes, tagged: bool): (seq<Arrival>, Failure, Bytes)
    decreases |input|
  {
    match Receive(input, tagged)
    case Failed(f) => ([], f, input)
    case Got(result, tag, used) =>
      var (rest, f, left) := ReceiveAll(input[used..], tagged);
      ([Arrival(result, tag)] + rest, f, left)
  }

  /** Replies sent back to back are received back to back: all of them, in order, down to the last byte. */
  lemma {:induction false} StreamReads(answers: seq<Answered>, tagged: bool, rest: Bytes)
    requires AllReadable(answers, tagged)
    ensures ReceiveAll(StreamOf(answers, tagged) + rest, tagged) ==
            var (more, f, left) := ReceiveAll(rest, tagged); (SeenOf(answers, tagged) + more, f, left)
    decreases |answers|
  {
    hide Receive, Encoded, Seen, Readable;
    if answers == [] {
      assert StreamOf(answers, tagged) + rest == rest;
      assert [] + ReceiveAll(rest, tagged).0 == ReceiveAll(rest, tagged).0;
    } else {
      var first, others := answers[0], answers[1..];
      var frame := Encoded(first.reply, TagOf(first.reply, tagged, first.tag));
      var tail := StreamOf(others, tagged) + rest;
      assert StreamOf(answers, tagged) + rest == frame + tail;
      ReplyReads(first.reply, tagged, first.tag, tail);
      assert (frame + tail)[|frame|..] == tail;
      StreamReads(others, tagged, rest);
      assert forall x: seq<Arrival>, a: Arrival, y: seq<Arrival> {:trigger [a] + (x + y)} ::
          [a] + (x + y) == [a] + x + y;
    }
  }
}
