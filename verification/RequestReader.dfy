/**
 The node's resumable parser: it remembers how far it got in a request that is still arriving,
 and asks for large multi-key requests to be paid for before it builds them.
 */
module RequestReader {
  import opened Basics
  import opened Decimal
  import opened Text
  import opened Wire

  /** What the scan of an unfinished request has established. */
  datatype Progress = Progress(
    headerEnd: nat,
    joinedCount: nat,
    cursor: nat,
    entriesDone: nat,
    lineEnd: Option<nat>,
    lineScannedTo: nat,
    frameEnd: Option<nat>,
    frameKeys: nat)

  const NO_PROGRESS := Progress(0, 0, 0, 0, None, 0, None, 0)

  datatype Answer =
    | Parsed(command: Command, tag: Option<nat>)
    | Refused(error: Error)
    | Incomplete
    | ChargeRequired(keys: nat, values: bool, frameLen: nat)

  predicate MultiCommand(c: Command) {
    c.MultiGet? || c.MultiTouch? || c.MultiSet?
  }

  /** The one-shot outcome as the reader reports it. */
  function Report(outcome: Outcome, charged: bool): Answer {
    match outcome
    case More => Incomplete
    case Bad(e, _) => Refused(e)
    case Done(command, tag, used) =>
      if !charged && MultiCommand(command)
      then ChargeRequired(|command.keys|, command.MultiSet?, used)
      else Parsed(command, tag)
  }

  /** How many bytes a report has taken from the buffer. */
  function Taken(outcome: Outcome, charged: bool): nat {
    if outcome.More? || Report(outcome, charged).ChargeRequired? then 0 else outcome.used
  }

  function HeadOf(input: Bytes, tagged: bool): (r: Result<Head>)
    requires Find(input, LF).Some?
    ensures r.Ok? ==> Fits(r.value)
  {
    ParseHead(Split(input[..Find(input, LF).value], SP), tagged)
  }

  function BodyStart(input: Bytes): nat
    requires Find(input, LF).Some?
  {
    Find(input, LF).value + 1
  }

  ghost predicate LineOk(p: Progress, input: Bytes) {
    && p.lineScannedTo <= |input|
    && LF !in input[..p.lineScannedTo]
    && (p.lineEnd.Some? ==> Find(input, LF) == p.lineEnd)
  }

  ghost predicate FrameOk(p: Progress, input: Bytes, tagged: bool) {
    p.frameEnd.Some? ==>
      && Find(input, LF).Some?
      && HeadOf(input, tagged).Ok?
      && var head := HeadOf(input, tagged).value;
         && MultiKey(head.shape)
         && p.frameEnd.value == BodyStart(input) + Total(head.lengths) <= U64_MAX
         && p.frameKeys == KeyCount(head)
  }

  ghost predicate RosterOk(p: Progress, input: Bytes, tagged: bool) {
    p.cursor != 0 ==>
      && Find(input, LF) == Some(p.headerEnd)
      && HeadOf(input, tagged).Ok?
      && var head := HeadOf(input, tagged).value;
         var start := BodyStart(input) + Total(head.lengths);
         && head.shape.MigrateShape?
         && head.shape.joinedCount == p.joinedCount
         && p.entriesDone <= p.joinedCount
         && start <= p.cursor <= |input|
         && Roster(input, start, p.entriesDone).Found?
         && Roster(input, start, p.entriesDone).end == p.cursor
  }

  /** The remembered progress is true of the buffer. */
  ghost predicate ProgressOk(p: Progress, input: Bytes, tagged: bool) {
    LineOk(p, input) && FrameOk(p, input, tagged) && RosterOk(p, input, tagged)
  }

  lemma NoProgressOk(input: Bytes, tagged: bool)
    ensures ProgressOk(NO_PROGRESS, input, tagged)
  {
  }

  lemma HeadStable(input: Bytes, more: Bytes, tagged: bool)
    requires Find(input, LF).Some?
    ensures Find(input + more, LF) == Find(input, LF)
    ensures HeadOf(input + more, tagged) == HeadOf(input, tagged)
    ensures BodyStart(input + more) == BodyStart(input)
  {
    hide ParseHead, Split, Find;
    FindStable(input, LF, more);
    var e := Find(input, LF).value;
    assert (input + more)[..e] == input[..e];
  }

  /** Bytes arriving behind it do not invalidate the progress. */
  lemma ProgressStable(p: Progress, input: Bytes, more: Bytes, tagged: bool)
    requires ProgressOk(p, input, tagged)
    ensures ProgressOk(p, input + more, tagged)
  {
    hide HeadOf, Find, Roster;
    assert (input + more)[..p.lineScannedTo] == input[..p.lineScannedTo];
    if Find(input, LF).Some? {
      HeadStable(input, more, tagged);
      if p.cursor != 0 {
        RosterStable(input, more, BodyStart(input) + Total(HeadOf(input, tagged).value.lengths), p.entriesDone);
      }
    }
  }

  // ---- loops over header fields ----

  function Prepend(done: seq<nat>, rest: Result<seq<nat>>): Result<seq<nat>> {
    match rest
    case Ok(more) => Ok(done + more)
    case Fail(e) => Fail(e)
  }

  lemma PrependNothing(rest: Result<seq<nat>>)
    ensures Prepend([], rest) == rest
  {
    if rest.Ok? {
      assert [] + rest.value == rest.value;
    }
  }

  lemma PrependMore(done: seq<nat>, next: seq<nat>, rest: Result<seq<nat>>)
    ensures Prepend(done, Prepend(next, rest)) == Prepend(done + next, rest)
    ensures Prepend(done, Ok([])) == Ok(done)
  {
    assert done + [] == done;
    if rest.Ok? {
      assert done + (next + rest.value) == (done + next) + rest.value;
    }
  }

  method ReadKeyLengths(parts: seq<Bytes>, at: nat, count: nat) returns (r: Result<seq<nat>>)
    ensures r == KeyLengths(parts, at, count)
  {
    var lengths: seq<nat> := [];
    PrependNothing(KeyLengths(parts, at, count));
    for i := 0 to count
      invariant |lengths| == i
      invariant KeyLengths(parts, at, count) == Prepend(lengths, KeyLengths(parts, at + i, count - i))
    {
      if at + i >= |parts| {
        return Fail(InvalidLength);
      }
      var length := ReadLength(parts[at + i]);
      if length.None? {
        return Fail(InvalidLength);
      }
      if length.value == 0 {
        return Fail(EmptyKey);
      }
      PrependMore(lengths, [length.value], KeyLengths(parts, at + i + 1, count - i - 1));
      lengths := lengths + [length.value];
    }
    PrependMore(lengths, [], Ok([]));
    return Ok(lengths);
  }

  method ReadPairLengths(parts: seq<Bytes>, at: nat, count: nat) returns (r: Result<seq<nat>>)
    ensures r == PairLengths(parts, at, count)
  {
    var lengths: seq<nat> := [];
    PrependNothing(PairLengths(parts, at, count));
    for i := 0 to count
      invariant |lengths| == 2 * i
      invariant PairLengths(parts, at, count) == Prepend(lengths, PairLengths(parts, at + 2 * i, count - i))
    {
      if at + 2 * i >= |parts| {
        return Fail(InvalidLength);
      }
      var key := ReadLength(parts[at + 2 * i]);
      if key.None? || at + 2 * i + 1 >= |parts| {
        return Fail(InvalidLength);
      }
      var value := ReadLength(parts[at + 2 * i + 1]);
      if value.None? {
        return Fail(InvalidLength);
      }
      if key.value == 0 {
        return Fail(EmptyKey);
      }
      var pair := [key.value, value.value];
      PrependMore(lengths, pair, PairLengths(parts, at + 2 * i + 2, count - i - 1));
      lengths := lengths + pair;
    }
    PrependMore(lengths, [], Ok([]));
    return Ok(lengths);
  }

  /** The header, with the per-key fields of the multi-key commands read one by one. */
  method ReadHead(parts: seq<Bytes>, tagged: bool) returns (r: Result<Head>)
    requires |parts| >= 1
    ensures r == ParseHead(parts, tagged)
  {
    hide TouchTail, TtlAndTag, TrailingTag, KeyLengths, PairLengths, LengthAt;
    if parts[0] == [109] || parts[0] == [121] {
      var ns, count := LengthAt(parts, 1), LengthAt(parts, 2);
      if ns.Fail? {
        return Fail(ns.error);
      }
      if count.Fail? {
        return Fail(count.error);
      }
      if count.value == 0 {
        return Fail(InvalidLength);
      }
      var keys := ReadKeyLengths(parts, 3, count.value);
      if keys.Fail? {
        return Fail(keys.error);
      }
      if parts[0] == [109] {
        var tag := TrailingTag(parts, 3 + count.value, tagged);
        if tag.Fail? {
          return Fail(tag.error);
        }
        if EndsAt(parts, 3 + count.value, tagged).Stop? {
          return Fail(InvalidLength);
        }
        return Ok(Head(MultiGetShape, tag.value, [ns.value] + keys.value));
      }
      var tail := TouchTail(parts[3 + count.value..], tagged);
      if tail.Fail? {
        return Fail(tail.error);
      }
      return Ok(Head(MultiTouchShape(tail.value.0, tail.value.1), tail.value.2, [ns.value] + keys.value));
    }
    if parts[0] == [111] {
      var ns, count := LengthAt(parts, 1), LengthAt(parts, 2);
      if ns.Fail? {
        return Fail(ns.error);
      }
      if count.Fail? {
        return Fail(count.error);
      }
      if count.value == 0 {
        return Fail(InvalidLength);
      }
      var pairs := ReadPairLengths(parts, 3, count.value);
      if pairs.Fail? {
        return Fail(pairs.error);
      }
      var tail := TtlAndTag(parts, 3 + 2 * count.value, tagged);
      if tail.Fail? {
        return Fail(tail.error);
      }
      var ttl := OptionalLength(tail.value.0);
      if ttl.Fail? {
        return Fail(ttl.error);
      }
      return Ok(Head(MultiSetShape(ttl.value), tail.value.1, [ns.value] + pairs.value));
    }
    return ParseHead(parts, tagged);
  }

  /** Where the body ends, or nothing when the offset overflows. */
  method AddLengths(start: nat, lengths: seq<nat>) returns (end: Option<nat>)
    requires start <= U64_MAX
    ensures end == if start + Total(lengths) > U64_MAX then None else Some(start + Total(lengths))
  {
    var cursor := start;
    for i := 0 to |lengths|
      invariant cursor + Total(lengths[i..]) == start + Total(lengths)
      invariant cursor <= U64_MAX
    {
      assert lengths[i..][1..] == lengths[i + 1..];
      cursor := cursor + lengths[i];
      if cursor > U64_MAX {
        return None;
      }
    }
    return Some(cursor);
  }

  // ---- the roster scan ----

  lemma {:induction false} RosterSplit(input: Bytes, cursor: nat, done: nat, count: nat)
    requires cursor <= |input| && done <= count && Roster(input, cursor, done).Found?
    ensures var first := Roster(input, cursor, done);
            Roster(input, cursor, count) ==
            match Roster(input, first.end, count - done)
            case Found(rest, end) => Found(first.value + rest, end)
            case Hungry => Hungry
            case Broken(e) => Broken(e)
    decreases done
  {
    hide NextEntry;
    if done == 0 {
      match Roster(input, cursor, count) {
        case Found(all, _) => assert [] + all == all;
        case _ =>
      }
    } else {
      match NextEntry(input, cursor)
      case Found(m, next) =>
        RosterSplit(input, next, done - 1, count - 1);
        var first, tail := Roster(input, next, done - 1), Roster(input, next, count - 1);
        match Roster(input, first.end, count - done) {
          case Found(rest, end) => assert [m] + (first.value + rest) == ([m] + first.value) + rest;
          case _ =>
        }
    }
  }

  /** An entry found in the buffer is found in any part of it that holds the entry. */
  lemma NextEntryWithin(input: Bytes, cursor: nat, n: nat)
    requires cursor <= |input| && NextEntry(input, cursor).Found? && NextEntry(input, cursor).end <= n <= |input|
    ensures NextEntry(input[..n], cursor) == NextEntry(input, cursor)
  {
    hide EntryLengths, Split, Find;
    var part := input[..n];
    var limit := cursor + MAX_ROSTER_LINE_LEN + 1;
    var w, v := if |input| < limit then |input| else limit, if n < limit then n else limit;
    var offset := Find(input[cursor..w], LF).value;
    SliceOfPart(input, n, cursor, v);
    FindInWindow(input, cursor, v, w);
    SliceOfPart(input, n, cursor, cursor + offset);
    var lengths := EntryLengths(Split(input[cursor..cursor + offset], SP)).value;
    var start := cursor + offset + 1;
    SliceOfPart(input, n, start, start + lengths.0);
    SliceOfPart(input, n, start + lengths.0, start + lengths.0 + lengths.1);
  }

  /** A smaller window that still holds the first line end finds it in the same place. */
  lemma FindInWindow(input: Bytes, cursor: nat, v: nat, w: nat)
    requires cursor <= v <= w <= |input|
    requires Find(input[cursor..w], LF).Some? && cursor + Find(input[cursor..w], LF).value < v
    ensures Find(input[cursor..v], LF) == Find(input[cursor..w], LF)
  {
    hide Find;
    var wide, narrow := input[cursor..w], input[cursor..v];
    var offset := Find(wide, LF).value;
    assert narrow[..offset] == wide[..offset] && narrow[offset] == wide[offset];
    FindIs(narrow, LF, offset);
  }

  lemma SliceOfPart(input: Bytes, n: nat, a: nat, b: nat)
    requires a <= b <= n <= |input|
    ensures input[..n][a..b] == input[a..b]
  {
  }

  class Reader {
    var input: Bytes
    var progress: Progress

    constructor ()
      ensures input == [] && progress == NO_PROGRESS
      ensures forall tagged :: ProgressOk(progress, input, tagged)
    {
      input := [];
      progress := NO_PROGRESS;
    }

    /** More bytes have been read from the socket. */
    method Append(chunk: Bytes, ghost tagged: bool)
      requires ProgressOk(progress, input, tagged)
      modifies this
      ensures input == old(input) + chunk && progress == old(progress)
      ensures ProgressOk(progress, input, tagged)
    {
      ProgressStable(progress, input, chunk, tagged);
      input := input + chunk;
    }

    /** The header line's end, looking only at bytes not looked at before. */
    method FindHeaderLineEnd() returns (end: Option<nat>)
      requires LineOk(progress, input)
      modifies this`progress
      ensures end == Find(input, LF)
      ensures LineOk(progress, input)
      ensures progress == old(progress).(lineEnd := progress.lineEnd, lineScannedTo := progress.lineScannedTo)
    {
      hide Find;
      if progress.lineEnd.Some? && |input| > progress.lineEnd.value {
        return progress.lineEnd;
      }
      var start := if progress.lineScannedTo < |input| then progress.lineScannedTo else |input|;
      var i := start;
      while i < |input| && input[i] != LF
        invariant start <= i <= |input|
        invariant LF !in input[..i]
      {
        assert input[..i + 1] == input[..i] + [input[i]];
        i := i + 1;
      }
      if i < |input| {
        FindIs(input, LF, i);
        progress := progress.(lineEnd := Some(i));
        return Some(i);
      }
      assert input[..i] == input;
      FindNone(input, LF);
      progress := progress.(lineScannedTo := |input|);
      return None;
    }

    /** Whether a multi-key frame of known length can be built now; `None` to go ahead. */
    method MultiFrameGate(charged: bool, values: bool) returns (stop: Option<Answer>)
      ensures stop == (if progress.frameEnd.None? then None
                       else if |input| < progress.frameEnd.value then Some(Incomplete)
                       else if charged then None
                       else Some(ChargeRequired(progress.frameKeys, values, progress.frameEnd.value)))
    {
      if progress.frameEnd.None? {
        return None;
      }
      if |input| < progress.frameEnd.value {
        return Some(Incomplete);
      }
      if charged {
        return None;
      }
      return Some(ChargeRequired(progress.frameKeys, values, progress.frameEnd.value));
    }

    /** An `M` request: the fixed fields, then the roster, from wherever the last scan stopped. */
    method ParseMigrate(headerEnd: nat, head: Head, ghost tagged: bool) returns (a: Answer)
      requires Find(input, LF) == Some(headerEnd) && HeadOf(input, tagged) == Ok(head) && head.shape.MigrateShape?
      requires ProgressOk(progress, input, tagged) && headerEnd < U64_MAX
      modifies this
      ensures var outcome := ParseBody(old(input), headerEnd, head);
              && a == Report(outcome, true)
              && input == old(input)[Taken(outcome, true)..]
              && (outcome.More? ==> ProgressOk(progress, input, tagged))
    {
      hide Find, HeadOf, Roster, NextEntry, AllUtf8, RosterUtf8, Fields;
      ghost var was := input;
      var count := head.shape.joinedCount;
      var end := AddLengths(headerEnd + 1, head.lengths);
      if end.None? {
        return Refused(InvalidLength);
      }
      var start := end.value;
      if |input| < start {
        return Incomplete;
      }
      var resumable := progress.headerEnd == headerEnd && progress.joinedCount == count && progress.cursor >= start
        && progress.entriesDone <= count && |input| >= progress.cursor;
      var cursor, done := start, 0;
      if resumable {
        cursor, done := progress.cursor, progress.entriesDone;
      }
      RosterOfNone(input, start);
      progress := Progress(headerEnd, count, cursor, done, Some(headerEnd), progress.lineScannedTo, None, 0);
      var stop := ScanRoster(start, count, tagged);
      if stop.Some? {
        return stop.value;
      }
      cursor := progress.cursor;
      var frame := input[..cursor];
      input := input[cursor..];
      RosterWithin(was, start, count, cursor);
      FieldsWithin(was, cursor, headerEnd + 1, head.lengths);
      var fields := Fields(frame, headerEnd + 1, head.lengths);
      if !AllUtf8(fields) {
        return Refused(InvalidUtf8);
      }
      var members := DecodeRoster(frame, start, count);
      if members.Fail? {
        return Refused(members.error);
      }
      return Parsed(Migrate(fields[0], fields[1], fields[2], fields[3], members.value, head.shape.replication,
                            head.shape.generation), None);
    }

    /** Advances over every entry that is complete; what got confirmed stays confirmed. */
    method ScanRoster(start: nat, count: nat, ghost tagged: bool) returns (stop: Option<Answer>)
      requires ProgressOk(progress, input, tagged)
      requires 0 < start <= progress.cursor && progress.joinedCount == count
      requires HeadOf(input, tagged).Ok? && start == BodyStart(input) + Total(HeadOf(input, tagged).value.lengths)
      modifies this`progress
      ensures ProgressOk(progress, input, tagged)
      ensures match Roster(input, start, count)
              case Hungry => stop == Some(Incomplete)
              case Broken(e) => stop == Some(Refused(e))
              case Found(_, end) => stop == None && progress.cursor == end
    {
      hide Find, HeadOf, Roster, NextEntry;
      while progress.entriesDone < count
        invariant progress.joinedCount == count && progress.cursor >= start
        invariant ProgressOk(progress, input, tagged)
        decreases count - progress.entriesDone
      {
        RosterSplit(input, start, progress.entriesDone, count);
        RosterSplit(input, start, progress.entriesDone, progress.entriesDone + 1);
        RosterNext(input, progress.cursor, count - progress.entriesDone);
        var entry := NextEntry(input, progress.cursor);
        if entry.Hungry? {
          return Some(Incomplete);
        }
        if entry.Broken? {
          return Some(Refused(entry.error));
        }
        progress := progress.(cursor := entry.end, entriesDone := progress.entriesDone + 1);
      }
      return None;
    }

    /** The roster read a second time, from the consumed frame, into text. */
    static method DecodeRoster(frame: Bytes, start: nat, count: nat) returns (r: Result<seq<Member>>)
      requires start <= |frame| && Roster(frame, start, count).Found?
      ensures var joined := Roster(frame, start, count).value;
              r == if RosterUtf8(joined) then Ok(joined) else Fail(InvalidUtf8)
    {
      hide NextEntry, Roster;
      var joined: seq<Member> := [];
      var at: nat := start;
      RosterOfNone(frame, start);
      for i := 0 to count
        invariant at <= |frame| && Roster(frame, start, i) == Found(joined, at)
        invariant RosterUtf8(joined)
      {
        RosterSplit(frame, start, i, count);
        RosterSplit(frame, start, i, i + 1);
        RosterNext(frame, at, count - i);
        var entry := NextEntry(frame, at);
        assert Roster(frame, start, count).value[i] == entry.value;
        if !ValidUtf8(entry.value.name) || !ValidUtf8(entry.value.addr) {
          return Fail(InvalidUtf8);
        }
        joined := joined + [entry.value];
        at := entry.end;
      }
      return Ok(joined);
    }

    method ParseWithMode(tagged: bool, charged: bool) returns (a: Answer)
      requires ProgressOk(progress, input, tagged) && |input| <= U64_MAX
      modifies this
      ensures var outcome := Parse(old(input), tagged);
              && a == Report(outcome, charged)
              && input == old(input)[Taken(outcome, charged)..]
              && (a.Incomplete? || a.ChargeRequired? ==> ProgressOk(progress, input, tagged))
    {
      hide Find, ParseHead, Split, Roster, Fields, Build, ParseBody;
      var line := FindHeaderLineEnd();
      if line.None? {
        return Incomplete;
      }
      var headerEnd := line.value;
      var parts := Split(input[..headerEnd], SP);
      var multi := parts[0] == [109] || parts[0] == [121] || parts[0] == [111];
      if progress.frameEnd.Some? {
        FrameIsMulti(input, tagged);
        FrameOutcome(input, headerEnd, HeadOf(input, tagged).value);
      }
      if multi {
        var stop := MultiFrameGate(charged, parts[0] == [111]);
        if stop.Some? {
          return stop.value;
        }
      }
      var parsed := ReadHead(parts, tagged);
      if parsed.Fail? {
        return Refused(parsed.error);
      }
      var head := parsed.value;
      FrameIsMulti(input, tagged);
      if head.shape.MigrateShape? {
        a := ParseMigrate(headerEnd, head, tagged);
        MigrateIsNotMulti(old(input), headerEnd, head, charged);
      } else {
        a := TakeFrame(headerEnd, head, tagged, charged);
      }
    }

    /** A request whose body is a row of fixed-length fields: gated if it has many keys, then consumed whole. */
    method TakeFrame(headerEnd: nat, head: Head, ghost tagged: bool, charged: bool) returns (a: Answer)
      requires Find(input, LF) == Some(headerEnd) && HeadOf(input, tagged) == Ok(head) && !head.shape.MigrateShape?
      requires LineOk(progress, input) && RosterOk(progress, input, tagged) && FrameOk(progress, input, tagged)
      requires headerEnd < U64_MAX
      modifies this
      ensures var outcome := ParseBody(old(input), headerEnd, head);
              && a == Report(outcome, charged)
              && input == old(input)[Taken(outcome, charged)..]
              && (a.Incomplete? || a.ChargeRequired? ==> ProgressOk(progress, input, tagged))
    {
      hide Find, HeadOf, Fields, Build, ParseBody, RosterOk, LineOk, Fits;
      FrameOutcome(input, headerEnd, head);
      var end := AddLengths(headerEnd + 1, head.lengths);
      if end.None? {
        return Refused(InvalidLength);
      }
      if MultiKey(head.shape) {
        NoteFrame(end, KeyCount(head), tagged);
        var stop := MultiFrameGate(charged, head.shape.MultiSetShape?);
        if stop.Some? {
          return stop.value;
        }
      }
      if |input| < end.value {
        return Incomplete;
      }
      var frame := input[..end.value];
      FieldsWithin(input, end.value, headerEnd + 1, head.lengths);
      input := input[end.value..];
      var built := Build(head, Fields(frame, headerEnd + 1, head.lengths));
      if built.Fail? {
        return Refused(built.error);
      }
      return Parsed(built.value, head.tag);
    }

    method NoteFrame(end: Option<nat>, keys: nat, ghost tagged: bool)
      requires LineOk(progress, input) && RosterOk(progress, input, tagged)
      modifies this`progress
      ensures progress == old(progress).(frameEnd := end, frameKeys := keys)
      ensures LineOk(progress, input) && RosterOk(progress, input, tagged)
    {
      hide Find, HeadOf, Roster;
      progress := progress.(frameEnd := end, frameKeys := keys);
    }

    /** The reader's entry point: progress survives only an unfinished or unpaid request. */
    method ParseResumable(tagged: bool, charged: bool) returns (a: Answer)
      requires ProgressOk(progress, input, tagged) && |input| <= U64_MAX
      modifies this
      ensures var outcome := Parse(old(input), tagged);
              && a == Report(outcome, charged)
              && input == old(input)[Taken(outcome, charged)..]
      ensures a.Incomplete? || a.ChargeRequired? ==> input == old(input) && ProgressOk(progress, input, tagged)
      ensures !a.Incomplete? && !a.ChargeRequired? ==> progress == NO_PROGRESS
      ensures a.Parsed? && !charged ==>
                !a.command.MultiGet? && !a.command.MultiTouch? && !a.command.MultiSet?
      ensures a.ChargeRequired? ==>
                var outcome := Parse(old(input), tagged);
                && !charged && outcome.Done?
                && (match outcome.command
                    case MultiGet(_, keys) => a.keys == |keys| && !a.values
                    case MultiTouch(_, keys, _, _) => a.keys == |keys| && !a.values
                    case MultiSet(_, keys, _, _) => a.keys == |keys| && a.values
                    case _ => false)
                && a.frameLen == outcome.used
    {
      hide ProgressOk, Parse;
      a := ParseWithMode(tagged, charged);
      if !a.Incomplete? && !a.ChargeRequired? {
        progress := NO_PROGRESS;
      }
    }
  }

  lemma RosterOfNone(input: Bytes, cursor: nat)
    requires cursor <= |input|
    ensures Roster(input, cursor, 0) == Found([], cursor)
  {
  }

  lemma RosterNext(input: Bytes, cursor: nat, count: nat)
    requires cursor <= |input| && count > 0
    ensures var entry := NextEntry(input, cursor);
            && (entry.Hungry? ==> Roster(input, cursor, count).Hungry?)
            && (entry.Broken? ==> Roster(input, cursor, count) == Broken(entry.error))
            && (Roster(input, cursor, count).Found? ==>
                  entry.Found? && Roster(input, cursor, count).value[0] == entry.value)
            && (entry.Found? ==> Roster(input, cursor, 1) == Found([entry.value], entry.end))
  {
    hide NextEntry;
    var entry := NextEntry(input, cursor);
    if entry.Found? {
      RosterOfNone(input, entry.end);
      assert [entry.value] + [] == [entry.value];
    }
  }

  lemma {:induction false} RosterWithin(input: Bytes, cursor: nat, count: nat, n: nat)
    requires cursor <= |input| && Roster(input, cursor, count).Found?
              && Roster(input, cursor, count).end <= n <= |input|
    ensures Roster(input[..n], cursor, count) == Roster(input, cursor, count)
    decreases count
  {
    hide NextEntry;
    if count != 0 {
      NextEntryWithin(input, cursor, n);
      RosterWithin(input, NextEntry(input, cursor).end, count - 1, n);
    }
  }

  lemma {:induction false} FieldsWithin(input: Bytes, n: nat, start: nat, lengths: seq<nat>)
    requires start + Total(lengths) <= n <= |input|
    ensures Fields(input[..n], start, lengths) == Fields(input, start, lengths)
    decreases |lengths|
  {
    if lengths != [] {
      assert input[..n][start..start + lengths[0]] == input[start..start + lengths[0]];
      FieldsWithin(input, n, start + lengths[0], lengths[1..]);
    }
  }

  /** Exactly the letters `m`, `y` and `o` lead to multi-key heads, and only `o` carries values. */
  lemma FrameIsMulti(input: Bytes, tagged: bool)
    requires Find(input, LF).Some? && HeadOf(input, tagged).Ok?
    ensures var parts := Split(input[..Find(input, LF).value], SP);
            var shape := HeadOf(input, tagged).value.shape;
            && (MultiKey(shape) <==> parts[0] == [109] || parts[0] == [121] || parts[0] == [111])
            && (shape.MultiSetShape? <==> parts[0] == [111])
  {
    hide Find, Split;
    var parts := Split(input[..Find(input, LF).value], SP);
    LettersOfShapes(parts, tagged);
  }

  lemma LettersOfShapes(parts: seq<Bytes>, tagged: bool)
    requires |parts| >= 1 && ParseHead(parts, tagged).Ok?
    ensures var shape := ParseHead(parts, tagged).value.shape;
            && (MultiKey(shape) <==> parts[0] == [109] || parts[0] == [121] || parts[0] == [111])
            && (shape.MultiSetShape? <==> parts[0] == [111])
  {
    hide AuthHead, KeyHead, HandoffDeleteHead, MultiGetHead, MultiTouchHead, MultiSetHead, IncrHead, CasSetHead,
      CasDeleteHead, TouchHead, ClearHead, ClearAllHead, HandoffClearHead, SetHead, HandoffSetHead, CancelHead,
      MigrateHead;
  }

  /** The outcome of a request whose body is a row of fixed-length fields. */
  lemma FrameOutcome(input: Bytes, headerEnd: nat, head: Head)
    requires headerEnd < |input| && Fits(head) && !head.shape.MigrateShape?
    ensures var end := headerEnd + 1 + Total(head.lengths);
            var outcome := ParseBody(input, headerEnd, head);
            && (end > U64_MAX ==> outcome == Bad(InvalidLength, 0))
            && (end <= U64_MAX && |input| < end ==> outcome == More)
            && (end <= U64_MAX && end <= |input| ==>
                  var built := Build(head, Fields(input, headerEnd + 1, head.lengths));
                  && outcome == (if built.Ok? then Done(built.value, head.tag, end) else Bad(built.error, end))
                  && (built.Ok? ==> (MultiCommand(built.value) <==> MultiKey(head.shape)))
                  && (MultiKey(head.shape) ==>
                        built.Ok? && |built.value.keys| == KeyCount(head)
                        && (built.value.MultiSet? <==> head.shape.MultiSetShape?)))
  {
    hide Fields;
    if head.shape.MultiSetShape? && headerEnd + 1 + Total(head.lengths) <= |input| {
      AlternateSize(Fields(input, headerEnd + 1, head.lengths)[1..]);
    }
  }

  lemma {:induction false} AlternateSize(fields: seq<Bytes>)
    ensures |Alternate(fields)| == (|fields| + 1) / 2
  {
    if |fields| > 1 {
      AlternateSize(fields[2..]);
    }
  }

  lemma MigrateIsNotMulti(input: Bytes, headerEnd: nat, head: Head, charged: bool)
    requires headerEnd < |input| && Fits(head) && head.shape.MigrateShape?
    ensures var outcome := ParseBody(input, headerEnd, head);
            Report(outcome, charged) == Report(outcome, true) && Taken(outcome, charged) == Taken(outcome, true)
            && !Report(outcome, charged).ChargeRequired?
  {
    hide Fields, Roster, AllUtf8, RosterUtf8;
  }
}
