/** The Go client's response reader: one reply off the front of the stream, within its size caps. */
module ResponseReader {
  import opened Basics
  import opened Decimal
  import opened Text

  const MAX_VALUE_LENGTH: nat := 2 * 1024 * 1024
  const MAX_MULTI_BYTES: nat := 64 * 1024 * 1024
  const MAX_LINE: nat := 4096
  const U32_MAX: nat := 0xFFFF_FFFF

  /** One key's outcome inside a batched reply. */
  datatype Entry = Entry(value: Bytes, ok: bool, wrongNode: bool)

  datatype RoundTrip = RoundTrip(marker: byte, value: Bytes, ttlSeconds: int, entries: seq<Entry>)

  /** Why a stream cannot be read on: malformed, refused, lost track of, or at its end. */
  datatype Failure = Malformed | Refused | Unknown | Ended

  datatype Reception = Got(result: RoundTrip, tag: nat, used: nat) | Failed(failure: Failure)

  // ---- lines and fields ----

  datatype LineRead = LineRead(text: Bytes, next: nat) | TooLong | NoLine

  /** The line the input starts with, which may have at most `MAX_LINE` bytes before its end. */
  function ReadLine(input: Bytes): (r: LineRead)
    ensures r.LineRead? ==> r.next == |r.text| + 1 <= |input|
  {
    match Find(input, LF)
    case Some(n) => if n <= MAX_LINE then LineRead(input[..n], n + 1) else TooLong
    case None => if |input| > MAX_LINE then TooLong else NoLine
  }

  predicate IsSpace(b: byte) {
    b == 32 || 9 <= b <= 13
  }

  /** How many bytes come before the next white space. */
  function TokenLength(s: Bytes): (n: nat)
    ensures n <= |s|
    ensures s != [] && !IsSpace(s[0]) ==> n > 0
  {
    if s == [] || IsSpace(s[0]) then 0 else 1 + TokenLength(s[1..])
  }

  /** The runs of bytes between white space. */
  function Tokens(s: Bytes): seq<Bytes>
    decreases |s|
  {
    if s == [] then []
    else if IsSpace(s[0]) then Tokens(s[1..])
    else [s[..TokenLength(s)]] + Tokens(s[TokenLength(s)..])
  }

  /** Digits only, up to `limit`. */
  function StrictUint(field: Bytes, limit: nat): Option<nat>
    requires limit <= U64_MAX
  {
    match ParseLength(field)
    case None => None
    case Some(n) => if n <= limit then Some(n) else None
  }

  function StrictTag(field: Bytes): Option<nat> {
    StrictUint(field, U32_MAX)
  }

  // ---- one kind of reply each ----

  /** A value with its optional TTL: the mode says how many fields there must be. */
  function ReceiveValue(input: Bytes, tagged: bool, marker: byte): (r: Reception)
    ensures r.Got? ==> r.used <= |input|
  {
    match ReadLine(input)
    case TooLong => Failed(Malformed)
    case NoLine => Failed(Ended)
    case LineRead(text, next) =>
      var fields := Tokens(text);
      var least := if tagged then 2 else 1;
      if |fields| != least && |fields| != least + 1 then Failed(Malformed) else
        var ttl := if |fields| == least + 1 then StrictUint(fields[1], I64_MAX) else None;
        var length := StrictUint(fields[0], I64_MAX);
        var tag := if tagged then StrictTag(fields[|fields| - 1]) else Some(0);
        if (|fields| == least + 1 && ttl.None?) || length.None? || length.value > MAX_VALUE_LENGTH || tag.None?
        then Failed(Malformed)
        else if |input| < next + length.value then Failed(Ended)
        else Got(RoundTrip(marker, input[next..next + length.value], if ttl.Some? then ttl.value else -1, []),
                 tag.value, next + length.value)
  }

  /** A roster's header: the count, that many tokens, and the tag if there is one. */
  function RosterHeader(text: Bytes, tagged: bool): Option<(seq<Bytes>, nat)> {
    var fields := Tokens(text);
    if fields == [] then None else
      match StrictUint(fields[0], I64_MAX)
      case None => None
      case Some(count) =>
        if |fields| != 1 + count + (if tagged then 1 else 0) then None
        else if !tagged then Some((fields[1..], 0))
        else
          match StrictTag(fields[1 + count])
          case None => None
          case Some(tag) => Some((fields[1..1 + count], tag))
  }

  datatype Hits = Hits(entries: seq<Entry>, next: nat) | BadHits(failure: Failure)

  /** The roster of a batched get, token by token, each hit's bytes taken as its length is read. */
  function ReadHits(input: Bytes, next: nat, tokens: seq<Bytes>, total: nat): (r: Hits)
    requires next <= |input|
    ensures r.Hits? ==> next <= r.next <= |input| && |r.entries| == |tokens|
    decreases |tokens|
  {
    if tokens == [] then Hits([], next)
    else if tokens[0] == [45] || tokens[0] == [87] then
      match ReadHits(input, next, tokens[1..], total)
      case BadHits(f) => BadHits(f)
      case Hits(rest, end) => Hits([Entry([], false, tokens[0] == [87])] + rest, end)
    else
      match StrictUint(tokens[0], I64_MAX)
      case None => BadHits(Malformed)
      case Some(length) =>
        if length > MAX_VALUE_LENGTH || total + length > MAX_MULTI_BYTES then BadHits(Malformed)
        else if |input| < next + length then BadHits(Ended)
        else
          match ReadHits(input, next + length, tokens[1..], total + length)
          case BadHits(f) => BadHits(f)
          case Hits(rest, end) => Hits([Entry(input[next..next + length], true, false)] + rest, end)
  }

  function ReceiveMulti(input: Bytes, tagged: bool): (r: Reception)
    ensures r.Got? ==> r.used <= |input|
  {
    match ReadLine(input)
    case TooLong => Failed(Malformed)
    case NoLine => Failed(Ended)
    case LineRead(text, next) =>
      match RosterHeader(text, tagged)
      case None => Failed(Malformed)
      case Some((tokens, tag)) =>
        match ReadHits(input, next, tokens, 0)
        case BadHits(f) => Failed(f)
        case Hits(entries, end) => Got(RoundTrip(77, [], 0, entries), tag, end)
  }

  /** What each token of a body-less roster means; a plain miss only where one is possible. */
  function AckEntryOf(token: Bytes, missAllowed: bool): Option<Entry> {
    if token == [83] then Some(Entry([], true, false))
    else if token == [87] then Some(Entry([], false, true))
    else if missAllowed && token == [78] then Some(Entry([], false, false))
    else None
  }

  function AckEntries(tokens: seq<Bytes>, missAllowed: bool): Option<seq<Entry>> {
    if tokens == [] then Some([]) else
      var first, rest := AckEntryOf(tokens[0], missAllowed), AckEntries(tokens[1..], missAllowed);
      if first.None? || rest.None? then None else Some([first.value] + rest.value)
  }

  function ReceiveAck(input: Bytes, tagged: bool, marker: byte): (r: Reception)
    ensures r.Got? ==> r.used <= |input|
  {
    match ReadLine(input)
    case TooLong => Failed(Malformed)
    case NoLine => Failed(Ended)
    case LineRead(text, next) =>
      match RosterHeader(text, tagged)
      case None => Failed(Malformed)
      case Some((tokens, tag)) =>
        match AckEntries(tokens, marker == 89)
        case None => Failed(Malformed)
        case Some(entries) => Got(RoundTrip(marker, [], 0, entries), tag, next)
  }

  function ReceiveStatus(input: Bytes, tagged: bool, marker: byte): (r: Reception)
    ensures r.Got? ==> r.used <= |input|
  {
    if !tagged then
      if input == [] then Failed(Ended) else Got(RoundTrip(marker, [], 0, []), 0, 1)
    else
      match ReadLine(input)
      case TooLong => Failed(Malformed)
      case NoLine => Failed(Ended)
      case LineRead(text, next) =>
        if text == [] || text[0] != SP then Failed(Malformed) else
          match StrictTag(text[1..])
          case None => Failed(Malformed)
          case Some(tag) => Got(RoundTrip(marker, [], 0, []), tag, next)
  }

  /** What follows a marker byte. */
  function ReceiveAfter(marker: byte, input: Bytes, tagged: bool): (r: Reception)
    ensures r.Got? ==> r.used <= |input|
  {
    match marker
    case 86 => ReceiveValue(input, tagged, marker)
    case 73 => ReceiveValue(input, tagged, marker)
    case 77 => ReceiveMulti(input, tagged)
    case 79 => ReceiveAck(input, tagged, marker)
    case 89 => ReceiveAck(input, tagged, marker)
    case 66 => ReceiveStatus(input, false, marker)
    case 83 => ReceiveStatus(input, tagged, marker)
    case 68 => ReceiveStatus(input, tagged, marker)
    case 78 => ReceiveStatus(input, tagged, marker)
    case 87 => ReceiveStatus(input, tagged, marker)
    case 67 => ReceiveStatus(input, tagged, marker)
    case 82 => ReceiveStatus(input, tagged, marker)
    case 84 => ReceiveStatus(input, tagged, marker)
    case 69 => Failed(if input != [] && input[0] == 110 then Refused else Unknown)
    case _ => Failed(Malformed)
  }

  /** One reply off the front of `input`, or why there is none. */
  function Receive(input: Bytes, tagged: bool): (r: Reception)
    ensures r.Got? ==> 0 < r.used <= |input|
  {
    if input == [] then Failed(Ended) else
      match ReceiveAfter(input[0], input[1..], tagged)
      case Failed(f) => Failed(f)
      case Got(result, tag, used) => Got(result, tag, used + 1)
  }

  // ---- the reader itself ----

  /** The client's buffered stream: what has been received and not yet consumed. */
  class Stream {
    var input: Bytes

    constructor (bytes: Bytes)
      ensures input == bytes
    {
      input := bytes;
    }

    method NextByte() returns (b: Option<byte>)
      modifies this
      ensures old(input) == [] ==> b == None && input == []
      ensures old(input) != [] ==> b == Some(old(input)[0]) && input == old(input)[1..]
    {
      if input == [] {
        return None;
      }
      b := Some(input[0]);
      input := input[1..];
    }

    /** Byte by byte up to the line end, giving up once the line is too long. */
    method NextLine() returns (r: LineRead)
      modifies this
      ensures r == ReadLine(old(input))
      ensures r.LineRead? ==> input == old(input)[r.next..]
    {
      hide Find;
      ghost var was := input;
      var line: Bytes := [];
      while true
        invariant line <= was && input == was[|line|..] && LF !in line && |line| <= MAX_LINE
        decreases |input|
      {
        var b := NextByte();
        if b.None? {
          assert line == was;
          FindNone(was, LF);
          return NoLine;
        }
        var n := |line|;
        if b.value == LF {
          assert was[..n] == line;
          FindIs(was, LF, n);
          return LineRead(line, n + 1);
        }
        line := line + [b.value];
        if |line| > MAX_LINE {
          LongLine(was, line);
          return TooLong;
        }
      }
    }

    /** Exactly `n` bytes. */
    method NextBytes(n: nat) returns (bytes: Option<Bytes>)
      modifies this
      ensures |old(input)| < n ==> bytes == None
      ensures |old(input)| >= n ==> bytes == Some(old(input)[..n]) && input == old(input)[n..]
    {
      if |input| < n {
        return None;
      }
      bytes := Some(input[..n]);
      input := input[n..];
    }

    /** A value reply after its marker. */
    method ReadValue(tagged: bool, marker: byte) returns (r: Received)
      modifies this
      ensures Matches(r, ReceiveValue(old(input), tagged, marker), old(input), input)
    {
      hide Tokens, StrictUint, ReadLine;
      ghost var was := input;
      var line := NextLine();
      if line.TooLong? {
        return Stop(Malformed);
      }
      if line.NoLine? {
        return Stop(Ended);
      }
      var fields := Tokens(line.text);
      var least := if tagged then 2 else 1;
      if |fields| != least && |fields| != least + 1 {
        return Stop(Malformed);
      }
      var ttlSeconds: int := -1;
      if |fields| == least + 1 {
        var ttl := StrictUint(fields[1], I64_MAX);
        if ttl.None? {
          return Stop(Malformed);
        }
        ttlSeconds := ttl.value;
      }
      var length := StrictUint(fields[0], I64_MAX);
      if length.None? || length.value > MAX_VALUE_LENGTH {
        return Stop(Malformed);
      }
      var tag := Some(0);
      if tagged {
        tag := StrictTag(fields[|fields| - 1]);
        if tag.None? {
          return Stop(Malformed);
        }
      }
      var value := NextBytes(length.value);
      if value.None? {
        return Stop(Ended);
      }
      assert was[line.next..][..length.value] == was[line.next..line.next + length.value];
      assert was[line.next..][length.value..] == was[line.next + length.value..];
      return Reply(RoundTrip(marker, value.value, ttlSeconds, []), tag.value);
    }

    /** A batched get's reply after its marker: hits are read off the stream as their lengths are. */
    method ReadMulti(tagged: bool) returns (r: Received)
      modifies this
      ensures Matches(r, ReceiveMulti(old(input), tagged), old(input), input)
    {
      hide RosterHeader, ReadLine;
      ghost var was := input;
      var line := NextLine();
      if line.TooLong? {
        return Stop(Malformed);
      }
      if line.NoLine? {
        return Stop(Ended);
      }
      var header := RosterHeader(line.text, tagged);
      if header.None? {
        return Stop(Malformed);
      }
      var tokens := header.value.0;
      var entries, failure := ReadEntries(tokens, was, line.next);
      if failure.Some? {
        return Stop(failure.value);
      }
      return Reply(RoundTrip(77, [], 0, entries), header.value.1);
    }

    method ReadEntries(tokens: seq<Bytes>, ghost was: Bytes, ghost start: nat)
      returns (entries: seq<Entry>, failure: Option<Failure>)
      requires start <= |was| && input == was[start..]
      modifies this
      ensures match ReadHits(was, start, tokens, 0)
              case BadHits(f) => failure == Some(f)
              case Hits(all, next) => failure == None && entries == all && input == was[next..]
    {
      hide StrictUint, ReadHits;
      var total: nat := 0;
      ghost var next: nat := start;
      entries, failure := [], None;
      AfterHitsNothing(was, start, tokens);
      for i := 0 to |tokens|
        invariant next <= |was| && input == was[next..]
        invariant ReadHits(was, start, tokens, 0) == AfterHits(entries, ReadHits(was, next, tokens[i..], total))
      {
        var token := tokens[i];
        assert tokens[i..][0] == token && tokens[i..][1..] == tokens[i + 1..];
        HitsStep(was, next, tokens[i..], total);
        if token == [45] || token == [87] {
          AfterHitsStep(entries, Entry([], false, token == [87]), ReadHits(was, next, tokens[i + 1..], total));
          entries := entries + [Entry([], false, token == [87])];
        } else {
          var length := StrictUint(token, I64_MAX);
          if length.None? || length.value > MAX_VALUE_LENGTH {
            return entries, Some(Malformed);
          }
          total := total + length.value;
          if total > MAX_MULTI_BYTES {
            return entries, Some(Malformed);
          }
          var hit := NextBytes(length.value);
          if hit.None? {
            return entries, Some(Ended);
          }
          assert was[next..][..length.value] == was[next..next + length.value];
          assert was[next..][length.value..] == was[next + length.value..];
          next := next + length.value;
          AfterHitsStep(entries, Entry(hit.value, true, false), ReadHits(was, next, tokens[i + 1..], total));
          entries := entries + [Entry(hit.value, true, false)];
        }
      }
      AfterHitsAll(was, next, entries, tokens[|tokens|..], total);
    }

    /** A body-less roster after its marker. */
    method ReadAckRoster(tagged: bool, marker: byte) returns (r: Received)
      modifies this
      ensures Matches(r, ReceiveAck(old(input), tagged, marker), old(input), input)
    {
      hide RosterHeader, ReadLine, AckEntryOf;
      var line := NextLine();
      if line.TooLong? {
        return Stop(Malformed);
      }
      if line.NoLine? {
        return Stop(Ended);
      }
      var header := RosterHeader(line.text, tagged);
      if header.None? {
        return Stop(Malformed);
      }
      var tokens := header.value.0;
      var entries: seq<Entry> := [];
      assert tokens[0..] == tokens;
      AfterAcksNothing(AckEntries(tokens, marker == 89));
      ghost var unread := input;
      for i := 0 to |tokens|
        invariant input == unread
        invariant AckEntries(tokens, marker == 89) == AfterAcks(entries, AckEntries(tokens[i..], marker == 89))
      {
        assert tokens[i..][0] == tokens[i] && tokens[i..][1..] == tokens[i + 1..];
        var entry := AckEntryOf(tokens[i], marker == 89);
        if entry.None? {
          return Stop(Malformed);
        }
        AfterAcksStep(entries, entry.value, AckEntries(tokens[i + 1..], marker == 89));
        entries := entries + [entry.value];
      }
      assert tokens[|tokens|..] == [] && entries + [] == entries;
      return Reply(RoundTrip(marker, [], 0, entries), header.value.1);
    }

    method ReadStatus(tagged: bool, marker: byte) returns (r: Received)
      modifies this
      ensures Matches(r, ReceiveStatus(old(input), tagged, marker), old(input), input)
    {
      hide ReadLine, StrictUint;
      if !tagged {
        var end := NextByte();
        if end.None? {
          return Stop(Ended);
        }
        return Reply(RoundTrip(marker, [], 0, []), 0);
      }
      var line := NextLine();
      if line.TooLong? {
        return Stop(Malformed);
      }
      if line.NoLine? {
        return Stop(Ended);
      }
      if line.text == [] || line.text[0] != SP {
        return Stop(Malformed);
      }
      var tag := StrictTag(line.text[1..]);
      if tag.None? {
        return Stop(Malformed);
      }
      return Reply(RoundTrip(marker, [], 0, []), tag.value);
    }

    /** One whole reply. */
    method ReadOne(tagged: bool) returns (r: Received)
      modifies this
      ensures Matches(r, Receive(old(input), tagged), old(input), input)
    {
      hide ReceiveValue, ReceiveMulti, ReceiveAck, ReceiveStatus;
      ghost var was := input;
      var marker := NextByte();
      if marker.None? {
        return Stop(Ended);
      }
      assert forall n: nat :: n < |was| ==> was[1..][n..] == was[n + 1..];
      match marker.value
      case 86 => r := ReadValue(tagged, 86);
      case 73 => r := ReadValue(tagged, 73);
      case 77 => r := ReadMulti(tagged);
      case 79 => r := ReadAckRoster(tagged, 79);
      case 89 => r := ReadAckRoster(tagged, 89);
      case 66 => r := ReadStatus(false, 66);
      case 83 => r := ReadStatus(tagged, 83);
      case 68 => r := ReadStatus(tagged, 68);
      case 78 => r := ReadStatus(tagged, 78);
      case 87 => r := ReadStatus(tagged, 87);
      case 67 => r := ReadStatus(tagged, 67);
      case 82 => r := ReadStatus(tagged, 82);
      case 84 => r := ReadStatus(tagged, 84);
      case 69 => r := Stop(if input != [] && input[0] == 110 then Refused else Unknown);
      case _ => r := Stop(Malformed);
    }
  }

  datatype Received = Reply(result: RoundTrip, tag: nat) | Stop(failure: Failure)

  /** The reader's answer and what it left unread agree with the specification. */
  ghost predicate Matches(r: Received, spec: Reception, before: Bytes, after: Bytes)
    requires spec.Got? ==> spec.used <= |before|
  {
    match spec
    case Got(result, tag, used) => r == Reply(result, tag) && after == before[used..]
    case Failed(f) => r == Stop(f)
  }

  function AfterHits(done: seq<Entry>, rest: Hits): Hits {
    match rest
    case BadHits(f) => BadHits(f)
    case Hits(more, next) => Hits(done + more, next)
  }

  lemma AfterHitsNothing(input: Bytes, next: nat, tokens: seq<Bytes>)
    requires next <= |input|
    ensures tokens[0..] == tokens
    ensures AfterHits([], ReadHits(input, next, tokens, 0)) == ReadHits(input, next, tokens, 0)
  {
    hide ReadHits;
    var r := ReadHits(input, next, tokens, 0);
    if r.Hits? {
      assert [] + r.entries == r.entries;
    }
  }

  lemma AfterHitsStep(done: seq<Entry>, entry: Entry, rest: Hits)
    ensures AfterHits(done, AfterHits([entry], rest)) == AfterHits(done + [entry], rest)
  {
    if rest.Hits? {
      assert done + ([entry] + rest.entries) == (done + [entry]) + rest.entries;
    }
  }

  lemma AfterHitsAll(input: Bytes, next: nat, entries: seq<Entry>, tokens: seq<Bytes>, total: nat)
    requires next <= |input| && tokens == []
    ensures AfterHits(entries, ReadHits(input, next, tokens, total)) == Hits(entries, next)
  {
    assert entries + [] == entries;
  }

  /** One token of a batched get's roster. */
  lemma HitsStep(input: Bytes, next: nat, tokens: seq<Bytes>, total: nat)
    requires next <= |input| && tokens != []
    ensures var token := tokens[0];
            var length := StrictUint(token, I64_MAX);
            ReadHits(input, next, tokens, total) ==
            if token == [45] || token == [87]
            then AfterHits([Entry([], false, token == [87])], ReadHits(input, next, tokens[1..], total))
            else if length.None? || length.value > MAX_VALUE_LENGTH || total + length.value > MAX_MULTI_BYTES
            then BadHits(Malformed)
            else if |input| < next + length.value then BadHits(Ended)
            else AfterHits([Entry(input[next..next + length.value], true, false)],
                           ReadHits(input, next + length.value, tokens[1..], total + length.value))
  {
    hide StrictUint;
  }

  function AfterAcks(done: seq<Entry>, rest: Option<seq<Entry>>): Option<seq<Entry>> {
    if rest.Some? then Some(done + rest.value) else None
  }

  lemma AfterAcksNothing(rest: Option<seq<Entry>>)
    ensures AfterAcks([], rest) == rest
  {
    if rest.Some? {
      assert [] + rest.value == rest.value;
    }
  }

  lemma AfterAcksStep(done: seq<Entry>, entry: Entry, rest: Option<seq<Entry>>)
    ensures AfterAcks(done, AfterAcks([entry], rest)) == AfterAcks(done + [entry], rest)
  {
    if rest.Some? {
      assert done + ([entry] + rest.value) == (done + [entry]) + rest.value;
    }
  }

  lemma LongLine(input: Bytes, line: Bytes)
    requires line <= input && LF !in line && |line| > MAX_LINE
    ensures ReadLine(input) == TooLong
  {
    assert forall k :: 0 <= k < |line| ==> input[k] == line[k] && line[k] in line;
  }
}
