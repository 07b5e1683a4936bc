/** What a whole stream of requests means, and that how it arrives does not matter. */
module Requests {
  import opened Basics
  import opened Decimal
  import opened Wire
  import opened RequestReader

  datatype Request = Request(command: Command, tag: Option<nat>)

  /** Everything read from a stream: the requests, the error that ended it if any, and the bytes left. */
  datatype Reading = Reading(requests: seq<Request>, error: Option<Error>, rest: Bytes)

  /**
   Reads the stream request by request. Each request is read in the mode the ones before it
   have put the connection in.
   */
  function ReadAll(input: Bytes, before: seq<Request>, mode: seq<Request> -> bool): Reading
    decreases |input|
  {
    match Parse(input, mode(before))
    case More => Reading(before, None, input)
    case Bad(e, used) => Reading(before, Some(e), input[used..])
    case Done(command, tag, used) => ReadAll(input[used..], before + [Request(command, tag)], mode)
  }

  /** One thing that happens to a connection's reader. */
  datatype Event = Arrive(chunk: Bytes) | Attempt(charged: bool)

  function Arrived(events: seq<Event>): Bytes {
    if events == [] then [] else
      var last := events[|events| - 1];
      Arrived(events[..|events| - 1]) + (if last.Arrive? then last.chunk else [])
  }

  /** How many requests name many keys. */
  function Multi(requests: seq<Request>): nat {
    if requests == [] then 0 else
      var c := requests[|requests| - 1].command;
      Multi(requests[..|requests| - 1]) + (if c.MultiGet? || c.MultiTouch? || c.MultiSet? then 1 else 0)
  }

  /** How many attempts were paid for. */
  function Paid(events: seq<Event>): nat {
    if events == [] then 0 else
      Paid(events[..|events| - 1]) + (if events[|events| - 1] == Attempt(true) then 1 else 0)
  }

  lemma MultiGrows(requests: seq<Request>, r: Request)
    ensures Multi(requests + [r]) ==
            Multi(requests) + if r.command.MultiGet? || r.command.MultiTouch? || r.command.MultiSet? then 1 else 0
  {
    assert (requests + [r])[..|requests|] == requests;
  }

  /** Whatever else arrives, the buffer and the requests already read stand for the whole stream. */
  ghost predicate StandsFor(stream: Bytes, input: Bytes, before: seq<Request>, mode: seq<Request> -> bool) {
    forall more: Bytes {:trigger ReadAll(stream + more, [], mode)} ::
      ReadAll(stream + more, [], mode) == ReadAll(input + more, before, mode)
  }

  lemma ArriveKeeps(stream: Bytes, input: Bytes, before: seq<Request>, mode: seq<Request> -> bool, chunk: Bytes)
    requires StandsFor(stream, input, before, mode)
    ensures StandsFor(stream + chunk, input + chunk, before, mode)
  {
    hide ReadAll;
    forall more: Bytes
      ensures ReadAll((stream + chunk) + more, [], mode) == ReadAll((input + chunk) + more, before, mode)
    {
      assert (stream + chunk) + more == stream + (chunk + more);
      assert (input + chunk) + more == input + (chunk + more);
    }
  }

  lemma ParsedKeeps(stream: Bytes, input: Bytes, before: seq<Request>, mode: seq<Request> -> bool)
    requires StandsFor(stream, input, before, mode) && Parse(input, mode(before)).Done?
    ensures var r := Parse(input, mode(before));
            StandsFor(stream, input[r.used..], before + [Request(r.command, r.tag)], mode)
  {
    hide Parse;
    var r := Parse(input, mode(before));
    forall more: Bytes
      ensures ReadAll(stream + more, [], mode)
           == ReadAll(input[r.used..] + more, before + [Request(r.command, r.tag)], mode)
    {
      ParseStable(input, more, mode(before));
      assert (input + more)[r.used..] == input[r.used..] + more;
    }
  }

  lemma RefusedEnds(stream: Bytes, input: Bytes, before: seq<Request>, mode: seq<Request> -> bool, more: Bytes)
    requires StandsFor(stream, input, before, mode) && Parse(input, mode(before)).Bad?
    ensures var r := Parse(input, mode(before));
            ReadAll(stream + more, [], mode) == Reading(before, Some(r.error), input[r.used..] + more)
  {
    hide Parse;
    var r := Parse(input, mode(before));
    ParseStable(input, more, mode(before));
    assert (input + more)[r.used..] == input[r.used..] + more;
  }

  /**
   Runs any schedule of arriving bytes and parse attempts, paid for or not. What has been read is what
   the stream so far says, once the reader has asked for more or refused; and a request of many keys is
   never read but by an attempt that was paid for.
   */
  method Serve(reader: Reader, mode: seq<Request> -> bool, events: seq<Event>)
    returns (requests: seq<Request>, error: Option<Error>)
    requires reader.input == [] && reader.progress == NO_PROGRESS
    requires |Arrived(events)| <= U64_MAX
    modifies reader
    ensures error.Some? ==> ReadAll(Arrived(events), [], mode) == Reading(requests, error, reader.input)
    ensures error.None? ==> ReadAll(Arrived(events), [], mode) == ReadAll(reader.input, requests, mode)
    ensures error.None? && Parse(reader.input, mode(requests)).More? ==>
              ReadAll(Arrived(events), [], mode) == Reading(requests, None, reader.input)
    ensures Multi(requests) <= Paid(events)
  {
    hide Parse, ReadAll, ProgressOk;
    requests, error := [], None;
    ghost var stream: Bytes := [];
    NoProgressOk([], mode([]));
    for i := 0 to |events|
      invariant stream == Arrived(events[..i]) && |reader.input| <= |stream| <= U64_MAX
      invariant error.None? ==> ProgressOk(reader.progress, reader.input, mode(requests))
      invariant error.None? ==> StandsFor(stream, reader.input, requests, mode)
      invariant error.Some? ==> EndedWith(stream, Reading(requests, error, reader.input), mode)
      invariant Multi(requests) <= Paid(events[..i])
    {
      assert events[..i + 1][..i] == events[..i];
      ArrivedGrows(events, i + 1);
      match events[i]
      case Arrive(chunk) =>
        if error.None? {
          ArriveKeeps(stream, reader.input, requests, mode, chunk);
          reader.Append(chunk, mode(requests));
        } else {
          EndedKeeps(stream, Reading(requests, error, reader.input), mode, chunk);
          reader.input := reader.input + chunk;
        }
        stream := stream + chunk;
      case Attempt(charged) =>
        assert stream + [] == stream;
        if error.None? {
          ghost var was := reader.input;
          ghost var outcome := Parse(was, mode(requests));
          var a := reader.ParseResumable(mode(requests), charged);
          match a
          case Parsed(command, tag) =>
            ParsedKeeps(stream, was, requests, mode);
            MultiGrows(requests, Request(command, tag));
            requests := requests + [Request(command, tag)];
            NoProgressOk(reader.input, mode(requests));
          case Refused(e) =>
            forall more: Bytes
              ensures ReadAll(stream + more, [], mode) == Reading(requests, Some(e), reader.input + more)
            {
              RefusedEnds(stream, was, requests, mode, more);
            }
            error := Some(e);
          case _ =>
        }
    }
    assert events[..|events|] == events;
    assert stream + [] == stream && reader.input + [] == reader.input;
    if error.None? {
      assert ReadAll(stream + [], [], mode) == ReadAll(reader.input + [], requests, mode);
      NothingMore(reader.input, requests, mode);
    } else {
      assert ReadAll(stream + [], [], mode) == Reading(requests, error, reader.input + []);
    }
  }

  ghost predicate EndedWith(stream: Bytes, reading: Reading, mode: seq<Request> -> bool) {
    forall more: Bytes {:trigger ReadAll(stream + more, [], mode)} ::
      ReadAll(stream + more, [], mode) == reading.(rest := reading.rest + more)
  }

  lemma EndedKeeps(stream: Bytes, reading: Reading, mode: seq<Request> -> bool, chunk: Bytes)
    requires EndedWith(stream, reading, mode)
    ensures EndedWith(stream + chunk, reading.(rest := reading.rest + chunk), mode)
  {
    hide ReadAll;
    forall more: Bytes
      ensures ReadAll((stream + chunk) + more, [], mode) == reading.(rest := (reading.rest + chunk) + more)
    {
      assert (stream + chunk) + more == stream + (chunk + more);
      assert (reading.rest + chunk) + more == reading.rest + (chunk + more);
    }
  }

  lemma NothingMore(input: Bytes, before: seq<Request>, mode: seq<Request> -> bool)
    ensures Parse(input, mode(before)).More? ==> ReadAll(input, before, mode) == Reading(before, None, input)
  {
  }

  lemma {:induction false} ArrivedGrows(events: seq<Event>, n: nat)
    requires n <= |events|
    ensures |Arrived(events[..n])| <= |Arrived(events)|
    decreases |events|
  {
    if n == |events| {
      assert events[..n] == events;
    } else {
      assert events[..|events| - 1][..n] == events[..n];
      ArrivedGrows(events[..|events| - 1], n);
    }
  }

  function Concatenated(chunks: seq<Bytes>): Bytes {
    if chunks == [] then [] else Concatenated(chunks[..|chunks| - 1]) + chunks[|chunks| - 1]
  }

  /** What reading chunk by chunk leaves: after each chunk, everything decided is read. */
  function ReadChunks(chunks: seq<Bytes>, mode: seq<Request> -> bool): Reading {
    if chunks == [] then Reading([], None, [])
    else
      var before := ReadChunks(chunks[..|chunks| - 1], mode);
      var input := before.rest + chunks[|chunks| - 1];
      if before.error.Some? then before.(rest := input) else ReadAll(input, before.requests, mode)
  }

  /** Reading resumes where it stopped: splitting a stream anywhere changes nothing. */
  lemma {:induction false} ReadAllResumes(a: Bytes, b: Bytes, before: seq<Request>, mode: seq<Request> -> bool)
    ensures var first := ReadAll(a, before, mode);
            ReadAll(a + b, before, mode) ==
            if first.error.Some? then first.(rest := first.rest + b) else ReadAll(first.rest + b, first.requests, mode)
    decreases |a|
  {
    hide Parse;
    var r := Parse(a, mode(before));
    if !r.More? {
      ParseStable(a, b, mode(before));
      assert (a + b)[r.used..] == a[r.used..] + b;
      if r.Done? {
        ReadAllResumes(a[r.used..], b, before + [Request(r.command, r.tag)], mode);
      }
    }
  }

  /** Chunk by chunk or at once, in any split, the reading is the same. */
  lemma {:induction false} ChunkingIndependent(chunks: seq<Bytes>, mode: seq<Request> -> bool)
    ensures ReadChunks(chunks, mode) == ReadAll(Concatenated(chunks), [], mode)
  {
    if chunks == [] {
      NothingYet([], mode);
    } else {
      var init, last := chunks[..|chunks| - 1], chunks[|chunks| - 1];
      ChunkingIndependent(init, mode);
      ReadAllResumes(Concatenated(init), last, [], mode);
    }
  }

  lemma NothingYet(before: seq<Request>, mode: seq<Request> -> bool)
    ensures ReadAll([], before, mode) == Reading(before, None, [])
  {
  }
}
