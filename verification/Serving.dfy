/** From the bytes a node sends to the channels of the client's requests, over whole runs of the connection. */
module Serving {
  import opened Basics
  import opened ResponseReader
  import opened Pipelining
  import Responses
  import RoundTrips = ReplyRoundTrip

  // ---- runs in parts ----

  lemma {:induction false} RunConcat(s: State, a: seq<Step>, b: seq<Step>)
    requires IsRun(s, a) && IsRun(After(s, a), b)
    ensures IsRun(s, a + b) && After(s, a + b) == After(After(s, a), b)
    decreases |a|
  {
    hide Next, Enabled;
    if a == [] {
      assert a + b == b;
    } else {
      assert (a + b)[1..] == a[1..] + b;
      RunConcat(Next(s, a[0]), a[1..], b);
    }
  }

  lemma {:induction false} ReadsConcat(a: seq<Step>, b: seq<Step>)
    ensures Reads(a + b) == Reads(a) + Reads(b)
    decreases |a|
  {
    if a == [] {
      assert a + b == b;
    } else {
      var first := if a[0].Read? then [a[0].received] else [];
      assert (a + b)[0] == a[0] && (a + b)[1..] == a[1..] + b;
      ReadsConcat(a[1..], b);
      hide Reads;
      assert first + (Reads(a[1..]) + Reads(b)) == first + Reads(a[1..]) + Reads(b);
    }
  }

  lemma {:induction false} LogKept(s: State, steps: seq<Step>)
    requires IsRun(s, steps)
    ensures s.log <= After(s, steps).log
    decreases |steps|
  {
    hide Next, Enabled;
    if steps != [] {
      StepLogs(s, steps[0]);
      LogKept(Next(s, steps[0]), steps[1..]);
    }
  }

  // ---- what a stream of bytes comes to ----

  /** Everything the read loop would read off `input`: the replies in order, then what stops it. */
  function Incoming(input: Bytes, tagged: bool): (r: seq<Received>)
    ensures r != []
    decreases |input|
  {
    match Receive(input, tagged)
    case Failed(f) => [Stop(f)]
    case Got(result, tag, used) => [Reply(result, tag)] + Incoming(input[used..], tagged)
  }

  function AsReplies(arrivals: seq<RoundTrips.Arrival>): seq<Received> {
    if arrivals == [] then [] else [Reply(arrivals[0].result, arrivals[0].tag)] + AsReplies(arrivals[1..])
  }

  lemma {:induction false} AsRepliesAt(arrivals: seq<RoundTrips.Arrival>, i: nat)
    requires i < |arrivals|
    ensures |AsReplies(arrivals)| == |arrivals|
    ensures AsReplies(arrivals)[i] == Reply(arrivals[i].result, arrivals[i].tag)
  {
    if |arrivals| > 1 {
      AsRepliesAt(arrivals[1..], if i == 0 then 0 else i - 1);
    }
  }

  lemma {:induction false} IncomingIsAll(input: Bytes, tagged: bool)
    ensures var (arrivals, failure, _) := RoundTrips.ReceiveAll(input, tagged);
            Incoming(input, tagged) == AsReplies(arrivals) + [Stop(failure)]
    decreases |input|
  {
    hide Receive;
    var r := Receive(input, tagged);
    if r.Got? {
      IncomingIsAll(input[r.used..], tagged);
      var (arrivals, failure, _) := RoundTrips.ReceiveAll(input[r.used..], tagged);
      assert ([RoundTrips.Arrival(r.result, r.tag)] + arrivals)[1..] == arrivals;
      assert [Reply(r.result, r.tag)] + (AsReplies(arrivals) + [Stop(failure)])
             == [Reply(r.result, r.tag)] + AsReplies(arrivals) + [Stop(failure)];
    }
  }

  /** The reply a client sees for an answer of the node. */
  function SeenReply(answer: RoundTrips.Answered, tagged: bool): Received {
    Reply(RoundTrips.Seen(answer.reply),
          if RoundTrips.TagOf(answer.reply, tagged, answer.tag).Some? then answer.tag else 0)
  }

  function SeenReplies(answers: seq<RoundTrips.Answered>, tagged: bool): seq<Received> {
    seq(|answers|, i requires 0 <= i < |answers| => SeenReply(answers[i], tagged))
  }

  /** What a node's answers, sent back to back, come to: those replies, and then the end of the stream. */
  lemma IncomingOfAnswers(answers: seq<RoundTrips.Answered>, tagged: bool)
    requires RoundTrips.AllReadable(answers, tagged)
    ensures Incoming(RoundTrips.StreamOf(answers, tagged), tagged) == SeenReplies(answers, tagged) + [Stop(Ended)]
  {
    hide RoundTrips.AllReadable, RoundTrips.Seen, RoundTrips.StreamOf;
    var input := RoundTrips.StreamOf(answers, tagged);
    assert input + [] == input;
    RoundTrips.StreamReads(answers, tagged, []);
    NothingReceived(tagged);
    IncomingIsAll(input, tagged);
    var seen := RoundTrips.SeenOf(answers, tagged);
    assert seen + [] == seen;
    SeenAsReplies(answers, tagged);
  }

  lemma NothingReceived(tagged: bool)
    ensures RoundTrips.ReceiveAll([], tagged) == ([], Ended, [])
  {
  }

  lemma {:induction false} SeenAsReplies(answers: seq<RoundTrips.Answered>, tagged: bool)
    ensures AsReplies(RoundTrips.SeenOf(answers, tagged)) == SeenReplies(answers, tagged)
    decreases |answers|
  {
    hide RoundTrips.Seen, RoundTrips.TagOf;
    if answers != [] {
      var seen := RoundTrips.SeenOf(answers, tagged);
      assert seen[1..] == RoundTrips.SeenOf(answers[1..], tagged);
      SeenAsReplies(answers[1..], tagged);
      var all := SeenReplies(answers, tagged);
      assert all == [all[0]] + SeenReplies(answers[1..], tagged);
    }
  }

  // ---- runs on which the node answers what it was asked ----

  ghost predicate Peaceful(steps: seq<Step>) {
    forall i :: 0 <= i < |steps| ==> !steps[i].Poison?
  }

  /** Whenever the read loop looks for the request a reply answers, there is one. */
  ghost predicate Solicited(s: State, steps: seq<Step>)
    requires IsRun(s, steps)
    decreases |steps|
  {
    steps == [] || ((steps[0].Take? ==> s.pending != []) && Solicited(Next(s, steps[0]), steps[1..]))
  }

  /** The request that the next reply is for. */
  function NextServed(s: State): int {
    if s.hand.Matching? && s.hand.request.Some? then |s.replies| - 1 else |s.replies|
  }

  /**
   Replies that the requests from `first` on can take: none is a refusal of the connection, and the tags are
   theirs.
   */
  ghost predicate Fitting(expected: seq<Received>, first: nat, tagged: bool) {
    forall i :: 0 <= i < |expected| ==>
      && expected[i].Reply?
      && expected[i].result.marker != 66
      && (tagged ==> expected[i].tag == (first + i) % TAGS)
  }

  /** The replies still to be delivered: the one in hand first, then those the rest of the run reads. */
  ghost predicate Expecting(s: State, steps: seq<Step>, expected: seq<Received>, failure: Failure) {
    match s.hand
    case Reading => Reads(steps) <= expected + [Stop(failure)]
    case Holding(result, tag) =>
      expected != [] && expected[0] == Reply(result, tag) && Reads(steps) <= expected[1..] + [Stop(failure)]
    case Matching(request, result, tag) =>
      && request.Some?
      && expected != [] && expected[0] == Reply(result, tag) && Reads(steps) <= expected[1..] + [Stop(failure)]
    case _ => false
  }

  ghost predicate Delivered(log: seq<Delivery>, first: nat, expected: seq<Received>) {
    forall i :: 0 <= i < |expected| && expected[i].Reply? ==>
      Delivery(first + i, Answer(expected[i].result, expected[i].tag)) in log
  }

  lemma FirstIsReply(expected: seq<Received>, first: int, tagged: bool)
    requires 0 <= first && Fitting(expected, first, tagged)
    ensures expected != [] ==> expected[0].Reply?
  {
  }

  /** The next reply is read. */
  lemma ReadStep(s: State, steps: seq<Step>, expected: seq<Received>, failure: Failure)
    requires steps != [] && IsRun(s, steps) && !s.closed && steps[0].Read? && expected != []
    requires 0 <= NextServed(s) && Fitting(expected, NextServed(s), s.tagged) && Expecting(s, steps, expected, failure)
    ensures var t := Next(s, steps[0]);
            && !t.closed && NextServed(t) == NextServed(s) && t.tagged == s.tagged
            && Expecting(t, steps[1..], expected, failure)
  {
    hide Fitting;
    FirstIsReply(expected, NextServed(s), s.tagged);
    assert Reads(steps)[0] == steps[0].received;
    assert (expected + [Stop(failure)])[1..] == expected[1..] + [Stop(failure)];
    assert Reads(steps)[1..] == Reads(steps[1..]);
  }

  /** A request registered or written, or the oldest taken for the reply in hand. */
  lemma QuietStep(s: State, steps: seq<Step>, expected: seq<Received>, failure: Failure)
    requires steps != [] && IsRun(s, steps) && InOrder(s) && !s.closed && Solicited(s, steps) && !steps[0].Poison?
    requires Expecting(s, steps, expected, failure)
    requires !steps[0].Dispatch? && !steps[0].Read?
    ensures var t := Next(s, steps[0]);
            && !t.closed && NextServed(t) == NextServed(s) && t.tagged == s.tagged
            && Expecting(t, steps[1..], expected, failure)
  {
    assert Reads(steps) == Reads(steps[1..]);
    assert s.draining == [];
  }

  /** The delivery: the reply in hand goes to its request. */
  lemma DeliveryStep(s: State, steps: seq<Step>, expected: seq<Received>, failure: Failure)
    requires steps != [] && IsRun(s, steps) && Inv(s) && !s.closed && steps[0].Dispatch?
    requires 0 <= NextServed(s) && Fitting(expected, NextServed(s), s.tagged) && Expecting(s, steps, expected, failure)
    ensures expected != [] && expected[0].Reply?
    ensures var t := Next(s, steps[0]);
            && !t.closed && t.tagged == s.tagged && NextServed(t) == NextServed(s) + 1
            && Expecting(t, steps[1..], expected[1..], failure) && Fitting(expected[1..], NextServed(t), t.tagged)
            && t.log == s.log + [Delivery(NextServed(s), Answer(expected[0].result, expected[0].tag))]
  {
    assert Reads(steps) == Reads(steps[1..]);
    assert s.hand.request.value == s.registered[|s.replies| - 1];
  }

  /** When the loop has stopped, each of the replies it expected has reached its request. */
  lemma {:induction false} ServedInOrder(s: State, steps: seq<Step>, expected: seq<Received>, failure: Failure)
    requires IsRun(s, steps) && Inv(s) && !s.closed && Solicited(s, steps) && Peaceful(steps)
    requires 0 <= NextServed(s) && Fitting(expected, NextServed(s), s.tagged) && Expecting(s, steps, expected, failure)
    ensures After(s, steps).hand.Stopped? ==> Delivered(After(s, steps).log, NextServed(s), expected)
    decreases |steps|
  {
    hide Inv, Next, Enabled, Fitting, Expecting;
    if steps == [] {
      assert !s.hand.Stopped? by { NotStopped(s, steps, expected, failure); }
    } else if expected != [] || !steps[0].Read? {
      var t := Next(s, steps[0]);
      StepInv(s, steps[0]);
      assert Peaceful(steps[1..]) && !steps[0].Poison?;
      if steps[0].Dispatch? {
        DeliveryStep(s, steps, expected, failure);
        ServedInOrder(t, steps[1..], expected[1..], failure);
        if After(s, steps).hand.Stopped? {
          LogKept(t, steps[1..]);
          DeliveredFirst(t.log, After(s, steps).log, NextServed(s), expected);
        }
      } else {
        if steps[0].Read? {
          ReadStep(s, steps, expected, failure);
        } else {
          assert InOrder(s) by { InvInOrder(s); }
          QuietStep(s, steps, expected, failure);
        }
        ServedInOrder(t, steps[1..], expected, failure);
      }
    }
  }

  lemma InvInOrder(s: State)
    requires Inv(s)
    ensures InOrder(s)
  {
  }

  lemma NotStopped(s: State, steps: seq<Step>, expected: seq<Received>, failure: Failure)
    requires Expecting(s, steps, expected, failure)
    ensures !s.hand.Stopped?
  {
  }

  lemma DeliveredFirst(early: seq<Delivery>, log: seq<Delivery>, first: nat, expected: seq<Received>)
    requires expected != [] && expected[0].Reply? && early <= log && Delivered(log, first + 1, expected[1..])
    requires Delivery(first, Answer(expected[0].result, expected[0].tag)) in early
    ensures Delivered(log, first, expected)
  {
    forall i | 0 <= i < |expected| && expected[i].Reply?
      ensures Delivery(first + i, Answer(expected[i].result, expected[i].tag)) in log
    {
      if i > 0 {
        assert expected[1..][i - 1] == expected[i];
      }
    }
  }

  /** Answers the node gives to the requests from `first` on, in order: within the client's caps and with their tags. */
  ghost predicate Answering(answers: seq<RoundTrips.Answered>, first: nat, tagged: bool) {
    && RoundTrips.AllReadable(answers, tagged)
    && forall i :: 0 <= i < |answers| ==>
        !answers[i].reply.Busy? && (tagged ==> answers[i].tag == (first + i) % TAGS)
  }

  /** Each request's channel holds the answer at its place. */
  ghost predicate AllAnswered(log: seq<Delivery>, answers: seq<RoundTrips.Answered>, first: nat, tagged: bool) {
    forall i :: 0 <= i < |answers| ==>
      Delivery(first + i, Answer(RoundTrips.Seen(answers[i].reply), if tagged then answers[i].tag else 0)) in log
  }

  lemma AnswersFit(answers: seq<RoundTrips.Answered>, first: nat, tagged: bool)
    requires Answering(answers, first, tagged)
    ensures Fitting(SeenReplies(answers, tagged), first, tagged)
    ensures forall i :: 0 <= i < |answers| ==>
              SeenReply(answers[i], tagged) ==
              Reply(RoundTrips.Seen(answers[i].reply), if tagged then answers[i].tag else 0)
  {
    hide RoundTrips.AllReadable, RoundTrips.Seen;
    forall i | 0 <= i < |answers|
      ensures SeenReply(answers[i], tagged) ==
              Reply(RoundTrips.Seen(answers[i].reply), if tagged then answers[i].tag else 0)
      ensures RoundTrips.Seen(answers[i].reply).marker != 66
    {
      NotBusy(answers, i, tagged);
    }
  }

  lemma NotBusy(answers: seq<RoundTrips.Answered>, i: nat, tagged: bool)
    requires RoundTrips.AllReadable(answers, tagged) && i < |answers| && !answers[i].reply.Busy?
    ensures Responses.Taggable(answers[i].reply) && RoundTrips.Seen(answers[i].reply).marker != 66
  {
    hide RoundTrips.Readable, RoundTrips.HitsSeen, RoundTrips.AcksSeen, RoundTrips.TouchesSeen, RoundTrips.SecondsSeen;
  }

  /**
   From the node's bytes to the client's channels: if what the read loop reads is a stream of answers, one for
   each request in order, and nobody closes the connection meanwhile, then by the time the loop stops the i-th
   request's channel has been given the i-th answer, whatever else was registered and written on the way.
   */
  lemma AnswersReachRequests(s: State, steps: seq<Step>, answers: seq<RoundTrips.Answered>)
    requires IsRun(s, steps) && Inv(s) && !s.closed && s.hand.Reading? && Solicited(s, steps) && Peaceful(steps)
    requires Answering(answers, |s.replies|, s.tagged) && After(s, steps).hand.Stopped?
    requires Reads(steps) <= Incoming(RoundTrips.StreamOf(answers, s.tagged), s.tagged)
    ensures AllAnswered(After(s, steps).log, answers, |s.replies|, s.tagged)
  {
    hide Inv, Next, Enabled, Fitting, Solicited, Peaceful, RoundTrips.Seen, RoundTrips.StreamOf, RoundTrips.AllReadable,
         Incoming, SeenReply;
    var expected := SeenReplies(answers, s.tagged);
    AnswersFit(answers, |s.replies|, s.tagged);
    IncomingOfAnswers(answers, s.tagged);
    ServedInOrder(s, steps, expected, Ended);
    assert forall i :: 0 <= i < |answers| ==> expected[i] == SeenReply(answers[i], s.tagged);
  }

  // ---- wire order ----

  /** The requests whose frames have been written, in the order they were. */
  ghost function Wire(s: State, steps: seq<Step>): seq<int>
    requires IsRun(s, steps)
    decreases |steps|
  {
    if steps == [] then []
    else (if steps[0].Written? then [|s.registered| - 1] else []) + Wire(Next(s, steps[0]), steps[1..])
  }

  /** How many frames have been written or given up on. */
  function WrittenCount(s: State): int {
    |s.registered| - (if s.writing then 1 else 0)
  }

  lemma {:induction false} WireIsQueue(s: State, steps: seq<Step>, i: nat)
    requires IsRun(s, steps) && i < |Wire(s, steps)|
    ensures Wire(s, steps)[i] == WrittenCount(s) + i
    decreases |steps|
  {
    var t := Next(s, steps[0]);
    assert WrittenCount(t) == WrittenCount(s) + if steps[0].Written? then 1 else 0 by { WrittenStep(s, steps[0]); }
    if !steps[0].Written? {
      WireIsQueue(t, steps[1..], i);
    } else if i > 0 {
      WireIsQueue(t, steps[1..], i - 1);
    }
  }

  lemma WrittenStep(s: State, step: Step)
    requires Enabled(s, step)
    ensures WrittenCount(Next(s, step)) == WrittenCount(s) + if step.Written? then 1 else 0
  {
  }

  /**
   On every run frames go out in the order the requests were queued and tagged: the i-th written is the i-th
   request's.
   */
  lemma FramesInQueueOrder(tagged: bool, steps: seq<Step>, i: nat)
    requires IsRun(Init(tagged), steps) && i < |Wire(Init(tagged), steps)|
    ensures Wire(Init(tagged), steps)[i] == i
  {
    WireIsQueue(Init(tagged), steps, i);
  }
}
