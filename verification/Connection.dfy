/**
 The Go connection's own code: its critical sections and sends, each one step of the protocol, and the two
 pieces of control flow made of them, the read loop and a request's attempt. Between two of its own sections
 either leaves the other goroutines to do what they like.
 */
module ConnectionModel {
  import opened Basics
  import opened ResponseReader
  import opened Pipelining
  import opened Serving
  import opened Refusals
  import RoundTrips = ReplyRoundTrip

  /** What only one goroutine at a time does: read, hold the write lock, reject what a poisoning took. */
  datatype Role = Reader | Writer | Drainer

  /** A step that falls to whoever plays one of these roles. */
  predicate Falls(step: Step, roles: set<Role>) {
    match step
    case Register => Writer in roles
    case Written => Writer in roles
    case Poison => false
    case DrainOne => Drainer in roles
    case _ => Reader in roles
  }

  class Connection {
    const tagged: bool
    var nextTag: nat
    var pending: seq<Request>
    var closed: bool
    var writing: bool
    var hand: Hand
    var draining: seq<Request>
    var rejectFirst: bool
    var channels: nat
    var log: seq<Delivery>
    ghost var registered: seq<Request>
    ghost var replies: seq<Received>

    ghost predicate Valid()
      reads this
    {
      channels == |registered|
    }

    ghost function Abs(): State
      reads this
    {
      State(tagged, nextTag, pending, closed, writing, hand, draining, rejectFirst, registered, replies, log)
    }

    constructor (mode: bool)
      ensures Valid() && tagged == mode && Abs() == Init(mode) && Inv(Abs())
    {
      tagged := mode;
      nextTag, pending, closed, writing := 0, [], false, false;
      hand, draining, rejectFirst, channels, log := Reading, [], false, 0, [];
      registered, replies := [], [];
      new;
      InitInv(mode);
    }

    /** A request claims its tag and its place in the queue under the lock, unless the connection is closed. */
    method RegisterRequest() returns (request: Option<Request>)
      requires Valid() && Enabled(Abs(), Register)
      modifies this
      ensures Valid() && Abs() == Next(old(Abs()), Register)
      ensures request.None? <==> old(closed)
      ensures request.Some? ==> pending == old(pending) + [request.value]
      ensures request.Some? ==> request.value == Request(|old(registered)|, old(nextTag))
    {
      if closed {
        return None;
      }
      var tag := nextTag;
      nextTag := (nextTag + 1) % TAGS;
      var added := Request(channels, tag);
      channels := channels + 1;
      pending := pending + [added];
      registered := registered + [added];
      writing := true;
      return Some(added);
    }

    /** The frame has been handed to the socket, or could not be. */
    method EndWrite()
      requires Valid() && Enabled(Abs(), Written)
      modifies this
      ensures Valid() && Abs() == Next(old(Abs()), Written)
    {
      writing := false;
    }

    /** Closes the connection once, taking what is pending to reject it outside the lock. */
    method PoisonRejecting(rejected: bool)
      requires Valid()
      modifies this
      ensures Valid() && Abs() == Poisoned(old(Abs()), rejected)
    {
      if closed {
        return;
      }
      closed := true;
      draining := pending;
      rejectFirst := rejected;
      pending := [];
    }

    /** One reply, or the end of the stream, as the read loop sees it. */
    method Receive(received: Received)
      requires Valid() && Enabled(Abs(), Read(received))
      modifies this
      ensures Valid() && Abs() == Next(old(Abs()), Read(received))
    {
      match received
      case Stop(failure) =>
        PoisonRejecting(failure.Refused?);
        hand := Stopped;
      case Reply(result, tag) =>
        hand := Holding(result, tag);
    }

    /** The oldest pending request leaves the queue, if there is one. */
    method TakeOldest()
      requires Valid() && Enabled(Abs(), Take)
      modifies this
      ensures Valid() && Abs() == Next(old(Abs()), Take)
    {
      if pending == [] {
        hand := Matching(None, hand.result, hand.tag);
      } else {
        replies := replies + [Reply(hand.result, hand.tag)];
        hand := Matching(Some(pending[0]), hand.result, hand.tag);
        pending := pending[1..];
      }
    }

    /** Busy, unsolicited or misaligned replies poison the connection; any other goes to the request taken. */
    method DispatchReply()
      requires Valid() && Enabled(Abs(), Dispatch)
      modifies this
      ensures Valid() && Abs() == Next(old(Abs()), Dispatch)
    {
      var request := hand.request;
      if hand.result.marker == 66 {
        PoisonRejecting(false);
        hand := if request.Some? then Failing(request.value) else Stopped;
      } else if request.None? {
        PoisonRejecting(false);
        hand := Stopped;
      } else if tagged && hand.tag != request.value.tag {
        PoisonRejecting(false);
        hand := Failing(request.value);
      } else {
        log := log + [Delivery(request.value.id, Answer(hand.result, hand.tag))];
        hand := Reading;
      }
    }

    /** The request the read loop had taken learns that the connection is lost. */
    method FailTaken()
      requires Valid() && Enabled(Abs(), FailHeld)
      modifies this
      ensures Valid() && Abs() == Next(old(Abs()), FailHeld)
    {
      log := log + [Delivery(hand.loser.id, Lost)];
      hand := Stopped;
    }

    /** The poisoner rejects the next of the requests it took. */
    method RejectNext()
      requires Valid() && Enabled(Abs(), DrainOne)
      modifies this
      ensures Valid() && Abs() == Next(old(Abs()), DrainOne)
    {
      log := log + [Delivery(draining[0].id, if rejectFirst then TurnedDown else Lost)];
      draining := draining[1..];
      rejectFirst := false;
    }

    method Perform(step: Step)
      requires Valid() && Enabled(Abs(), step)
      modifies this
      ensures Valid() && Abs() == Next(old(Abs()), step)
    {
      hide Enabled, Next, Poisoned;
      match step
      case Register =>
        var _ := RegisterRequest();
      case Written =>
        EndWrite();
      case Poison =>
        PoisonRejecting(false);
        PoisonStep(old(Abs()));
      case Read(received) =>
        Receive(received);
      case Take =>
        TakeOldest();
      case Dispatch =>
        DispatchReply();
      case FailHeld =>
        FailTaken();
      case DrainOne =>
        RejectNext();
    }

    /** Any interleaving of writers, reader and poisoners. */
    method Interleave(steps: seq<Step>)
      requires Valid() && Inv(Abs()) && IsRun(Abs(), steps)
      modifies this
      ensures Valid() && Inv(Abs())
      ensures Abs() == After(old(Abs()), steps)
    {
      hide Enabled, Next, Inv;
      for i := 0 to |steps|
        invariant Valid() && Inv(Abs()) && IsRun(Abs(), steps[i..])
        invariant After(Abs(), steps[i..]) == After(old(Abs()), steps)
      {
        assert steps[i..][0] == steps[i] && steps[i..][1..] == steps[i + 1..];
        StepInv(Abs(), steps[i]);
        Perform(steps[i]);
      }
      assert steps[|steps|..] == [];
    }

    predicate CanHappen(step: Step)
      reads this
      ensures CanHappen(step) <==> Enabled(Abs(), step)
    {
      match step
      case Register => !writing
      case Written => writing
      case Poison => true
      case Read(_) => hand.Reading?
      case Take => hand.Holding?
      case Dispatch => hand.Matching?
      case FailHeld => hand.Failing?
      case DrainOne => draining != []
    }

    /** The other goroutines' turn: whatever of `others` does not fall to `roles` and can happen. */
    method LetOthers(others: seq<Step>, roles: set<Role>) returns (ghost done: seq<Step>)
      requires Valid() && Inv(Abs())
      modifies this
      ensures Valid() && Inv(Abs())
      ensures IsRun(old(Abs()), done) && Abs() == After(old(Abs()), done)
      ensures Leaves(done, roles) && forall step :: step in done ==> step in others
    {
      hide Inv, Next, Enabled, Falls;
      done := [];
      for i := 0 to |others|
        invariant Valid() && Inv(Abs())
        invariant IsRun(old(Abs()), done) && Abs() == After(old(Abs()), done)
        invariant Leaves(done, roles) && forall step :: step in done ==> step in others
      {
        if !Falls(others[i], roles) && CanHappen(others[i]) {
          StepInv(Abs(), others[i]);
          RunStep(old(Abs()), done, others[i]);
          Perform(others[i]);
          done := done + [others[i]];
        }
      }
    }

    /** The rest of a poisoning: every request it took is rejected, in order, outside the lock. */
    method RejectAll(others: nat -> seq<Step>, from: nat, roles: set<Role>) returns (gap: nat, ghost steps: seq<Step>)
      requires Valid() && Inv(Abs()) && closed && Drainer in roles
      modifies this
      ensures Valid() && Inv(Abs()) && draining == [] && closed
      ensures IsRun(old(Abs()), steps) && Abs() == After(old(Abs()), steps)
      ensures Reader in roles ==> hand == old(hand) && Reads(steps) == []
      ensures Calm(others) ==> Peaceful(steps)
    {
      hide Inv, Next, Enabled, Falls, Peaceful, Calm;
      gap, steps := from, [];
      NothingYet(Abs());
      while draining != []
        invariant Valid() && Inv(Abs()) && closed
        invariant IsRun(old(Abs()), steps) && Abs() == After(old(Abs()), steps)
        invariant Reader in roles ==> hand == old(hand) && Reads(steps) == []
        invariant Calm(others) ==> Peaceful(steps)
        decreases |draining|
      {
        ghost var s := Abs();
        ghost var done;
        done := LetOthers(others(gap), roles);
        Meanwhile(s, done, roles);
        CalmSteps(done, others, gap);
        PartTaken(old(Abs()), steps, done);
        gap, steps := gap + 1, steps + done;

        CanDrain(Abs());
        StepTaken(old(Abs()), steps, DrainOne);
        DrainedOne(Abs());
        RejectNext();
        steps := steps + [DrainOne];
      }
    }

    /**
     The read loop: it reads a reply, takes the oldest request for it, checks it, and hands it over, until a
     read fails or a reply is not to be trusted; then it closes the connection, rejecting what is pending.
     Whatever the others do in between, all that happens is a run of the protocol, what is read is what the
     stream's bytes come to, and if nobody else closes the connection every request ends with one result: the
     answer at its place, if the stream is the node's answers to them.
     */
    method ReadLoop(stream: Stream, others: nat -> seq<Step>) returns (ghost steps: seq<Step>)
      requires Valid() && Inv(Abs()) && hand.Reading?
      modifies this, stream
      ensures Valid() && Inv(Abs()) && hand.Stopped? && closed
      ensures IsRun(old(Abs()), steps) && Abs() == After(old(Abs()), steps)
      ensures Reads(steps) <= Incoming(old(stream.input), tagged)
      ensures NobodyToldBusy(old(log)) ==> NobodyToldBusy(log)
      ensures !old(closed) && Calm(others) ==> forall id: nat :: id < |registered| <==> Answered(log, id)
      ensures !old(closed) && Calm(others) && Solicited(old(Abs()), steps) ==>
                forall answers :: Answering(answers, |old(replies)|, tagged)
                                  && old(stream.input) == RoundTrips.StreamOf(answers, tagged) ==>
                  AllAnswered(log, answers, |old(replies)|, tagged)
    {
      hide Inv, Next, Enabled, Peaceful, Calm, ResponseReader.Receive, Incoming, IsRun, After, Reads, Solicited,
        Answering, AllAnswered, RoundTrips.StreamOf, Answered, NobodyToldBusy;
      steps := [];
      NothingYet(Abs());
      var gap := 0;
      ghost var coming := Incoming(stream.input, tagged);
      while true
        invariant Valid() && Inv(Abs()) && hand.Reading?
        invariant IsRun(old(Abs()), steps) && Abs() == After(old(Abs()), steps)
        invariant Reads(steps) + Incoming(stream.input, tagged) == coming
        invariant Calm(others) ==> Peaceful(steps) && (!old(closed) ==> !closed)
        decreases |stream.input|
      {
        var received, open;
        ghost var more;
        gap, received, open, more := ReadNext(stream, others, gap);
        PartTaken(old(Abs()), steps, more);
        steps := steps + more;
        if received.Reply? {
          gap, open, more := MatchReply(others, gap);
          PartTaken(old(Abs()), steps, more);
          steps := steps + more;
        }
        if !hand.Reading? {
          more := Shut(open, others, gap);
          PartTaken(old(Abs()), steps, more);
          steps := steps + more;
          if NobodyToldBusy(old(log)) {
            BusyNeverAnswers(old(Abs()), steps);
          }
          if !old(closed) && Calm(others) {
            LoopEnds(old(Abs()), steps, old(stream.input));
          }
          return;
        }
      }
    }

    /** A blocking read. `open`: the connection was, so a failure closes it here. */
    method ReadNext(stream: Stream, others: nat -> seq<Step>, from: nat)
      returns (gap: nat, received: Received, open: bool, ghost steps: seq<Step>)
      requires Valid() && Inv(Abs()) && hand.Reading?
      modifies this, stream
      ensures Valid() && Inv(Abs()) && IsRun(old(Abs()), steps) && Abs() == After(old(Abs()), steps)
      ensures Reads(steps) == [received]
      ensures if received.Reply? then
                && hand.Holding? && |stream.input| < |old(stream.input)|
                && Incoming(old(stream.input), tagged) == [received] + Incoming(stream.input, tagged)
              else hand.Stopped? && closed && Incoming(old(stream.input), tagged) == [received]
      ensures Calm(others) ==> Peaceful(steps) && (!old(closed) ==> open && (received.Reply? ==> !closed))
    {
      hide Inv, Next, Enabled, Peaceful, Calm, ResponseReader.Receive, Incoming, IsRun, After, Reads;
      gap, steps := AwaitTurn(others, from);
      received := stream.ReadOne(tagged);
      IncomingNext(old(stream.input), tagged, received, stream.input);
      ReaderStep(Abs(), Read(received));
      StepTaken(old(Abs()), steps, Read(received));
      open := !closed;
      Receive(received);
      steps := steps + [Read(received)];
    }

    /** The reply in hand goes to the oldest request, or the connection is closed over it. */
    method MatchReply(others: nat -> seq<Step>, from: nat) returns (gap: nat, open: bool, ghost steps: seq<Step>)
      requires Valid() && Inv(Abs()) && hand.Holding?
      modifies this
      ensures Valid() && Inv(Abs()) && IsRun(old(Abs()), steps) && Abs() == After(old(Abs()), steps)
      ensures Reads(steps) == []
      ensures hand.Reading? || (closed && (hand.Failing? || hand.Stopped?))
      ensures Calm(others) ==> Peaceful(steps) && (!old(closed) ==> open && (hand.Reading? ==> !closed))
    {
      hide Inv, Next, Enabled, Peaceful, Calm, IsRun, After, Reads;
      ghost var more;
      gap, steps := AwaitTurn(others, from);
      ReaderStep(Abs(), Take);
      StepTaken(old(Abs()), steps, Take);
      TakeOldest();
      steps := steps + [Take];

      gap, more := AwaitTurn(others, gap);
      PartTaken(old(Abs()), steps, more);
      steps := steps + more;

      ReaderStep(Abs(), Dispatch);
      StepTaken(old(Abs()), steps, Dispatch);
      open := !closed;
      DispatchReply();
      steps := steps + [Dispatch];
    }

    /**
     The end of the read loop: if it closed the connection it rejects what was pending, then the request it had
     taken.
     */
    method Shut(open: bool, others: nat -> seq<Step>, from: nat) returns (ghost steps: seq<Step>)
      requires Valid() && Inv(Abs()) && closed && (hand.Failing? || hand.Stopped?)
      modifies this
      ensures Valid() && Inv(Abs()) && hand.Stopped? && closed && (open ==> draining == [])
      ensures IsRun(old(Abs()), steps) && Abs() == After(old(Abs()), steps)
      ensures Reads(steps) == [] && (Calm(others) ==> Peaceful(steps))
    {
      hide Inv, Next, Enabled, Peaceful, Calm, IsRun, After, Reads;
      steps := [];
      NothingYet(Abs());
      if open {
        var _, rejected := RejectAll(others, from, {Reader, Drainer});
        steps := rejected;
      }
      if hand.Failing? {
        ReaderStep(Abs(), FailHeld);
        StepTaken(old(Abs()), steps, FailHeld);
        FailTaken();
        steps := steps + [FailHeld];
      }
    }

    /**
     One attempt at a request: it takes its tag and its place in the queue, then writes its frame; a failed
     write closes the connection. The frame was surely not sent exactly when there is no channel to wait on,
     and otherwise the request is queued, in the reader's hand, about to be rejected or answered: never lost.
     */
    method Attempt(sent: bool, others: nat -> seq<Step>) returns (request: Option<Request>, ghost steps: seq<Step>)
      requires Valid() && Inv(Abs()) && !writing
      modifies this
      ensures Valid() && Inv(Abs()) && IsRun(old(Abs()), steps) && Abs() == After(old(Abs()), steps)
      ensures request.None? <==> old(closed) || !sent
      ensures request.Some? ==> request.value == Request(|old(registered)|, old(nextTag))
      ensures request.Some? ==> request.value.id < |registered| && Waiting(Abs(), request.value)
      ensures old(closed) ==> Abs() == old(Abs())
      ensures !old(closed) && !sent ==> closed && pending == []
    {
      hide Inv, Next, Enabled, Falls, IsRun, After, Peaceful, Calm;
      WriterStep(Abs(), Register);
      StepFirst(Abs(), Register);
      request := RegisterRequest();
      steps := [Register];
      if request.None? {
        return;
      }
      ghost var s, more := Abs(), [];
      more := LetOthers(others(0), {Writer});
      Meanwhile(s, more, {Writer});
      PartTaken(old(Abs()), steps, more);
      steps := steps + more;

      WriterStep(Abs(), Written);
      StepTaken(old(Abs()), steps, Written);
      EndWrite();
      steps := steps + [Written];
      if !sent {
        more := LetOthers(others(1), {});
        PartTaken(old(Abs()), steps, more);
        steps := steps + more;

        PoisonStep(Abs());
        StepTaken(old(Abs()), steps, Poison);
        var open := !closed;
        PoisonRejecting(false);
        steps := steps + [Poison];
        if open {
          var _, rejected := RejectAll(others, 2, {Drainer});
          PartTaken(old(Abs()), steps, rejected);
          steps := steps + rejected;
        }
        ClosedIsEmpty(Abs());
        request := None;
        return;
      }
      NeverLost(Abs(), request.value);
    }

    /** The others' turn while the read loop is between two of its sections. */
    method AwaitTurn(others: nat -> seq<Step>, from: nat) returns (gap: nat, ghost done: seq<Step>)
      requires Valid() && Inv(Abs())
      modifies this
      ensures Valid() && Inv(Abs()) && hand == old(hand) && (old(closed) ==> closed)
      ensures IsRun(old(Abs()), done) && Abs() == After(old(Abs()), done) && Reads(done) == []
      ensures Calm(others) ==> Peaceful(done) && (!old(closed) ==> !closed)
    {
      hide Inv, Next, Enabled, Falls;
      done := LetOthers(others(from), {Reader});
      Meanwhile(old(Abs()), done, {Reader});
      CalmTurn(old(Abs()), done, others, from);
      gap := from + 1;
    }
  }

  ghost predicate Leaves(steps: seq<Step>, roles: set<Role>) {
    forall i :: 0 <= i < |steps| ==> !Falls(steps[i], roles)
  }

  /** Nobody else closes the connection. */
  ghost predicate Calm(others: nat -> seq<Step>) {
    forall n: nat, i: nat :: i < |others(n)| ==> !others(n)[i].Poison?
  }

  /** Where a read loop that closed the connection itself leaves the requests. */
  lemma LoopEnds(s: State, steps: seq<Step>, input: Bytes)
    requires IsRun(s, steps) && Inv(s) && !s.closed && s.hand.Reading? && Peaceful(steps)
    requires Reads(steps) <= Incoming(input, s.tagged)
    requires var t := After(s, steps); t.hand.Stopped? && t.closed && t.draining == []
    ensures var t := After(s, steps); forall id: nat :: id < |t.registered| <==> Answered(t.log, id)
    ensures Solicited(s, steps) ==>
              forall answers :: Answering(answers, |s.replies|, s.tagged)
                                && input == RoundTrips.StreamOf(answers, s.tagged) ==>
                AllAnswered(After(s, steps).log, answers, |s.replies|, s.tagged)
  {
    hide Next, Enabled, IsRun, Reads, Incoming, Peaceful, Solicited, Answering, AllAnswered, RoundTrips.StreamOf;
    RunInv(s, steps);
    var t := After(s, steps);
    assert forall id: nat :: Settled(t, id) <==> id < |t.registered|;
    if Solicited(s, steps) {
      forall answers | Answering(answers, |s.replies|, s.tagged) && input == RoundTrips.StreamOf(answers, s.tagged)
        ensures AllAnswered(t.log, answers, |s.replies|, s.tagged)
      {
        AnswersReachRequests(s, steps, answers);
      }
    }
  }

  /** Where a request can be: queued, in the reader's hand, about to be rejected, or answered. */
  ghost predicate Waiting(s: State, request: Request) {
    request in s.pending || request in s.draining || Held(s.hand) == Some(request) || Answered(s.log, request.id)
  }

  lemma NeverLost(s: State, request: Request)
    requires Inv(s) && request in s.registered
    ensures Waiting(s, request)
  {
    var i :| 0 <= i < |s.registered| && s.registered[i] == request;
    assert request.id == i;
    if !Settled(s, i) && Held(s.hand) != Some(request) {
      if s.closed {
        assert s.draining[i - (|s.registered| - |s.draining|)] == request;
      } else {
        assert s.pending[i - |s.replies|] == request;
      }
    }
  }

  lemma ClosedIsEmpty(s: State)
    requires Inv(s) && s.closed
    ensures s.pending == []
  {
  }

  lemma WriterStep(s: State, step: Step)
    requires (step.Register? && !s.writing) || (step.Written? && s.writing)
    ensures Enabled(s, step)
    ensures var t := Next(s, step);
            && t.closed == s.closed && (s.closed && step.Register? ==> t == s)
            && (step.Written? ==> t.registered == s.registered)
            && (step.Register? && !s.closed ==>
                  t.writing && t.registered == s.registered + [Request(|s.registered|, s.nextTag)])
  {
  }

  lemma StepFirst(s: State, step: Step)
    requires Enabled(s, step) && Inv(s)
    ensures IsRun(s, [step]) && After(s, [step]) == Next(s, step) && Inv(Next(s, step))
  {
    hide Inv, Next, Enabled;
    StepInv(s, step);
    assert [step][1..] == [];
    assert IsRun(Next(s, step), []);
  }

  lemma NothingYet(s: State)
    ensures IsRun(s, []) && After(s, []) == s && Reads([]) == [] && Peaceful([])
  {
  }

  /** The reader's own steps: where they leave it, and when they close the connection. */
  lemma ReaderStep(s: State, step: Step)
    requires match step
             case Read(_) => s.hand.Reading?
             case Take => s.hand.Holding?
             case Dispatch => s.hand.Matching?
             case FailHeld => s.hand.Failing?
             case _ => false
    ensures Enabled(s, step)
    ensures var t := Next(s, step);
            match step
            case Read(Reply(_, _)) => t.hand.Holding? && t.closed == s.closed
            case Read(Stop(_)) => t.hand.Stopped? && t.closed
            case Take => t.hand.Matching? && t.closed == s.closed
            case Dispatch =>
              if t.hand.Reading? then t.closed == s.closed else t.closed && (t.hand.Failing? || t.hand.Stopped?)
            case _ => t.hand.Stopped? && t.closed == s.closed && t.draining == s.draining
  {
  }

  /** Nobody but the reader and a poisoner closes the connection. */
  lemma {:induction false} CalmTurn(s: State, done: seq<Step>, others: nat -> seq<Step>, gap: nat)
    requires IsRun(s, done) && Leaves(done, {Reader}) && forall step :: step in done ==> step in others(gap)
    ensures Calm(others) ==> Peaceful(done) && (!s.closed ==> !After(s, done).closed)
    decreases |done|
  {
    hide Next, Enabled, Calm;
    CalmSteps(done, others, gap);
    if Calm(others) && done != [] {
      assert !Falls(done[0], {Reader}) && Leaves(done[1..], {Reader});
      StaysOpen(s, done[0]);
      CalmTurn(Next(s, done[0]), done[1..], others, gap);
    }
  }

  lemma CalmSteps(done: seq<Step>, others: nat -> seq<Step>, gap: nat)
    requires forall step :: step in done ==> step in others(gap)
    ensures Calm(others) ==> Peaceful(done)
  {
    if Calm(others) {
      forall i | 0 <= i < |done| ensures !done[i].Poison? {
        assert done[i] in others(gap);
      }
    }
  }

  lemma StaysOpen(s: State, step: Step)
    requires Enabled(s, step) && !Falls(step, {Reader}) && !step.Poison?
    ensures Next(s, step).closed == s.closed
  {
  }

  lemma IncomingNext(input: Bytes, tagged: bool, received: Received, left: Bytes)
    requires Matches(received, ResponseReader.Receive(input, tagged), input, left)
    ensures received.Reply? ==> Incoming(input, tagged) == [received] + Incoming(left, tagged) && |left| < |input|
    ensures received.Stop? ==> Incoming(input, tagged) == [received]
  {
    hide ResponseReader.Receive;
  }

  /** A run goes on with more of it. */
  lemma PartTaken(s: State, steps: seq<Step>, more: seq<Step>)
    requires IsRun(s, steps) && IsRun(After(s, steps), more)
    ensures IsRun(s, steps + more) && After(s, steps + more) == After(After(s, steps), more)
    ensures Reads(steps + more) == Reads(steps) + Reads(more)
    ensures Peaceful(steps) && Peaceful(more) ==> Peaceful(steps + more)
  {
    hide Next, Enabled;
    RunConcat(s, steps, more);
    ReadsConcat(steps, more);
  }

  /** A run goes on with one step of this goroutine's own. */
  lemma StepTaken(s: State, steps: seq<Step>, step: Step)
    requires IsRun(s, steps) && Enabled(After(s, steps), step) && Inv(After(s, steps))
    ensures IsRun(s, steps + [step]) && After(s, steps + [step]) == Next(After(s, steps), step)
    ensures Inv(After(s, steps + [step]))
    ensures Reads(steps + [step]) == Reads(steps) + if step.Read? then [step.received] else []
    ensures Peaceful(steps) && !step.Poison? ==> Peaceful(steps + [step])
  {
    hide Next, Enabled, Inv;
    RunStep(s, steps, step);
    ReadsOne(steps, step);
    StepInv(After(s, steps), step);
  }

  lemma RunStep(s: State, steps: seq<Step>, step: Step)
    requires IsRun(s, steps) && Enabled(After(s, steps), step)
    ensures IsRun(s, steps + [step]) && After(s, steps + [step]) == Next(After(s, steps), step)
  {
    hide Enabled, Next;
    var t := After(s, steps);
    assert [step][1..] == [] && IsRun(Next(t, step), []);
    RunConcat(s, steps, [step]);
  }

  /** What the others' turn leaves alone: the reader's place, and what a poisoner has still to reject. */
  lemma {:induction false} Meanwhile(s: State, steps: seq<Step>, roles: set<Role>)
    requires IsRun(s, steps) && Leaves(steps, roles)
    ensures var t := After(s, steps);
            && t.tagged == s.tagged && (s.closed ==> t.closed)
            && (Reader in roles ==> t.hand == s.hand && t.replies == s.replies && Reads(steps) == [])
            && (Drainer in roles && s.closed ==> t.draining == s.draining)
            && (Writer in roles ==> t.writing == s.writing && t.registered == s.registered)
    decreases |steps|
  {
    hide Next, Enabled;
    if steps != [] {
      assert !Falls(steps[0], roles);
      MeanwhileStep(s, steps[0], roles);
      assert Leaves(steps[1..], roles);
      Meanwhile(Next(s, steps[0]), steps[1..], roles);
    }
  }

  lemma MeanwhileStep(s: State, step: Step, roles: set<Role>)
    requires Enabled(s, step) && !Falls(step, roles)
    ensures var t := Next(s, step);
            && t.tagged == s.tagged && (s.closed ==> t.closed)
            && (Reader in roles ==> t.hand == s.hand && t.replies == s.replies && !step.Read?)
            && (Drainer in roles && s.closed ==> t.draining == s.draining)
            && (Writer in roles ==> t.writing == s.writing && t.registered == s.registered)
  {
    hide Next;
    OnlyReaderMoves(s, step);
    OnlyWriterWrites(s, step);
    OnlyDrainerDrains(s, step);
  }

  lemma OnlyReaderMoves(s: State, step: Step)
    requires Enabled(s, step)
    ensures var t := Next(s, step);
            step.Register? || step.Written? || step.Poison? || step.DrainOne? ==>
              t.hand == s.hand && t.replies == s.replies
  {
  }

  lemma OnlyWriterWrites(s: State, step: Step)
    requires Enabled(s, step)
    ensures var t := Next(s, step);
            !step.Register? && !step.Written? ==> t.writing == s.writing && t.registered == s.registered
  {
  }

  lemma OnlyDrainerDrains(s: State, step: Step)
    requires Enabled(s, step)
    ensures var t := Next(s, step);
            && t.tagged == s.tagged && (s.closed ==> t.closed)
            && (s.closed && !step.DrainOne? ==> t.draining == s.draining)
  {
  }

  lemma ReadsOne(steps: seq<Step>, step: Step)
    ensures Reads(steps + [step]) == Reads(steps) + if step.Read? then [step.received] else []
  {
    ReadsConcat(steps, [step]);
    assert [step][1..] == [];
  }

  lemma CanDrain(s: State)
    requires s.draining != []
    ensures Enabled(s, DrainOne)
  {
  }

  lemma DrainedOne(s: State)
    requires s.draining != []
    ensures var t := Next(s, DrainOne);
            t.draining == s.draining[1..] && t.hand == s.hand && t.closed == s.closed
  {
  }

  lemma PoisonStep(s: State)
    ensures Enabled(s, Poison) && Next(s, Poison) == Poisoned(s, false)
  {
  }
}
