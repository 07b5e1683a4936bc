/**
 The Go client's pipelined connection as a state machine over its critical sections: writers
 register requests, one reader matches replies to the oldest request, anyone may poison.
 */
module Pipelining {
  import opened Basics
  import opened ResponseReader

  const TAGS: nat := 0x1_0000_0000

  /** A registered request: which channel its result goes to, and the tag its reply must echo. */
  datatype Request = Request(id: nat, tag: nat)

  /** What a request's channel receives. */
  datatype Outcome = Answer(result: RoundTrip, tag: nat) | Lost | TurnedDown

  datatype Delivery = Delivery(id: nat, outcome: Outcome)

  /** Where the read loop is between two critical sections. */
  datatype Hand =
    | Reading
    | Holding(result: RoundTrip, tag: nat)
    | Matching(request: Option<Request>, result: RoundTrip, tag: nat)
    | Failing(loser: Request)
    | Stopped

  /**
   `pending`, `nextTag` and `closed` are the connection's fields; `hand` is the read loop's position,
   `draining` what a poisoner took and has not rejected yet. The last three only record the past.
   */
  datatype State = State(
    tagged: bool,
    nextTag: nat,
    pending: seq<Request>,
    closed: bool,
    writing: bool,
    hand: Hand,
    draining: seq<Request>,
    rejectFirst: bool,
    registered: seq<Request>,
    replies: seq<Received>,
    log: seq<Delivery>)

  datatype Step =
    | Register
    | Written
    | Poison
    | Read(received: Received)
    | Take
    | Dispatch
    | FailHeld
    | DrainOne

  function Init(tagged: bool): State {
    State(tagged, 0, [], false, false, Reading, [], false, [], [], [])
  }

  predicate Enabled(s: State, step: Step) {
    match step
    case Register => !s.writing
    case Written => s.writing
    case Poison => true
    case Read(_) => s.hand.Reading?
    case Take => s.hand.Holding?
    case Dispatch => s.hand.Matching?
    case FailHeld => s.hand.Failing?
    case DrainOne => s.draining != []
  }

  /** Only the first poisoning has any effect: it takes everything still pending. */
  function Poisoned(s: State, rejectFirst: bool): State {
    if s.closed then s
    else s.(closed := true, draining := s.pending, rejectFirst := rejectFirst, pending := [])
  }

  function Deliver(s: State, id: nat, outcome: Outcome): State {
    s.(log := s.log + [Delivery(id, outcome)])
  }

  function Next(s: State, step: Step): State
    requires Enabled(s, step)
  {
    match step
    case Register =>
      if s.closed then s else
        var request := Request(|s.registered|, s.nextTag);
        s.(nextTag := (s.nextTag + 1) % TAGS, pending := s.pending + [request],
           registered := s.registered + [request], writing := true)
    case Written => s.(writing := false)
    case Poison => Poisoned(s, false)
    case Read(Stop(failure)) => Poisoned(s, failure.Refused?).(hand := Stopped)
    case Read(Reply(result, tag)) => s.(hand := Holding(result, tag))
    case Take =>
      if s.pending == [] then s.(hand := Matching(None, s.hand.result, s.hand.tag))
      else s.(hand := Matching(Some(s.pending[0]), s.hand.result, s.hand.tag), pending := s.pending[1..],
              replies := s.replies + [Reply(s.hand.result, s.hand.tag)])
    case Dispatch =>
      if s.hand.result.marker == 66 || s.hand.request.None? then
        Poisoned(s, false).(hand := if s.hand.request.Some? then Failing(s.hand.request.value) else Stopped)
      else if s.tagged && s.hand.tag != s.hand.request.value.tag then
        Poisoned(s, false).(hand := Failing(s.hand.request.value))
      else Deliver(s, s.hand.request.value.id, Answer(s.hand.result, s.hand.tag)).(hand := Reading)
    case FailHeld => Deliver(s, s.hand.loser.id, Lost).(hand := Stopped)
    case DrainOne =>
      Deliver(s, s.draining[0].id, if s.rejectFirst then TurnedDown else Lost)
        .(draining := s.draining[1..], rejectFirst := false)
  }

  ghost predicate IsRun(s: State, steps: seq<Step>)
    decreases |steps|
  {
    steps == [] || (Enabled(s, steps[0]) && IsRun(Next(s, steps[0]), steps[1..]))
  }

  function After(s: State, steps: seq<Step>): State
    requires IsRun(s, steps)
    decreases |steps|
  {
    if steps == [] then s else After(Next(s, steps[0]), steps[1..])
  }

  // ---- the invariant ----

  /** The request the read loop has taken and not answered yet. */
  function Held(hand: Hand): Option<Request> {
    match hand
    case Matching(request, _, _) => request
    case Failing(loser) => Some(loser)
    case _ => None
  }

  /** Some delivery went to `id`. */
  ghost predicate Answered(log: seq<Delivery>, id: nat) {
    exists i :: 0 <= i < |log| && log[i].id == id
  }

  ghost predicate OncePerId(log: seq<Delivery>) {
    forall i, j :: 0 <= i < j < |log| ==> log[i].id != log[j].id
  }

  /** How many requests the read loop has taken: the first so many, in order. */
  function TakenCount(s: State): nat {
    |s.replies|
  }

  /** How many of the requests not taken by the read loop a poisoner has rejected. */
  function DrainStart(s: State): int {
    if s.closed then |s.registered| - |s.draining| else TakenCount(s)
  }

  ghost predicate Numbered(s: State) {
    && s.nextTag == |s.registered| % TAGS
    && forall i :: 0 <= i < |s.registered| ==> s.registered[i] == Request(i, i % TAGS)
  }

  /** Everything registered is, in order: taken by the reader, rejected, still being rejected, or pending. */
  ghost predicate Lined(closed: bool, pending: seq<Request>, draining: seq<Request>, registered: seq<Request>,
                        taken: nat, held: Option<Request>) {
    && taken + |draining| <= |registered|
    && (!closed ==> draining == [] && pending == registered[taken..])
    && (closed ==> pending == [] && draining == registered[|registered| - |draining|..])
    && (held.Some? ==> 0 < taken && held.value == registered[taken - 1])
  }

  ghost predicate InOrder(s: State) {
    Lined(s.closed, s.pending, s.draining, s.registered, |s.replies|, Held(s.hand))
  }

  /** Who has been answered: those taken but the one in hand, and those rejected. */
  predicate Settled(s: State, id: nat) {
    || (id < TakenCount(s) && !(Held(s.hand).Some? && id == TakenCount(s) - 1))
    || (s.closed && TakenCount(s) <= id < DrainStart(s))
  }

  ghost predicate Accounted(s: State) {
    OncePerId(s.log) && forall id: nat :: Settled(s, id) <==> Answered(s.log, id)
  }

  /** An answer went to the request its reply was matched to, by position and, if tagged, by tag. */
  ghost predicate RightAnswer(s: State, d: Delivery) {
    d.outcome.Answer? ==>
      && d.id < |s.replies|
      && d.id < |s.registered|
      && s.replies[d.id] == Reply(d.outcome.result, d.outcome.tag)
      && (s.tagged ==> d.outcome.tag == s.registered[d.id].tag)
  }

  ghost predicate RightAnswers(s: State) {
    && (forall i :: 0 <= i < |s.log| ==> RightAnswer(s, s.log[i]))
    && (s.hand.Matching? && s.hand.request.Some? ==>
          TakenCount(s) > 0 && s.replies[TakenCount(s) - 1] == Reply(s.hand.result, s.hand.tag))
  }

  ghost predicate Inv(s: State) {
    Numbered(s) && InOrder(s) && Accounted(s) && RightAnswers(s)
  }

  lemma InitInv(tagged: bool)
    ensures Inv(Init(tagged))
  {
  }

  lemma StepNumbered(s: State, step: Step)
    requires Numbered(s) && Enabled(s, step)
    ensures Numbered(Next(s, step))
  {
    if step.Register? && !s.closed {
      TagsAdvance(|s.registered|);
    }
  }

  lemma TagsAdvance(n: nat)
    ensures (n % TAGS + 1) % TAGS == (n + 1) % TAGS
  {
  }

  lemma PoisonedLined(s: State, rejectFirst: bool)
    requires InOrder(s)
    ensures InOrder(Poisoned(s, rejectFirst))
    ensures Poisoned(s, rejectFirst).hand == s.hand && Poisoned(s, rejectFirst).replies == s.replies
    ensures Poisoned(s, rejectFirst).registered == s.registered && Poisoned(s, rejectFirst).log == s.log
  {
  }

  lemma RegisterLined(s: State)
    requires InOrder(s) && Enabled(s, Register)
    ensures InOrder(Next(s, Register))
  {
    var t := Next(s, Register);
    var taken := |s.replies|;
    if !s.closed {
      assert t.registered[taken..] == s.registered[taken..] + [t.registered[|s.registered|]];
      assert taken > 0 ==> t.registered[taken - 1] == s.registered[taken - 1];
    }
  }

  lemma TakeLined(s: State)
    requires InOrder(s) && Enabled(s, Take)
    ensures InOrder(Next(s, Take))
  {
    if s.pending != [] {
      TailOfSlice(s.registered, |s.replies|);
    }
  }

  lemma TailOfSlice(s: seq<Request>, from: nat)
    requires from < |s|
    ensures s[from..][0] == s[from] && s[from..][1..] == s[from + 1..]
  {
  }

  lemma DispatchLined(s: State)
    requires InOrder(s) && Enabled(s, Dispatch)
    ensures InOrder(Next(s, Dispatch))
  {
    hide Lined, Poisoned;
    PoisonedLined(s, false);
    var t := Next(s, Dispatch);
    if Held(t.hand).None? {
      DropHeld(t, s.hand);
    }
  }

  lemma DropHeld(t: State, hand: Hand)
    requires Lined(t.closed, t.pending, t.draining, t.registered, |t.replies|, Held(hand)) && Held(t.hand).None?
    ensures InOrder(t)
  {
  }

  lemma StepInOrder(s: State, step: Step)
    requires InOrder(s) && Enabled(s, step)
    ensures InOrder(Next(s, step))
  {
    hide Lined, Poisoned;
    match step
    case Register => RegisterLined(s);
    case Written =>
    case Poison => PoisonedLined(s, false);
    case Read(received) =>
      if received.Stop? {
        PoisonedLined(s, received.failure.Refused?);
      }
    case Take => TakeLined(s);
    case Dispatch => DispatchLined(s);
    case FailHeld => DropHeld(Next(s, step), s.hand);
    case DrainOne => DrainLined(s);
  }

  lemma DrainLined(s: State)
    requires InOrder(s) && Enabled(s, DrainOne)
    ensures InOrder(Next(s, DrainOne))
  {
    TailOfSlice(s.registered, |s.registered| - |s.draining|);
  }

  /** Adding a delivery to someone not answered yet keeps the log a function. */
  lemma LogGrows(log: seq<Delivery>, d: Delivery)
    requires OncePerId(log) && !Answered(log, d.id)
    ensures OncePerId(log + [d])
    ensures forall id: nat :: Answered(log + [d], id) <==> Answered(log, id) || id == d.id
  {
    var next := log + [d];
    forall id: nat
      ensures Answered(next, id) <==> Answered(log, id) || id == d.id
    {
      if Answered(log, id) {
        var i :| 0 <= i < |log| && log[i].id == id;
        assert next[i].id == id;
      }
      assert next[|log|].id == d.id;
    }
  }

  lemma NotSettledNotAnswered(s: State, id: nat)
    requires Accounted(s) && !Settled(s, id)
    ensures !Answered(s.log, id)
  {
  }

  /** A step that delivers to one more request settles exactly that request. */
  lemma DeliveryAccounted(s: State, t: State, d: Delivery)
    requires Accounted(s) && t.log == s.log + [d] && !Settled(s, d.id)
    requires forall id: nat :: Settled(t, id) <==> Settled(s, id) || id == d.id
    ensures Accounted(t)
  {
    NotSettledNotAnswered(s, d.id);
    LogGrows(s.log, d);
  }

  lemma QuietAccounted(s: State, t: State)
    requires Accounted(s) && t.log == s.log
    requires forall id: nat :: Settled(t, id) <==> Settled(s, id)
    ensures Accounted(t)
  {
  }

  lemma DispatchAccounted(s: State)
    requires Numbered(s) && InOrder(s) && Accounted(s) && Enabled(s, Dispatch)
    ensures Accounted(Next(s, Dispatch))
  {
    hide Accounted;
    var t := Next(s, Dispatch);
    if t.log == s.log {
      QuietAccounted(s, t);
    } else {
      DeliveryAccounted(s, t, t.log[|s.log|]);
    }
  }

  lemma FailAccounted(s: State)
    requires Numbered(s) && InOrder(s) && Accounted(s) && Enabled(s, FailHeld)
    ensures Accounted(Next(s, FailHeld))
  {
    hide Accounted;
    var t := Next(s, FailHeld);
    DeliveryAccounted(s, t, t.log[|s.log|]);
  }

  lemma DrainAccounted(s: State)
    requires Numbered(s) && InOrder(s) && Accounted(s) && Enabled(s, DrainOne)
    ensures Accounted(Next(s, DrainOne))
  {
    hide Accounted;
    var t := Next(s, DrainOne);
    assert s.draining[0] == s.registered[|s.registered| - |s.draining|];
    DeliveryAccounted(s, t, t.log[|s.log|]);
  }

  lemma StepAccounted(s: State, step: Step)
    requires Numbered(s) && InOrder(s) && Accounted(s) && Enabled(s, step)
    ensures Accounted(Next(s, step))
  {
    hide Accounted, Numbered;
    match step
    case Dispatch => DispatchAccounted(s);
    case FailHeld => FailAccounted(s);
    case DrainOne => DrainAccounted(s);
    case _ => QuietAccounted(s, Next(s, step));
  }

  /** Requests and replies are only ever added, so answers already given stay right. */
  lemma RightAnswersKept(s: State, t: State)
    requires RightAnswers(s) && t.tagged == s.tagged
    requires s.registered <= t.registered && s.replies <= t.replies
    ensures forall i :: 0 <= i < |s.log| ==> RightAnswer(t, s.log[i])
  {
  }

  lemma StepGrows(s: State, step: Step)
    requires Enabled(s, step)
    ensures var t := Next(s, step);
            t.tagged == s.tagged && s.registered <= t.registered && s.replies <= t.replies
  {
    if !step.Register? && !step.Take? {
      SameLists(s, step);
    }
  }

  lemma SameLists(s: State, step: Step)
    requires Enabled(s, step) && !step.Register? && !step.Take?
    ensures var t := Next(s, step); t.tagged == s.tagged && t.registered == s.registered && t.replies == s.replies
  {
    match step
    case Dispatch =>
    case Read(_) =>
    case _ =>
  }

  lemma StepLogs(s: State, step: Step)
    requires Enabled(s, step)
    ensures var t := Next(s, step);
            && s.log <= t.log && |t.log| <= |s.log| + 1
            && (|t.log| > |s.log| && !step.Dispatch? ==> !t.log[|s.log|].outcome.Answer?)
  {
  }

  lemma StepMatching(s: State, step: Step)
    requires Enabled(s, step)
    ensures Next(s, step).hand.Matching? ==> step.Take? || Next(s, step).hand == s.hand
  {
  }

  lemma DispatchRight(s: State)
    requires Numbered(s) && InOrder(s) && RightAnswers(s) && Enabled(s, Dispatch)
    ensures var t := Next(s, Dispatch); |t.log| > |s.log| ==> RightAnswer(t, t.log[|s.log|])
  {
  }

  lemma TakeRight(s: State)
    requires Enabled(s, Take)
    ensures var t := Next(s, Take);
            t.hand.Matching? && (t.hand.request.Some? ==>
              |t.replies| > 0 && t.replies[|t.replies| - 1] == Reply(t.hand.result, t.hand.tag))
  {
  }

  lemma StepRight(s: State, step: Step)
    requires Numbered(s) && InOrder(s) && RightAnswers(s) && Enabled(s, step)
    ensures RightAnswers(Next(s, step))
  {
    var t := Next(s, step);
    assert RightAnswers(t) by {
      hide Numbered, InOrder, Next;
      StepGrows(s, step);
      StepLogs(s, step);
      StepMatching(s, step);
      RightAnswersKept(s, t);
      if step.Dispatch? {
        DispatchRight(s);
      } else if step.Take? {
        TakeRight(s);
      }
      if !step.Take? {
        KeepsReplies(s, step);
      }
    }
  }

  lemma KeepsReplies(s: State, step: Step)
    requires Enabled(s, step) && !step.Take?
    ensures Next(s, step).replies == s.replies
  {
  }

  lemma StepInv(s: State, step: Step)
    requires Inv(s) && Enabled(s, step)
    ensures Inv(Next(s, step))
  {
    hide Numbered, InOrder, Accounted, RightAnswers, Next;
    StepNumbered(s, step);
    StepInOrder(s, step);
    StepAccounted(s, step);
    StepRight(s, step);
  }

  lemma {:induction false} RunInv(s: State, steps: seq<Step>)
    requires Inv(s) && IsRun(s, steps)
    ensures Inv(After(s, steps))
    decreases |steps|
  {
    hide Inv, Next, Enabled;
    if steps != [] {
      StepInv(s, steps[0]);
      RunInv(Next(s, steps[0]), steps[1..]);
    }
  }

  // ---- what every run keeps ----

  /** No channel is ever sent a second result, so no send blocks. */
  lemma AtMostOneResult(tagged: bool, steps: seq<Step>)
    requires IsRun(Init(tagged), steps)
    ensures var s := After(Init(tagged), steps);
            && (forall i, j :: 0 <= i < j < |s.log| ==> s.log[i].id != s.log[j].id)
            && (forall i :: 0 <= i < |s.log| ==> s.log[i].id < |s.registered|)
  {
    InitInv(tagged);
    RunInv(Init(tagged), steps);
    var s := After(Init(tagged), steps);
    assert forall i :: 0 <= i < |s.log| ==> Answered(s.log, s.log[i].id) && Settled(s, s.log[i].id);
  }

  /** Once the connection is closed and its drain and read loop have finished, every request has its one result. */
  lemma EveryRequestAnswered(tagged: bool, steps: seq<Step>)
    requires IsRun(Init(tagged), steps)
    requires var s := After(Init(tagged), steps); s.closed && s.draining == [] && Held(s.hand).None?
    ensures var s := After(Init(tagged), steps);
            |s.log| == |s.registered| && forall id: nat :: id < |s.registered| <==> Answered(s.log, id)
  {
    InitInv(tagged);
    RunInv(Init(tagged), steps);
    var s := After(Init(tagged), steps);
    assert forall id: nat :: Settled(s, id) <==> id < |s.registered|;
    LogSize(s.log, |s.registered|);
  }

  lemma LogSize(log: seq<Delivery>, n: nat)
    requires OncePerId(log)
    requires forall id: nat :: Answered(log, id) <==> id < n
    ensures |log| == n
  {
    IdsSize(log);
    BelowSize(n);
    forall id: nat
      ensures id in Ids(log) <==> id in Below(n)
    {
      IdsMembers(log, id);
      BelowMembers(n, id);
    }
    assert Ids(log) == Below(n);
  }

  ghost function Ids(log: seq<Delivery>): set<nat> {
    if log == [] then {} else Ids(log[..|log| - 1]) + {log[|log| - 1].id}
  }

  ghost function Below(n: nat): set<nat> {
    if n == 0 then {} else Below(n - 1) + {n - 1}
  }

  lemma {:induction false} IdsMembers(log: seq<Delivery>, id: nat)
    ensures id in Ids(log) <==> Answered(log, id)
  {
    if log != [] {
      var rest := log[..|log| - 1];
      IdsMembers(rest, id);
      if Answered(rest, id) {
        var i :| 0 <= i < |rest| && rest[i].id == id;
        assert log[i].id == id;
      }
      if Answered(log, id) && id != log[|log| - 1].id {
        var i :| 0 <= i < |log| && log[i].id == id;
        assert rest[i].id == id;
      }
    }
  }

  lemma {:induction false} IdsSize(log: seq<Delivery>)
    requires OncePerId(log)
    ensures |Ids(log)| == |log|
  {
    if log != [] {
      var rest := log[..|log| - 1];
      IdsSize(rest);
      IdsMembers(rest, log[|log| - 1].id);
    }
  }

  lemma {:induction false} BelowMembers(n: nat, id: nat)
    ensures id in Below(n) <==> id < n
  {
    if n != 0 {
      BelowMembers(n - 1, id);
    }
  }

  lemma {:induction false} BelowSize(n: nat)
    ensures |Below(n)| == n
  {
    if n != 0 {
      BelowSize(n - 1);
      BelowMembers(n - 1, n - 1);
    }
  }

  /** What is pending carries consecutive tags, oldest first, up to the next tag to be given out. */
  lemma PendingTagsConsecutive(tagged: bool, steps: seq<Step>, i: nat)
    requires IsRun(Init(tagged), steps) && i < |After(Init(tagged), steps).pending|
    ensures var s := After(Init(tagged), steps);
            && (s.pending[i].tag + (|s.pending| - i)) % TAGS == s.nextTag
            && (i + 1 < |s.pending| ==> s.pending[i + 1].tag == (s.pending[i].tag + 1) % TAGS)
  {
    InitInv(tagged);
    RunInv(Init(tagged), steps);
    var s := After(Init(tagged), steps);
    var first := TakenCount(s);
    assert s.pending[i] == s.registered[first + i];
    AddBeforeMod(first + i, |s.pending| - i);
    AddBeforeMod(first + i, 1);
    if i + 1 < |s.pending| {
      assert s.pending[i + 1] == s.registered[first + i + 1];
    }
  }

  lemma {:induction false} AddBeforeMod(a: nat, b: nat)
    ensures (a % TAGS + b) % TAGS == (a + b) % TAGS
  {
    if a >= TAGS {
      AddBeforeMod(a - TAGS, b);
    }
  }

  /** With no more than 2^32 requests outstanding, a tag names at most one of them. */
  lemma OutstandingTagsDistinct(tagged: bool, steps: seq<Step>, i: nat, j: nat)
    requires IsRun(Init(tagged), steps)
    requires i < j < |After(Init(tagged), steps).pending| <= TAGS
    ensures var s := After(Init(tagged), steps); s.pending[i].tag != s.pending[j].tag
  {
    InitInv(tagged);
    RunInv(Init(tagged), steps);
    var s := After(Init(tagged), steps);
    assert s.pending[i] == s.registered[TakenCount(s) + i] && s.pending[j] == s.registered[TakenCount(s) + j];
    NearbyDiffer(TakenCount(s) + i, TakenCount(s) + j);
  }

  lemma NearbyDiffer(a: nat, b: nat)
    requires a < b < a + TAGS
    ensures a % TAGS != b % TAGS
  {
  }

  /** Nothing is queued on a closed connection, and nothing is ever registered on it again. */
  lemma {:induction false} ClosedStaysEmpty(s: State, steps: seq<Step>)
    requires Inv(s) && s.closed && IsRun(s, steps)
    ensures var t := After(s, steps); t.closed && t.pending == [] && t.registered == s.registered
    decreases |steps|
  {
    if steps != [] {
      hide Inv, Enabled;
      StepInv(s, steps[0]);
      ClosedStep(s, steps[0]);
      ClosedStaysEmpty(Next(s, steps[0]), steps[1..]);
    }
  }

  lemma ClosedStep(s: State, step: Step)
    requires Inv(s) && s.closed && Enabled(s, step)
    ensures Next(s, step).closed && Next(s, step).registered == s.registered
  {
  }

  // ---- the replies of a run ----

  /** What the read loop read, in order, the end of the stream included. */
  function Reads(steps: seq<Step>): seq<Received> {
    if steps == [] then []
    else (if steps[0].Read? then [steps[0].received] else []) + Reads(steps[1..])
  }

  /** The replies read on a run, in order. */
  function Arrived(steps: seq<Step>): seq<Received> {
    if steps == [] then [] else ArrivedBy(steps[0]) + Arrived(steps[1..])
  }

  function ArrivedBy(step: Step): seq<Received> {
    if step.Read? && step.received.Reply? then [step.received] else []
  }

  /** A reply read and not matched to a request. */
  function Unmatched(hand: Hand): seq<Received> {
    match hand
    case Holding(result, tag) => [Reply(result, tag)]
    case Matching(None, result, tag) => [Reply(result, tag)]
    case _ => []
  }

  /** The replies matched to requests, then the one in hand, are those that arrived; an unsolicited one ends it all. */
  ghost predicate Tied(s: State, arrived: seq<Received>) {
    if s.hand.Stopped? then s.replies <= arrived else s.replies + Unmatched(s.hand) == arrived
  }

  lemma StepTied(s: State, step: Step, arrived: seq<Received>)
    requires Enabled(s, step) && Tied(s, arrived)
    ensures Tied(Next(s, step), arrived + ArrivedBy(step))
  {
    var t := Next(s, step);
    match step
    case Read(received) =>
      assert s.replies + [] == s.replies;
    case Take =>
      assert s.pending != [] ==> t.replies + [] == t.replies;
      assert arrived + [] == arrived;
    case _ =>
      assert arrived + [] == arrived;
      assert t.replies == s.replies && s.replies + [] == s.replies;
  }

  lemma {:induction false} RunTied(s: State, steps: seq<Step>, arrived: seq<Received>)
    requires IsRun(s, steps) && Tied(s, arrived)
    ensures Tied(After(s, steps), arrived + Arrived(steps))
    decreases |steps|
  {
    hide Next, Enabled, Tied, ArrivedBy;
    if steps == [] {
      assert arrived + [] == arrived;
    } else {
      var first, rest := ArrivedBy(steps[0]), Arrived(steps[1..]);
      StepTied(s, steps[0], arrived);
      RunTied(Next(s, steps[0]), steps[1..], arrived + first);
      assert arrived + first + rest == arrived + (first + rest);
    }
  }

  /**
   Whatever the server sends: the n-th request registered is answered with nothing but the n-th reply read off
   the connection and, on a tagged connection, only if that reply echoes its tag.
   */
  lemma NoMisdelivery(tagged: bool, steps: seq<Step>, d: Delivery)
    requires IsRun(Init(tagged), steps) && d in After(Init(tagged), steps).log && d.outcome.Answer?
    ensures var s := After(Init(tagged), steps);
            && d.id < |Arrived(steps)| && d.id < |s.registered|
            && Arrived(steps)[d.id] == Reply(d.outcome.result, d.outcome.tag)
            && s.registered[d.id].id == d.id
            && (tagged ==> d.outcome.tag == s.registered[d.id].tag)
  {
    hide Next, Enabled, Arrived;
    InitInv(tagged);
    RunInv(Init(tagged), steps);
    SameMode(Init(tagged), steps);
    RunTied(Init(tagged), steps, []);
    assert [] + Arrived(steps) == Arrived(steps);
  }

  lemma {:induction false} SameMode(s: State, steps: seq<Step>)
    requires IsRun(s, steps)
    ensures After(s, steps).tagged == s.tagged
    decreases |steps|
  {
    if steps != [] {
      SameMode(Next(s, steps[0]), steps[1..]);
    }
  }

  // ---- nothing waits for ever once the connection is closed ----

  /** What the read loop and the poisoner still do on their own. */
  function Finishing(s: State): seq<Step>
    decreases |s.draining|
  {
    if s.draining != [] then [DrainOne] + Finishing(Next(s, DrainOne)) else
      match s.hand
      case Holding(_, _) => [Take, Dispatch]
      case Matching(_, _, _) => if Next(s, Dispatch).hand.Failing? then [Dispatch, FailHeld] else [Dispatch]
      case Failing(_) => [FailHeld]
      case _ => []
  }

  /** From any reachable closed state, those steps alone, without the server, leave every request answered. */
  lemma {:induction false} ClosedFinishes(s: State)
    requires Inv(s) && s.closed
    ensures IsRun(s, Finishing(s))
    ensures var t := After(s, Finishing(s));
            t.draining == [] && Held(t.hand).None? && t.registered == s.registered
            && forall id: nat :: id < |s.registered| ==> Answered(t.log, id)
    decreases |s.draining|
  {
    if s.draining != [] {
      hide Inv;
      StepInv(s, DrainOne);
      var next := Next(s, DrainOne);
      ClosedFinishes(next);
      assert Finishing(s)[1..] == Finishing(next);
    } else {
      HandFinishes(s);
      RunInv(s, Finishing(s));
      ClosedStaysEmpty(s, Finishing(s));
      var t := After(s, Finishing(s));
      assert forall id: nat :: id < |s.registered| ==> Settled(t, id);
    }
  }

  lemma HandFinishes(s: State)
    requires Inv(s) && s.closed && s.draining == []
    ensures IsRun(s, Finishing(s))
    ensures var t := After(s, Finishing(s)); t.draining == [] && Held(t.hand).None?
  {
    var steps := Finishing(s);
    if |steps| >= 1 {
      var a := Next(s, steps[0]);
      if |steps| == 2 {
        assert steps[1..] == [steps[1]] && steps[1..][1..] == [];
        assert IsRun(a, steps[1..]);
        assert After(a, steps[1..]) == Next(a, steps[1]);
      } else {
        assert steps[1..] == [];
      }
    }
  }
}
