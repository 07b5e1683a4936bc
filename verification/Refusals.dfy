/** How a connection ends: busy nodes, refused requests and closed connections, over every run. */
module Refusals {
  import opened Basics
  import opened ResponseReader
  import opened Pipelining
  import opened Serving

  const BUSY: byte := 66

  // ---- a busy node answers nobody ----

  ghost predicate NobodyToldBusy(log: seq<Delivery>) {
    forall i :: 0 <= i < |log| && log[i].outcome.Answer? ==> log[i].outcome.result.marker != BUSY
  }

  lemma {:induction false} BusyNeverAnswers(s: State, steps: seq<Step>)
    requires IsRun(s, steps) && NobodyToldBusy(s.log)
    ensures NobodyToldBusy(After(s, steps).log)
    decreases |steps|
  {
    if steps != [] {
      hide Enabled, Next;
      BusyStep(s, steps[0]);
      BusyNeverAnswers(Next(s, steps[0]), steps[1..]);
    }
  }

  lemma BusyStep(s: State, step: Step)
    requires Enabled(s, step) && NobodyToldBusy(s.log)
    ensures NobodyToldBusy(Next(s, step).log)
  {
  }

  /** On no run is a busy reply delivered as an answer. */
  lemma NoBusyAnswer(tagged: bool, steps: seq<Step>, d: Delivery)
    requires IsRun(Init(tagged), steps) && d in After(Init(tagged), steps).log && d.outcome.Answer?
    ensures d.outcome.result.marker != BUSY
  {
    BusyNeverAnswers(Init(tagged), steps);
  }

  /** A reply that is not to be delivered: the node is busy, nobody is waiting, or it echoes another tag. */
  predicate Untrusted(tagged: bool, request: Option<Request>, result: RoundTrip, tag: nat) {
    result.marker == BUSY || request.None? || (tagged && tag != request.value.tag)
  }

  /** Such a reply is in hand, or the loop is on its way out over one. */
  predicate Ending(s: State) {
    match s.hand
    case Reading => false
    case Holding(result, _) => result.marker == BUSY
    case Matching(request, result, tag) => Untrusted(s.tagged, request, result, tag)
    case _ => true
  }

  lemma EndingStep(s: State, step: Step)
    requires Enabled(s, step) && Ending(s)
    ensures Ending(Next(s, step)) && !step.Read?
    ensures Next(s, step).hand.Stopped? && !s.hand.Stopped? && !s.hand.Failing? ==> Next(s, step).closed
    ensures Next(s, step).hand.Failing? && !s.hand.Failing? ==> Next(s, step).closed
    ensures s.closed ==> Next(s, step).closed
  {
  }

  /** Once such a reply is in hand, the loop reads nothing more, and when it stops the connection is closed. */
  lemma {:induction false} UntrustedEndsReading(s: State, steps: seq<Step>)
    requires IsRun(s, steps) && Ending(s) && (s.hand.Failing? || s.hand.Stopped? ==> s.closed)
    ensures Reads(steps) == []
    ensures var t := After(s, steps); Ending(t) && (t.hand.Failing? || t.hand.Stopped? ==> t.closed)
    decreases |steps|
  {
    if steps != [] {
      hide Enabled, Next;
      EndingStep(s, steps[0]);
      UntrustedEndsReading(Next(s, steps[0]), steps[1..]);
    }
  }

  // ---- who is told what ----

  /** Whatever was told to this channel, it was `outcome`. */
  ghost predicate ToldOnly(log: seq<Delivery>, id: nat, outcome: Outcome) {
    forall i :: 0 <= i < |log| && log[i].id == id ==> log[i].outcome == outcome
  }

  /** Nobody is told twice, so what was told stays what was told. */
  lemma ToldStays(s: State, steps: seq<Step>, id: nat, outcome: Outcome)
    requires IsRun(s, steps) && Inv(s) && Answered(s.log, id) && ToldOnly(s.log, id, outcome)
    ensures ToldOnly(After(s, steps).log, id, outcome)
  {
    hide Next, Enabled, IsRun;
    RunInv(s, steps);
    LogKept(s, steps);
    var t := After(s, steps);
    var k :| 0 <= k < |s.log| && s.log[k].id == id;
    assert t.log[k] == s.log[k];
    assert OncePerId(t.log);
  }

  lemma ToldNothing(s: State, id: nat, outcome: Outcome)
    requires !Answered(s.log, id)
    ensures ToldOnly(s.log, id, outcome)
  {
  }

  /** The request taken for such a reply is told that the connection is lost, and nothing else. */
  lemma {:induction false} UntrustedLosesRequest(s: State, steps: seq<Step>, request: Request)
    requires IsRun(s, steps) && Inv(s) && Ending(s) && Held(s.hand) == Some(request)
    ensures var t := After(s, steps);
            ToldOnly(t.log, request.id, Lost) && (t.hand.Stopped? ==> Answered(t.log, request.id))
    decreases |steps|
  {
    HeldNotTold(s, request);
    ToldNothing(s, request.id, Lost);
    if steps != [] {
      hide Inv, Enabled, Next, Answered, ToldOnly;
      var t := Next(s, steps[0]);
      StepInv(s, steps[0]);
      EndingStep(s, steps[0]);
      HeldStep(s, steps[0], request);
      if Held(t.hand) == Some(request) {
        UntrustedLosesRequest(t, steps[1..], request);
      } else {
        ToldStays(t, steps[1..], request.id, Lost);
        StaysTold(t, steps[1..], request.id);
      }
    }
  }

  lemma HeldNotTold(s: State, request: Request)
    requires Inv(s) && Held(s.hand) == Some(request)
    ensures !Answered(s.log, request.id)
  {
    assert !Settled(s, request.id);
  }

  /** A request in a hand on its way out stays there until it is told that the connection is lost. */
  lemma HeldStep(s: State, step: Step, request: Request)
    requires Enabled(s, step) && Inv(s) && Ending(s) && Held(s.hand) == Some(request)
    requires !Answered(s.log, request.id)
    ensures var t := Next(s, step);
            Held(t.hand) == Some(request)
            || (Answered(t.log, request.id) && ToldOnly(t.log, request.id, Lost))
  {
    var t := Next(s, step);
    if Held(t.hand) != Some(request) {
      assert t.log[|s.log|] == Delivery(request.id, Lost);
    }
  }

  lemma StaysTold(s: State, steps: seq<Step>, id: nat)
    requires IsRun(s, steps) && Answered(s.log, id)
    ensures Answered(After(s, steps).log, id)
  {
    LogKept(s, steps);
    var k :| 0 <= k < |s.log| && s.log[k].id == id;
    assert After(s, steps).log[k].id == id;
  }

  /** What a request that a poisoning took is told: the first may be told it was refused, all others that it is lost. */
  function Verdict(s: State, j: nat): Outcome {
    if j == 0 && s.rejectFirst then TurnedDown else Lost
  }

  lemma {:induction false} DrainTells(s: State, steps: seq<Step>, j: nat)
    requires IsRun(s, steps) && Inv(s) && s.closed && j < |s.draining|
    ensures ToldOnly(After(s, steps).log, s.draining[j].id, Verdict(s, j))
    ensures After(s, steps).draining == [] ==> Answered(After(s, steps).log, s.draining[j].id)
    decreases |steps|
  {
    DrainingNotTold(s, j);
    ToldNothing(s, s.draining[j].id, Verdict(s, j));
    if steps != [] {
      hide Inv, Enabled, Next, Answered, ToldOnly;
      var t := Next(s, steps[0]);
      StepInv(s, steps[0]);
      DrainStep(s, steps[0], j);
      if steps[0].DrainOne? && j == 0 {
        ToldStays(t, steps[1..], s.draining[j].id, Verdict(s, j));
        StaysTold(t, steps[1..], s.draining[j].id);
      } else {
        DrainTells(t, steps[1..], if steps[0].DrainOne? then j - 1 else j);
      }
    }
  }

  lemma DrainingNotTold(s: State, j: nat)
    requires Inv(s) && s.closed && j < |s.draining|
    ensures !Answered(s.log, s.draining[j].id)
  {
    var i := |s.registered| - |s.draining| + j;
    assert s.draining[j] == s.registered[i];
    assert !Settled(s, i);
  }

  lemma DrainStep(s: State, step: Step, j: nat)
    requires Enabled(s, step) && s.closed && j < |s.draining| && !Answered(s.log, s.draining[j].id)
    ensures var t := Next(s, step);
            && t.closed
            && (step.DrainOne? && j == 0 ==>
                  Answered(t.log, s.draining[j].id) && ToldOnly(t.log, s.draining[j].id, Verdict(s, j)))
            && (step.DrainOne? && j > 0 ==>
                  |t.draining| > j - 1 && t.draining[j - 1] == s.draining[j] && !t.rejectFirst)
            && (!step.DrainOne? ==> t.draining == s.draining && t.rejectFirst == s.rejectFirst)
  {
    if step.DrainOne? && j == 0 {
      var t := Next(s, step);
      assert t.log[|s.log|] == Delivery(s.draining[0].id, Verdict(s, 0));
    }
  }

  /**
   After the node has refused a request on an open connection, the oldest request pending, and only that one, is
   told that it was turned down; every other one pending is told that the connection is lost, and once the
   rejections are done each has been told.
   */
  lemma RefusalTurnsDownOldest(s: State, steps: seq<Step>, j: nat)
    requires Inv(s) && !s.closed && s.hand.Reading? && j < |s.pending|
    requires IsRun(Next(s, Read(Stop(Refused))), steps)
    ensures var t := After(Next(s, Read(Stop(Refused))), steps);
            && ToldOnly(t.log, s.pending[j].id, if j == 0 then TurnedDown else Lost)
            && (t.draining == [] ==> Answered(t.log, s.pending[j].id))
  {
    hide Inv, ToldOnly, Answered;
    StepInv(s, Read(Stop(Refused)));
    DrainTells(Next(s, Read(Stop(Refused))), steps, j);
  }

  /** When an open connection is closed for any other reason, everyone pending is told that it is lost. */
  lemma ClosingLosesPending(s: State, step: Step, steps: seq<Step>, j: nat)
    requires Inv(s) && !s.closed && j < |s.pending| && Enabled(s, step) && step != Read(Stop(Refused)) && !step.Take?
    requires Next(s, step).closed && IsRun(Next(s, step), steps)
    ensures var t := After(Next(s, step), steps);
            && ToldOnly(t.log, s.pending[j].id, Lost)
            && (t.draining == [] ==> Answered(t.log, s.pending[j].id))
  {
    hide Inv, ToldOnly, Answered, IsRun, After;
    StepInv(s, step);
    assert Next(s, step).draining == s.pending && !Next(s, step).rejectFirst;
    DrainTells(Next(s, step), steps, j);
  }

  // ---- only a refusal turns anyone down ----

  ghost predicate NobodyTurnedDown(s: State) {
    !s.rejectFirst && forall i :: 0 <= i < |s.log| ==> !s.log[i].outcome.TurnedDown?
  }

  lemma TurnDownStep(s: State, step: Step)
    requires Enabled(s, step) && NobodyTurnedDown(s) && (step == Read(Stop(Refused)) ==> s.closed)
    ensures NobodyTurnedDown(Next(s, step))
  {
  }

  /** Without a refusal read while the connection is open, nobody is told that they were turned down. */
  lemma {:induction false} OnlyRefusalsTurnDown(s: State, steps: seq<Step>)
    requires IsRun(s, steps) && NobodyTurnedDown(s)
    requires forall i :: 0 <= i < |steps| ==> steps[i] != Read(Stop(Refused))
    ensures NobodyTurnedDown(After(s, steps))
    decreases |steps|
  {
    if steps != [] {
      hide Enabled, Next, NobodyTurnedDown;
      TurnDownStep(s, steps[0]);
      OnlyRefusalsTurnDown(Next(s, steps[0]), steps[1..]);
    }
  }
}
