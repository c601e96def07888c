/**
 The other half of `Admission.ReturnedCallsFollowTheLoop`: whatever the sequential retry loop can do, some run of the
 client does, down to the last POST.
 */
module AdmissionReach {
  import opened Errors
  import opened Admission
  import opened AdmissionRate
  import Retry

  /** The answers received so far are the first outcomes of `w`. */
  ghost predicate AnswersFollow(answers: seq<Answer>, w: Retry.World<string>) {
    forall k :: 0 <= k < |answers| ==> answers[k].result == w.outcome(k)
  }

  /** The call, about to send POST number `attempt`, is led through the rest of the loop. */
  lemma {:induction false} Finish(s: Client, i: nat, w: Retry.World<string>) returns (es: seq<Event>)
    requires Usable(s) && i < |s.calls| && s.calls[i].phase.Ready? && s.calls[i].phase.attempt <= s.retry.maxRetries
    requires |s.calls[i].sent| == |s.calls[i].answers| == s.calls[i].phase.attempt && AnswersFollow(s.calls[i].answers, w)
    ensures IsRun(s, es)
    ensures var (s', t) := (Run(s, es), Retry.RunFrom(s.retry, w, s.calls[i].phase.attempt));
            && i < |s'.calls| && s'.calls[i].phase == Returned(t.result)
            && |s'.calls[i].sent| == |s'.calls[i].answers| == t.posts && AnswersFollow(s'.calls[i].answers, w)
    decreases s.retry.maxRetries - s.calls[i].phase.attempt
  {
    hide Step, Enabled, Retry.Retries, Retry.WaitAfter;
    var k := s.calls[i].phase.attempt;
    es := AnswerOne(s, i, w.outcome(k));
    var s1 := Run(s, es);
    if Retry.Retries(w.outcome(k)) && k < s.retry.maxRetries {
      if w.interrupted(k + 1) {
        var more := Interrupt(s1, i);
        Concat(s, es, more);
        es := es + more;
      } else {
        var more := SitOut(s1, i);
        Concat(s, es, more);
        es := es + more;
        var rest := Finish(Run(s, es), i, w);
        Concat(s, es, rest);
        es := es + rest;
      }
    }
  }

  lemma AnswerOne(s: Client, i: nat, r: Result<string>) returns (es: seq<Event>)
    requires Usable(s) && i < |s.calls| && s.calls[i].phase.Ready?
    ensures IsRun(s, es)
    ensures var (c, s') := (s.calls[i], Run(s, es));
            && i < |s'.calls|
            && s'.calls[i] == Answered(s.retry, s.clock, c.(phase := InFlight(c.phase.attempt), sent := c.sent + [s.clock]), r)
  {
    es := [];
    Extend(s, es, Send(i));
    es := es + [Send(i)];
    Extend(s, es, Respond(i, r));
    es := es + [Respond(i, r)];
  }

  lemma Interrupt(s: Client, i: nat) returns (es: seq<Event>)
    requires Usable(s) && i < |s.calls| && s.calls[i].phase.BackingOff?
    ensures IsRun(s, es)
    ensures var s' := Run(s, es);
            i < |s'.calls| && s'.calls[i] == Leave(s.calls[i], Returned(Err(Retry.SHUTDOWN_IN_BACKOFF)))
  {
    es := [];
    Extend(s, es, ShutDown);
    es := es + [ShutDown];
    Extend(s, es, CancelBackoff(i));
    es := es + [CancelBackoff(i)];
  }

  lemma SitOut(s: Client, i: nat) returns (es: seq<Event>)
    requires Usable(s) && i < |s.calls| && s.calls[i].phase.BackingOff?
    ensures IsRun(s, es)
    ensures var s' := Run(s, es);
            i < |s'.calls| && s'.calls[i] == s.calls[i].(phase := Ready(s.calls[i].phase.attempt))
  {
    var until := s.calls[i].phase.until;
    es := [];
    Extend(s, es, Tick(until));
    es := es + [Tick(until)];
    Extend(s, es, EndBackoff(i));
    es := es + [EndBackoff(i)];
  }

  /** At any await point a call can be dropped, and its permit is free at once. */
  lemma AnyWaitCanBeAbandoned(s: Client, i: nat)
    requires Inv(s) && i < |s.calls| && !Finished(s.calls[i]) && !InsideRefill(s, i)
    ensures Enabled(s, DropCall(i)) && Step(s, DropCall(i)).calls[i].phase == Dropped
    ensures s.gate.Semaphore? && s.calls[i].permit ==>
              && Step(s, DropCall(i)).gate.Semaphore?
              && Step(s, DropCall(i)).gate.available == s.gate.available + 1
    ensures Step(s, DropCall(i)).meter == s.meter
  {
    hide Inv;
  }

  /** A new call of a client without a token bucket is led to its first POST. */
  lemma Enter(s: Client) returns (es: seq<Event>)
    requires s.meter.Unmetered? && !s.shutdown && HasPermit(s)
    ensures IsRun(s, es)
    ensures var (s', i) := (Run(s, es), |s.calls|);
            i < |s'.calls| && s'.calls[i] == Call(Ready(0), s.gate.Semaphore?, false, [], [])
  {
    var i := |s.calls|;
    es := [];
    Extend(s, es, Begin);
    es := es + [Begin];
    Extend(s, es, Check(i));
    es := es + [Check(i)];
    assert Run(s, es).calls == s.calls + [NEW_CALL.(phase := WaitingForPermit)];
    Extend(s, es, TakePermit(i));
    es := es + [TakePermit(i)];
    Extend(s, es, SkipBucket(i));
    es := es + [SkipBucket(i)];
  }

  lemma Refuse(s: Client) returns (es: seq<Event>)
    requires s.meter.Unmetered?
    ensures IsRun(s, es)
    ensures var (s', i) := (Run(s, es), |s.calls|);
            i < |s'.calls| && s'.calls[i] == Call(Returned(Err(Retry.SHUTTING_DOWN)), false, false, [], [])
  {
    var i := |s.calls|;
    es := [];
    Extend(s, es, ShutDown);
    es := es + [ShutDown];
    Extend(s, es, Begin);
    es := es + [Begin];
    Extend(s, es, Check(i));
    es := es + [Check(i)];
  }

  /**
   For every network and scheduler behaviour `w` there is a run in which the next call of an unmetered client receives
   `w`'s outcomes, makes exactly the POSTs of the sequential loop on `w` and returns its result.
   */
  lemma EveryLoopHappens(s: Client, w: Retry.World<string>) returns (es: seq<Event>)
    requires s.meter.Unmetered? && !s.shutdown && HasPermit(s)
    ensures IsRun(s, es)
    ensures var (s', t) := (Run(s, es), Retry.Call(s.retry, w));
            && |s.calls| < |s'.calls|
            && var c := s'.calls[|s.calls|];
               && c.phase == Returned(t.result) && |c.sent| == |c.answers| == t.posts && AnswersFollow(c.answers, w)
  {
    if w.shutDownOnEntry {
      es := Refuse(s);
    } else {
      es := Enter(s);
      var rest := Finish(Run(s, es), |s.calls|, w);
      Concat(s, es, rest);
      es := es + rest;
    }
  }
}
