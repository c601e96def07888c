/**
 All calls of one client together: every `post_with_retry` passes the shutdown check, the concurrency semaphore
 and the token bucket, then runs its retry loop. Steps of different calls interleave freely, and so do the loads,
 stores and compare-exchanges they make on the bucket: call `i` is task `i` of the bucket's `RefillRace` machine.
 */
module Admission {
  import opened Arithmetic
  import opened Errors
  import opened TokenBuckets
  import Race = RefillRace
  import Retry

  const NANOS_PER_MS: nat := 1_000_000

  datatype Phase =
    | Entering
    | WaitingForPermit
    | WaitingForToken
    | Ready(attempt: nat)                  // about to send POST number `attempt`
    | InFlight(attempt: nat)
    | BackingOff(attempt: nat, until: nat)
    | Returned(result: Result<string>)
    | Dropped                              // the caller dropped the future at an await point

  datatype Answer = Answer(at: nat, result: Result<string>)

  /** `sent` has the time of each POST, `answers` the outcomes that came back, with their times. */
  datatype Call = Call(phase: Phase, permit: bool, token: bool, sent: seq<nat>, answers: seq<Answer>)

  const NEW_CALL: Call := Call(Entering, false, false, [], [])

  datatype Gate = Open | Semaphore(available: nat, size: nat)

  datatype Meter = Unmetered | Metered(race: Race.State)

  datatype Client = Client(retry: Retry.RetryConfig, gate: Gate, meter: Meter, clock: nat, shutdown: bool,
                           calls: seq<Call>, start: nat)

  datatype Event =
    | Tick(nanos: nat)
    | ShutDown
    | Begin
    | Check(call: nat)
    | TakePermit(call: nat)
    | SkipBucket(call: nat)
    | Acquire(call: nat, op: Race.Event)
    | Send(call: nat)
    | Respond(call: nat, result: Result<string>)
    | EndBackoff(call: nat)
    | CancelBackoff(call: nat)
    | DropCall(call: nat)

  predicate Finished(c: Call) {
    c.phase.Returned? || c.phase.Dropped?
  }

  ghost predicate Usable(s: Client) {
    s.meter.Metered? ==> 0 < s.meter.race.interval
  }

  predicate MovesACall(e: Event) {
    !e.Tick? && !e.ShutDown? && !e.Begin?
  }

  /** A future is dropped only where it awaits, so never inside the refill's critical section. */
  predicate InsideRefill(s: Client, i: nat) {
    s.meter.Metered? && i < |s.meter.race.pcs| && Race.InCriticalSection(s.meter.race.pcs[i])
  }

  predicate Enabled(s: Client, e: Event)
    requires Usable(s)
  {
    MovesACall(e) ==>
      e.call < |s.calls| &&
      var c := s.calls[e.call];
      match e
      case Check(_) => c.phase.Entering?
      case TakePermit(_) => c.phase.WaitingForPermit? && (s.gate.Semaphore? ==> 0 < s.gate.available)
      case SkipBucket(_) => c.phase.WaitingForToken? && s.meter.Unmetered?
      case Acquire(i, op) =>
        c.phase.WaitingForToken? && s.meter.Metered? && Race.ByTask(op, i) && Race.Enabled(s.meter.race, op)
      case Send(_) => c.phase.Ready?
      case Respond(_, _) => c.phase.InFlight?
      case EndBackoff(_) => c.phase.BackingOff? && c.phase.until <= s.clock
      case CancelBackoff(_) => c.phase.BackingOff? && s.shutdown
      case DropCall(i) => !Finished(c) && !InsideRefill(s, i)
      case _ => true
  }

  /** Leaving the function, in whatever way, drops the permit. */
  function Leave(c: Call, phase: Phase): Call {
    c.(phase := phase, permit := false)
  }

  /** The call that moves, after its step. */
  function NextCall(s: Client, e: Event): Call
    requires Usable(s) && Enabled(s, e) && MovesACall(e)
  {
    var c := s.calls[e.call];
    match e
    case Check(_) =>
      if s.shutdown then Leave(c, Returned(Err(Retry.SHUTTING_DOWN))) else c.(phase := WaitingForPermit)
    case TakePermit(_) => c.(phase := WaitingForToken, permit := s.gate.Semaphore?)
    case SkipBucket(_) => c.(phase := Ready(0))
    case Acquire(i, op) =>
      if Race.Step(s.meter.race, op).pcs[i].Granted? then c.(phase := Ready(0), token := true) else c
    case Send(_) => c.(phase := InFlight(c.phase.attempt), sent := c.sent + [s.clock])
    case Respond(_, r) => Answered(s.retry, s.clock, c, r)
    case EndBackoff(_) => c.(phase := Ready(c.phase.attempt))
    case CancelBackoff(_) => Leave(c, Returned(Err(Retry.SHUTDOWN_IN_BACKOFF)))
    case DropCall(_) => Leave(c, Dropped)
    case _ => c
  }

  function Answered(retry: Retry.RetryConfig, now: nat, c: Call, r: Result<string>): Call
    requires c.phase.InFlight?
  {
    var k := c.phase.attempt;
    var c' := c.(answers := c.answers + [Answer(now, r)]);
    if Retry.Retries(r) && k < retry.maxRetries then
      c'.(phase := BackingOff(k + 1, now + Retry.WaitAfter(retry, r, k + 1) * NANOS_PER_MS))
    else Leave(c', Returned(r))
  }

  /** A permit is taken from the semaphore and goes back when its holder leaves. */
  function NextGate(s: Client, e: Event): Gate
    requires Usable(s) && Enabled(s, e) && MovesACall(e)
  {
    if s.gate.Open? then s.gate
    else if e.TakePermit? then s.gate.(available := s.gate.available - 1)
    else if s.calls[e.call].permit && Finished(NextCall(s, e)) then s.gate.(available := s.gate.available + 1)
    else s.gate
  }

  function NextMeter(s: Client, e: Event): Meter
    requires Usable(s) && Enabled(s, e)
  {
    if s.meter.Unmetered? then s.meter
    else
      match e
      case Tick(n) => Metered(Race.Step(s.meter.race, Race.Tick(n)))
      case Begin => Metered(Race.Step(s.meter.race, Race.Spawn))
      case Acquire(_, op) => Metered(Race.Step(s.meter.race, op))
      case _ => s.meter
  }

  function Step(s: Client, e: Event): Client
    requires Usable(s) && Enabled(s, e)
  {
    match e
    case Tick(n) => s.(clock := s.clock + n, meter := NextMeter(s, e))
    case ShutDown => s.(shutdown := true)
    case Begin => s.(calls := s.calls + [NEW_CALL], meter := NextMeter(s, e))
    case _ =>
      s.(calls := s.calls[e.call := NextCall(s, e)], gate := NextGate(s, e), meter := NextMeter(s, e))
  }

  function Initial(retry: Retry.RetryConfig, config: RateLimitConfig, now: nat): Client
    requires Validate(config) == Valid
  {
    Client(retry,
           if config.maxConcurrent.AtMost? then Semaphore(config.maxConcurrent.n, config.maxConcurrent.n) else Open,
           if config.maxRps.AtMost? then Metered(Race.Initial(config.maxRps.n, now)) else Unmetered,
           now, false, [], now)
  }

  ghost predicate IsRun(s: Client, es: seq<Event>)
    requires Usable(s)
    decreases |es|
  {
    es != [] ==> Enabled(s, es[0]) && IsRun(Step(s, es[0]), es[1..])
  }

  /** What no step changes. */
  ghost predicate SameConfiguration(s: Client, s': Client) {
    && s'.retry == s.retry && s'.start == s.start && s.clock <= s'.clock && (s.shutdown ==> s'.shutdown)
    && (s'.gate.Semaphore? <==> s.gate.Semaphore?) && (s.gate.Semaphore? ==> s'.gate.size == s.gate.size)
    && (s'.meter.Metered? <==> s.meter.Metered?)
    && (s.meter.Metered? ==> && s'.meter.race.maxTokens == s.meter.race.maxTokens
                             && s'.meter.race.interval == s.meter.race.interval)
  }

  lemma StepKeepsConfiguration(s: Client, e: Event)
    requires Usable(s) && Enabled(s, e)
    ensures SameConfiguration(s, Step(s, e))
  {
  }

  ghost function Run(s: Client, es: seq<Event>): (s': Client)
    requires Usable(s) && IsRun(s, es)
    ensures SameConfiguration(s, s')
    decreases |es|
  {
    if es == [] then s
    else
      StepKeepsConfiguration(s, es[0]);
      Run(Step(s, es[0]), es[1..])
  }

  // ---------------------------------------------------------------- totals over calls

  function Total(calls: seq<Call>, f: Call -> nat): nat {
    if calls == [] then 0 else f(calls[0]) + Total(calls[1..], f)
  }

  function Permits(c: Call): nat { if c.permit then 1 else 0 }
  function Tokens(c: Call): nat { if c.token then 1 else 0 }
  function Posts(c: Call): nat { |c.sent| }
  function Flying(c: Call): nat { if c.phase.InFlight? then 1 else 0 }

  lemma {:induction false} TotalOfUpdate(calls: seq<Call>, i: nat, c: Call, f: Call -> nat)
    requires i < |calls|
    ensures Total(calls[i := c], f) == Total(calls, f) - f(calls[i]) + f(c)
  {
    if i == 0 {
      assert calls[0 := c][1..] == calls[1..];
    } else {
      assert calls[i := c][1..] == calls[1..][i - 1 := c];
      TotalOfUpdate(calls[1..], i - 1, c, f);
    }
  }

  lemma {:induction false} TotalOfAppend(calls: seq<Call>, c: Call, f: Call -> nat)
    ensures Total(calls + [c], f) == Total(calls, f) + f(c)
  {
    if calls == [] {
      assert calls + [c] == [c] && [c][1..] == [];
    } else {
      assert (calls + [c])[1..] == calls[1..] + [c];
      TotalOfAppend(calls[1..], c, f);
    }
  }

  /** If `f` is at most `n` times `g` on every call, so are the totals. */
  lemma {:induction false} TotalsCompare(calls: seq<Call>, f: Call -> nat, n: nat, g: Call -> nat)
    requires forall i :: 0 <= i < |calls| ==> f(calls[i]) <= n * g(calls[i])
    ensures Total(calls, f) <= n * Total(calls, g)
  {
    if calls != [] {
      assert f(calls[0]) <= n * g(calls[0]);
      assert forall i :: 0 <= i < |calls[1..]| ==> calls[1..][i] == calls[i + 1];
      TotalsCompare(calls[1..], f, n, g);
      assert n * Total(calls, g) == n * g(calls[0]) + n * Total(calls[1..], g);
    }
  }

  /** Two calls count for at least what they count together. */
  lemma TotalOfTwo(calls: seq<Call>, i: nat, j: nat, f: Call -> nat)
    requires i < |calls| && j < |calls| && i != j
    ensures f(calls[i]) + f(calls[j]) <= Total(calls, f)
  {
    TotalOfPair(calls, if i < j then i else j, if i < j then j else i, f);
  }

  lemma {:induction false} TotalOfPair(calls: seq<Call>, i: nat, j: nat, f: Call -> nat)
    requires i < j < |calls|
    ensures f(calls[i]) + f(calls[j]) <= Total(calls, f)
    decreases i
  {
    if i == 0 {
      TotalOfMember(calls[1..], j - 1, f);
    } else {
      TotalOfPair(calls[1..], i - 1, j - 1, f);
    }
  }

  lemma {:induction false} TotalOfMember(calls: seq<Call>, i: nat, f: Call -> nat)
    requires i < |calls|
    ensures f(calls[i]) <= Total(calls, f)
  {
    if 0 < i {
      TotalOfMember(calls[1..], i - 1, f);
    }
  }

  // ---------------------------------------------------------------- where a call stands

  ghost predicate AllRetry(answers: seq<Answer>) {
    forall k :: 0 <= k < |answers| ==> Retry.Retries(answers[k].result)
  }

  /** A returned call either never posted, or answers with its last outcome, or was shut down backing off from it. */
  ghost predicate ReturnConsistent(maxRetries: nat, c: Call)
    requires c.phase.Returned?
  {
    var (n, r) := (|c.answers|, c.phase.result);
    && |c.sent| == n <= maxRetries + 1
    && (if n == 0 then r == Err(Retry.SHUTTING_DOWN)
        else
          && AllRetry(c.answers[..n - 1])
          && (if Retry.Retries(c.answers[n - 1].result) && n <= maxRetries then r == Err(Retry.SHUTDOWN_IN_BACKOFF)
              else r == c.answers[n - 1].result))
  }

  /** Where a call stands fixes how many POSTs it made and how they ended. */
  ghost predicate PhaseConsistent(maxRetries: nat, c: Call) {
    match c.phase
    case Entering | WaitingForPermit | WaitingForToken => c.sent == [] && c.answers == [] && !c.token
    case Ready(k) => |c.sent| == |c.answers| == k <= maxRetries && AllRetry(c.answers)
    case InFlight(k) => |c.sent| == k + 1 && |c.answers| == k <= maxRetries && AllRetry(c.answers)
    case BackingOff(k, _) => |c.sent| == |c.answers| == k <= maxRetries && 0 < k && AllRetry(c.answers)
    case Returned(_) => ReturnConsistent(maxRetries, c)
    case Dropped => |c.sent| <= maxRetries + 1
  }

  predicate PastTheBucket(c: Call) {
    c.phase.Ready? || c.phase.InFlight? || c.phase.BackingOff?
  }

  /** And which resources it holds. */
  predicate HoldsConsistently(gated: bool, metered: bool, c: Call) {
    && (c.permit <==> gated && (c.phase.WaitingForToken? || PastTheBucket(c)))
    && (metered && (c.sent != [] || PastTheBucket(c)) ==> c.token)
  }

  ghost predicate Consistent(s: Client, c: Call) {
    PhaseConsistent(s.retry.maxRetries, c) && HoldsConsistently(s.gate.Semaphore?, s.meter.Metered?, c)
  }

  lemma AnswerIsConsistent(retry: Retry.RetryConfig, now: nat, c: Call, r: Result<string>)
    requires c.phase.InFlight? && PhaseConsistent(retry.maxRetries, c)
    ensures PhaseConsistent(retry.maxRetries, Answered(retry, now, c, r))
  {
    hide Retry.Retries, Retry.WaitAfter;
    var c' := Answered(retry, now, c, r);
    assert c'.answers[..|c.answers|] == c.answers;
    if c'.phase.BackingOff? {
      assert AllRetry(c'.answers);
    } else {
      assert ReturnConsistent(retry.maxRetries, c');
    }
  }

  lemma CancelIsConsistent(retry: Retry.RetryConfig, c: Call)
    requires c.phase.BackingOff? && PhaseConsistent(retry.maxRetries, c)
    ensures PhaseConsistent(retry.maxRetries, Leave(c, Returned(Err(Retry.SHUTDOWN_IN_BACKOFF))))
  {
    var n := |c.answers|;
    assert forall k :: 0 <= k < n - 1 ==> c.answers[..n - 1][k] == c.answers[k];
    assert ReturnConsistent(retry.maxRetries, Leave(c, Returned(Err(Retry.SHUTDOWN_IN_BACKOFF))));
  }

  lemma RefusalIsConsistent(maxRetries: nat, c: Call)
    requires c.phase.Entering? && PhaseConsistent(maxRetries, c)
    ensures PhaseConsistent(maxRetries, Leave(c, Returned(Err(Retry.SHUTTING_DOWN))))
  {
    assert ReturnConsistent(maxRetries, Leave(c, Returned(Err(Retry.SHUTTING_DOWN))));
  }

  lemma MovedCallIsConsistent(s: Client, e: Event)
    requires Usable(s) && Enabled(s, e) && MovesACall(e) && Consistent(s, s.calls[e.call])
    ensures Consistent(s, NextCall(s, e))
  {
    hide ReturnConsistent, Race.Step, Race.Enabled;
    match e
    case Respond(i, r) => AnswerIsConsistent(s.retry, s.clock, s.calls[i], r);
    case CancelBackoff(i) => CancelIsConsistent(s.retry, s.calls[i]);
    case Check(i) => RefusalIsConsistent(s.retry.maxRetries, s.calls[i]);
    case _ =>
  }

  // ---------------------------------------------------------------- the invariant

  /** The bucket's machine runs on the client's clock with one task per call, and its grants are the calls' tokens. */
  ghost predicate MeterConsistent(s: Client) {
    s.meter.Metered? ==>
      var race := s.meter.race;
      && Race.Inv(race) && race.clock == s.clock && race.start == s.start
      && |race.pcs| == |s.calls| && race.grants == Total(s.calls, Tokens)
      && (forall i :: 0 <= i < |s.calls| && InsideRefill(s, i) ==> s.calls[i].phase.WaitingForToken?)
  }

  ghost predicate Inv(s: Client) {
    && Usable(s)
    && (forall i :: 0 <= i < |s.calls| ==> Consistent(s, s.calls[i]))
    && (s.gate.Semaphore? ==> s.gate.available + Total(s.calls, Permits) == s.gate.size)
    && MeterConsistent(s)
  }

  predicate Sound(config: RateLimitConfig) {
    Validate(config) == Valid
    && (config.maxRps.AtMost? ==> config.maxRps.n <= NANOS_PER_SEC)
  }

  lemma InitialInv(retry: Retry.RetryConfig, config: RateLimitConfig, now: nat)
    requires Sound(config)
    ensures Inv(Initial(retry, config, now))
  {
    assert Total([], Permits) == 0 && Total([], Tokens) == 0;
    if config.maxRps.AtMost? {
      Race.InitialInv(config.maxRps.n, now);
    }
  }

  function Free(g: Gate): nat {
    if g.Semaphore? then g.available else 0
  }

  /** A call's step exchanges permits only between it and the gate. */
  lemma PermitsAreExchanged(s: Client, e: Event)
    requires Usable(s) && Enabled(s, e) && MovesACall(e) && Consistent(s, s.calls[e.call]) && s.gate.Semaphore?
    ensures Free(NextGate(s, e)) + Permits(NextCall(s, e)) == Free(s.gate) + Permits(s.calls[e.call])
  {
    hide Race.Step, Race.Enabled;
  }

  lemma StepKeepsPermits(s: Client, e: Event)
    requires Inv(s) && Enabled(s, e) && s.gate.Semaphore?
    ensures var s' := Step(s, e);
            s'.gate.Semaphore? && s'.gate.size == s.gate.size
            && s'.gate.available + Total(s'.calls, Permits) == s'.gate.size
  {
    hide Race.Step, Race.Enabled, Race.Inv;
    if MovesACall(e) {
      PermitsAreExchanged(s, e);
      TotalOfUpdate(s.calls, e.call, NextCall(s, e), Permits);
    } else if e.Begin? {
      TotalOfAppend(s.calls, NEW_CALL, Permits);
    }
  }

  /** What one operation on the bucket does to its counters: a grant exactly when the task reaches the end. */
  lemma OperationGrants(race: Race.State, op: Race.Event, t: nat)
    requires 0 < race.interval && Race.ByTask(op, t) && Race.Enabled(race, op)
    ensures var race' := Race.Step(race, op);
            && t < |race.pcs| == |race'.pcs| && race'.pcs == race.pcs[t := race'.pcs[t]]
            && race'.grants == race.grants + (if race'.pcs[t].Granted? then 1 else 0)
            && race'.clock == race.clock && race'.start == race.start
            && (race'.pcs[t].Granted? ==> !Race.InCriticalSection(race'.pcs[t]))
  {
  }

  lemma AcquireKeepsMeter(s: Client, i: nat, op: Race.Event)
    requires Inv(s) && Enabled(s, Acquire(i, op))
    ensures MeterConsistent(Step(s, Acquire(i, op)))
  {
    hide Race.Step, Race.Enabled, Race.Inv;
    OperationGrants(s.meter.race, op, i);
    Race.StepInv(s.meter.race, op);
    assert Consistent(s, s.calls[i]);
    TotalOfUpdate(s.calls, i, NextCall(s, Acquire(i, op)), Tokens);
    var s' := Step(s, Acquire(i, op));
    forall j | 0 <= j < |s'.calls| && InsideRefill(s', j)
      ensures s'.calls[j].phase.WaitingForToken?
    {
      assert j != i ==> InsideRefill(s, j);
    }
  }

  lemma StepKeepsMeter(s: Client, e: Event)
    requires Inv(s) && Enabled(s, e)
    ensures MeterConsistent(Step(s, e))
  {
    if s.meter.Metered? {
      match e
      case Acquire(i, op) => AcquireKeepsMeter(s, i, op);
      case Tick(n) => TickKeepsMeter(s, n);
      case Begin => BeginKeepsMeter(s);
      case ShutDown =>
        assert forall j :: InsideRefill(Step(s, e), j) <==> InsideRefill(s, j);
      case _ => OtherMovesKeepMeter(s, e);
    }
  }

  lemma TickKeepsMeter(s: Client, n: nat)
    requires Inv(s) && s.meter.Metered?
    ensures MeterConsistent(Step(s, Tick(n)))
  {
    hide Race.Inv;
    Race.StepInv(s.meter.race, Race.Tick(n));
    assert forall j :: InsideRefill(Step(s, Tick(n)), j) <==> InsideRefill(s, j);
  }

  lemma BeginKeepsMeter(s: Client)
    requires Inv(s) && s.meter.Metered?
    ensures MeterConsistent(Step(s, Begin))
  {
    hide Race.Inv;
    Race.StepInv(s.meter.race, Race.Spawn);
    TotalOfAppend(s.calls, NEW_CALL, Tokens);
    var s' := Step(s, Begin);
    assert s'.meter.race == s.meter.race.(pcs := s.meter.race.pcs + [Race.Start]);
    forall j | 0 <= j < |s'.calls| && InsideRefill(s', j)
      ensures s'.calls[j].phase.WaitingForToken?
    {
      assert j < |s.calls| && InsideRefill(s, j);
    }
  }

  lemma OtherMovesKeepMeter(s: Client, e: Event)
    requires Inv(s) && Enabled(s, e) && s.meter.Metered? && MovesACall(e) && !e.Acquire?
    ensures MeterConsistent(Step(s, e))
  {
    hide Race.Step, Race.Enabled, Race.Inv;
    var s' := Step(s, e);
    TotalOfUpdate(s.calls, e.call, NextCall(s, e), Tokens);
    forall j | 0 <= j < |s'.calls| && InsideRefill(s', j)
      ensures s'.calls[j].phase.WaitingForToken?
    {
      assert InsideRefill(s, j);
    }
  }

  lemma StepInv(s: Client, e: Event)
    requires Inv(s) && Enabled(s, e)
    ensures Inv(Step(s, e))
  {
    hide Race.Step, Race.Enabled, Race.Inv, NextCall, NextGate, NextMeter;
    StepKeepsConfiguration(s, e);
    StepKeepsMeter(s, e);
    if s.gate.Semaphore? {
      StepKeepsPermits(s, e);
    }
    if MovesACall(e) {
      assert Consistent(s, s.calls[e.call]);
      MovedCallIsConsistent(s, e);
    }
    var s' := Step(s, e);
    forall i | 0 <= i < |s'.calls|
      ensures Consistent(s', s'.calls[i])
    {
      if i < |s.calls| {
        assert Consistent(s, s.calls[i]);
      }
    }
  }

  lemma {:induction false} RunInv(s: Client, es: seq<Event>)
    requires Inv(s) && IsRun(s, es)
    ensures Inv(Run(s, es))
    decreases |es|
  {
    hide Race.Inv;
    if es != [] {
      StepInv(s, es[0]);
      RunInv(Step(s, es[0]), es[1..]);
    }
  }

  // ---------------------------------------------------------------- waits

  /** When the retry after answer `k - 1` is due: a 429 names the wait, any other error backs off exponentially. */
  function DueAt(retry: Retry.RetryConfig, answers: seq<Answer>, k: nat): nat
    requires 0 < k <= |answers| && Retry.Retries(answers[k - 1].result)
  {
    var error := answers[k - 1].result.error;
    answers[k - 1].at
    + 1_000_000 * if error.RateLimited? then error.retryAfterMs
                  else Min(retry.baseDelayMs * Retry.Pow(retry.backoffFactor, k - 1), 30_000)
  }

  ghost predicate Due(retry: Retry.RetryConfig, answers: seq<Answer>, k: nat, time: nat) {
    0 < k <= |answers| && Retry.Retries(answers[k - 1].result) && DueAt(retry, answers, k) <= time
  }

  /** No retry was sent, or is about to be, before its wait had elapsed on the clock. */
  ghost predicate OnTime(retry: Retry.RetryConfig, now: nat, c: Call) {
    && (forall k :: 0 < k < |c.sent| ==> Due(retry, c.answers, k, c.sent[k]))
    && (c.phase.Ready? && 0 < c.phase.attempt ==> Due(retry, c.answers, c.phase.attempt, now))
    && (c.phase.BackingOff? ==> Due(retry, c.answers, c.phase.attempt, c.phase.until))
  }

  lemma DueStays(retry: Retry.RetryConfig, answers: seq<Answer>, more: seq<Answer>, k: nat, time: nat, later: nat)
    requires Due(retry, answers, k, time) && time <= later
    ensures Due(retry, answers + more, k, later)
  {
  }

  lemma MovedCallIsOnTime(s: Client, e: Event)
    requires Usable(s) && Enabled(s, e) && MovesACall(e) && Consistent(s, s.calls[e.call])
    requires OnTime(s.retry, s.clock, s.calls[e.call])
    ensures OnTime(s.retry, s.clock, NextCall(s, e))
  {
    hide Race.Step, Race.Enabled, ReturnConsistent, AllRetry, Due, Retry.Retries, Retry.WaitAfter;
    var (c, c') := (s.calls[e.call], NextCall(s, e));
    if e.Respond? {
      assert c'.answers == c.answers + [Answer(s.clock, e.result)];
      forall k | 0 < k < |c'.sent|
        ensures Due(s.retry, c'.answers, k, c'.sent[k])
      {
        DueStays(s.retry, c.answers, [Answer(s.clock, e.result)], k, c.sent[k], c.sent[k]);
      }
      if c'.phase.BackingOff? {
        BackoffIsDue(s.retry, s.clock, c, e.result);
      }
    } else if e.EndBackoff? {
      DueStays(s.retry, c.answers, [], c.phase.attempt, c.phase.until, s.clock);
      assert c.answers + [] == c.answers;
    }
  }

  lemma BackoffIsDue(retry: Retry.RetryConfig, now: nat, c: Call, r: Result<string>)
    requires c.phase.InFlight? && |c.answers| == c.phase.attempt && Answered(retry, now, c, r).phase.BackingOff?
    ensures var c' := Answered(retry, now, c, r); Due(retry, c'.answers, c'.phase.attempt, c'.phase.until)
  {
    Retry.DelayIsExact(retry, c.phase.attempt);
  }

  ghost predicate AllOnTime(s: Client) {
    forall i :: 0 <= i < |s.calls| ==> OnTime(s.retry, s.clock, s.calls[i])
  }

  lemma {:induction false} RunIsOnTime(s: Client, es: seq<Event>)
    requires Inv(s) && IsRun(s, es) && AllOnTime(s)
    ensures AllOnTime(Run(s, es))
    decreases |es|
  {
    hide Race.Inv, AllOnTime;
    if es != [] {
      StepInv(s, es[0]);
      StepIsOnTime(s, es[0]);
      RunIsOnTime(Step(s, es[0]), es[1..]);
    }
  }

  lemma StepIsOnTime(s: Client, e: Event)
    requires Inv(s) && Enabled(s, e) && AllOnTime(s)
    ensures AllOnTime(Step(s, e))
  {
    hide Race.Step, Race.Enabled, Race.Inv, NextCall, NextGate, NextMeter, Due;
    StepKeepsConfiguration(s, e);
    var s' := Step(s, e);
    if MovesACall(e) {
      assert Consistent(s, s.calls[e.call]);
      MovedCallIsOnTime(s, e);
    }
    forall i | 0 <= i < |s'.calls|
      ensures OnTime(s'.retry, s'.clock, s'.calls[i])
    {
      if i < |s.calls| && !(MovesACall(e) && e.call == i) {
        OnTimeLater(s.retry, s.clock, s'.clock, s.calls[i]);
      }
    }
  }

  lemma OnTimeLater(retry: Retry.RetryConfig, now: nat, later: nat, c: Call)
    requires OnTime(retry, now, c) && now <= later
    ensures OnTime(retry, later, c)
  {
    if c.phase.Ready? && 0 < c.phase.attempt {
      DueStays(retry, c.answers, [], c.phase.attempt, now, later);
      assert c.answers + [] == c.answers;
    }
  }

  // ---------------------------------------------------------------- what every run keeps

  /**
   In every interleaving the permits handed out and those available add up to `max_concurrent`; a POST in flight
   holds one; whoever has left, by return or by drop, holds none, so when all have left all permits are back.
   */
  lemma PermitsOfEveryRun(retry: Retry.RetryConfig, config: RateLimitConfig, t0: nat, es: seq<Event>)
    requires Sound(config) && config.maxConcurrent.AtMost? && IsRun(Initial(retry, config, t0), es)
    ensures var s := Run(Initial(retry, config, t0), es);
            && s.gate.Semaphore? && s.gate.available + Total(s.calls, Permits) == config.maxConcurrent.n
            && Total(s.calls, Flying) <= Total(s.calls, Permits) <= config.maxConcurrent.n
            && (forall i :: 0 <= i < |s.calls| && Finished(s.calls[i]) ==> !s.calls[i].permit)
            && ((forall i :: 0 <= i < |s.calls| ==> Finished(s.calls[i]))
                ==> s.gate.available == config.maxConcurrent.n)
  {
    hide Race.Inv;
    InitialInv(retry, config, t0);
    RunInv(Initial(retry, config, t0), es);
    var s := Run(Initial(retry, config, t0), es);
    forall i | 0 <= i < |s.calls|
      ensures Flying(s.calls[i]) <= 1 * Permits(s.calls[i]) && (Finished(s.calls[i]) ==> !s.calls[i].permit)
    {
      assert Consistent(s, s.calls[i]);
    }
    TotalsCompare(s.calls, Flying, 1, Permits);
    if forall i :: 0 <= i < |s.calls| ==> Finished(s.calls[i]) {
      TotalsCompare(s.calls, Permits, 0, Permits);
    }
  }

  /** A token is taken once per call, not per attempt, so `max_retries + 1` POSTs are the most one grant can cause. */
  lemma PostsPerGrant(s: Client)
    requires Inv(s) && s.meter.Metered?
    ensures Total(s.calls, Posts) <= (s.retry.maxRetries + 1) * s.meter.race.grants
    ensures forall i :: 0 <= i < |s.calls| ==> |s.calls[i].sent| <= s.retry.maxRetries + 1
  {
    hide Race.Inv;
    forall i | 0 <= i < |s.calls|
      ensures Posts(s.calls[i]) <= (s.retry.maxRetries + 1) * Tokens(s.calls[i])
      ensures |s.calls[i].sent| <= s.retry.maxRetries + 1
    {
      assert Consistent(s, s.calls[i]);
    }
    TotalsCompare(s.calls, Posts, s.retry.maxRetries + 1, Tokens);
  }

  /**
   POSTs sent by any time, over every interleaving of every atomic operation: at most `max_retries + 1` per call, and
   in all `max_retries + 1` times a full bucket per whole interval and one more. Counting the decrements that refills
   overwrote, it is `max_retries + 1` times the expected rate plus those.
   */
  lemma PostsOfEveryRun(retry: Retry.RetryConfig, config: RateLimitConfig, t0: nat, es: seq<Event>)
    requires Sound(config) && config.maxRps.AtMost? && IsRun(Initial(retry, config, t0), es)
    ensures var s := Run(Initial(retry, config, t0), es);
            var (max, interval) := (config.maxRps.n, NANOS_PER_SEC / config.maxRps.n);
            && t0 <= s.clock && s.meter.Metered?
            && (forall i :: 0 <= i < |s.calls| ==> |s.calls[i].sent| <= retry.maxRetries + 1)
            && Total(s.calls, Posts) <= (retry.maxRetries + 1) * (max * (1 + (s.clock - t0) / interval))
            && Total(s.calls, Posts)
               <= (retry.maxRetries + 1) * (max + (s.clock - t0) / interval + s.meter.race.overwritten)
  {
    hide Race.Run, Race.IsRun;
    InitialInv(retry, config, t0);
    RunInv(Initial(retry, config, t0), es);
    var s := Run(Initial(retry, config, t0), es);
    Race.LedgerBoundsGrants(s.meter.race);
    PostsPerGrant(s);
    var (n, q) := (config.maxRps.n, (s.clock - t0) / s.meter.race.interval);
    MulMono(s.meter.race.grants, n * (1 + q), retry.maxRetries + 1);
    MulMono(s.meter.race.grants, n + q + s.meter.race.overwritten, retry.maxRetries + 1);
  }

  // ---------------------------------------------------------------- windows

  function Passing(c: Call): nat { if PastTheBucket(c) then 1 else 0 }

  /** What time cannot undo: a call that left stays as it is, and a token once taken stays taken. */
  ghost predicate Later(c: Call, c': Call) {
    (Finished(c) ==> c' == c) && (c.token ==> c'.token)
  }

  ghost predicate AllLater(calls: seq<Call>, calls': seq<Call>) {
    |calls| <= |calls'| && forall i :: 0 <= i < |calls| ==> Later(calls[i], calls'[i])
  }

  lemma StepMovesOn(s: Client, e: Event)
    requires Usable(s) && Enabled(s, e)
    ensures AllLater(s.calls, Step(s, e).calls)
  {
    hide Race.Step, Race.Enabled;
  }

  /** The bucket's window bound on the client's runs: each step is a step of the bucket or leaves it alone. */
  lemma StepKeepsSince(race0: Race.State, s: Client, e: Event)
    requires Inv(s) && s.meter.Metered? && Enabled(s, e) && Race.Since(race0, s.meter.race)
    ensures Step(s, e).meter.Metered? && Race.Since(race0, Step(s, e).meter.race)
  {
    hide Race.Since, Race.Inv, NextCall, NextGate;
    match e
    case Tick(n) => Race.StepKeepsSince(race0, s.meter.race, Race.Tick(n));
    case Begin => Race.StepKeepsSince(race0, s.meter.race, Race.Spawn);
    case Acquire(_, op) => Race.StepKeepsSince(race0, s.meter.race, op);
    case _ =>
  }

  lemma {:induction false} RunMovesOn(race0: Race.State, s: Client, es: seq<Event>)
    requires Inv(s) && s.meter.Metered? && IsRun(s, es) && Race.Since(race0, s.meter.race)
    ensures AllLater(s.calls, Run(s, es).calls)
    ensures Run(s, es).meter.Metered? && Race.Since(race0, Run(s, es).meter.race)
    decreases |es|
  {
    hide Race.Inv, Race.Since;
    if es != [] {
      StepInv(s, es[0]);
      StepMovesOn(s, es[0]);
      StepKeepsSince(race0, s, es[0]);
      RunMovesOn(race0, Step(s, es[0]), es[1..]);
      var (mid, last) := (Step(s, es[0]).calls, Run(Step(s, es[0]), es[1..]).calls);
      forall i | 0 <= i < |s.calls|
        ensures Later(s.calls[i], last[i])
      {
        assert Later(s.calls[i], mid[i]) && Later(mid[i], last[i]);
      }
    }
  }

  /** One call sends new POSTs only if it was past the bucket or gets past it. */
  lemma NewPostsOfOneCall(open: Client, shut: Client, c: Call, c': Call)
    requires Consistent(open, c) && Consistent(shut, c') && Later(c, c') && shut.meter.Metered?
    requires shut.retry == open.retry
    ensures |c'.sent| + (open.retry.maxRetries + 1) * Tokens(c)
         <= |c.sent| + (open.retry.maxRetries + 1) * (Passing(c) + Tokens(c'))
  {
  }

  /** `f` grows from `calls` to `calls'` by at most `n` times what `g` does and `h` was. */
  lemma {:induction false} TotalsGrow(calls: seq<Call>, calls': seq<Call>, f: Call -> nat, n: nat, g: Call -> nat, h: Call -> nat)
    requires |calls| <= |calls'|
    requires forall i :: 0 <= i < |calls| ==> f(calls'[i]) + n * g(calls[i]) <= f(calls[i]) + n * (h(calls[i]) + g(calls'[i]))
    requires forall i :: |calls| <= i < |calls'| ==> f(calls'[i]) <= n * g(calls'[i])
    ensures Total(calls', f) + n * Total(calls, g) <= Total(calls, f) + n * (Total(calls, h) + Total(calls', g))
    decreases |calls|
  {
    if calls == [] {
      TotalsCompare(calls', f, n, g);
    } else {
      var (c, c', rest, rest') := (calls[0], calls'[0], calls[1..], calls'[1..]);
      assert forall i :: 0 <= i < |rest| ==> rest[i] == calls[i + 1];
      assert forall i :: 0 <= i < |rest'| ==> rest'[i] == calls'[i + 1];
      TotalsGrow(rest, rest', f, n, g, h);
      assert f(c') + n * g(c) <= f(c) + n * (h(c) + g(c'));
      SplitProduct(n, g(c), Total(rest, g));
      SplitProduct(n, h(c) + g(c'), Total(rest, h) + Total(rest', g));
    }
  }

  lemma SplitProduct(n: nat, a: nat, b: nat)
    ensures n * (a + b) == n * a + n * b
  {
  }

  lemma NewPosts(open: Client, shut: Client)
    requires Inv(open) && Inv(shut) && open.meter.Metered? && shut.meter.Metered? && shut.retry == open.retry
    requires AllLater(open.calls, shut.calls)
    ensures Total(shut.calls, Posts) + (open.retry.maxRetries + 1) * open.meter.race.grants
         <= Total(open.calls, Posts)
            + (open.retry.maxRetries + 1) * (Total(open.calls, Passing) + shut.meter.race.grants)
  {
    hide Race.Inv;
    forall i | 0 <= i < |open.calls|
      ensures Posts(shut.calls[i]) + (open.retry.maxRetries + 1) * Tokens(open.calls[i])
           <= Posts(open.calls[i]) + (open.retry.maxRetries + 1) * (Passing(open.calls[i]) + Tokens(shut.calls[i]))
    {
      assert Consistent(open, open.calls[i]) && Consistent(shut, shut.calls[i]);
      NewPostsOfOneCall(open, shut, open.calls[i], shut.calls[i]);
    }
    forall i | |open.calls| <= i < |shut.calls|
      ensures Posts(shut.calls[i]) <= (open.retry.maxRetries + 1) * Tokens(shut.calls[i])
    {
      assert Consistent(shut, shut.calls[i]);
    }
    TotalsGrow(open.calls, shut.calls, Posts, open.retry.maxRetries + 1, Tokens, Passing);
  }

  /**
   POSTs sent in any window of any run: at most `max_retries + 1` for each call that was past the bucket when the window
   opened, of which `max_concurrent` allows only so many, and for each token granted in the window. The grants are at
   most a bucketful per whole interval of the window and three more.
   */
  lemma PostsInEveryWindow(retry: Retry.RetryConfig, config: RateLimitConfig, t0: nat,
                           before: seq<Event>, during: seq<Event>)
    requires Sound(config) && config.maxRps.AtMost? && IsRun(Initial(retry, config, t0), before)
    requires IsRun(Run(Initial(retry, config, t0), before), during)
    ensures var open := Run(Initial(retry, config, t0), before);
            var shut := Run(open, during);
            var (passing, max, interval) := (Total(open.calls, Passing), config.maxRps.n, NANOS_PER_SEC / config.maxRps.n);
            && open.clock <= shut.clock
            && Total(shut.calls, Posts) - Total(open.calls, Posts)
               <= (retry.maxRetries + 1) * (passing + max * ((shut.clock - open.clock) / interval + 3))
            && (config.maxConcurrent.AtMost? ==> passing <= config.maxConcurrent.n)
  {
    hide Inv, Step, Enabled, Total;
    InitialInv(retry, config, t0);
    RunInv(Initial(retry, config, t0), before);
    PostsOfWindow(Run(Initial(retry, config, t0), before), during);
  }

  lemma PostsOfWindow(open: Client, during: seq<Event>)
    requires Inv(open) && open.meter.Metered? && IsRun(open, during)
    ensures var (shut, race) := (Run(open, during), open.meter.race);
            && Total(shut.calls, Posts) - Total(open.calls, Posts)
               <= (open.retry.maxRetries + 1)
                  * (Total(open.calls, Passing) + race.maxTokens * ((shut.clock - open.clock) / race.interval + 3))
            && (open.gate.Semaphore? ==> Total(open.calls, Passing) <= open.gate.size)
  {
    hide Race.Inv, Race.Since, Step, Enabled, Total, AllLater;
    RunInv(open, during);
    var shut := Run(open, during);
    NothingSince(open.meter.race);
    RunMovesOn(open.meter.race, open, during);
    NewPosts(open, shut);
    Race.SinceBoundsGrants(open.meter.race, shut.meter.race);
    Shares(open.retry.maxRetries + 1, Total(open.calls, Posts), Total(shut.calls, Posts), Total(open.calls, Passing),
           open.meter.race.grants, shut.meter.race.grants,
           shut.meter.race.maxTokens * ((shut.clock - open.clock) / shut.meter.race.interval + 3));
    if open.gate.Semaphore? {
      PassingHoldsPermits(open);
    }
  }

  lemma NothingSince(race: Race.State)
    requires Race.Inv(race)
    ensures Race.Since(race, race)
  {
  }

  lemma Shares(n: nat, posts: nat, posts': nat, passing: nat, grants: nat, grants': nat, bound: int)
    requires posts' + n * grants <= posts + n * (passing + grants') && grants' - grants <= bound
    ensures posts' - posts <= n * (passing + bound)
  {
    MulMono(passing + grants', passing + bound + grants, n);
    assert n * (passing + bound + grants) == n * (passing + bound) + n * grants;
  }

  lemma PassingHoldsPermits(s: Client)
    requires Inv(s) && s.gate.Semaphore?
    ensures Total(s.calls, Passing) <= s.gate.size
  {
    hide Race.Inv;
    forall i | 0 <= i < |s.calls|
      ensures Passing(s.calls[i]) <= 1 * Permits(s.calls[i])
    {
      assert Consistent(s, s.calls[i]);
    }
    TotalsCompare(s.calls, Passing, 1, Permits);
  }

  /** The network and scheduler as one call of a run met them. */
  function WorldOf(c: Call): Retry.World<string> {
    Retry.World(
      (k: nat) => if k < |c.answers| then c.answers[k].result else Err(Http),
      (k: nat) => k == |c.answers| && c.phase == Returned(Err(Retry.SHUTDOWN_IN_BACKOFF)),
      c.answers == [])
  }

  /** Retry `k` left no earlier than the `k`-th wait after the answer before it. */
  ghost predicate SentAfterWaits(c: Call, waits: seq<nat>)
    requires |c.sent| == |c.answers|
  {
    forall k :: 0 < k < |c.sent| ==>
      k <= |waits| && c.answers[k - 1].at + waits[k - 1] * 1_000_000 <= c.sent[k]
  }

  /**
   Interleaving does not change what a single call does: every returned call of every run made exactly the POSTs and
   gave exactly the result of the sequential retry loop on the answers it received, and sent each retry no earlier
   than that loop's wait after the answer before it.
   */
  lemma ReturnedCallsFollowTheLoop(retry: Retry.RetryConfig, config: RateLimitConfig, t0: nat, es: seq<Event>, i: nat)
    requires Sound(config) && IsRun(Initial(retry, config, t0), es)
    requires i < |Run(Initial(retry, config, t0), es).calls|
    requires Run(Initial(retry, config, t0), es).calls[i].phase.Returned?
    ensures var c := Run(Initial(retry, config, t0), es).calls[i];
            var t := Retry.Call(retry, WorldOf(c));
            t.result == c.phase.result && t.posts == |c.sent| == |c.answers| && SentAfterWaits(c, t.waits)
  {
    hide Race.Inv;
    InitialInv(retry, config, t0);
    RunInv(Initial(retry, config, t0), es);
    RunIsOnTime(Initial(retry, config, t0), es);
    var s := Run(Initial(retry, config, t0), es);
    assert Consistent(s, s.calls[i]) && OnTime(s.retry, s.clock, s.calls[i]);
    ReturnFollowsLoop(retry, s.calls[i]);
    var (c, t) := (s.calls[i], Retry.Call(retry, WorldOf(s.calls[i])));
    forall k | 0 < k < |c.sent|
      ensures k <= |t.waits| && c.answers[k - 1].at + t.waits[k - 1] * 1_000_000 <= c.sent[k]
    {
      LoopWaitIsDue(retry, c, k);
      assert Due(retry, c.answers, k, c.sent[k]);
    }
  }

  lemma ReturnFollowsLoop(retry: Retry.RetryConfig, c: Call)
    requires c.phase.Returned? && ReturnConsistent(retry.maxRetries, c)
    ensures var t := Retry.Call(retry, WorldOf(c)); t.result == c.phase.result && t.posts == |c.sent| <= |t.waits| + 1
  {
    var (n, w) := (|c.answers|, WorldOf(c));
    if 0 < n {
      forall k | 0 <= k < n - 1
        ensures Retry.Passed(w, k)
      {
        assert c.answers[..n - 1][k] == c.answers[k];
      }
      Retry.StoppingPointIsUnique(retry, w, n - 1);
      Retry.RetryLoopContract(retry, w, 0);
    }
  }

  lemma LoopWaitIsDue(retry: Retry.RetryConfig, c: Call, k: nat)
    requires c.phase.Returned? && ReturnConsistent(retry.maxRetries, c) && 0 < k < |c.sent|
    ensures var t := Retry.Call(retry, WorldOf(c));
            k <= |t.waits| && k <= |c.answers| && Retry.Retries(c.answers[k - 1].result)
            && c.answers[k - 1].at + t.waits[k - 1] * 1_000_000 == DueAt(retry, c.answers, k)
  {
    var w := WorldOf(c);
    ReturnFollowsLoop(retry, c);
    Retry.RetryLoopContract(retry, w, 0);
    assert Retry.AskedToWait(retry, w, 0 + (k - 1), Retry.Call(retry, w).waits[k - 1]);
    assert w.outcome(k - 1) == c.answers[k - 1].result;
  }

  /** A call that answers with anything but its last outcome says that the client is shut down, and it is. */
  ghost predicate TruthfulAboutShutdown(s: Client) {
    forall i :: 0 <= i < |s.calls| && OwnAnswer(s.calls[i]) ==> s.shutdown
  }

  /** Returned without a POST, or with something else than the last POST brought. */
  predicate OwnAnswer(c: Call) {
    c.phase.Returned? && (c.answers == [] || c.phase.result != c.answers[|c.answers| - 1].result)
  }

  lemma StepKeepsTruthful(s: Client, e: Event)
    requires Usable(s) && Enabled(s, e) && TruthfulAboutShutdown(s)
    ensures TruthfulAboutShutdown(Step(s, e))
  {
    hide Race.Step, Race.Enabled;
    var s' := Step(s, e);
    forall i | 0 <= i < |s'.calls| && OwnAnswer(s'.calls[i])
      ensures s'.shutdown
    {
      assert i < |s.calls|;
      if !(MovesACall(e) && e.call == i) {
        assert OwnAnswer(s.calls[i]);
      }
    }
  }

  /** In every run, whatever the network answers: a call speaks of a shutdown of its own accord only after one. */
  lemma {:induction false} ShutdownAnswersAreTrue(s: Client, es: seq<Event>)
    requires Usable(s) && IsRun(s, es) && TruthfulAboutShutdown(s)
    ensures TruthfulAboutShutdown(Run(s, es))
    decreases |es|
  {
    hide TruthfulAboutShutdown;
    if es != [] {
      StepKeepsTruthful(s, es[0]);
      StepKeepsConfiguration(s, es[0]);
      ShutdownAnswersAreTrue(Step(s, es[0]), es[1..]);
    }
  }

  /** What a call that had not passed its entry check at shutdown can still be: refused or dropped, never served. */
  ghost predicate Refused(c: Call) {
    && c.sent == [] && c.answers == [] && !c.permit && !c.token
    && (c.phase.Entering? || c.phase.Dropped? || c.phase == Returned(Err(Retry.SHUTTING_DOWN)))
  }

  lemma StepKeepsRefused(s: Client, e: Event, i: nat)
    requires Usable(s) && s.shutdown && Enabled(s, e) && (i < |s.calls| ==> Refused(s.calls[i]))
    ensures var s' := Step(s, e); s'.shutdown && (i < |s'.calls| ==> Refused(s'.calls[i]))
  {
    hide Race.Step, Race.Enabled;
  }

  /**
   Once the client is shut down, every call begun later, and every call still before its entry check, sends no
   POST, takes no permit and no token, and can only return the shutdown rejection. Calls past the check may go on.
   */
  lemma {:induction false} NothingStartsAfterShutdown(s: Client, es: seq<Event>, i: nat)
    requires Usable(s) && s.shutdown && IsRun(s, es) && i < |Run(s, es).calls|
    requires i < |s.calls| ==> Refused(s.calls[i])
    ensures Refused(Run(s, es).calls[i])
    decreases |es|
  {
    if es != [] {
      StepKeepsConfiguration(s, es[0]);
      StepKeepsRefused(s, es[0], i);
      NothingStartsAfterShutdown(Step(s, es[0]), es[1..], i);
    }
  }
}
