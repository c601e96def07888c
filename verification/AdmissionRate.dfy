/**
 When a client keeps the request rate its configuration promises. The overwritten decrement of `RefillRace` reaches
 the POSTs whenever two calls can be inside `acquire` at once, and the permits decide whether they can.
 */
module AdmissionRate {
  import opened Arithmetic
  import opened Errors
  import opened TokenBuckets
  import opened Admission
  import Race = RefillRace
  import Retry

  // ---------------------------------------------------------------- one permit

  /** Nothing was overwritten and nothing is about to be. */
  ghost predicate Unharmed(s: Client) {
    s.meter.Metered? ==> s.meter.race.overwritten == 0 && s.meter.race.gap == 0
  }

  /** With one permit the refill's holder is the only call inside `acquire`, so no decrement lands in its gap. */
  lemma NobodyElseDecrements(s: Client, i: nat, op: Race.Event)
    requires Inv(s) && s.gate.Semaphore? && s.gate.size == 1 && Enabled(s, Acquire(i, op)) && op.CompareExchange?
    ensures !Race.RefillBetweenLoadAndStore(s.meter.race)
  {
    var race := s.meter.race;
    if Race.RefillBetweenLoadAndStore(race) {
      var h := race.holder.task;
      assert InsideRefill(s, h) && h < |s.calls|;
      assert Consistent(s, s.calls[h]) && Consistent(s, s.calls[i]);
      TotalOfTwo(s.calls, h, i, Permits);
      assert false;
    }
  }

  lemma StepKeepsUnharmed(s: Client, e: Event)
    requires Inv(s) && s.gate.Semaphore? && s.gate.size == 1 && Enabled(s, e) && Unharmed(s)
    ensures Unharmed(Step(s, e))
  {
    hide Race.Inv;
    if e.Acquire? && e.op.CompareExchange? {
      NobodyElseDecrements(s, e.call, e.op);
    }
  }

  lemma {:induction false} OnePermitOverwritesNothing(s: Client, es: seq<Event>)
    requires Inv(s) && s.gate.Semaphore? && s.gate.size == 1 && IsRun(s, es) && Unharmed(s)
    ensures Unharmed(Run(s, es))
    decreases |es|
  {
    hide Race.Inv, Unharmed;
    if es != [] {
      StepKeepsUnharmed(s, es[0]);
      StepInv(s, es[0]);
      StepKeepsConfiguration(s, es[0]);
      OnePermitOverwritesNothing(Step(s, es[0]), es[1..]);
    }
  }

  // ---------------------------------------------------------------- composing runs

  lemma {:induction false} Concat(s: Client, a: seq<Event>, b: seq<Event>)
    requires Usable(s) && IsRun(s, a) && IsRun(Run(s, a), b)
    ensures IsRun(s, a + b) && Run(s, a + b) == Run(Run(s, a), b)
    decreases |a|
  {
    hide Step, Enabled;
    if a == [] {
      assert a + b == b;
    } else {
      assert (a + b)[1..] == a[1..] + b;
      StepKeepsConfiguration(s, a[0]);
      Concat(Step(s, a[0]), a[1..], b);
    }
  }

  lemma Extend(s: Client, es: seq<Event>, e: Event)
    requires Usable(s) && IsRun(s, es) && Enabled(Run(s, es), e)
    ensures IsRun(s, es + [e]) && Run(s, es + [e]) == Step(Run(s, es), e)
  {
    hide Step, Enabled;
    assert [e][1..] == [];
    StepKeepsConfiguration(Run(s, es), e);
    var s' := Run(s, es);
    assert IsRun(Step(s', e), []) && Run(Step(s', e), []) == Step(s', e);
    assert IsRun(s', [e]) && Run(s', [e]) == Step(s', e);
    Concat(s, es, [e]);
  }

  /** Operations on the bucket by calls that wait for a token, none of which grants one, touch nothing but the bucket. */
  lemma {:induction false} Lift(s: Client, i: nat, ops: seq<Race.Event>) returns (es: seq<Event>)
    requires Usable(s) && s.meter.Metered? && i < |s.calls| && s.calls[i].phase.WaitingForToken?
    requires Race.IsRun(s.meter.race, ops) && (forall k :: 0 <= k < |ops| ==> Race.ByTask(ops[k], i))
    requires Race.Run(s.meter.race, ops).grants == s.meter.race.grants
    ensures IsRun(s, es) && Run(s, es) == s.(meter := Metered(Race.Run(s.meter.race, ops)))
    decreases |ops|
  {
    es := [];
    if ops != [] {
      hide Race.Step, Race.Enabled;
      var race' := Race.Step(s.meter.race, ops[0]);
      OperationGrants(s.meter.race, ops[0], i);
      assert race'.grants <= Race.Run(race', ops[1..]).grants;
      var e := Acquire(i, ops[0]);
      assert NextCall(s, e) == s.calls[i] && s.calls[i := s.calls[i]] == s.calls;
      assert Step(s, e) == s.(meter := Metered(race'));
      var rest := Lift(Step(s, e), i, ops[1..]);
      es := [e] + rest;
      assert es[1..] == rest;
    }
  }

  // ---------------------------------------------------------------- one call

  function Less(g: Gate): Gate {
    if g.Semaphore? && 0 < g.available then g.(available := g.available - 1) else g
  }

  function More(g: Gate): Gate {
    if g.Semaphore? then g.(available := g.available + 1) else g
  }

  ghost predicate HasPermit(s: Client) {
    s.gate.Semaphore? ==> 0 < s.gate.available
  }

  /** A new call gets as far as waiting for its token. */
  lemma Admit(s: Client) returns (es: seq<Event>)
    requires Usable(s) && s.meter.Metered? && !s.shutdown && HasPermit(s)
    ensures IsRun(s, es)
    ensures Run(s, es)
         == s.(calls := s.calls + [Call(WaitingForToken, s.gate.Semaphore?, false, [], [])], gate := Less(s.gate),
               meter := Metered(s.meter.race.(pcs := s.meter.race.pcs + [Race.Start])))
  {
    var (i, race) := (|s.calls|, s.meter.race);
    var begun := s.(calls := s.calls + [NEW_CALL], meter := Metered(race.(pcs := race.pcs + [Race.Start])));
    es := [];
    Extend(s, es, Begin);
    es := es + [Begin];
    assert Run(s, es) == begun;
    Extend(s, es, Check(i));
    es := es + [Check(i)];
    assert Run(s, es) == begun.(calls := s.calls + [NEW_CALL.(phase := WaitingForPermit)]);
    Extend(s, es, TakePermit(i));
    es := es + [TakePermit(i)];
  }

  /** The call takes the token it is about to take. */
  lemma Take(s: Client, i: nat)
    requires Usable(s) && s.meter.Metered? && i < |s.calls| && s.calls[i].phase.WaitingForToken?
    requires 0 < s.meter.race.tokens && i < |s.meter.race.pcs| && s.meter.race.pcs[i] == Race.Trying(s.meter.race.tokens)
    ensures var (e, race) := (Acquire(i, Race.CompareExchange(i)), s.meter.race);
            && Enabled(s, e)
            && Step(s, e) == s.(calls := s.calls[i := s.calls[i].(phase := Ready(0), token := true)],
                                meter := Metered(race.(tokens := race.tokens - 1, grants := race.grants + 1,
                                                       pcs := race.pcs[i := Race.Granted],
                                                       gap := if Race.RefillBetweenLoadAndStore(race) then race.gap + 1
                                                              else 0)))
  {
  }

  /** A quiet bucket: the call refills nothing and takes a token. */
  lemma AcquireQuietly(s: Client, i: nat) returns (es: seq<Event>)
    requires Usable(s) && s.meter.Metered? && i < |s.calls| && s.calls[i].phase.WaitingForToken?
    requires Race.Quiet(s.meter.race) && i < |s.meter.race.pcs| && s.meter.race.pcs[i].Start? && 0 < s.meter.race.tokens
    ensures IsRun(s, es)
    ensures var race := s.meter.race;
            Run(s, es) == s.(calls := s.calls[i := s.calls[i].(phase := Ready(0), token := true)],
                             meter := Metered(race.(tokens := race.tokens - 1, grants := race.grants + 1,
                                                    pcs := race.pcs[i := Race.Granted])))
  {
    hide Step, Enabled, Race.Run, Race.IsRun;
    var ops := Race.PrepareTake(s.meter.race, i);
    es := Lift(s, i, ops);
    Take(Run(s, es), i);
    Extend(s, es, Acquire(i, Race.CompareExchange(i)));
    es := es + [Acquire(i, Race.CompareExchange(i))];
  }

  const BUSY: Result<string> := Err(RateLimited(0))

  /** Every POST is answered 429 with no wait: the call sends all it may, at one instant, and leaves. */
  lemma {:induction false} PostAll(s: Client, i: nat) returns (es: seq<Event>, c: Call)
    requires Usable(s) && i < |s.calls| && s.calls[i].phase.Ready? && s.calls[i].phase.attempt <= s.retry.maxRetries
    requires s.calls[i].permit == s.gate.Semaphore?
    ensures IsRun(s, es)
    ensures Run(s, es) == s.(calls := s.calls[i := c], gate := More(s.gate))
    ensures |c.sent| == |s.calls[i].sent| + s.retry.maxRetries + 1 - s.calls[i].phase.attempt
    decreases s.retry.maxRetries - s.calls[i].phase.attempt
  {
    es, c := PostOnce(s, i);
    var k := s.calls[i].phase.attempt;
    if k < s.retry.maxRetries {
      var s' := Run(s, es);
      var rest, last := PostAll(s', i);
      Concat(s, es, rest);
      assert s'.calls[i := last] == s.calls[i := last];
      es, c := es + rest, last;
    }
  }

  /** One such POST, and the empty backoff after it. */
  lemma PostOnce(s: Client, i: nat) returns (es: seq<Event>, c: Call)
    requires Usable(s) && i < |s.calls| && s.calls[i].phase.Ready? && s.calls[i].phase.attempt <= s.retry.maxRetries
    requires s.calls[i].permit == s.gate.Semaphore?
    ensures IsRun(s, es) && |c.sent| == |s.calls[i].sent| + 1
    ensures var k := s.calls[i].phase.attempt;
            if k < s.retry.maxRetries
            then c.phase == Ready(k + 1) && c.permit == s.calls[i].permit && Run(s, es) == s.(calls := s.calls[i := c])
            else Run(s, es) == s.(calls := s.calls[i := c], gate := More(s.gate))
  {
    hide Race.Step, Race.Enabled;
    var (k, c0) := (s.calls[i].phase.attempt, s.calls[i]);
    es := [];
    Extend(s, es, Send(i));
    es := es + [Send(i)];
    var c1 := c0.(phase := InFlight(k), sent := c0.sent + [s.clock]);
    assert Run(s, es) == s.(calls := s.calls[i := c1]);
    Extend(s, es, Respond(i, BUSY));
    es := es + [Respond(i, BUSY)];
    c := Answered(s.retry, s.clock, c1, BUSY);
    assert s.calls[i := c1][i := c] == s.calls[i := c];
    if k < s.retry.maxRetries {
      assert Run(s, es) == s.(calls := s.calls[i := c]);
      Extend(s, es, EndBackoff(i));
      es := es + [EndBackoff(i)];
      var c3 := c.(phase := Ready(k + 1));
      assert s.calls[i := c][i := c3] == s.calls[i := c3];
      c := c3;
    }
  }

  // ---------------------------------------------------------------- many calls

  /** Between calls, right after a refill: `tokens` are left and `posts` POSTs have been sent. */
  ghost predicate Resting(s: Client, tokens: nat, posts: nat) {
    && Usable(s) && s.meter.Metered? && !s.shutdown
    && Race.Quiet(s.meter.race) && s.meter.race.tokens == tokens && s.meter.race.clock == s.clock
    && |s.meter.race.pcs| == |s.calls| && Total(s.calls, Posts) == posts
    && (s.gate.Semaphore? ==> 2 <= s.gate.available)
  }

  /** What a call that may use all its attempts sends. */
  function Share(s: Client): nat {
    s.retry.maxRetries + 1
  }

  lemma OneMoreCall(calls: seq<Call>, c0: Call, c: Call)
    requires c0.sent == []
    ensures (calls + [c0])[|calls| := c] == calls + [c]
    ensures Total(calls + [c], Posts) == Total(calls, Posts) + |c.sent|
  {
    TotalOfAppend(calls, c, Posts);
  }

  lemma Serve(s: Client, tokens: nat, posts: nat) returns (es: seq<Event>)
    requires Resting(s, tokens, posts) && 0 < tokens
    ensures IsRun(s, es) && Resting(Run(s, es), tokens - 1, posts + Share(s)) && Run(s, es).clock == s.clock
  {
    hide Step, Enabled, Race.Step, Race.Enabled, Answered;
    var i := |s.calls|;
    es := Admit(s);
    var s1 := Run(s, es);
    var more := AcquireQuietly(s1, i);
    var s2 := Run(s1, more);
    Concat(s, es, more);
    es := es + more;
    var last, c := PostAll(s2, i);
    Concat(s, es, last);
    es := es + last;
    OneMoreCall(s.calls, s1.calls[i], c);
    assert Run(s, es).calls == s.calls + [c];
  }

  lemma {:induction false} ServeSeveral(s: Client, tokens: nat, posts: nat, n: nat) returns (es: seq<Event>)
    requires Resting(s, tokens, posts) && n <= tokens
    ensures IsRun(s, es) && Resting(Run(s, es), tokens - n, posts + n * Share(s)) && Run(s, es).clock == s.clock
    decreases n
  {
    hide Step, Enabled;
    es := [];
    if 0 < n {
      es := Serve(s, tokens, posts);
      var rest := ServeSeveral(Run(s, es), tokens - 1, posts + Share(s), n - 1);
      Concat(s, es, rest);
      es := es + rest;
      assert n * Share(s) == Share(s) + (n - 1) * Share(s);
    }
  }

  /** Two calls wait for the last token. One interval later both have one, and one is left. */
  lemma RaceForTokens(s: Client, x: nat, y: nat) returns (es: seq<Event>)
    requires Usable(s) && s.meter.Metered? && x < y < |s.calls| == |s.meter.race.pcs|
    requires s.calls[x].phase.WaitingForToken? && s.calls[y].phase.WaitingForToken?
    requires s.meter.race.pcs[x].Start? && s.meter.race.pcs[y].Start?
    requires Race.Quiet(s.meter.race) && s.meter.race.tokens == 1 && 2 <= s.meter.race.maxTokens <= U32_MAX
    requires s.meter.race.clock == s.clock
    ensures IsRun(s, es)
    ensures var (s', race') := (Run(s, es), Run(s, es).meter);
            && s' == s.(calls := s.calls[x := s.calls[x].(phase := Ready(0), token := true)]
                                        [y := s.calls[y].(phase := Ready(0), token := true)],
                        clock := s.clock + s.meter.race.interval, meter := s'.meter)
            && race'.Metered? && Race.Quiet(race'.race) && race'.race.tokens == 1 && race'.race.clock == s'.clock
            && |race'.race.pcs| == |s.calls|
  {
    var s1;
    es, s1 := RaceUntilStore(s, x, y);
    hide Step, Enabled, Race.Step, Race.Enabled, Race.Run, Race.IsRun;
    Take(s1, x);
    Extend(s, es, Acquire(x, Race.CompareExchange(x)));
    es := es + [Acquire(x, Race.CompareExchange(x))];
    var s2 := Run(s, es);
    var ops := Race.StoreOverDecrement(s2.meter.race, y);
    var more := Lift(s2, y, ops);
    Concat(s, es, more);
    es := es + more;
    Take(Run(s, es), y);
    Extend(s, es, Acquire(y, Race.CompareExchange(y)));
    es := es + [Acquire(y, Race.CompareExchange(y))];
  }

  lemma RaceUntilStore(s: Client, x: nat, y: nat) returns (es: seq<Event>, s': Client)
    requires Usable(s) && s.meter.Metered? && x < y < |s.calls| == |s.meter.race.pcs|
    requires s.calls[x].phase.WaitingForToken? && s.calls[y].phase.WaitingForToken?
    requires s.meter.race.pcs[x].Start? && s.meter.race.pcs[y].Start?
    requires Race.Quiet(s.meter.race) && s.meter.race.tokens == 1 && s.meter.race.clock == s.clock
    ensures IsRun(s, es) && s' == Run(s, es)
    ensures var (race, later) := (s.meter.race, s.clock + s.meter.race.interval);
            s' == s.(clock := later,
                     meter := Metered(race.(clock := later, holder := Race.HeldBy(y),
                                            pcs := race.pcs[x := Race.Trying(1)][y := Race.Loaded(later, 1, 1)])))
  {
    hide Enabled, Race.Run, Race.IsRun, NextCall, NextGate;
    var race := s.meter.race;
    var ops := Race.PrepareTake(race, x);
    es := Lift(s, x, ops);
    assert Enabled(Run(s, es), Tick(race.interval)) by {
      TickIsEnabled(Run(s, es), race.interval);
    }
    Extend(s, es, Tick(race.interval));
    es := es + [Tick(race.interval)];
    var s1 := Run(s, es);
    assert s1.meter.race == race.(clock := race.clock + race.interval, pcs := race.pcs[x := Race.Trying(1)]);
    ops := Race.PrepareStore(s1.meter.race, y);
    var more := Lift(s1, y, ops);
    Concat(s, es, more);
    es := es + more;
    s' := Run(s, es);
  }

  lemma TickIsEnabled(s: Client, n: nat)
    requires Usable(s)
    ensures Enabled(s, Tick(n))
  {
  }

  /** Both then use up their attempts. */
  lemma ServeTwo(s: Client, posts: nat) returns (es: seq<Event>)
    requires Resting(s, 1, posts) && 2 <= s.meter.race.maxTokens <= U32_MAX
    ensures IsRun(s, es) && Resting(Run(s, es), 1, posts + Share(s) + Share(s))
    ensures Run(s, es).clock == s.clock + s.meter.race.interval
  {
    hide Step, Enabled, Race.Step, Race.Enabled, Answered;
    var x := |s.calls|;
    es := Admit(s);
    var more := Admit(Run(s, es));
    Concat(s, es, more);
    es := es + more;
    var s1 := Run(s, es);
    more := RaceForTokens(s1, x, x + 1);
    Concat(s, es, more);
    es := es + more;
    var s2 := Run(s, es);
    var first, c := PostAll(s2, x);
    Concat(s, es, first);
    es := es + first;
    var second, d := PostAll(Run(s, es), x + 1);
    Concat(s, es, second);
    es := es + second;
    assert Run(s, es).calls == (s.calls + [c]) + [d];
    TotalOfAppend(s.calls, c, Posts);
    TotalOfAppend(s.calls + [c], d, Posts);
  }

  // ---------------------------------------------------------------- the promised rate

  /** What a reader of the configuration expects of every run: attempts per call times burst plus one per interval. */
  ghost predicate KeepsItsRate(retry: Retry.RetryConfig, config: RateLimitConfig, t0: nat)
    requires Sound(config) && config.maxRps.AtMost?
  {
    forall es :: IsRun(Initial(retry, config, t0), es) ==>
      var s := Run(Initial(retry, config, t0), es);
      Total(s.calls, Posts)
      <= (retry.maxRetries + 1) * (config.maxRps.n + (s.clock - t0) / (NANOS_PER_SEC / config.maxRps.n))
  }

  /** With two permits or none, and more than one request per second: two shares too many after one interval. */
  lemma TwoPermitsExceedTheRate(retry: Retry.RetryConfig, config: RateLimitConfig, t0: nat) returns (es: seq<Event>)
    requires Sound(config) && config.maxRps.AtMost? && 2 <= config.maxRps.n && config.maxConcurrent != AtMost(1)
    ensures IsRun(Initial(retry, config, t0), es)
    ensures var s := Run(Initial(retry, config, t0), es);
            && s.clock == t0 + NANOS_PER_SEC / config.maxRps.n
            && Total(s.calls, Posts) == (retry.maxRetries + 1) * (config.maxRps.n + 2)
  {
    hide Step, Enabled;
    var (s, n) := (Initial(retry, config, t0), config.maxRps.n);
    DivAtLeast(NANOS_PER_SEC, 1, n);
    assert Resting(s, n, 0);
    es := ServeSeveral(s, n, 0, n - 1);
    var posts := (n - 1) * Share(s);
    var more := ServeTwo(Run(s, es), posts);
    Concat(s, es, more);
    es := es + more;
    more := Serve(Run(s, es), 1, posts + Share(s) + Share(s));
    Concat(s, es, more);
    es := es + more;
    assert (retry.maxRetries + 1) * (n + 2) == (n - 1) * Share(s) + Share(s) + Share(s) + Share(s);
  }

  /**
   The exact condition under which a client keeps the rate its configuration promises, over every interleaving: a rate
   of one per second, or a single permit. It can be read off the configuration, whatever the retry settings.
   */
  lemma KeepsItsRateExactlyWhen(retry: Retry.RetryConfig, config: RateLimitConfig, t0: nat)
    requires Sound(config) && config.maxRps.AtMost?
    ensures KeepsItsRate(retry, config, t0) <==> config.maxRps.n == 1 || config.maxConcurrent == AtMost(1)
  {
    hide Step, Enabled;
    var (s0, n) := (Initial(retry, config, t0), config.maxRps.n);
    if n == 1 || config.maxConcurrent == AtMost(1) {
      forall es | IsRun(s0, es)
        ensures Total(Run(s0, es).calls, Posts)
             <= (retry.maxRetries + 1) * (n + (Run(s0, es).clock - t0) / (NANOS_PER_SEC / n))
      {
        PostsOfEveryRun(retry, config, t0, es);
        InitialInv(retry, config, t0);
        if n != 1 {
          OnePermitOverwritesNothing(s0, es);
        }
      }
    } else {
      var es := TwoPermitsExceedTheRate(retry, config, t0);
      var interval := NANOS_PER_SEC / n;
      DivAtLeast(NANOS_PER_SEC, 1, n);
      QuotientUnique(interval, interval, 1);
      assert (retry.maxRetries + 1) * (n + 2) == (retry.maxRetries + 1) * (n + 1) + retry.maxRetries + 1;
      assert !KeepsItsRate(retry, config, t0);
    }
  }
}
