/**
 The token bucket at the granularity of its atomic operations: any number of tasks run `acquire`, and loads,
 stores and compare-exchanges of different tasks interleave freely. A refill runs under the mutex but loads and
 stores `tokens` separately, while the decrement is outside the mutex.
 */
module RefillRace {
  import opened Arithmetic
  import opened TokenBuckets

  /** Where a task stands in one iteration of `acquire`. */
  datatype Pc =
    | Start                                          // about to lock `last_refill`
    | Locked                                         // holds the lock, about to read the clock
    | Due(now: nat, added: nat)                      // holds the lock, about to load `tokens`
    | Loaded(now: nat, added: nat, seen: nat)        // holds the lock, about to store
    | Stored(now: nat)                               // holds the lock, about to set `last` and release
    | NotDue                                         // holds the lock, about to release
    | Refilled                                       // about to load `tokens` for the decrement
    | Trying(seen: nat)                              // about to compare-exchange
    | Asleep
    | Granted

  datatype State = State(
    tokens: nat, maxTokens: nat, interval: nat, lastRefill: nat,
    clock: nat, holder: Holder, pcs: seq<Pc>,
    // bookkeeping of the run, never read by a task
    start: nat, grants: nat, credited: nat, gap: nat, overwritten: nat, refills: nat)

  datatype Holder = Free | HeldBy(task: nat)

  datatype Event =
    | Tick(nanos: nat)
    | Spawn
    | Lock(task: nat)
    | ReadClock(task: nat)
    | LoadForRefill(task: nat)
    | StoreRefill(task: nat)
    | Unlock(task: nat)
    | LoadForTake(task: nat)
    | CompareExchange(task: nat)
    | Wake(task: nat)
    | CallAgain(task: nat)

  predicate InCriticalSection(pc: Pc) {
    pc.Locked? || pc.Due? || pc.Loaded? || pc.Stored? || pc.NotDue?
  }

  predicate Enabled(s: State, e: Event)
    requires 0 < s.interval
  {
    match e
    case Tick(_) => true
    case Spawn => true
    case Lock(t) => t < |s.pcs| && s.pcs[t].Start? && s.holder.Free?
    case ReadClock(t) => t < |s.pcs| && s.pcs[t].Locked?
    case LoadForRefill(t) => t < |s.pcs| && s.pcs[t].Due?
    case StoreRefill(t) => t < |s.pcs| && s.pcs[t].Loaded?
    case Unlock(t) => t < |s.pcs| && (s.pcs[t].Stored? || s.pcs[t].NotDue?)
    case LoadForTake(t) => t < |s.pcs| && s.pcs[t].Refilled?
    case CompareExchange(t) => t < |s.pcs| && s.pcs[t].Trying? && s.pcs[t].seen > 0
    case Wake(t) => t < |s.pcs| && s.pcs[t].Asleep?
    case CallAgain(t) => t < |s.pcs| && s.pcs[t].Granted?
  }

  /** An operation that task `t` performs inside one call of `acquire`. */
  predicate ByTask(e: Event, t: nat) {
    !e.Tick? && !e.Spawn? && !e.CallAgain? && e.task == t
  }

  predicate RefillBetweenLoadAndStore(s: State) {
    s.holder.HeldBy? && s.holder.task < |s.pcs| && s.pcs[s.holder.task].Loaded?
  }

  /** One atomic step. `gap` counts the decrements that landed since the pending refill loaded `tokens`. */
  function Step(s: State, e: Event): State
    requires 0 < s.interval && Enabled(s, e)
  {
    match e
    case Tick(n) => s.(clock := s.clock + n)
    case Spawn => s.(pcs := s.pcs + [Start])
    case Lock(t) => s.(holder := HeldBy(t), pcs := s.pcs[t := Locked])
    case ReadClock(t) =>
      var added := NewTokens(s.interval, Elapsed(s.clock, s.lastRefill));
      s.(pcs := s.pcs[t := if added > 0 then Due(s.clock, added) else NotDue])
    case LoadForRefill(t) =>
      s.(pcs := s.pcs[t := Loaded(s.pcs[t].now, s.pcs[t].added, s.tokens)], gap := 0)
    case StoreRefill(t) =>
      var refilled := Min(SaturatingAdd(s.pcs[t].seen, s.pcs[t].added), s.maxTokens);
      s.(tokens := refilled, pcs := s.pcs[t := Stored(s.pcs[t].now)], refills := s.refills + 1,
         credited := s.credited + Elapsed(refilled, s.pcs[t].seen), overwritten := s.overwritten + s.gap, gap := 0)
    case Unlock(t) =>
      s.(lastRefill := if s.pcs[t].Stored? then s.pcs[t].now else s.lastRefill,
         holder := Free, pcs := s.pcs[t := Refilled])
    case LoadForTake(t) =>
      s.(pcs := s.pcs[t := if s.tokens > 0 then Trying(s.tokens) else Asleep])
    case CompareExchange(t) =>
      if s.tokens == s.pcs[t].seen then
        s.(tokens := s.tokens - 1, pcs := s.pcs[t := Granted], grants := s.grants + 1,
           gap := if RefillBetweenLoadAndStore(s) then s.gap + 1 else 0)
      else s.(pcs := s.pcs[t := Start])
    case Wake(t) => s.(pcs := s.pcs[t := Start])
    case CallAgain(t) => s.(pcs := s.pcs[t := Start])
  }

  function Initial(maxRps: nat, now: nat): (s: State)
    requires 0 < maxRps
    ensures maxRps <= NANOS_PER_SEC ==> 0 < s.interval
  {
    DivAtLeast(NANOS_PER_SEC, if maxRps <= NANOS_PER_SEC then 1 else 0, maxRps);
    State(maxRps, maxRps, NANOS_PER_SEC / maxRps, now, now, Free, [], now, 0, 0, 0, 0, 0)
  }

  ghost predicate IsRun(s: State, es: seq<Event>)
    requires 0 < s.interval
    decreases |es|
  {
    es != [] ==> Enabled(s, es[0]) && IsRun(Step(s, es[0]), es[1..])
  }

  ghost function Run(s: State, es: seq<Event>): (s': State)
    requires 0 < s.interval && IsRun(s, es)
    ensures s'.interval == s.interval && s'.maxTokens == s.maxTokens && s'.start == s.start
    ensures |s.pcs| <= |s'.pcs| && s.grants <= s'.grants
    decreases |es|
  {
    if es == [] then s else Run(Step(s, es[0]), es[1..])
  }

  // ---------------------------------------------------------------- the invariant

  /** The last refill, counting one that has stored its tokens but not yet the time. */
  function LastCredited(s: State): nat {
    if s.holder.HeldBy? && s.holder.task < |s.pcs| && s.pcs[s.holder.task].Stored?
    then s.pcs[s.holder.task].now else s.lastRefill
  }

  ghost predicate PcConsistent(s: State, pc: Pc)
    requires 0 < s.interval
  {
    match pc
    case Due(now, added) =>
      s.lastRefill + s.interval <= now <= s.clock && 0 < added <= (now - s.lastRefill) / s.interval
    case Loaded(now, added, seen) =>
      s.lastRefill + s.interval <= now <= s.clock && 0 < added <= (now - s.lastRefill) / s.interval
      && seen == s.tokens + s.gap && seen <= s.maxTokens
    case Stored(now) => s.lastRefill + s.interval <= now <= s.clock
    case Trying(seen) => 0 < seen
    case _ => true
  }

  ghost predicate MutualExclusion(s: State) {
    && (s.holder.HeldBy? ==> s.holder.task < |s.pcs|)
    && forall i :: 0 <= i < |s.pcs| ==> (InCriticalSection(s.pcs[i]) <==> s.holder == HeldBy(i))
  }

  ghost predicate Ledger(s: State)
    requires 0 < s.interval && s.start <= s.lastRefill
  {
    && s.tokens + s.grants == s.maxTokens + s.credited + s.overwritten
    && s.credited <= (LastCredited(s) - s.start) / s.interval
    && s.refills * s.interval <= LastCredited(s) - s.start
    && s.credited + s.overwritten <= s.refills * s.maxTokens
    && s.overwritten + s.gap <= s.grants
  }

  ghost predicate Inv(s: State) {
    && 0 < s.interval && s.tokens <= s.maxTokens <= U32_MAX
    && s.start <= s.lastRefill <= s.clock
    && MutualExclusion(s)
    && (forall i :: 0 <= i < |s.pcs| ==> PcConsistent(s, s.pcs[i]))
    && (!RefillBetweenLoadAndStore(s) ==> s.gap == 0)
    && s.start <= LastCredited(s) <= s.clock
    && Ledger(s)
  }

  lemma InitialInv(maxRps: nat, now: nat)
    requires 0 < maxRps <= NANOS_PER_SEC
    ensures Inv(Initial(maxRps, now))
  {
    DivAtLeast(NANOS_PER_SEC, 1, maxRps);
    QuotientUnique(0, NANOS_PER_SEC / maxRps, 0);
  }

  lemma StepKeepsMutualExclusion(s: State, e: Event)
    requires 0 < s.interval && MutualExclusion(s) && Enabled(s, e)
    ensures MutualExclusion(Step(s, e))
  {
  }

  /** Only the lock holder can be past its clock reading, so a step leaves every other task consistent. */
  lemma StepKeepsPcs(s: State, e: Event)
    requires Inv(s) && Enabled(s, e)
    ensures var s' := Step(s, e); forall i :: 0 <= i < |s'.pcs| ==> PcConsistent(s', s'.pcs[i])
  {
    hide Ledger, LastCredited, NewTokens;
    var s' := Step(s, e);
    forall i | 0 <= i < |s'.pcs|
      ensures PcConsistent(s', s'.pcs[i])
    {
      if i < |s.pcs| {
        assert PcConsistent(s, s.pcs[i]);
        if e.ReadClock? && i == e.task {
          ReadingIsConsistent(s, i);
        }
      }
    }
  }

  lemma ReadingIsConsistent(s: State, t: nat)
    requires Inv(s) && Enabled(s, ReadClock(t))
    ensures var s' := Step(s, ReadClock(t)); PcConsistent(s', s'.pcs[t])
  {
    hide Ledger, LastCredited;
    RefillCredit(Bucket(s.tokens, s.maxTokens, s.interval, s.lastRefill), s.clock);
    assert s.clock - s.lastRefill < s.interval ==> NewTokens(s.interval, s.clock - s.lastRefill) == 0;
  }

  /** One more refill in the products of the ledger. */
  lemma OneMoreRefill(refills: nat, size: nat, used: int, more: int)
    requires used <= refills * size && more <= size
    ensures used + more <= (refills + 1) * size
  {
    assert (refills + 1) * size == refills * size + size;
  }

  lemma StoreKeepsLedger(s: State, t: nat)
    requires Inv(s) && Enabled(s, StoreRefill(t))
    ensures Ledger(Step(s, StoreRefill(t)))
  {
    var s', now, seen := Step(s, StoreRefill(t)), s.pcs[t].now, s.pcs[t].seen;
    assert PcConsistent(s, s.pcs[t]) && s.holder == HeldBy(t);
    assert LastCredited(s) == s.lastRefill && LastCredited(s') == now;
    assert s'.tokens == s'.credited - s.credited + seen;
    DivSuperadditive(s.lastRefill - s.start, now - s.lastRefill, s.interval);
    OneMoreRefill(s.refills, s.maxTokens, s.credited + s.overwritten, s'.credited - s.credited + s.gap);
    assert s'.refills * s.interval <= now - s.start by {
      assert s'.refills * s.interval == s.refills * s.interval + s.interval;
    }
  }

  lemma StepKeepsLedger(s: State, e: Event)
    requires Inv(s) && Enabled(s, e)
    ensures var s' := Step(s, e); s'.start <= s'.lastRefill <= s'.clock && Ledger(s')
  {
    if e.StoreRefill? {
      StoreKeepsLedger(s, e.task);
    } else if e.Unlock? {
      assert s.holder == HeldBy(e.task);
      assert LastCredited(Step(s, e)) == LastCredited(s);
    } else {
      assert LastCredited(Step(s, e)) == LastCredited(s);
    }
  }

  lemma StepInv(s: State, e: Event)
    requires Inv(s) && Enabled(s, e)
    ensures Inv(Step(s, e))
  {
    StepKeepsMutualExclusion(s, e);
    StepKeepsPcs(s, e);
    StepKeepsLedger(s, e);
  }

  lemma {:induction false} RunInv(s: State, es: seq<Event>)
    requires Inv(s) && IsRun(s, es)
    ensures Inv(Run(s, es))
    decreases |es|
  {
    if es != [] {
      StepInv(s, es[0]);
      RunInv(Step(s, es[0]), es[1..]);
    }
  }

  // ---------------------------------------------------------------- composing runs

  lemma {:induction false} Concat(s: State, a: seq<Event>, b: seq<Event>)
    requires 0 < s.interval && IsRun(s, a) && IsRun(Run(s, a), b)
    ensures IsRun(s, a + b) && Run(s, a + b) == Run(Run(s, a), b)
    decreases |a|
  {
    if a == [] {
      assert a + b == b;
    } else {
      assert (a + b)[1..] == a[1..] + b;
      Concat(Step(s, a[0]), a[1..], b);
    }
  }

  lemma Extend(s: State, es: seq<Event>, e: Event)
    requires 0 < s.interval && IsRun(s, es) && Enabled(Run(s, es), e)
    ensures IsRun(s, es + [e]) && Run(s, es + [e]) == Step(Run(s, es), e)
  {
    assert [e][1..] == [];
    assert IsRun(Run(s, es), [e]) && Run(Run(s, es), [e]) == Step(Run(s, es), e);
    Concat(s, es, [e]);
  }

  // ---------------------------------------------------------------- agreement with the coarse model

  function BucketOf(s: State): Bucket {
    Bucket(s.tokens, s.maxTokens, s.interval, s.lastRefill)
  }

  /** An iteration of `acquire` that no other task interrupts is exactly one `Poll`. */
  lemma UndisturbedIterationIsPoll(s: State, t: nat) returns (es: seq<Event>)
    requires Inv(s) && s.holder.Free? && t < |s.pcs| && s.pcs[t].Start?
    ensures IsRun(s, es) && forall k :: 0 <= k < |es| ==> ByTask(es[k], t) && !es[k].Wake?
    ensures var (b, granted) := Poll(BucketOf(s), s.clock);
            BucketOf(Run(s, es)) == b && Run(s, es).pcs[t] == (if granted then Granted else Asleep)
  {
    es := UndisturbedRefill(s, t);
    Extend(s, es, LoadForTake(t));
    es := es + [LoadForTake(t)];
    if Run(s, es).pcs[t].Trying? {
      Extend(s, es, CompareExchange(t));
      es := es + [CompareExchange(t)];
    }
  }

  lemma UndisturbedRefill(s: State, t: nat) returns (es: seq<Event>)
    requires Inv(s) && s.holder.Free? && t < |s.pcs| && s.pcs[t].Start?
    ensures IsRun(s, es)
    ensures BucketOf(Run(s, es)) == Refill(BucketOf(s), s.clock) && Run(s, es).pcs[t] == Refilled
    ensures forall k :: 0 <= k < |es| ==> ByTask(es[k], t) && !es[k].Wake?
    ensures Run(s, es).grants == s.grants && Run(s, es).overwritten == s.overwritten
  {
    es := [];
    Extend(s, es, Lock(t));
    es := es + [Lock(t)];
    Extend(s, es, ReadClock(t));
    es := es + [ReadClock(t)];
    if Run(s, es).pcs[t].Due? {
      Extend(s, es, LoadForRefill(t));
      es := es + [LoadForRefill(t)];
      Extend(s, es, StoreRefill(t));
      es := es + [StoreRefill(t)];
    }
    Extend(s, es, Unlock(t));
    es := es + [Unlock(t)];
  }

  /** The store of a refill credits what it added and the bucket had room for, no more and no less. */
  lemma StoreCreditsExactly(s: State, t: nat)
    requires Inv(s) && Enabled(s, StoreRefill(t))
    ensures var (s', seen, added) := (Step(s, StoreRefill(t)), s.pcs[t].seen, s.pcs[t].added);
            && s'.credited - s.credited == (if added < s.maxTokens - seen then added else s.maxTokens - seen)
            && s'.tokens == seen + (s'.credited - s.credited)
  {
    assert PcConsistent(s, s.pcs[t]);
  }

  /** A refill no other task interrupts adds every whole interval elapsed, modulo 2^32, up to a full bucket. */
  lemma UndisturbedRefillIsExact(s: State, t: nat) returns (es: seq<Event>)
    requires Inv(s) && s.holder.Free? && t < |s.pcs| && s.pcs[t].Start?
    ensures IsRun(s, es) && Run(s, es).pcs[t] == Refilled
    ensures var (s', due) := (Run(s, es), ((s.clock - s.lastRefill) / s.interval) % 0x1_0000_0000);
            && s'.tokens == (if s.tokens + due < s.maxTokens then s.tokens + due else s.maxTokens)
            && s'.lastRefill == (if due == 0 then s.lastRefill else s.clock)
            && s'.grants == s.grants && s'.credited == s.credited + (s'.tokens - s.tokens)
  {
    es := UndisturbedRefill(s, t);
    RefillIsExact(BucketOf(s), s.clock);
    RunInv(s, es);
  }

  /**
   A task that loses the exchange goes round at once: without sleeping it is served if there is a token, and asleep if
   there is not.
   */
  lemma LoserGoesRound(s: State, t: nat) returns (es: seq<Event>)
    requires Inv(s) && s.holder.Free? && t < |s.pcs| && s.pcs[t].Trying? && s.pcs[t].seen != s.tokens
    ensures forall k :: 0 <= k < |es| ==> ByTask(es[k], t) && !es[k].Wake?
    ensures IsRun(s, [CompareExchange(t)] + es)
    ensures Run(s, [CompareExchange(t)] + es).pcs[t] == if Poll(BucketOf(s), s.clock).1 then Granted else Asleep
  {
    assert PcConsistent(s, s.pcs[t]);
    var s' := Step(s, CompareExchange(t));
    StepInv(s, CompareExchange(t));
    assert BucketOf(s') == BucketOf(s);
    es := UndisturbedIterationIsPoll(s', t);
    assert ([CompareExchange(t)] + es)[1..] == es;
  }

  /** And one that slept refills before it looks again: it is served as soon as a token is there or due. */
  lemma SleeperIsServed(s: State, t: nat) returns (es: seq<Event>)
    requires Inv(s) && s.holder.Free? && t < |s.pcs| && s.pcs[t].Asleep? && 0 < s.maxTokens
    requires 0 < s.tokens || ((s.clock - s.lastRefill) / s.interval) % 0x1_0000_0000 != 0
    ensures IsRun(s, [Wake(t)] + es) && Run(s, [Wake(t)] + es).pcs[t] == Granted
  {
    var s' := Step(s, Wake(t));
    StepInv(s, Wake(t));
    RefillIsExact(BucketOf(s), s.clock);
    es := UndisturbedIterationIsPoll(s', t);
    assert BucketOf(s') == BucketOf(s) && Poll(BucketOf(s), s.clock).1;
    assert ([Wake(t)] + es)[1..] == es;
  }

  // ---------------------------------------------------------------- what every run keeps

  /**
   The exact ledger of every interleaving: at most one refill is in flight, the bucket never overfills, and every
   token is accounted for. The tokens in the bucket and those granted are the initial burst, what the refills
   credited (at most one per whole interval) and the decrements that a refill's store overwrote.
   */
  lemma LedgerOfEveryRun(maxRps: nat, t0: nat, es: seq<Event>)
    requires 0 < maxRps <= NANOS_PER_SEC && IsRun(Initial(maxRps, t0), es)
    ensures var s := Run(Initial(maxRps, t0), es);
            && s.tokens <= maxRps
            && (forall i, j :: (0 <= i < |s.pcs| && 0 <= j < |s.pcs| && InCriticalSection(s.pcs[i])
                                && InCriticalSection(s.pcs[j])) ==> i == j)
            && s.tokens + s.grants == maxRps + s.credited + s.overwritten
            && t0 <= LastCredited(s) <= s.clock && s.credited <= (LastCredited(s) - t0) / (NANOS_PER_SEC / maxRps)
  {
    InitialInv(maxRps, t0);
    RunInv(Initial(maxRps, t0), es);
  }

  /**
   Two bounds on grants over all interleavings: one token per interval plus the overwritten decrements, and,
   whatever is overwritten, a full bucket per interval.
   */
  lemma GrantsOfEveryRun(maxRps: nat, t0: nat, es: seq<Event>)
    requires 0 < maxRps <= NANOS_PER_SEC && IsRun(Initial(maxRps, t0), es)
    ensures var s := Run(Initial(maxRps, t0), es);
            && t0 <= s.clock
            && s.grants <= maxRps + (s.clock - t0) / (NANOS_PER_SEC / maxRps) + s.overwritten
            && s.grants <= maxRps * (1 + (s.clock - t0) / (NANOS_PER_SEC / maxRps))
  {
    InitialInv(maxRps, t0);
    RunInv(Initial(maxRps, t0), es);
    LedgerBoundsGrants(Run(Initial(maxRps, t0), es));
  }

  lemma LedgerBoundsGrants(s: State)
    requires Inv(s)
    ensures s.grants <= s.maxTokens + (s.clock - s.start) / s.interval + s.overwritten
    ensures s.grants <= s.maxTokens * (1 + (s.clock - s.start) / s.interval)
  {
    DivMono(LastCredited(s) - s.start, s.clock - s.start, s.interval);
    RefillsFitIntervals(s);
    BucketfulPerInterval(s.maxTokens, s.refills, (s.clock - s.start) / s.interval);
  }

  lemma RefillsFitIntervals(s: State)
    requires Inv(s)
    ensures s.refills <= (s.clock - s.start) / s.interval
  {
    DivAtLeast(s.clock - s.start, s.refills, s.interval);
  }

  lemma BucketfulPerInterval(size: nat, refills: nat, earned: nat)
    requires refills <= earned
    ensures size + refills * size <= size * (1 + earned)
  {
    MulMono(refills, earned, size);
    assert size * (1 + earned) == size + earned * size;
  }

  /** A task cannot race with itself. */
  lemma {:induction false} OneTaskOverwritesNothing(s: State, es: seq<Event>)
    requires Inv(s) && s.overwritten == 0 && s.gap == 0 && IsRun(s, es) && |Run(s, es).pcs| <= 1
    ensures Run(s, es).overwritten == 0
    decreases |es|
  {
    if es != [] {
      var s' := Step(s, es[0]);
      StepInv(s, es[0]);
      OneTaskOverwritesNothing(s', es[1..]);
    }
  }

  // ---------------------------------------------------------------- windows

  /** What has happened since `s0`, in refills, grants and the time of the last refill. */
  ghost predicate Since(s0: State, s: State)
    requires 0 < s.interval
  {
    && s0.refills <= s.refills && s0.grants <= s.grants && s0.clock <= s.clock
    && s.tokens + (s.grants - s0.grants) <= s.maxTokens * (1 + (s.refills - s0.refills))
    && (s0.refills < s.refills ==> forall i :: 0 <= i < |s.pcs| ==> ReadAfter(s.pcs[i], s0.clock))
    && (s0.refills + 2 <= s.refills ==> s0.clock + (s.refills - s0.refills - 2) * s.interval <= LastCredited(s))
  }

  /** A refill under way read the clock no earlier than `start`. */
  predicate ReadAfter(pc: Pc, start: nat) {
    pc.Due? || pc.Loaded? ==> start <= pc.now
  }

  lemma StoreKeepsSince(s0: State, s: State, t: nat)
    requires Inv(s) && Since(s0, s) && Enabled(s, StoreRefill(t))
    ensures Since(s0, Step(s, StoreRefill(t)))
  {
    var (s', r) := (Step(s, StoreRefill(t)), s.refills - s0.refills);
    assert PcConsistent(s, s.pcs[t]) && s.holder == HeldBy(t);
    assert s.maxTokens * (1 + (r + 1)) == s.maxTokens * (1 + r) + s.maxTokens;
    assert LastCredited(s) == s.lastRefill && LastCredited(s') == s.pcs[t].now;
    forall i | 0 <= i < |s'.pcs|
      ensures ReadAfter(s'.pcs[i], s0.clock)
    {
      assert i != t ==> !InCriticalSection(s.pcs[i]);
    }
    if 1 <= r {
      assert ReadAfter(s.pcs[t], s0.clock);
      assert (r - 1) * s.interval == (r - 2) * s.interval + s.interval;
    }
  }

  lemma StepKeepsSince(s0: State, s: State, e: Event)
    requires Inv(s) && Since(s0, s) && Enabled(s, e)
    ensures Since(s0, Step(s, e))
  {
    if e.StoreRefill? {
      StoreKeepsSince(s0, s, e.task);
    } else {
      if e.Unlock? {
        assert s.holder == HeldBy(e.task);
      }
      assert LastCredited(Step(s, e)) == LastCredited(s);
    }
  }

  lemma {:induction false} RunKeepsSince(s0: State, s: State, es: seq<Event>)
    requires Inv(s) && Since(s0, s) && IsRun(s, es)
    ensures Inv(Run(s, es)) && Since(s0, Run(s, es))
    decreases |es|
  {
    if es != [] {
      StepInv(s, es[0]);
      StepKeepsSince(s0, s, es[0]);
      RunKeepsSince(s0, Step(s, es[0]), es[1..]);
    }
  }

  /**
   The bound over every window of every interleaving, whatever came before: one bucketful held when the window opens
   and one per refill stored in it. Stored are at most one refill per whole interval of the window and two more, the
   first of which may have read the clock long before.
   */
  lemma GrantsInEveryWindow(maxRps: nat, t0: nat, before: seq<Event>, during: seq<Event>)
    requires 0 < maxRps <= NANOS_PER_SEC && IsRun(Initial(maxRps, t0), before)
    requires IsRun(Run(Initial(maxRps, t0), before), during)
    ensures var (open, shut) := (Run(Initial(maxRps, t0), before), Run(Run(Initial(maxRps, t0), before), during));
            && open.clock <= shut.clock && open.refills <= shut.refills
            && shut.grants - open.grants <= maxRps * (1 + (shut.refills - open.refills))
            && shut.refills - open.refills <= (shut.clock - open.clock) / (NANOS_PER_SEC / maxRps) + 2
            && shut.grants - open.grants <= maxRps * ((shut.clock - open.clock) / (NANOS_PER_SEC / maxRps) + 3)
  {
    InitialInv(maxRps, t0);
    RunInv(Initial(maxRps, t0), before);
    var open := Run(Initial(maxRps, t0), before);
    RunKeepsSince(open, open, during);
    SinceBoundsGrants(open, Run(open, during));
  }

  lemma SinceBoundsGrants(open: State, shut: State)
    requires Inv(shut) && Since(open, shut)
    ensures shut.grants - open.grants <= shut.maxTokens * (1 + (shut.refills - open.refills))
    ensures shut.refills - open.refills <= (shut.clock - open.clock) / shut.interval + 2
    ensures shut.grants - open.grants <= shut.maxTokens * ((shut.clock - open.clock) / shut.interval + 3)
  {
    var (r, q) := (shut.refills - open.refills, (shut.clock - open.clock) / shut.interval);
    DivMono(0, shut.clock - open.clock, shut.interval);
    if 2 <= r {
      DivAtLeast(shut.clock - open.clock, r - 2, shut.interval);
    }
    MulMono(1 + r, q + 3, shut.maxTokens);
  }

  // ---------------------------------------------------------------- plain conservation

  /** The rate a reader expects of the bucket: the burst plus one token per whole interval. */
  ghost predicate ConservesTokens(maxRps: nat, t0: nat, tasks: nat)
    requires 0 < maxRps <= NANOS_PER_SEC
  {
    forall es :: IsRun(Initial(maxRps, t0), es) && |Run(Initial(maxRps, t0), es).pcs| <= tasks ==>
      var s := Run(Initial(maxRps, t0), es);
      t0 <= s.clock && s.grants <= maxRps + (s.clock - t0) / (NANOS_PER_SEC / maxRps)
  }

  ghost predicate Quiet(s: State) {
    0 < s.interval && s.holder.Free? && s.gap == 0 && s.clock == s.lastRefill
  }

  /** Task `t` goes as far as having loaded `tokens` for its decrement. */
  lemma PrepareTake(s: State, t: nat) returns (es: seq<Event>)
    requires Quiet(s) && t < |s.pcs| && s.pcs[t].Start? && 0 < s.tokens
    ensures IsRun(s, es) && Run(s, es) == s.(pcs := s.pcs[t := Trying(s.tokens)])
    ensures forall k :: 0 <= k < |es| ==> ByTask(es[k], t)
  {
    es := [];
    Extend(s, es, Lock(t));
    es := es + [Lock(t)];
    Extend(s, es, ReadClock(t));
    es := es + [ReadClock(t)];
    Extend(s, es, Unlock(t));
    es := es + [Unlock(t)];
    assert Run(s, es) == s.(pcs := s.pcs[t := Refilled]);
    Extend(s, es, LoadForTake(t));
    es := es + [LoadForTake(t)];
  }

  lemma {:induction false} TakeSeveral(s: State, t: nat, n: nat) returns (es: seq<Event>)
    requires Quiet(s) && t < |s.pcs| && s.pcs[t].Start? && n <= s.tokens
    ensures IsRun(s, es) && Run(s, es) == s.(tokens := s.tokens - n, grants := s.grants + n)
    decreases n
  {
    es := [];
    if n > 0 {
      es := PrepareTake(s, t);
      Extend(s, es, CompareExchange(t));
      es := es + [CompareExchange(t)];
      Extend(s, es, CallAgain(t));
      es := es + [CallAgain(t)];
      var s' := Run(s, es);
      assert s'.pcs == s.pcs;
      assert s' == s.(tokens := s.tokens - 1, grants := s.grants + 1);
      var rest := TakeSeveral(s', t, n - 1);
      Concat(s, es, rest);
      es := es + rest;
    }
  }

  /** One interval after the last refill, task `t` goes as far as having loaded `tokens` for the next. */
  lemma PrepareStore(s: State, t: nat) returns (es: seq<Event>)
    requires 0 < s.interval && s.holder.Free? && s.gap == 0 && s.clock == s.lastRefill + s.interval
    requires t < |s.pcs| && s.pcs[t].Start?
    ensures IsRun(s, es)
    ensures Run(s, es) == s.(holder := HeldBy(t), pcs := s.pcs[t := Loaded(s.clock, 1, s.tokens)])
    ensures forall k :: 0 <= k < |es| ==> ByTask(es[k], t)
  {
    QuotientUnique(s.interval, s.interval, 1);
    es := [];
    Extend(s, es, Lock(t));
    es := es + [Lock(t)];
    Extend(s, es, ReadClock(t));
    es := es + [ReadClock(t)];
    assert Run(s, es) == s.(holder := HeldBy(t), pcs := s.pcs[t := Due(s.clock, 1)]);
    Extend(s, es, LoadForRefill(t));
    es := es + [LoadForRefill(t)];
  }

  /** A refill that loaded the last token stores two, although the token is gone by now, and goes on to take one. */
  lemma StoreOverDecrement(s: State, t: nat) returns (es: seq<Event>)
    requires 0 < s.interval && 2 <= s.maxTokens <= U32_MAX && t < |s.pcs|
    requires s.holder == HeldBy(t) && s.pcs[t] == Loaded(s.clock, 1, 1)
    ensures IsRun(s, es)
    ensures Run(s, es) == s.(tokens := 2, lastRefill := s.clock, holder := Free, pcs := s.pcs[t := Trying(2)],
                             refills := s.refills + 1, credited := s.credited + 1,
                             overwritten := s.overwritten + s.gap, gap := 0)
    ensures forall k :: 0 <= k < |es| ==> ByTask(es[k], t)
  {
    es := [];
    Extend(s, es, StoreRefill(t));
    es := es + [StoreRefill(t)];
    Extend(s, es, Unlock(t));
    es := es + [Unlock(t)];
    assert Run(s, es).pcs == s.pcs[t := Refilled];
    Extend(s, es, LoadForTake(t));
    es := es + [LoadForTake(t)];
  }

  /**
   With a token left, one task refills after one interval while the other takes that token between the refill's
   load and store: the store brings the taken token back.
   */
  lemma LoseOneDecrement(s: State) returns (es: seq<Event>)
    requires Quiet(s) && s.pcs == [Start, Start] && s.tokens == 1 && 2 <= s.maxTokens <= U32_MAX
    ensures IsRun(s, es)
    ensures var s' := Run(s, es);
            && Quiet(s') && s'.pcs == [Granted, Trying(2)] && s'.tokens == 2 && s'.grants == s.grants + 1
            && s'.clock == s.clock + s.interval
  {
    es := PrepareTake(s, 0);
    Extend(s, es, Tick(s.interval));
    es := es + [Tick(s.interval)];
    var more := PrepareStore(Run(s, es), 1);
    Concat(s, es, more);
    es := es + more;
    assert Run(s, es).pcs == [Trying(1), Loaded(s.clock + s.interval, 1, 1)];
    Extend(s, es, CompareExchange(0));
    es := es + [CompareExchange(0)];
    more := StoreOverDecrement(Run(s, es), 1);
    Concat(s, es, more);
    es := es + more;
  }

  /** Two tasks and any rate above one per second suffice to be granted more than the expected rate. */
  lemma TwoTasksExceedTheRate(maxRps: nat, t0: nat) returns (es: seq<Event>)
    requires 2 <= maxRps <= NANOS_PER_SEC
    ensures IsRun(Initial(maxRps, t0), es)
    ensures var s := Run(Initial(maxRps, t0), es);
            |s.pcs| == 2 && s.clock == t0 + NANOS_PER_SEC / maxRps && s.grants == maxRps + 2
  {
    DivAtLeast(NANOS_PER_SEC, 1, maxRps);
    var s := Initial(maxRps, t0);
    es := [];
    Extend(s, es, Spawn);
    Extend(s, [Spawn], Spawn);
    es := [Spawn] + [Spawn];
    var more := TakeSeveral(Run(s, es), 0, maxRps - 1);
    Concat(s, es, more);
    es := es + more;
    more := LoseOneDecrement(Run(s, es));
    Concat(s, es, more);
    es := es + more;
    Extend(s, es, CallAgain(0));
    es := es + [CallAgain(0)];
    more := TakeSeveral(Run(s, es), 0, 2);
    Concat(s, es, more);
    es := es + more;
  }

  /**
   The race between the decrement and the refill's store makes the expected rate fail, exactly when there are two
   tasks to race and the bucket holds more than one token.
   */
  lemma ConservesTokensExactlyWhen(maxRps: nat, t0: nat, tasks: nat)
    requires 0 < maxRps <= NANOS_PER_SEC
    ensures ConservesTokens(maxRps, t0, tasks) <==> maxRps == 1 || tasks <= 1
  {
    var s0, interval := Initial(maxRps, t0), NANOS_PER_SEC / maxRps;
    InitialInv(maxRps, t0);
    if maxRps == 1 || tasks <= 1 {
      forall es | IsRun(s0, es) && |Run(s0, es).pcs| <= tasks
        ensures t0 <= Run(s0, es).clock && Run(s0, es).grants <= maxRps + (Run(s0, es).clock - t0) / interval
      {
        GrantsOfEveryRun(maxRps, t0, es);
        RunInv(s0, es);
        if tasks <= 1 {
          OneTaskOverwritesNothing(s0, es);
        }
      }
    } else {
      var es := TwoTasksExceedTheRate(maxRps, t0);
      QuotientUnique(interval, interval, 1);
      assert !ConservesTokens(maxRps, t0, tasks);
    }
  }

  // ---------------------------------------------------------------- a bucketful per interval

  /** A new task gets past the refill and no further. */
  lemma SpawnPastRefill(s: State) returns (es: seq<Event>)
    requires Quiet(s)
    ensures IsRun(s, es) && Run(s, es) == s.(pcs := s.pcs + [Refilled])
  {
    var t := |s.pcs|;
    es := [];
    Extend(s, es, Spawn);
    es := es + [Spawn];
    Extend(s, es, Lock(t));
    es := es + [Lock(t)];
    Extend(s, es, ReadClock(t));
    es := es + [ReadClock(t)];
    assert Run(s, es) == s.(holder := HeldBy(t), pcs := s.pcs + [NotDue]);
    Extend(s, es, Unlock(t));
    es := es + [Unlock(t)];
  }

  /** The last `n` tasks have passed the refill. */
  predicate Poised(pcs: seq<Pc>, n: nat)
    requires n <= |pcs|
  {
    forall i :: |pcs| - n <= i < |pcs| ==> pcs[i] == Refilled
  }

  lemma {:induction false} SpawnSeveral(s: State, n: nat) returns (es: seq<Event>, pcs: seq<Pc>)
    requires Quiet(s)
    ensures IsRun(s, es) && Run(s, es) == s.(pcs := pcs)
    ensures |pcs| == |s.pcs| + n && pcs[..|s.pcs|] == s.pcs && Poised(pcs, n)
    decreases n
  {
    es, pcs := [], s.pcs;
    if 0 < n {
      hide Step, Enabled;
      es, pcs := SpawnSeveral(s, n - 1);
      var more := SpawnPastRefill(Run(s, es));
      Concat(s, es, more);
      es, pcs := es + more, pcs + [Refilled];
    }
  }

  /** While task 0's refill is between load and store, each of the poised tasks takes a token. */
  lemma {:induction false} DrainInGap(s: State, n: nat) returns (es: seq<Event>, pcs: seq<Pc>)
    requires 0 < s.interval && s.holder == HeldBy(0) && n < |s.pcs| && s.pcs[0].Loaded? && Poised(s.pcs, n) && n <= s.tokens
    ensures IsRun(s, es)
    ensures Run(s, es) == s.(tokens := s.tokens - n, grants := s.grants + n, gap := s.gap + n, pcs := pcs)
    ensures |pcs| == |s.pcs| && pcs[0] == s.pcs[0]
    decreases n
  {
    es, pcs := [], s.pcs;
    if 0 < n {
      var t := |s.pcs| - n;
      es := TakeInGap(s, t);
      hide Step, Enabled;
      var s' := Run(s, es);
      var more;
      more, pcs := DrainInGap(s', n - 1);
      Concat(s, es, more);
      es := es + more;
    }
  }

  lemma TakeInGap(s: State, t: nat) returns (es: seq<Event>)
    requires 0 < s.interval && s.holder == HeldBy(0) && 0 < t < |s.pcs| && s.pcs[0].Loaded? && s.pcs[t] == Refilled
    requires 0 < s.tokens
    ensures IsRun(s, es)
    ensures Run(s, es) == s.(tokens := s.tokens - 1, grants := s.grants + 1, gap := s.gap + 1, pcs := s.pcs[t := Granted])
  {
    es := [];
    Extend(s, es, LoadForTake(t));
    es := es + [LoadForTake(t)];
    Extend(s, es, CompareExchange(t));
    es := es + [CompareExchange(t)];
  }

  /** The refill brings the drained tokens back, and task 0 takes one and calls again. */
  lemma StoreAndTake(s: State) returns (es: seq<Event>)
    requires 0 < s.interval && 0 < s.maxTokens <= U32_MAX && 0 < |s.pcs|
    requires s.holder == HeldBy(0) && s.pcs[0] == Loaded(s.clock, 1, s.maxTokens - 1)
    ensures IsRun(s, es)
    ensures var s' := Run(s, es);
            && Quiet(s') && s'.tokens == s.maxTokens - 1 && s'.grants == s.grants + 1 && s'.clock == s.clock
            && 0 < |s'.pcs| && s'.pcs[0].Start?
  {
    es := [];
    Extend(s, es, StoreRefill(0));
    es := es + [StoreRefill(0)];
    Extend(s, es, Unlock(0));
    es := es + [Unlock(0)];
    assert Run(s, es).pcs == s.pcs[0 := Refilled] && Run(s, es).tokens == s.maxTokens;
    Extend(s, es, LoadForTake(0));
    es := es + [LoadForTake(0)];
    Extend(s, es, CompareExchange(0));
    es := es + [CompareExchange(0)];
    Extend(s, es, CallAgain(0));
    es := es + [CallAgain(0)];
  }

  /** Right after a refill, one token short of full, with task 0 at its start. */
  ghost predicate OneShort(s: State, grants: nat) {
    Quiet(s) && 0 < s.maxTokens <= U32_MAX && s.tokens == s.maxTokens - 1 && s.grants == grants
    && 0 < |s.pcs| && s.pcs[0].Start?
  }

  /** In one interval, a full bucket: all but one token in the gap of a single refill, and one more after it. */
  lemma FullBucketInOneInterval(s: State, grants: nat) returns (es: seq<Event>)
    requires OneShort(s, grants)
    ensures IsRun(s, es) && OneShort(Run(s, es), grants + s.maxTokens) && Run(s, es).clock == s.clock + s.interval
  {
    hide Step;
    var pcs;
    es, pcs := SpawnSeveral(s, s.maxTokens - 1);
    assert pcs[0] == s.pcs[0];
    TickOn(s, es, s.interval);
    es := es + [Tick(s.interval)];
    var s1 := Run(s, es);
    var more := PrepareStore(s1, 0);
    Concat(s, es, more);
    es := es + more;
    var s2 := Run(s, es);
    var rest, _ := DrainInGap(s2, s.maxTokens - 1);
    Concat(s, es, rest);
    es := es + rest;
    var last := StoreAndTake(Run(s, es));
    Concat(s, es, last);
    es := es + last;
  }

  lemma TickOn(s: State, es: seq<Event>, n: nat)
    requires 0 < s.interval && IsRun(s, es)
    ensures IsRun(s, es + [Tick(n)]) && Run(s, es + [Tick(n)]) == Run(s, es).(clock := Run(s, es).clock + n)
  {
    Extend(s, es, Tick(n));
  }

  lemma FirstTask(s: State)
    requires 0 < s.interval && s.pcs == []
    ensures IsRun(s, [Spawn]) && Run(s, [Spawn]) == s.(pcs := [Start])
  {
    Extend(s, [], Spawn);
    assert [] + [Spawn] == [Spawn];
  }

  lemma {:induction false} FullBuckets(s: State, grants: nat, q: nat) returns (es: seq<Event>)
    requires OneShort(s, grants)
    ensures IsRun(s, es) && OneShort(Run(s, es), grants + q * s.maxTokens) && Run(s, es).clock == s.clock + q * s.interval
    decreases q
  {
    hide Step, Enabled;
    es := [];
    if 0 < q {
      es := FullBucketInOneInterval(s, grants);
      var rest := FullBuckets(Run(s, es), grants + s.maxTokens, q - 1);
      Concat(s, es, rest);
      es := es + rest;
      assert q * s.maxTokens == s.maxTokens + (q - 1) * s.maxTokens;
      assert q * s.interval == s.interval + (q - 1) * s.interval;
    }
  }

  /**
   The bucketful per interval is real: for every rate and every number of intervals there is a run that is granted
   exactly that many tokens. Each refill loses all but one of the decrements it could lose.
   */
  lemma GrantBoundIsReached(maxRps: nat, t0: nat, q: nat) returns (es: seq<Event>)
    requires 0 < maxRps <= NANOS_PER_SEC
    ensures IsRun(Initial(maxRps, t0), es)
    ensures var s := Run(Initial(maxRps, t0), es);
            && s.clock == t0 + q * (NANOS_PER_SEC / maxRps)
            && s.grants == maxRps * (1 + (s.clock - t0) / (NANOS_PER_SEC / maxRps))
  {
    hide Step;
    DivAtLeast(NANOS_PER_SEC, 1, maxRps);
    var s := Initial(maxRps, t0);
    FirstTask(s);
    es := [Spawn];
    var more := TakeSeveral(Run(s, es), 0, 1);
    Concat(s, es, more);
    es := es + more;
    more := FullBuckets(Run(s, es), 1, q);
    Concat(s, es, more);
    es := es + more;
    more := TakeSeveral(Run(s, es), 0, maxRps - 1);
    Concat(s, es, more);
    es := es + more;
    var interval := NANOS_PER_SEC / maxRps;
    MulMono(0, q, interval);
    QuotientUnique(q * interval, interval, q);
    assert maxRps * (1 + q) == maxRps + q * maxRps;
  }
}
