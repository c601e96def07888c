/** Exponential backoff and the HTTP retry loop. */
module Retry {
  import opened Arithmetic
  import opened Errors

  const MAX_DELAY_MS: nat := 30_000

  datatype RetryConfig = RetryConfig(maxRetries: nat, baseDelayMs: nat, backoffFactor: nat)

  // ---------------------------------------------------------------- backoff delay

  function SaturatingMul(a: nat, b: nat): nat {
    Min(a * b, U64_MAX)
  }

  function SaturatingPow(base: nat, exp: nat): nat {
    if exp == 0 then 1 else SaturatingMul(base, SaturatingPow(base, exp - 1))
  }

  function DelayForAttempt(c: RetryConfig, attempt: nat): nat {
    Min(SaturatingMul(c.baseDelayMs, SaturatingPow(c.backoffFactor, attempt)), MAX_DELAY_MS)
  }

  function Pow(base: nat, exp: nat): nat {
    if exp == 0 then 1 else base * Pow(base, exp - 1)
  }

  lemma {:induction false} SaturatingPowIsCappedPow(base: nat, exp: nat)
    ensures SaturatingPow(base, exp) == Min(Pow(base, exp), U64_MAX)
  {
    if exp > 0 {
      SaturatingPowIsCappedPow(base, exp - 1);
      if Pow(base, exp - 1) > U64_MAX && base > 0 {
        MulMono(1, base, U64_MAX);
        MulMono(1, base, Pow(base, exp - 1));
      }
    }
  }

  /** Saturation is invisible: the delay is the product over unbounded integers, capped at 30 seconds. */
  lemma DelayIsExact(c: RetryConfig, attempt: nat)
    ensures DelayForAttempt(c, attempt) == Min(c.baseDelayMs * Pow(c.backoffFactor, attempt), 30_000)
  {
    SaturatingPowIsCappedPow(c.backoffFactor, attempt);
    var p := Pow(c.backoffFactor, attempt);
    if p > U64_MAX && c.baseDelayMs > 0 {
      MulMono(1, c.baseDelayMs, U64_MAX);
      MulMono(1, c.baseDelayMs, p);
    }
  }

  /** For a validated configuration a later retry never waits less, and every wait lies in (0, 30 s]. */
  lemma DelayNondecreasing(c: RetryConfig, early: nat, late: nat)
    requires c.baseDelayMs != 0 && c.backoffFactor != 0 && early <= late
    ensures 0 < DelayForAttempt(c, early) <= DelayForAttempt(c, late) <= 30_000
  {
    DelayIsExact(c, early);
    DelayIsExact(c, late);
    PowMono(c.backoffFactor, early, late);
    MulMono(Pow(c.backoffFactor, early), Pow(c.backoffFactor, late), c.baseDelayMs);
    MulMono(1, Pow(c.backoffFactor, early), c.baseDelayMs);
  }

  lemma {:induction false} PowMono(base: nat, early: nat, late: nat)
    requires 0 < base && early <= late
    ensures 0 < Pow(base, early) <= Pow(base, late)
    decreases late
  {
    if early < late {
      PowMono(base, early, late - 1);
      MulMono(1, base, Pow(base, late - 1));
    } else if 0 < early {
      PowMono(base, early - 1, late - 1);
      MulMono(1, base, Pow(base, late - 1));
    }
  }

  // ---------------------------------------------------------------- the retry loop

  const SHUTTING_DOWN: HlError := Rejected("client is shutting down")
  const SHUTDOWN_IN_BACKOFF: HlError := Rejected("client shutdown during retry backoff")

  /**
   What the network and the scheduler do to one call: the outcome of its k-th POST, whether the shutdown token
   wins the race against the sleep before retry k, and whether the client was shut down on entry.
   */
  datatype World<T> = World(outcome: nat -> Result<T>, interrupted: nat -> bool, shutDownOnEntry: bool)

  datatype Trace<T> = Trace(result: Result<T>, posts: nat, waits: seq<nat>)

  predicate Retries<T>(r: Result<T>) {
    r.Err? && IsRetryable(r.error)
  }

  /** The wait a retryable outcome asks for before retry `attempt`. */
  function WaitAfter<T>(c: RetryConfig, r: Result<T>, attempt: nat): nat
    requires r.Err? && 0 < attempt
  {
    if r.error.RateLimited? then r.error.retryAfterMs else DelayForAttempt(c, attempt - 1)
  }

  /**
   The reference definition, from POST number `attempt` on: a final outcome is returned; a retryable one, unless
   it used up the last retry, is waited out and followed by the next POST.
   */
  function RunFrom<T>(c: RetryConfig, w: World<T>, attempt: nat): (t: Trace<T>)
    requires attempt <= c.maxRetries
    ensures attempt < t.posts <= c.maxRetries + 1
    decreases c.maxRetries - attempt
  {
    var r := w.outcome(attempt);
    if !Retries(r) || attempt == c.maxRetries then Trace(r, attempt + 1, [])
    else
      var wait := WaitAfter(c, r, attempt + 1);
      if w.interrupted(attempt + 1) then Trace(Err(SHUTDOWN_IN_BACKOFF), attempt + 1, [wait])
      else
        var rest := RunFrom(c, w, attempt + 1);
        rest.(waits := [wait] + rest.waits)
  }

  function Call<T>(c: RetryConfig, w: World<T>): Trace<T> {
    if w.shutDownOnEntry then Trace(Err(SHUTTING_DOWN), 0, []) else RunFrom(c, w, 0)
  }

  /** The loop as written, with the errors it remembers; `waits` records the sleeps it starts. */
  method PostWithRetry<T>(c: RetryConfig, w: World<T>) returns (result: Result<T>, posts: nat, waits: seq<nat>)
    ensures Trace(result, posts, waits) == Call(c, w)
    ensures forall k :: 0 <= k < |waits| ==> AskedToWait(c, w, k, waits[k])
  {
    WaitsOfCall(c, w);
    posts, waits := 0, [];
    if w.shutDownOnEntry {
      return Err(SHUTTING_DOWN), posts, waits;
    }
    var lastError: Result<T> := Err(Http);
    var attempt := 0;
    while attempt <= c.maxRetries
      invariant attempt <= c.maxRetries
      invariant posts == attempt
      invariant 0 < attempt ==> lastError == w.outcome(attempt - 1) && Retries(lastError)
      invariant var pending := if attempt == 0 then [] else [WaitAfter(c, lastError, attempt)];
                var spec := RunFrom(c, w, 0);
                if attempt > 0 && w.interrupted(attempt) then
                  spec == Trace(Err(SHUTDOWN_IN_BACKOFF), posts, waits + pending)
                else
                  var rest := RunFrom(c, w, attempt);
                  spec == Trace(rest.result, rest.posts, waits + pending + rest.waits)
      decreases c.maxRetries - attempt
    {
      if attempt > 0 {
        var delay := if lastError.error.RateLimited? then lastError.error.retryAfterMs
                     else DelayForAttempt(c, attempt - 1);
        waits := waits + [delay];
        if w.interrupted(attempt) {
          return Err(SHUTDOWN_IN_BACKOFF), posts, waits;
        }
      }
      var outcome := w.outcome(attempt);
      posts := posts + 1;
      if outcome.Ok? {
        assert waits + [] == waits;
        return outcome, posts, waits;
      } else if IsRetryable(outcome.error) && attempt < c.maxRetries {
        ghost var next := [WaitAfter(c, outcome, attempt + 1)];
        assert forall rest: seq<nat> :: waits + (next + rest) == waits + next + rest;
        lastError := outcome;
        attempt := attempt + 1;
      } else {
        assert waits + [] == waits;
        return outcome, posts, waits;
      }
    }
    // The loop never runs out of attempts without returning.
    assert false;
    result := lastError;
  }

  // ---------------------------------------------------------------- what the loop guarantees

  /**
   POST number `k` ended in a retryable error that asks for this wait: a 429 names it, any other error waits
   `base * factor^k` milliseconds, 30 seconds at most.
   */
  predicate AskedToWait<T>(c: RetryConfig, w: World<T>, k: nat, wait: nat) {
    Retries(w.outcome(k))
    && wait == if w.outcome(k).error.RateLimited? then w.outcome(k).error.retryAfterMs
               else Min(c.baseDelayMs * Pow(c.backoffFactor, k), 30_000)
  }

  lemma WaitIsAsked<T>(c: RetryConfig, w: World<T>, k: nat)
    requires Retries(w.outcome(k))
    ensures AskedToWait(c, w, k, WaitAfter(c, w.outcome(k), k + 1))
  {
    DelayIsExact(c, k);
  }

  /** Every wait is the one its retryable outcome asked for. */
  lemma {:induction false} WaitsAsAsked<T>(c: RetryConfig, w: World<T>, attempt: nat, k: nat)
    requires attempt <= c.maxRetries && k < |RunFrom(c, w, attempt).waits|
    ensures AskedToWait(c, w, attempt + k, RunFrom(c, w, attempt).waits[k])
    decreases k
  {
    hide AskedToWait;
    WaitIsAsked(c, w, attempt);
    if 0 < k {
      WaitsAsAsked(c, w, attempt + 1, k - 1);
      assert attempt + 1 + (k - 1) == attempt + k;
    }
  }

  lemma WaitsOfCall<T>(c: RetryConfig, w: World<T>)
    ensures forall k :: 0 <= k < |Call(c, w).waits| ==> AskedToWait(c, w, k, Call(c, w).waits[k])
  {
    hide AskedToWait;
    forall k | 0 <= k < |Call(c, w).waits|
      ensures AskedToWait(c, w, k, Call(c, w).waits[k])
    {
      WaitsAsAsked(c, w, 0, k);
    }
  }

  /** Which errors are tried again at all. */
  lemma RetriedKinds<T>(r: Result<T>)
    ensures Retries(r) <==>
              r.Err? && (r.error.Http? || r.error.Timeout? || r.error.WebSocket? || r.error.RateLimited?
                         || (r.error.Api? && 500 <= r.error.status))
  {
  }

  /** A call that a shutdown ends, at its entry or in a backoff, is rejected, and says which it was. */
  lemma ShutdownIsARejection<T>(c: RetryConfig, w: World<T>)
    ensures w.shutDownOnEntry ==> Call(c, w) == Trace(Err(Rejected("client is shutting down")), 0, [])
    ensures !w.shutDownOnEntry && 0 < c.maxRetries && Retries(w.outcome(0)) && w.interrupted(1) ==>
              && Call(c, w).posts == 1
              && Call(c, w).result == Err(Rejected("client shutdown during retry backoff"))
    ensures w.shutDownOnEntry || (!w.shutDownOnEntry && 0 < c.maxRetries && Retries(w.outcome(0)) && w.interrupted(1)) ==>
              !Retries(Call(c, w).result)
  {
  }

  /** With the default configuration, a call that fails to connect every time waits 500, 1000 and 2000 milliseconds. */
  lemma DefaultWaits<T>(w: World<T>)
    requires !w.shutDownOnEntry && forall k :: 0 <= k < 4 ==> w.outcome(k) == Err(Http) && !w.interrupted(k)
    ensures Call(RetryConfig(3, 500, 2), w) == Trace(Err(Http), 4, [500, 1000, 2000])
  {
    var c := RetryConfig(3, 500, 2);
    assert Pow(2, 0) == 1 && Pow(2, 1) == 2 && Pow(2, 2) == 4;
    DelayIsExact(c, 0);
    DelayIsExact(c, 1);
    DelayIsExact(c, 2);
    hide DelayForAttempt;
    assert RunFrom(c, w, 3) == Trace(Err(Http), 4, []);
    assert RunFrom(c, w, 2) == Trace(Err(Http), 4, [2000] + []);
    assert RunFrom(c, w, 1) == Trace(Err(Http), 4, [1000] + [2000]);
    assert RunFrom(c, w, 0) == Trace(Err(Http), 4, [500] + [1000, 2000]);
  }

  /** POST number `last` asks for a retry that is still allowed: only a shutdown can make it the last one. */
  predicate CutShort<T>(c: RetryConfig, w: World<T>, last: nat) {
    Retries(w.outcome(last)) && last < c.maxRetries
  }

  /** POST number `k` asked for a retry and its backoff was not interrupted. */
  predicate Passed<T>(w: World<T>, k: nat) {
    Retries(w.outcome(k)) && !w.interrupted(k + 1)
  }

  /** How a run of the loop ended: with its last POST, or by a shutdown in the backoff after it. */
  ghost predicate EndsAsDecided<T>(c: RetryConfig, w: World<T>, t: Trace<T>)
    requires 0 < t.posts
  {
    if CutShort(c, w, t.posts - 1) then w.interrupted(t.posts) && t.result == Err(SHUTDOWN_IN_BACKOFF)
    else t.result == w.outcome(t.posts - 1)
  }

  lemma {:induction false} StopsAtFirstFinal<T>(c: RetryConfig, w: World<T>, attempt: nat)
    requires attempt <= c.maxRetries
    ensures var t := RunFrom(c, w, attempt);
            && EndsAsDecided(c, w, t)
            && (forall k :: attempt <= k < t.posts - 1 ==> Passed(w, k))
            && |t.waits| == t.posts - attempt - if CutShort(c, w, t.posts - 1) then 0 else 1
    decreases c.maxRetries - attempt
  {
    var t := RunFrom(c, w, attempt);
    if !CutShort(c, w, attempt) {
      assert t == Trace(w.outcome(attempt), attempt + 1, []);
    } else if w.interrupted(attempt + 1) {
      assert t == Trace(Err(SHUTDOWN_IN_BACKOFF), attempt + 1, [WaitAfter(c, w.outcome(attempt), attempt + 1)]);
    } else {
      StopsAtFirstFinal(c, w, attempt + 1);
      var rest := RunFrom(c, w, attempt + 1);
      assert t.posts == rest.posts && t.result == rest.result && |t.waits| == 1 + |rest.waits|;
      forall k | attempt <= k < t.posts - 1
        ensures Passed(w, k)
      {
        assert k == attempt || Passed(w, k);
      }
    }
  }

  /**
   The caller's view of the loop, for every network and scheduler behaviour. Exactly the POSTs before the last
   one ended in a retryable error, none was interrupted, and each was waited out as its error asked. The last POST
   decided: it is the answer, unless the client was shut down in the backoff after it.
   */
  lemma RetryLoopContract<T>(c: RetryConfig, w: World<T>, attempt: nat)
    requires attempt <= c.maxRetries
    ensures var t := RunFrom(c, w, attempt);
            && attempt < t.posts <= c.maxRetries + 1 && EndsAsDecided(c, w, t)
            && (forall k :: attempt <= k < t.posts - 1 ==> Passed(w, k))
            && |t.waits| == t.posts - attempt - (if CutShort(c, w, t.posts - 1) then 0 else 1)
            && (forall k :: 0 <= k < |t.waits| ==> AskedToWait(c, w, attempt + k, t.waits[k]))
  {
    StopsAtFirstFinal(c, w, attempt);
    forall k | 0 <= k < |RunFrom(c, w, attempt).waits|
      ensures AskedToWait(c, w, attempt + k, RunFrom(c, w, attempt).waits[k])
    {
      WaitsAsAsked(c, w, attempt, k);
    }
  }

  /** The loop's outcome is determined: any POST count that meets the contract is the one it makes. */
  lemma StoppingPointIsUnique<T>(c: RetryConfig, w: World<T>, last: nat)
    requires last <= c.maxRetries && !w.shutDownOnEntry
    requires forall k :: 0 <= k < last ==> Passed(w, k)
    requires CutShort(c, w, last) ==> w.interrupted(last + 1)
    ensures Call(c, w).posts == last + 1
  {
    RetryLoopContract(c, w, 0);
    var stop: nat := Call(c, w).posts - 1;
    assert stop < last ==> Passed(w, stop);
    assert last < stop ==> Passed(w, last);
  }

  function Sum(xs: seq<nat>): nat {
    if xs == [] then 0 else xs[0] + Sum(xs[1..])
  }

  /** Without 429 answers, a call spends at most 30 seconds per retry asleep. */
  lemma {:induction false} BackoffBudget<T>(c: RetryConfig, w: World<T>, attempt: nat)
    requires attempt <= c.maxRetries
    requires forall k :: attempt <= k <= c.maxRetries ==> !(w.outcome(k).Err? && w.outcome(k).error.RateLimited?)
    ensures Sum(RunFrom(c, w, attempt).waits) <= 30_000 * (c.maxRetries - attempt)
    decreases c.maxRetries - attempt
  {
    if Retries(w.outcome(attempt)) && attempt < c.maxRetries {
      var wait := WaitAfter(c, w.outcome(attempt), attempt + 1);
      assert wait <= MAX_DELAY_MS;
      if w.interrupted(attempt + 1) {
        assert RunFrom(c, w, attempt).waits == [wait] && [wait][1..] == [];
      } else {
        BackoffBudget(c, w, attempt + 1);
        assert ([wait] + RunFrom(c, w, attempt + 1).waits)[1..] == RunFrom(c, w, attempt + 1).waits;
      }
    }
  }
}
