/**
 The proactive token bucket. `Bucket` and its functions say what one iteration of `acquire` does; the class
 does it in place. Times are nanoseconds of one monotonic clock.
 */
module TokenBuckets {
  import opened Arithmetic

  const NANOS_PER_SEC: nat := 1_000_000_000
  const U32_MODULUS: nat := 0x1_0000_0000

  // ---------------------------------------------------------------- configuration

  datatype Limit = Unlimited | AtMost(n: nat)

  datatype RateLimitConfig = RateLimitConfig(maxRps: Limit, maxConcurrent: Limit)

  datatype ConfigCheck = Valid | ZeroRps | ZeroConcurrent

  function Validate(config: RateLimitConfig): ConfigCheck {
    if config.maxRps == AtMost(0) then ZeroRps
    else if config.maxConcurrent == AtMost(0) then ZeroConcurrent
    else Valid
  }

  // ---------------------------------------------------------------- one iteration

  datatype Bucket = Bucket(tokens: nat, maxTokens: nat, interval: nat, lastRefill: nat)

  ghost predicate WellFormed(b: Bucket) {
    0 < b.interval && b.tokens <= b.maxTokens <= U32_MAX
  }

  function NewBucket(maxRps: nat, now: nat): (b: Bucket)
    requires 0 < maxRps
    ensures maxRps <= NANOS_PER_SEC ==> 0 < b.interval
  {
    DivAtLeast(NANOS_PER_SEC, if maxRps <= NANOS_PER_SEC then 1 else 0, maxRps);
    Bucket(maxRps, maxRps, NANOS_PER_SEC / maxRps, now)
  }

  /** `Instant::duration_since` saturates at zero. */
  function Elapsed(now: nat, earlier: nat): nat {
    if now < earlier then 0 else now - earlier
  }

  /** The refill divides by the interval as soon as `elapsed >= interval`: with a zero interval, always. */
  predicate RefillDividesByZero(b: Bucket, now: nat) {
    Elapsed(now, b.lastRefill) >= b.interval && b.interval == 0
  }

  /** Whole intervals elapsed, cut to 32 bits by the `as u32` cast. */
  function NewTokens(interval: nat, elapsed: nat): nat
    requires 0 < interval
  {
    if elapsed >= interval then (elapsed / interval) % U32_MODULUS else 0
  }

  function SaturatingAdd(a: nat, b: nat): nat {
    Min(a + b, U32_MAX)
  }

  function Refill(b: Bucket, now: nat): Bucket
    requires 0 < b.interval
  {
    var added := NewTokens(b.interval, Elapsed(now, b.lastRefill));
    if added == 0 then b
    else b.(tokens := Min(SaturatingAdd(b.tokens, added), b.maxTokens), lastRefill := now)
  }

  /** One undisturbed iteration of `acquire`: refill, then take a token if there is one. */
  function Poll(b: Bucket, now: nat): (Bucket, bool)
    requires 0 < b.interval
  {
    var r := Refill(b, now);
    if r.tokens > 0 then (r.(tokens := r.tokens - 1), true) else (r, false)
  }

  // ---------------------------------------------------------------- many iterations

  /** The bucket after polls at the given times, whichever task made each of them. */
  function After(b: Bucket, times: seq<nat>): Bucket
    requires 0 < b.interval
    ensures After(b, times).interval == b.interval
    decreases |times|
  {
    if times == [] then b else After(Poll(b, times[0]).0, times[1..])
  }

  /** Polls between `from` and `to` that were granted a token. */
  function GrantsWithin(b: Bucket, times: seq<nat>, from: nat, to: nat): nat
    requires 0 < b.interval
    decreases |times|
  {
    if times == [] then 0
    else
      var (b', granted) := Poll(b, times[0]);
      (if granted && from <= times[0] <= to then 1 else 0) + GrantsWithin(b', times[1..], from, to)
  }

  ghost predicate NoneGranted(b: Bucket, times: seq<nat>)
    requires 0 < b.interval
    decreases |times|
  {
    times != [] ==> !Poll(b, times[0]).1 && NoneGranted(Poll(b, times[0]).0, times[1..])
  }

  /** Clock readings in the order in which the mutex was taken. */
  ghost predicate Chronological(start: nat, times: seq<nat>) {
    && (forall i :: 0 <= i < |times| ==> start <= times[i])
    && (forall i, j :: 0 <= i < j < |times| ==> times[i] <= times[j])
  }

  // ---------------------------------------------------------------- in place

  class TokenBucket {
    var tokens: nat
    const maxTokens: nat
    const refillInterval: nat
    var lastRefill: nat

    ghost function State(): Bucket
      reads this
    {
      Bucket(tokens, maxTokens, refillInterval, lastRefill)
    }

    constructor (maxRps: nat, now: nat)
      requires 0 < maxRps
      ensures State() == NewBucket(maxRps, now)
      ensures tokens == maxTokens == maxRps && refillInterval == 1_000_000_000 / maxRps && lastRefill == now
    {
      tokens := maxRps;
      maxTokens := maxRps;
      refillInterval := NANOS_PER_SEC / maxRps;
      lastRefill := now;
    }

    /** `panicked` stands for the division by zero at a zero interval; nothing has changed by then. */
    method TryRefill(now: nat) returns (panicked: bool)
      modifies this
      ensures panicked <==> RefillDividesByZero(old(State()), now)
      ensures panicked ==> State() == old(State())
      ensures !panicked && 0 < refillInterval ==> State() == Refill(old(State()), now)
      ensures 0 < refillInterval && old(tokens) <= maxTokens <= 0xFFFF_FFFF && old(lastRefill) <= now ==>
                var due := ((now - old(lastRefill)) / refillInterval) % 0x1_0000_0000;
                && tokens == (if old(tokens) + due < maxTokens then old(tokens) + due else maxTokens)
                && lastRefill == (if due == 0 then old(lastRefill) else now)
      ensures 0 < refillInterval && now < old(lastRefill) ==> State() == old(State())
    {
      if 0 < refillInterval && tokens <= maxTokens <= 0xFFFF_FFFF && lastRefill <= now {
        RefillIsExact(State(), now);
      }
      panicked := false;
      var elapsed := Elapsed(now, lastRefill);
      if elapsed >= refillInterval {
        if refillInterval == 0 {
          return true;
        }
        var newTokens := (elapsed / refillInterval) % U32_MODULUS;
        if newTokens > 0 {
          var current := tokens;
          tokens := Min(SaturatingAdd(current, newTokens), maxTokens);
          lastRefill := now;
        }
      }
    }

    /**
     `acquire` as one task runs it undisturbed, for as long as the clock readings last: each iteration reads
     the clock once, and a denied iteration sleeps before the next reading.
     */
    method Acquire(clock: seq<nat>) returns (granted: bool, polls: nat)
      requires 0 < refillInterval
      modifies this
      ensures polls <= |clock|
      ensures State() == After(old(State()), clock[..polls])
      ensures granted ==> 0 < polls && NoneGranted(old(State()), clock[..polls - 1])
                          && Poll(After(old(State()), clock[..polls - 1]), clock[polls - 1]).1
      ensures !granted ==> polls == |clock| && NoneGranted(old(State()), clock)
    {
      granted, polls := false, 0;
      while polls < |clock| && !granted
        invariant polls <= |clock|
        invariant State() == After(old(State()), clock[..polls])
        invariant !granted ==> NoneGranted(old(State()), clock[..polls])
        invariant granted ==> 0 < polls && NoneGranted(old(State()), clock[..polls - 1])
                              && Poll(After(old(State()), clock[..polls - 1]), clock[polls - 1]).1
        decreases |clock| - polls, !granted
      {
        ghost var before := State();
        var now := clock[polls];
        var panicked := TryRefill(now);
        assert !panicked;
        var current := tokens;
        if current > 0 {
          if tokens == current {
            tokens := current - 1;
            granted := true;
          }
        }
        assert (State(), granted) == Poll(before, now);
        assert clock[..polls + 1] == clock[..polls] + [now];
        AfterAppend(old(State()), clock[..polls], now);
        polls := polls + 1;
        assert clock[..polls - 1] == clock[..polls][..polls - 1];
      }
      assert !granted ==> clock[..polls] == clock;
    }
  }

  lemma {:induction false} AfterAppend(b: Bucket, times: seq<nat>, t: nat)
    requires 0 < b.interval
    ensures After(b, times + [t]) == Poll(After(b, times), t).0
    ensures NoneGranted(b, times + [t]) <==> NoneGranted(b, times) && !Poll(After(b, times), t).1
    decreases |times|
  {
    if times == [] {
      assert times + [t] == [t];
      assert [t][1..] == [];
    } else {
      assert (times + [t])[1..] == times[1..] + [t];
      AfterAppend(Poll(b, times[0]).0, times[1..], t);
    }
  }

  // ---------------------------------------------------------------- what a configuration allows

  /** A configuration is turned down for a zero, and told which; the rate is looked at first. */
  lemma TurnedDownExactlyWhen(config: RateLimitConfig)
    ensures Validate(config) == ZeroRps <==> config.maxRps == AtMost(0)
    ensures Validate(config) == ZeroConcurrent <==> config.maxRps != AtMost(0) && config.maxConcurrent == AtMost(0)
    ensures Validate(config) == Valid <==> config.maxRps != AtMost(0) && config.maxConcurrent != AtMost(0)
  {
  }

  /**
   `validate` lets through rates whose refill interval rounds down to zero, and with such a bucket every refill,
   hence every request, divides by zero. The exact limit is one request per nanosecond.
   */
  lemma ValidRateBreaksExactlyAboveOnePerNanosecond(config: RateLimitConfig, t0: nat, now: nat)
    requires config.maxRps.AtMost? && Validate(config) == Valid
    ensures RefillDividesByZero(NewBucket(config.maxRps.n, t0), now) <==> config.maxRps.n > NANOS_PER_SEC
  {
    var rps := config.maxRps.n;
    if rps <= NANOS_PER_SEC {
      DivAtLeast(NANOS_PER_SEC, 1, rps);
    } else {
      QuotientUnique(NANOS_PER_SEC, rps, 0);
    }
  }

  // ---------------------------------------------------------------- rate bounds

  /**
   What a refill does, in plain arithmetic: it adds the whole intervals elapsed, modulo 2^32, up to a full bucket, and
   moves the time of the last refill if there was one to add.
   */
  lemma RefillIsExact(b: Bucket, now: nat)
    requires 0 < b.interval && b.tokens <= b.maxTokens <= 0xFFFF_FFFF && b.lastRefill <= now
    ensures var due := ((now - b.lastRefill) / b.interval) % 0x1_0000_0000;
            Refill(b, now) == Bucket(if b.tokens + due < b.maxTokens then b.tokens + due else b.maxTokens,
                                     b.maxTokens, b.interval, if due == 0 then b.lastRefill else now)
  {
    if now - b.lastRefill < b.interval {
      QuotientUnique(now - b.lastRefill, b.interval, 0);
    }
  }

  /** A refill credits no more than the whole intervals it accounts for, and never overfills. */
  lemma RefillCredit(b: Bucket, now: nat)
    requires WellFormed(b)
    ensures WellFormed(Refill(b, now))
    ensures Refill(b, now).maxTokens == b.maxTokens && Refill(b, now).interval == b.interval
    ensures Refill(b, now).tokens <= b.tokens + NewTokens(b.interval, Elapsed(now, b.lastRefill))
    ensures NewTokens(b.interval, Elapsed(now, b.lastRefill)) <= Elapsed(now, b.lastRefill) / b.interval
  {
    var q := Elapsed(now, b.lastRefill) / b.interval;
    DivMono(0, Elapsed(now, b.lastRefill), b.interval);
    assert q % U32_MODULUS <= q;
  }

  /**
   From construction on: tokens left plus tokens granted never exceed the initial burst plus one token per whole
   interval. It holds for every start time `t0`, with no limit on how long the bucket stayed idle.
   */
  lemma {:induction false} GrantsSinceConstruction(b: Bucket, spent: nat, t0: nat, times: seq<nat>, to: nat)
    requires WellFormed(b) && t0 <= b.lastRefill <= to
    requires b.tokens + spent <= b.maxTokens + (b.lastRefill - t0) / b.interval
    requires Chronological(b.lastRefill, times) && forall i :: 0 <= i < |times| ==> times[i] <= to
    ensures spent + GrantsWithin(b, times, t0, to) <= b.maxTokens + (to - t0) / b.interval
    decreases |times|
  {
    if times == [] {
      DivMono(b.lastRefill - t0, to - t0, b.interval);
    } else {
      var (b', granted) := Poll(b, times[0]);
      RefillCredit(b, times[0]);
      DivSuperadditive(b.lastRefill - t0, times[0] - b.lastRefill, b.interval);
      var rest := times[1..];
      assert forall i :: 0 <= i < |rest| ==> rest[i] == times[i + 1];
      GrantsSinceConstruction(b', spent + if granted then 1 else 0, t0, rest, to);
    }
  }

  lemma RateBoundFromConstruction(maxRps: nat, t0: nat, times: seq<nat>, to: nat)
    requires 0 < maxRps <= NANOS_PER_SEC
    requires Chronological(t0, times) && t0 <= to && forall i :: 0 <= i < |times| ==> times[i] <= to
    ensures GrantsWithin(NewBucket(maxRps, t0), times, t0, to) <= maxRps + (to - t0) / (NANOS_PER_SEC / maxRps)
  {
    DivAtLeast(NANOS_PER_SEC, 1, maxRps);
    assert 0 / (NANOS_PER_SEC / maxRps) == 0;
    GrantsSinceConstruction(NewBucket(maxRps, t0), 0, t0, times, to);
  }

  /** Idle time after which the 32-bit quotient starts again at zero. */
  function Wrap(interval: nat): nat {
    U32_MODULUS * interval
  }

  /**
   The instant up to which the bucket has accounted for the time before `now`: the last refill, moved forward
   by the whole wraps of the quotient that the cast drops.
   */
  function Anchor(b: Bucket, now: nat): nat
    requires 0 < b.interval && b.lastRefill <= now
  {
    b.lastRefill + Wrap(b.interval) * ((now - b.lastRefill) / Wrap(b.interval))
  }

  lemma AnchorFacts(b: Bucket, now: nat)
    requires 0 < b.interval && b.lastRefill <= now
    ensures b.lastRefill <= Anchor(b, now) <= now
    ensures NewTokens(b.interval, now - b.lastRefill) == (now - Anchor(b, now)) / b.interval
  {
    var e := now - b.lastRefill;
    DivByProduct(e, U32_MODULUS, b.interval);
    assert e == Wrap(b.interval) * (e / Wrap(b.interval)) + e % Wrap(b.interval);
    MulMono(0, e / Wrap(b.interval), Wrap(b.interval));
    assert e % Wrap(b.interval) == now - Anchor(b, now);
    if e < b.interval {
      QuotientUnique(e, b.interval, 0);
    }
  }

  lemma AnchorAdvances(b: Bucket, now: nat, later: nat)
    requires 0 < b.interval && b.lastRefill <= now <= later
    ensures Anchor(b, now) <= Anchor(b, later)
  {
    DivMono(now - b.lastRefill, later - b.lastRefill, Wrap(b.interval));
    MulMono((now - b.lastRefill) / Wrap(b.interval), (later - b.lastRefill) / Wrap(b.interval), Wrap(b.interval));
  }

  /** After any poll at `now` less than one interval is left unaccounted for. */
  lemma PollSettles(b: Bucket, now: nat)
    requires WellFormed(b) && b.lastRefill <= now
    ensures var b' := Poll(b, now).0;
            WellFormed(b') && b'.interval == b.interval && b'.maxTokens == b.maxTokens
            && b.lastRefill <= b'.lastRefill <= now && now < Anchor(b', now) + b.interval
  {
    RefillCredit(b, now);
    var r := Refill(b, now);
    AnchorFacts(b, now);
    AnchorFacts(r, now);
    var rest := now - Anchor(r, now);
    assert rest == b.interval * (rest / b.interval) + rest % b.interval;
    assert NewTokens(r.interval, now - r.lastRefill) == 0;
  }

  /** A poll leaves the anchor alone, or, if it refills, moves it to the present. */
  lemma PollMovesAnchor(b: Bucket, now: nat)
    requires WellFormed(b) && b.lastRefill <= now
    ensures var b' := Poll(b, now).0;
            b'.lastRefill <= now && b'.interval == b.interval
            && Anchor(b', now) == if NewTokens(b.interval, now - b.lastRefill) == 0 then Anchor(b, now) else now
  {
    hide Wrap, NewTokens;
    if NewTokens(b.interval, now - b.lastRefill) > 0 {
      RefillCredit(b, now);
      AnchorFacts(Poll(b, now).0, now);
    }
  }

  /** Inside a window that opened with anchor `a0`, the same ledger as from construction, on anchors. */
  lemma {:induction false} GrantsFromAnchor(b: Bucket, spent: nat, a0: nat, now: nat, times: seq<nat>, from: nat, to: nat)
    requires WellFormed(b) && b.lastRefill <= now && a0 <= Anchor(b, now) && a0 <= to
    requires b.tokens + spent <= b.maxTokens + (Anchor(b, now) - a0) / b.interval
    requires Anchor(b, now) <= to
    requires Chronological(now, times)
    ensures spent + GrantsWithin(b, times, from, to) <= b.maxTokens + (to - a0) / b.interval
    decreases |times|
  {
    hide Anchor, NewTokens, Wrap, SaturatingAdd;
    DivMono(Anchor(b, now) - a0, to - a0, b.interval);
    if times != [] {
      var t, rest := times[0], times[1..];
      assert forall i :: 0 <= i < |rest| ==> rest[i] == times[i + 1];
      if to < t {
        NothingAfterWindow(b, times, from, to);
      } else {
        var (b', granted) := Poll(b, t);
        RefillCredit(b, t);
        AnchorFacts(b, t);
        AnchorAdvances(b, now, t);
        PollSettles(b, t);
        PollMovesAnchor(b, t);
        var earned := NewTokens(b.interval, t - b.lastRefill);
        if earned == 0 {
          DivMono(Anchor(b, now) - a0, Anchor(b', t) - a0, b.interval);
        } else {
          DivSuperadditive(Anchor(b, t) - a0, t - Anchor(b, t), b.interval);
          DivMono(Anchor(b, now) - a0, Anchor(b, t) - a0, b.interval);
        }
        GrantsFromAnchor(b', spent + if granted && from <= t then 1 else 0, a0, t, rest, from, to);
      }
    }
  }

  lemma {:induction false} NothingAfterWindow(b: Bucket, times: seq<nat>, from: nat, to: nat)
    requires 0 < b.interval && forall i :: 0 <= i < |times| ==> to < times[i]
    ensures GrantsWithin(b, times, from, to) == 0
    decreases |times|
  {
    if times != [] {
      NothingAfterWindow(Poll(b, times[0]).0, times[1..], from, to);
    }
  }

  /**
   The rate bound over every window: however long the bucket ran or idled before, between `from` and `to` it
   grants at most a full burst, one token per whole interval, and one more. The 32-bit cast of the quotient does
   not endanger it, for any idle time.
   */
  lemma {:induction false} RateBoundOverEveryWindow(b: Bucket, times: seq<nat>, from: nat, to: nat)
    requires WellFormed(b) && Chronological(b.lastRefill, times) && from <= to
    ensures GrantsWithin(b, times, from, to) <= b.maxTokens + (to - from) / b.interval + 1
    decreases |times|
  {
    DivMono(0, to - from, b.interval);
    if times != [] {
      var t, rest := times[0], times[1..];
      assert forall i :: 0 <= i < |rest| ==> rest[i] == times[i + 1];
      var (b', granted) := Poll(b, t);
      PollSettles(b, t);
      if t < from {
        RateBoundOverEveryWindow(b', rest, from, to);
      } else if to < t {
        NothingAfterWindow(b, times, from, to);
      } else {
        AnchorFacts(b', t);
        var a0 := Anchor(b', t);
        assert (a0 - a0) / b.interval == 0;
        GrantsFromAnchor(b', if granted then 1 else 0, a0, t, rest, from, to);
        DivMono(to - a0, to - from + b.interval, b.interval);
        DivAddMultiple(to - from, 1, b.interval);
      }
    }
  }

  /** Polls at one instant. */
  function Burst(t: nat, n: nat): seq<nat> {
    if n == 0 then [] else [t] + Burst(t, n - 1)
  }

  /** Before a refill is due, polls take the tokens that are there, one each. */
  lemma {:induction false} BurstDrains(b: Bucket, t: nat, n: nat, more: seq<nat>, from: nat, to: nat)
    requires 0 < b.interval && Elapsed(t, b.lastRefill) < b.interval && n <= b.tokens && from <= t <= to
    ensures After(b, Burst(t, n) + more) == After(b.(tokens := b.tokens - n), more)
    ensures GrantsWithin(b, Burst(t, n) + more, from, to)
         == n + GrantsWithin(b.(tokens := b.tokens - n), more, from, to)
    decreases n
  {
    if n == 0 {
      assert Burst(t, 0) + more == more;
    } else {
      assert Burst(t, n) + more == [t] + (Burst(t, n - 1) + more);
      assert ([t] + (Burst(t, n - 1) + more))[1..] == Burst(t, n - 1) + more;
      BurstDrains(b.(tokens := b.tokens - 1), t, n - 1, more, from, to);
    }
  }

  lemma {:induction false} BurstIsChronological(t: nat, n: nat, later: nat)
    requires t <= later
    ensures Chronological(t, Burst(t, n) + [later])
    ensures |Burst(t, n)| == n
  {
    if 0 < n {
      BurstIsChronological(t, n - 1, later);
      var (all, rest) := (Burst(t, n) + [later], Burst(t, n - 1) + [later]);
      assert forall i :: 1 <= i < |all| ==> all[i] == rest[i - 1];
    }
  }

  lemma OnePoll(b: Bucket, t: nat, from: nat, to: nat)
    requires 0 < b.interval && from <= t <= to
    ensures After(b, [t]) == Poll(b, t).0 && GrantsWithin(b, [t], from, to) == if Poll(b, t).1 then 1 else 0
  {
    assert [t][1..] == [];
  }

  /**
   The extra token is real, on every bucket with an interval of two nanoseconds or more: use the whole burst just
   before the first refill is due, and one token when it is.
   */
  lemma WindowBoundIsReached(maxRps: nat, t0: nat)
    requires 0 < maxRps && 2 * maxRps <= NANOS_PER_SEC
    ensures var (b, due) := (NewBucket(maxRps, t0), t0 + NANOS_PER_SEC / maxRps);
            var times := Burst(due - 1, maxRps) + [due];
            && t0 <= due - 1 && Chronological(t0, times)
            && GrantsWithin(b, times, due - 1, due) == b.maxTokens + (due - (due - 1)) / b.interval + 1
  {
    DivAtLeast(NANOS_PER_SEC, 2, maxRps);
    var (b, due) := (NewBucket(maxRps, t0), t0 + NANOS_PER_SEC / maxRps);
    BurstIsChronological(due - 1, maxRps, due);
    BurstDrains(b, due - 1, maxRps, [due], due - 1, due);
    OnePoll(b.(tokens := 0), due, due - 1, due);
    QuotientUnique(b.interval, b.interval, 1);
    QuotientUnique(1, b.interval, 0);
  }

  /** A reading before the last refill, which another task may have made since, refills nothing. */
  lemma StaleReadingRefillsNothing(b: Bucket, now: nat)
    requires 0 < b.interval && now < b.lastRefill
    ensures Refill(b, now) == b && Poll(b, now).1 == (0 < b.tokens)
  {
  }

  lemma NoWrap(q: nat)
    requires q < 0x1_0000_0000
    ensures q % 0x1_0000_0000 == q
  {
  }

  /** Below 2^32 intervals the cast loses nothing. */
  lemma RefillBelowWrap(b: Bucket, now: nat, k: nat)
    requires WellFormed(b) && b.lastRefill <= now && k == (now - b.lastRefill) / b.interval && k < 0x1_0000_0000
    ensures Refill(b, now) == Bucket(if b.tokens + k < b.maxTokens then b.tokens + k else b.maxTokens,
                                     b.maxTokens, b.interval, if k == 0 then b.lastRefill else now)
  {
    hide Refill;
    RefillIsExact(b, now);
    NoWrap(k);
  }

  /** Polling at the time of a refill is polling the refilled bucket. */
  lemma RefillSettles(b: Bucket, now: nat, k: nat)
    requires WellFormed(b) && b.lastRefill <= now && k == (now - b.lastRefill) / b.interval && k < 0x1_0000_0000
    ensures var r := Refill(b, now); 0 < r.interval && Poll(b, now) == Poll(r, now) && Elapsed(now, r.lastRefill) < r.interval
  {
    RefillBelowWrap(b, now, k);
    var rest := (now - b.lastRefill) % b.interval;
    assert now - b.lastRefill == b.interval * k + rest;
    SettledBucketKeeps(Refill(b, now), now);
  }

  lemma SettledBucketKeeps(b: Bucket, now: nat)
    requires 0 < b.interval && Elapsed(now, b.lastRefill) < b.interval
    ensures Refill(b, now) == b
  {
  }

  /**
   The service theorem: however the bucket was left, after `k` whole idle intervals it serves at one instant exactly
   `min(max_tokens, tokens + k)` requests, and denies the next. So no credited time is lost short of a full bucket.
   */
  lemma IdleBucketServes(b: Bucket, now: nat, n: nat)
    requires WellFormed(b) && b.lastRefill <= now && (now - b.lastRefill) / b.interval < 0x1_0000_0000
    requires var k := (now - b.lastRefill) / b.interval;
             n == if b.tokens + k < b.maxTokens then b.tokens + k else b.maxTokens
    ensures GrantsWithin(b, Burst(now, n), now, now) == n
    ensures !Poll(After(b, Burst(now, n)), now).1
  {
    hide Refill, Poll, Burst, After, GrantsWithin;
    var k := (now - b.lastRefill) / b.interval;
    RefillBelowWrap(b, now, k);
    RefillSettles(b, now, k);
    ServesLikeRefilled(b, Refill(b, now), now);
  }

  /** A bucket with nothing due serves what it holds; and so does one that polls like it. */
  lemma ServesLikeRefilled(b: Bucket, r: Bucket, now: nat)
    requires 0 < b.interval && 0 < r.interval && Poll(b, now) == Poll(r, now) && Elapsed(now, r.lastRefill) < r.interval
    ensures GrantsWithin(b, Burst(now, r.tokens), now, now) == r.tokens
    ensures !Poll(After(b, Burst(now, r.tokens)), now).1
  {
    hide Poll, Refill, Elapsed;
    var n := r.tokens;
    BurstDrains(r, now, n, [], now, now);
    assert Burst(now, n) + [] == Burst(now, n);
    EmptyDenies(r.(tokens := 0), now);
    if 0 < n {
      SamePolls(b, r, now, Burst(now, n - 1));
      assert Burst(now, n) == [now] + Burst(now, n - 1);
    } else {
      assert r == r.(tokens := 0);
    }
  }

  lemma SamePolls(b: Bucket, r: Bucket, t: nat, times: seq<nat>)
    requires 0 < b.interval && 0 < r.interval && Poll(b, t) == Poll(r, t)
    ensures After(b, [t] + times) == After(r, [t] + times)
    ensures GrantsWithin(b, [t] + times, t, t) == GrantsWithin(r, [t] + times, t, t)
  {
    assert ([t] + times)[1..] == times;
  }

  lemma EmptyDenies(b: Bucket, now: nat)
    requires 0 < b.interval && b.tokens == 0 && Elapsed(now, b.lastRefill) < b.interval
    ensures !Poll(b, now).1
  {
  }

  /**
   A lone waiter denied at `t` and polling again a whole interval later is served, unless the elapsed quotient
   is a multiple of 2^32: the cast then yields zero new tokens.
   */
  lemma LoneWaiterServedExactlyWhen(b: Bucket, t: nat, later: nat)
    requires WellFormed(b) && 0 < b.maxTokens && b.lastRefill <= t && !Poll(b, t).1 && t + b.interval <= later
    ensures var b' := Poll(b, t).0;
            Poll(b', later).1 <==> ((later - b'.lastRefill) / b.interval) % U32_MODULUS != 0
  {
    PollSettles(b, t);
    assert Poll(b, t).0 == Refill(b, t) && Poll(b, t).0.tokens == 0;
  }

  /** It happens to every bucket: drain it at once, wait 2^32 intervals, and poll again in vain. */
  lemma WaiterStarvesAfterWrap(maxRps: nat, t0: nat)
    requires 0 < maxRps <= NANOS_PER_SEC
    ensures var (b, interval) := (NewBucket(maxRps, t0), NANOS_PER_SEC / maxRps);
            var drained := After(b, Burst(t0, maxRps));
            && !Poll(drained, t0).1
            && !Poll(Poll(drained, t0).0, t0 + U32_MODULUS * interval).1
  {
    var b := NewBucket(maxRps, t0);
    DivAtLeast(NANOS_PER_SEC, 1, maxRps);
    BurstDrains(b, t0, maxRps, [], t0, t0);
    assert Burst(t0, maxRps) + [] == Burst(t0, maxRps);
    MulMono(1, U32_MODULUS, b.interval);
    QuotientUnique(U32_MODULUS * b.interval, b.interval, U32_MODULUS);
  }

  /** So he is served whenever he polls again within 2^32 - 1 intervals. */
  lemma LoneWaiterServedInTime(b: Bucket, t: nat, later: nat)
    requires WellFormed(b) && 0 < b.maxTokens && b.lastRefill <= t && !Poll(b, t).1
    requires t + b.interval <= later < t + (U32_MODULUS - 1) * b.interval
    ensures Poll(Poll(b, t).0, later).1
  {
    PollSettles(b, t);
    var b' := Poll(b, t).0;
    assert b' == Refill(b, t) && b'.tokens == 0;
    AnchorFacts(b', later);
    SameAnchorWithinWrap(b', t, later);
    DivAtLeast(later - Anchor(b', later), 1, b.interval);
  }

  lemma SameAnchorWithinWrap(b: Bucket, t: nat, later: nat)
    requires 0 < b.interval && b.lastRefill <= t < Anchor(b, t) + b.interval
    requires t <= later < t + (U32_MODULUS - 1) * b.interval
    ensures Anchor(b, later) == Anchor(b, t) <= t
  {
    AnchorFacts(b, t);
    var (w, k) := (Wrap(b.interval), (t - b.lastRefill) / Wrap(b.interval));
    assert w == (U32_MODULUS - 1) * b.interval + b.interval;
    QuotientUnique(later - b.lastRefill, w, k);
  }
}
