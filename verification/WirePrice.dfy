/**
 Prices and sizes as the exchange accepts them. A decimal is the integer count of its 10^-28 units: 28 is the largest
 scale a `Decimal` can have, so every value has one such count. `Representable` says which counts a `Decimal` can hold.
 */
module WirePrice {
  import opened Arithmetic

  const SCALE: nat := 28

  function Pow10(k: nat): (p: nat)
    ensures 0 < p
  {
    if k == 0 then 1 else 10 * Pow10(k - 1)
  }

  /** The mantissa of 1. */
  const ONE: nat := Pow10(SCALE)

  // ---------------------------------------------------------------- rounding

  /** Nearest multiple of `unit`, ties to the even one. */
  function HalfEven(m: int, unit: nat): int
    requires 0 < unit
  {
    var (q, r) := (m / unit, m % unit);
    if 2 * r < unit || (2 * r == unit && q % 2 == 0) then q * unit else (q + 1) * unit
  }

  function Digits(m: nat): (d: nat)
    ensures 0 < d
  {
    if m < 10 then 1 else 1 + Digits(m / 10)
  }

  function Magnitude(m: int): nat {
    if m < 0 then -m else m
  }

  /** The weight of the last of the five leading digits; 1 if there are no more than five. */
  function FigureUnit(m: int): nat
    ensures 0 < FigureUnit(m)
  {
    var d := Digits(Magnitude(m));
    if d <= 5 then 1 else Pow10(d - 5)
  }

  function RoundFigures(m: int): int {
    HalfEven(m, FigureUnit(m))
  }

  /** The weight of decimal place `dp`; below the 28th place there is nothing to round. */
  function DecimalUnit(dp: nat): nat
    ensures 0 < DecimalUnit(dp)
  {
    if dp >= SCALE then 1 else Pow10(SCALE - dp)
  }

  function RoundDecimals(m: int, dp: nat): int {
    HalfEven(m, DecimalUnit(dp))
  }

  function MaxDp(szDecimals: nat, maxDecimals: nat): nat {
    if maxDecimals < szDecimals then 0 else maxDecimals - szDecimals
  }

  predicate IsInteger(m: int) {
    m % ONE == 0
  }

  function RoundPrice(px: int, szDecimals: nat, maxDecimals: nat): int {
    var sf := if IsInteger(px) then px else RoundFigures(px);
    RoundDecimals(sf, MaxDp(szDecimals, maxDecimals))
  }

  function RoundPricePerp(px: int, szDecimals: nat): int {
    RoundPrice(px, szDecimals, 6)
  }

  /** Toward zero. */
  function RoundSize(sz: int, szDecimals: nat): int {
    var u := DecimalUnit(szDecimals);
    if sz < 0 then -((-sz) / u * u) else sz / u * u
  }

  // ---------------------------------------------------------------- powers and multiples

  lemma {:induction false} PowAdd(a: nat, b: nat)
    ensures Pow10(a + b) == Pow10(a) * Pow10(b)
  {
    if a > 0 {
      PowAdd(a - 1, b);
      assert Pow10(a + b) == 10 * (Pow10(a - 1) * Pow10(b));
    }
  }

  lemma PowMono(a: nat, b: nat)
    requires a <= b
    ensures Pow10(a) <= Pow10(b) && Pow10(b) % Pow10(a) == 0
    ensures a < b ==> 10 * Pow10(a) <= Pow10(b)
  {
    PowAdd(b - a, a);
    MulMono(1, Pow10(b - a), Pow10(a));
    MultipleByFactor(Pow10(b - a), Pow10(a));
    if a < b {
      MulMono(10, Pow10(b - a), Pow10(a));
    }
  }

  lemma MultipleByFactor(k: int, u: nat)
    requires 0 < u
    ensures (k * u) % u == 0 && (k * u) / u == k
  {
    QuotientUnique(k * u, u, k);
    assert k * u == u * ((k * u) / u) + (k * u) % u;
  }

  lemma MultipleOfMultiple(m: int, u: nat, v: nat)
    requires 0 < u && 0 < v && m % u == 0 && u % v == 0
    ensures m % v == 0
  {
    var (k, l) := (m / u, u / v);
    assert m == u * k && u == v * l;
    assert m == (k * l) * v by {
      assert (v * l) * k == (k * l) * v;
    }
    MultipleByFactor(k * l, v);
  }

  // ---------------------------------------------------------------- rounding to a unit

  lemma HalfEvenFacts(m: int, u: nat)
    requires 0 < u
    ensures HalfEven(m, u) % u == 0
    ensures m - u < HalfEven(m, u) < m + u && 2 * Magnitude(HalfEven(m, u) - m) <= u
  {
    var (q, r) := (m / u, m % u);
    assert m == q * u + r;
    MultipleByFactor(q, u);
    MultipleByFactor(q + 1, u);
    assert (q + 1) * u == q * u + u;
  }

  /** Multiples of the unit other than the two around `m` are at least a whole unit further away. */
  lemma MultipleIsAway(q: int, r: int, u: nat, k: int)
    requires 0 <= r < u
    ensures k == q || k == q + 1 || Magnitude(k * u - (q * u + r)) >= u
    ensures k == q ==> Magnitude(k * u - (q * u + r)) == r
    ensures k == q + 1 ==> Magnitude(k * u - (q * u + r)) == u - r
  {
    assert (q + 1) * u == q * u + u && (q - 1) * u == q * u - u && (q + 2) * u == q * u + 2 * u;
    if k < q {
      MulMono(k, q - 1, u);
    } else if q + 1 < k {
      MulMono(q + 2, k, u);
    }
  }

  /** No multiple of the unit is nearer; and if another is as near, the even one was taken. */
  lemma HalfEvenIsNearest(m: int, u: nat, k: int)
    requires 0 < u
    ensures Magnitude(HalfEven(m, u) - m) <= Magnitude(k * u - m)
    ensures (Magnitude(HalfEven(m, u) - m) == Magnitude(k * u - m) && HalfEven(m, u) != k * u)
            ==> (HalfEven(m, u) / u) % 2 == 0
  {
    var (q, r) := (m / u, m % u);
    assert m == q * u + r;
    MultipleByFactor(q, u);
    MultipleByFactor(q + 1, u);
    MultipleIsAway(q, r, u, q);
    MultipleIsAway(q, r, u, q + 1);
    MultipleIsAway(q, r, u, k);
  }

  lemma HalfEvenFixes(m: int, u: nat)
    requires 0 < u && m % u == 0
    ensures HalfEven(m, u) == m
  {
  }

  lemma HalfEvenMono(m: int, n: int, u: nat)
    requires 0 < u && m <= n
    ensures HalfEven(m, u) <= HalfEven(n, u)
  {
    var (a, b) := (m / u, n / u);
    DivMono(m, n, u);
    assert m == a * u + m % u && n == b * u + n % u;
    if a < b {
      MulMono(a + 1, b, u);
      MulMono(a, b, u);
    }
  }

  /** A multiple of the unit that bounds `m` still bounds it after rounding. */
  lemma HalfEvenWithin(m: int, u: nat, bound: int)
    requires 0 < u && bound % u == 0
    ensures m <= bound ==> HalfEven(m, u) <= bound
    ensures bound <= m ==> bound <= HalfEven(m, u)
  {
    HalfEvenFixes(bound, u);
    if m <= bound {
      HalfEvenMono(m, bound, u);
    }
    if bound <= m {
      HalfEvenMono(bound, m, u);
    }
  }

  // ---------------------------------------------------------------- digits

  lemma {:induction false} DigitsBound(m: nat)
    ensures m < Pow10(Digits(m))
    ensures 0 < m ==> Pow10(Digits(m) - 1) <= m
  {
    if m >= 10 {
      DigitsBound(m / 10);
    } else {
      assert Pow10(1) == 10 * Pow10(0);
    }
  }

  lemma DigitsUnique(m: nat, d: nat)
    requires 0 < d && Pow10(d - 1) <= m < Pow10(d)
    ensures Digits(m) == d
  {
    DigitsBound(m);
    if Digits(m) < d {
      PowMono(Digits(m), d - 1);
    } else if d < Digits(m) {
      PowMono(d, Digits(m) - 1);
    }
  }

  lemma DigitsMono(m: nat, n: nat)
    requires m <= n
    ensures Digits(m) <= Digits(n)
  {
    DigitsBound(m);
    DigitsBound(n);
    var below := Digits(m) - 1;
    PowMono(if Digits(n) < below then Digits(n) else below, below);
  }

  // ---------------------------------------------------------------- five significant figures

  /** At most five significant figures: a multiple of some power of ten with at most five digits above it. */
  ghost predicate FiveFigures(m: nat) {
    exists k: nat :: FiveFiguresAbove(m, k)
  }

  predicate FiveFiguresAbove(m: nat, k: nat) {
    m % Pow10(k) == 0 && m < Pow10(k + 5)
  }

  lemma RoundFiguresMeets(m: nat)
    ensures RoundFigures(m) >= 0 && FiveFigures(RoundFigures(m))
    ensures RoundFigures(m) <= Pow10(Digits(m))
    ensures 0 < m ==> Pow10(Digits(m) - 1) <= RoundFigures(m)
  {
    var (d, u) := (Digits(m), FigureUnit(m));
    var r := RoundFigures(m);
    DigitsBound(m);
    HalfEvenFacts(m, u);
    if d <= 5 {
      HalfEvenFixes(m, 1);
      PowMono(d, 5);
      assert FiveFiguresAbove(r, 0);
    } else {
      PowMono(d - 5, d);
      PowMono(d - 5, d - 1);
      HalfEvenWithin(m, u, Pow10(d));
      HalfEvenWithin(m, u, Pow10(d - 1));
      if r < Pow10(d) {
        assert FiveFiguresAbove(r, d - 5);
      } else {
        PowMono(d - 4, d);
        PowMono(d, d + 1);
        assert FiveFiguresAbove(r, d - 4);
      }
    }
  }

  lemma RoundFiguresFixes(m: nat)
    requires FiveFigures(m)
    ensures RoundFigures(m) == m
  {
    var k: nat :| FiveFiguresAbove(m, k);
    var d := Digits(m);
    DigitsBound(m);
    if d > 5 {
      if d - 5 > k {
        PowMono(k + 5, d - 1);
      }
      PowMono(d - 5, k);
      MultipleOfMultiple(m, Pow10(k), Pow10(d - 5));
    }
    HalfEvenFixes(m, FigureUnit(m));
  }

  lemma RoundFiguresMono(m: nat, n: nat)
    requires m <= n
    ensures RoundFigures(m) <= RoundFigures(n)
  {
    DigitsMono(m, n);
    if Digits(m) == Digits(n) {
      HalfEvenMono(m, n, FigureUnit(n));
    } else {
      RoundFiguresMeets(m);
      RoundFiguresMeets(n);
      PowMono(Digits(m), Digits(n) - 1);
    }
  }

  // ---------------------------------------------------------------- round_price

  /** The exchange's price rule: few enough decimals, and an integer or at most five significant figures. */
  ghost predicate WireRule(px: nat, szDecimals: nat, maxDecimals: nat) {
    px % DecimalUnit(MaxDp(szDecimals, maxDecimals)) == 0 && (IsInteger(px) || FiveFigures(px))
  }

  lemma DecimalUnitDividesOne(dp: nat)
    ensures ONE % DecimalUnit(dp) == 0
  {
    if dp < SCALE {
      PowMono(SCALE - dp, SCALE);
    }
  }

  lemma IntegerSurvivesDecimals(m: int, dp: nat)
    requires IsInteger(m)
    ensures m % DecimalUnit(dp) == 0 && RoundDecimals(m, dp) == m
  {
    DecimalUnitDividesOne(dp);
    MultipleOfMultiple(m, ONE, DecimalUnit(dp));
    HalfEvenFixes(m, DecimalUnit(dp));
  }

  /** The second rounding cannot bring back a sixth figure. */
  lemma DecimalsKeepFiveFigures(m: nat, dp: nat)
    requires FiveFigures(m)
    ensures RoundDecimals(m, dp) >= 0 && FiveFigures(RoundDecimals(m, dp))
  {
    var k: nat :| FiveFiguresAbove(m, k);
    var b := if dp >= SCALE then 0 else SCALE - dp;
    if b <= k {
      PowMono(b, k);
      MultipleOfMultiple(m, Pow10(k), Pow10(b));
      HalfEvenFixes(m, Pow10(b));
    } else {
      PowMono(k + 5, b + 4);
      RoundBelowFiveFigures(m, b);
      assert FiveFiguresAbove(RoundDecimals(m, dp), b);
    }
  }

  /** What lies below five figures above place `b` still does after rounding to that place. */
  lemma RoundBelowFiveFigures(m: nat, b: nat)
    requires m <= Pow10(b + 4)
    ensures 0 <= HalfEven(m, Pow10(b)) < Pow10(b + 5) && HalfEven(m, Pow10(b)) % Pow10(b) == 0
  {
    HalfEvenFacts(m, Pow10(b));
    PowMono(b, b + 4);
    PowMono(b + 4, b + 5);
    HalfEvenWithin(m, Pow10(b), Pow10(b + 4));
    HalfEvenWithin(m, Pow10(b), 0);
  }

  /** Every nonnegative price comes out by the exchange's rule. */
  lemma RoundPriceMeetsWireRule(px: nat, szDecimals: nat, maxDecimals: nat)
    ensures RoundPrice(px, szDecimals, maxDecimals) >= 0
    ensures WireRule(RoundPrice(px, szDecimals, maxDecimals), szDecimals, maxDecimals)
  {
    var dp := MaxDp(szDecimals, maxDecimals);
    if IsInteger(px) {
      IntegerSurvivesDecimals(px, dp);
    } else {
      RoundFiguresMeets(px);
      DecimalsKeepFiveFigures(RoundFigures(px), dp);
      HalfEvenFacts(RoundFigures(px), DecimalUnit(dp));
    }
  }

  /** A decimal place is what its name says: `10^dp` of them make 1, down to the 28th. */
  lemma DecimalPlaces(dp: nat)
    ensures dp <= 28 ==> DecimalUnit(dp) * Pow10(dp) == Pow10(28)
    ensures 28 <= dp ==> DecimalUnit(dp) == 1
  {
    if dp <= 28 {
      PowAdd(28 - dp, dp);
    }
    assert Pow10(0) == 1;
  }

  /**
   The decimals a perp price comes out with, in numbers: a multiple of `10^-(6 - szDecimals)`, and an integer once the
   size takes six decimals or more.
   */
  lemma PerpDecimals(px: int, szDecimals: nat)
    ensures szDecimals <= 6 ==> RoundPricePerp(px, szDecimals) % Pow10(22 + szDecimals) == 0
    ensures 6 <= szDecimals ==> RoundPricePerp(px, szDecimals) % Pow10(28) == 0
  {
    var (sf, u) := (if IsInteger(px) then px else RoundFigures(px), DecimalUnit(MaxDp(szDecimals, 6)));
    HalfEvenFacts(sf, u);
  }

  /** Nor is more taken away than that: a price with few figures and at most those decimals is left alone. */
  lemma PerpKeepsItsDecimals(px: nat, szDecimals: nat)
    requires szDecimals <= 6 && px % Pow10(22 + szDecimals) == 0 && FiveFigures(px)
    ensures RoundPricePerp(px, szDecimals) == px
  {
    assert DecimalUnit(MaxDp(szDecimals, 6)) == Pow10(22 + szDecimals);
    RoundPriceFixesExactlyWirePrices(px, szDecimals, 6);
  }

  /** Prices that meet the rule pass through unchanged, and only those: rounding reaches a fixed point in one step. */
  lemma RoundPriceFixesExactlyWirePrices(px: nat, szDecimals: nat, maxDecimals: nat)
    ensures RoundPrice(px, szDecimals, maxDecimals) == px <==> WireRule(px, szDecimals, maxDecimals)
    ensures var r := RoundPrice(px, szDecimals, maxDecimals);
            RoundPrice(r, szDecimals, maxDecimals) == r
  {
    RoundPriceMeetsWireRule(px, szDecimals, maxDecimals);
    WirePriceIsFixed(RoundPrice(px, szDecimals, maxDecimals), szDecimals, maxDecimals);
    if WireRule(px, szDecimals, maxDecimals) {
      WirePriceIsFixed(px, szDecimals, maxDecimals);
    }
  }

  lemma WirePriceIsFixed(px: nat, szDecimals: nat, maxDecimals: nat)
    requires WireRule(px, szDecimals, maxDecimals)
    ensures RoundPrice(px, szDecimals, maxDecimals) == px
  {
    if !IsInteger(px) {
      RoundFiguresFixes(px);
    }
    HalfEvenFixes(px, DecimalUnit(MaxDp(szDecimals, maxDecimals)));
  }

  /** The two roundings move a price by at most half a unit of its fifth figure and half a unit of its last decimal. */
  lemma RoundPriceIsClose(px: int, szDecimals: nat, maxDecimals: nat)
    ensures 2 * Magnitude(RoundPrice(px, szDecimals, maxDecimals) - px)
         <= FigureUnit(px) + DecimalUnit(MaxDp(szDecimals, maxDecimals))
  {
    var u := DecimalUnit(MaxDp(szDecimals, maxDecimals));
    HalfEvenFacts(px, u);
    HalfEvenFacts(px, FigureUnit(px));
    HalfEvenFacts(RoundFigures(px), u);
  }

  /** Integer prices are never changed, whatever their number of figures. */
  lemma RoundPriceFixesIntegers(px: int, szDecimals: nat, maxDecimals: nat)
    requires IsInteger(px)
    ensures RoundPrice(px, szDecimals, maxDecimals) == px
  {
    IntegerSurvivesDecimals(px, MaxDp(szDecimals, maxDecimals));
  }

  // ---------------------------------------------------------------- what a decimal can hold

  /** 2^96: a `Decimal` is an integer below this at some scale of at most 28. */
  const MANTISSA_LIMIT: nat := 0x1_0000_0000_0000_0000_0000_0000

  /** `m` fits at scale `SCALE - k`. */
  predicate Fits(m: int, k: nat) {
    m % Pow10(k) == 0 && Magnitude(m) < MANTISSA_LIMIT * Pow10(k)
  }

  ghost predicate Representable(m: int) {
    exists k: nat :: k <= SCALE && Fits(m, k)
  }

  /** The distance between neighbouring representable prices around 100001. */
  const TICK: nat := 100_000

  lemma OneIs()
    ensures ONE == 10_000_000_000_000_000_000_000_000_000 && Pow10(5) == TICK
  {
    assert Pow10(14) == 100_000_000_000_000;
    PowAdd(14, 14);
  }

  lemma OneMoreTick(m: nat)
    requires Representable(m) && 100_001 * ONE < m
    ensures 100_001 * ONE + TICK <= m
  {
    OneIs();
    var k: nat :| k <= SCALE && Fits(m, k);
    var low := if k < 4 then k else 4;
    PowMono(low, 4);
    assert Pow10(4) == 10_000;
    MulMono(Pow10(low), Pow10(4), MANTISSA_LIMIT);
    assert 5 <= k;
    PowMono(5, k);
    MultipleOfMultiple(m, Pow10(k), Pow10(5));
  }

  lemma TicksAreRepresentable()
    ensures Representable(100_001 * ONE - TICK) && Representable(100_001 * ONE) && Representable(100_001 * ONE + TICK)
  {
    OneIs();
    assert Fits(100_001 * ONE - TICK, 5) && Fits(100_001 * ONE, 5) && Fits(100_001 * ONE + TICK, 5);
  }

  /**
   `q` is `a / n` as a correct decimal division delivers it: off by less than one unit of its last digit, which is the
   28th decimal or the last one that 96 bits can hold. `k` counts the decimals given up.
   */
  ghost predicate DividesTo(q: int, a: int, n: nat, k: nat) {
    && k <= SCALE && Fits(q, k)
    && Magnitude(q * n - a) < n * Pow10(k)
    && (k == 0 || MANTISSA_LIMIT <= 10 * (Magnitude(q) / Pow10(k)) + 10)
  }

  lemma WholeDigits(q: int, k: nat)
    requires Fits(q, k)
    ensures q == (q / Pow10(k)) * Pow10(k)
  {
  }

  lemma Regroup(j: int, u: int, n: int)
    ensures (j * u) * n == j * (n * u)
  {
  }

  lemma QuotientIsNotNegative(q: int, a: int, n: nat, k: nat)
    requires DividesTo(q, a, n, k) && 0 <= a && 0 < n
    ensures 0 <= q
  {
    WholeDigits(q, k);
    hide Pow10, Fits;
    var (j, u) := (q / Pow10(k), Pow10(k));
    Regroup(j, u, n);
    MulMono(0, n, u);
    if j < 0 {
      MulMono(j, -1, n * u);
      assert false;
    }
    MulMono(0, j, u);
  }

  /** Multiplying back overshoots by at most a half in all, for anything up to 100000. */
  lemma DivisionOvershoot(q: int, a: int, n: nat, k: nat)
    requires DividesTo(q, a, n, k) && 0 <= a <= 100_000 * ONE && 0 < n <= 0x1_0000_0000
    ensures 0 <= q && 2 * (q * n) <= 2 * a + ONE
  {
    QuotientIsNotNegative(q, a, n, k);
    WholeDigits(q, k);
    FineDigitsAreSmall(n, k);
    hide Pow10, Fits;
    var (j, u) := (q / Pow10(k), Pow10(k));
    Regroup(j, u, n);
    assert q * n < a + n * u;
    if k != 0 {
      CoarseDigitIsSmall(j, n * u, a);
    }
  }

  lemma FineDigitsAreSmall(n: nat, k: nat)
    requires n <= 0x1_0000_0000
    ensures k == 0 ==> 2 * (n * Pow10(k)) <= ONE
  {
    OneIs();
  }

  lemma CoarseDigitIsSmall(j: nat, w: nat, a: nat)
    requires MANTISSA_LIMIT <= 10 * j + 10 && j * w < a + w && a <= 100_000 * ONE
    ensures 2 * w <= ONE
  {
    OneIs();
    MulMono(200_001, j, w);
  }

  /**
   What decimal arithmetic may make of an exact product or sum: it keeps what a decimal can hold, and never puts a larger
   value below a smaller one. Exact arithmetic is one such rounding.
   */
  ghost predicate KeepsOrder(round: int -> int) {
    && (forall x :: Representable(x) ==> round(x) == x)
    && (forall x, y :: x <= y ==> round(x) <= round(y))
  }

  /** `r` can be held, and nothing that can be held is nearer to `x`. */
  ghost predicate IsNearest(r: int, x: int) {
    Representable(r) && forall y :: Representable(y) ==> Magnitude(r - x) <= Magnitude(y - x)
  }

  /** Rounding to a nearest decimal, however ties are broken, is another. */
  lemma NearestKeepsOrder(round: int -> int)
    requires forall x :: IsNearest(round(x), x)
    ensures KeepsOrder(round)
  {
    forall x | Representable(x)
      ensures round(x) == x
    {
      assert IsNearest(round(x), x);
    }
    forall x, y | x <= y
      ensures round(x) <= round(y)
    {
      assert IsNearest(round(x), x) && IsNearest(round(y), y);
    }
  }

  /** Multiples of a half are held, as far as ladders need them. */
  lemma HalvesAreRepresentable(h: nat)
    requires h <= 200_010
    ensures Representable(h * (5 * Pow10(27)))
  {
    TenthOfOne();
    OneIs();
    MultipleByFactor(5 * h, Pow10(27));
    assert h * (5 * Pow10(27)) == (5 * h) * Pow10(27);
    MulMono(5 * h, MANTISSA_LIMIT - 1, Pow10(27));
    assert (MANTISSA_LIMIT - 1) * Pow10(27) < MANTISSA_LIMIT * Pow10(27);
    assert Fits(h * (5 * Pow10(27)), 27);
  }

  lemma TenthOfOne()
    ensures 10 * Pow10(27) == ONE
  {
  }

  // ---------------------------------------------------------------- monotonicity

  ghost predicate MonotoneUpTo(bound: nat, szDecimals: nat, maxDecimals: nat) {
    forall x: nat, y: nat :: x <= y <= bound && Representable(x) && Representable(y) ==>
      RoundPrice(x, szDecimals, maxDecimals) <= RoundPrice(y, szDecimals, maxDecimals)
  }

  /** Integers up to 100000 have five figures, so exempting them makes no difference there. */
  lemma SmallIntegerHasFiveFigures(m: nat)
    requires IsInteger(m) && m <= 100_000 * ONE
    ensures RoundFigures(m) == m
  {
    PowAdd(5, SCALE);
    assert Pow10(5) == 100_000;
    if m < 100_000 * ONE {
      assert FiveFiguresAbove(m, SCALE);
    } else {
      PowMono(SCALE + 5, SCALE + 6);
      PowMono(SCALE + 1, SCALE + 5);
      assert FiveFiguresAbove(m, SCALE + 1);
    }
    RoundFiguresFixes(m);
  }

  /** Less than 5 above 100000, five figures leave only 100000. */
  lemma FiguresJustAbove(m: nat)
    requires 100_000 * ONE <= m < 100_005 * ONE
    ensures RoundFigures(m) == 100_000 * ONE
  {
    SixDigitsBeforeThePoint(m);
    QuotientUnique(m, 10 * ONE, 10_000);
    assert m % (10 * ONE) == m - 10_000 * (10 * ONE);
  }

  lemma SixDigitsBeforeThePoint(m: nat)
    requires 100_000 * ONE <= m < 1_000_000 * ONE
    ensures FigureUnit(m) == 10 * ONE
  {
    PowAdd(5, SCALE);
    PowAdd(6, SCALE);
    PowAdd(1, SCALE);
    assert Pow10(1) == 10 && Pow10(5) == 100_000 && Pow10(6) == 1_000_000;
    DigitsUnique(m, SCALE + 6);
  }

  lemma FactorsAsRoundings(m: nat, szDecimals: nat, maxDecimals: nat)
    requires m < 100_001 * ONE
    ensures RoundPrice(m, szDecimals, maxDecimals)
         == RoundDecimals(RoundFigures(m), MaxDp(szDecimals, maxDecimals))
  {
    if IsInteger(m) {
      if m > 100_000 * ONE {
        var k := m / ONE;
        assert m == k * ONE;
        if k <= 100_000 {
          MulMono(k, 100_000, ONE);
        } else {
          MulMono(100_001, k, ONE);
        }
        assert false;
      }
      SmallIntegerHasFiveFigures(m);
    }
  }

  /**
   The integer exemption breaks monotonicity, for every precision, exactly above 100001: 100001 is kept, but the next
   price a decimal can hold is rounded down to 100000.
   */
  lemma MonotoneExactlyUpTo(bound: nat, szDecimals: nat, maxDecimals: nat)
    ensures MonotoneUpTo(bound, szDecimals, maxDecimals) <==> bound < 100_001 * ONE + TICK
    ensures Representable(bound) ==> (MonotoneUpTo(bound, szDecimals, maxDecimals) <==> bound <= 100_001 * ONE)
  {
    if bound < 100_001 * ONE + TICK {
      forall x: nat, y: nat | x <= y <= bound && Representable(x) && Representable(y)
        ensures RoundPrice(x, szDecimals, maxDecimals) <= RoundPrice(y, szDecimals, maxDecimals)
      {
        if 100_001 * ONE < y {
          OneMoreTick(y);
        }
        RoundPriceMono(x, y, szDecimals, maxDecimals);
      }
    } else {
      DropAbove(szDecimals, maxDecimals);
      TicksAreRepresentable();
    }
    if Representable(bound) && 100_001 * ONE < bound {
      OneMoreTick(bound);
    }
  }

  lemma RoundPriceMono(x: nat, y: nat, szDecimals: nat, maxDecimals: nat)
    requires x <= y <= 100_001 * ONE
    ensures RoundPrice(x, szDecimals, maxDecimals) <= RoundPrice(y, szDecimals, maxDecimals)
  {
    var dp := MaxDp(szDecimals, maxDecimals);
    if x < y {
      FactorsAsRoundings(x, szDecimals, maxDecimals);
      RoundFiguresMono(x, y);
      if y < 100_001 * ONE {
        FactorsAsRoundings(y, szDecimals, maxDecimals);
        HalfEvenMono(RoundFigures(x), RoundFigures(y), DecimalUnit(dp));
      } else {
        FiguresJustAbove(y);
        MultipleByFactor(100_001, ONE);
        RoundPriceFixesIntegers(y, szDecimals, maxDecimals);
        IntegerSurvivesDecimals(y, dp);
        HalfEvenMono(RoundFigures(x), y, DecimalUnit(dp));
      }
    }
  }

  /** The neighbours of 100001 both round to 100000, below it. */
  lemma DropAbove(szDecimals: nat, maxDecimals: nat)
    ensures RoundPrice(100_001 * ONE - TICK, szDecimals, maxDecimals) == 100_000 * ONE
    ensures RoundPrice(100_001 * ONE, szDecimals, maxDecimals) == 100_001 * ONE
    ensures RoundPrice(100_001 * ONE + TICK, szDecimals, maxDecimals) == 100_000 * ONE
  {
    OneIs();
    RoundPriceFixesIntegers(100_001 * ONE, szDecimals, maxDecimals);
    NeighbourDrops(100_001 * ONE - TICK, szDecimals, maxDecimals);
    NeighbourDrops(100_001 * ONE + TICK, szDecimals, maxDecimals);
  }

  lemma NeighbourDrops(m: nat, szDecimals: nat, maxDecimals: nat)
    requires 100_000 * ONE <= m < 100_005 * ONE && !IsInteger(m)
    ensures RoundPrice(m, szDecimals, maxDecimals) == 100_000 * ONE
  {
    FiguresJustAbove(m);
    MultipleByFactor(100_000, ONE);
    IntegerSurvivesDecimals(100_000 * ONE, MaxDp(szDecimals, maxDecimals));
  }

  // ---------------------------------------------------------------- prices that vanish

  /** Half of the last decimal is the last price that five figures and the decimals together round to zero. */
  lemma FiguresAtHalf(b: nat)
    requires 6 <= b
    ensures var (half, f) := (5 * Pow10(b - 1), Pow10(b - 5));
            && RoundFigures(half + 5 * Pow10(b - 6)) == half
            && RoundFigures(half + 5 * Pow10(b - 6) + 1) == half + f
  {
    var (t, f) := (5 * Pow10(b - 1) + 5 * Pow10(b - 6), Pow10(b - 5));
    HalfInFigures(b);
    DigitsUnique(t, b);
    DigitsUnique(t + 1, b);
    HalfEvenAtTie(f, 5 * Pow10(b - 6));
  }

  lemma HalfInFigures(b: nat)
    requires 6 <= b
    ensures Pow10(b - 1) == 10_000 * Pow10(b - 5) && Pow10(b - 5) == 10 * Pow10(b - 6) && Pow10(b) == 10 * Pow10(b - 1)
  {
    PowAdd(4, b - 5);
    assert Pow10(4) == 10_000;
  }

  lemma HalfEvenAtTie(f: nat, half: nat)
    requires 2 <= half && f == 2 * half
    ensures HalfEven(50_000 * f + half, f) == 50_000 * f && HalfEven(50_000 * f + half + 1, f) == 50_001 * f
  {
    QuotientUnique(50_000 * f + half, f, 50_000);
    QuotientUnique(50_000 * f + half + 1, f, 50_000);
  }

  /**
   Exactly which prices rounding takes to zero: those up to half a unit of the last decimal and half a unit of the fifth
   figure there. Rounding to figures first shifts the limit up by a hundred-thousandth.
   */
  lemma RoundPricePositiveExactlyWhen(px: int, szDecimals: nat)
    ensures var u := DecimalUnit(MaxDp(szDecimals, 6));
            RoundPricePerp(px, szDecimals) > 0 <==> u + u / 100_000 < 2 * px
  {
    hide RoundFigures, HalfEven, Pow10, FigureUnit, Digits;
    var b := SCALE - MaxDp(szDecimals, 6);
    assert DecimalUnit(MaxDp(szDecimals, 6)) == Pow10(b);
    HalvesOfUnit(b);
    if px <= 0 {
      NotPositiveStays(px, szDecimals);
    } else if IsInteger(px) {
      RoundPriceFixesIntegers(px, szDecimals, 6);
      IntegerIsAboveHalf(px, b);
    } else {
      RoundsAboveHalf(px, b);
    }
  }

  lemma RoundsAboveHalf(px: nat, b: nat)
    requires 6 <= b
    ensures HalfEven(RoundFigures(px), Pow10(b)) > 0 <==> 5 * Pow10(b - 1) + 5 * Pow10(b - 6) < px
  {
    var (half, extra) := (5 * Pow10(b - 1), 5 * Pow10(b - 6));
    HalvesOfUnit(b);
    FiguresAtHalf(b);
    if px <= half + extra {
      RoundFiguresMono(px, half + extra);
      HalfEvenMono(RoundFigures(px), half, Pow10(b));
    } else {
      RoundFiguresMono(half + extra + 1, px);
      HalfEvenMono(half + Pow10(b - 5), RoundFigures(px), Pow10(b));
    }
  }

  lemma IntegerIsAboveHalf(px: nat, b: nat)
    requires 6 <= b <= SCALE && 0 < px && IsInteger(px)
    ensures 5 * Pow10(b - 1) + 5 * Pow10(b - 6) < px
  {
    hide Pow10;
    HalvesOfUnit(b);
    PowMono(b, SCALE);
    IntegerIsAtLeastOne(px);
  }

  lemma IntegerIsAtLeastOne(px: nat)
    requires 0 < px && IsInteger(px)
    ensures ONE <= px
  {
    if px < ONE {
      QuotientUnique(px, ONE, 0);
    }
  }

  lemma HalvesOfUnit(b: nat)
    requires 6 <= b
    ensures Pow10(b) == 2 * (5 * Pow10(b - 1)) && Pow10(b) / 100_000 == 2 * (5 * Pow10(b - 6))
    ensures HalfEven(5 * Pow10(b - 1), Pow10(b)) == 0
    ensures HalfEven(5 * Pow10(b - 1) + Pow10(b - 5), Pow10(b)) == Pow10(b)
    ensures Pow10(b - 6) <= Pow10(b - 1) / 100
  {
    PowAdd(5, b - 5);
    PowAdd(1, b - 6);
    PowAdd(5, b - 6);
    assert Pow10(5) == 100_000 && Pow10(1) == 10;
    var f := Pow10(b - 5);
    assert Pow10(b) == 100_000 * f && Pow10(b - 1) == 10_000 * f;
    QuotientUnique(100_000 * f, 100_000, f);
    QuotientUnique(50_000 * f, 100_000 * f, 0);
    QuotientUnique(50_001 * f, 100_000 * f, 0);
  }

  /** A price that is not positive never rounds to a positive one. */
  lemma NotPositiveStays(px: int, szDecimals: nat)
    ensures px <= 0 ==> RoundPricePerp(px, szDecimals) <= 0
  {
    if px <= 0 {
      HalfEvenWithin(px, FigureUnit(px), 0);
      HalfEvenWithin(px, DecimalUnit(MaxDp(szDecimals, 6)), 0);
      HalfEvenWithin(RoundFigures(px), DecimalUnit(MaxDp(szDecimals, 6)), 0);
    }
  }

  // ---------------------------------------------------------------- sizes

  lemma Truncation(m: nat, u: nat)
    requires 0 < u
    ensures (m / u * u) % u == 0 && 0 <= m / u * u <= m < m / u * u + u
  {
    MultipleByFactor(m / u, u);
    MulMono(0, m / u, u);
    assert m == m / u * u + m % u;
  }

  /** Toward zero on both sides. */
  lemma RoundSizeIsOdd(sz: int, szDecimals: nat)
    ensures RoundSize(-sz, szDecimals) == -RoundSize(sz, szDecimals)
  {
    QuotientUnique(0, DecimalUnit(szDecimals), 0);
  }

  /** Sizes round down to a multiple of the lot, losing less than one lot. */
  lemma RoundSizeLosesLessThanALot(sz: nat, szDecimals: nat)
    ensures RoundSize(sz, szDecimals) % DecimalUnit(szDecimals) == 0
    ensures 0 <= RoundSize(sz, szDecimals) <= sz < RoundSize(sz, szDecimals) + DecimalUnit(szDecimals)
  {
    Truncation(sz, DecimalUnit(szDecimals));
  }
}
