/** Scale orders: a ladder of limit orders between two prices, and when its rungs are really distinct. */
module ScaleLadder {
  import opened Arithmetic
  import opened Errors
  import opened Options
  import opened WirePrice

  datatype Tif = Gtc | Ioc | Alo

  /** A limit order that passed the builder; price and size are mantissas. */
  datatype Order = Order(asset: nat, isBuy: bool, price: int, size: int, tif: Tif)

  /** What `build` checks before it lets an order out. */
  function Build(order: Order): Result<Order> {
    if order.price <= 0 then Err(Parse("price must be positive"))
    else if order.size <= 0 then Err(Parse("size must be positive"))
    else Ok(order)
  }

  /** The prices of a ladder are determined by these; `round` is what decimal arithmetic makes of a product or sum. */
  datatype Ladder = Ladder(low: int, step: int, count: nat, szDecimals: nat, round: int -> int) {
    function Unrounded(i: nat): int {
      round(low + round(step * i))
    }

    function Rung(i: nat): int {
      RoundPricePerp(Unrounded(i), szDecimals)
    }

    /** The only comparison made: with the rung before. */
    predicate Repeats(i: nat) {
      0 < i && Rung(i) == Rung(i - 1)
    }

    predicate Fails(i: nat) {
      Repeats(i) || Rung(i) <= 0
    }

    ghost predicate Accepted() {
      2 <= count && forall i :: 0 <= i < count ==> !Fails(i)
    }

    /** The step is not negative, the arithmetic keeps order, and what it delivers is held by a decimal. */
    ghost predicate Delivered() {
      0 <= step && KeepsOrder(round) && forall i :: 0 <= i < count ==> Representable(Unrounded(i))
    }

    function Top(): int
      requires 0 < count
    {
      Unrounded(count - 1)
    }

    ghost predicate StrictlyIncreasing() {
      forall i, j :: 0 <= i < j < count ==> Rung(i) < Rung(j)
    }
  }

  /** `quotient` is `total_size / num_orders` as the decimal division delivers it. */
  function SizePerOrder(quotient: int, szDecimals: nat): int {
    RoundSize(quotient, szDecimals)
  }

  const NARROW: HlError := Validation("price band too narrow for num_orders at this asset's tick size")

  /**
   The orders `place_scale_order` hands to `bulk_order`. `asset` and `szDecimals` are the cache's answers for the
   symbol; `quotient` and `step` are what the two decimal divisions deliver, and `round` what decimal multiplication and
   addition deliver, whatever that is.
   */
  method PlaceScaleOrder(asset: Option<nat>, szDecimals: Option<nat>, isBuy: bool, total: int, low: int, high: int,
                         count: nat, quotient: int, step: int, round: int -> int, tif: Tif)
    returns (r: Result<seq<Order>>)
    ensures r.Ok? <==> 2 <= count && low < high && 0 < total && asset.Some? && szDecimals.Some?
                       && 0 < SizePerOrder(quotient, szDecimals.value)
                       && Ladder(low, step, count, szDecimals.value, round).Accepted()
    ensures (count < 2 || high <= low || total <= 0 || asset.None?
             || (szDecimals.Some? && SizePerOrder(quotient, szDecimals.value) <= 0)) ==> r.Err? && r.error.Validation?
    ensures 2 <= count && low < high && 0 < total && asset.Some? && szDecimals.None? ==> r.Err? && r.error.Parse?
    ensures r.Ok? ==>
              var ladder := Ladder(low, step, count, szDecimals.value, round);
              && |r.value| == count
              && forall i :: 0 <= i < count ==>
                   r.value[i] == Order(asset.value, isBuy, ladder.Rung(i), SizePerOrder(quotient, szDecimals.value), tif)
    ensures r.Err? && 2 <= count && low < high && 0 < total && asset.Some? && szDecimals.Some?
            && 0 < SizePerOrder(quotient, szDecimals.value) ==>
              var ladder := Ladder(low, step, count, szDecimals.value, round);
              exists i :: 0 <= i < count && ladder.Fails(i) && (forall k :: 0 <= k < i ==> !ladder.Fails(k))
                          && r.error == if ladder.Repeats(i) then NARROW else Parse("price must be positive")
  {
    if count < 2 {
      return Err(Validation("scale order requires at least 2 orders"));
    }
    if low >= high {
      return Err(Validation("price_low must be less than price_high"));
    }
    if total <= 0 {
      return Err(Validation("total_size must be positive"));
    }
    if asset.None? {
      return Err(Validation("Asset not found in exchange universe"));
    }
    if szDecimals.None? {
      return Err(Parse("szDecimals not found"));
    }
    var sizePerOrder := RoundSize(quotient, szDecimals.value);
    if sizePerOrder <= 0 {
      return Err(Validation("scale size_per_order rounds to zero at this asset's szDecimals"));
    }
    var ladder := Ladder(low, step, count, szDecimals.value, round);
    r := BuildRungs(ladder, asset.value, isBuy, sizePerOrder, tif);
  }

  /** The rung loop. */
  method BuildRungs(ladder: Ladder, asset: nat, isBuy: bool, size: int, tif: Tif) returns (r: Result<seq<Order>>)
    requires 0 < size
    ensures r.Ok? <==> forall i :: 0 <= i < ladder.count ==> !ladder.Fails(i)
    ensures r.Ok? ==>
              && |r.value| == ladder.count
              && forall i :: 0 <= i < ladder.count ==> r.value[i] == Order(asset, isBuy, ladder.Rung(i), size, tif)
    ensures r.Err? ==>
              exists i :: 0 <= i < ladder.count && ladder.Fails(i) && (forall k :: 0 <= k < i ==> !ladder.Fails(k))
                          && r.error == if ladder.Repeats(i) then NARROW else Parse("price must be positive")
  {
    hide RoundPricePerp;
    var orders: seq<Order> := [];
    var prevPrice: Option<int> := None;
    for i := 0 to ladder.count
      invariant prevPrice == if i == 0 then None else Some(ladder.Rung(i - 1))
      invariant |orders| == i
      invariant forall k :: 0 <= k < i ==> !ladder.Fails(k)
      invariant forall k :: 0 <= k < i ==> orders[k] == Order(asset, isBuy, ladder.Rung(k), size, tif)
    {
      var price := ladder.Rung(i);
      if prevPrice == Some(price) {
        assert ladder.Fails(i) && ladder.Repeats(i);
        return Err(NARROW);
      }
      prevPrice := Some(price);
      var order := Build(Order(asset, isBuy, price, size, tif));
      if order.Err? {
        assert ladder.Fails(i);
        return Err(order.error);
      }
      orders := orders + [order.value];
    }
    return Ok(orders);
  }

  // ---------------------------------------------------------------- distinct rungs

  ghost predicate Nondecreasing(prices: seq<int>) {
    forall i, j :: 0 <= i < j < |prices| ==> prices[i] <= prices[j]
  }

  /**
   In the range where rounding is monotone, comparing neighbours keeps all rounded prices apart, however the prices came
   about.
   */
  lemma {:induction false} AdjacentChecksSuffice(prices: seq<int>, szDecimals: nat, i: nat, j: nat)
    requires Nondecreasing(prices) && forall k :: 0 <= k < |prices| ==> prices[k] <= 100_001 * ONE
    requires forall k :: 0 <= k < |prices| ==> RoundPricePerp(prices[k], szDecimals) > 0
    requires forall k :: 0 < k < |prices| ==>
               RoundPricePerp(prices[k], szDecimals) != RoundPricePerp(prices[k - 1], szDecimals)
    requires i < j < |prices|
    ensures RoundPricePerp(prices[i], szDecimals) < RoundPricePerp(prices[j], szDecimals)
    decreases j
  {
    hide RoundPricePerp;
    NotPositiveStays(prices[j - 1], szDecimals);
    NotPositiveStays(prices[j], szDecimals);
    RoundPerpMono(prices[j - 1], prices[j], szDecimals);
    if i < j - 1 {
      AdjacentChecksSuffice(prices, szDecimals, i, j - 1);
    }
  }

  lemma RoundPerpMono(x: nat, y: nat, szDecimals: nat)
    requires x <= y <= 100_001 * ONE
    ensures RoundPricePerp(x, szDecimals) <= RoundPricePerp(y, szDecimals)
  {
    RoundPriceMono(x, y, szDecimals, 6);
  }

  lemma UnroundedMono(l: Ladder, i: nat, j: nat)
    requires 0 <= l.step && KeepsOrder(l.round) && i <= j
    ensures l.Unrounded(i) <= l.Unrounded(j)
  {
    MulMono(i, j, l.step);
    assert l.round(l.step * i) <= l.round(l.step * j);
  }

  /** The prices of a ladder before rounding, lowest first. */
  lemma LadderPrices(l: Ladder) returns (prices: seq<int>)
    requires 2 <= l.count && 0 <= l.step && KeepsOrder(l.round) && l.Top() <= 100_001 * ONE
    ensures |prices| == l.count && Nondecreasing(prices)
    ensures forall i :: 0 <= i < l.count ==> prices[i] == l.Unrounded(i) && prices[i] <= 100_001 * ONE
  {
    hide KeepsOrder;
    prices := seq(l.count, i requires 0 <= i < l.count => l.Unrounded(i));
    forall i, j | 0 <= i < j < l.count
      ensures prices[i] <= prices[j]
    {
      UnroundedMono(l, i, j);
    }
    forall i | 0 <= i < l.count
      ensures prices[i] <= 100_001 * ONE
    {
      UnroundedMono(l, i, l.count - 1);
    }
  }

  lemma LowLadderIncreases(l: Ladder)
    requires l.Accepted() && 0 <= l.step && KeepsOrder(l.round) && l.Top() <= 100_001 * ONE
    ensures l.StrictlyIncreasing()
  {
    hide RoundPricePerp, KeepsOrder, Nondecreasing;
    var prices := LadderPrices(l);
    forall i | 0 <= i < l.count
      ensures RoundPricePerp(prices[i], l.szDecimals) == l.Rung(i)
      ensures l.Rung(i) > 0 && (0 < i ==> l.Rung(i) != l.Rung(i - 1))
    {
      assert !l.Fails(i);
    }
    forall i, j | 0 <= i < j < l.count
      ensures l.Rung(i) < l.Rung(j)
    {
      AdjacentChecksSuffice(prices, l.szDecimals, i, j);
    }
  }

  lemma LowIsPositive(l: Ladder)
    requires l.Accepted() && KeepsOrder(l.round)
    ensures 0 < l.low
  {
    assert !l.Fails(0) && l.step * 0 == 0;
    assert Fits(0, 0) && Representable(0);
    if l.low <= 0 {
      assert l.round(l.low) <= l.round(0);
    }
    NotPositiveStays(l.Unrounded(0), l.szDecimals);
  }

  /**
   Ladder safety: with `price_high` at most 100000, an accepted scale order has exactly the requested number of rungs,
   all at different, strictly increasing, positive prices, as long as the last product overshoots the band by at most 1.
   */
  lemma AcceptedLadderIncreases(low: int, high: int, count: nat, step: int, szDecimals: nat, round: int -> int)
    requires 2 <= count && low < high <= 100_000 * ONE && 0 <= step && KeepsOrder(round)
    requires round(step * (count - 1)) <= high - low + ONE
    requires Ladder(low, step, count, szDecimals, round).Accepted()
    ensures Ladder(low, step, count, szDecimals, round).StrictlyIncreasing()
  {
    TicksAreRepresentable();
    assert round(low + round(step * (count - 1))) <= round(100_001 * ONE) == 100_001 * ONE;
    LowLadderIncreases(Ladder(low, step, count, szDecimals, round));
  }

  /** Every correct decimal division is that accurate, for every number of orders a `u32` can name. */
  lemma DividedLadderIncreases(low: int, high: int, count: nat, step: int, szDecimals: nat, round: int -> int, k: nat)
    requires 2 <= count <= U32_MAX && low < high <= 100_000 * ONE && KeepsOrder(round)
    requires DividesTo(step, high - low, count - 1, k)
    requires Ladder(low, step, count, szDecimals, round).Accepted()
    ensures Ladder(low, step, count, szDecimals, round).StrictlyIncreasing()
  {
    LowIsPositive(Ladder(low, step, count, szDecimals, round));
    DivisionOvershoot(step, high - low, count - 1, k);
    RoundedOvershoot(step * (count - 1), high - low, round);
    AcceptedLadderIncreases(low, high, count, step, szDecimals, round);
  }

  /** Rounding the product adds less than another half. */
  lemma RoundedOvershoot(product: int, span: nat, round: int -> int)
    requires KeepsOrder(round) && span <= 100_000 * ONE && 2 * product <= 2 * span + ONE
    ensures round(product) <= span + ONE
  {
    TenthOfOne();
    OneIs();
    var (half, sum) := (5 * Pow10(27), span + ONE);
    var h := sum / half;
    assert sum == half * h + sum % half;
    if 200_002 < h {
      MulMono(200_003, h, half);
    }
    HalvesAreRepresentable(h);
    assert product <= h * half <= sum;
    assert round(product) <= round(h * half);
  }

  ghost predicate SafeUpTo(top: int, round: int -> int) {
    forall low: int, step: int, count: nat, szDecimals: nat ::
      var l := Ladder(low, step, count, szDecimals, round);
      l.Accepted() && l.Delivered() && l.Top() <= top ==> l.StrictlyIncreasing()
  }

  /**
   The exact reach of the adjacent comparison: every accepted ladder of prices a decimal can hold, with its top rung at
   or below `top`, has strictly increasing prices if and only if `top` is at most 100001. One tick above, a ladder
   through 100001 repeats 100000.
   */
  lemma LadderSafeExactlyUpTo(top: nat, round: int -> int)
    requires KeepsOrder(round)
    ensures SafeUpTo(top, round) <==> top < 100_001 * ONE + TICK
    ensures Representable(top) ==> (SafeUpTo(top, round) <==> top <= 100_001 * ONE)
  {
    hide KeepsOrder, RoundPricePerp;
    if top < 100_001 * ONE + TICK {
      forall low: int, step: int, count: nat, szDecimals: nat |
        Ladder(low, step, count, szDecimals, round).Accepted() && Ladder(low, step, count, szDecimals, round).Delivered()
        && Ladder(low, step, count, szDecimals, round).Top() <= top
        ensures Ladder(low, step, count, szDecimals, round).StrictlyIncreasing()
      {
        var l := Ladder(low, step, count, szDecimals, round);
        TopStaysBelowTick(l, top);
        LowLadderIncreases(l);
      }
    } else {
      var l := Ladder(100_001 * ONE - TICK, TICK, 3, 0, round);
      RepeatedRung(l);
      assert l.Accepted() && l.Delivered() && l.Top() <= top && l.Rung(0) == l.Rung(2);
    }
    if Representable(top) && 100_001 * ONE < top {
      OneMoreTick(top);
    }
  }

  lemma TopStaysBelowTick(l: Ladder, top: nat)
    requires 2 <= l.count && l.Delivered() && l.Top() <= top < 100_001 * ONE + TICK
    ensures l.Top() <= 100_001 * ONE
  {
    if 100_001 * ONE < l.Top() {
      OneMoreTick(l.Top());
    }
  }

  lemma RepeatedRung(l: Ladder)
    requires l == Ladder(100_001 * ONE - TICK, TICK, 3, 0, l.round) && KeepsOrder(l.round)
    ensures l.Accepted() && l.Delivered() && l.Top() == 100_001 * ONE + TICK
    ensures l.Rung(0) == l.Rung(2) == 100_000 * ONE
  {
    TicksAreRepresentable();
    assert Fits(0, 0) && Fits(TICK, 0) && Fits(2 * TICK, 0);
    assert Representable(0) && Representable(TICK) && Representable(2 * TICK);
    OneIs();
    assert l.Unrounded(0) == 100_001 * ONE - TICK && l.Unrounded(1) == 100_001 * ONE
           && l.Unrounded(2) == 100_001 * ONE + TICK;
    DropAbove(0, 6);
    ThreeRungsAccepted(l);
  }

  /** Three rungs that go up and come down again pass the comparison of neighbours. */
  lemma ThreeRungsAccepted(l: Ladder)
    requires l.count == 3 && l.Unrounded(1) == 100_001 * ONE
    requires RoundPricePerp(l.Unrounded(0), l.szDecimals) == RoundPricePerp(l.Unrounded(2), l.szDecimals) == 100_000 * ONE
    ensures l.Accepted() && l.Rung(0) == l.Rung(2) == 100_000 * ONE && l.Rung(1) == 100_001 * ONE
  {
    OneIs();
    RoundPriceFixesIntegers(100_001 * ONE, l.szDecimals, 6);
    forall i | 0 <= i < l.count
      ensures !l.Fails(i)
    {
      assert i == 0 || i == 1 || i == 2;
    }
  }

  /**
   A plain request shows it: three orders from 100000.5 to 100001.5 go out at 100000, 100001 and 100000. All values on the
   way fit, so no rounding interferes.
   */
  lemma PlainRequestRepeats(szDecimals: nat, round: int -> int)
    requires KeepsOrder(round)
    ensures var (low, high, step) := (1_000_005 * Pow10(27), 1_000_015 * Pow10(27), 5 * Pow10(27));
            var l := Ladder(low, step, 3, szDecimals, round);
            && DividesTo(step, high - low, 2, 0) && l.Accepted() && l.Delivered()
            && l.Rung(0) == 100_000 * ONE && l.Rung(1) == 100_001 * ONE && l.Rung(2) == 100_000 * ONE
  {
    hide RoundPricePerp, Representable, KeepsOrder, DividesTo, Pow10;
    TenthOfOne();
    var l := Ladder(1_000_005 * Pow10(27), 5 * Pow10(27), 3, szDecimals, round);
    PlainPrices(l);
    HalfAboveDrops(l.Unrounded(0), szDecimals);
    HalfAboveDrops(l.Unrounded(2), szDecimals);
    ThreeRungsAccepted(l);
    HalfIsExact();
  }

  lemma PlainPrices(l: Ladder)
    requires l.low == 1_000_005 * Pow10(27) && l.step == 5 * Pow10(27) && l.count == 3 && KeepsOrder(l.round)
    ensures l.Unrounded(0) == l.low && l.Unrounded(1) == 100_001 * ONE && l.Unrounded(2) == 1_000_015 * Pow10(27)
    ensures l.Delivered()
  {
    hide Pow10, Representable;
    TenthOfOne();
    HalvesAreRepresentable(0);
    HalvesAreRepresentable(1);
    HalvesAreRepresentable(2);
    HalvesAreRepresentable(200_001);
    HalvesAreRepresentable(200_002);
    HalvesAreRepresentable(200_003);
    assert l.Unrounded(0) == l.low && l.Unrounded(1) == 100_001 * ONE && l.Unrounded(2) == 1_000_015 * Pow10(27);
    forall i | 0 <= i < l.count
      ensures Representable(l.Unrounded(i))
    {
      assert i == 0 || i == 1 || i == 2;
    }
  }

  lemma HalfIsExact()
    ensures DividesTo(5 * Pow10(27), 10 * Pow10(27), 2, 0)
  {
    TenthOfOne();
    OneIs();
    assert Fits(5 * Pow10(27), 0);
  }

  lemma HalfAboveDrops(px: nat, szDecimals: nat)
    requires px == 1_000_005 * Pow10(27) || px == 1_000_015 * Pow10(27)
    ensures RoundPricePerp(px, szDecimals) == 100_000 * ONE
  {
    hide RoundPrice;
    TenthOfOne();
    OneIs();
    NeighbourDrops(px, szDecimals, 6);
  }

  // ---------------------------------------------------------------- sizes

  /**
   What the rungs total against the requested size, for every correct division. They exceed it exactly when the division
   rounded up and what it delivered is a whole number of lots, and then by less than one last digit each; they fall short
   by less than one lot, or one last digit if that is coarser, each.
   */
  lemma LadderSizeIsConserved(total: nat, count: nat, quotient: int, szDecimals: nat, k: nat)
    requires 0 < count && DividesTo(quotient, total, count, k)
    ensures var (size, lot, digit) := (SizePerOrder(quotient, szDecimals), DecimalUnit(szDecimals), Pow10(k));
            && size % lot == 0
            && (count * size <= total <==> !(total < quotient * count && quotient % lot == 0))
            && count * size < total + count * digit
            && total < count * size + count * (if lot < digit then digit else lot)
  {
    hide RoundSize, DecimalUnit, Pow10;
    var (size, lot, digit) := (SizePerOrder(quotient, szDecimals), DecimalUnit(szDecimals), Pow10(k));
    QuotientIsNotNegative(quotient, total, count, k);
    RoundSizeLosesLessThanALot(quotient, szDecimals);
    if quotient % lot == 0 {
      MultipleIsKept(quotient, szDecimals);
      WholeLots(total, count, quotient, lot, digit);
    } else {
      LotIsCoarser(quotient, szDecimals, k);
      MultiplesApart(quotient, size, digit);
      MultiplesApart(size + lot, quotient, digit);
      CutLots(total, count, quotient, size, lot, digit);
    }
  }

  /** The arithmetic when nothing is cut. */
  lemma WholeLots(total: nat, count: nat, quotient: int, lot: nat, digit: nat)
    requires Magnitude(quotient * count - total) < count * digit
    ensures count * quotient <= total <==> !(total < quotient * count)
    ensures count * quotient < total + count * digit
    ensures total < count * quotient + count * (if lot < digit then digit else lot)
  {
    MulMono(digit, if lot < digit then digit else lot, count);
    assert quotient * count == count * quotient;
  }

  /** The arithmetic when the quotient lies strictly between two lots, by at least a digit. */
  lemma CutLots(total: nat, count: nat, quotient: int, size: int, lot: nat, digit: nat)
    requires Magnitude(quotient * count - total) < count * digit
    requires size + digit <= quotient && quotient + digit <= size + lot && digit < lot
    ensures count * size <= total && total < count * size + count * lot
  {
    assert quotient * count == count * quotient;
    MulMono(size, quotient - digit, count);
    MulMono(quotient + digit, size + lot, count);
    assert count * (quotient - digit) == count * quotient - count * digit;
    assert count * (quotient + digit) == count * quotient + count * digit;
    assert count * (size + lot) == count * size + count * lot;
  }

  /**
   Read off the request: a total that is a whole number of lots is never exceeded, as long as the last digits of all the
   orders together make up no more than a lot.
   */
  lemma WholeTotalIsNeverExceeded(total: nat, count: nat, quotient: int, szDecimals: nat, k: nat)
    requires 0 < count && DividesTo(quotient, total, count, k)
    requires total % DecimalUnit(szDecimals) == 0 && count * Pow10(k) <= DecimalUnit(szDecimals)
    ensures count * SizePerOrder(quotient, szDecimals) <= total
  {
    hide RoundSize, DecimalUnit, Pow10;
    LadderSizeIsConserved(total, count, quotient, szDecimals, k);
    QuotientIsNotNegative(quotient, total, count, k);
    var lot := DecimalUnit(szDecimals);
    if total < quotient * count && quotient % lot == 0 {
      LotsTimesCount(quotient, count, lot);
      MultiplesApart(quotient * count, total, lot);
      assert false;
    }
  }

  lemma LotsTimesCount(quotient: nat, count: nat, lot: nat)
    requires 0 < lot && quotient % lot == 0
    ensures (quotient * count) % lot == 0
  {
    Regroup(quotient / lot, lot, count);
    assert quotient == (quotient / lot) * lot;
    MultipleByFactor((quotient / lot) * count, lot);
    assert quotient * count == ((quotient / lot) * count) * lot;
  }

  lemma MultipleIsKept(sz: nat, szDecimals: nat)
    requires sz % DecimalUnit(szDecimals) == 0
    ensures RoundSize(sz, szDecimals) == sz
  {
  }

  /** What is not a whole number of lots is cut at a lot coarser than its last digit. */
  lemma LotIsCoarser(sz: nat, szDecimals: nat, k: nat)
    requires sz % Pow10(k) == 0 && sz % DecimalUnit(szDecimals) != 0
    ensures Pow10(k) < DecimalUnit(szDecimals)
    ensures RoundSize(sz, szDecimals) % Pow10(k) == 0 && (RoundSize(sz, szDecimals) + DecimalUnit(szDecimals)) % Pow10(k) == 0
  {
    var (j, lot) := (if szDecimals >= SCALE then 0 else SCALE - szDecimals, DecimalUnit(szDecimals));
    assert lot == Pow10(j);
    if j <= k {
      PowMono(j, k);
      MultipleOfMultiple(sz, Pow10(k), lot);
      assert false;
    }
    PowMono(k, j);
    RoundSizeLosesLessThanALot(sz, szDecimals);
    MultipleOfMultiple(RoundSize(sz, szDecimals), lot, Pow10(k));
    NextMultiple(RoundSize(sz, szDecimals), lot);
    MultipleOfMultiple(RoundSize(sz, szDecimals) + lot, lot, Pow10(k));
  }

  lemma NextMultiple(m: nat, u: nat)
    requires 0 < u && m % u == 0
    ensures (m + u) % u == 0
  {
    assert m + u == (m / u + 1) * u;
    MultipleByFactor(m / u + 1, u);
  }

  lemma MultiplesApart(a: nat, b: nat, u: nat)
    requires 0 < u && a % u == 0 && b % u == 0 && b < a
    ensures b + u <= a
  {
    assert a == (a / u) * u && b == (b / u) * u;
    if a / u <= b / u {
      MulMono(a / u, b / u, u);
    } else {
      MulMono(b / u + 1, a / u, u);
    }
  }

  /** Three orders for just under 3 each get 1: together more than was asked for. */
  lemma OversizedLadder()
    ensures var total := 3 * ONE - 1;
            && Representable(total) && DividesTo(ONE, total, 3, 0)
            && total < 3 * SizePerOrder(ONE, 0)
  {
    OneIs();
    assert Fits(3 * ONE - 1, 0) && Fits(ONE, 0);
    MultipleIsKept(ONE, 0);
  }

  // ---------------------------------------------------------------- orders

  /**
   Exactly which rounded orders leave the builder: a size of at least one lot, and a price above half of the last
   decimal and a hundred-thousandth of that. What leaves it meets the exchange's rules.
   */
  lemma OrderLeavesExactlyWhen(asset: nat, isBuy: bool, px: int, sz: int, tif: Tif, szDecimals: nat)
    ensures var (u, lot) := (DecimalUnit(MaxDp(szDecimals, 6)), DecimalUnit(szDecimals));
            var built := Build(Order(asset, isBuy, RoundPricePerp(px, szDecimals), RoundSize(sz, szDecimals), tif));
            && (built.Ok? <==> u + u / 100_000 < 2 * px && lot <= sz)
            && (built.Ok? ==> && 0 < built.value.price && WireRule(built.value.price, szDecimals, 6)
                              && 0 < built.value.size <= sz && built.value.size % lot == 0)
  {
    RoundPricePositiveExactlyWhen(px, szDecimals);
    if 0 < px {
      RoundPriceMeetsWireRule(px, szDecimals, 6);
    }
    SizeVanishesBelowALot(sz, szDecimals);
  }

  lemma SizeVanishesBelowALot(sz: int, szDecimals: nat)
    ensures 0 < RoundSize(sz, szDecimals) <==> DecimalUnit(szDecimals) <= sz
    ensures 0 < sz ==> RoundSize(sz, szDecimals) <= sz && RoundSize(sz, szDecimals) % DecimalUnit(szDecimals) == 0
  {
    var lot := DecimalUnit(szDecimals);
    if 0 < sz {
      RoundSizeLosesLessThanALot(sz, szDecimals);
      if lot <= sz {
        DivAtLeast(sz, 1, lot);
        MulMono(1, sz / lot, lot);
      } else {
        QuotientUnique(sz, lot, 0);
      }
    } else if sz < 0 {
      DivMono(0, -sz, lot);
      MulMono(0, (-sz) / lot, lot);
    }
  }
}
