/** The fee of a transaction, from its cost to the smallest units it is paid in. */
module Fees {
  import opened Basics
  import opened FixedPoint
  import opened PriceAdjustment
  import opened FeePrices
  import opened Costs
  import opened Power
  import opened OverallCost

  const SPECKS_PER_DUST: U128 := 1_000_000_000_000_000

  /** The fee in specks, or nothing for a cost above the block limits. */
  function Fee(p: Prices, c: SyntheticCost, limits: SyntheticCost): Option<U128> {
    match Normalize(c, limits)
    case None => None
    case Some(n) => Some(IntoAtomicUnits(OverallCost.OverallCost(p, n), SPECKS_PER_DUST))
  }

  /** What a full block does to the overall price. */
  function MaxAdjustment(a: Fixed): Fixed { Add(Adjustment(ONE, a), ONE) }

  /** The fee with a margin for that many full blocks. */
  function FeeWithMargin(p: Prices, c: SyntheticCost, limits: SyntheticCost, a: Fixed, margin: nat): Option<U128> {
    match Normalize(c, limits)
    case None => None
    case Some(n) =>
      Some(IntoAtomicUnits(Mul(OverallCost.OverallCost(p, n), Power.Power(MaxAdjustment(a), margin)), SPECKS_PER_DUST))
  }

  /** There is a fee exactly for costs within the limits, and it is the least number of specks that is
      worth the overall price of the cost. */
  lemma FeeIsLeast(p: Prices, c: SyntheticCost, limits: SyntheticCost, x: nat)
    ensures Fee(p, c, limits).Some? <==> AllWithin(c, limits)
    ensures Fee(p, c, limits).Some? && x < U128_MAX ==>
            var cost := OverallCost.OverallCost(p, Normalize(c, limits).value);
            Fee(p, c, limits).value <= x <==> cost * 1_000_000_000_000_000 <= Shl(x)
  {
    NormalizeIsExact(c, limits);
    if Normalize(c, limits).Some? {
      AtomicUnitsExactly(OverallCost.OverallCost(p, Normalize(c, limits).value), SPECKS_PER_DUST, x);
    }
  }

  // ----- dearer for more -----

  lemma UnitsRise(x: Fixed, y: Fixed, u: U128)
    requires x <= y
    ensures IntoAtomicUnits(x, u) <= IntoAtomicUnits(y, u)
  {
    var c := IntoAtomicUnits(y, u);
    AtomicUnitsExactly(x, u, c);
    AtomicUnitsExactly(y, u, c);
    MulMono(x, y, u);
  }

  ghost predicate CostsNoMore(c: SyntheticCost, d: SyntheticCost) {
    && c.readTime <= d.readTime && c.computeTime <= d.computeTime && c.blockUsage <= d.blockUsage
    && c.bytesWritten <= d.bytesWritten && c.bytesChurned <= d.bytesChurned
  }

  lemma QuotientRises(x: U64, y: U64, limit: U64)
    requires x <= y && Within(y, limit) && !Wraps(y, limit)
    ensures Within(x, limit) && 0 <= FromU64Div(x, limit) <= FromU64Div(y, limit)
  {
    QuotientIsExact(x, limit);
    QuotientIsExact(y, limit);
    CeilMono(Shl(x), Shl(y), limit);
  }

  /** A cost that is no more in any dimension is no dearer. */
  lemma FeeRises(p: Prices, c: SyntheticCost, d: SyntheticCost, limits: SyntheticCost)
    requires NonNegativePrices(p) && CostsNoMore(c, d) && Fee(p, d, limits).Some? && !SomeWraps(d, limits)
    ensures Fee(p, c, limits).Some? && Fee(p, c, limits).value <= Fee(p, d, limits).value
  {
    NormalizeIsExact(c, limits);
    NormalizeIsExact(d, limits);
    QuotientRises(c.readTime, d.readTime, limits.readTime);
    QuotientRises(c.computeTime, d.computeTime, limits.computeTime);
    QuotientRises(c.blockUsage, d.blockUsage, limits.blockUsage);
    QuotientRises(c.bytesWritten, d.bytesWritten, limits.bytesWritten);
    QuotientRises(c.bytesChurned, d.bytesChurned, limits.bytesChurned);
    var x, y := Normalize(c, limits).value, Normalize(d, limits).value;
    CostRises(p, x, y);
    UnitsRise(OverallCost.OverallCost(p, x), OverallCost.OverallCost(p, y), SPECKS_PER_DUST);
  }

  // ----- margins -----

  lemma TimesOne(x: Fixed)
    ensures Mul(x, ONE) == x
  {}

  /** No margin adds nothing. */
  lemma NoMargin(p: Prices, c: SyntheticCost, limits: SyntheticCost, a: Fixed)
    ensures FeeWithMargin(p, c, limits, a, 0) == Fee(p, c, limits)
  {
    if Normalize(c, limits).Some? { TimesOne(OverallCost.OverallCost(p, Normalize(c, limits).value)); }
  }

  /** A margin of one block is a factor of what a full block does to the overall price. */
  lemma MarginOfOne(p: Prices, c: SyntheticCost, limits: SyntheticCost, b: Block)
    requires b.overall == ONE
    ensures Update(p, b).overall == Max(Mul(p.overall, MaxAdjustment(b.a)), 100)
    ensures Normalize(c, limits).Some? ==>
            var cost := OverallCost.OverallCost(p, Normalize(c, limits).value);
            FeeWithMargin(p, c, limits, b.a, 1) == Some(IntoAtomicUnits(Mul(cost, MaxAdjustment(b.a)), SPECKS_PER_DUST))
  {
    PowerSmall(MaxAdjustment(b.a));
  }

  /** A full block does not lower the price. */
  lemma MaxAdjustmentRises(a: Fixed)
    requires a >= ONE
    ensures MaxAdjustment(a) >= ONE
  {
    var points := Points();
    PointsFormCurve();
    AdjustmentBounds(ONE, a);
    InterpolateRounds(points, ONE);
    HeightMono(points, 99 * POINT_LEN, ONE);
    InterpolateRounds(points, 99 * POINT_LEN);
    InterpolateAtPoint(points, 99);
    PointAt(9, 9);
    DivIsAway(Interpolate(points, ONE), a);
  }

  lemma MulKeepsOne(x: Fixed, y: Fixed)
    requires x >= 0 && y >= ONE
    ensures Mul(x, y) >= x
  {
    MulNonNegative(x, y);
    MulMono(ONE, y, x);
    FloorGreatest(x * y, S, x);
  }

  lemma {:induction false} PowerKeepsOne(acc: Fixed, cur: Fixed, exp: nat)
    requires acc >= ONE && cur >= ONE
    ensures PowLoop(acc, cur, exp) >= ONE
    decreases exp
  {
    if exp > 0 {
      MulKeepsOne(acc, cur);
      MulKeepsOne(cur, cur);
      PowerKeepsOne(if exp % 2 == 1 then Mul(acc, cur) else acc, Mul(cur, cur), exp / 2);
    }
  }

  /** A margin never makes the fee less. */
  lemma MarginNeverLess(p: Prices, c: SyntheticCost, limits: SyntheticCost, a: Fixed, margin: nat)
    requires NonNegativePrices(p) && a >= ONE && Fee(p, c, limits).Some? && !SomeWraps(c, limits)
    ensures FeeWithMargin(p, c, limits, a, margin).Some?
    ensures FeeWithMargin(p, c, limits, a, margin).value >= Fee(p, c, limits).value
  {
    var n := Normalize(c, limits).value;
    var cost, factor := OverallCost.OverallCost(p, n), Power.Power(MaxAdjustment(a), margin);
    assert cost >= 0 by {
      NormalizedNonNegative(c, limits);
      CostRises(p, n, n);
    }
    assert factor >= ONE by {
      MaxAdjustmentRises(a);
      PowerKeepsOne(ONE, MaxAdjustment(a), margin);
    }
    MulKeepsOne(cost, factor);
    UnitsRise(cost, Mul(cost, factor), SPECKS_PER_DUST);
  }

  lemma NormalizedNonNegative(c: SyntheticCost, limits: SyntheticCost)
    requires Normalize(c, limits).Some? && !SomeWraps(c, limits)
    ensures NonNegative(Normalize(c, limits).value)
  {
    NormalizeIsExact(c, limits);
    QuotientInRange(c.readTime, limits.readTime);
    QuotientInRange(c.computeTime, limits.computeTime);
    QuotientInRange(c.blockUsage, limits.blockUsage);
    QuotientInRange(c.bytesWritten, limits.bytesWritten);
    QuotientInRange(c.bytesChurned, limits.bytesChurned);
  }
}
