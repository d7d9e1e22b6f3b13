/** How the overall price moves: it cannot get stuck, and it climbs exponentially. */
module PriceMovement {
  import opened FixedPoint
  import opened PriceAdjustment
  import opened FeePrices

  /** The overall price rises exactly when the adjustment is worth at least one unit of it.
      At a price of 1 that would take an adjustment of 100 percent, hence the floor of 100. */
  lemma RisesExactly(overall: Fixed, m: Fixed)
    requires MIN_COST <= overall < MAX && 0 <= m
    ensures NewOverall(overall, m) > overall <==> overall * (m - S) >= S
  {
    MulNonNegative(overall, m);
    assert overall * m == Shl(overall) + overall * (m - S) by { Distribute(overall, m); }
  }

  lemma Distribute(x: int, m: int)
    ensures x * m == Shl(x) + x * (m - S)
  {}

  /** An adjustment of at least one percent. */
  ghost predicate Rising(b: Block) { 100 * Multiplier(b.overall, b.a) >= 101 * S }

  lemma OnePercent(overall: Fixed, m: Fixed)
    requires MIN_COST <= overall && 100 * m >= 101 * S
    ensures NewOverall(overall, m) >= Min(MAX, overall + overall / 100)
  {
    MulNonNegative(overall, m);
    MulMono(101 * S, 100 * m, overall);
  }

  lemma RisingStep(p: Prices, b: Block)
    requires MIN_COST <= p.overall && WithinLimits(b) && Rising(b)
    ensures Step(p, b).overall >= Min(MAX, p.overall + p.overall / 100) >= MIN_COST
  {
    OnePercent(p.overall, Multiplier(b.overall, b.a));
  }

  /** The 74th point of the curve, and a hundredth of it rounded down. */
  const POINT_74: Fixed := 19294714246602788864
  const AT_74: Fixed := 192947142466027888

  lemma PointQuotient()
    ensures Div(POINT_74, 100 * S) > AT_74
  {
    DivIsAway(POINT_74, 100 * S);
    CeilLeast(Shl(POINT_74), 100 * S, AT_74);
  }

  lemma PointAdjustment()
    ensures Adjustment(74 * POINT_LEN, 100 * S) > AT_74
  {
    PointQuotient();
    assert Interpolate(Points(), 74 * POINT_LEN) == POINT_74 by {
      PointsFormCurve();
      InterpolateAtPoint(Points(), 74);
      PointAt(7, 4);
    }
  }

  lemma AddOne(x: Fixed)
    requires x >= AT_74
    ensures 100 * Add(x, ONE) >= 101 * S
  {}

  /** With the ledger's own parameter a = 100, every block that is at least 74 percent full is one. */
  lemma FullBlocksRise(b: Block)
    requires b.a == 100 * S && 74 * POINT_LEN <= b.overall <= ONE
    ensures Rising(b)
  {
    assert Adjustment(74 * POINT_LEN, 100 * S) > AT_74 by { PointAdjustment(); }
    assert Adjustment(74 * POINT_LEN, b.a) <= Adjustment(b.overall, b.a) + 1 by {
      AdjustmentMonotone(74 * POINT_LEN, b.overall, b.a);
    }
    AddOne(Adjustment(b.overall, b.a));
  }

  // ----- any sequence of prices that gains one percent at a time -----

  ghost predicate Gains(prices: seq<int>) {
    && prices != [] && MIN_COST <= prices[0]
    && forall i :: 0 < i < |prices| ==> prices[i] >= Min(MAX, prices[i - 1] + prices[i - 1] / 100)
  }

  ghost function Pow2(k: nat): (r: nat)
    ensures r > 0
  {
    if k == 0 then 1 else 2 * Pow2(k - 1)
  }

  lemma ClimbOnce(start: int, price: int, next: int, n: nat)
    requires MIN_COST <= start && price >= Min(MAX, start + n * (start / 100))
    requires next >= Min(MAX, price + price / 100)
    ensures next >= Min(MAX, start + (n + 1) * (start / 100))
  {
    MulMono(0, n, start / 100);
    if price < MAX { FloorMono(start, price, 100); }
    assert (n + 1) * (start / 100) == n * (start / 100) + start / 100;
  }

  lemma {:induction false} Climb(prices: seq<int>, i: nat, n: nat)
    requires Gains(prices) && i + n < |prices| && MIN_COST <= prices[i]
    ensures prices[i + n] >= Min(MAX, prices[i] + n * (prices[i] / 100)) >= MIN_COST
  {
    if n > 0 {
      Climb(prices, i, n - 1);
      ClimbOnce(prices[i], prices[i + n - 1], prices[i + n], n - 1);
    }
    MulMono(0, n, prices[i] / 100);
  }

  lemma DoubleOnce(start: int, price: int, next: int, k: nat)
    requires MIN_COST <= price && MIN_COST <= start && k > 0
    requires price >= Min(MAX, start * Pow2(k - 1)) && next >= Min(MAX, price + 200 * (price / 100))
    ensures next >= Min(MAX, start * Pow2(k))
  {
    var r := start * Pow2(k - 1);
    assert start * Pow2(k) == 2 * r by { assert Pow2(k) == 2 * Pow2(k - 1); }
    Twice(price, next, r);
  }

  lemma Twice(price: int, next: int, r: int)
    requires MIN_COST <= price && price >= Min(MAX, r) && next >= Min(MAX, price + 200 * (price / 100))
    ensures next >= Min(MAX, 2 * r)
  {}

  lemma {:induction false} Double(prices: seq<int>, k: nat)
    requires Gains(prices) && 200 * k < |prices|
    ensures prices[200 * k] >= Min(MAX, prices[0] * Pow2(k))
  {
    if k > 0 {
      var n := 200 * (k - 1);
      Double(prices, k - 1);
      Climb(prices, 0, n);
      Climb(prices, n, 200);
      DoubleOnce(prices[0], prices[n], prices[n + 200], k);
    }
  }

  // ----- every run of rising blocks is such a sequence -----

  ghost predicate AllRising(blocks: seq<Block>) {
    forall i :: 0 <= i < |blocks| ==> WithinLimits(blocks[i]) && Rising(blocks[i])
  }

  ghost function OverallPrices(ps: seq<Prices>): (prices: seq<int>)
    ensures |prices| == |ps|
  {
    seq(|ps|, i requires 0 <= i < |ps| => ps[i].overall)
  }

  lemma {:induction false} PricesGain(ps: seq<Prices>, blocks: seq<Block>)
    requires Trace(ps, blocks) && AllRising(blocks) && MIN_COST <= ps[0].overall
    ensures Gains(OverallPrices(ps))
  {
    var prices := OverallPrices(ps);
    for n := 0 to |blocks|
      invariant MIN_COST <= prices[n]
      invariant forall i :: 0 < i <= n ==> prices[i] >= Min(MAX, prices[i - 1] + prices[i - 1] / 100)
    {
      RisingStep(ps[n], blocks[n]);
    }
  }

  /** n such blocks in a row raise the price by n hundredths of it, hence by at least n units,
      or to the maximum. */
  lemma RunClimbs(ps: seq<Prices>, blocks: seq<Block>)
    requires Trace(ps, blocks) && AllRising(blocks) && MIN_COST <= ps[0].overall
    ensures var (p, n) := (ps[0].overall, |blocks|);
            && ps[n].overall >= Min(MAX, p + n * (p / 100))
            && ps[n].overall >= Min(MAX, p + n)
  {
    PricesGain(ps, blocks);
    Climb(OverallPrices(ps), 0, |blocks|);
    MulMono(1, ps[0].overall / 100, |blocks|);
  }

  /** Every 200 such blocks double the price until it reaches the maximum. */
  lemma RunDoubles(ps: seq<Prices>, blocks: seq<Block>, k: nat)
    requires Trace(ps, blocks) && AllRising(blocks) && MIN_COST <= ps[0].overall && |blocks| == 200 * k
    ensures ps[200 * k].overall >= Min(MAX, ps[0].overall * Pow2(k))
  {
    PricesGain(ps, blocks);
    Double(OverallPrices(ps), k);
  }

  /** For one, every 200 blocks that are at least 74 percent full, with the parameter a = 100. */
  lemma FullRunDoubles(ps: seq<Prices>, blocks: seq<Block>, k: nat)
    requires Trace(ps, blocks) && MIN_COST <= ps[0].overall && |blocks| == 200 * k
    requires forall i :: 0 <= i < |blocks| ==> FullBlock(blocks[i])
    ensures ps[200 * k].overall >= Min(MAX, ps[0].overall * Pow2(k))
  {
    forall i | 0 <= i < |blocks| ensures WithinLimits(blocks[i]) && Rising(blocks[i]) {
      AcceptedExactly(ps[0], blocks[i]);
      FullBlocksRise(blocks[i]);
    }
    RunDoubles(ps, blocks, k);
  }

  ghost predicate FullBlock(b: Block) {
    && b.a == 100 * S && 74 * POINT_LEN <= b.overall <= S
    && 0 <= b.detailed.readTime <= S && 0 <= b.detailed.computeTime <= S && 0 <= b.detailed.blockUsage <= S
    && 0 <= b.detailed.bytesWritten <= S && 0 <= b.detailed.bytesChurned <= S
  }
}
