/** What every sequence of price updates keeps. */
module PricingRuns {
  import opened FixedPoint
  import opened PriceAdjustment
  import opened FeePrices

  /** The parameter ranges the update is run with. */
  ghost predicate Params(b: Block) { b.a >= 10 * S && 2 <= b.minRatio < S }

  ghost predicate UsageFits(b: Block) {
    && b.overall <= MAX_USAGE
    && b.detailed.readTime <= MAX_USAGE
    && b.detailed.computeTime <= MAX_USAGE
    && b.detailed.blockUsage <= MAX_USAGE
    && b.detailed.bytesWritten <= MAX_USAGE
    && b.detailed.bytesChurned <= MAX_USAGE
  }

  function FactorsOf(p: Prices): seq<Fixed> { [p.read, p.compute, p.blockUsage, p.write] }

  /** Positive factors with mean one, up to rounding. */
  ghost predicate Balanced(n: seq<int>) {
    && |n| == 4
    && (forall i :: 0 <= i < 4 ==> 0 < n[i] <= 4 * S)
    && 4 * S - 6 <= n[0] + n[1] + n[2] + n[3] <= 4 * S + 3
  }

  /** No factor is below the ratio of another, less three units. */
  ghost predicate Spread(n: seq<int>, ratio: int) {
    |n| == 4 && forall i, j :: 0 <= i < 4 && 0 <= j < 4 ==> ratio * n[j] < Shl(n[i]) + 3 * S
  }

  ghost predicate Stable(p: Prices) { 100 <= p.overall && Balanced(FactorsOf(p)) }

  // ----- multiplication -----

  /** An adjustment stays within 46 percent. */
  lemma MultiplierBounds(usage: Fixed, a: Fixed)
    requires usage <= MAX_USAGE && a >= 10 * S
    ensures Multiplier(usage, a) == Adjustment(usage, a) + S
    ensures 54 * S <= 100 * Multiplier(usage, a) <= 146 * S
  {
    AdjustmentBounds(usage, a);
    PointsFormCurve();
    TenthBounds(84764999863455367169, a);
    TenthBounds(84764999863455252480, a);
    DivIsAway(Points()[0] - 1, a);
    DivIsAway(Points()[100], a);
  }

  lemma TenthBounds(x: nat, a: int)
    requires x <= 84764999863455367169 && a >= 10 * S
    ensures CeilDiv(Shl(x), a) <= 8476499986345536717
  {
    CeilLeast(Shl(x), a, 8476499986345536717);
  }

  lemma RaisedFactor(r: Fixed, m: Fixed)
    requires 0 <= r <= 4 * S && 54 * S <= 100 * m <= 146 * S
    ensures Mul(r, m) == Shr(r * m)
    ensures 0 <= Mul(r, m) <= 6 * S
    ensures 100 * Mul(r, m) > 54 * r - 100
  {
    MulMono(r, 4 * S, m);
    MulMono(0, r, m);
    MulMono(54 * S, 100 * m, r);
    MulNonNegative(r, m);
  }

  // ----- lifting the cheap dimensions -----

  ghost predicate Factors(r: seq<int>, least: int) {
    && |r| == 4
    && (forall i :: 0 <= i < 4 ==> least <= r[i] <= 6 * S)
    && r[0] + r[1] + r[2] + r[3] >= 2 * S
  }

  lemma DearestIsMax(r: seq<Fixed>)
    requires r != []
    ensures Dearest(r) in r
    ensures forall i :: 0 <= i < |r| ==> r[i] <= Dearest(r)
  {
    if |r| > 1 { DearestIsMax(r[..|r| - 1]); }
  }

  lemma LeastFactor(top: Fixed, minRatio: Fixed)
    requires S <= 2 * top <= 12 * S && 2 <= minRatio < S
    ensures Mul(top, minRatio) == Shr(top * minRatio)
    ensures 1 <= Mul(top, minRatio) <= top
    ensures top * minRatio < Shl(Mul(top, minRatio)) + S
  {
    MulMono(2, minRatio, top);
    MulMono(minRatio, S, top);
    MulNonNegative(top, minRatio);
  }

  /** After lifting, every factor is within the ratio of every other, less than one unit short. */
  lemma LiftedBounds(r: seq<Fixed>, minRatio: Fixed)
    requires Factors(r, 0) && 2 <= minRatio < S
    ensures Factors(Lifted(r, minRatio), 1)
    ensures forall i :: 0 <= i < 4 ==> Lifted(r, minRatio)[i] == Max(r[i], Shr(Dearest(r) * minRatio))
    ensures forall i, j :: 0 <= i < 4 && 0 <= j < 4 ==>
              minRatio * Lifted(r, minRatio)[j] < Shl(Lifted(r, minRatio)[i]) + S
  {
    var d, top := Lifted(r, minRatio), Dearest(r);
    var least := Mul(top, minRatio);
    DearestIsMax(r);
    LeastFactor(top, minRatio);
    assert |d| == 4 && forall i :: 0 <= i < 4 ==> d[i] == Max(r[i], least);
    forall i, j | 0 <= i < 4 && 0 <= j < 4
      ensures minRatio * d[j] < Shl(d[i]) + S
    {
      WithinRatio(d[i], d[j], least, top, minRatio);
    }
  }

  lemma WithinRatio(x: int, y: int, least: int, top: int, ratio: nat)
    requires least <= x && y <= top && top * ratio < Shl(least) + S
    ensures ratio * y < Shl(x) + S
  {
    MulMono(y, top, ratio);
  }

  // ----- renormalising to mean one -----

  lemma TotalOfFour(d: seq<Fixed>)
    requires Factors(d, 0)
    ensures Total(d) == d[0] + d[1] + d[2] + d[3]
  {
    assert d[..3][..2] == d[..2] && d[..2][..1] == d[..1] && d[..1][..0] == [];
    assert Total(d[..1]) == d[0];
    assert Total(d[..2]) == d[0] + d[1];
    assert Total(d[..3]) == d[0] + d[1] + d[2];
  }

  lemma MeanIsExact(d: seq<Fixed>)
    requires Factors(d, 0)
    ensures var t := d[0] + d[1] + d[2] + d[3];
            Mean(d) == CeilDiv(t, 4) && t <= 4 * Mean(d) <= t + 3
  {
    var t := d[0] + d[1] + d[2] + d[3];
    TotalOfFour(d);
    var c := CeilDiv(t, 4);
    assert FromU64Div(4, 1) == 4 * S by { CeilBounds(Shl(4), 1); }
    CeilLeast(Shl(t), 4 * S, c);
    CeilLeast(Shl(t), 4 * S, c - 1);
    DivFits(t, 4 * S);
  }

  /** One renormalised factor. */
  lemma NormalisedFactor(d: Fixed, q: Fixed)
    requires 0 < d <= 6 * S && d <= 4 * q && S <= 2 * q
    ensures Div(d, q) == CeilDiv(Shl(d), q)
    ensures 0 < Div(d, q) <= 4 * S
    ensures Shl(d) <= Div(d, q) * q < Shl(d) + q
  {
    CeilBounds(Shl(d), q);
    CeilLeast(Shl(d), q, 4 * S);
    CeilLeast(Shl(d), q, 0);
    DivFits(d, q);
  }

  /** Rounding each of four parts up keeps their sum within [4S - 6, 4S + 3]. */
  lemma WindowKept(t: int, q: int, n: int, err: int)
    requires t <= 4 * q <= t + 3 && S <= 2 * q
    requires n * q == Shl(t) + err && 0 <= err <= 4 * q - 4
    ensures 4 * S - 6 <= n <= 4 * S + 3
  {
    if n < 4 * S - 6 { MulMono(n, 4 * S - 7, q); }
    if n > 4 * S + 3 { MulMono(4 * S + 4, n, q); }
  }

  /** Scaling up by S/q and rounding costs at most two more units of the ratio. */
  lemma SpreadKept(c: int, e: int, d: int, x: int, q: int, ratio: int)
    requires Shl(d) <= c * q && e * q < Shl(x) + q
    requires ratio * x < Shl(d) + S && 0 <= ratio < S <= 2 * q
    ensures ratio * e < Shl(c) + 3 * S
  {
    var r, w := ratio * e, e * q;
    assert r * q < Shl(c * q + 3 * q) by {
      assert r * q == ratio * w;
      MulMono(w, Shl(x) + q, ratio);
      assert ratio * (Shl(x) + q) == Shl(ratio * x) + ratio * q by { ShlProduct(ratio, x); }
      MulMono(ratio, S, q);
    }
    assert Shl(c * q + 3 * q) == (Shl(c) + 3 * S) * q by { ShlProduct(q, c); }
    if r >= Shl(c) + 3 * S { MulMono(Shl(c) + 3 * S, r, q); }
  }

  lemma ShlProduct(x: int, y: int)
    ensures x * Shl(y) == Shl(x * y)
  {}

  /** Division by the mean, rounded up twice, over the integers. */
  ghost function ExactNormalised(d: seq<int>): seq<int>
    requires Factors(d, 1)
  {
    var mean := CeilDiv(d[0] + d[1] + d[2] + d[3], 4);
    [CeilDiv(Shl(d[0]), mean), CeilDiv(Shl(d[1]), mean), CeilDiv(Shl(d[2]), mean), CeilDiv(Shl(d[3]), mean)]
  }

  /** n is d scaled by S/q and rounded up. */
  ghost predicate Scaled(d: seq<int>, n: seq<int>, q: int) {
    |d| == |n| == 4 && forall i :: 0 <= i < 4 ==> Shl(d[i]) <= n[i] * q < Shl(d[i]) + q
  }

  lemma NormalisedParts(d: seq<Fixed>)
    requires Factors(d, 1)
    ensures Normalised(d) == ExactNormalised(d)
    ensures Scaled(d, Normalised(d), Mean(d))
    ensures forall i :: 0 <= i < 4 ==> 0 < Normalised(d)[i] <= 4 * S
  {
    MeanIsExact(d);
    forall i | 0 <= i < 4
      ensures Normalised(d)[i] == CeilDiv(Shl(d[i]), Mean(d))
      ensures 0 < Normalised(d)[i] <= 4 * S
      ensures Shl(d[i]) <= Normalised(d)[i] * Mean(d) < Shl(d[i]) + Mean(d)
    {
      NormalisedFactor(d[i], Mean(d));
    }
  }

  lemma SpreadOfFour(d: seq<int>, n: seq<int>, q: int, ratio: int)
    requires Scaled(d, n, q) && 0 <= ratio < S <= 2 * q
    requires forall i, j :: 0 <= i < 4 && 0 <= j < 4 ==> ratio * d[j] < Shl(d[i]) + S
    ensures Spread(n, ratio)
  {
    forall i, j | 0 <= i < 4 && 0 <= j < 4 ensures ratio * n[j] < Shl(n[i]) + 3 * S {
      SpreadKept(n[i], n[j], d[i], d[j], q, ratio);
    }
  }

  lemma NormalisedBounds(d: seq<Fixed>, ratio: int)
    requires Factors(d, 1) && 0 <= ratio < S
    requires forall i, j :: 0 <= i < 4 && 0 <= j < 4 ==> ratio * d[j] < Shl(d[i]) + S
    ensures Normalised(d) == ExactNormalised(d)
    ensures Balanced(Normalised(d))
    ensures Spread(Normalised(d), ratio)
  {
    MeanIsExact(d);
    NormalisedParts(d);
    FourParts(d, Normalised(d), Mean(d));
    SpreadOfFour(d, Normalised(d), Mean(d), ratio);
  }

  lemma FourParts(d: seq<int>, n: seq<int>, q: int)
    requires Scaled(d, n, q) && S <= 2 * q
    requires d[0] + d[1] + d[2] + d[3] <= 4 * q <= d[0] + d[1] + d[2] + d[3] + 3
    ensures 4 * S - 6 <= n[0] + n[1] + n[2] + n[3] <= 4 * S + 3
  {
    var t, c := d[0] + d[1] + d[2] + d[3], n[0] + n[1] + n[2] + n[3];
    assert c * q == n[0] * q + n[1] * q + n[2] * q + n[3] * q;
    WindowKept(t, q, c, c * q - Shl(t));
  }

  // ----- one block -----

  /** The four factors multiplied, over the integers. */
  ghost function ExactRaised(p: Prices, m: seq<int>): seq<int>
    requires |m| == 4
  {
    [Shr(p.read * m[0]), Shr(p.compute * m[1]), Shr(p.blockUsage * m[2]), Shr(p.write * m[3])]
  }

  ghost predicate Mild(m: seq<int>) {
    |m| == 4 && forall i :: 0 <= i < 4 ==> 54 * S <= 100 * m[i] <= 146 * S
  }

  lemma RaisedBounds(p: Prices, m: seq<Fixed>)
    requires Stable(p) && Mild(m)
    ensures Factors(Raised(p, m), 0)
    ensures Raised(p, m) == ExactRaised(p, m)
  {
    RaisedFactor(p.read, m[0]);
    RaisedFactor(p.compute, m[1]);
    RaisedFactor(p.blockUsage, m[2]);
    RaisedFactor(p.write, m[3]);
  }

  ghost function ExactLifted(r: seq<int>, ratio: int): seq<int>
    requires |r| == 4
  {
    var least := Shr(Max(Max(Max(r[0], r[1]), r[2]), r[3]) * ratio);
    [Max(r[0], least), Max(r[1], least), Max(r[2], least), Max(r[3], least)]
  }

  lemma DearestOfFour(r: seq<Fixed>)
    requires |r| == 4
    ensures Dearest(r) == Max(Max(Max(r[0], r[1]), r[2]), r[3])
  {
    DearestIsMax(r);
  }

  /** No intermediate of the factor update wraps or saturates: it is the integer computation. */
  lemma FactorsStep(p: Prices, m: seq<Fixed>, ratio: Fixed)
    requires Stable(p) && Mild(m) && 2 <= ratio < S
    ensures Factors(ExactLifted(ExactRaised(p, m), ratio), 1)
    ensures NewFactors(p, m, ratio) == ExactNormalised(ExactLifted(ExactRaised(p, m), ratio))
    ensures Balanced(NewFactors(p, m, ratio))
    ensures Spread(NewFactors(p, m, ratio), ratio)
  {
    RaisedBounds(p, m);
    var r := Raised(p, m);
    LiftedBounds(r, ratio);
    DearestOfFour(r);
    assert Lifted(r, ratio) == ExactLifted(r, ratio);
    NormalisedBounds(Lifted(r, ratio), ratio);
  }

  lemma MultipliersMild(b: Block)
    requires Params(b) && UsageFits(b)
    ensures Mild(Multipliers(b))
  {
    forall i | 0 <= i < 4 ensures 54 * S <= 100 * Multipliers(b)[i] <= 146 * S {
      MultiplierBounds(Usages(b.detailed)[i], b.a);
    }
  }

  /** The prices are those of the same computation over unbounded integers: nothing wraps, and
      only the overall price may saturate. */
  ghost predicate Exactly(p: Prices, b: Block, u: Prices) {
    FactorsExactly(p, b, u) && u.overall == ExactOverall(p.overall, Adjustment(b.overall, b.a) + S)
  }

  ghost predicate FactorsExactly(p: Prices, b: Block, u: Prices) {
    var d := ExactLifted(ExactRaised(p, ExactMultipliers(b)), b.minRatio);
    Factors(d, 1) && FactorsOf(u) == ExactNormalised(d)
  }

  ghost function ExactMultipliers(b: Block): seq<int> {
    seq(4, i requires 0 <= i < 4 => Adjustment(Usages(b.detailed)[i], b.a) + S)
  }

  ghost function ExactOverall(overall: int, m: int): int { Max(Min(MAX, Shr(overall * m)), 100) }

  lemma MultipliersExact(b: Block)
    requires Params(b) && UsageFits(b)
    ensures Multipliers(b) == ExactMultipliers(b)
  {
    forall i | 0 <= i < 4 ensures Multipliers(b)[i] == ExactMultipliers(b)[i] {
      MultiplierBounds(Usages(b.detailed)[i], b.a);
    }
  }

  lemma OverallExact(overall: Fixed, usage: Fixed, a: Fixed)
    requires 0 <= overall && usage <= MAX_USAGE && a >= 10 * S
    ensures NewOverall(overall, Multiplier(usage, a)) == ExactOverall(overall, Adjustment(usage, a) + S)
  {
    MultiplierBounds(usage, a);
    MulNonNegative(overall, Multiplier(usage, a));
  }

  lemma UpdateIsExact(p: Prices, b: Block)
    requires Stable(p) && Params(b) && UsageFits(b)
    ensures Exactly(p, b, Update(p, b))
  {
    FactorsAreExact(p, b);
    OverallIsExact(p, b);
  }

  lemma OverallIsExact(p: Prices, b: Block)
    requires Stable(p) && Params(b) && UsageFits(b)
    ensures Update(p, b).overall == ExactOverall(p.overall, Adjustment(b.overall, b.a) + S)
  {
    OverallExact(p.overall, b.overall, b.a);
    UpdateParts(p, b);
  }

  lemma UpdateParts(p: Prices, b: Block)
    ensures FactorsOf(Update(p, b)) == NewFactors(p, Multipliers(b), b.minRatio)
    ensures Update(p, b).overall == NewOverall(p.overall, Multiplier(b.overall, b.a))
  {
    var n := NewFactors(p, Multipliers(b), b.minRatio);
    assert n == [n[0], n[1], n[2], n[3]] by { FourOf(n); }
  }

  lemma FourOf<T>(n: seq<T>)
    requires |n| == 4
    ensures n == [n[0], n[1], n[2], n[3]]
  {}

  lemma FactorsAreExact(p: Prices, b: Block)
    requires Stable(p) && Params(b) && UsageFits(b)
    ensures FactorsExactly(p, b, Update(p, b))
  {
    MultipliersMild(b);
    MultipliersExact(b);
    FactorsStep(p, Multipliers(b), b.minRatio);
    UpdateParts(p, b);
  }

  lemma UpdateKeepsStable(p: Prices, b: Block)
    requires Stable(p) && Params(b) && UsageFits(b)
    ensures Stable(Update(p, b)) && Exactly(p, b, Update(p, b))
    ensures Spread(FactorsOf(Update(p, b)), b.minRatio)
  {
    var m := Multipliers(b);
    UpdateIsExact(p, b);
    MultipliersMild(b);
    FactorsStep(p, m, b.minRatio);
    UpdateParts(p, b);
  }

  lemma StepKeepsStable(p: Prices, b: Block)
    requires Stable(p) && Params(b)
    ensures Stable(Step(p, b))
    ensures WithinLimits(b) ==> Spread(FactorsOf(Step(p, b)), b.minRatio)
  {
    if WithinLimits(b) {
      UpdateKeepsStable(p, b);
      assert FactorsOf(Step(p, b)) == FactorsOf(Update(p, b));
    }
  }

  // ----- every run -----

  ghost predicate AllParams(blocks: seq<Block>) {
    forall i :: 0 <= i < |blocks| ==> Params(blocks[i])
  }

  /** From stable prices, every state of every run is stable. */
  lemma {:induction false} RunKeepsStable(ps: seq<Prices>, blocks: seq<Block>, n: nat)
    requires Trace(ps, blocks) && Stable(ps[0]) && AllParams(blocks) && n <= |blocks|
    ensures Stable(ps[n])
  {
    if n > 0 {
      RunKeepsStable(ps, blocks, n - 1);
      StepKeepsStable(ps[n - 1], blocks[n - 1]);
    }
  }

  /** After every accepted block, no factor is below that block's ratio of another, less three units. */
  lemma RunKeepsSpread(ps: seq<Prices>, blocks: seq<Block>, n: nat)
    requires Trace(ps, blocks) && Stable(ps[0]) && AllParams(blocks)
    requires n < |blocks| && WithinLimits(blocks[n])
    ensures Spread(FactorsOf(ps[n + 1]), blocks[n].minRatio)
  {
    RunKeepsStable(ps, blocks, n);
    StepKeepsStable(ps[n], blocks[n]);
  }

  /** In every run no intermediate of an accepted block wraps: the prices are those of the integer
      computation, raised to the block's minimum. */
  lemma RunIsExact(ps: seq<Prices>, blocks: seq<Block>, n: nat)
    requires Trace(ps, blocks) && Stable(ps[0]) && AllParams(blocks)
    requires n < |blocks| && WithinLimits(blocks[n])
    ensures exists u :: Exactly(ps[n], blocks[n], u)
                        && ps[n + 1] == u.(overall := Max(u.overall, blocks[n].minBlockPrice))
  {
    RunKeepsStable(ps, blocks, n);
    UpdateIsExact(ps[n], blocks[n]);
    StepIsUpdate(ps[n], blocks[n]);
    var u := Update(ps[n], blocks[n]);
    assert Exactly(ps[n], blocks[n], u);
  }

  lemma StepIsUpdate(p: Prices, b: Block)
    requires WithinLimits(b)
    ensures var u := Update(p, b); Step(p, b) == u.(overall := Max(u.overall, b.minBlockPrice))
  {}

  // ----- equal dimensions -----

  lemma EvenFactors(p: Prices, m: seq<Fixed>, ratio: Fixed)
    requires Stable(p) && Mild(m) && 2 <= ratio < S
    requires p.read == p.compute == p.blockUsage == p.write
    requires m[0] == m[1] == m[2] == m[3]
    ensures NewFactors(p, m, ratio) == [ONE, ONE, ONE, ONE]
  {
    FactorsStep(p, m, ratio);
    var d := ExactLifted(ExactRaised(p, m), ratio);
    var x := d[0];
    assert x == d[1] == d[2] == d[3];
    assert CeilDiv(4 * x, 4) == x;
    EvenPart(x);
  }

  /** Equal factors that are raised equally come back as exactly one, whatever the rounding. */
  lemma EvenStaysEven(p: Prices, b: Block)
    requires Stable(p) && Params(b) && UsageFits(b)
    requires p.read == p.compute == p.blockUsage == p.write
    requires var u := Usages(b.detailed); u[0] == u[1] == u[2] == u[3]
    ensures FactorsOf(Update(p, b)) == [ONE, ONE, ONE, ONE]
  {
    MultipliersMild(b);
    EvenFactors(p, Multipliers(b), b.minRatio);
  }

  /** From even prices, a dimension whose multiplier is no greater never ends up dearer. The usages
      are named here, so that this says which one drives which factor. */
  lemma FullerNotCheaper(p: Prices, b: Block, i: nat, j: nat)
    requires Stable(p) && Params(b) && UsageFits(b) && i < 4 && j < 4
    requires p.read == p.compute == p.blockUsage == p.write
    requires var d := b.detailed;
             var usage := [d.readTime, d.computeTime, d.blockUsage, Max(d.bytesWritten, d.bytesChurned)];
             Multiplier(usage[i], b.a) <= Multiplier(usage[j], b.a)
    ensures FactorsOf(Update(p, b))[i] <= FactorsOf(Update(p, b))[j]
  {
    var m := Multipliers(b);
    MultipliersMild(b);
    FactorsStep(p, m, b.minRatio);
    OrderKept(p, m, b.minRatio, i, j);
    UpdateParts(p, b);
  }

  lemma OrderKept(p: Prices, m: seq<int>, ratio: int, i: nat, j: nat)
    requires p.read == p.compute == p.blockUsage == p.write && p.read >= 0
    requires |m| == 4 && i < 4 && j < 4 && m[i] <= m[j] && Factors(ExactLifted(ExactRaised(p, m), ratio), 1)
    ensures var n := ExactNormalised(ExactLifted(ExactRaised(p, m), ratio)); n[i] <= n[j]
  {
    var r := ExactRaised(p, m);
    assert r[i] <= r[j] by { RaisedOrder(p, m, i, j); }
    LiftedOrder(r, ratio, i, j);
    NormalisedOrder(ExactLifted(r, ratio), i, j);
  }

  lemma RaisedOrder(p: Prices, m: seq<int>, i: nat, j: nat)
    requires p.read == p.compute == p.blockUsage == p.write && p.read >= 0
    requires |m| == 4 && i < 4 && j < 4 && m[i] <= m[j]
    ensures ExactRaised(p, m)[i] <= ExactRaised(p, m)[j]
  {
    var x, y := p.read * m[i], p.read * m[j];
    assert x <= y by { MulMono(m[i], m[j], p.read); }
    assert ExactRaised(p, m)[i] == Shr(x) && ExactRaised(p, m)[j] == Shr(y);
  }

  lemma LiftedOrder(r: seq<int>, ratio: int, i: nat, j: nat)
    requires |r| == 4 && i < 4 && j < 4 && r[i] <= r[j]
    ensures ExactLifted(r, ratio)[i] <= ExactLifted(r, ratio)[j]
  {}

  lemma NormalisedOrder(d: seq<int>, i: nat, j: nat)
    requires Factors(d, 1) && i < 4 && j < 4 && d[i] <= d[j]
    ensures ExactNormalised(d)[i] <= ExactNormalised(d)[j]
  {
    var mean := CeilDiv(d[0] + d[1] + d[2] + d[3], 4);
    var x, y := Shl(d[i]), Shl(d[j]);
    CeilMono(x, y, mean);
    assert ExactNormalised(d)[i] == CeilDiv(x, mean) && ExactNormalised(d)[j] == CeilDiv(y, mean);
  }

  lemma EvenPart(d: int)
    requires d > 0
    ensures CeilDiv(Shl(d), d) == S
  {
    CeilLeast(Shl(d), d, S);
    CeilLeast(Shl(d), d, S - 1);
  }

  // ----- the least ratio that keeps factors positive -----

  /** Four empty blocks' worth of usage, with the steepest adjustment. */
  function Emptiest(ratio: Fixed): Block {
    Block(NormalizedCost(0, 0, 0, 0, 0), 0, ratio, 10 * S, 0)
  }

  /** A balanced state with one factor at its smallest. */
  const LOPSIDED := Prices(100, 1, 24595658764946068821, 24595658764946068821, 24595658764946068821)

  lemma EmptiestMultiplier()
    ensures Multiplier(0, 10 * S) == 9970244087364014899
  {
    PointsFormCurve();
    InterpolateAtPoint(Points(), 0);
    var x, c := 84764999863455367168, 8476499986345536717;
    DivIsAway(-x, 10 * S);
    CeilLeast(Shl(x), 10 * S, c);
    CeilLeast(Shl(x), 10 * S, c - 1);
  }

  lemma LopsidedRaised(m: seq<Fixed>)
    requires |m| == 4 && m[0] == m[1] == m[2] == m[3] == 9970244087364014899
    ensures var y := 13293658783152019865; Raised(LOPSIDED, m) == [0, y, y, y]
  {}

  lemma LopsidedVanishes(r: seq<Fixed>, ratio: Fixed)
    requires var y := 13293658783152019865; r == [0, y, y, y]
    requires 0 <= ratio <= 1
    ensures Normalised(Lifted(r, ratio))[0] == 0
  {
    DearestIsMax(r);
    assert Mul(Dearest(r), ratio) == 0;
    assert Lifted(r, ratio) == r;
    TotalOfFour(r);
    MeanIsExact(r);
    CeilLeast(0, Mean(r), 0);
    DivFits(0, Mean(r));
  }

  lemma LopsidedStep(ratio: Fixed)
    requires 0 <= ratio <= 1
    ensures NewFactors(LOPSIDED, Multipliers(Emptiest(ratio)), ratio)[0] == 0
  {
    var m := Multipliers(Emptiest(ratio));
    EmptiestMultiplier();
    LopsidedRaised(m);
    LopsidedVanishes(Raised(LOPSIDED, m), ratio);
  }

  lemma LopsidedStable()
    ensures Stable(LOPSIDED)
  {}

  lemma StepFactor(p: Prices, b: Block)
    requires WithinLimits(b)
    ensures Step(p, b).read == NewFactors(p, Multipliers(b), b.minRatio)[0]
  {}

  /** With a ratio of 2^-64 or zero, some stable prices lose a factor in one block. */
  lemma FactorVanishes(ratio: Fixed) returns (p: Prices, b: Block)
    requires 0 <= ratio <= 1
    ensures Stable(p) && b.a >= 10 * S && b.minRatio == ratio
    ensures !Stable(Step(p, b))
  {
    p, b := LOPSIDED, Emptiest(ratio);
    LopsidedStable();
    assert Step(p, b).read == 0 by {
      LopsidedStep(ratio);
      StepFactor(p, b);
    }
    assert !Balanced(FactorsOf(Step(p, b)));
  }

  ghost predicate KeepsStable(ratio: Fixed) {
    forall p: Prices, b: Block ::
      Stable(p) && b.a >= 10 * S && b.minRatio == ratio ==> Stable(Step(p, b))
  }

  /** A ratio of 2^-63 is exactly what it takes. */
  lemma RatioThreshold(ratio: Fixed)
    requires 0 <= ratio < S
    ensures ratio >= 2 <==> KeepsStable(ratio)
  {
    if ratio >= 2 {
      forall p: Prices, b: Block | Stable(p) && b.a >= 10 * S && b.minRatio == ratio
        ensures Stable(Step(p, b))
      {
        StepKeepsStable(p, b);
      }
    } else {
      var p, b := FactorVanishes(ratio);
    }
  }
}
