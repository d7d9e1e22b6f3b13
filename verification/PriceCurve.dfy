/** The shape of the price adjustment curve: it follows the logarithm of the odds of the usage. */
module PriceCurve {
  import opened FixedPoint
  import opened PriceAdjustment
  import opened FeePrices

  // ----- steps between neighbouring points -----

  /** Between x = n / d > 1 and its logarithm stand 3 (x^2 - 1) / (x^2 + 4 x + 1) from below and
      (x - 1) (x + 5) / (4 x + 2) from above. A step between the same two is as close to it. */
  ghost predicate LogStep(step: int, n: int, d: int) {
    && 3 * S * (n * n - d * d) <= step * (n * n + 4 * n * d + d * d)
    && step * (d * (4 * n + 2 * d)) <= S * ((n - d) * (n + 5 * d))
  }

  /** From i percent to i + 1 percent, the odds grow from i / (100 - i) to (i + 1) / (99 - i). */
  ghost predicate FollowsOdds(step: int, i: int) { LogStep(step, (i + 1) * (100 - i), i * (99 - i)) }

  function Step(r: nat, u: nat): int
    requires r < 10 && u < 10
  {
    if u < 9 then Point(r, u + 1) - Point(r, u) else Point(r + 1, 0) - Point(r, 9)
  }

  ghost function Rise(points: seq<int>, i: nat): int
    requires i + 1 < |points|
  {
    points[i + 1] - points[i]
  }

  lemma StepAt(i: nat, r: nat, u: nat)
    requires i == 10 * r + u && i < 100 && u < 10
    ensures Rise(Points(), i) == Step(r, u)
  {
    PointAt(r, u);
    if u < 9 { PointAt(r, u + 1); } else { PointAt(r + 1, 0); }
  }

  lemma Column0(r: nat)
    requires r < 10
    ensures r > 0 ==> FollowsOdds(Step(r, 0), 10 * r)
  {}

  lemma Column1(r: nat)
    requires r < 10
    ensures FollowsOdds(Step(r, 1), 10 * r + 1)
  {}

  lemma Column2(r: nat)
    requires r < 10
    ensures FollowsOdds(Step(r, 2), 10 * r + 2)
  {}

  lemma Column3(r: nat)
    requires r < 10
    ensures FollowsOdds(Step(r, 3), 10 * r + 3)
  {}

  lemma Column4(r: nat)
    requires r < 10
    ensures FollowsOdds(Step(r, 4), 10 * r + 4)
  {}

  lemma Column5(r: nat)
    requires r < 10
    ensures FollowsOdds(Step(r, 5), 10 * r + 5)
  {}

  lemma Column6(r: nat)
    requires r < 10
    ensures FollowsOdds(Step(r, 6), 10 * r + 6)
  {}

  lemma Column7(r: nat)
    requires r < 10
    ensures FollowsOdds(Step(r, 7), 10 * r + 7)
  {}

  lemma Column8(r: nat)
    requires r < 10
    ensures FollowsOdds(Step(r, 8), 10 * r + 8)
  {}

  lemma Column9(r: nat)
    requires r < 9
    ensures FollowsOdds(Step(r, 9), 10 * r + 9)
  {}

  lemma ColumnsFollow(r: nat, u: nat)
    requires r < 10 && u < 10 && 0 < 10 * r + u < 99
    ensures FollowsOdds(Step(r, u), 10 * r + u)
  {
    if u == 0 {
      Column0(r);
    } else if u == 1 {
      Column1(r);
    } else if u == 2 {
      Column2(r);
    } else if u == 3 {
      Column3(r);
    } else if u == 4 {
      Column4(r);
    } else if u == 5 {
      Column5(r);
    } else if u == 6 {
      Column6(r);
    } else if u == 7 {
      Column7(r);
    } else if u == 8 {
      Column8(r);
    } else if u == 9 {
      Column9(r);
    }
  }

  lemma StepFollows(i: nat)
    requires 0 < i < 99
    ensures FollowsOdds(Rise(Points(), i), i)
  {
    StepAt(i, i / 10, i % 10);
    ColumnsFollow(i / 10, i % 10);
  }

  // ----- symmetry -----

  /** Opposite numbers, up to the rounding of the table. */
  ghost predicate Opposite(x: int, y: int) { -114688 <= x + y <= 114688 }

  lemma LowRowMirrored(r: nat, u: nat)
    requires r < 5 && 0 < u < 10
    ensures Opposite(Point(r, u), Point(9 - r, 10 - u))
  {
    assert u == 1 || u == 2 || u == 3 || u == 4 || u == 5 || u == 6 || u == 7 || u == 8 || u == 9;
  }

  lemma RowMirrored(r: nat, u: nat)
    requires r < 10 && 0 < u < 10
    ensures Opposite(Point(r, u), Point(9 - r, 10 - u))
  {
    if r < 5 { LowRowMirrored(r, u); } else { LowRowMirrored(9 - r, 10 - u); }
  }

  lemma SeamMirrored(r: nat)
    requires r <= 10
    ensures Opposite(Point(r, 0), Point(10 - r, 0))
  {}

  lemma PairMirrored(r: nat, u: nat, s: nat, w: nat)
    requires 10 * r + u <= 100 && u < 10
    requires if u == 0 then s == 10 - r && w == 0 else s == 9 - r && w == 10 - u
    ensures Opposite(Point(r, u), Point(s, w))
  {
    if u == 0 { SeamMirrored(r); } else { RowMirrored(r, u); }
  }

  lemma PointIs(i: nat, r: nat, u: nat)
    requires i == 10 * r + u && i <= 100 && u < 10
    ensures Points()[i] == Point(r, u)
  {
    PointAt(r, u);
  }

  lemma PointsMirrored(i: nat)
    requires i <= 100
    ensures Opposite(Points()[i], Points()[100 - i])
  {
    var j := 100 - i;
    PointIs(i, i / 10, i % 10);
    PointIs(j, j / 10, j % 10);
    PairMirrored(i / 10, i % 10, j / 10, j % 10);
  }

  // ----- steeper towards a full block -----

  lemma RowSteeper(r: nat, u: nat)
    requires 5 <= r < 10 && u < 9 && 10 * r + u < 98
    ensures Step(r, u) < Step(r, u + 1)
  {
    assert u == 0 || u == 1 || u == 2 || u == 3 || u == 4 || u == 5 || u == 6 || u == 7 || u == 8;
  }

  lemma SeamSteeper(r: nat)
    requires 5 <= r < 9
    ensures Step(r, 9) < Step(r + 1, 0)
  {}

  lemma StepSteeper(r: nat, u: nat)
    requires r < 10 && u < 10 && 50 <= 10 * r + u < 98
    ensures Step(r, u) < if u < 9 then Step(r, u + 1) else Step(r + 1, 0)
  {
    if u < 9 { RowSteeper(r, u); } else { SeamSteeper(r); }
  }

  lemma PointSteeper(i: nat, r: nat, u: nat)
    requires i == 10 * r + u && u < 10 && 50 <= i < 98
    ensures Rise(Points(), i) < Rise(Points(), i + 1)
  {
    StepAt(i, r, u);
    if u < 9 { StepAt(i + 1, r, u + 1); } else { StepAt(i + 1, r + 1, 0); }
    StepSteeper(r, u);
  }

  lemma PointsSteeper(i: nat)
    requires 50 <= i < 98
    ensures Rise(Points(), i) < Rise(Points(), i + 1)
  {
    PointSteeper(i, i / 10, i % 10);
  }

  // ----- the curve -----

  /** Zero in the middle, level at both ends, opposite at opposite usages, steeper and steeper, and
      everywhere as far apart as the logarithms of the odds. */
  ghost predicate LogOdds(points: seq<int>) {
    && |points| == 101
    && points[0] == points[1] && points[50] == 0 && points[99] == points[100]
    && (forall i :: 0 < i < 99 ==> FollowsOdds(Rise(points, i), i))
    && (forall i {:trigger points[i]} :: 0 <= i <= 100 ==> Opposite(points[i], points[100 - i]))
    && (forall i {:trigger Rise(points, i)} :: 50 <= i < 98 ==> Rise(points, i) < Rise(points, i + 1))
  }

  lemma PointsAreLogOdds()
    ensures LogOdds(Points())
  {
    Ends();
    forall i | 0 < i < 99 ensures FollowsOdds(Rise(Points(), i), i) { StepFollows(i); }
    forall i | 0 <= i <= 100 ensures Opposite(Points()[i], Points()[100 - i]) { PointsMirrored(i); }
    forall i | 50 <= i < 98 ensures Rise(Points(), i) < Rise(Points(), i + 1) { PointsSteeper(i); }
  }

  lemma Ends()
    ensures Points()[0] == Points()[1] && Points()[50] == 0 && Points()[99] == Points()[100]
  {
    PointAt(0, 0);
    PointAt(0, 1);
    PointAt(5, 0);
    PointAt(9, 9);
    PointAt(10, 0);
  }

  // ----- what that means for prices -----

  /** A usage of k percent, less at most 16 units. */
  function Percent(k: nat): (usage: Fixed)
    requires k <= 100
    ensures 100 * usage <= k * S <= 100 * usage + 1600
  {
    MulMono(k, 100, POINT_LEN);
    k * POINT_LEN
  }

  lemma AtPercent(k: nat, a: Fixed)
    requires k < 100
    ensures Adjustment(Percent(k), a) == Div(Points()[k], a)
  {
    PointsFormCurve();
    InterpolateAtPoint(Points(), k);
  }

  /** A half-full block leaves the overall price as it is. */
  lemma HalfFullKeeps(overall: Fixed, a: Fixed)
    requires MIN_COST <= overall && a != 0
    ensures Adjustment(Percent(50), a) == 0
    ensures NewOverall(overall, Multiplier(Percent(50), a)) == overall
  {
    Ends();
    AtPercent(50, a);
    DivSigned(0, a);
    MulNonNegative(overall, ONE);
  }

  const HALF: Fixed := 0x8000_0000_0000_0000

  /** At exactly one half the rounded points leave an adjustment of at most 32 units. */
  lemma HalfNearlyKeeps(a: Fixed)
    requires a >= ONE
    ensures 0 <= Adjustment(HALF, a) <= 32 && 2 * HALF == S
  {
    var x := Interpolate(Points(), HALF);
    assert x == 32 by { HalfHeight(); }
    DivIsAway(x, a);
  }

  lemma HalfHeight()
    ensures Interpolate(Points(), HALF) == 32
  {
    assert Points()[50] == 0 && Points()[51] == 737968169202024192 by {
      PointAt(5, 0);
      PointAt(5, 1);
    }
    HalfAlong(Points());
  }

  lemma HalfBucket()
    ensures Bucket(HALF) == 50 && HALF - 50 * POINT_LEN == 8
  {
    FloorGreatest(HALF, POINT_LEN, 50);
    FloorGreatest(HALF, POINT_LEN, 51);
  }

  lemma EightOverPoint()
    ensures CeilDiv(Shl(8), POINT_LEN) == 801
  {
    CeilLeast(Shl(8), POINT_LEN, 801);
    CeilLeast(Shl(8), POINT_LEN, 800);
  }

  lemma HalfFraction()
    ensures Bucket(HALF) == 50 && Fraction(HALF) == 801
  {
    HalfBucket();
    EightOverPoint();
    UnsignedQuotient(8, POINT_LEN);
    assert Fraction(HALF) == FromU128Div(8, POINT_LEN);
  }

  lemma HalfProducts()
    ensures Mul(0, Sub(ONE, 801)) == 0 && Mul(737968169202024192, 801) == 32 && Add(0, 32) == 32
  {}

  lemma HalfAlong(points: seq<Fixed>)
    requires |points| == 101 && points[50] == 0 && points[51] == 737968169202024192
    ensures Interpolate(points, HALF) == 32
  {
    HalfFraction();
    HalfProducts();
  }

  lemma AwayOdd(y: int, a: int)
    requires a > 0
    ensures Away(-y, a) == -Away(y, a)
  {
    CeilLeast(0, a, 0);
  }

  lemma AwayOpposite(x: int, y: int, a: int)
    requires Opposite(x, y) && a >= S
    ensures Opposite(Away(x, a), Away(y, a))
  {
    var u, v, w := Away(x, a), Away(y, a), Away(-y, a);
    assert w == -v by { AwayOdd(y, a); }
    assert u <= w + 114688 by { AwayNear(x, -y, a); }
    assert w <= u + 114688 by { AwayNear(-y, x, a); }
  }

  lemma AwayNear(x: int, z: int, a: int)
    requires x <= z + 114688 && a >= S
    ensures Away(x, a) <= Away(z, a) + 114688
  {
    AwayShift(z, 114688, a);
    AwayMono(x, z + 114688, a);
  }

  lemma {:induction false} AwayShift(z: int, k: nat, a: int)
    requires a >= S
    ensures Away(z + k, a) <= Away(z, a) + k
  {
    if k > 0 {
      AwayShift(z, k - 1, a);
      AwayStep(z + k, z + k - 1, a);
    }
  }

  lemma SymmetricCurve(points: seq<Fixed>, k: nat, a: Fixed)
    requires Curve(points) && LogOdds(points) && 0 < k < 100 && a >= ONE
    ensures Opposite(Div(Interpolate(points, Percent(k)), a), Div(Interpolate(points, Percent(100 - k)), a))
  {
    var x, y := points[k], points[100 - k];
    assert x == Interpolate(points, Percent(k)) by { InterpolateAtPoint(points, k); }
    assert y == Interpolate(points, Percent(100 - k)) by { InterpolateAtPoint(points, 100 - k); }
    DivIsAway(x, a);
    DivIsAway(y, a);
    AwayOpposite(x, y, a);
  }

  /** Prices fall below half usage as they rise above it. */
  lemma AdjustmentSymmetric(k: nat, a: Fixed)
    requires 0 < k < 100 && a >= ONE
    ensures Opposite(Adjustment(Percent(k), a), Adjustment(Percent(100 - k), a))
  {
    PointsAreLogOdds();
    PointsFormCurve();
    SymmetricCurve(Points(), k, a);
  }
}
