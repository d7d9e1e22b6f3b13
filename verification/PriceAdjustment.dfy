/** The per-block price adjustment: a piecewise-linear function of block usage through 101
points, divided by the parameter `a`. */
module PriceAdjustment {
  import opened FixedPoint

  /** The adjustment at usages r/10, r/10 + 0.01, ..., before division by `a`. */
  function Row(r: nat): (row: seq<Fixed>)
    requires r <= 10
    ensures |row| == if r < 10 then 10 else 1
  {
    match r
    case 0 => [
      -84764999863455367168, -84764999863455367168, -71791413020114739200, -64122702906348363776,
      -58624745660900909056, -54315312289337933824, -50756867729459126272, -47715996328766365696,
      -45053350700638961664, -42679031418590216192]
    case 1 => [
      -40531639450585882624, -38567365939524018176, -36753849332779208704, -35066499762404089856,
      -33486189434148528128, -31997741738730885120, -30588908944945000448, -29249660330515177472,
      -27971674063185141760, -26747966611833823232]
    case 2 => [
      -25572617290405310464, -24440560042528645120, -23347423671542177792, -22289407577085239296,
      -21263183918842343424, -20265819725292941312, -19294714246602784768, -18347548093616457728,
      -17422241585731162112, -16516920363702972416]
    case 3 => [
      -15629886784764432384, -14759595957603760128, -13904635528415858688, -13063708520358164480,
      -12235618674138603520, -11419257849061355520, -10613595130224742400, -9817667354921738240,
      -9030570824192866304, -8251454007294845952]
    case 4 => [
      -7479511080090284032, -6713976164925600768, -5954118160879564800, -5199236070424976384,
      -4448654742390539264, -3701720962283612672, -2957799830037197824, -2216271372462491904,
      -1476527343420476672, -737968169202023424]
    case 5 => [
      0, 737968169202024192, 1476527343420477440, 2216271372462496512,
      2957799830037204480, 3701720962283612672, 4448654742390539264, 5199236070424971264,
      5954118160879561728, 6713976164925597696]
    case 6 => [
      7479511080090281984, 8251454007294848000, 9030570824192860160, 9817667354921742336,
      10613595130224742400, 11419257849061359616, 12235618674138605568, 13063708520358168576,
      13904635528415862784, 14759595957603747840]
    case 7 => [
      15629886784764430336, 16516920363702964224, 17422241585731166208, 18347548093616463872,
      19294714246602788864, 20265819725292945408, 21263183918842335232, 22289407577085243392,
      23347423671542181888, 24440560042528653312]
    case 8 => [
      25572617290405310464, 26747966611833827328, 27971674063185145856, 29249660330515173376,
      30588908944945000448, 31997741738730881024, 33486189434148524032, 35066499762404098048,
      36753849332779192320, 38567365939524001792]
    case 9 => [
      40531639450585874432, 42679031418590240768, 45053350700638978048, 47715996328766390272,
      50756867729459134464, 54315312289337958400, 58624745660900876288, 64122702906348298240,
      71791413020114722816, 84764999863455252480]
    case _ => [84764999863455252480]
  }

  function Point(r: nat, u: nat): Fixed
    requires (r < 10 && u < 10) || (r == 10 && u == 0)
  {
    Row(r)[u]
  }

  function Points(): (points: seq<Fixed>)
    ensures |points| == 101
  {
    seq(101, i requires 0 <= i < 101 => Point(i / 10, i % 10))
  }

  /** Distance between two points. */
  const POINT_LEN: int := ONE / 100

  /** Which line segment a usage falls on. */
  function Bucket(usage: int): (k: nat)
    ensures k <= 99
  {
    var truncated := if usage < 0 then -(-usage / POINT_LEN) else usage / POINT_LEN;
    Max(0, Min(99, truncated))
  }

  /** How far along its segment a usage is. */
  function Fraction(usage: Fixed): Fixed {
    FromU128Div(Max(0, usage - Bucket(usage) * POINT_LEN), POINT_LEN)
  }

  function Interpolate(points: seq<Fixed>, usage: Fixed): Fixed
    requires |points| == 101
  {
    var k := Bucket(usage);
    var frac := Fraction(usage);
    Add(Mul(points[k], Sub(ONE, frac)), Mul(points[k + 1], frac))
  }

  function Adjustment(usage: Fixed, a: Fixed): Fixed {
    Div(Interpolate(Points(), usage), a)
  }

  // ----- interpolation through any rising curve that is flat on its last segment -----

  ghost predicate Curve(points: seq<Fixed>) {
    && |points| == 101
    && (forall i, j :: 0 <= i <= j <= 100 ==> points[i] <= points[j])
    && points[99] == points[100]
    && -5 * S < points[0] <= 0 <= points[100]
    && 5 * points[100] <= 23 * S
  }

  /** Beyond this usage, 2^54 full blocks, the products above no longer fit. */
  const MAX_USAGE: int := 0x40_0000_0000_0000_0000_0000_0000_0000

  /** The exact value of the fraction. */
  ghost function Along(usage: int): nat {
    CeilDiv(Shl(Max(0, usage - Bucket(usage) * POINT_LEN)), POINT_LEN)
  }

  lemma FractionIsExact(usage: Fixed)
    requires usage <= MAX_USAGE
    ensures Fraction(usage) == Along(usage) <= 101 * MAX_USAGE
    ensures Bucket(usage) < 99 ==> Along(usage) <= S
  {
    var e := Max(0, usage - Bucket(usage) * POINT_LEN);
    CeilLeast(Shl(e), POINT_LEN, 101 * MAX_USAGE);
    CeilLeast(Shl(e), POINT_LEN, S);
  }

  lemma FractionMono(u: int, v: int)
    requires u <= v && Bucket(u) == Bucket(v)
    ensures Along(u) <= Along(v)
  {
    var k := Bucket(u);
    CeilMono(Shl(Max(0, u - k * POINT_LEN)), Shl(Max(0, v - k * POINT_LEN)), POINT_LEN);
  }

  /** 2^64 times the exact point on segment k, and on the curve. */
  ghost function HeightAt(points: seq<Fixed>, k: nat, f: nat): int
    requires |points| == 101 && k <= 99
  {
    points[k] * (S - f) + points[k + 1] * f
  }

  ghost function Height(points: seq<Fixed>, usage: int): int
    requires |points| == 101
  {
    HeightAt(points, Bucket(usage), Along(usage))
  }

  lemma Between(b: int, c: int, f: nat)
    requires b <= c && (f <= S || b == c)
    ensures Shl(b) <= b * (S - f) + c * f <= Shl(c)
  {
    MulMono(0, c - b, f);
    if f <= S { MulMono(f, S, c - b); }
  }

  lemma ProductsFit(b: int, c: int, f: nat, inner: bool)
    requires -5 * S < b <= c && 5 * c <= 23 * S && f <= 101 * MAX_USAGE
    requires if inner then f <= S else b == c && c >= 0
    ensures MIN <= Shr(b * (S - f)) <= 5 * S
    ensures -5 * S <= Shr(c * f) <= MAX
  {
    if inner {
      MulMono(-5 * S, b, S - f);
      MulMono(b, 5 * S, S - f);
      MulMono(-5 * S, c, f);
      MulMono(c, 5 * S, f);
    } else {
      MulMono(5 * c, 23 * S, f);
      MulMono(f, 101 * MAX_USAGE, 5 * c);
    }
  }

  lemma SegmentRounds(b: Fixed, c: Fixed, f: Fixed, inner: bool)
    requires -5 * S < b <= c && 5 * c <= 23 * S && 0 <= f <= 101 * MAX_USAGE
    requires if inner then f <= S else b == c && c >= 0
    ensures var h := Shr(b * (S - f) + c * f);
            h - 1 <= Add(Mul(b, Sub(ONE, f)), Mul(c, f)) <= h
  {
    var x, y := b * (S - f), c * f;
    assert MIN <= Shr(x) <= 5 * S && -5 * S <= Shr(y) <= MAX by { ProductsFit(b, c, f, inner); }
    assert Mul(b, S - f) == Shr(x) by { MulFits(b, S - f); }
    assert Mul(c, f) == Shr(y) by { MulFits(c, f); }
    assert Sub(ONE, f) == S - f;
    Between(b, c, f);
    FloorSum(x, y);
  }

  /** The computed point is the exact one rounded down, or one unit less. */
  lemma InterpolateRounds(points: seq<Fixed>, usage: Fixed)
    requires Curve(points) && usage <= MAX_USAGE
    ensures Shr(Height(points, usage)) - 1 <= Interpolate(points, usage) <= Shr(Height(points, usage))
  {
    var k := Bucket(usage);
    FractionIsExact(usage);
    assert points[0] <= points[k] <= points[k + 1] <= points[100];
    SegmentRounds(points[k], points[k + 1], Along(usage), k < 99);
  }

  lemma SegmentRises(b: int, c: int, f: nat, g: nat)
    requires b <= c && f <= g
    ensures b * (S - f) + c * f <= b * (S - g) + c * g
  {
    MulMono(f, g, c - b);
    assert (c - b) * f == c * f - b * f && (c - b) * g == c * g - b * g;
  }

  lemma HeightAtMono(points: seq<Fixed>, k: nat, f: nat, l: nat, g: nat)
    requires Curve(points) && k <= l <= 99
    requires if k == l then f <= g else f <= S
    ensures HeightAt(points, k, f) <= HeightAt(points, l, g)
  {
    if k == l {
      SegmentRises(points[k], points[k + 1], f, g);
    } else {
      Between(points[k], points[k + 1], f);
      assert points[k + 1] <= points[l];
      SegmentRises(points[l], points[l + 1], 0, g);
    }
  }

  lemma HeightMono(points: seq<Fixed>, u: int, v: int)
    requires Curve(points) && u <= v
    ensures Height(points, u) <= Height(points, v)
  {
    BucketMono(u, v);
    if Bucket(u) == Bucket(v) { FractionMono(u, v); } else { InnerFraction(u); }
    HeightAtMono(points, Bucket(u), Along(u), Bucket(v), Along(v));
  }

  lemma BucketMono(u: int, v: int)
    requires u <= v
    ensures Bucket(u) <= Bucket(v)
  {
    if u >= 0 { FloorMono(u, v, POINT_LEN); } else { FloorGreatest(-u, POINT_LEN, 0); }
  }

  lemma InnerFraction(u: int)
    requires Bucket(u) < 99
    ensures Along(u) <= S
  {
    CeilLeast(Shl(Max(0, u - Bucket(u) * POINT_LEN)), POINT_LEN, S);
  }

  lemma HeightBounds(points: seq<Fixed>, u: int)
    requires Curve(points)
    ensures Shl(points[0]) <= Height(points, u) <= Shl(points[100])
  {
    var k := Bucket(u);
    if k < 99 { InnerFraction(u); }
    Between(points[k], points[k + 1], Along(u));
    assert points[0] <= points[k] && points[k + 1] <= points[100];
  }

  /** Computed points rise with usage, up to one unit. */
  lemma InterpolateMono(points: seq<Fixed>, u: Fixed, v: Fixed)
    requires Curve(points) && u <= v <= MAX_USAGE
    ensures Interpolate(points, u) <= Interpolate(points, v) + 1
  {
    InterpolateRounds(points, u);
    InterpolateRounds(points, v);
    HeightMono(points, u, v);
  }

  lemma InterpolateBounds(points: seq<Fixed>, u: Fixed)
    requires Curve(points) && u <= MAX_USAGE
    ensures points[0] - 1 <= Interpolate(points, u) <= points[100]
  {
    InterpolateRounds(points, u);
    HeightBounds(points, u);
  }

  /** The curve passes through its points. */
  lemma InterpolateAtPoint(points: seq<Fixed>, k: nat)
    requires Curve(points) && k < 100
    ensures Interpolate(points, k * POINT_LEN) == points[k]
  {
    var u := k * POINT_LEN;
    assert Bucket(u) == k && Fraction(u) == 0 by { AtPoint(k); }
    assert Mul(points[k], ONE) == points[k];
    assert Mul(points[k + 1], 0) == 0;
  }

  lemma AtPoint(k: nat)
    requires k < 100
    ensures Bucket(k * POINT_LEN) == k && Fraction(k * POINT_LEN) == 0
  {
    FloorGreatest(k * POINT_LEN, POINT_LEN, k);
    FloorGreatest(k * POINT_LEN, POINT_LEN, k + 1);
    CeilLeast(0, POINT_LEN, 0);
  }

  // ----- division by a parameter of at least one -----

  /** x / a rounded away from zero. */
  ghost function Away(x: int, a: int): int
    requires a > 0
  {
    var c: int := CeilDiv(Shl(Abs(x)), a);
    if x >= 0 then c else -c
  }

  lemma DivIsAway(x: Fixed, a: Fixed)
    requires x != MIN && a >= ONE
    ensures Div(x, a) == Away(x, a)
    ensures Abs(Away(x, a)) <= Abs(x)
  {
    CeilLeast(Shl(Abs(x)), a, Abs(x));
    MulMono(S, a, Abs(x));
    DivFits(x, a);
  }

  lemma CeilStep(x: nat, y: nat, a: int)
    requires x <= y + 1 && a >= S
    ensures CeilDiv(Shl(x), a) <= CeilDiv(Shl(y), a) + 1
  {
    var c := CeilDiv(Shl(y), a);
    CeilBounds(Shl(y), a);
    assert (c + 1) * a == c * a + a;
    CeilLeast(Shl(x), a, c + 1);
  }

  lemma AwayStep(x: int, y: int, a: int)
    requires x <= y + 1 && a >= S
    ensures Away(x, a) <= Away(y, a) + 1
  {
    CeilLeast(0, a, 0);
    if y >= 0 {
      if x >= 0 { CeilStep(x, y, a); }
    } else {
      CeilStep(-y, if x >= 0 then 0 else -x, a);
    }
  }

  lemma AwayMono(x: int, y: int, a: int)
    requires x <= y && a > 0
    ensures Away(x, a) <= Away(y, a)
  {
    if x >= 0 { CeilMono(Shl(x), Shl(y), a); } else if y < 0 { CeilMono(Shl(-y), Shl(-x), a); }
  }

  // ----- the concrete table is a valid one -----

  lemma RowSorted(r: nat, u: nat)
    requires r < 10 && u < 9
    ensures Point(r, u) <= Point(r, u + 1)
  {
    assert u == 0 || u == 1 || u == 2 || u == 3 || u == 4 || u == 5 || u == 6 || u == 7 || u == 8;
  }

  lemma SeamSorted(r: nat)
    requires r < 10
    ensures Point(r, 9) <= Point(r + 1, 0)
  {}

  lemma PointAt(r: nat, u: nat)
    requires (r < 10 && u < 10) || (r == 10 && u == 0)
    ensures Points()[10 * r + u] == Point(r, u)
  {
    assert (10 * r + u) / 10 == r && (10 * r + u) % 10 == u;
  }

  lemma StepSorted(i: nat)
    requires i < 100
    ensures Points()[i] <= Points()[i + 1]
  {
    var r, u := i / 10, i % 10;
    PointAt(r, u);
    if u < 9 {
      PointAt(r, u + 1);
      RowSorted(r, u);
    } else {
      PointAt(r + 1, 0);
      SeamSorted(r);
    }
  }

  lemma {:induction false} PointsSorted(i: nat, j: nat)
    requires i <= j <= 100
    ensures Points()[i] <= Points()[j]
  {
    if i < j {
      PointsSorted(i, j - 1);
      StepSorted(j - 1);
    }
  }

  lemma PointsFormCurve()
    ensures Curve(Points())
    ensures Points()[0] == -84764999863455367168 && Points()[100] == 84764999863455252480
  {
    PointAt(0, 0);
    PointAt(9, 9);
    PointAt(10, 0);
    forall i, j | 0 <= i <= j <= 100 ensures Points()[i] <= Points()[j] {
      PointsSorted(i, j);
    }
  }

  // ----- the adjustment itself -----

  lemma AdjustmentMonotone(u: Fixed, v: Fixed, a: Fixed)
    requires u <= v <= MAX_USAGE && a >= ONE
    ensures Adjustment(u, a) <= Adjustment(v, a) + 1
  {
    var points := Points();
    PointsFormCurve();
    InterpolateBounds(points, u);
    InterpolateBounds(points, v);
    InterpolateMono(points, u, v);
    var x, y := Interpolate(points, u), Interpolate(points, v);
    DivIsAway(x, a);
    DivIsAway(y, a);
    AwayStep(x, y, a);
  }

  lemma AdjustmentBounds(u: Fixed, a: Fixed)
    requires u <= MAX_USAGE && a >= ONE
    ensures Div(Points()[0] - 1, a) <= Adjustment(u, a) <= Div(Points()[100], a)
  {
    var points := Points();
    PointsFormCurve();
    InterpolateBounds(points, u);
    var x := Interpolate(points, u);
    DivIsAway(x, a);
    DivIsAway(points[0] - 1, a);
    DivIsAway(points[100], a);
    AwayMono(points[0] - 1, x, a);
    AwayMono(x, points[100], a);
  }
}
