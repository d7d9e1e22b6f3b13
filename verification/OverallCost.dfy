/** The price of a transaction's resource usage. */
module OverallCost {
  import opened FixedPoint
  import opened FeePrices

  /** The costs of the five dimensions: read, compute, block usage, write, churn. */
  function Costs(p: Prices, x: NormalizedCost): (c: seq<Fixed>)
    ensures |c| == 5
  {
    [Mul(p.read, x.readTime), Mul(p.compute, x.computeTime), Mul(p.blockUsage, x.blockUsage),
     Mul(p.write, x.bytesWritten), Mul(p.write, x.bytesChurned)]
  }

  /** The dearest kind of utilization, plus writing, plus churning. */
  function Combined(c: seq<Fixed>): Fixed
    requires |c| == 5
  {
    Add(Add(Max(c[0], Max(c[1], c[2])), c[3]), c[4])
  }

  function OverallCost(p: Prices, x: NormalizedCost): Fixed {
    Mul(p.overall, Combined(Costs(p, x)))
  }

  ghost predicate NonNegativePrices(p: Prices) {
    0 <= p.overall && 0 <= p.read && 0 <= p.compute && 0 <= p.blockUsage && 0 <= p.write
  }

  ghost predicate NonNegative(x: NormalizedCost) {
    0 <= x.readTime && 0 <= x.computeTime && 0 <= x.blockUsage && 0 <= x.bytesWritten && 0 <= x.bytesChurned
  }

  ghost predicate AtMost(x: NormalizedCost, y: NormalizedCost) {
    && x.readTime <= y.readTime && x.computeTime <= y.computeTime && x.blockUsage <= y.blockUsage
    && x.bytesWritten <= y.bytesWritten && x.bytesChurned <= y.bytesChurned
  }

  lemma MulRises(f: Fixed, x: Fixed, y: Fixed)
    requires 0 <= f && 0 <= x <= y
    ensures 0 <= Mul(f, x) <= Mul(f, y)
  {
    MulNonNegative(f, x);
    MulNonNegative(f, y);
    MulMono(x, y, f);
  }

  /** A saturating product of a sum exceeds the sum of products by at most the slack's own
      product and the rounding. */
  lemma MulOfSum(f: Fixed, x: Fixed, y: Fixed, z: Fixed, k: nat)
    requires 0 <= f && 0 <= x && 0 <= y && 0 <= z <= x + y + k
    ensures Mul(f, z) <= Mul(f, x) + Mul(f, y) + Shr(k * f) + (if k == 0 then 1 else 2)
  {
    MulNonNegative(f, x);
    MulNonNegative(f, y);
    MulNonNegative(f, z);
    MulMono(z, x + y + k, f);
    assert (x + y + k) * f == f * x + f * y + k * f;
    MulMono(0, k, f);
    if k == 0 { FloorSum(f * x, f * y); } else {
      FloorSum(f * x, f * y);
      FloorSum(f * x + f * y, k * f);
    }
  }

  // ----- monotone in every dimension -----

  ghost predicate Below(c: seq<int>, d: seq<int>) {
    |c| == |d| == 5 && forall i :: 0 <= i < 5 ==> 0 <= c[i] <= d[i]
  }

  lemma CostsRise(p: Prices, x: NormalizedCost, y: NormalizedCost)
    requires NonNegativePrices(p) && NonNegative(x) && AtMost(x, y)
    ensures Below(Costs(p, x), Costs(p, y))
  {
    MulRises(p.read, x.readTime, y.readTime);
    MulRises(p.compute, x.computeTime, y.computeTime);
    MulRises(p.blockUsage, x.blockUsage, y.blockUsage);
    MulRises(p.write, x.bytesWritten, y.bytesWritten);
    MulRises(p.write, x.bytesChurned, y.bytesChurned);
  }

  lemma CombinedRises(c: seq<Fixed>, d: seq<Fixed>)
    requires Below(c, d)
    ensures 0 <= Combined(c) <= Combined(d)
  {}

  lemma CostRises(p: Prices, x: NormalizedCost, y: NormalizedCost)
    requires NonNegativePrices(p) && NonNegative(x) && AtMost(x, y)
    ensures 0 <= OverallCost(p, x) <= OverallCost(p, y)
  {
    CostsRise(p, x, y);
    CombinedRises(Costs(p, x), Costs(p, y));
    MulRises(p.overall, Combined(Costs(p, x)), Combined(Costs(p, y)));
  }

  // ----- nearly exact -----

  /** The unrounded cost of the dimensions, in units of 2^-128. */
  ghost function Utilization(p: Prices, x: NormalizedCost): int {
    Max(p.read * x.readTime, Max(p.compute * x.computeTime, p.blockUsage * x.blockUsage))
    + p.write * x.bytesWritten + p.write * x.bytesChurned
  }

  lemma MulFloors(f: Fixed, x: Fixed)
    requires 0 <= f && 0 <= x && f * x <= Shl(MAX)
    ensures Shl(Mul(f, x)) <= f * x < Shl(Mul(f, x)) + S && 0 <= Mul(f, x)
  {
    MulNonNegative(f, x);
  }

  lemma CombinedNearExact(p: Prices, x: NormalizedCost)
    requires NonNegativePrices(p) && NonNegative(x) && Utilization(p, x) <= Shl(MAX)
    ensures var c := Combined(Costs(p, x)); 0 <= c && Shl(c) <= Utilization(p, x) < Shl(c) + 3 * S
  {
    ProductsSigned(p, x);
    MulFloors(p.read, x.readTime);
    MulFloors(p.compute, x.computeTime);
    MulFloors(p.blockUsage, x.blockUsage);
    MulFloors(p.write, x.bytesWritten);
    MulFloors(p.write, x.bytesChurned);
    SumNearExact(Costs(p, x), [p.read * x.readTime, p.compute * x.computeTime, p.blockUsage * x.blockUsage,
      p.write * x.bytesWritten, p.write * x.bytesChurned]);
  }

  lemma SumNearExact(c: seq<Fixed>, e: seq<int>)
    requires |c| == |e| == 5 && forall i :: 0 <= i < 5 ==> 0 <= c[i] && Shl(c[i]) <= e[i] < Shl(c[i]) + S
    requires Max(e[0], Max(e[1], e[2])) + e[3] + e[4] <= Shl(MAX)
    ensures 0 <= Combined(c) && Shl(Combined(c)) <= Max(e[0], Max(e[1], e[2])) + e[3] + e[4] < Shl(Combined(c)) + 3 * S
  {
    var top, exact := Max(c[0], Max(c[1], c[2])), Max(e[0], Max(e[1], e[2]));
    assert 0 <= top && Shl(top) <= exact < Shl(top) + S;
    assert Shl(top + c[3] + c[4]) <= Shl(MAX);
    assert Combined(c) == top + c[3] + c[4];
  }

  lemma ProductsSigned(p: Prices, x: NormalizedCost)
    requires NonNegativePrices(p) && NonNegative(x)
    ensures 0 <= p.read * x.readTime && 0 <= p.compute * x.computeTime && 0 <= p.blockUsage * x.blockUsage
    ensures 0 <= p.write * x.bytesWritten && 0 <= p.write * x.bytesChurned
  {
    MulMono(0, p.read, x.readTime);
    MulMono(0, p.compute, x.computeTime);
    MulMono(0, p.blockUsage, x.blockUsage);
    MulMono(0, p.write, x.bytesWritten);
    MulMono(0, p.write, x.bytesChurned);
  }

  /** Where nothing saturates, the cost is the exact product of price and utilization, less at
      most one unit and three units at the overall price. */
  lemma CostNearExact(p: Prices, x: NormalizedCost)
    requires NonNegativePrices(p) && NonNegative(x) && Utilization(p, x) <= Shl(MAX)
    requires p.overall * Combined(Costs(p, x)) <= Shl(MAX)
    ensures var exact, cost := p.overall * Utilization(p, x), OverallCost(p, x);
            Shl(Shl(cost)) <= exact <= Shl(Shl(cost)) + Shl(S) + Shl(3 * p.overall)
  {
    var c := Combined(Costs(p, x));
    CombinedNearExact(p, x);
    MulFloors(p.overall, c);
    ProductNearExact(p.overall, c, Utilization(p, x), OverallCost(p, x));
  }

  lemma ProductNearExact(f: nat, c: int, u: int, cost: int)
    requires Shl(c) <= u < Shl(c) + 3 * S && Shl(cost) <= f * c < Shl(cost) + S
    ensures Shl(Shl(cost)) <= f * u <= Shl(Shl(cost)) + Shl(S) + Shl(3 * f)
  {
    MulMono(Shl(c), u, f);
    MulMono(u, Shl(c) + 3 * S, f);
    var fc := f * c;
    assert f * Shl(c) == Shl(fc) && f * (Shl(c) + 3 * S) == Shl(fc) + Shl(3 * f) by { ShlTimes(f, c); }
  }

  lemma ShlTimes(f: int, c: int)
    ensures f * Shl(c) == Shl(f * c) && f * (Shl(c) + 3 * S) == Shl(f * c) + Shl(3 * f)
  {}

  // ----- nearly subadditive -----

  ghost predicate AtMostSum(e: seq<int>, c: seq<int>, d: seq<int>) {
    && |e| == |c| == |d| == 5
    && forall i :: 0 <= i < 5 ==> 0 <= e[i] <= c[i] + d[i] + 1 && 0 <= c[i] && 0 <= d[i]
  }

  /** In no dimension more than two costs together. */
  ghost predicate Together(z: NormalizedCost, x: NormalizedCost, y: NormalizedCost) {
    && 0 <= z.readTime <= x.readTime + y.readTime && 0 <= z.computeTime <= x.computeTime + y.computeTime
    && 0 <= z.blockUsage <= x.blockUsage + y.blockUsage && 0 <= z.bytesWritten <= x.bytesWritten + y.bytesWritten
    && 0 <= z.bytesChurned <= x.bytesChurned + y.bytesChurned
  }

  lemma CostsOfSum(p: Prices, x: NormalizedCost, y: NormalizedCost, z: NormalizedCost)
    requires NonNegativePrices(p) && NonNegative(x) && NonNegative(y) && Together(z, x, y)
    ensures AtMostSum(Costs(p, z), Costs(p, x), Costs(p, y))
  {
    CostOfSum(p.read, x.readTime, y.readTime, z.readTime);
    CostOfSum(p.compute, x.computeTime, y.computeTime, z.computeTime);
    CostOfSum(p.blockUsage, x.blockUsage, y.blockUsage, z.blockUsage);
    CostOfSum(p.write, x.bytesWritten, y.bytesWritten, z.bytesWritten);
    CostOfSum(p.write, x.bytesChurned, y.bytesChurned, z.bytesChurned);
  }

  lemma CostOfSum(f: Fixed, x: Fixed, y: Fixed, z: Fixed)
    requires 0 <= f && 0 <= x && 0 <= y && 0 <= z <= x + y
    ensures 0 <= Mul(f, z) <= Mul(f, x) + Mul(f, y) + 1
    ensures 0 <= Mul(f, x) && 0 <= Mul(f, y)
  {
    MulOfSum(f, x, y, z, 0);
    MulNonNegative(f, x);
    MulNonNegative(f, y);
    MulNonNegative(f, z);
  }

  lemma AddOfSum(x: Fixed, y: Fixed, u: Fixed, v: Fixed, s: Fixed, t: Fixed, k: nat)
    requires 0 <= x <= u + s + k && 0 <= y <= v + t + 1 && 0 <= u && 0 <= v && 0 <= s && 0 <= t
    ensures 0 <= Add(x, y) <= Add(u, v) + Add(s, t) + k + 1
    ensures 0 <= Add(u, v) && 0 <= Add(s, t)
  {}

  ghost function Top(c: seq<Fixed>): Fixed requires |c| == 5 { Max(c[0], Max(c[1], c[2])) }

  lemma TopOfSum(e: seq<Fixed>, c: seq<Fixed>, d: seq<Fixed>)
    requires AtMostSum(e, c, d)
    ensures 0 <= Top(e) <= Top(c) + Top(d) + 1 && 0 <= Top(c) && 0 <= Top(d)
  {}

  lemma CombinedOfSum(e: seq<Fixed>, c: seq<Fixed>, d: seq<Fixed>)
    requires AtMostSum(e, c, d)
    ensures 0 <= Combined(e) <= Combined(c) + Combined(d) + 3
    ensures 0 <= Combined(c) && 0 <= Combined(d)
  {
    TopOfSum(e, c, d);
    AddOfSum(Top(e), e[3], Top(c), c[3], Top(d), d[3], 1);
    AddOfSum(Add(Top(e), e[3]), e[4], Add(Top(c), c[3]), c[4], Add(Top(d), d[3]), d[4], 2);
  }

  /** Charging two costs together is never dearer than apart by more than three units at the
      overall price, even where products saturate. */
  lemma NearlySubadditive(p: Prices, x: NormalizedCost, y: NormalizedCost, z: NormalizedCost)
    requires NonNegativePrices(p) && NonNegative(x) && NonNegative(y) && Together(z, x, y)
    ensures OverallCost(p, z) <= OverallCost(p, x) + OverallCost(p, y) + Shr(3 * p.overall) + 2
  {
    var e, c, d := Costs(p, z), Costs(p, x), Costs(p, y);
    CostsOfSum(p, x, y, z);
    CombinedOfSum(e, c, d);
    MulOfSum(p.overall, Combined(c), Combined(d), Combined(e), 3);
  }
}
