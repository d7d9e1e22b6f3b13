/** The fee prices and their block-by-block update: multiply by the adjustment, lift cheap
dimensions to a ratio of the dearest one, floor the overall price, renormalise to mean one. */
module FeePrices {
  import opened FixedPoint
  import opened PriceAdjustment

  datatype NormalizedCost = NormalizedCost(
    readTime: Fixed, computeTime: Fixed, blockUsage: Fixed, bytesWritten: Fixed, bytesChurned: Fixed)

  datatype Prices = Prices(overall: Fixed, read: Fixed, compute: Fixed, blockUsage: Fixed, write: Fixed)

  /** What one block contributes: its fullness, and the ledger parameters in force. */
  datatype Block = Block(
    detailed: NormalizedCost, overall: Fixed, minRatio: Fixed, a: Fixed, minBlockPrice: Fixed)

  const MIN_COST: Fixed := 100

  function Multiplier(usage: Fixed, a: Fixed): Fixed { Add(Adjustment(usage, a), ONE) }

  /** The usages that drive the four factors, in the order read, compute, block usage, write. */
  function Usages(d: NormalizedCost): (u: seq<Fixed>)
    ensures |u| == 4
  {
    [d.readTime, d.computeTime, d.blockUsage, Max(d.bytesWritten, d.bytesChurned)]
  }

  function Multipliers(b: Block): (m: seq<Fixed>)
    ensures |m| == 4
  {
    seq(4, i requires 0 <= i < 4 => Multiplier(Usages(b.detailed)[i], b.a))
  }

  function Raised(p: Prices, m: seq<Fixed>): (r: seq<Fixed>)
    requires |m| == 4
    ensures |r| == 4
  {
    [Mul(p.read, m[0]), Mul(p.compute, m[1]), Mul(p.blockUsage, m[2]), Mul(p.write, m[3])]
  }

  function Dearest(r: seq<Fixed>): Fixed
    requires r != []
  {
    if |r| == 1 then r[0] else Max(Dearest(r[..|r| - 1]), r[|r| - 1])
  }

  function LiftedTo(r: seq<Fixed>, least: Fixed): (d: seq<Fixed>)
    ensures |d| == |r|
  {
    seq(|r|, i requires 0 <= i < |r| => Max(r[i], least))
  }

  function Lifted(r: seq<Fixed>, minRatio: Fixed): (d: seq<Fixed>)
    requires r != []
  {
    LiftedTo(r, Mul(Dearest(r), minRatio))
  }

  function Total(d: seq<Fixed>): Fixed {
    if d == [] then ZERO else Add(Total(d[..|d| - 1]), d[|d| - 1])
  }

  function Mean(d: seq<Fixed>): Fixed { Div(Total(d), FromU64Div(4, 1)) }

  function DividedBy(d: seq<Fixed>, mean: Fixed): (n: seq<Fixed>)
    ensures |n| == |d|
  {
    seq(|d|, i requires 0 <= i < |d| => Div(d[i], mean))
  }

  function Normalised(d: seq<Fixed>): (n: seq<Fixed>) { DividedBy(d, Mean(d)) }

  function NewFactors(p: Prices, m: seq<Fixed>, minRatio: Fixed): (n: seq<Fixed>)
    requires |m| == 4
    ensures |n| == 4
  {
    Normalised(Lifted(Raised(p, m), minRatio))
  }

  function NewOverall(overall: Fixed, multiplier: Fixed): Fixed {
    Max(Mul(overall, multiplier), MIN_COST)
  }

  function Update(p: Prices, b: Block): Prices {
    var n := NewFactors(p, Multipliers(b), b.minRatio);
    Prices(NewOverall(p.overall, Multiplier(b.overall, b.a)), n[0], n[1], n[2], n[3])
  }

  // ----- the ledger's step around the update -----

  datatype Outcome = Accepted(prices: Prices) | BlockLimitExceeded

  predicate Full(v: Fixed) { ZERO <= v <= ONE }

  predicate WithinLimits(b: Block) {
    && Full(b.detailed.readTime) && Full(b.detailed.computeTime) && Full(b.detailed.blockUsage)
    && Full(b.detailed.bytesWritten) && Full(b.detailed.bytesChurned) && Full(b.overall)
  }

  function PostBlockUpdate(p: Prices, b: Block): Outcome {
    if !WithinLimits(b) then BlockLimitExceeded else
    var u := Update(p, b);
    Accepted(if u.overall < b.minBlockPrice then u.(overall := b.minBlockPrice) else u)
  }

  /** The prices after a block; a rejected block changes nothing. */
  function Step(p: Prices, b: Block): Prices {
    match PostBlockUpdate(p, b)
    case Accepted(next) => next
    case BlockLimitExceeded => p
  }

  /** A block is refused exactly if some fullness is below zero or above one. Otherwise the prices are
      updated, and the overall one is not less than the least block price. */
  lemma AcceptedExactly(p: Prices, b: Block)
    ensures PostBlockUpdate(p, b).Accepted? <==>
            && 0 <= b.detailed.readTime <= S && 0 <= b.detailed.computeTime <= S
            && 0 <= b.detailed.blockUsage <= S && 0 <= b.detailed.bytesWritten <= S
            && 0 <= b.detailed.bytesChurned <= S && 0 <= b.overall <= S
    ensures PostBlockUpdate(p, b).Accepted? <==> WithinLimits(b)
    ensures var u := Update(p, b);
            Step(p, b) == if WithinLimits(b) then u.(overall := Max(u.overall, b.minBlockPrice)) else p
  {}

  /** A run: prices before the first block and after each one. */
  ghost predicate Trace(ps: seq<Prices>, blocks: seq<Block>) {
    && |ps| == |blocks| + 1
    && forall i :: 0 <= i < |blocks| ==> ps[i + 1] == Step(ps[i], blocks[i])
  }

  // ----- the update in place on the four factors -----

  method MostExpensive(dimensions: array<Fixed>) returns (top: Fixed)
    requires dimensions.Length > 0
    ensures top == Dearest(dimensions[..])
  {
    top := dimensions[0];
    for i := 1 to dimensions.Length
      invariant top == Dearest(dimensions[..i])
    {
      assert dimensions[..i + 1][..i] == dimensions[..i];
      top := Max(top, dimensions[i]);
    }
    assert dimensions[..dimensions.Length] == dimensions[..];
  }

  method LiftTo(dimensions: array<Fixed>, least: Fixed)
    modifies dimensions
    ensures dimensions[..] == LiftedTo(old(dimensions[..]), least)
  {
    ghost var r := dimensions[..];
    for i := 0 to dimensions.Length
      invariant dimensions[..i] == LiftedTo(r, least)[..i]
      invariant dimensions[i..] == r[i..]
    {
      assert dimensions[i] == r[i];
      dimensions[i] := Max(dimensions[i], least);
    }
  }

  method Sum(dimensions: array<Fixed>) returns (sum: Fixed)
    ensures sum == Total(dimensions[..])
  {
    sum := ZERO;
    for i := 0 to dimensions.Length
      invariant sum == Total(dimensions[..i])
    {
      assert dimensions[..i + 1][..i] == dimensions[..i];
      sum := Add(sum, dimensions[i]);
    }
    assert dimensions[..dimensions.Length] == dimensions[..];
  }

  method DivideBy(dimensions: array<Fixed>, mean: Fixed)
    modifies dimensions
    ensures dimensions[..] == DividedBy(old(dimensions[..]), mean)
  {
    ghost var d := dimensions[..];
    for i := 0 to dimensions.Length
      invariant dimensions[..i] == DividedBy(d, mean)[..i]
      invariant dimensions[i..] == d[i..]
    {
      assert dimensions[i] == d[i];
      dimensions[i] := Div(dimensions[i], mean);
    }
  }

  method UpdateFactors(p: Prices, m: seq<Fixed>, minRatio: Fixed) returns (n: seq<Fixed>)
    requires |m| == 4
    ensures n == NewFactors(p, m, minRatio)
  {
    var r := Raised(p, m);
    var dimensions := new Fixed[][r[0], r[1], r[2], r[3]];
    assert dimensions[..] == r;
    var top := MostExpensive(dimensions);
    LiftTo(dimensions, Mul(top, minRatio));
    var sum := Sum(dimensions);
    DivideBy(dimensions, Div(sum, FromU64Div(4, 1)));
    n := dimensions[..];
  }

  method UpdateFromFullness(p: Prices, b: Block) returns (updated: Prices)
    ensures updated == Update(p, b)
  {
    var overall := NewOverall(p.overall, Multiplier(b.overall, b.a));
    var n := UpdateFactors(p, Multipliers(b), b.minRatio);
    updated := Prices(overall, n[0], n[1], n[2], n[3]);
  }
}
