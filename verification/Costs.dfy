/** Raw resource costs: block-limit normalisation, duration scaling and running totals. */
module Costs {
  import opened Basics
  import opened FixedPoint
  import opened FeePrices

  type CostDuration = U64

  datatype SyntheticCost = SyntheticCost(
    readTime: CostDuration, computeTime: CostDuration, blockUsage: U64, bytesWritten: U64, bytesChurned: U64)

  datatype RunningCost = RunningCost(
    readTime: CostDuration, computeTime: CostDuration, bytesWritten: U64, bytesDeleted: U64)

  // ----- normalising against block limits -----

  function Quotients(c: SyntheticCost, limits: SyntheticCost): NormalizedCost {
    NormalizedCost(
      FromU64Div(c.readTime, limits.readTime),
      FromU64Div(c.computeTime, limits.computeTime),
      FromU64Div(c.blockUsage, limits.blockUsage),
      FromU64Div(c.bytesWritten, limits.bytesWritten),
      FromU64Div(c.bytesChurned, limits.bytesChurned))
  }

  function Normalize(c: SyntheticCost, limits: SyntheticCost): Option<NormalizedCost> {
    var res := Quotients(c, limits);
    if res.readTime > ONE || res.computeTime > ONE || res.blockUsage > ONE
      || res.bytesWritten > ONE || res.bytesChurned > ONE
    then None else Some(res)
  }

  /** A limit of one wraps around for amounts of 2^63 and more. */
  ghost predicate Wraps(raw: U64, limit: U64) { limit == 1 && raw >= 0x8000_0000_0000_0000 }

  ghost predicate Within(raw: U64, limit: U64) { limit > 0 && (raw <= limit || Wraps(raw, limit)) }

  /** Despite rounding up, the quotient tells exactly whether an amount is within its limit,
      unless it wraps or the limit is zero. */
  lemma QuotientIsExact(raw: U64, limit: U64)
    ensures FromU64Div(raw, limit) <= ONE <==> Within(raw, limit)
    ensures limit > 0 && !Wraps(raw, limit) ==> FromU64Div(raw, limit) == CeilDiv(Shl(raw), limit)
    ensures Wraps(raw, limit) ==> FromU64Div(raw, limit) < 0
  {
    if limit > 0 {
      var c := CeilDiv(Shl(raw), limit);
      CeilBounds(Shl(raw), limit);
      CeilLeast(Shl(raw), limit, S);
      if limit >= 2 {
        CeilLeast(Shl(raw), limit, MAX);
      }
    }
  }

  lemma QuotientIsShare(raw: U64, limit: U64)
    ensures FromU64Div(raw, limit) <= ONE <==> Within(raw, limit)
    ensures FromU64Div(raw, limit) <= ONE ==> Share(FromU64Div(raw, limit), raw, limit)
  {
    QuotientIsExact(raw, limit);
    if limit > 0 { CeilBounds(Shl(raw), limit); }
  }

  ghost predicate AllWithin(c: SyntheticCost, limits: SyntheticCost) {
    && Within(c.readTime, limits.readTime) && Within(c.computeTime, limits.computeTime)
    && Within(c.blockUsage, limits.blockUsage) && Within(c.bytesWritten, limits.bytesWritten)
    && Within(c.bytesChurned, limits.bytesChurned)
  }

  /** The share of the limit, rounded up, unless it wraps. */
  ghost predicate Share(f: Fixed, raw: U64, limit: U64) {
    !Wraps(raw, limit) ==> limit > 0 && Shl(raw) <= f * limit < Shl(raw) + limit
  }

  /** Normalisation rejects exactly the costs that exceed a limit; the one exception is an
      amount of at least 2^63 against a limit of one, which it lets through. */
  lemma NormalizeIsExact(c: SyntheticCost, limits: SyntheticCost)
    ensures Normalize(c, limits).Some? <==> AllWithin(c, limits)
    ensures Normalize(c, limits).Some? ==>
            var n := Normalize(c, limits).value;
            && Share(n.readTime, c.readTime, limits.readTime) && Share(n.computeTime, c.computeTime, limits.computeTime)
            && Share(n.blockUsage, c.blockUsage, limits.blockUsage)
            && Share(n.bytesWritten, c.bytesWritten, limits.bytesWritten)
            && Share(n.bytesChurned, c.bytesChurned, limits.bytesChurned)
  {
    QuotientIsShare(c.readTime, limits.readTime);
    QuotientIsShare(c.computeTime, limits.computeTime);
    QuotientIsShare(c.blockUsage, limits.blockUsage);
    QuotientIsShare(c.bytesWritten, limits.bytesWritten);
    QuotientIsShare(c.bytesChurned, limits.bytesChurned);
  }

  ghost predicate SomeWraps(c: SyntheticCost, limits: SyntheticCost) {
    || Wraps(c.readTime, limits.readTime) || Wraps(c.computeTime, limits.computeTime)
    || Wraps(c.blockUsage, limits.blockUsage) || Wraps(c.bytesWritten, limits.bytesWritten)
    || Wraps(c.bytesChurned, limits.bytesChurned)
  }

  lemma QuotientInRange(raw: U64, limit: U64)
    requires Within(raw, limit)
    ensures 0 <= FromU64Div(raw, limit) <= S <==> !Wraps(raw, limit)
  {
    QuotientIsExact(raw, limit);
  }

  /** A block whose normalised cost is its fullness is accepted, unless its overall fullness is out of
      range or an amount wraps. */
  lemma NormalizedAccepted(c: SyntheticCost, limits: SyntheticCost, p: Prices, b: Block)
    requires Normalize(c, limits) == Some(b.detailed)
    ensures PostBlockUpdate(p, b).Accepted? <==> 0 <= b.overall <= S && !SomeWraps(c, limits)
  {
    NormalizeIsExact(c, limits);
    AcceptedExactly(p, b);
    QuotientInRange(c.readTime, limits.readTime);
    QuotientInRange(c.computeTime, limits.computeTime);
    QuotientInRange(c.blockUsage, limits.blockUsage);
    QuotientInRange(c.bytesWritten, limits.bytesWritten);
    QuotientInRange(c.bytesChurned, limits.bytesChurned);
  }

  // ----- durations times and over durations -----

  function DurationTimes(d: CostDuration, f: Fixed): CostDuration {
    Min(IntoAtomicUnits(Mul(FromU64Div(d, 1), f), 1), U64_MAX)
  }

  function TimesDuration(f: Fixed, d: CostDuration): CostDuration {
    Min(IntoAtomicUnits(Mul(f, FromU64Div(d, 1)), 1), U64_MAX)
  }

  function DurationOver(d: CostDuration, e: CostDuration): Fixed { FromU64Div(d, e) }

  /** The product rounded up; a duration is not negative and has 64 bits. */
  function Scaled(d: CostDuration, f: Fixed): nat {
    if d * f <= 0 then 0 else Min(U64_MAX, CeilDiv(d * f, S))
  }

  /** As a fixed-point number a duration of 2^63 and more is negative. */
  function Signed(d: CostDuration): int { if d < 0x8000_0000_0000_0000 then d else d - S }

  lemma DurationTimesForm(d: CostDuration, f: Fixed)
    ensures var w := Wrap(Min(MAX, Signed(d) * f));
            DurationTimes(d, f) == TimesDuration(f, d) == if w <= 0 then 0 else CeilDiv(w, S)
  {
    var e, x := Signed(d), FromU64Div(d, 1);
    assert x == Shl(e) by { CeilBounds(Shl(d), 1); }
    assert x * f == Shl(e * f) && f * x == Shl(e * f);
    var w := Wrap(Min(MAX, e * f));
    assert Mul(x, f) == w && Mul(f, x) == w;
    if w > 0 { CeilLeast(w, S, 0x8000_0000_0000_0000); }
  }

  /** Scaling is exact, but for durations of 2^63 and more, results above 2^63 and products that
      wrap around below the minimum. */
  lemma DurationScaling(d: CostDuration, f: Fixed)
    ensures DurationTimes(d, f) == TimesDuration(f, d)
    ensures DurationTimes(d, f) == Scaled(d, f) <==>
            || f == 0
            || (d < 0x8000_0000_0000_0000 && if f > 0 then d * f <= TWO_127 else -(d * f) % TWO_128 <= TWO_127)
  {
    DurationTimesForm(d, f);
    if f > 0 {
      ScalingUp(d, f);
    } else if f < 0 {
      ScalingDown(d, f);
    }
  }

  lemma ScalingUp(d: CostDuration, f: Fixed)
    requires f > 0
    ensures DurationTimes(d, f) == Scaled(d, f) <==> d < 0x8000_0000_0000_0000 && d * f <= TWO_127
  {
    DurationTimesForm(d, f);
    MulMono(0, d, f);
    if d < 0x8000_0000_0000_0000 {
      CeilLeast(d * f, S, 0);
      CeilLeast(d * f, S, 0x8000_0000_0000_0000);
      CeilLeast(Min(MAX, d * f), S, 0x7fff_ffff_ffff_ffff);
      CeilLeast(Min(MAX, d * f), S, 0x8000_0000_0000_0000);
    } else {
      ScalingLong(d, f);
    }
  }

  /** A long duration is scaled to less than it should, mostly to nothing. */
  lemma ScalingLong(d: CostDuration, f: Fixed)
    requires f > 0 && d >= 0x8000_0000_0000_0000
    ensures DurationTimes(d, f) < Scaled(d, f)
    ensures (S - d) * f <= TWO_127 ==> DurationTimes(d, f) == 0
  {
    DurationTimesForm(d, f);
    var p: int, q: int := d * f, (S - d) * f;
    assert q > 0 && p > 0 && (q > TWO_127 ==> p > TWO_127) && Signed(d) * f == -q by { LongProduct(d, f); }
    assert Wrap(-q) > 0 ==> q > TWO_127 by { WrapsToPositive(-q); }
    var w := Wrap(-q);
    CeilLeast(p, S, 0);
    if w > 0 {
      CeilLeast(w, S, 0x8000_0000_0000_0000);
      CeilLeast(p, S, 0x8000_0000_0000_0000);
    }
  }

  lemma LongProduct(d: int, f: int)
    requires f > 0 && 0x8000_0000_0000_0000 <= d < S
    ensures (S - d) * f > 0 && d * f > 0 && (d - S) * f == -((S - d) * f)
    ensures (S - d) * f > TWO_127 ==> d * f > TWO_127
  {
    MulMono(1, S - d, f);
    MulMono(S - d, d, f);
  }

  lemma WrapsToPositive(p: int)
    requires p <= 0
    ensures Wrap(p) > 0 <==> -p % TWO_128 > TWO_127
    ensures -p <= TWO_127 ==> Wrap(p) == p
  {
    var q := -p;
    assert q == TWO_128 * (q / TWO_128) + q % TWO_128;
    if q > TWO_127 { WrapFrom(p, -(q / TWO_128), -(q % TWO_128)); }
  }

  lemma WrapFrom(p: int, k: int, r: int)
    requires p == TWO_128 * k + r && !(MIN <= p <= MAX) && -TWO_128 < r <= 0
    ensures Wrap(p) == if r >= MIN then r else r + TWO_128
  {}

  lemma ScalingDown(d: CostDuration, f: Fixed)
    requires f < 0
    ensures DurationTimes(d, f) == Scaled(d, f) <==>
            d < 0x8000_0000_0000_0000 && -(d * f) % TWO_128 <= TWO_127
  {
    DurationTimesForm(d, f);
    var e, p: int := Signed(d) * f, d * f;
    assert p <= 0 && (d < 0x8000_0000_0000_0000 || e > 0) by { NegativeProduct(d, f); }
    if d < 0x8000_0000_0000_0000 { WrapsToPositive(p); }
    var w := Wrap(Min(MAX, e));
    if w > 0 { CeilLeast(w, S, 0); }
  }

  lemma NegativeProduct(d: int, f: int)
    requires f < 0 && 0 <= d < S
    ensures d * f <= 0 && (d - S) * f > 0
  {
    MulMono(0, d, -f);
    MulMono(1, S - d, -f);
  }

  lemma CeilOfMultiple(x: nat, b: nat)
    requires b > 0
    ensures CeilDiv(x, b) * b == x <==> x % b == 0
  {
    var c := CeilDiv(x, b);
    CeilBounds(x, b);
    assert x == (x / b) * b + x % b;
    if x % b == 0 {
      CeilLeast(x, b, x / b);
      MulMono(c, x / b, b);
    }
    if c * b == x {
      FloorGreatest(x, b, c);
      MulMono(c, x / b, b);
    }
  }

  /** A duration as a fraction of a limit, times the limit, is the duration, or one more where
      the fraction had to be rounded; except for results above 2^63 and limits of 2^63 and more. */
  lemma DurationRoundTrip(d: CostDuration, l: CostDuration)
    requires l > 0
    ensures var e := if Shl(d) % l == 0 then d else d + 1;
            DurationTimes(l, DurationOver(d, l)) == e <==>
            d == 0 || (l < 0x8000_0000_0000_0000 && e <= 0x8000_0000_0000_0000 && !Wraps(d, l))
  {
    var f := DurationOver(d, l);
    DurationScaling(l, f);
    if Wraps(d, l) {
      QuotientIsExact(d, l);
    } else {
      FractionTimesLimit(d, l);
    }
  }

  lemma FractionTimesLimit(d: CostDuration, l: CostDuration)
    requires l > 0 && !Wraps(d, l)
    ensures var c, e := DurationOver(d, l), if Shl(d) % l == 0 then d else d + 1;
            && Scaled(l, c) == Min(U64_MAX, e) && (c == 0 <==> d == 0) && 0 <= c
            && (l * c <= TWO_127 <==> e <= 0x8000_0000_0000_0000)
  {
    var c := CeilDiv(Shl(d), l);
    assert DurationOver(d, l) == c by { QuotientIsExact(d, l); }
    var p := l * c;
    assert Shl(d) <= p < Shl(d) + l && (p == Shl(d) <==> Shl(d) % l == 0) by {
      CeilBounds(Shl(d), l);
      CeilOfMultiple(Shl(d), l);
    }
    assert c == 0 <==> d == 0 by { CeilLeast(Shl(d), l, 0); }
    if p > 0 {
      CeilLeast(p, S, d);
      CeilLeast(p, S, d + 1);
      CeilLeast(p, S, d - 1);
    }
  }

  lemma LongDurationVanishes()
    ensures DurationTimes(0x8000_0000_0000_0000, ONE) == 0
  {
    ScalingLong(0x8000_0000_0000_0000, ONE);
  }

  // ----- running totals -----

  function SatAdd(x: U64, y: U64): U64 { Min(x + y, U64_MAX) }
  function SatSub(x: U64, y: U64): U64 { Max(x - y, 0) }

  function Plus(x: RunningCost, y: RunningCost): RunningCost {
    RunningCost(SatAdd(x.readTime, y.readTime), SatAdd(x.computeTime, y.computeTime),
      SatAdd(x.bytesWritten, y.bytesWritten), SatAdd(x.bytesDeleted, y.bytesDeleted))
  }

  const NO_COST := RunningCost(0, 0, 0, 0)

  predicate WithinBounds(c: RunningCost, bounds: RunningCost) {
    && c.readTime <= bounds.readTime && c.computeTime <= bounds.computeTime
    && c.bytesWritten <= bounds.bytesWritten && c.bytesDeleted <= bounds.bytesDeleted
  }

  /** Net bytes written, and the rest as churn. */
  function ToSynthetic(c: RunningCost): SyntheticCost {
    var net := SatSub(c.bytesWritten, c.bytesDeleted);
    SyntheticCost(c.readTime, c.computeTime, 0, net, c.bytesWritten - net)
  }

  /** One dimension of a cost. */
  function Dimension(c: RunningCost, i: nat): U64
    requires i < 4
  {
    match i case 0 => c.readTime case 1 => c.computeTime case 2 => c.bytesWritten case 3 => c.bytesDeleted
  }

  /** The exact sum of one dimension over a sequence. */
  ghost function Exact(cs: seq<RunningCost>, i: nat): nat
    requires i < 4
  {
    if cs == [] then 0 else Exact(cs[..|cs| - 1], i) + Dimension(cs[|cs| - 1], i)
  }

  function Total(cs: seq<RunningCost>): RunningCost {
    if cs == [] then NO_COST else Plus(Total(cs[..|cs| - 1]), cs[|cs| - 1])
  }

  method Sum(cs: seq<RunningCost>) returns (res: RunningCost)
    ensures res == Total(cs)
  {
    res := NO_COST;
    for n := 0 to |cs|
      invariant res == Total(cs[..n])
    {
      assert cs[..n + 1][..n] == cs[..n];
      res := Plus(res, cs[n]);
    }
    assert cs[..|cs|] == cs;
  }

  /** Saturating at every step is saturating once at the end. */
  lemma {:induction false} TotalIsExact(cs: seq<RunningCost>, i: nat)
    requires i < 4
    ensures Dimension(Total(cs), i) == Min(Exact(cs, i), U64_MAX)
  {
    if cs != [] { TotalIsExact(cs[..|cs| - 1], i); }
  }

  lemma {:induction false} ExactSplits(xs: seq<RunningCost>, ys: seq<RunningCost>, i: nat)
    requires i < 4
    ensures Exact(xs + ys, i) == Exact(xs, i) + Exact(ys, i)
    decreases |ys|
  {
    if ys == [] {
      assert xs + ys == xs;
    } else {
      var n := |ys| - 1;
      assert (xs + ys)[..|xs| + n] == xs + ys[..n];
      ExactSplits(xs, ys[..n], i);
    }
  }

  lemma ExactWithout(xs: seq<RunningCost>, k: nat, i: nat)
    requires i < 4 && k < |xs|
    ensures Exact(xs, i) == Exact(xs[..k] + xs[k + 1..], i) + Dimension(xs[k], i)
    ensures multiset(xs) == multiset(xs[..k] + xs[k + 1..]) + multiset{xs[k]}
  {
    var before, y, after := xs[..k], xs[k], xs[k + 1..];
    assert xs == before + [y] + after;
    ExactSplits(before, after, i);
    ExactSplits(before + [y], after, i);
    ExactSplits(before, [y], i);
    assert [y][..0] == [];
  }

  lemma {:induction false} ExactOfPart(xs: seq<RunningCost>, ys: seq<RunningCost>, i: nat)
    requires i < 4 && multiset(ys) <= multiset(xs)
    ensures Exact(ys, i) <= Exact(xs, i)
    decreases |ys|
  {
    if ys != [] {
      var n, y := |ys| - 1, ys[|ys| - 1];
      assert multiset(ys) == multiset(ys[..n]) + multiset{y} by { assert ys == ys[..n] + [y]; }
      assert y in multiset(xs);
      var k :| 0 <= k < |xs| && xs[k] == y;
      ExactWithout(xs, k, i);
      CancelOne(multiset(ys[..n]), multiset(xs[..k] + xs[k + 1..]), y);
      ExactOfPart(xs[..k] + xs[k + 1..], ys[..n], i);
    }
  }

  /** The order of the costs does not matter, and if the total is within bounds, so is the
      total of any part, taken in any order. */
  lemma TotalOfPart(xs: seq<RunningCost>, ys: seq<RunningCost>, bounds: RunningCost)
    requires multiset(ys) <= multiset(xs)
    ensures WithinBounds(Total(xs), bounds) ==> WithinBounds(Total(ys), bounds)
    ensures multiset(ys) == multiset(xs) ==> Total(ys) == Total(xs)
  {
    forall i | 0 <= i < 4
      ensures Dimension(Total(ys), i) <= Dimension(Total(xs), i)
      ensures multiset(ys) == multiset(xs) ==> Dimension(Total(ys), i) == Dimension(Total(xs), i)
    {
      TotalIsExact(xs, i);
      TotalIsExact(ys, i);
      ExactOfPart(xs, ys, i);
      if multiset(ys) == multiset(xs) { ExactOfPart(ys, xs, i); }
    }
    AtMostEach(Total(ys), Total(xs));
  }

  lemma AtMostEach(x: RunningCost, y: RunningCost)
    requires forall i :: 0 <= i < 4 ==> Dimension(x, i) <= Dimension(y, i)
    ensures WithinBounds(x, y)
    ensures (forall i :: 0 <= i < 4 ==> Dimension(x, i) == Dimension(y, i)) ==> x == y
  {
    assert Dimension(x, 0) <= Dimension(y, 0);
    assert Dimension(x, 1) <= Dimension(y, 1);
    assert Dimension(x, 2) <= Dimension(y, 2);
    assert Dimension(x, 3) <= Dimension(y, 3);
  }

  ghost function NetSum(cs: seq<RunningCost>): nat {
    if cs == [] then 0 else NetSum(cs[..|cs| - 1]) + ToSynthetic(cs[|cs| - 1]).bytesWritten
  }

  /** Times are kept, what was deleted again counts as churn, and nothing written is lost. */
  lemma NetExactly(c: RunningCost)
    ensures var s := ToSynthetic(c);
            && s.readTime == c.readTime && s.computeTime == c.computeTime && s.blockUsage == 0
            && s.bytesWritten == Max(0, c.bytesWritten - c.bytesDeleted)
            && s.bytesChurned == Min(c.bytesWritten, c.bytesDeleted)
            && s.bytesWritten + s.bytesChurned == c.bytesWritten
  {}

  /** Netting a whole total nets the sums. */
  lemma NetOfTotal(cs: seq<RunningCost>)
    ensures var s, w, d := ToSynthetic(Total(cs)), Min(Exact(cs, 2), U64_MAX), Min(Exact(cs, 3), U64_MAX);
            && s.readTime == Min(Exact(cs, 0), U64_MAX) && s.computeTime == Min(Exact(cs, 1), U64_MAX)
            && s.bytesWritten == Max(0, w - d) && s.bytesChurned == Min(w, d)
  {
    TotalParts(cs);
    NetExactly(Total(cs));
  }

  lemma TotalParts(cs: seq<RunningCost>)
    ensures Total(cs) == RunningCost(Min(Exact(cs, 0), U64_MAX), Min(Exact(cs, 1), U64_MAX),
                                     Min(Exact(cs, 2), U64_MAX), Min(Exact(cs, 3), U64_MAX))
  {
    TotalIsExact(cs, 0);
    TotalIsExact(cs, 1);
    TotalIsExact(cs, 2);
    TotalIsExact(cs, 3);
  }

  /** That never charges more than netting the parts. */
  lemma NetOfParts(cs: seq<RunningCost>)
    ensures ToSynthetic(Total(cs)).bytesWritten <= NetSum(cs)
  {
    NetOfTotal(cs);
    NetOfExact(cs);
  }

  lemma {:induction false} NetOfExact(cs: seq<RunningCost>)
    ensures Exact(cs, 2) - Exact(cs, 3) <= NetSum(cs)
  {
    if cs != [] { NetOfExact(cs[..|cs| - 1]); }
  }

  /** A total is within bounds exactly if every sum is. */
  lemma TotalWithin(cs: seq<RunningCost>, bounds: RunningCost)
    ensures WithinBounds(Total(cs), bounds) <==>
            && Min(Exact(cs, 0), U64_MAX) <= bounds.readTime && Min(Exact(cs, 1), U64_MAX) <= bounds.computeTime
            && Min(Exact(cs, 2), U64_MAX) <= bounds.bytesWritten && Min(Exact(cs, 3), U64_MAX) <= bounds.bytesDeleted
  {
    TotalParts(cs);
  }
}
