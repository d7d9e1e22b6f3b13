/** Raising a fixed-point number to an integer power by square-and-multiply. */
module Power {
  import opened FixedPoint

  /** The loop: acc * cur^exp, squaring cur and halving exp at each turn. */
  function PowLoop(acc: Fixed, cur: Fixed, exp: nat): Fixed
    decreases exp
  {
    if exp == 0 then acc else
    PowLoop(if exp % 2 == 1 then Mul(acc, cur) else acc, Mul(cur, cur), exp / 2)
  }

  function Power(x: Fixed, exp: int): Fixed {
    if exp < 0 then Div(ONE, PowLoop(ONE, x, -exp)) else PowLoop(ONE, x, exp)
  }

  /** i32::MIN has no negation and is excluded. */
  method Powi(x: Fixed, exponent: int) returns (r: Fixed)
    requires -0x8000_0000 < exponent < 0x8000_0000
    ensures r == Power(x, exponent)
    decreases exponent < 0
  {
    if exponent < 0 {
      var p := Powi(x, -exponent);
      return Div(ONE, p);
    }
    var acc, cur, exp := ONE, x, exponent;
    while exp >= 1
      invariant exp >= 0
      invariant PowLoop(acc, cur, exp) == PowLoop(ONE, x, exponent)
    {
      if exp % 2 != 0 {
        acc := Mul(acc, cur);
      }
      cur := Mul(cur, cur);
      exp := exp / 2;
    }
    return acc;
  }

  lemma PowerSmall(x: Fixed)
    ensures Power(x, 0) == ONE && Power(x, 1) == x
  {
    assert PowLoop(ONE, x, 1) == PowLoop(Mul(ONE, x), Mul(x, x), 0);
    assert Mul(ONE, x) == x;
  }

  // ----- the real numbers behind -----

  /** The number a raw value denotes. */
  ghost function Val(a: int): real { a as real / 18446744073709551616.0 }

  /** One unit in the last place, 2^-64. */
  ghost const UNIT: real := Val(1)

  ghost function Pow(x: real, n: nat): real {
    if n == 0 then 1.0 else x * Pow(x, n - 1)
  }

  lemma {:induction false} PowAdd(x: real, m: nat, n: nat)
    ensures Pow(x, m + n) == Pow(x, m) * Pow(x, n)
    decreases m
  {
    if m > 0 { PowAdd(x, m - 1, n); }
  }

  lemma ProductMono(a: real, b: real, c: real, d: real)
    requires 0.0 <= a <= b && 0.0 <= c <= d
    ensures 0.0 <= a * c <= b * d
  {}

  lemma {:induction false} PowSigned(x: real, n: nat)
    requires 0.0 <= x
    ensures 0.0 <= Pow(x, n)
    ensures x <= 1.0 ==> Pow(x, n) <= 1.0
  {
    if n > 0 {
      PowSigned(x, n - 1);
      ProductMono(x, if x <= 1.0 then 1.0 else x, Pow(x, n - 1), Pow(x, n - 1));
    }
  }

  lemma Halving(k: nat, exp: nat)
    ensures k * exp == (if exp % 2 == 1 then k else 0) + (k + k) * (exp / 2)
  {
    assert exp == exp % 2 + 2 * (exp / 2);
  }

  /** One multiplication of non-negative numbers loses less than a unit, or saturates. */
  lemma MulValue(a: Fixed, b: Fixed)
    requires 0 <= a && 0 <= b
    ensures 0 <= Mul(a, b)
    ensures Val(Mul(a, b)) <= Val(a) * Val(b)
    ensures Mul(a, b) == MAX || Val(a) * Val(b) - UNIT < Val(Mul(a, b))
  {
    MulNonNegative(a, b);
    var p, m := a * b, Shr(a * b);
    assert (p as real) == (a as real) * (b as real);
    assert Shl(m) <= p < Shl(m) + S;
    assert Val(a) * Val(b) == Val(p) / 18446744073709551616.0;
  }

  // ----- never above the exact power -----

  ghost predicate AtMostPow(u: Fixed, x: real, k: nat) { 0 <= u && Val(u) <= Pow(x, k) }

  lemma MulAtMost(u: Fixed, v: Fixed, x: real, j: nat, k: nat)
    requires 0.0 <= x && AtMostPow(u, x, j) && AtMostPow(v, x, k)
    ensures AtMostPow(Mul(u, v), x, j + k)
  {
    var p, q := Pow(x, j), Pow(x, k);
    assert Pow(x, j + k) == p * q by { PowAdd(x, j, k); }
    ProductAtMost(u, v, p, q);
  }

  lemma ProductAtMost(u: Fixed, v: Fixed, p: real, q: real)
    requires 0 <= u && 0 <= v && Val(u) <= p && Val(v) <= q
    ensures 0 <= Mul(u, v) && Val(Mul(u, v)) <= p * q
  {
    MulValue(u, v);
    ProductMono(Val(u), p, Val(v), q);
  }

  lemma {:induction false} LoopAtMost(acc: Fixed, cur: Fixed, exp: nat, x: real, j: nat, k: nat)
    requires 0.0 <= x && AtMostPow(acc, x, j) && AtMostPow(cur, x, k)
    ensures AtMostPow(PowLoop(acc, cur, exp), x, j + k * exp)
    decreases exp
  {
    if exp > 0 {
      MulAtMost(acc, cur, x, j, k);
      MulAtMost(cur, cur, x, k, k);
      Halving(k, exp);
      if exp % 2 == 1 {
        LoopAtMost(Mul(acc, cur), Mul(cur, cur), exp / 2, x, j + k, k + k);
      } else {
        LoopAtMost(acc, Mul(cur, cur), exp / 2, x, j, k + k);
      }
    }
  }

  // ----- for a base of at least one: relative error below n units -----

  /** What one rounding of a number of at least one leaves of it. */
  ghost const KEEP: real := 1.0 - UNIT

  /** x^k less k - 1 roundings that each keep a fraction e. */
  ghost function Rounded(x: real, e: real, k: nat): real
    requires k > 0
  {
    Pow(x, k) * Pow(e, k - 1)
  }

  /** u is x^k rounded at most k - 1 times, unless it has saturated. */
  ghost predicate NearPow(u: Fixed, x: real, k: nat) {
    && u >= ONE
    && (u == MAX || if k == 0 then u == ONE else Val(u) >= Rounded(x, KEEP, k))
  }

  lemma MulKeeps(u: Fixed, v: Fixed)
    requires u >= ONE && v >= ONE
    ensures Mul(u, v) >= ONE
    ensures Mul(u, v) == MAX || Val(Mul(u, v)) >= Val(u) * Val(v) * KEEP
    ensures u == ONE ==> Mul(u, v) == v
    ensures u == MAX || v == MAX ==> Mul(u, v) == MAX
  {
    MulValue(u, v);
    assert u * v >= Shl(u) && u * v >= Shl(v) by {
      MulMono(S, u, v);
      MulMono(S, v, u);
    }
    MulNonNegative(u, v);
    ProductMono(1.0, Val(u), 1.0, Val(v));
    ProductMono(1.0, Val(u) * Val(v), UNIT, UNIT);
  }

  lemma NearProduct(u: real, v: real, a: real, b: real, c: real, d: real, e: real)
    requires 0.0 <= a && 0.0 <= b && 0.0 <= c && 0.0 <= d && 0.0 <= e && a * c <= u && b * d <= v
    ensures (a * b) * (e * (c * d)) <= u * v * e
  {
    ProductMono(a, a, c, c);
    ProductMono(b, b, d, d);
    ProductMono(a * c, u, b * d, v);
    ProductMono((a * c) * (b * d), u * v, e, e);
    assert (a * b) * (e * (c * d)) == (a * c) * (b * d) * e;
  }

  lemma RoundedSplits(x: real, e: real, j: nat, k: nat)
    requires j > 0 && k > 0
    ensures Rounded(x, e, j + k) == (Pow(x, j) * Pow(x, k)) * (e * (Pow(e, j - 1) * Pow(e, k - 1)))
  {
    PowAdd(x, j, k);
    PowAdd(e, j - 1, k - 1);
    assert Pow(e, j + k - 1) == e * Pow(e, (j - 1) + (k - 1));
  }

  lemma RoundedAdd(u: real, v: real, x: real, e: real, j: nat, k: nat)
    requires 1.0 <= x && 0.0 <= e && j > 0 && k > 0 && u >= Rounded(x, e, j) && v >= Rounded(x, e, k)
    ensures Rounded(x, e, j + k) <= u * v * e
  {
    RoundedSplits(x, e, j, k);
    PowSigned(x, j);
    PowSigned(x, k);
    PowSigned(e, j - 1);
    PowSigned(e, k - 1);
    NearProduct(u, v, Pow(x, j), Pow(x, k), Pow(e, j - 1), Pow(e, k - 1), e);
  }

  lemma MulNear(u: Fixed, v: Fixed, x: real, j: nat, k: nat)
    requires 1.0 <= x && NearPow(u, x, j) && NearPow(v, x, k) && k > 0
    ensures NearPow(Mul(u, v), x, j + k)
  {
    MulKeeps(u, v);
    if u != MAX && v != MAX && j > 0 && Mul(u, v) != MAX {
      RoundedAdd(Val(u), Val(v), x, KEEP, j, k);
    }
  }

  lemma {:induction false} LoopNear(acc: Fixed, cur: Fixed, exp: nat, x: real, j: nat, k: nat)
    requires 1.0 <= x && NearPow(acc, x, j) && NearPow(cur, x, k) && k > 0
    ensures NearPow(PowLoop(acc, cur, exp), x, j + k * exp)
    decreases exp
  {
    if exp > 0 {
      MulNear(acc, cur, x, j, k);
      MulNear(cur, cur, x, k, k);
      Halving(k, exp);
      if exp % 2 == 1 {
        LoopNear(Mul(acc, cur), Mul(cur, cur), exp / 2, x, j + k, k + k);
      } else {
        LoopNear(acc, Mul(cur, cur), exp / 2, x, j, k + k);
      }
    }
  }

  // ----- for a base of at most one: absolute error below n units -----

  /** u is x^k less at most k - 1 units. */
  ghost predicate ClosePow(u: Fixed, x: real, k: nat) {
    && 0 <= u <= ONE
    && if k == 0 then u == ONE else Val(u) >= Pow(x, k) - Val(k - 1)
  }

  lemma Expand(a: real, b: real, e: real, f: real)
    ensures (a - e) * (b - f) == a * b - a * f - e * b + e * f
  {}

  lemma Scale(a: real, c: real)
    requires 0.0 <= a <= 1.0 && 0.0 <= c
    ensures 0.0 <= a * c <= c
  {}

  lemma InnerProduct(u: real, v: real, a: real, b: real, e: real, f: real)
    requires 0.0 <= e <= a <= 1.0 && 0.0 <= f <= b <= 1.0 && u >= a - e && v >= b - f
    ensures u * v >= a * b - e - f
  {
    var ab, af, eb, ef := a * b, a * f, e * b, e * f;
    assert af <= f by { Scale(a, f); }
    assert eb <= e by { Scale(b, e); }
    assert ef >= 0.0;
    assert u * v >= (a - e) * (b - f) by { ProductMono(a - e, u, b - f, v); }
    assert (a - e) * (b - f) == ab - af - eb + ef by { Expand(a, b, e, f); }
  }

  lemma CloseProduct(u: real, v: real, a: real, b: real, e: real, f: real)
    requires 0.0 <= u && 0.0 <= v && 0.0 <= a <= 1.0 && 0.0 <= b <= 1.0 && 0.0 <= e && 0.0 <= f
    requires u >= a - e && v >= b - f
    ensures u * v >= a * b - e - f
  {
    if a >= e && b >= f {
      InnerProduct(u, v, a, b, e, f);
    } else {
      var uv, ab := u * v, a * b;
      assert 0.0 <= uv by { ProductMono(0.0, u, 0.0, v); }
      if a < e {
        assert ab <= a by { ProductMono(a, a, b, 1.0); }
      } else {
        assert ab <= b by { ProductMono(a, 1.0, b, b); }
      }
    }
  }

  lemma CloseAdd(u: real, v: real, x: real, j: nat, k: nat)
    requires 0.0 <= x <= 1.0 && j > 0 && k > 0 && 0.0 <= u && 0.0 <= v
    requires u >= Pow(x, j) - Val(j - 1) && v >= Pow(x, k) - Val(k - 1)
    ensures Pow(x, j + k) - Val(j + k - 1) <= u * v - UNIT
  {
    var a, b, p := Pow(x, j), Pow(x, k), Pow(x, j + k);
    assert p == a * b by { PowAdd(x, j, k); }
    assert 0.0 <= a <= 1.0 && 0.0 <= b <= 1.0 by {
      PowSigned(x, j);
      PowSigned(x, k);
    }
    CloseProduct(u, v, a, b, Val(j - 1), Val(k - 1));
    assert Val(j + k - 1) == Val(j - 1) + Val(k - 1) + UNIT;
  }

  lemma MulClose(u: Fixed, v: Fixed, x: real, j: nat, k: nat)
    requires 0.0 <= x <= 1.0 && ClosePow(u, x, j) && ClosePow(v, x, k) && k > 0
    ensures ClosePow(Mul(u, v), x, j + k)
  {
    MulValue(u, v);
    assert 0 <= Mul(u, v) <= v && (u == ONE ==> Mul(u, v) == v) by {
      MulNonNegative(u, v);
      MulMono(u, S, v);
    }
    if j > 0 {
      CloseAdd(Val(u), Val(v), x, j, k);
    }
  }

  lemma {:induction false} LoopClose(acc: Fixed, cur: Fixed, exp: nat, x: real, j: nat, k: nat)
    requires 0.0 <= x <= 1.0 && ClosePow(acc, x, j) && ClosePow(cur, x, k) && k > 0
    ensures ClosePow(PowLoop(acc, cur, exp), x, j + k * exp)
    decreases exp
  {
    if exp > 0 {
      MulClose(acc, cur, x, j, k);
      MulClose(cur, cur, x, k, k);
      Halving(k, exp);
      if exp % 2 == 1 {
        LoopClose(Mul(acc, cur), Mul(cur, cur), exp / 2, x, j + k, k + k);
      } else {
        LoopClose(acc, Mul(cur, cur), exp / 2, x, j, k + k);
      }
    }
  }

  // ----- the power function -----

  lemma PowOne(x: real)
    ensures Pow(x, 1) == x && x * Pow(KEEP, 0) == x
  {
    assert Pow(x, 1) == x * Pow(x, 0);
  }

  lemma PowerNeverAbove(x: Fixed, n: nat)
    requires 0 <= x
    ensures 0 <= Power(x, n) && Val(Power(x, n)) <= Pow(Val(x), n)
  {
    PowOne(Val(x));
    LoopAtMost(ONE, x, n, Val(x), 0, 1);
  }

  lemma PowerAboveOne(x: Fixed, n: nat)
    requires ONE <= x && n > 0
    ensures Power(x, n) >= ONE
    ensures Power(x, n) == MAX || Val(Power(x, n)) >= Rounded(Val(x), KEEP, n)
  {
    PowOne(Val(x));
    LoopNear(ONE, x, n, Val(x), 0, 1);
  }

  lemma PowerBelowOne(x: Fixed, n: nat)
    requires 0 <= x <= ONE && n > 0
    ensures Val(Power(x, n)) >= Pow(Val(x), n) - Val(n - 1)
  {
    PowOne(Val(x));
    LoopClose(ONE, x, n, Val(x), 0, 1);
  }

  // ----- negative exponents -----

  /** The reciprocal is rounded up, except that the reciprocal of two units wraps around. */
  lemma Reciprocal(a: Fixed)
    requires 0 <= a
    ensures a == 2 ==> Div(ONE, a) == MIN
    ensures a != 2 ==> Div(ONE, a) == MAX || (0 < Div(ONE, a) && S * S <= Div(ONE, a) * a < S * S + a)
  {
    if a == 2 {
    } else if a == 1 {
    } else if a > 2 {
      CeilBounds(Shl(S), a);
      CeilLeast(Shl(S), a, MAX);
      CeilLeast(Shl(S), a, 0);
      DivFits(ONE, a);
    }
  }

  lemma ProductValue(c: int, a: int)
    ensures S * S <= c * a ==> 1.0 <= Val(c) * Val(a)
    ensures (c - 1) * a < S * S ==> (Val(c) - UNIT) * Val(a) < 1.0
  {
    var ca := c * a;
    assert ca as real == (c as real) * (a as real);
    var da := (c - 1) * a;
    assert da as real == ((c - 1) as real) * (a as real);
  }

  lemma ReciprocalNeverBelow(a: Fixed, p: real)
    requires 0 <= a && Val(a) <= p && a != 2
    ensures Div(ONE, a) == MAX || Val(Div(ONE, a)) * p >= 1.0
  {
    var c := Div(ONE, a);
    if c != MAX {
      assert 0 < c && S * S <= c * a by { Reciprocal(a); }
      assert 1.0 <= Val(c) * Val(a) by { ProductValue(c, a); }
      ProductMono(Val(c), Val(c), Val(a), p);
    }
  }

  lemma ReciprocalAtMostOne(a: Fixed)
    requires ONE <= a
    ensures 0 < Div(ONE, a) <= ONE && (Div(ONE, a) - 1) * a < S * S
  {
    Reciprocal(a);
    CeilLeast(Shl(S), a, S);
    DivFits(ONE, a);
    assert (Div(ONE, a) - 1) * a == Div(ONE, a) * a - a;
  }

  lemma ReciprocalNearlyExact(a: Fixed, q: real)
    requires ONE <= a && 0.0 <= q <= Val(a)
    ensures Div(ONE, a) <= ONE && (Val(Div(ONE, a)) - UNIT) * q < 1.0
  {
    var c := Div(ONE, a);
    assert 0 < c <= ONE && (c - 1) * a < S * S by { ReciprocalAtMostOne(a); }
    ProductValue(c, a);
    ProductMono(Val(c) - UNIT, Val(c) - UNIT, q, Val(a));
  }

  lemma ReciprocalNotAbove(a: Fixed, c: Fixed, q: real)
    requires ONE <= a && c == Div(ONE, a) && 0.0 <= q <= Val(a)
    ensures (Val(c) - UNIT) * q < 1.0
  {
    ReciprocalNearlyExact(a, q);
  }

  /** For every non-negative base: the power to -n is the maximum or at least the exact one,
      unless the positive power came out as exactly two units; then it is the minimum. */
  lemma NegativePower(x: Fixed, n: int)
    requires 0 <= x && n > 0
    ensures Power(x, n) == 2 ==> Power(x, -n) == MIN
    ensures Power(x, n) != 2 ==> Power(x, -n) == MAX || Val(Power(x, -n)) * Pow(Val(x), n) >= 1.0
  {
    PowerNeverAbove(x, n);
    Reciprocal(Power(x, n));
    if Power(x, n) != 2 { ReciprocalNeverBelow(Power(x, n), Pow(Val(x), n)); }
  }

  /** The smallest such input. */
  lemma NegativePowerWraps()
    ensures Power(2, -1) == MIN
  {
    assert Mul(ONE, 2) == 2 && Mul(2, 2) == 0;
    assert PowLoop(2, 0, 0) == 2;
    assert PowLoop(ONE, 2, 1) == 2;
    Reciprocal(2);
  }

  lemma {:induction false} RoundedSigned(x: real, e: real, k: nat)
    requires 0.0 <= x && 0.0 <= e && k > 0
    ensures 0.0 <= Rounded(x, e, k)
  {
    PowSigned(x, k);
    PowSigned(e, k - 1);
    ProductMono(Pow(x, k), Pow(x, k), Pow(e, k - 1), Pow(e, k - 1));
  }

  /** For a base of at least one it never wraps, and exceeds the exact one by at most one unit
      and the rounding of the positive power. */
  lemma NegativePowerAboveOne(x: Fixed, n: int)
    requires ONE <= x && n > 0
    ensures Val(Power(x, -n)) * Pow(Val(x), n) >= 1.0
    ensures Power(x, n) == MAX || (Val(Power(x, -n)) - UNIT) * Rounded(Val(x), KEEP, n) < 1.0
  {
    NegativePowerNotBelow(x, n);
    NegativePowerNotAbove(x, n);
  }

  lemma NegativePowerNotBelow(x: Fixed, n: int)
    requires ONE <= x && n > 0
    ensures Val(Power(x, -n)) * Pow(Val(x), n) >= 1.0
  {
    NegativePowerAtMostOne(x, n);
    NegativePower(x, n);
  }

  lemma NegativePowerAtMostOne(x: Fixed, n: int)
    requires ONE <= x && n > 0
    ensures ONE <= Power(x, n) && Power(x, -n) <= ONE
  {
    PowerNegated(x, n);
    PowerAboveOne(x, n);
    ReciprocalAtMostOne(Power(x, n));
  }

  lemma NegativePowerNotAbove(x: Fixed, n: int)
    requires ONE <= x && n > 0
    ensures Power(x, n) == MAX || (Val(Power(x, -n)) - UNIT) * Rounded(Val(x), KEEP, n) < 1.0
  {
    PowerNegated(x, n);
    PowerAboveOne(x, n);
    RoundedSigned(Val(x), KEEP, n);
    if Power(x, n) != MAX { ReciprocalNotAbove(Power(x, n), Power(x, -n), Rounded(Val(x), KEEP, n)); }
  }

  lemma PowerNegated(x: Fixed, n: int)
    requires n > 0
    ensures Power(x, -n) == Div(ONE, Power(x, n))
  {}
}
