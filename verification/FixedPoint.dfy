/** The deterministic 64.64 fixed-point arithmetic of the cost model.

A number is a raw 128-bit signed integer `x` that denotes `x / 2^64`. Intermediates are
256 bits wide, so they never lose bits here and are plain integers; every cast back to 128
bits is written out, because the operators clamp at some edges and wrap around at others. */
module FixedPoint {

  const S: int := 0x1_0000_0000_0000_0000
  const TWO_127: int := 0x8000_0000_0000_0000_0000_0000_0000_0000
  const TWO_128: int := 0x1_0000_0000_0000_0000_0000_0000_0000_0000

  type Fixed = x: int | -0x8000_0000_0000_0000_0000_0000_0000_0000 <= x < 0x8000_0000_0000_0000_0000_0000_0000_0000
  type U64 = x: int | 0 <= x < 0x1_0000_0000_0000_0000
  type U128 = x: int | 0 <= x < 0x1_0000_0000_0000_0000_0000_0000_0000_0000

  const ZERO: Fixed := 0
  const ONE: Fixed := 0x1_0000_0000_0000_0000
  const MAX: Fixed := 0x7fff_ffff_ffff_ffff_ffff_ffff_ffff_ffff
  const MIN: Fixed := -0x8000_0000_0000_0000_0000_0000_0000_0000
  const U64_MAX: U64 := 0xffff_ffff_ffff_ffff
  const U128_MAX: U128 := 0xffff_ffff_ffff_ffff_ffff_ffff_ffff_ffff

  /** x << 64 and x >> 64; the right shift is arithmetic, so it rounds down. */
  function Shl(x: int): int { x * 0x1_0000_0000_0000_0000 }
  function Shr(x: int): int { x / 0x1_0000_0000_0000_0000 }

  function Min(x: int, y: int): int { if x <= y then x else y }
  function Max(x: int, y: int): int { if x <= y then y else x }
  function Abs(x: int): nat { if x < 0 then -x else x }
  function Sign(x: int): int { if x < 0 then -1 else if x == 0 then 0 else 1 }

  /** The low 128 bits of `x` read as a signed number: the narrowing cast and the wrapping product. */
  function Wrap(x: int): Fixed {
    if MIN <= x <= MAX then x else (x + TWO_127) % TWO_128 - TWO_127
  }

  function Clamp(x: int): Fixed {
    if x < MIN then MIN else if x > MAX then MAX else x
  }

  // ----- the operators -----

  function Add(a: Fixed, b: Fixed): Fixed { Clamp(a + b) }
  function Sub(a: Fixed, b: Fixed): Fixed { Clamp(a - b) }

  /** Floors, and clamps from above only. */
  function Mul(a: Fixed, b: Fixed): Fixed {
    Wrap(Min(MAX, Shr(a * b)))
  }

  /** The least integer that is at least x / b. */
  function CeilDiv(x: nat, b: nat): nat
    requires b > 0
  {
    (x + b - 1) / b
  }

  function FromU64Div(a: U64, b: U64): Fixed {
    if b == 0 then MAX else Wrap(CeilDiv(Shl(a), b))
  }

  function FromU128Div(a: U128, b: U128): Fixed {
    if b == 0 then MAX else
    var c := CeilDiv(Shl(a), b);
    if c > U128_MAX then MAX else Wrap(c)
  }

  /** Rounds away from zero. */
  function Div(a: Fixed, b: Fixed): Fixed {
    if b == 0 then MAX else
    Wrap(FromU128Div(Abs(a), Abs(b)) * Sign(a) * Sign(b))
  }

  /** self * base_unit, rounded up; zero for negatives. */
  function IntoAtomicUnits(a: Fixed, baseUnit: U128): U128 {
    var raw := a * baseUnit;
    var res := if raw > 0 then CeilDiv(raw, S) else -Shr(-raw);
    if res < 0 then 0 else if res > U128_MAX then U128_MAX else res
  }

  // ----- rounding facts -----

  lemma MulMono(x: int, y: int, b: int)
    requires x <= y && 0 <= b
    ensures x * b <= y * b
  {}

  lemma FloorBounds(x: int, b: int)
    requires b > 0
    ensures (x / b) * b <= x < (x / b) * b + b
  {}

  lemma FloorGreatest(x: int, b: int, q: int)
    requires b > 0
    ensures q <= x / b <==> q * b <= x
  {
    FloorBounds(x, b);
    if q <= x / b { MulMono(q, x / b, b); } else { MulMono(x / b + 1, q, b); }
  }

  lemma FloorMono(x: int, y: int, b: int)
    requires b > 0 && x <= y
    ensures x / b <= y / b
  {
    FloorBounds(x, b);
    FloorGreatest(y, b, x / b);
  }

  lemma FloorSum(x: int, y: int)
    ensures Shr(x + y) - 1 <= Shr(x) + Shr(y) <= Shr(x + y)
  {}

  lemma CeilBounds(x: nat, b: nat)
    requires b > 0
    ensures x <= CeilDiv(x, b) * b < x + b
  {
    FloorBounds(x + b - 1, b);
  }

  lemma CeilMono(x: nat, y: nat, b: nat)
    requires b > 0 && x <= y
    ensures CeilDiv(x, b) <= CeilDiv(y, b)
  {
    CeilBounds(y, b);
    CeilLeast(x, b, CeilDiv(y, b));
  }

  lemma CeilLeast(x: nat, b: nat, c: int)
    requires b > 0
    ensures CeilDiv(x, b) <= c <==> x <= c * b
  {
    CeilBounds(x, b);
    if CeilDiv(x, b) <= c { MulMono(CeilDiv(x, b), c, b); } else { MulMono(c, CeilDiv(x, b) - 1, b); }
  }

  /** Below, the exact quotient of magnitudes that `Div` and `FromU128Div` aim for. */
  function Quotient(a: Fixed, b: Fixed): nat
    requires b != 0
  {
    CeilDiv(Shl(Abs(a)), Abs(b))
  }

  /** The least number of units that is worth the amount, zero for negatives, or as many as fit. */
  lemma AtomicUnitsExactly(a: Fixed, baseUnit: U128, c: nat)
    ensures IntoAtomicUnits(a, baseUnit) <= c <==> c >= U128_MAX || a * baseUnit <= Shl(c)
  {
    var raw := a * baseUnit;
    if raw > 0 {
      CeilLeast(raw, S, c);
      CeilLeast(raw, S, U128_MAX);
    } else {
      FloorGreatest(-raw, S, 0);
    }
  }

  /** A quotient of unsigned numbers is exact below 2^127, saturates from 2^128 on, and is negative
      in between. */
  lemma UnsignedQuotient(a: U128, b: U128)
    requires b > 0
    ensures var c := CeilDiv(Shl(a), b);
            FromU128Div(a, b) == if c <= MAX then c else if c < TWO_128 then c - TWO_128 else MAX
  {}

  // ----- where the operators are exact, and where they are not -----

  /** Sums and differences saturate: no number is closer to the exact one. */
  lemma AddNearest(a: Fixed, b: Fixed, r: Fixed)
    ensures Abs(Add(a, b) - (a + b)) <= Abs(r - (a + b))
    ensures Abs(Sub(a, b) - (a - b)) <= Abs(r - (a - b))
  {}

  /** Multiplication is documented as saturating. It is so at the top; below the minimum it wraps,
      which comes to the minimum only a multiple of 2^128 below it. */
  lemma MulIsExact(a: Fixed, b: Fixed)
    ensures Mul(a, b) == Clamp(Shr(a * b)) <==> Shr(a * b) >= MIN || (Shr(a * b) - MIN) % TWO_128 == 0
  {}

  lemma MulWrapsBelow()
    ensures Mul(MAX, -2 * S) == 2
  {}

  lemma MulNonNegative(a: Fixed, b: Fixed)
    requires 0 <= a && 0 <= b
    ensures Mul(a, b) == Min(MAX, Shr(a * b))
    ensures 0 <= Mul(a, b)
  {
    MulMono(0, a, b);
  }

  lemma MulFits(a: Fixed, b: Fixed)
    requires MIN <= Shr(a * b) <= MAX
    ensures Mul(a, b) == Shr(a * b)
  {}

  /** The quotient of the magnitudes, cast to 128 bits before its sign is put back. */
  lemma DivSigned(a: Fixed, b: Fixed)
    requires b != 0
    ensures var s, q := Sign(a) * Sign(b), Quotient(a, b);
            && (a == 0 <==> q == 0) && (a == 0 ==> s == 0) && (a != 0 ==> s == 1 || s == -1)
            && Div(a, b) == Wrap(s * if q >= TWO_128 then MAX else if q < TWO_127 then q else q - TWO_128)
  {
    var c := Quotient(a, b);
    CeilLeast(Shl(Abs(a)), Abs(b), 0);
    SignedProduct(FromU128Div(Abs(a), Abs(b)), Sign(a), Sign(b));
  }

  lemma SignedProduct(w: int, s: int, t: int)
    ensures w * s * t == s * t * w
  {}

  /** Division saturates, except for quotients in [2^127, 2^128): there the cast happens before the
      clamp and the result has the wrong sign, but for the one that is the minimum. */
  lemma DivIsExact(a: Fixed, b: Fixed)
    requires b != 0
    ensures var s, q := Sign(a) * Sign(b), Quotient(a, b);
            Div(a, b) == Clamp(s * q) <==> q <= MAX || (s > 0 && q >= TWO_128) || (s < 0 && q == TWO_127)
  {
    DivSigned(a, b);
  }

  lemma DivFits(a: Fixed, b: Fixed)
    requires b != 0 && Quotient(a, b) <= MAX
    ensures Div(a, b) == Sign(a) * Sign(b) * Quotient(a, b)
  {
    DivSigned(a, b);
  }

  /** The exact quotient, rounded up. */
  function RoundedUp(a: Fixed, b: Fixed): int
    requires b != 0
  {
    if Sign(a) * Sign(b) >= 0 then Quotient(a, b) else -(Shl(Abs(a)) / Abs(b))
  }

  /** It is the least integer not below a / b, which is a * 2^64 over b. */
  lemma RoundedUpIsLeast(a: Fixed, b: Fixed, c: int)
    requires b != 0
    ensures RoundedUp(a, b) <= c <==> if b > 0 then Shl(a) <= c * b else c * b <= Shl(a)
  {
    var x, y := Shl(Abs(a)), Abs(b);
    CeilLeast(x, y, c);
    FloorGreatest(x, y, -c);
    assert c * b == if b > 0 then c * y else -(c * y);
    assert (-c) * y == -(c * y);
  }

  /** Division is documented as rounding up. It rounds away from zero, so that holds for negative
      quotients only where there is nothing to round. */
  lemma DivRoundsUp(a: Fixed, b: Fixed)
    requires b != 0
    ensures var s, q := Sign(a) * Sign(b), Quotient(a, b);
            Div(a, b) == Clamp(RoundedUp(a, b)) <==>
            || a == 0
            || (s > 0 && (q <= MAX || q >= TWO_128))
            || (s < 0 && Shl(Abs(a)) % Abs(b) == 0 && q <= TWO_127)
  {
    DivSigned(a, b);
    CeilIsFloor(Shl(Abs(a)), Abs(b));
  }

  lemma CeilIsFloor(x: nat, b: nat)
    requires b > 0
    ensures CeilDiv(x, b) == x / b + if x % b == 0 then 0 else 1
  {
    var f := x / b;
    assert x == f * b + x % b;
    CeilLeast(x, b, f);
    CeilLeast(x, b, f + 1);
    CeilLeast(x, b, f - 1);
    assert (f + 1) * b == f * b + b && (f - 1) * b == f * b - b;
  }

  lemma DivRoundsDown()
    ensures Div(-1, 2 * S) == -1 && RoundedUp(-1, 2 * S) == 0
  {}

  lemma DivFlipsSign()
    ensures Div(MAX, S / 2) == -2
  {
    CeilBounds(Shl(MAX), S / 2);
  }

  /** For a positive divisor, dividing and multiplying back loses nothing and overshoots by at
      most the divisor's excess over one. */
  lemma DivThenMul(a: Fixed, b: Fixed)
    requires 0 <= a && 0 < b && Quotient(a, b) <= MAX
    ensures a <= Mul(Div(a, b), b) <= a + Shr(b - 1)
    ensures b <= ONE ==> Mul(Div(a, b), b) == a
  {
    var c := Quotient(a, b);
    DivFits(a, b);
    CeilBounds(Shl(a), b);
    CeilLeast(0, b, 0);
    assert Div(a, b) == c;
    MulNonNegative(c, b);
  }
}
