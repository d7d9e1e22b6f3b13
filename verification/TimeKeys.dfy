/** Timestamps, and the trie paths they are kept under. */
module TimeKeys {
  import opened FixedPoint
  import opened Bytes
  import opened Trie
  import opened TriePrune

  const U64_END := 0x1_0000_0000_0000_0000

  // ----- timestamps and durations -----

  /** A duration is a signed 128-bit number of seconds. */
  type Duration = x: int | -0x8000_0000_0000_0000_0000_0000_0000_0000 <= x < 0x8000_0000_0000_0000_0000_0000_0000_0000

  function SaturatingAdd(t: U64, d: U64): U64 { if t + d < U64_END then t + d else U64_END - 1 }

  function SaturatingSub(t: U64, d: U64): U64 { if d <= t then t - d else 0 }

  /** The absolute value, or the greatest one that fits. */
  function Magnitude(d: int): U64
    requires d < 0
  {
    if -d < U64_END then -d else U64_END - 1
  }

  function Plus(t: U64, d: Duration): U64 {
    if d >= 0 then SaturatingAdd(t, d % U64_END) else SaturatingSub(t, Magnitude(d))
  }

  function Minus(t: U64, d: Duration): U64 {
    if d >= 0 then SaturatingSub(t, d % U64_END) else SaturatingAdd(t, Magnitude(d))
  }

  function Nearest(t: int): U64 { if t < 0 then 0 else if t < U64_END then t else U64_END - 1 }

  /** The sum is the nearest timestamp, except that a duration of 2^64 seconds or more is cut to
      its low 64 bits. */
  lemma PlusIsExact(t: U64, d: Duration)
    ensures Plus(t, d) == Nearest(t + d) <==> d < U64_END || t + d % U64_END >= U64_END - 1
    ensures Minus(t, d) == Nearest(t - d) <==> d < U64_END || t <= d % U64_END
  {}

  // ----- paths -----

  /** The n low bytes of a number, the highest first. */
  function BigEndian(k: nat, n: nat): (bytes: seq<Byte>)
    ensures |bytes| == n
  {
    if n == 0 then [] else BigEndian(k / 256, n - 1) + [k % 256]
  }

  function Nibbles(bytes: seq<Byte>): (path: Path)
    ensures |path| == 2 * |bytes|
  {
    if bytes == [] then [] else
    var last := bytes[|bytes| - 1];
    Nibbles(bytes[..|bytes| - 1]) + [last / 16, last % 16]
  }

  method ToNibbles(bytes: seq<Byte>) returns (path: Path)
    ensures path == Nibbles(bytes)
  {
    path := [];
    for i := 0 to |bytes|
      invariant path == Nibbles(bytes[..i])
    {
      path := path + [bytes[i] / 16];
      path := path + [bytes[i] % 16];
      assert bytes[..i + 1][..i] == bytes[..i];
    }
    assert bytes[..|bytes|] == bytes;
  }

  function Key(t: U64): (path: Path)
    ensures |path| == 16
  {
    Nibbles(BigEndian(t, 8))
  }

  lemma {:induction false} LessAppend(a: Path, b: Path, x: Path, y: Path)
    requires |a| == |b|
    ensures Less(a + x, b + y) <==> Less(a, b) || (a == b && Less(x, y))
  {
    if a == [] {
      assert a + x == x && b + y == y;
    } else {
      assert (a + x)[1..] == a[1..] + x && (b + y)[1..] == b[1..] + y;
      assert a == [a[0]] + a[1..] && b == [b[0]] + b[1..];
      LessAppend(a[1..], b[1..], x, y);
    }
  }

  lemma PairOrder(x: Byte, y: Byte)
    ensures Less([x / 16, x % 16], [y / 16, y % 16]) <==> x < y
    ensures [x / 16, x % 16] == [y / 16, y % 16] <==> x == y
  {
    var s, t: Path := [x / 16, x % 16], [y / 16, y % 16];
    assert s[0] == x / 16 && s[1] == x % 16 && t[0] == y / 16 && t[1] == y % 16;
    assert s[1..] == [x % 16] && t[1..] == [y % 16];
    assert Less(s[1..], t[1..]) <==> x % 16 < y % 16;
  }

  lemma {:induction false} BigEndianOrder(a: nat, b: nat, n: nat)
    requires a < Pow256(n) && b < Pow256(n)
    ensures Less(Nibbles(BigEndian(a, n)), Nibbles(BigEndian(b, n))) <==> a < b
    ensures Nibbles(BigEndian(a, n)) == Nibbles(BigEndian(b, n)) <==> a == b
  {
    if n != 0 {
      BigEndianOrder(a / 256, b / 256, n - 1);
      var p, q := BigEndian(a / 256, n - 1), BigEndian(b / 256, n - 1);
      NibblesSnoc(p, a % 256);
      NibblesSnoc(q, b % 256);
      AppendOrder(Nibbles(p), Nibbles(q), a, b);
    }
  }

  lemma NibblesSnoc(bytes: seq<Byte>, b: Byte)
    ensures Nibbles(bytes + [b]) == Nibbles(bytes) + [b / 16, b % 16]
  {
    assert (bytes + [b])[..|bytes|] == bytes;
  }

  lemma AppendOrder(p: Path, q: Path, a: nat, b: nat)
    requires |p| == |q| && (Less(p, q) <==> a / 256 < b / 256) && (p == q <==> a / 256 == b / 256)
    ensures var x, y := p + [a % 256 / 16, a % 256 % 16], q + [b % 256 / 16, b % 256 % 16];
            (Less(x, y) <==> a < b) && (x == y <==> a == b)
  {
    var s, t: Path := [a % 256 / 16, a % 256 % 16], [b % 256 / 16, b % 256 % 16];
    LessAppend(p, q, s, t);
    PairOrder(a % 256, b % 256);
    if p + s == q + t { assert p == (p + s)[..|p|] == q && s == (p + s)[|p|..] == t; }
  }

  /** Timestamps are ordered as their paths are, and different ones have different paths. */
  lemma KeyOrder(a: U64, b: U64)
    ensures Less(Key(a), Key(b)) <==> a < b
    ensures Key(a) == Key(b) <==> a == b
  {
    EightBytes();
    BigEndianOrder(a, b, 8);
  }

  /** The number that nibbles stand for, the highest first. */
  function FromNibbles(path: Path): nat {
    if path == [] then 0 else 16 * FromNibbles(path[..|path| - 1]) + path[|path| - 1]
  }

  lemma {:induction false} NibblesRead(k: nat, n: nat)
    requires k < Pow256(n)
    ensures FromNibbles(Nibbles(BigEndian(k, n))) == k
  {
    if n != 0 {
      NibblesRead(k / 256, n - 1);
      var p := Nibbles(BigEndian(k / 256, n - 1));
      NibblesSnoc(BigEndian(k / 256, n - 1), k % 256);
      ReadTwo(p, k % 256 / 16, k % 256 % 16);
    }
  }

  lemma ReadTwo(p: Path, x: Nibble, y: Nibble)
    ensures FromNibbles(p + [x, y]) == 256 * FromNibbles(p) + 16 * x + y
  {
    assert (p + [x, y])[..|p| + 1] == p + [x] && (p + [x])[..|p|] == p;
  }

  /** The path of a timestamp is its sixteen hexadecimal digits. */
  lemma KeyReads(t: U64)
    ensures |Key(t)| == 16 && FromNibbles(Key(t)) == t
  {
    EightBytes();
    NibblesRead(t, 8);
  }

  lemma EightBytes()
    ensures Pow256(8) == U64_END
  {
    assert Pow256(2) == 0x1_0000 && Pow256(4) == 0x1_0000_0000 && Pow256(6) == 0x1_0000_0000_0000;
  }
}
