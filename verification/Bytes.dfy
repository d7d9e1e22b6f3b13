/** Bytes and little-endian numbers. */
module Bytes {

  type Byte = x: int | 0 <= x < 256

  // ----- little-endian numbers -----

  function Pow256(k: nat): (p: nat)
    ensures p > 0
  {
    if k == 0 then 1 else 256 * Pow256(k - 1)
  }

  function FromLe(b: seq<Byte>): nat {
    if b == [] then 0 else b[0] + 256 * FromLe(b[1..])
  }

  /** The k low bytes of f. */
  function ToLe(f: nat, k: nat): (b: seq<Byte>)
    ensures |b| == k
  {
    if k == 0 then [] else [f % 256] + ToLe(f / 256, k - 1)
  }

  lemma {:induction false} FromLeBound(b: seq<Byte>)
    ensures FromLe(b) < Pow256(|b|)
  {
    if b != [] { FromLeBound(b[1..]); }
  }

  lemma {:induction false} FromLeToLe(f: nat, k: nat)
    requires f < Pow256(k)
    ensures FromLe(ToLe(f, k)) == f
  {
    if k > 0 { FromLeToLe(f / 256, k - 1); }
  }

  lemma {:induction false} ToLeFromLe(b: seq<Byte>)
    ensures ToLe(FromLe(b), |b|) == b
  {
    if b != [] {
      ToLeFromLe(b[1..]);
      assert b == [b[0]] + b[1..];
    }
  }

  predicate Zeros(b: seq<Byte>) { forall i :: 0 <= i < |b| ==> b[i] == 0 }

  lemma {:induction false} ZeroBytes(f: nat, n: nat)
    requires f < Pow256(n)
    ensures Zeros(ToLe(f, n)) <==> f == 0
  {
    if n > 0 {
      var t := ToLe(f / 256, n - 1);
      ZeroBytes(f / 256, n - 1);
      if Zeros(ToLe(f, n)) {
        assert forall i :: 0 <= i < |t| ==> t[i] == ToLe(f, n)[i + 1];
        assert ToLe(f, n)[0] == f % 256;
      }
      if f == 0 { assert Zeros([0] + t); }
    }
  }

  /** The bytes from k on are zero exactly if the number fits k bytes. */
  lemma {:induction false} HighBytesZero(f: nat, k: nat, n: nat)
    requires k <= n && f < Pow256(n)
    ensures Zeros(ToLe(f, n)[k..]) <==> f < Pow256(k)
    ensures f < Pow256(k) ==> ToLe(f, n)[..k] == ToLe(f, k)
    decreases n
  {
    if k == 0 {
      ZeroBytes(f, n);
      assert ToLe(f, n)[0..] == ToLe(f, n);
    } else {
      var b, t := ToLe(f, n), ToLe(f / 256, n - 1);
      HighBytesZero(f / 256, k - 1, n - 1);
      assert b == [f % 256] + t;
      assert b[k..] == t[k - 1..];
      assert b[..k] == [f % 256] + t[..k - 1];
    }
  }

  lemma {:induction false} Pow256Mono(j: nat, k: nat)
    requires j <= k
    ensures Pow256(j) <= Pow256(k)
  {
    if j < k { Pow256Mono(j, k - 1); }
  }
}
