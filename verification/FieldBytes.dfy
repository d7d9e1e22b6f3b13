/** Byte strings as field elements: 31 bytes per element, the last bytes first. */
module FieldBytes {
  import opened Basics
  import opened Bytes

  /** The order of the scalar field of BLS12-381. */
  const P: int := 0x73eda753_299d7d48_3339d808_09a1d805_53bda402_fffe5bfe_ffffffff_00000001

  type Fr = x: int | 0 <= x < 0x73eda753_299d7d48_3339d808_09a1d805_53bda402_fffe5bfe_ffffffff_00000001

  /** Bytes of a whole element, and bytes that always fit one. */
  const FR_BYTES := 32
  const STORED := 31

  lemma {:induction false} Pow256Add(j: nat, k: nat)
    ensures Pow256(j + k) == Pow256(j) * Pow256(k)
    decreases j
  {
    if j > 0 { Pow256Add(j - 1, k); }
  }

  lemma FieldWidth()
    ensures Pow256(16) == 0x1_00000000_00000000_00000000_00000000
    ensures Pow256(STORED) < P < Pow256(FR_BYTES)
  {
    assert Pow256(1) == 256 * Pow256(0);
    Pow256Add(1, 1);
    Pow256Add(2, 2);
    Pow256Add(4, 4);
    Pow256Add(8, 8);
    Pow256Add(16, 8);
    Pow256Add(24, 4);
    Pow256Add(28, 2);
    Pow256Add(30, 1);
    Pow256Add(16, 16);
  }

  lemma FitsField(b: seq<Byte>)
    requires |b| <= STORED
    ensures FromLe(b) < P
  {
    FromLeBound(b);
    Pow256Mono(|b|, STORED);
    FieldWidth();
  }

  /** Where the last element of an encoding starts: its length is 31, or what 31 leaves over. */
  function LastStart(n: nat): (m: nat)
    requires n > 0
    ensures m < n <= m + STORED && m % STORED == 0
  {
    n - (if n % STORED != 0 then n % STORED else STORED)
  }

  function Encode(s: seq<Byte>): seq<Fr> {
    if s == [] then [] else
    var m := LastStart(|s|);
    FitsField(s[m..]);
    [FromLe(s[m..])] + Encode(s[..m])
  }

  function Size(n: nat): nat { n / STORED + (if n % STORED != 0 then 1 else 0) }

  method Write(s: seq<Byte>, writer: seq<Fr>) returns (w: seq<Fr>)
    ensures w == writer + Encode(s)
  {
    w := writer;
    var slice := s;
    while slice != []
      invariant w + Encode(slice) == writer + Encode(s)
      decreases |slice|
    {
      var len := |slice|;
      var stray := len % STORED;
      if stray != 0 {
        FitsField(slice[len - stray..]);
        w := w + [FromLe(slice[len - stray..])];
        slice := slice[..len - stray];
      } else {
        var start := len - (if STORED <= len then STORED else len);
        FitsField(slice[start..]);
        w := w + [FromLe(slice[start..])];
        slice := slice[..start];
      }
    }
  }

  lemma {:induction false} EncodeSize(s: seq<Byte>)
    ensures |Encode(s)| == Size(|s|)
  {
    if s != [] { EncodeSize(s[..LastStart(|s|)]); }
  }

  // ----- which bytes each element holds -----

  /** The j-th element of the encoding of n bytes holds the bytes from Start(n, j) on. */
  function Start(n: nat, j: nat): int
    requires j < Size(n)
  {
    (Size(n) - 1 - j) * STORED
  }

  function Width(n: nat, j: nat): (k: nat)
    requires j < Size(n)
    ensures 0 < k <= STORED && 0 <= Start(n, j) && Start(n, j) + k <= n
  {
    if j == 0 && n % STORED != 0 then n % STORED else STORED
  }

  lemma {:induction false} EncodeAt(s: seq<Byte>, j: nat)
    requires j < Size(|s|)
    ensures |Encode(s)| == Size(|s|)
    ensures Encode(s)[j] == FromLe(s[Start(|s|, j)..Start(|s|, j) + Width(|s|, j)])
  {
    EncodeSize(s);
    var m := LastStart(|s|);
    assert m == Start(|s|, 0);
    if j == 0 {
      assert s[m..] == s[m..m + Width(|s|, 0)];
    } else {
      assert Size(m) == Size(|s|) - 1;
      EncodeAt(s[..m], j - 1);
      assert s[..m][Start(m, j - 1)..Start(m, j - 1) + STORED] == s[Start(|s|, j)..Start(|s|, j) + STORED];
    }
  }

  lemma EncodeFits(s: seq<Byte>, j: nat)
    requires j < Size(|s|)
    ensures |Encode(s)| == Size(|s|) && Encode(s)[j] < Pow256(Width(|s|, j))
  {
    EncodeAt(s, j);
    FromLeBound(s[Start(|s|, j)..Start(|s|, j) + Width(|s|, j)]);
  }

  /** Equal encodings of equally many bytes come from equal bytes. */
  lemma {:induction false} EncodeInjective(s: seq<Byte>, t: seq<Byte>)
    requires |s| == |t| && Encode(s) == Encode(t)
    ensures s == t
  {
    if s != [] {
      var m := LastStart(|s|);
      EncodeFirst(s);
      EncodeFirst(t);
      EncodeInjective(s[..m], t[..m]);
      assert s[m..] == t[m..] by {
        ToLeFromLe(s[m..]);
        ToLeFromLe(t[m..]);
      }
      SplitAt(s, m);
      SplitAt(t, m);
    }
  }

  lemma EncodeFirst(s: seq<Byte>)
    requires s != []
    ensures var m := LastStart(|s|);
            && Encode(s) != [] && Encode(s)[0] == FromLe(s[m..]) && Encode(s)[1..] == Encode(s[..m])
  {
    var m := LastStart(|s|);
    FitsField(s[m..]);
    assert Encode(s) == [FromLe(s[m..])] + Encode(s[..m]);
  }

  lemma SplitAt(s: seq<Byte>, m: nat)
    requires m <= |s|
    ensures s == s[..m] + s[m..]
  {}

  // ----- decoding -----

  /** The low k bytes of an element, if the rest are zero. */
  function Low(f: Fr, k: nat): Option<seq<Byte>>
    requires k <= FR_BYTES
  {
    var bytes := ToLe(f, FR_BYTES);
    if Zeros(bytes[k..]) then Some(bytes[..k]) else None
  }

  lemma LowIsExact(f: Fr, k: nat)
    requires k <= FR_BYTES
    ensures Low(f, k) == if f < Pow256(k) then Some(ToLe(f, k)) else None
    ensures f < Pow256(k) ==> FromLe(ToLe(f, k)) == f
  {
    FieldWidth();
    HighBytesZero(f, k, FR_BYTES);
    if f < Pow256(k) { FromLeToLe(f, k); }
  }

  /** res holds the bytes of elements j and up. */
  ghost predicate Filled(repr: seq<Fr>, n: nat, res: seq<Byte>, j: nat)
    requires Size(n) <= |repr| && |res| == n && j < Size(n)
  {
    res[Start(n, j)..Start(n, j) + Width(n, j)] == ToLe(repr[j], Width(n, j)) && repr[j] < Pow256(Width(n, j))
  }

  lemma FilledIsEncoded(repr: seq<Fr>, n: nat, res: seq<Byte>)
    requires Size(n) <= |repr| && |res| == n
    requires forall j :: 0 <= j < Size(n) ==> Filled(repr, n, res, j)
    ensures Encode(res) == repr[..Size(n)]
  {
    EncodeSize(res);
    forall j | 0 <= j < Size(n) ensures Encode(res)[j] == repr[j] {
      FilledAt(repr, n, res, j);
    }
  }

  lemma FilledAt(repr: seq<Fr>, n: nat, res: seq<Byte>, j: nat)
    requires Size(n) <= |repr| && |res| == n && j < Size(n) && Filled(repr, n, res, j)
    ensures |Encode(res)| == Size(n) && Encode(res)[j] == repr[j]
  {
    EncodeAt(res, j);
    FromLeToLe(repr[j], Width(n, j));
  }

  lemma TooLarge(repr: seq<Fr>, n: nat, j: nat, b: seq<Byte>)
    requires Size(n) <= |repr| && j < Size(n) && repr[j] >= Pow256(Width(n, j)) && |b| == n
    ensures !(Encode(b) <= repr)
  {
    EncodeFits(b, j);
  }

  ghost function Placed(res: seq<Byte>, at: nat, low: seq<Byte>): seq<Byte>
    requires at + |low| <= |res|
  {
    res[..at] + low + res[at + |low|..]
  }

  method Place(res: array<Byte>, at: nat, low: seq<Byte>)
    requires at + |low| <= res.Length
    modifies res
    ensures res[..] == Placed(old(res[..]), at, low)
  {
    forall k | 0 <= k < |low| { res[at + k] := low[k]; }
  }

  lemma PlacedFills(repr: seq<Fr>, n: nat, res: seq<Byte>, j: nat)
    requires Size(n) <= |repr| && |res| == n && j < Size(n) && repr[j] < Pow256(Width(n, j))
    ensures Filled(repr, n, Placed(res, Start(n, j), ToLe(repr[j], Width(n, j))), j)
  {}

  lemma PlacedKeeps(repr: seq<Fr>, n: nat, res: seq<Byte>, j: nat, i: nat)
    requires Size(n) <= |repr| && |res| == n && j < Size(n) && i < Size(n) && i != j && Filled(repr, n, res, i)
    ensures Filled(repr, n, Placed(res, Start(n, j), ToLe(repr[j], Width(n, j))), i)
  {
    if i < j { StartsApart(n, i, j); } else { StartsApart(n, j, i); }
    SliceKept(res, Start(n, j), ToLe(repr[j], Width(n, j)), Start(n, i), Start(n, i) + Width(n, i));
  }

  /** Earlier elements come to lie after later ones. */
  lemma StartsApart(n: nat, i: nat, j: nat)
    requires i < j < Size(n)
    ensures Start(n, j) + Width(n, j) <= Start(n, i)
  {}

  lemma SliceKept(res: seq<Byte>, at: nat, low: seq<Byte>, from: nat, to: nat)
    requires at + |low| <= |res| && from <= to <= |res| && (to <= at || at + |low| <= from)
    ensures Placed(res, at, low)[from..to] == res[from..to]
  {
    var after := Placed(res, at, low);
    assert |after| == |res|;
    forall k | from <= k < to ensures after[k] == res[k] {}
  }

  /** Copies element j into its place; fails exactly if it holds too large a number. */
  method ReadElement(repr: seq<Fr>, n: nat, j: nat, res: array<Byte>) returns (ok: bool)
    requires Size(n) <= |repr| && res.Length == n && j < Size(n)
    modifies res
    ensures ok <==> repr[j] < Pow256(Width(n, j))
    ensures ok ==> Filled(repr, n, res[..], j)
    ensures ok ==> forall i :: 0 <= i < Size(n) && i != j && Filled(repr, n, old(res[..]), i) ==> Filled(repr, n, res[..], i)
  {
    LowIsExact(repr[j], Width(n, j));
    var low := Low(repr[j], Width(n, j));
    if low.None? {
      return false;
    }
    Place(res, Start(n, j), low.value);
    PlacedFills(repr, n, old(res[..]), j);
    forall i | 0 <= i < Size(n) && i != j && Filled(repr, n, old(res[..]), i) ensures Filled(repr, n, res[..], i) {
      PlacedKeeps(repr, n, old(res[..]), j, i);
    }
    return true;
  }

  /** Some n bytes have an encoding that repr starts with. */
  ghost predicate Readable(repr: seq<Fr>, n: nat) {
    exists b: seq<Byte> :: |b| == n && Encode(b) <= repr
  }

  lemma NotReadable(repr: seq<Fr>, n: nat, j: nat)
    requires |repr| < Size(n) || (j < Size(n) && repr[j] >= Pow256(Width(n, j)))
    ensures !Readable(repr, n)
  {
    forall b: seq<Byte> | |b| == n ensures !(Encode(b) <= repr) {
      if |repr| < Size(n) { EncodeSize(b); } else { TooLarge(repr, n, j, b); }
    }
  }

  lemma FilledIsReadable(repr: seq<Fr>, n: nat, res: seq<Byte>)
    requires Size(n) <= |repr| && |res| == n && forall j :: 0 <= j < Size(n) ==> Filled(repr, n, res, j)
    ensures Readable(repr, n) && repr == Encode(res) + repr[Size(n)..]
  {
    FilledIsEncoded(repr, n, res);
    assert Encode(res) <= repr;
  }

  /** The full elements, from the last to the first. */
  method ReadChunks(repr: seq<Fr>, n: nat, res: array<Byte>) returns (ok: bool)
    requires Size(n) <= |repr| && res.Length == n && (n % STORED > 0 ==> Filled(repr, n, res[..], 0))
    modifies res
    ensures ok ==> forall j :: 0 <= j < Size(n) ==> Filled(repr, n, res[..], j)
    ensures !ok ==> !Readable(repr, n)
  {
    var chunks, size := n / STORED, Size(n);
    for i := 0 to chunks
      invariant n % STORED > 0 ==> Filled(repr, n, res[..], 0)
      invariant forall j :: size - i <= j < size ==> Filled(repr, n, res[..], j)
    {
      var j := size - 1 - i;
      ok := ReadElement(repr, n, j, res);
      if !ok {
        NotReadable(repr, n, j);
        return;
      }
    }
    return true;
  }

  /** What a failed read leaves: the input, without its first element if that was a good stray one. */
  ghost function Leftover(repr: seq<Fr>, n: nat): seq<Fr> {
    if Size(n) <= |repr| && n % STORED > 0 && repr[0] < Pow256(n % STORED) then repr[1..] else repr
  }

  /** Reads n bytes off the front of repr. Succeeds exactly if repr starts with the encoding of
      some n bytes, and returns those. */
  method Read(repr: seq<Fr>, n: nat) returns (r: Option<seq<Byte>>, rest: seq<Fr>)
    ensures r.Some? <==> Readable(repr, n)
    ensures r.Some? ==> |r.value| == n && repr == Encode(r.value) + rest
    ensures r.None? ==> rest == Leftover(repr, n)
  {
    rest := repr;
    if |repr| < Size(n) {
      NotReadable(repr, n, 0);
      return None, rest;
    }
    var res := new Byte[n](_ => 0);
    if n % STORED > 0 {
      var ok := ReadElement(repr, n, 0, res);
      if !ok {
        NotReadable(repr, n, 0);
        return None, rest;
      }
      rest := repr[1..];
    }
    var ok := ReadChunks(repr, n, res);
    if !ok {
      return None, rest;
    }
    r, rest := Some(res[..]), rest[n / STORED..];
    FilledIsReadable(repr, n, r.value);
  }
}
