/** Unshielded offers: inputs, outputs and signatures are stored in sorted order, and each
signature must stay with its input. */
module UnshieldedOffer {
  import opened Basics

  // ----- sorting under a total order -----

  ghost predicate TotalOrder<T(!new)>(leq: (T, T) -> bool) {
    && (forall a, b :: leq(a, b) || leq(b, a))
    && (forall a, b :: leq(a, b) && leq(b, a) ==> a == b)
    && (forall a, b, c :: leq(a, b) && leq(b, c) ==> leq(a, c))
  }

  ghost predicate Sorted<T>(s: seq<T>, leq: (T, T) -> bool) {
    forall i, j :: 0 <= i < j < |s| ==> leq(s[i], s[j])
  }

  function Insert<T>(s: seq<T>, x: T, leq: (T, T) -> bool): seq<T> {
    if s == [] || leq(x, s[0]) then [x] + s else [s[0]] + Insert(s[1..], x, leq)
  }

  function Sort<T>(s: seq<T>, leq: (T, T) -> bool): seq<T> {
    if s == [] then [] else Insert(Sort(s[1..], leq), s[0], leq)
  }

  lemma {:induction false} InsertKeeps<T>(s: seq<T>, x: T, leq: (T, T) -> bool)
    ensures multiset(Insert(s, x, leq)) == multiset(s) + multiset{x}
  {
    if s != [] && !leq(x, s[0]) {
      InsertKeeps(s[1..], x, leq);
      assert s == [s[0]] + s[1..];
    }
  }

  lemma {:induction false} InsertSorts<T(!new)>(s: seq<T>, x: T, leq: (T, T) -> bool)
    requires TotalOrder(leq) && Sorted(s, leq)
    ensures Sorted(Insert(s, x, leq), leq)
  {
    if s != [] && !leq(x, s[0]) {
      var t := Insert(s[1..], x, leq);
      InsertSorts(s[1..], x, leq);
      InsertKeeps(s[1..], x, leq);
      forall j | 0 <= j < |t| ensures leq(s[0], t[j]) {
        assert t[j] in multiset(t);
        assert t[j] == x || t[j] in s[1..];
      }
    }
  }

  lemma {:induction false} SortSorts<T(!new)>(s: seq<T>, leq: (T, T) -> bool)
    requires TotalOrder(leq)
    ensures Sorted(Sort(s, leq), leq) && multiset(Sort(s, leq)) == multiset(s)
  {
    if s != [] {
      SortSorts(s[1..], leq);
      InsertSorts(Sort(s[1..], leq), s[0], leq);
      InsertKeeps(Sort(s[1..], leq), s[0], leq);
      assert s == [s[0]] + s[1..];
    }
  }

  lemma WithoutLast<T>(s: seq<T>)
    requires s != []
    ensures multiset(s[..|s| - 1]) == multiset(s) - multiset{s[|s| - 1]}
  {
    SplitLast(s);
  }

  /** The last element is the greatest. */
  lemma GreatestLast<T(!new)>(s: seq<T>, x: T, leq: (T, T) -> bool)
    requires TotalOrder(leq) && Sorted(s, leq) && x in multiset(s)
    ensures s != [] && leq(x, s[|s| - 1])
  {
    var i :| 0 <= i < |s| && s[i] == x;
    assert leq(x, x);
  }

  lemma LastsEqual<T(!new)>(s: seq<T>, t: seq<T>, leq: (T, T) -> bool)
    requires TotalOrder(leq) && Sorted(s, leq) && Sorted(t, leq) && multiset(s) == multiset(t) && s != [] && t != []
    ensures s[|s| - 1] == t[|t| - 1]
  {
    var x, y := s[|s| - 1], t[|t| - 1];
    assert x in multiset(s) && y in multiset(t);
    GreatestLast(t, x, leq);
    GreatestLast(s, y, leq);
  }

  lemma SameLength<T>(s: seq<T>, t: seq<T>)
    requires multiset(s) == multiset(t)
    ensures |s| == |t|
  {
    assert |s| == |multiset(s)| && |t| == |multiset(t)|;
  }

  lemma SplitLast<T>(s: seq<T>)
    requires s != []
    ensures s == s[..|s| - 1] + [s[|s| - 1]]
  {}

  /** There is only one way to sort, so any other sorting routine gives the same. */
  lemma {:induction false} OneWayToSort<T(!new)>(s: seq<T>, t: seq<T>, leq: (T, T) -> bool)
    requires TotalOrder(leq) && Sorted(s, leq) && Sorted(t, leq) && multiset(s) == multiset(t)
    ensures s == t
  {
    SameLength(s, t);
    if s != [] {
      var k := |s| - 1;
      LastsEqual(s, t, leq);
      assert multiset(s[..k]) == multiset(t[..k]) by {
        WithoutLast(s);
        WithoutLast(t);
      }
      OneWayToSort(s[..k], t[..k], leq);
      SplitLast(s);
      SplitLast(t);
    }
  }

  // ----- pairs -----

  function Zip<A, B>(a: seq<A>, b: seq<B>): (p: seq<(A, B)>)
    requires |a| == |b|
    ensures |p| == |a|
  {
    seq(|a|, i requires 0 <= i < |a| => (a[i], b[i]))
  }

  function Firsts<A, B>(p: seq<(A, B)>): (a: seq<A>)
    ensures |a| == |p|
  {
    seq(|p|, i requires 0 <= i < |p| => p[i].0)
  }

  function Seconds<A, B>(p: seq<(A, B)>): (b: seq<B>)
    ensures |b| == |p|
  {
    seq(|p|, i requires 0 <= i < |p| => p[i].1)
  }

  /** Pairs are compared by their first part, then by their second. */
  function PairLeq<A(==), B>(leqA: (A, A) -> bool, leqB: (B, B) -> bool): ((A, B), (A, B)) -> bool {
    (x: (A, B), y: (A, B)) => if x.0 == y.0 then leqB(x.1, y.1) else leqA(x.0, y.0)
  }

  lemma PairOrder<A(!new), B(!new)>(leqA: (A, A) -> bool, leqB: (B, B) -> bool)
    requires TotalOrder(leqA) && TotalOrder(leqB)
    ensures TotalOrder(PairLeq(leqA, leqB))
  {
    var leq := PairLeq(leqA, leqB);
    forall x: (A, B), y: (A, B) ensures leq(x, y) || leq(y, x) {
      assert leqA(x.0, y.0) || leqA(y.0, x.0);
      assert leqB(x.1, y.1) || leqB(y.1, x.1);
    }
    forall x: (A, B), y: (A, B) | leq(x, y) && leq(y, x) ensures x == y {
      assert x == (x.0, x.1) && y == (y.0, y.1);
    }
    forall x: (A, B), y: (A, B), z: (A, B) | leq(x, y) && leq(y, z) ensures leq(x, z) {
      assert leqA(x.0, y.0) && leqA(y.0, z.0) ==> leqA(x.0, z.0);
      assert leqA(x.0, y.0) && leqA(y.0, x.0) ==> x.0 == y.0;
      assert leqB(x.1, y.1) && leqB(y.1, z.1) ==> leqB(x.1, z.1);
    }
  }

  lemma FirstsWithout<A, B>(q: seq<(A, B)>, k: nat)
    requires k < |q|
    ensures var rest := q[..k] + q[k + 1..];
            && multiset(q) == multiset(rest) + multiset{q[k]}
            && multiset(Firsts(q)) == multiset(Firsts(rest)) + multiset{q[k].0}
  {
    var rest := q[..k] + q[k + 1..];
    assert q == q[..k] + [q[k]] + q[k + 1..];
    assert Firsts(q) == Firsts(q[..k]) + [q[k].0] + Firsts(q[k + 1..]);
    assert Firsts(rest) == Firsts(q[..k]) + Firsts(q[k + 1..]);
  }

  lemma {:induction false} FirstsKept<A, B>(p: seq<(A, B)>, q: seq<(A, B)>)
    requires multiset(p) == multiset(q)
    ensures multiset(Firsts(p)) == multiset(Firsts(q))
    decreases |p|
  {
    if p == [] {
      assert |multiset(q)| == 0;
    } else {
      assert p[0] in multiset(q);
      var k :| 0 <= k < |q| && q[k] == p[0];
      var p', q' := p[..0] + p[1..], q[..k] + q[k + 1..];
      FirstsWithout(p, 0);
      FirstsWithout(q, k);
      CancelOne(multiset(p'), multiset(q'), p[0]);
      CancelOne(multiset(q'), multiset(p'), p[0]);
      FirstsKept(p', q');
    }
  }

  // ----- offers -----

  datatype Offer<I, O, S> = Offer(inputs: seq<I>, outputs: seq<O>, signatures: seq<S>)

  lemma FirstsSorted<A(!new), B(!new)>(p: seq<(A, B)>, leqA: (A, A) -> bool, leqB: (B, B) -> bool)
    requires TotalOrder(leqA) && Sorted(p, PairLeq(leqA, leqB))
    ensures Sorted(Firsts(p), leqA)
  {
    forall i, j | 0 <= i < j < |p| ensures leqA(p[i].0, p[j].0) {
      assert PairLeq(leqA, leqB)(p[i], p[j]);
      assert leqA(p[i].0, p[i].0);
    }
  }

  /** Sorting pairs and sorting their first parts alone agree. */
  lemma Lockstep<A(!new), B(!new)>(a: seq<A>, b: seq<B>, leqA: (A, A) -> bool, leqB: (B, B) -> bool)
    requires TotalOrder(leqA) && TotalOrder(leqB) && |a| == |b|
    ensures var p := Sort(Zip(a, b), PairLeq(leqA, leqB));
            && |p| == |a| && Firsts(p) == Sort(a, leqA)
            && Sorted(p, PairLeq(leqA, leqB)) && multiset(p) == multiset(Zip(a, b))
  {
    var leq := PairLeq(leqA, leqB);
    var p := Sort(Zip(a, b), leq);
    PairOrder(leqA, leqB);
    SortSorts(Zip(a, b), leq);
    SortSorts(a, leqA);
    assert |p| == |multiset(p)| && |a| == |multiset(Zip(a, b))|;
    FirstsSorted(p, leqA, leqB);
    FirstsKept(p, Zip(a, b));
    assert Firsts(Zip(a, b)) == a;
    OneWayToSort(Firsts(p), Sort(a, leqA), leqA);
  }

  lemma ZipParts<A, B>(p: seq<(A, B)>)
    ensures Zip(Firsts(p), Seconds(p)) == p
  {}

  /** The stored inputs and outputs are sorted rearrangements of the given ones. With one
      signature per input, so are the stored pairs of input and signature, duplicates included;
      otherwise the signatures are stored as given. */
  ghost predicate Stores<I, O, S>(offer: Offer<I, O, S>, inputs: seq<I>, outputs: seq<O>, signatures: seq<S>,
      leqI: (I, I) -> bool, leqO: (O, O) -> bool, leqS: (S, S) -> bool)
  {
    && Sorted(offer.inputs, leqI) && multiset(offer.inputs) == multiset(inputs)
    && Sorted(offer.outputs, leqO) && multiset(offer.outputs) == multiset(outputs)
    && (|signatures| != |inputs| ==> offer.signatures == signatures)
    && (|signatures| == |inputs| ==>
          && |offer.signatures| == |offer.inputs|
          && Sorted(Zip(offer.inputs, offer.signatures), PairLeq(leqI, leqS))
          && multiset(Zip(offer.inputs, offer.signatures)) == multiset(Zip(inputs, signatures)))
  }

  method New<I(==, !new), O(!new), S(!new)>(inputs: seq<I>, outputs: seq<O>, signatures: seq<S>,
      leqI: (I, I) -> bool, leqO: (O, O) -> bool, leqS: (S, S) -> bool) returns (offer: Offer<I, O, S>)
    requires TotalOrder(leqI) && TotalOrder(leqO) && TotalOrder(leqS)
    ensures Stores(offer, inputs, outputs, signatures, leqI, leqO, leqS)
  {
    var sigs := signatures;
    if |sigs| == |inputs| {
      var inputSigs := Zip(inputs, sigs);
      inputSigs := Sort(inputSigs, PairLeq(leqI, leqS));
      sigs := Seconds(inputSigs);
      Lockstep(inputs, signatures, leqI, leqS);
      ZipParts(inputSigs);
    }
    var sortedInputs := Sort(inputs, leqI);
    var sortedOutputs := Sort(outputs, leqO);
    SortSorts(inputs, leqI);
    SortSorts(outputs, leqO);
    offer := Offer(sortedInputs, sortedOutputs, sigs);
  }

  /** Of equal inputs, the one with the smaller signature is stored first. */
  lemma EqualInputs<I(!new), O(!new), S(!new)>(offer: Offer<I, O, S>,
      inputs: seq<I>, outputs: seq<O>, signatures: seq<S>,
      leqI: (I, I) -> bool, leqO: (O, O) -> bool, leqS: (S, S) -> bool, i: nat, j: nat)
    requires Stores(offer, inputs, outputs, signatures, leqI, leqO, leqS) && |signatures| == |inputs|
    requires i < j < |offer.inputs| && offer.inputs[i] == offer.inputs[j]
    ensures leqS(offer.signatures[i], offer.signatures[j])
  {
    var p := Zip(offer.inputs, offer.signatures);
    assert PairLeq(leqI, leqS)(p[i], p[j]);
  }

  lemma PairsApart<A, B>(a: seq<A>, b: seq<B>, a': seq<A>, b': seq<B>)
    requires |a| == |b| && |a'| == |b'| && Zip(a, b) == Zip(a', b')
    ensures a == a' && b == b'
  {
    assert |a| == |Zip(a, b)| == |a'|;
    forall i | 0 <= i < |a| ensures a[i] == a'[i] && b[i] == b'[i] { assert Zip(a, b)[i] == Zip(a', b')[i]; }
  }

  /** There is one way to store an offer, and the order in which its parts came does not show. */
  lemma OrderForgotten<I(!new), O(!new), S(!new)>(offer: Offer<I, O, S>, offer': Offer<I, O, S>,
      inputs: seq<I>, outputs: seq<O>, signatures: seq<S>, inputs': seq<I>, outputs': seq<O>, signatures': seq<S>,
      leqI: (I, I) -> bool, leqO: (O, O) -> bool, leqS: (S, S) -> bool)
    requires TotalOrder(leqI) && TotalOrder(leqO) && TotalOrder(leqS)
    requires |inputs| == |signatures| && |inputs'| == |signatures'|
    requires multiset(Zip(inputs, signatures)) == multiset(Zip(inputs', signatures'))
    requires multiset(outputs) == multiset(outputs')
    requires Stores(offer, inputs, outputs, signatures, leqI, leqO, leqS)
    requires Stores(offer', inputs', outputs', signatures', leqI, leqO, leqS)
    ensures offer == offer'
  {
    var p, p' := Zip(offer.inputs, offer.signatures), Zip(offer'.inputs, offer'.signatures);
    PairOrder(leqI, leqS);
    OneWayToSort(p, p', PairLeq(leqI, leqS));
    PairsApart(offer.inputs, offer.signatures, offer'.inputs, offer'.signatures);
    OneWayToSort(offer.outputs, offer'.outputs, leqO);
  }
}
