/** Histories that end in a panic, and nodes that the checks let through. */
module TrieExamples {
  import opened Trie
  import opened TrieMap
  import opened TrieCanon
  import opened TrieKeeps
  import opened TrieHistories
  import opened TriePredecessor
  import opened TrieChecked

  // ----- nodes that pass the checks and are not canonical -----

  /** An extension that leads nowhere passes all checks and stands for the empty map, as the empty
      node does. */
  lemma HollowPasses<V(!new)>(p: Path)
    requires 0 < |p| <= MAX_PATH
    ensures var n: Node<V> := Extension(0, p, Empty);
            Summed(n) && Arranged(n) && Shaped(n) && Same(n, Empty) && n != Empty
  {}

  /** So does an extension with an empty path, above anything that passes and is no extension. */
  lemma PathlessPasses<V>(n: Node<V>)
    requires Summed(n) && Arranged(n) && !n.Extension?
    ensures var m := Extension(Ann(n), [], n); Summed(m) && Arranged(m) && !Solid(m)
  {}

  lemma SumSingle<V>(i: Nibble, child: Node<V>)
    ensures AnnSum(Single(i, child)) == Ann(child)
  {
    SumPart(i, child, 16);
    assert Single(i, child)[..16] == Single(i, child);
  }

  lemma {:induction false} SumPart<V>(i: Nibble, child: Node<V>, k: nat)
    requires k <= 16
    ensures AnnSum(Single(i, child)[..k]) == if i < k then Ann(child) else 0
  {
    if k > 0 {
      SumPart(i, child, k - 1);
      assert Single(i, child)[..k][..k - 1] == Single(i, child)[..k - 1];
    }
  }

  /** The sums alone, which are all that loading checks, let a branch with one child through. */
  lemma LonelyLoads<V(!new)>(i: Nibble, v: V)
    ensures var n, m := Branch(1, Single(i, Leaf(1, v))), Extension(1, [i], Leaf(1, v));
            && Summed(n) && Shaped(n) && Canonical(m) && Shaped(m) && Same(n, m) && n != m && !Arranged(n)
  {
    var n, m := Branch(1, Single(i, Leaf(1, v))), Extension(1, [i], Leaf(1, v));
    SumSingle(i, Leaf(1, v));
    FilledSingle(i, Leaf(1, v));
    assert forall j :: 0 <= j < 16 ==> n.children[j] == if j == i then Leaf(1, v) else Empty;
    forall q ensures Lookup(n, q) == Lookup(m, q) { assert q != [] && q[0] == i <==> [i] <= q; }
  }

  // ----- panics -----

  lemma Prefixed(p: Path, v: int)
    requires 0 < |p| <= MAX_PATH
    ensures Apply(Empty, Put(p, v)) == Extension(1, p, Leaf(1, v))
  {}

  /** Removing the common prefix of two keys panics. */
  lemma RemovalPanics(v: int, w: int)
    ensures Remove(Built([Put([1, 2], v), Put([1, 3], w)]), [1]) == Panic
  {
    BuiltTwo(Put([1, 2], v), Put([1, 3], w));
    Prefixed([1, 2], v);
    var n := Extension(1, [1, 2], Leaf(1, v));
    InsertSplitForm(n, [1, 3], w);
    assert Divergence([1, 2], [1, 3]) == 1;
    assert [1, 3][1..] == [3];
    assert [1][1..] == [];
  }

  /** So does searching before a proper prefix of the only key. */
  lemma SearchPanics(v: int)
    ensures Predecessor(Built([Put([1, 2], v)]), [1], []) == OutOfRange
  {
    BuiltOne(Put([1, 2], v));
    Prefixed([1, 2], v);
  }
}
