/** The keys behind the values that pruning takes out, in their order. */
module TrieOrder {
  import opened Basics
  import opened Trie
  import opened TrieMap
  import opened TriePrune

  ghost function Below(head: Path, keys: seq<Path>): (below: seq<Path>)
    ensures |below| == |keys|
  {
    seq(|keys|, i requires 0 <= i < |keys| => head + keys[i])
  }

  /** The keys of a node, each before those that continue it. */
  ghost function Keys<V>(n: Node<V>): seq<Path>
    requires Shaped(n)
    decreases n, 17
  {
    match n
    case Empty => []
    case Leaf(_, _) => [[]]
    case Branch(_, _) => BranchKeys(n, 16)
    case Extension(_, path, child) => Below(path, Keys(child))
    case MidBranchLeaf(_, _, child) => [[]] + Keys(child)
  }

  ghost function BranchKeys<V>(n: Node<V>, h: nat): seq<Path>
    requires Shaped(n) && n.Branch? && h <= 16
    decreases n, h
  {
    if h == 0 then [] else BranchKeys(n, h - 1) + Below([h - 1], Keys(n.children[h - 1]))
  }

  ghost predicate Increasing(keys: seq<Path>) {
    forall i, j :: 0 <= i < j < |keys| ==> Less(keys[i], keys[j])
  }

  ghost predicate Hold<V>(n: Node<V>, keys: seq<Path>, values: seq<V>)
    requires Shaped(n)
  {
    |keys| == |values| && forall i :: 0 <= i < |keys| ==> Lookup(n, keys[i]) == Some(values[i])
  }

  /** These are keys of the node in increasing order, with their values. */
  ghost predicate Lists<V>(n: Node<V>, keys: seq<Path>, values: seq<V>)
    requires Shaped(n)
  {
    Hold(n, keys, values) && Increasing(keys)
  }

  lemma IncreasingJoin(a: seq<Path>, b: seq<Path>)
    requires Increasing(a) && Increasing(b)
    requires forall i, j :: 0 <= i < |a| && 0 <= j < |b| ==> Less(a[i], b[j])
    ensures Increasing(a + b)
  {
    var c := a + b;
    forall i, j | 0 <= i < j < |c| ensures Less(c[i], c[j]) {
      if j < |a| {
        assert c[i] == a[i] && c[j] == a[j];
      } else if i < |a| {
        assert c[i] == a[i] && c[j] == b[j - |a|];
      } else {
        assert c[i] == b[i - |a|] && c[j] == b[j - |a|];
      }
    }
  }

  lemma HoldJoin<V>(n: Node<V>, a: seq<Path>, v: seq<V>, b: seq<Path>, w: seq<V>)
    requires Shaped(n) && Hold(n, a, v) && Hold(n, b, w)
    ensures Hold(n, a + b, v + w)
  {
    forall i | 0 <= i < |a + b| ensures Lookup(n, (a + b)[i]) == Some((v + w)[i]) {
      if i < |a| {
        assert (a + b)[i] == a[i] && (v + w)[i] == v[i];
      } else {
        assert (a + b)[i] == b[i - |a|] && (v + w)[i] == w[i - |v|];
      }
    }
  }

  lemma ListsJoin<V>(n: Node<V>, keys: seq<Path>, values: seq<V>, keys': seq<Path>, values': seq<V>)
    requires Shaped(n) && Lists(n, keys, values) && Lists(n, keys', values')
    requires forall i, j :: 0 <= i < |keys| && 0 <= j < |keys'| ==> Less(keys[i], keys'[j])
    ensures Lists(n, keys + keys', values + values')
  {
    IncreasingJoin(keys, keys');
    HoldJoin(n, keys, values, keys', values');
  }

  lemma ListsBelow<V>(n: Node<V>, head: Path, child: Node<V>, keys: seq<Path>, values: seq<V>)
    requires Shaped(n) && Shaped(child) && Lists(child, keys, values)
    requires forall k :: Lookup(n, head + k) == Lookup(child, k)
    ensures Lists(n, Below(head, keys), values)
  {
    var below := Below(head, keys);
    forall i, j | 0 <= i < j < |keys| ensures Less(below[i], below[j]) {
      LessBelow(head, below[i], below[j]);
      assert below[i][|head|..] == keys[i] && below[j][|head|..] == keys[j];
    }
  }

  lemma ListsChild<V>(n: Node<V>, i: Nibble)
    requires Shaped(n) && n.Branch? && Lists(n.children[i], Keys(n.children[i]), Values(n.children[i]))
    ensures Lists(n, Below([i], Keys(n.children[i])), Values(n.children[i]))
  {
    forall k ensures Lookup(n, [i] + k) == Lookup(n.children[i], k) { BelowBranch(n, i, k); }
    ListsBelow(n, [i], n.children[i], Keys(n.children[i]), Values(n.children[i]));
  }

  lemma {:induction false} BranchHeads<V>(n: Node<V>, h: nat, i: nat)
    requires Shaped(n) && n.Branch? && h <= 16 && i < |BranchKeys(n, h)|
    ensures var k := BranchKeys(n, h)[i]; k != [] && k[0] < h
  {
    if i < |BranchKeys(n, h - 1)| { BranchHeads(n, h - 1, i); }
  }

  lemma {:induction false} BranchListed<V>(n: Node<V>, h: nat)
    requires Shaped(n) && n.Branch? && h <= 16
    ensures Lists(n, BranchKeys(n, h), ValuesOf(n.children[..h]))
    decreases n, h
  {
    if h != 0 {
      var first, last := BranchKeys(n, h - 1), Below([h - 1], Keys(n.children[h - 1]));
      BranchListed(n, h - 1);
      Listed(n.children[h - 1]);
      ListsChild(n, h - 1);
      forall i, j | 0 <= i < |first| && 0 <= j < |last| ensures Less(first[i], last[j]) { BranchHeads(n, h - 1, i); }
      ListsJoin(n, first, ValuesOf(n.children[..h - 1]), last, Values(n.children[h - 1]));
      assert n.children[..h][..h - 1] == n.children[..h - 1];
    }
  }

  /** The values of a node are those of its keys in order. */
  lemma {:induction false} Listed<V>(n: Node<V>)
    requires Shaped(n)
    ensures Lists(n, Keys(n), Values(n))
    decreases n, 17
  {
    match n
    case Empty =>
    case Leaf(_, _) =>
    case Branch(_, children) =>
      BranchListed(n, 16);
      assert children[..16] == children;
    case Extension(_, path, child) =>
      Listed(child);
      forall k ensures Lookup(n, path + k) == Lookup(child, k) { BelowExtension(n, k); }
      ListsBelow(n, path, child, Keys(child), Values(child));
    case MidBranchLeaf(_, value, child) =>
      Listed(child);
      ChildListed(n);
      ListsJoin(n, [[]], [value], Keys(child), Values(child));
  }

  lemma ChildListed<V>(n: Node<V>)
    requires Shaped(n) && n.MidBranchLeaf? && Lists(n.child, Keys(n.child), Values(n.child))
    ensures Lists(n, Keys(n.child), Values(n.child))
    ensures forall i :: 0 <= i < |Keys(n.child)| ==> Less([], Keys(n.child)[i])
  {
    assert Lookup(n.child, []) == None;
  }

  lemma {:induction false} BranchComplete<V>(n: Node<V>, h: nat, q: Path)
    requires Shaped(n) && n.Branch? && h <= 16 && q != [] && q[0] < h && Lookup(n, q).Some?
    ensures q in BranchKeys(n, h)
    decreases n, h
  {
    if q[0] < h - 1 {
      BranchComplete(n, h - 1, q);
    } else {
      Complete(n.children[h - 1], q[1..]);
      InBelow([h - 1], Keys(n.children[h - 1]), q[1..]);
      assert q == [h - 1] + q[1..];
    }
  }

  lemma InBelow(head: Path, keys: seq<Path>, q: Path)
    requires q in keys
    ensures head + q in Below(head, keys)
  {
    var i :| 0 <= i < |keys| && keys[i] == q;
    assert Below(head, keys)[i] == head + q;
  }

  lemma {:induction false} Complete<V>(n: Node<V>, q: Path)
    requires Shaped(n) && Lookup(n, q).Some?
    ensures q in Keys(n)
    decreases n, 17
  {
    match n
    case Leaf(_, _) =>
    case Branch(_, _) => BranchComplete(n, 16, q);
    case Extension(_, path, child) =>
      Complete(child, q[|path|..]);
      InBelow(path, Keys(child), q[|path|..]);
      assert q == path + q[|path|..];
    case MidBranchLeaf(_, _, child) => if q != [] { Complete(child, q); }
  }

  // ----- which ones pruning takes -----

  lemma {:induction false} LessTransitive(a: Path, b: Path, c: Path)
    requires Less(a, b) && Less(b, c)
    ensures Less(a, c)
  {
    if a != [] && a[0] == b[0] == c[0] { LessTransitive(a[1..], b[1..], c[1..]); }
  }

  lemma {:induction false} LessIrreflexive(a: Path)
    ensures !Less(a, a)
  {
    if a != [] { LessIrreflexive(a[1..]); }
  }

  /** The keys below a target come first. */
  lemma {:induction false} FirstBelow(keys: seq<Path>, target: Path) returns (m: nat)
    requires Increasing(keys)
    ensures m <= |keys| && forall i :: 0 <= i < |keys| ==> (Less(keys[i], target) <==> i < m)
  {
    if keys == [] {
      m := 0;
    } else {
      var k := |keys| - 1;
      m := FirstBelow(keys[..k], target);
      assert forall i :: 0 <= i < k ==> keys[..k][i] == keys[i];
      if Less(keys[k], target) {
        forall i | 0 <= i < k ensures Less(keys[i], target) { LessTransitive(keys[i], keys[k], target); }
        m := k + 1;
      }
    }
  }

  lemma FirstAgrees(a: seq<Path>, b: seq<Path>)
    requires Increasing(a) && Increasing(b) && a != [] && b != [] && a[0] in b && b[0] in a
    ensures a[0] == b[0]
  {
    if a[0] != b[0] {
      var i :| 0 <= i < |a| && a[i] == b[0];
      var j :| 0 <= j < |b| && b[j] == a[0];
      LessTransitive(a[0], b[0], a[0]);
      LessIrreflexive(a[0]);
    }
  }

  lemma RestHas(a: seq<Path>, q: Path)
    requires Increasing(a) && a != []
    ensures Increasing(a[1..]) && (q in a[1..] <==> q in a && q != a[0])
  {
    LessIrreflexive(a[0]);
    if q in a && q != a[0] {
      var i :| 0 <= i < |a| && a[i] == q;
      assert a[1..][i - 1] == q;
    }
    if q in a[1..] {
      var i :| 0 <= i < |a| - 1 && a[1..][i] == q;
      assert a[i + 1] == q && Less(a[0], q);
    }
  }

  /** There is one increasing sequence of the same keys. */
  lemma {:induction false} OneOrder(a: seq<Path>, b: seq<Path>)
    requires Increasing(a) && Increasing(b) && forall q :: q in a <==> q in b
    ensures a == b
  {
    assert a == [] <==> b == [] by {
      if a != [] { assert a[0] in a; }
      if b != [] { assert b[0] in b; }
    }
    if a != [] {
      FirstAgrees(a, b);
      forall q ensures q in a[1..] <==> q in b[1..] {
        RestHas(a, q);
        RestHas(b, q);
      }
      RestHas(a, a[0]);
      RestHas(b, b[0]);
      OneOrder(a[1..], b[1..]);
      assert a == [a[0]] + a[1..] && b == [b[0]] + b[1..];
    }
  }

  lemma KeysListed<V>(n: Node<V>)
    requires Shaped(n)
    ensures Lists(n, Keys(n), Values(n)) && Increasing(Keys(n))
    ensures forall q :: Lookup(n, q).Some? <==> q in Keys(n)
  {
    Listed(n);
    forall q ensures Lookup(n, q).Some? <==> q in Keys(n) {
      if Lookup(n, q).Some? { Complete(n, q); }
    }
  }

  /** What pruning leaves are the keys from some point on. */
  lemma KeysLeft<V>(n: Node<V>, target: Path, m: nat)
    requires Shaped(n) && m <= |Keys(n)|
    requires forall i :: 0 <= i < |Keys(n)| ==> (Less(Keys(n)[i], target) <==> i < m)
    ensures Shaped(Prune(n, target).0) && Keys(Prune(n, target).0) == Keys(n)[m..]
  {
    var keys, rest := Keys(n), Prune(n, target).0;
    PruneCuts(n, target, []);
    KeysListed(n);
    KeysListed(rest);
    forall q ensures q in Keys(rest) <==> q in keys[m..] {
      PruneCuts(n, target, q);
      if q in keys && !Less(q, target) {
        var i :| 0 <= i < |keys| && keys[i] == q;
        assert keys[m..][i - m] == q;
      }
    }
    OneOrder(Keys(rest), keys[m..]);
  }

  /** Pruning takes out the values of the keys below the target, in the order of the keys. */
  lemma PruneTakesInOrder<V>(n: Node<V>, target: Path)
    requires Shaped(n)
    ensures Lists(n, Keys(n), Values(n)) && forall q :: Lookup(n, q).Some? <==> q in Keys(n)
    ensures var taken := Prune(n, target).1;
            && taken <= Values(n)
            && forall i :: 0 <= i < |Keys(n)| ==> (Less(Keys(n)[i], target) <==> i < |taken|)
  {
    KeysListed(n);
    var m := FirstBelow(Keys(n), target);
    KeysLeft(n, target, m);
    KeysListed(Prune(n, target).0);
    PruneInOrder(n, target);
  }
}
