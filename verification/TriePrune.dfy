/** Pruning a trie below a path. */
module TriePrune {
  import opened Basics
  import opened Trie
  import opened TrieMap
  import opened TrieCanon
  import opened TrieKeeps
  import opened TrieSizes

  // ----- lexicographic order -----

  predicate Less(a: Path, b: Path) {
    b != [] && (a == [] || a[0] < b[0] || (a[0] == b[0] && Less(a[1..], b[1..])))
  }

  lemma {:induction false} LessBelow(p: Path, a: Path, b: Path)
    requires p <= a && p <= b
    ensures Less(a, b) <==> Less(a[|p|..], b[|p|..])
  {
    if p == [] {
      assert a[0..] == a && b[0..] == b;
    } else {
      LessBelow(p[1..], a[1..], b[1..]);
      assert a[1..][|p| - 1..] == a[|p|..] && b[1..][|p| - 1..] == b[|p|..];
    }
  }

  /** The part of a path that an extension is compared with. */
  function Relevant(compressed: Path, target: Path): Path {
    if |target| < |compressed| then target else target[..|compressed|]
  }

  /** An extension off the target's path is on one side of it with everything below. */
  lemma {:induction false} OneSide(compressed: Path, target: Path, q: Path)
    requires compressed != Relevant(compressed, target) && compressed <= q
    ensures Less(q, target) <==> Less(compressed, Relevant(compressed, target))
  {
    if compressed != [] && target != [] && compressed[0] == target[0] {
      assert Relevant(compressed, target)[1..] == Relevant(compressed[1..], target[1..]);
      assert compressed == [compressed[0]] + compressed[1..];
      assert Relevant(compressed, target) == [target[0]] + Relevant(compressed, target)[1..];
      OneSide(compressed[1..], target[1..], q[1..]);
    }
  }

  lemma RelevantEqual(compressed: Path, target: Path)
    ensures compressed == Relevant(compressed, target) <==> compressed <= target
  {}

  // ----- pruning -----

  /** All values below a node, each before those whose path continues its own. */
  function Values<V>(n: Node<V>): seq<V>
  {
    match n
    case Empty => []
    case Leaf(_, value) => [value]
    case Branch(_, children) => ValuesOf(children)
    case Extension(_, _, child) => Values(child)
    case MidBranchLeaf(_, value, child) => [value] + Values(child)
  }

  function ValuesOf<V>(children: seq<Node<V>>): seq<V> {
    if children == [] then [] else ValuesOf(children[..|children| - 1]) + Values(children[|children| - 1])
  }

  /** The children from the i-th on, of which that one is replaced. */
  function Kept<V>(children: seq<Node<V>>, i: Nibble, child: Node<V>): (kept: seq<Node<V>>)
    requires |children| == 16
    ensures |kept| == 16
  {
    seq(16, j requires 0 <= j < 16 => if j < i then Empty else if j == i then child else children[j])
  }

  /** The loop over a copy of the children. */
  method ClearBefore<V>(children: seq<Node<V>>, i: Nibble, child: Node<V>) returns (kept: seq<Node<V>>)
    requires |children| == 16
    ensures kept == Kept(children, i, child)
  {
    kept := children;
    for k := 0 to i
      invariant |kept| == 16
      invariant forall j :: 0 <= j < 16 ==> kept[j] == if j < k then Empty else children[j]
    {
      kept := kept[k := Empty];
    }
    kept := kept[i := child];
  }

  function Collapsed<V>(size: nat, children: seq<Node<V>>): Node<V>
    requires |children| == 16
  {
    if Filled(children) == 0 then Empty
    else if Filled(children) == 1 then Shrunk(children)
    else Branch(size, children)
  }

  /** What is left, and the values taken out. */
  function Prune<V>(n: Node<V>, target: Path): (Node<V>, seq<V>)
    requires Shaped(n)
    decreases n
  {
    if target == [] then (n, []) else
    match n
    case Empty => (Empty, [])
    case Leaf(_, value) => (Empty, [value])
    case Branch(size, children) =>
      var (child, below) := Prune(children[target[0]], target[1..]);
      var kept := Kept(children, target[0], child);
      var pruned := ValuesOf(children[..target[0]]) + below;
      (Collapsed(if pruned == [] then size else AnnSum(kept), kept), pruned)
    case Extension(size, compressed, child) =>
      var relevant := Relevant(compressed, target);
      if compressed == relevant then
        var (below, pruned) := Prune(child, target[|compressed|..]);
        var rest :=
          if below.Empty? then Empty
          else if below.Extension? then Extend(compressed + below.path, below.child)
          else Extension(if pruned == [] then size else Ann(below), compressed, below);
        (rest, pruned)
      else if Less(compressed, relevant) then (Empty, Values(child))
      else (n, [])
    case MidBranchLeaf(_, value, child) =>
      var (below, pruned) := Prune(child, target);
      (below, [value] + pruned)
  }

  // ----- what is left -----

  /** Exactly the paths below the target are gone. */
  ghost predicate Cuts<V>(n: Node<V>, target: Path, m: Node<V>, q: Path)
    requires Shaped(n)
  {
    Shaped(m) && Lookup(m, q) == if Less(q, target) then None else Lookup(n, q)
  }

  lemma CollapsedLookup<V>(size: nat, children: seq<Node<V>>, q: Path)
    requires Shaped(Branch(size, children))
    ensures Shaped(Collapsed(size, children))
    ensures Lookup(Collapsed(size, children), q) == Lookup(Branch(size, children), q)
  {
    if Filled(children) == 0 { FilledZero(children); } else { ShrunkLookup(children, q); }
  }

  lemma {:induction false} PruneBranch<V>(n: Node<V>, target: Path, q: Path)
    requires Shaped(n) && n.Branch? && target != []
    requires Cuts(n.children[target[0]], target[1..], Prune(n.children[target[0]], target[1..]).0,
                  if q == [] then [] else q[1..])
    ensures Cuts(n, target, Prune(n, target).0, q)
  {
    var (child, below) := Prune(n.children[target[0]], target[1..]);
    var kept := Kept(n.children, target[0], child);
    var pruned := ValuesOf(n.children[..target[0]]) + below;
    assert forall j :: 0 <= j < 16 ==> Shaped(kept[j]);
    CollapsedLookup(if pruned == [] then n.size else AnnSum(kept), kept, q);
  }

  lemma {:induction false} PruneExtension<V>(n: Node<V>, target: Path, q: Path)
    requires Shaped(n) && n.Extension? && target != []
    requires n.path <= target ==> Cuts(n.child, target[|n.path|..], Prune(n.child, target[|n.path|..]).0, Drop(q, n.path))
    ensures Cuts(n, target, Prune(n, target).0, q)
  {
    RelevantEqual(n.path, target);
    if n.path <= target {
      var below := Prune(n.child, target[|n.path|..]).0;
      ReattachedLookup(n.path, below, q);
      if n.path <= q { LessBelow(n.path, q, target); }
    } else if n.path <= q {
      OneSide(n.path, target, q);
    }
  }

  lemma {:induction false} PruneCuts<V>(n: Node<V>, target: Path, q: Path)
    requires Shaped(n)
    ensures Cuts(n, target, Prune(n, target).0, q)
    decreases n
  {
    if target != [] {
      match n
      case Empty =>
      case Leaf(_, _) =>
      case Branch(_, children) =>
        PruneCuts(children[target[0]], target[1..], if q == [] then [] else q[1..]);
        PruneBranch(n, target, q);
      case Extension(_, compressed, child) =>
        if compressed <= target { PruneCuts(child, target[|compressed|..], Drop(q, compressed)); }
        PruneExtension(n, target, q);
      case MidBranchLeaf(_, _, child) => PruneCuts(child, target, q);
    }
  }

  // ----- what is taken out -----

  lemma {:induction false} ValuesOfConcat<V>(a: seq<Node<V>>, b: seq<Node<V>>)
    ensures ValuesOf(a + b) == ValuesOf(a) + ValuesOf(b)
  {
    if b == [] {
      assert a + b == a;
    } else {
      var c, last := b[..|b| - 1], b[|b| - 1];
      ValuesOfConcat(a, c);
      assert (a + b)[..|a + b| - 1] == a + c && (a + b)[|a + b| - 1] == last;
      Associate(ValuesOf(a), ValuesOf(c), Values(last));
    }
  }

  lemma ValuesOfOne<V>(child: Node<V>)
    ensures ValuesOf([child]) == Values(child)
  {
    assert [child][..0] == [];
    assert [] + Values(child) == Values(child);
  }

  lemma ValuesOfParts<V>(a: seq<Node<V>>, child: Node<V>, b: seq<Node<V>>)
    ensures ValuesOf(a + ([child] + b)) == ValuesOf(a) + (Values(child) + ValuesOf(b))
  {
    ValuesOfConcat(a, [child] + b);
    ValuesOfConcat([child], b);
    ValuesOfOne(child);
  }

  lemma SplitChildren<V>(children: seq<Node<V>>, i: nat)
    requires i < |children|
    ensures children == children[..i] + ([children[i]] + children[i + 1..])
  {}

  lemma ValuesOfSplit<V>(children: seq<Node<V>>, i: nat)
    requires i < |children|
    ensures ValuesOf(children) == ValuesOf(children[..i]) + (Values(children[i]) + ValuesOf(children[i + 1..]))
  {
    ValuesOfParts(children[..i], children[i], children[i + 1..]);
    SplitChildren(children, i);
  }

  lemma {:induction false} ValuesOfEmpty<V>(children: seq<Node<V>>)
    requires forall i :: 0 <= i < |children| ==> children[i].Empty?
    ensures ValuesOf(children) == []
  {
    if children != [] { ValuesOfEmpty(children[..|children| - 1]); }
  }

  lemma {:induction false} ExtendValues<V>(path: Path, child: Node<V>)
    ensures Values(Extend(path, child)) == Values(child)
    decreases child
  {
    if child.Extension? && |path| % MAX_PATH != 0 {
      ExtendValues(path + child.path, child.child);
    } else {
      ChunkedValues(path, child);
    }
  }

  lemma {:induction false} ChunkedValues<V>(path: Path, child: Node<V>)
    ensures Values(Chunked(path, child)) == Values(child)
    decreases |path|
  {
    if |path| > MAX_PATH { ChunkedValues(path[MAX_PATH..], child); }
  }

  lemma CollapsedValues<V>(size: nat, children: seq<Node<V>>)
    requires |children| == 16
    ensures Values(Collapsed(size, children)) == ValuesOf(children)
  {
    if Filled(children) == 0 {
      FilledZero(children);
      ValuesOfEmpty(children);
    } else if Filled(children) == 1 {
      OnlyFilled(children);
      var i := FirstFilled(children);
      ValuesOfSplit(children, i);
      ValuesOfEmpty(children[..i]);
      ValuesOfEmpty(children[i + 1..]);
      if children[i].Extension? {
        ExtendValues([i] + children[i].path, children[i].child);
      } else {
        ExtendValues([i], children[i]);
      }
    }
  }

  lemma Regroup<T>(a: seq<T>, b: seq<T>, c: seq<T>, d: seq<T>)
    ensures (a + b) + ([] + (c + d)) == a + ((b + c) + d)
  {}

  lemma KeptValues<V>(children: seq<Node<V>>, i: Nibble, child: Node<V>)
    requires |children| == 16
    ensures ValuesOf(Kept(children, i, child)) == [] + (Values(child) + ValuesOf(children[i + 1..]))
  {
    var kept := Kept(children, i, child);
    ValuesOfSplit(kept, i);
    ValuesOfEmpty(kept[..i]);
    KeptAfter(children, i, child);
  }

  lemma KeptAfter<V>(children: seq<Node<V>>, i: Nibble, child: Node<V>)
    requires |children| == 16
    ensures Kept(children, i, child)[i + 1..] == children[i + 1..]
  {
    var kept := Kept(children, i, child);
    assert forall j :: i < j < 16 ==> kept[j] == children[j];
  }

  lemma PruneBranchInOrder<V>(n: Node<V>, target: Path)
    requires Shaped(n) && n.Branch? && target != []
    requires var r := Prune(n.children[target[0]], target[1..]); r.1 + Values(r.0) == Values(n.children[target[0]])
    ensures var r := Prune(n, target); r.1 + Values(r.0) == Values(n)
  {
    var i := target[0];
    var (child, below) := Prune(n.children[i], target[1..]);
    var kept := Kept(n.children, i, child);
    var before, after := ValuesOf(n.children[..i]), ValuesOf(n.children[i + 1..]);
    var size := if before + below == [] then n.size else AnnSum(kept);
    ValuesOfSplit(n.children, i);
    KeptValues(n.children, i, child);
    CollapsedValues(size, kept);
    Regroup(before, below, Values(child), after);
    assert Prune(n, target) == (Collapsed(size, kept), before + below);
  }

  /** The values taken out, followed by those left, are the values of the trie in order. */
  lemma {:induction false} PruneInOrder<V>(n: Node<V>, target: Path)
    requires Shaped(n)
    ensures var r := Prune(n, target); r.1 + Values(r.0) == Values(n)
    decreases n
  {
    if target != [] {
      match n
      case Empty =>
      case Leaf(_, _) =>
      case Branch(_, children) =>
        PruneInOrder(children[target[0]], target[1..]);
        PruneBranchInOrder(n, target);
      case Extension(_, compressed, child) =>
        if compressed == Relevant(compressed, target) {
          PruneInOrder(child, target[|compressed|..]);
          var below := Prune(child, target[|compressed|..]).0;
          if below.Extension? { ExtendValues(compressed + below.path, below.child); }
          assert Values(Prune(n, target).0) == Values(below);
        }
      case MidBranchLeaf(_, value, child) =>
        PruneInOrder(child, target);
        var r := Prune(child, target);
        Associate([value], r.1, Values(r.0));
    }
  }

  ghost function Total<V>(values: seq<V>, w: V -> nat): nat {
    if values == [] then 0 else Total(values[..|values| - 1], w) + w(values[|values| - 1])
  }

  lemma {:induction false} TotalConcat<V>(a: seq<V>, b: seq<V>, w: V -> nat)
    ensures Total(a + b, w) == Total(a, w) + Total(b, w)
  {
    if b == [] {
      assert a + b == a;
    } else {
      assert (a + b)[..|a + b| - 1] == a + b[..|b| - 1];
      TotalConcat(a, b[..|b| - 1], w);
    }
  }

  lemma {:induction false} ValuesTotal<V>(n: Node<V>, w: V -> nat)
    ensures Total(Values(n), w) == Weight(n, w)
    decreases n, 1
  {
    match n
    case Empty =>
    case Leaf(_, value) => assert [value][..0] == [];
    case Branch(_, children) => ChildrenTotal(children, w);
    case Extension(_, _, child) => ValuesTotal(child, w);
    case MidBranchLeaf(_, value, child) =>
      ValuesTotal(child, w);
      TotalConcat([value], Values(child), w);
      assert [value][..0] == [];
  }

  lemma {:induction false} ChildrenTotal<V>(children: seq<Node<V>>, w: V -> nat)
    ensures Total(ValuesOf(children), w) == WeightSum(children, w)
    decreases children, 0
  {
    if children != [] {
      var k := |children| - 1;
      ChildrenTotal(children[..k], w);
      ValuesTotal(children[k], w);
      TotalConcat(ValuesOf(children[..k]), Values(children[k]), w);
    }
  }

  lemma PruneWeight<V>(n: Node<V>, target: Path, w: V -> nat)
    requires Shaped(n)
    ensures var r := Prune(n, target); Weight(r.0, w) + Total(r.1, w) == Weight(n, w)
  {
    var r := Prune(n, target);
    PruneInOrder(n, target);
    TotalConcat(r.1, Values(r.0), w);
    ValuesTotal(r.0, w);
    ValuesTotal(n, w);
  }

  // ----- the form of what is left -----

  lemma CollapsedSized<V>(size: nat, children: seq<Node<V>>)
    requires |children| == 16 && (forall i :: 0 <= i < 16 ==> Sized(children[i])) && size == AnnSum(children)
    ensures Sized(Collapsed(size, children))
  {
    ShrunkSized(children);
  }

  lemma PruneBranchSized<V>(n: Node<V>, target: Path)
    requires Shaped(n) && Sized(n) && n.Branch? && target != []
    requires Sized(Prune(n.children[target[0]], target[1..]).0)
    ensures Sized(Prune(n, target).0)
  {
    var i := target[0];
    var (child, below) := Prune(n.children[i], target[1..]);
    var kept := Kept(n.children, i, child);
    var pruned := ValuesOf(n.children[..i]) + below;
    assert forall j :: 0 <= j < 16 ==> Sized(kept[j]);
    AnnSumWeight(kept);
    if pruned == [] {
      PruneWeight(n, target, Each());
      CollapsedValues(n.size, kept);
      ValuesTotal(Collapsed(n.size, kept), Each());
      ChildrenTotal(kept, Each());
    }
    CollapsedSized(if pruned == [] then n.size else AnnSum(kept), kept);
  }

  lemma {:induction false} PruneSized<V>(n: Node<V>, target: Path)
    requires Shaped(n) && Sized(n)
    ensures Sized(Prune(n, target).0)
    decreases n
  {
    if target != [] {
      match n
      case Empty =>
      case Leaf(_, _) =>
      case Branch(_, children) =>
        PruneSized(children[target[0]], target[1..]);
        PruneBranchSized(n, target);
      case Extension(_, compressed, child) =>
        if compressed == Relevant(compressed, target) {
          var r := Prune(child, target[|compressed|..]);
          PruneSized(child, target[|compressed|..]);
          PruneWeight(child, target[|compressed|..], Each());
          if r.0.Extension? { ExtendSized(compressed + r.0.path, r.0.child); }
        }
      case MidBranchLeaf(_, _, child) => PruneSized(child, target);
    }
  }

  lemma PruneBranchCanonical<V>(n: Node<V>, target: Path)
    requires Canonical(n) && Shaped(n) && n.Branch? && target != []
    requires Canonical(Prune(n.children[target[0]], target[1..]).0)
    ensures Canonical(Prune(n, target).0)
  {
    var i := target[0];
    var (child, below) := Prune(n.children[i], target[1..]);
    var kept := Kept(n.children, i, child);
    assert forall j :: 0 <= j < 16 ==> Canonical(kept[j]);
    if Filled(kept) >= 1 { ShrunkProper(kept); }
    if Filled(kept) >= 2 {
      ProperSized(n);
      PruneSized(n, target);
      assert forall j :: 0 <= j < 16 ==> Sized(kept[j]);
      AnnSumWeight(kept);
    }
  }

  /** Pruning keeps the canonical form. */
  lemma {:induction false} PruneCanonical<V>(n: Node<V>, target: Path)
    requires Canonical(n) && Shaped(n)
    ensures Canonical(Prune(n, target).0)
    decreases n
  {
    if target != [] {
      match n
      case Empty =>
      case Leaf(_, _) =>
      case Branch(_, children) =>
        PruneCanonical(children[target[0]], target[1..]);
        PruneBranchCanonical(n, target);
      case Extension(_, compressed, child) =>
        if compressed == Relevant(compressed, target) {
          var r := Prune(child, target[|compressed|..]);
          PruneCanonical(child, target[|compressed|..]);
          ReattachedCanonical(compressed, r.0);
          ProperSized(n);
          PruneSized(n, target);
        }
      case MidBranchLeaf(_, _, child) => PruneCanonical(child, target);
    }
  }
}
