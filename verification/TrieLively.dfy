/** Tries in which every node leads to a value, so that the emptiness test is right. */
module TrieLively {
  import opened Basics
  import opened Trie
  import opened TrieMap
  import opened TrieKeeps
  import opened TriePredecessor

  ghost predicate Lively<V>(n: Node<V>) {
    match n
    case Empty => true
    case Leaf(_, _) => true
    case Branch(_, children) => Filled(children) >= 2 && forall i :: 0 <= i < |children| ==> Lively(children[i])
    case Extension(_, _, child) => !child.Empty? && Lively(child)
    case MidBranchLeaf(_, _, child) => Lively(child)
  }

  lemma {:induction false} LivelyHolds<V>(n: Node<V>) returns (q: Path)
    requires Shaped(n) && Lively(n) && !n.Empty?
    ensures Lookup(n, q).Some?
  {
    match n
    case Leaf(_, _) => q := [];
    case Branch(_, children) =>
      FilledExists(children);
      var i := FirstFilled(children);
      var r := LivelyHolds(children[i]);
      BelowBranch(n, i, r);
      q := [i] + r;
    case Extension(_, path, child) =>
      var r := LivelyHolds(child);
      BelowExtension(n, r);
      q := path + r;
    case MidBranchLeaf(_, _, _) => q := [];
  }

  lemma {:induction false} ChunkedLively<V>(path: Path, child: Node<V>)
    requires path != [] && Lively(child) && !child.Empty?
    ensures Lively(Chunked(path, child)) && !Chunked(path, child).Empty?
    decreases |path|
  {
    if |path| > MAX_PATH { ChunkedLively(path[MAX_PATH..], child); }
  }

  lemma {:induction false} ExtendLively<V>(path: Path, child: Node<V>)
    requires path != [] && Lively(child) && !child.Empty?
    ensures Lively(Extend(path, child)) && !Extend(path, child).Empty?
    decreases child
  {
    if child.Extension? && |path| % MAX_PATH != 0 {
      ExtendLively(path + child.path, child.child);
    } else {
      ChunkedLively(path, child);
    }
  }

  // ----- insertion -----

  /** Insertion leaves a dead end exactly if the path ends inside an extension. */
  lemma {:induction false} InsertLively<V>(n: Node<V>, path: Path, value: V)
    requires Shaped(n) && Lively(n)
    ensures Lively(Insert(n, path, value).0) <==> !EndsInside(n, path)
    decreases |path|, n
  {
    if path != [] {
      match n
      case Empty => ExtendLively(path, NewLeaf(value));
      case Leaf(_, _) => ExtendLively(path, NewLeaf(value));
      case Branch(_, children) =>
        InsertLively(children[path[0]], path[1..], value);
        LivelyBranch(n, path, value);
      case Extension(_, compressed, child) =>
        if compressed <= path {
          InsertLively(child, path[|compressed|..], value);
          InsertBelowForm(n, path, value);
          InsertPuts(child, path[|compressed|..], value, path[|compressed|..]);
        } else {
          LivelySplit(n, path, value);
        }
      case MidBranchLeaf(_, _, child) => InsertLively(child, path, value);
    }
  }

  lemma LivelyBranch<V>(n: Node<V>, path: Path, value: V)
    requires Shaped(n) && Lively(n) && n.Branch? && path != []
    ensures Lively(Insert(n, path, value).0) <==> Lively(Insert(n.children[path[0]], path[1..], value).0)
  {
    var i := path[0];
    var c := Insert(n.children[i], path[1..], value).0;
    var updated := n.children[i := c];
    FilledUpdate(n.children, i, c);
    InsertPuts(n.children[i], path[1..], value, path[1..]);
    assert updated[i] == c;
    assert forall j :: 0 <= j < 16 && j != i ==> updated[j] == n.children[j];
  }

  lemma LivelySplit<V>(n: Node<V>, path: Path, value: V)
    requires Shaped(n) && Lively(n) && n.Extension? && path != [] && !(n.path <= path)
    ensures Lively(Insert(n, path, value).0) <==> !(path <= n.path)
  {
    InsertSplitForm(n, path, value);
    var index := Divergence(n.path, path);
    var b := SplitAt(n.path, n.child, index);
    var r := InsertBranch(b.size, b.children, path[index..], value).0;
    assert path <= n.path <==> index == |path| by { CommonOfLong(n.path, path); }
    if index == |path| {
      LivelyInside(n.path, n.child, index, value);
    } else {
      assert path[index..][0] != n.path[index] by { CommonOfLong(n.path, path); }
      LivelyBeside(n.path, n.child, index, path[index..], value);
    }
  }

  lemma LivelyBeside<V>(compressed: Path, child: Node<V>, index: nat, path: Path, value: V)
    requires Lively(child) && Shaped(child) && !child.Empty? && index < |compressed| <= MAX_PATH
    requires path != [] && path[0] != compressed[index]
    ensures Shaped(SplitAt(compressed, child, index))
    ensures var b := SplitAt(compressed, child, index);
            var r := InsertBranch(b.size, b.children, path, value).0; r.Branch? && Lively(r)
  {
    SplitLookup(compressed, child, index, []);
    var b := SplitAt(compressed, child, index);
    var remaining := b.children[compressed[index]];
    var c := Insert(Empty, path[1..], value).0;
    var updated := b.children[path[0] := c];
    if path[1..] != [] { ExtendLively(path[1..], NewLeaf(value)); }
    FilledSingle(compressed[index], remaining);
    FilledUpdate(b.children, path[0], c);
    assert Filled(updated) == 2;
    assert forall j :: 0 <= j < 16 && j != path[0] && j != compressed[index] ==> updated[j] == Empty;
    assert updated[path[0]] == c && updated[compressed[index]] == remaining;
  }

  lemma LivelyInside<V>(compressed: Path, child: Node<V>, index: nat, value: V)
    requires Lively(child) && Shaped(child) && !child.Empty? && index < |compressed| <= MAX_PATH
    ensures Shaped(SplitAt(compressed, child, index))
    ensures var b := SplitAt(compressed, child, index); !Lively(InsertBranch(b.size, b.children, [], value).0)
  {
    SplitLookup(compressed, child, index, []);
    var b := SplitAt(compressed, child, index);
    var remaining := b.children[compressed[index]];
    FilledSingle(compressed[index], remaining);
    assert b.children == Single(compressed[index], remaining);
    assert !Lively(b);
  }

  // ----- removal -----

  lemma ShrunkLively<V>(children: seq<Node<V>>)
    requires |children| == 16 && Filled(children) >= 1 && forall i :: 0 <= i < 16 ==> Lively(children[i])
    ensures Lively(Shrunk(children))
  {
    if Filled(children) == 1 {
      FilledExists(children);
      var i := FirstFilled(children);
      assert Lively(children[i]);
      if children[i].Extension? {
        ExtendLively([i] + children[i].path, children[i].child);
      } else {
        ExtendLively([i], children[i]);
      }
    }
  }

  /** Removal leaves none. */
  lemma {:induction false} RemoveLively<V>(n: Node<V>, path: Path)
    requires Shaped(n) && Lively(n) && Remove(n, path).Removed?
    ensures Lively(Remove(n, path).node)
    decreases n
  {
    match n
    case Branch(_, children) =>
      var i := path[0];
      RemoveLively(children[i], path[1..]);
      var c := Remove(children[i], path[1..]).node;
      FilledUpdate(children, i, c);
      assert forall j :: 0 <= j < 16 ==> children[i := c][j] == if j == i then c else children[j];
      ShrunkLively(children[i := c]);
    case Extension(_, compressed, child) =>
      if compressed <= path {
        RemoveLively(child, path[|compressed|..]);
        var below := Remove(child, path[|compressed|..]).node;
        if below.Extension? { ExtendLively(compressed + below.path, below.child); }
      }
    case MidBranchLeaf(_, _, child) => if path != [] { RemoveLively(child, path); }
    case _ =>
  }

  // ----- histories -----

  /** No insertion ends inside an extension. */
  ghost predicate LivelyHistory<V>(ops: seq<Op<V>>) {
    forall i :: 0 <= i < |ops| ==> ops[i].Put? ==> !EndsInside(Built(ops[..i]), ops[i].path)
  }

  lemma {:induction false} HistoryLively<V>(ops: seq<Op<V>>)
    requires LivelyHistory(ops)
    ensures Lively(Built(ops))
  {
    if ops != [] {
      var k := |ops| - 1;
      forall i | 0 <= i < k ensures ops[..k][i].Put? ==> !EndsInside(Built(ops[..k][..i]), ops[..k][i].path) {
        assert ops[..k][..i] == ops[..i];
      }
      HistoryLively(ops[..k]);
      ApplyLively(Built(ops[..k]), ops[k]);
    }
  }

  lemma ApplyLively<V>(n: Node<V>, op: Op<V>)
    requires Shaped(n) && Lively(n) && (op.Put? ==> !EndsInside(n, op.path))
    ensures Lively(Apply(n, op))
  {
    match op
    case Put(path, value) => InsertLively(n, path, value);
    case Take(path) => if Remove(n, path).Removed? { RemoveLively(n, path); }
  }

  lemma LivelyEmpty<V>(ops: seq<Op<V>>)
    requires Lively(Built(ops))
    ensures Built(ops).Empty? <==> MapOf(ops) == map[]
  {
    if Built(ops).Empty? {
      forall q ensures q !in MapOf(ops) { HistoryIsMap(ops, q); }
    } else {
      var q := LivelyHolds(Built(ops));
      HistoryIsMap(ops, q);
    }
  }

  /** After such a history the emptiness test is right. */
  lemma EmptyTestRight<V>(ops: seq<Op<V>>)
    requires LivelyHistory(ops)
    ensures Built(ops).Empty? <==> MapOf(ops) == map[]
  {
    HistoryLively(ops);
    LivelyEmpty(ops);
  }

  lemma {:induction false} InsideHolds<V>(n: Node<V>, target: Path) returns (q: Path)
    requires Shaped(n) && Lively(n) && EndsInside(n, target)
    ensures target < q && Lookup(n, q).Some?
    decreases n
  {
    match n
    case Branch(_, children) =>
      var r := InsideHolds(children[target[0]], target[1..]);
      BelowBranch(n, target[0], r);
      q := [target[0]] + r;
    case Extension(_, compressed, child) =>
      var r;
      if compressed <= target {
        r := InsideHolds(child, target[|compressed|..]);
        assert target == compressed + target[|compressed|..];
      } else {
        r := LivelyHolds(child);
      }
      BelowExtension(n, r);
      q := compressed + r;
    case MidBranchLeaf(_, _, child) => q := InsideHolds(child, target);
  }
}
