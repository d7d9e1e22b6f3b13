/** Conservation: what each operation does to the total weight of the values in a trie, and the
special case of weight one, the size that every node records. */
module TrieSizes {
  import opened Basics
  import opened Trie
  import opened TrieMap
  import opened TrieCanon
  import opened TrieKeeps

  /** The weights of all values below a node. */
  ghost function Weight<V>(n: Node<V>, w: V -> nat): nat {
    match n
    case Empty => 0
    case Leaf(_, value) => w(value)
    case Branch(_, children) => WeightSum(children, w)
    case Extension(_, _, child) => Weight(child, w)
    case MidBranchLeaf(_, value, child) => w(value) + Weight(child, w)
  }

  ghost function WeightSum<V>(children: seq<Node<V>>, w: V -> nat): nat {
    if children == [] then 0
    else WeightSum(children[..|children| - 1], w) + Weight(children[|children| - 1], w)
  }

  ghost function WeightOf<V>(value: Option<V>, w: V -> nat): nat {
    match value case None => 0 case Some(v) => w(v)
  }

  lemma {:induction false} WeightUpdate<V>(children: seq<Node<V>>, i: nat, c: Node<V>, w: V -> nat)
    requires i < |children|
    ensures WeightSum(children[i := c], w) + Weight(children[i], w) == WeightSum(children, w) + Weight(c, w)
  {
    var n := |children| - 1;
    if i == n {
      assert children[i := c][..n] == children[..n];
    } else {
      WeightUpdate(children[..n], i, c, w);
      assert children[i := c][..n] == children[..n][i := c];
    }
  }

  lemma {:induction false} WeightEmpty<V>(children: seq<Node<V>>, w: V -> nat)
    requires forall i :: 0 <= i < |children| ==> children[i].Empty?
    ensures WeightSum(children, w) == 0
  {
    if children != [] { WeightEmpty(children[..|children| - 1], w); }
  }

  lemma WeightSingle<V>(i: Nibble, child: Node<V>, w: V -> nat)
    ensures WeightSum(Single(i, child), w) == Weight(child, w)
  {
    var none: seq<Node<V>> := seq(16, _ => Empty);
    WeightEmpty(none, w);
    WeightUpdate(none, i, child, w);
    assert none[i := child] == Single(i, child);
  }

  lemma {:induction false} ChunkedWeight<V>(path: Path, child: Node<V>, w: V -> nat)
    ensures Weight(Chunked(path, child), w) == Weight(child, w)
    decreases |path|
  {
    if |path| > MAX_PATH { ChunkedWeight(path[MAX_PATH..], child, w); }
  }

  lemma {:induction false} ExtendWeight<V>(path: Path, child: Node<V>, w: V -> nat)
    ensures Weight(Extend(path, child), w) == Weight(child, w)
    decreases child
  {
    if child.Extension? && |path| % MAX_PATH != 0 {
      ExtendWeight(path + child.path, child.child, w);
    } else {
      ChunkedWeight(path, child, w);
    }
  }

  // ----- insertion -----

  /** Insertion puts the new weight in the place of the one it returns. */
  ghost predicate Exchanges<V>(n: Node<V>, value: V, r: (Node<V>, Option<V>), w: V -> nat) {
    Weight(r.0, w) + WeightOf(r.1, w) == Weight(n, w) + w(value)
  }

  lemma {:induction false} InsertBranchWeight<V>(n: Node<V>, path: Path, value: V, w: V -> nat)
    requires Shaped(n) && n.Branch?
    ensures Exchanges(n, value, InsertBranch(n.size, n.children, path, value), w)
    decreases |path|, 0
  {
    if path != [] {
      InsertWeight(n.children[path[0]], path[1..], value, w);
      WeightUpdate(n.children, path[0], Insert(n.children[path[0]], path[1..], value).0, w);
    }
  }

  lemma SplitWeight<V>(compressed: Path, child: Node<V>, index: nat, w: V -> nat)
    requires index < |compressed|
    ensures Weight(SplitAt(compressed, child, index), w) == Weight(child, w)
  {
    var b := SplitAt(compressed, child, index);
    var remaining := b.children[compressed[index]];
    WeightSingle(compressed[index], remaining, w);
    assert b.children == Single(compressed[index], remaining);
  }

  lemma {:induction false} InsertWeight<V>(n: Node<V>, path: Path, value: V, w: V -> nat)
    requires Shaped(n)
    ensures Exchanges(n, value, Insert(n, path, value), w)
    decreases |path|, 1, n
  {
    if path != [] {
      match n
      case Empty => ExtendWeight(path, NewLeaf(value), w);
      case Leaf(_, _) => ExtendWeight(path, NewLeaf(value), w);
      case Branch(_, _) => InsertBranchWeight(n, path, value, w);
      case Extension(_, compressed, child) =>
        if compressed <= path {
          InsertBelowForm(n, path, value);
          InsertWeight(child, path[|compressed|..], value, w);
        } else {
          InsertSplitForm(n, path, value);
          var index := Divergence(compressed, path);
          SplitWeight(compressed, child, index, w);
          InsertBranchWeight(SplitAt(compressed, child, index), path[index..], value, w);
        }
      case MidBranchLeaf(_, _, child) => InsertWeight(child, path, value, w);
    }
  }

  // ----- removal -----

  lemma OnlyFilled<V>(children: seq<Node<V>>)
    requires |children| == 16 && Filled(children) == 1
    ensures (exists i :: 0 <= i < 16 && !children[i].Empty?)
    ensures var i := FirstFilled(children); children == Single(i, children[i])
  {
    FilledExists(children);
    var i := FirstFilled(children);
    forall j | 0 <= j < 16 && j != i ensures children[j].Empty? { FilledOne(children, i, j); }
  }

  lemma ShrunkWeight<V>(children: seq<Node<V>>, w: V -> nat)
    requires |children| == 16
    ensures Weight(Shrunk(children), w) == WeightSum(children, w)
  {
    if Filled(children) == 1 {
      OnlyFilled(children);
      var i := FirstFilled(children);
      WeightSingle(i, children[i], w);
      if children[i].Extension? {
        ExtendWeight([i] + children[i].path, children[i].child, w);
      } else {
        ExtendWeight([i], children[i], w);
      }
    }
  }

  lemma ReattachedWeight<V>(path: Path, n: Node<V>, w: V -> nat)
    ensures Weight(Reattached(path, n), w) == Weight(n, w)
  {
    if n.Extension? { ExtendWeight(path + n.path, n.child, w); }
  }

  /** Removal takes away the weight of the value it returns and nothing else. */
  lemma {:induction false} RemoveWeight<V>(n: Node<V>, path: Path, w: V -> nat)
    requires Shaped(n) && Remove(n, path).Removed?
    ensures var r := Remove(n, path); Weight(r.node, w) + WeightOf(r.value, w) == Weight(n, w)
    decreases n
  {
    match n
    case Empty =>
    case Leaf(_, _) =>
    case Branch(_, children) =>
      var r := Remove(children[path[0]], path[1..]);
      RemoveWeight(children[path[0]], path[1..], w);
      WeightUpdate(children, path[0], r.node, w);
      ShrunkWeight(children[path[0] := r.node], w);
    case Extension(_, compressed, child) =>
      if compressed <= path {
        RemoveWeight(child, path[|compressed|..], w);
        ReattachedWeight(compressed, Remove(child, path[|compressed|..]).node, w);
      }
    case MidBranchLeaf(_, _, child) =>
      if path != [] { RemoveWeight(child, path, w); }
  }

  // ----- which values there are -----

  lemma {:induction false} HeavyChild<V>(children: seq<Node<V>>, w: V -> nat) returns (i: nat)
    requires WeightSum(children, w) > 0
    ensures i < |children| && Weight(children[i], w) > 0
  {
    var n := |children| - 1;
    if Weight(children[n], w) > 0 { i := n; } else { i := HeavyChild(children[..n], w); }
  }

  /** A trie that weighs something holds a value that does. */
  lemma {:induction false} Heavy<V>(n: Node<V>, w: V -> nat) returns (q: Path)
    requires Shaped(n) && Weight(n, w) > 0
    ensures Lookup(n, q).Some? && w(Lookup(n, q).value) > 0
    decreases n
  {
    match n
    case Leaf(_, _) => q := [];
    case Branch(_, children) =>
      var i := HeavyChild(children, w);
      var r := Heavy(children[i], w);
      q := [i] + r;
      assert q[1..] == r;
    case Extension(_, path, child) =>
      var r := Heavy(child, w);
      q := path + r;
      assert q[|path|..] == r;
    case MidBranchLeaf(_, value, child) =>
      if w(value) > 0 {
        q := [];
      } else {
        q := Heavy(child, w);
        assert Lookup(child, []).None?;
      }
  }

  lemma {:induction false} ChildWeight<V>(children: seq<Node<V>>, i: nat, w: V -> nat)
    requires i < |children|
    ensures Weight(children[i], w) <= WeightSum(children, w)
  {
    var n := |children| - 1;
    if i < n { ChildWeight(children[..n], i, w); }
  }

  lemma {:induction false} ValueWeighs<V>(n: Node<V>, q: Path, w: V -> nat)
    requires Shaped(n) && Lookup(n, q).Some?
    ensures w(Lookup(n, q).value) <= Weight(n, w)
    decreases n
  {
    match n
    case Leaf(_, _) =>
    case Branch(_, children) =>
      ValueWeighs(children[q[0]], q[1..], w);
      ChildWeight(children, q[0], w);
    case Extension(_, path, child) => ValueWeighs(child, q[|path|..], w);
    case MidBranchLeaf(_, _, child) => if q != [] { ValueWeighs(child, q, w); }
  }

  // ----- recorded sizes -----

  ghost function Each<V>(): V -> nat { _ => 1 }

  /** Every recorded size is the number of values below. */
  ghost predicate Sized<V>(n: Node<V>) {
    && Ann(n) == Weight(n, Each())
    && match n
       case Branch(_, children) => forall i :: 0 <= i < |children| ==> Sized(children[i])
       case Extension(_, _, child) => Sized(child)
       case MidBranchLeaf(_, _, child) => Sized(child)
       case _ => true
  }

  lemma {:induction false} AnnSumWeight<V>(children: seq<Node<V>>)
    requires forall i :: 0 <= i < |children| ==> Sized(children[i])
    ensures AnnSum(children) == WeightSum(children, Each())
  {
    if children != [] { AnnSumWeight(children[..|children| - 1]); }
  }

  lemma BranchSized<V>(children: seq<Node<V>>)
    requires forall i :: 0 <= i < |children| ==> Sized(children[i])
    ensures Sized(Branch(AnnSum(children), children))
  {
    AnnSumWeight(children);
  }

  lemma {:induction false} ExtendSized<V>(path: Path, child: Node<V>)
    requires Sized(child)
    ensures Sized(Extend(path, child))
    decreases child
  {
    if child.Extension? && |path| % MAX_PATH != 0 {
      ExtendSized(path + child.path, child.child);
    } else {
      ChunkedSized(path, child);
    }
  }

  lemma {:induction false} ChunkedSized<V>(path: Path, child: Node<V>)
    requires Sized(child)
    ensures Sized(Chunked(path, child))
    decreases |path|
  {
    if |path| > MAX_PATH {
      ChunkedSized(path[MAX_PATH..], child);
      ChunkedWeight(path[MAX_PATH..], child, Each());
    }
  }

  lemma {:induction false} InsertBranchSized<V>(n: Node<V>, path: Path, value: V)
    requires Shaped(n) && Sized(n) && n.Branch?
    ensures Sized(InsertBranch(n.size, n.children, path, value).0)
    decreases |path|, 0
  {
    if path != [] {
      var c := Insert(n.children[path[0]], path[1..], value).0;
      InsertSized(n.children[path[0]], path[1..], value);
      var updated := n.children[path[0] := c];
      assert forall j :: 0 <= j < 16 ==> updated[j] == if j == path[0] then c else n.children[j];
      BranchSized(updated);
    }
  }

  lemma SplitSized<V>(compressed: Path, child: Node<V>, index: nat)
    requires Sized(child) && index < |compressed|
    ensures Sized(SplitAt(compressed, child, index))
  {
    var b := SplitAt(compressed, child, index);
    assert forall j :: 0 <= j < 16 ==> Sized(b.children[j]);
    BranchSized(b.children);
  }

  lemma {:induction false} InsertSized<V>(n: Node<V>, path: Path, value: V)
    requires Shaped(n) && Sized(n)
    ensures Sized(Insert(n, path, value).0)
    decreases |path|, 1, n
  {
    if path != [] {
      match n
      case Empty => ExtendSized(path, NewLeaf(value));
      case Leaf(_, _) => ExtendSized(path, NewLeaf(value)); ExtendWeight(path, NewLeaf(value), Each());
      case Branch(_, _) => InsertBranchSized(n, path, value);
      case Extension(_, compressed, child) =>
        if compressed <= path {
          InsertBelowForm(n, path, value);
          InsertSized(child, path[|compressed|..], value);
        } else {
          InsertSplitForm(n, path, value);
          var index := Divergence(compressed, path);
          SplitSized(compressed, child, index);
          InsertBranchSized(SplitAt(compressed, child, index), path[index..], value);
        }
      case MidBranchLeaf(_, _, child) => InsertSized(child, path, value);
    }
  }

  lemma ShrunkSized<V>(children: seq<Node<V>>)
    requires |children| == 16 && forall i :: 0 <= i < 16 ==> Sized(children[i])
    ensures Sized(Shrunk(children))
  {
    if Filled(children) == 1 {
      FilledExists(children);
      var i := FirstFilled(children);
      if children[i].Extension? {
        ExtendSized([i] + children[i].path, children[i].child);
      } else {
        ExtendSized([i], children[i]);
      }
    } else {
      BranchSized(children);
    }
  }

  lemma {:induction false} RemoveSized<V>(n: Node<V>, path: Path)
    requires Shaped(n) && Sized(n) && Remove(n, path).Removed?
    ensures Sized(Remove(n, path).node)
    decreases n
  {
    match n
    case Empty =>
    case Leaf(_, _) =>
    case Branch(_, children) =>
      var c := Remove(children[path[0]], path[1..]).node;
      RemoveSized(children[path[0]], path[1..]);
      var updated := children[path[0] := c];
      assert forall j :: 0 <= j < 16 ==> updated[j] == if j == path[0] then c else children[j];
      ShrunkSized(updated);
    case Extension(_, compressed, child) =>
      if compressed <= path {
        RemoveSized(child, path[|compressed|..]);
        var below := Remove(child, path[|compressed|..]).node;
        if below.Extension? { ExtendSized(compressed + below.path, below.child); }
      }
    case MidBranchLeaf(_, _, child) =>
      if path != [] { RemoveSized(child, path); }
  }

  lemma {:induction false} ProperSized<V>(n: Node<V>)
    requires Canonical(n)
    ensures Sized(n)
    decreases n
  {
    match n
    case Branch(_, children) =>
      forall i | 0 <= i < 16 ensures Sized(children[i]) { ProperSized(children[i]); }
      BranchSized(children);
    case Extension(_, _, child) => ProperSized(child);
    case MidBranchLeaf(_, _, child) => ProperSized(child);
    case _ =>
  }

  lemma PutSize<V>(n: Node<V>, path: Path, value: V)
    requires Shaped(n) && Sized(n)
    ensures var r := Insert(n, path, value).0;
            Sized(r) && Ann(r) == Ann(n) + if Lookup(n, path).Some? then 0 else 1
  {
    InsertSized(n, path, value);
    InsertWeight(n, path, value, Each());
    InsertPuts(n, path, value, []);
  }

  lemma TakeSize<V>(n: Node<V>, path: Path)
    requires Shaped(n) && Sized(n)
    ensures var r := Apply(n, Take(path));
            Sized(r) && Ann(r) + (if Lookup(n, path).Some? then 1 else 0) == Ann(n)
  {
    RemoveTakes(n, path, []);
    if EndsAtBranch(n, path) {
      BranchHasNoValue(n, path);
    } else {
      RemoveSized(n, path);
      RemoveWeight(n, path, Each());
    }
  }

  lemma MapPutSize<V>(m: map<Path, V>, path: Path, value: V)
    ensures |m[path := value]| == |m| + if path in m then 0 else 1
  {
    assert m[path := value].Keys == m.Keys + {path};
  }

  lemma MapTakeSize<V>(m: map<Path, V>, path: Path)
    ensures |m - {path}| + (if path in m then 1 else 0) == |m|
  {
    assert (m - {path}).Keys == m.Keys - {path};
  }

  lemma ApplySize<V>(n: Node<V>, m: map<Path, V>, op: Op<V>)
    requires Shaped(n) && Sized(n) && Ann(n) == |m| && Lookup(n, op.path) == Get(m, op.path)
    ensures Sized(Apply(n, op))
    ensures Ann(Apply(n, op)) == match op case Put(path, value) => |m[path := value]| case Take(path) => |m - {path}|
  {
    match op
    case Put(path, value) =>
      PutSize(n, path, value);
      MapPutSize(m, path, value);
    case Take(path) =>
      TakeSize(n, path);
      MapTakeSize(m, path);
  }

  /** After any history, clean or not, the recorded size is the number of keys of the map. */
  lemma {:induction false} HistorySize<V>(ops: seq<Op<V>>)
    ensures Sized(Built(ops)) && Ann(Built(ops)) == |MapOf(ops)|
  {
    if ops != [] {
      var before, op := ops[..|ops| - 1], ops[|ops| - 1];
      HistorySize(before);
      HistoryIsMap(before, op.path);
      ApplySize(Built(before), MapOf(before), op);
    }
  }

  // ----- the iterator -----

  /** The pairs below a node, each value after those whose path continues its own. */
  function Leaves<V>(n: Node<V>, at: Path): seq<(Path, V)>
    requires Shaped(n)
    decreases n, 17
  {
    match n
    case Empty => []
    case Leaf(_, value) => [(at, value)]
    case Branch(_, _) => BranchLeaves(n, 16, at)
    case Extension(_, path, child) => Leaves(child, at + path)
    case MidBranchLeaf(_, value, child) => Leaves(child, at) + [(at, value)]
  }

  function BranchLeaves<V>(n: Node<V>, h: nat, at: Path): seq<(Path, V)>
    requires Shaped(n) && n.Branch? && h <= 16
    decreases n, h
  {
    if h == 0 then [] else BranchLeaves(n, h - 1, at) + Leaves(n.children[h - 1], at + [h - 1])
  }

  ghost predicate Holds<V>(n: Node<V>, at: Path, e: (Path, V))
    requires Shaped(n)
  {
    at <= e.0 && Lookup(n, e.0[|at|..]) == Some(e.1)
  }

  lemma {:induction false} BranchLeavesExact<V>(n: Node<V>, h: nat, at: Path, e: (Path, V))
    requires Shaped(n) && n.Branch? && h <= 16
    ensures e in BranchLeaves(n, h, at) <==> Holds(n, at, e) && e.0[|at|] < h
    decreases n, h
  {
    if h != 0 {
      BranchLeavesExact(n, h - 1, at, e);
      LeavesExact(n.children[h - 1], at + [h - 1], e);
      assert at + [h - 1] <= e.0 <==> at < e.0 && e.0[|at|] == h - 1;
      if at < e.0 { assert e.0[|at|..][1..] == e.0[|at| + 1..]; }
    }
  }

  /** The iterator yields the pairs that lookup finds and no others. */
  lemma {:induction false} LeavesExact<V>(n: Node<V>, at: Path, e: (Path, V))
    requires Shaped(n)
    ensures e in Leaves(n, at) <==> Holds(n, at, e)
    decreases n, 17
  {
    match n
    case Empty =>
    case Leaf(_, _) => assert at <= e.0 && e.0[|at|..] == [] <==> e.0 == at;
    case Branch(_, _) => BranchLeavesExact(n, 16, at, e);
    case Extension(_, path, child) =>
      LeavesExact(child, at + path, e);
      if at <= e.0 {
        PrefixSplit(at, path, e.0);
      }
    case MidBranchLeaf(_, _, child) =>
      LeavesExact(child, at, e);
      assert at <= e.0 && e.0[|at|..] == [] <==> e.0 == at;
  }

  lemma {:induction false} BranchLeavesCount<V>(n: Node<V>, h: nat, at: Path)
    requires Shaped(n) && n.Branch? && h <= 16
    ensures |BranchLeaves(n, h, at)| == WeightSum(n.children[..h], Each())
    decreases n, h
  {
    if h != 0 {
      BranchLeavesCount(n, h - 1, at);
      LeavesCount(n.children[h - 1], at + [h - 1]);
      assert n.children[..h][..h - 1] == n.children[..h - 1];
    }
  }

  lemma {:induction false} LeavesCount<V>(n: Node<V>, at: Path)
    requires Shaped(n)
    ensures |Leaves(n, at)| == Weight(n, Each())
    decreases n, 17
  {
    match n
    case Empty =>
    case Leaf(_, _) =>
    case Branch(_, children) => BranchLeavesCount(n, 16, at); assert children[..16] == children;
    case Extension(_, path, child) => LeavesCount(child, at + path);
    case MidBranchLeaf(_, _, child) => LeavesCount(child, at);
  }

  // ----- in which order -----

  /** By the first nibble in which they differ; a path comes after those that continue it. */
  predicate Precedes(a: Path, b: Path) {
    a != [] && (b == [] || a[0] < b[0] || (a[0] == b[0] && Precedes(a[1..], b[1..])))
  }

  lemma {:induction false} PrecedesBelow(at: Path, a: Path, b: Path)
    ensures Precedes(at + a, at + b) <==> Precedes(a, b)
  {
    if at == [] {
      assert at + a == a && at + b == b;
    } else {
      assert (at + a)[1..] == at[1..] + a && (at + b)[1..] == at[1..] + b;
      PrecedesBelow(at[1..], a, b);
    }
  }

  lemma {:induction false} NotBeforeItself(a: Path)
    ensures !Precedes(a, a)
  {
    if a != [] { NotBeforeItself(a[1..]); }
  }

  ghost predicate Ordered<V>(s: seq<(Path, V)>) {
    forall i, j :: 0 <= i < j < |s| ==> Precedes(s[i].0, s[j].0)
  }

  lemma OrderedJoin<V>(s: seq<(Path, V)>, t: seq<(Path, V)>)
    requires Ordered(s) && Ordered(t) && forall e, f :: e in s && f in t ==> Precedes(e.0, f.0)
    ensures Ordered(s + t)
  {
    forall i, j | 0 <= i < j < |s + t| ensures Precedes((s + t)[i].0, (s + t)[j].0) {
      if i < |s| <= j { assert s[i] in s && t[j - |s|] in t; }
    }
  }

  lemma HeadsOrdered(at: Path, a: Path, b: Path)
    requires at < a && at < b && a[|at|] < b[|at|]
    ensures Precedes(a, b)
  {
    assert a == at + a[|at|..] && b == at + b[|at|..];
    PrecedesBelow(at, a[|at|..], b[|at|..]);
  }

  lemma {:induction false} BranchLeavesOrdered<V>(n: Node<V>, h: nat, at: Path)
    requires Shaped(n) && n.Branch? && h <= 16
    ensures Ordered(BranchLeaves(n, h, at))
    decreases n, h
  {
    if h != 0 {
      var s, t := BranchLeaves(n, h - 1, at), Leaves(n.children[h - 1], at + [h - 1]);
      BranchLeavesOrdered(n, h - 1, at);
      LeavesOrdered(n.children[h - 1], at + [h - 1]);
      forall e, f | e in s && f in t ensures Precedes(e.0, f.0) {
        BranchLeavesExact(n, h - 1, at, e);
        LeavesExact(n.children[h - 1], at + [h - 1], f);
        assert f.0[|at|] == (at + [h - 1])[|at|] == h - 1;
        HeadsOrdered(at, e.0, f.0);
      }
      OrderedJoin(s, t);
    }
  }

  lemma {:induction false} LeavesOrdered<V>(n: Node<V>, at: Path)
    requires Shaped(n)
    ensures Ordered(Leaves(n, at))
    decreases n, 17
  {
    match n
    case Empty =>
    case Leaf(_, _) =>
    case Branch(_, _) => BranchLeavesOrdered(n, 16, at);
    case Extension(_, path, child) => LeavesOrdered(child, at + path);
    case MidBranchLeaf(_, value, child) =>
      LeavesOrdered(child, at);
      forall e | e in Leaves(child, at) ensures Precedes(e.0, at) {
        LeavesExact(child, at, e);
        assert e.0 == at + e.0[|at|..] && at == at + [];
        PrecedesBelow(at, e.0[|at|..], []);
      }
      OrderedJoin(Leaves(child, at), [(at, value)]);
  }

  lemma HistoryPair<V>(ops: seq<Op<V>>, e: (Path, V))
    ensures e in Leaves(Built(ops), []) <==> e.0 in MapOf(ops) && MapOf(ops)[e.0] == e.1
  {
    LeavesExact(Built(ops), [], e);
    HistoryIsMap(ops, e.0);
    assert e.0[0..] == e.0;
  }

  /** After any history the iterator yields every key of the map once, with its value, in order. */
  lemma HistoryIterates<V>(ops: seq<Op<V>>)
    ensures var s, m := Leaves(Built(ops), []), MapOf(ops);
            && |s| == |m| && Ordered(s)
            && (forall e :: e in s <==> e.0 in m && m[e.0] == e.1)
            && (forall i, j :: 0 <= i < j < |s| ==> s[i].0 != s[j].0)
  {
    var s, m := Leaves(Built(ops), []), MapOf(ops);
    assert |s| == |m| by {
      HistorySize(ops);
      LeavesCount(Built(ops), []);
    }
    forall e ensures e in s <==> e.0 in m && m[e.0] == e.1 { HistoryPair(ops, e); }
    LeavesOrdered(Built(ops), []);
    forall i, j | 0 <= i < j < |s| ensures s[i].0 != s[j].0 { NotBeforeItself(s[i].0); }
  }
}
