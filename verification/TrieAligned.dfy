/** Keys of which none ever ends inside an extension. */
module TrieAligned {
  import opened Basics
  import opened Trie
  import opened TrieMap
  import opened TrieCanon
  import opened TrieKeeps
  import opened TrieHistories
  import opened TriePredecessor
  import opened TrieLively

  // ----- keys along which extensions stay aligned -----

  /** Below s nibbles, a key that ends on the way to a path ends with a full extension, and one
      that parts from it does so at the last nibble of a full one. */
  ghost predicate Calm(k: Path, path: Path, s: nat) {
    var x := Common(k, path);
    x == |path| || Offset(s + x) == if x == |k| then 0 else 254
  }

  /** Another key continues it. */
  ghost predicate Inner(keys: iset<Path>, p: Path) { p in keys && p != [] && exists q :: q in keys && p < q }

  ghost predicate Fits(r: Path, p: Path) { Offset(|p|) == 0 && Calm(r, p, 0) }

  ghost predicate Aligned(keys: iset<Path>) { forall p, r :: Inner(keys, p) && r in keys ==> Fits(r, p) }

  lemma CalmBelow(head: Path, k: Path, path: Path, s: nat)
    requires Calm(head + k, head + path, s)
    ensures Calm(k, path, s + |head|)
  {
    CommonBelow(head, k, path);
  }

  /** The keys of a node below s nibbles, together with one more. */
  ghost predicate AllCalm<V>(n: Node<V>, more: Path, path: Path, s: nat)
    requires Shaped(n)
  {
    forall k {:trigger Calm(k, path, s)} :: Among(n, more, k) ==> Calm(k, path, s)
  }

  lemma AllCalmBelow<V>(n: Node<V>, child: Node<V>, head: Path, more: Path, path: Path, s: nat)
    requires Shaped(n) && Shaped(child) && head <= more && head <= path && AllCalm(n, more, path, s)
    requires forall k :: Lookup(child, k).Some? ==> Lookup(n, head + k).Some?
    ensures AllCalm(child, more[|head|..], path[|head|..], s + |head|)
  {
    var rest := path[|head|..];
    forall k | Among(child, more[|head|..], k) ensures Calm(k, rest, s + |head|) {
      AmongBelow(n, child, more, head, k);
      assert path == head + rest;
      assert Calm(head + k, head + rest, s);
      CalmBelow(head, k, rest, s);
    }
  }

  // ----- along such a key -----

  /** Only full extensions continue in another one. */
  ghost predicate Chained<V>(n: Node<V>, path: Path)
    requires Shaped(n)
  {
    match n
    case Empty => true
    case Leaf(_, _) => true
    case Branch(_, children) => path != [] ==> Chained(children[path[0]], path[1..])
    case Extension(_, compressed, child) =>
      compressed <= path ==> (child.Extension? ==> |compressed| == 255) && Chained(child, path[|compressed|..])
    case MidBranchLeaf(_, _, child) => Chained(child, path)
  }

  ghost predicate Starts<V>(n: Node<V>, s: nat) { n.Extension? ==> Offset(s) == 0 }

  lemma UnderBranchCalm<V>(n: Node<V>, more: Path, path: Path, s: nat)
    requires Shaped(n) && Lively(n) && n.Branch? && AllCalm(n, more, path, s) && path != []
    requires more != [] && more[0] == path[0]
    ensures AllCalm(n.children[path[0]], more[1..], path[1..], s + 1) && Starts(n.children[path[0]], s + 1)
  {
    var i := path[0];
    forall k | Lookup(n.children[i], k).Some? ensures Lookup(n, [i] + k).Some? { BelowBranch(n, i, k); }
    AllCalmBelow(n, n.children[i], [i], more, path, s);
    var a, b := TwoFilled(n.children);
    var j: Nibble := if a == i then b else a;
    var r := LivelyHolds(n.children[j]);
    BelowBranch(n, j, r);
    CommonIs([j] + r, path, 0);
    assert Among(n, more, [j] + r) && Calm([j] + r, path, s);
    AlignedNext(s);
  }

  lemma AlignedNext(s: nat)
    ensures Offset(s) == 254 ==> Offset(s + 1) == 0
  {}

  lemma UnderExtensionCalm<V>(n: Node<V>, more: Path, path: Path, s: nat)
    requires Shaped(n) && n.Extension? && AllCalm(n, more, path, s) && Starts(n, s) && Chained(n, path)
    requires n.path <= more && n.path <= path
    ensures AllCalm(n.child, more[|n.path|..], path[|n.path|..], s + |n.path|) && Starts(n.child, s + |n.path|)
  {
    assert AllCalm(n.child, more[|n.path|..], path[|n.path|..], s + |n.path|) by {
      forall k | Lookup(n.child, k).Some? ensures Lookup(n, n.path + k).Some? { BelowExtension(n, k); }
      AllCalmBelow(n, n.child, n.path, more, path, s);
    }
    if n.child.Extension? { NextBegins(s); }
  }

  lemma UnderValueCalm<V>(n: Node<V>, more: Path, path: Path, s: nat)
    requires Shaped(n) && n.MidBranchLeaf? && AllCalm(n, more, path, s) && path != []
    ensures AllCalm(n.child, more, path, s) && Starts(n.child, s)
  {
    forall k | Among(n.child, more, k) ensures Calm(k, path, s) {
      if k != [] { assert Among(n, more, k); }
      assert Among(n, more, []);
    }
    assert Among(n, more, []) && Calm([], path, s);
    CommonIs([], path, 0);
  }

  /** Such a key does not end inside an extension. */
  lemma {:induction false} EndsOutside<V>(n: Node<V>, path: Path, s: nat)
    requires Shaped(n) && Lively(n) && Chained(n, path) && Starts(n, s)
    requires AllCalm(n, path, path, s) && Offset(s + |path|) == 0
    ensures !EndsInside(n, path)
    decreases n
  {
    if path != [] {
      match n
      case Empty =>
      case Leaf(_, _) =>
      case Branch(_, children) =>
        UnderBranchCalm(n, path, path, s);
        EndsOutside(children[path[0]], path[1..], s + 1);
      case Extension(_, compressed, child) =>
        if compressed <= path {
          UnderExtensionCalm(n, path, path, s);
          EndsOutside(child, path[|compressed|..], s + |compressed|);
        } else if path <= compressed {
          NoRoom(s, |path|);
        }
      case MidBranchLeaf(_, _, child) =>
        UnderValueCalm(n, path, path, s);
        EndsOutside(child, path, s);
    }
  }

  lemma NoRoom(s: nat, length: nat)
    requires Offset(s) == 0 && Offset(s + length) == 0
    ensures length == 0 || length >= 255
  {}

  // ----- operations along such a key -----

  lemma {:induction false} ChunkedChained<V>(head: Path, child: Node<V>, path: Path)
    requires Shaped(child) && head != [] && (child.Extension? ==> |head| % MAX_PATH == 0)
    requires head <= path ==> Chained(child, path[|head|..])
    ensures Shaped(Chunked(head, child)) && Chained(Chunked(head, child), path)
    decreases |head|
  {
    ChunkedLookup(head, child, []);
    if |head| > MAX_PATH && head[..MAX_PATH] <= path {
      assert head == head[..MAX_PATH] + head[MAX_PATH..];
      PrefixSplit(head[..MAX_PATH], head[MAX_PATH..], path);
      ChunkedChained(head[MAX_PATH..], child, path[MAX_PATH..]);
    }
  }

  lemma {:induction false} ExtendChained<V>(head: Path, child: Node<V>, path: Path)
    requires Shaped(child) && head != []
    requires head <= path ==> Chained(child, path[|head|..])
    ensures Shaped(Extend(head, child)) && Chained(Extend(head, child), path)
    decreases child
  {
    if child.Extension? && |head| % MAX_PATH != 0 {
      if head <= path { PrefixSplit(head, child.path, path); }
      ExtendChained(head + child.path, child.child, path);
    } else {
      ChunkedChained(head, child, path);
    }
  }

  lemma NewChained<V>(more: Path, value: V, path: Path)
    ensures Shaped(Insert(Empty, more, value).0) && Chained(Insert(Empty, more, value).0, path)
  {
    if more != [] { ExtendChained(more, NewLeaf(value), path); }
  }

  lemma EndChained<V>(n: Node<V>)
    requires Shaped(n)
    ensures Chained(n, [])
  {}

  lemma {:induction false} InsertChained<V>(n: Node<V>, more: Path, value: V, path: Path, s: nat)
    requires Shaped(n) && Lively(n) && Chained(n, path) && Starts(n, s)
    requires AllCalm(n, more, path, s) && !EndsInside(n, more)
    ensures Shaped(Insert(n, more, value).0) && Chained(Insert(n, more, value).0, path)
    decreases n
  {
    InsertPuts(n, more, value, []);
    if path == [] {
      EndChained(Insert(n, more, value).0);
    } else if more != [] {
      match n
      case Empty => NewChained(more, value, path);
      case Leaf(_, _) => NewChained(more, value, path);
      case Branch(_, children) =>
        if more[0] == path[0] {
          UnderBranchCalm(n, more, path, s);
          InsertChained(children[path[0]], more[1..], value, path[1..], s + 1);
        }
      case Extension(_, compressed, child) =>
        if !(compressed <= more) {
          SplitChained(n, more, value, path, s);
        } else {
          InsertBelowForm(n, more, value);
          if compressed <= path {
            UnderExtensionCalm(n, more, path, s);
            InsertChained(child, more[|compressed|..], value, path[|compressed|..], s + |compressed|);
            if !child.Extension? { InsertNotExtension(child, more[|compressed|..], value); }
          }
        }
      case MidBranchLeaf(_, _, child) =>
        UnderValueCalm(n, more, path, s);
        InsertChained(child, more, value, path, s);
    }
  }

  /** Below a split lie the new path and what remains of the extension. */
  lemma SplitBelow<V>(n: Node<V>, more: Path, value: V, x: nat)
    requires Shaped(n) && n.Extension? && !(n.path <= more) && x == Divergence(n.path, more)
    requires x < |n.path| && x < |more| && n.path[x] != more[x]
    ensures var r := Insert(n, more, value).0;
            && Shaped(r) && r == Under(n.path[..x], if x == 0 then r else r.child)
            && var b := if x == 0 then r else r.child;
               && b.Branch? && |b.children| == 16 && b.children[more[x]] == Insert(Empty, more[x + 1..], value).0
               && b.children[n.path[x]] == SplitAt(n.path, n.child, x).children[n.path[x]]
               && forall j :: 0 <= j < 16 && j != more[x] && j != n.path[x] ==> b.children[j].Empty?
  {
    InsertPuts(n, more, value, []);
    InsertSplitForm(n, more, value);
    assert more[x..][0] == more[x] && more[x..][1..] == more[x + 1..];
  }

  lemma SplitChained<V>(n: Node<V>, more: Path, value: V, path: Path, s: nat)
    requires Shaped(n) && n.Extension? && Chained(n, path) && Starts(n, s) && AllCalm(n, more, path, s)
    requires more != [] && !(n.path <= more) && !(more <= n.path)
    ensures Shaped(Insert(n, more, value).0) && Chained(Insert(n, more, value).0, path)
  {
    var x := Divergence(n.path, more);
    assert x < |n.path| && x < |more| && n.path[..x] == more[..x] && n.path[x] != more[x] by {
      DivergenceInside(n.path, more);
      assert more[..|more|] == more;
    }
    SplitBelow(n, more, value, x);
    if x < |path| && path[..x] == more[..x] {
      assert path[x..][1..] == path[x + 1..];
      NewChained(more[x + 1..], value, path[x + 1..]);
      if path[x] == n.path[x] { RemainingChained(n, more, path, s, x); }
    }
  }

  lemma RemainingChained<V>(n: Node<V>, more: Path, path: Path, s: nat, x: nat)
    requires Shaped(n) && n.Extension? && Chained(n, path) && Starts(n, s) && AllCalm(n, more, path, s)
    requires x < |n.path| && x < |more| && n.path[..x] == more[..x] && n.path[x] != more[x]
    requires x < |path| && path[..x] == more[..x] && path[x] == n.path[x]
    ensures var remaining := SplitAt(n.path, n.child, x).children[n.path[x]];
            Shaped(remaining) && Chained(remaining, path[x + 1..])
  {
    assert Offset(s + x) == 254 by {
      CommonIs(more, path, x);
      assert Among(n, more, more) && Calm(more, path, s);
    }
    LastNibble(s, x);
    RestPrefix(n.path, path, x);
  }

  lemma RestPrefix(a: Path, b: Path, x: nat)
    requires x < |a| && x < |b| && a[..x] == b[..x] && a[x] == b[x]
    ensures a[x + 1..] <= b[x + 1..] <==> a <= b
    ensures a <= b ==> b[x + 1..][|a| - x - 1..] == b[|a|..]
  {
    assert a == a[..x] + [a[x]] + a[x + 1..] && b == b[..x] + [b[x]] + b[x + 1..];
    var head := a[..x] + [a[x]];
    PrefixSplit(head, a[x + 1..], b);
  }

  lemma LastNibble(s: nat, x: nat)
    requires Offset(s) == 0 && Offset(s + x) == 254 && x < 255
    ensures x == 254
  {}

  lemma ShrunkChained<V>(children: seq<Node<V>>, path: Path)
    requires |children| == 16 && forall i :: 0 <= i < 16 ==> Shaped(children[i])
    requires path != [] ==> Chained(children[path[0]], path[1..])
    ensures Shaped(Shrunk(children)) && Chained(Shrunk(children), path)
  {
    ShrunkLookup(children, []);
    if Filled(children) == 1 {
      FilledExists(children);
      var i := FirstFilled(children);
      if children[i].Extension? {
        if [i] <= path { PrefixSplit([i], children[i].path, path); }
        ExtendChained([i] + children[i].path, children[i].child, path);
      } else {
        ExtendChained([i], children[i], path);
      }
    }
  }

  lemma {:induction false} RemoveChained<V>(n: Node<V>, less: Path, path: Path)
    requires Shaped(n) && Chained(n, path) && Remove(n, less).Removed?
    ensures Shaped(Remove(n, less).node) && Chained(Remove(n, less).node, path)
    decreases n
  {
    RemoveTakes(n, less, []);
    match n
    case Branch(_, children) =>
      var i := less[0];
      RemoveTakes(children[i], less[1..], []);
      var updated := children[i := Remove(children[i], less[1..]).node];
      assert forall j :: 0 <= j < 16 && j != i ==> updated[j] == children[j];
      if path != [] && path[0] == i { RemoveChained(children[i], less[1..], path[1..]); }
      ShrunkChained(updated, path);
    case Extension(_, compressed, child) =>
      if compressed <= less {
        RemoveTakes(child, less[|compressed|..], []);
        var below := Remove(child, less[|compressed|..]).node;
        if compressed <= path { RemoveChained(child, less[|compressed|..], path[|compressed|..]); }
        if below.Extension? {
          if compressed <= path { PrefixSplit(compressed, below.path, path); }
          ExtendChained(compressed + below.path, below.child, path);
        }
      }
    case MidBranchLeaf(_, _, child) => if less != [] { RemoveChained(child, less, path); }
    case _ =>
  }

  // ----- histories over such keys -----

  ghost predicate AllChained<V>(n: Node<V>, keys: iset<Path>)
    requires Shaped(n)
  {
    forall p :: Inner(keys, p) ==> Chained(n, p)
  }

  lemma KeysCalm<V>(ops: seq<Op<V>>, keys: iset<Path>, more: Path, p: Path)
    requires Over(ops, keys) && Aligned(keys) && more in keys && Inner(keys, p)
    ensures AllCalm(Built(ops), more, p, 0) && Offset(|p|) == 0
  {
    assert Fits(more, p);
    forall k | Among(Built(ops), more, k) ensures Calm(k, p, 0) {
      if k != more { KeysOver(ops, keys, k); }
      assert Fits(k, p);
    }
  }

  lemma InsertOutside<V>(ops: seq<Op<V>>, keys: iset<Path>, more: Path)
    requires Over(ops, keys) && Aligned(keys) && more in keys
    requires Lively(Built(ops)) && AllChained(Built(ops), keys)
    ensures !EndsInside(Built(ops), more)
  {
    if Inner(keys, more) {
      KeysCalm(ops, keys, more, more);
      StartsAtRoot(Built(ops));
      EndsOutside(Built(ops), more, 0);
    } else if EndsInside(Built(ops), more) {
      var q := InsideHolds(Built(ops), more);
      KeysOver(ops, keys, q);
    }
  }

  lemma StartsAtRoot<V>(n: Node<V>)
    ensures Starts(n, 0)
  {}

  lemma {:induction false} AlignedLively<V>(ops: seq<Op<V>>, keys: iset<Path>)
    requires Over(ops, keys) && Aligned(keys)
    ensures Lively(Built(ops)) && AllChained(Built(ops), keys)
  {
    if ops != [] {
      var before, op := ops[..|ops| - 1], ops[|ops| - 1];
      var n := Built(before);
      AlignedLively(before, keys);
      InsertOutside(before, keys, op.path);
      ApplyLively(n, op);
      ApplyShaped(n, op);
      forall p | Inner(keys, p) ensures Chained(Apply(n, op), p) { ApplyChained(before, keys, op, p); }
    }
  }

  lemma ApplyChained<V>(ops: seq<Op<V>>, keys: iset<Path>, op: Op<V>, p: Path)
    requires Over(ops, keys) && Aligned(keys) && op.path in keys && Inner(keys, p)
    requires Lively(Built(ops)) && Chained(Built(ops), p) && !EndsInside(Built(ops), op.path)
    ensures Shaped(Apply(Built(ops), op)) && Chained(Apply(Built(ops), op), p)
  {
    var n := Built(ops);
    match op
    case Put(path, value) =>
      KeysCalm(ops, keys, path, p);
      StartsAtRoot(n);
      InsertChained(n, path, value, p, 0);
    case Take(path) => if Remove(n, path).Removed? { RemoveChained(n, path, p); }
  }
}
