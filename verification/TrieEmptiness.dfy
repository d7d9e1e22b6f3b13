/** Over which keys every trie without values is the empty node, which is all that the emptiness
test asks. */
module TrieEmptiness {
  import opened Basics
  import opened Trie
  import opened TrieMap
  import opened TrieKeeps
  import opened TrieHistories
  import opened TrieSizes
  import opened TriePredecessor
  import opened TrieLively
  import opened TrieAligned

  // ----- dead ends -----

  /** Removal makes no other nodes empty. */
  ghost predicate Plain<V>(n: Node<V>) { n.Empty? || n.Leaf? || (n.Extension? && Plain(n.child)) }

  lemma ShrunkNotEmpty<V>(children: seq<Node<V>>)
    requires |children| == 16
    ensures !Shrunk(children).Empty?
  {
    if Filled(children) == 1 {
      FilledExists(children);
      var i := FirstFilled(children);
      if children[i].Extension? {
        ExtendIsExtension([i] + children[i].path, children[i].child);
      } else {
        ExtendIsExtension([i], children[i]);
      }
    }
  }

  lemma {:induction false} PlainOnly<V>(n: Node<V>, path: Path)
    requires Shaped(n) && Remove(n, path).Removed? && Remove(n, path).node.Empty?
    ensures Plain(n)
  {
    match n
    case Branch(_, children) => ShrunkNotEmpty(children[path[0] := Remove(children[path[0]], path[1..]).node]);
    case Extension(_, compressed, child) =>
      var below := Remove(child, path[|compressed|..]).node;
      if below.Extension? { ExtendIsExtension(compressed + below.path, below.child); }
      PlainOnly(child, path[|compressed|..]);
    case _ =>
  }

  lemma {:induction false} ChunkedPlain<V>(head: Path, child: Node<V>)
    ensures Plain(Chunked(head, child)) <==> Plain(child)
    decreases |head|
  {
    if |head| > MAX_PATH { ChunkedPlain(head[MAX_PATH..], child); }
  }

  lemma {:induction false} ExtendPlain<V>(head: Path, child: Node<V>)
    ensures Plain(Extend(head, child)) <==> Plain(child)
    decreases child
  {
    if child.Extension? && |head| % MAX_PATH != 0 {
      ExtendPlain(head + child.path, child.child);
    } else {
      ChunkedPlain(head, child);
    }
  }

  /** At the end of the path sits a value above a branch. */
  ghost predicate Stuck<V>(n: Node<V>, path: Path)
    requires Shaped(n)
  {
    match n
    case Empty => false
    case Leaf(_, _) => false
    case Branch(_, children) => path != [] && Stuck(children[path[0]], path[1..])
    case Extension(_, compressed, child) => compressed <= path && Stuck(child, path[|compressed|..])
    case MidBranchLeaf(_, _, child) => if path == [] then child.Branch? else Stuck(child, path)
  }

  /** It does after an insertion that ends inside an extension. */
  lemma {:induction false} InsertSticks<V>(n: Node<V>, path: Path, value: V)
    requires Shaped(n) && EndsInside(n, path)
    ensures Shaped(Insert(n, path, value).0) && Stuck(Insert(n, path, value).0, path)
    decreases n
  {
    InsertPuts(n, path, value, []);
    match n
    case Branch(_, children) => InsertSticks(children[path[0]], path[1..], value);
    case Extension(_, compressed, child) =>
      if compressed <= path {
        InsertBelowForm(n, path, value);
        InsertSticks(child, path[|compressed|..], value);
      } else {
        InsertSplitForm(n, path, value);
        CommonOfLong(compressed, path);
        CommonIs(compressed, path, |path|);
        assert path[|path|..] == [] && compressed[..|path|] == path;
      }
    case MidBranchLeaf(_, _, child) => InsertSticks(child, path, value);
  }

  lemma {:induction false} ChunkedStuck<V>(head: Path, child: Node<V>, path: Path)
    requires Shaped(child) && head <= path && Stuck(child, path[|head|..])
    ensures Shaped(Chunked(head, child)) && Stuck(Chunked(head, child), path)
    decreases |head|
  {
    ChunkedLookup(head, child, []);
    if head == [] {
      assert path[0..] == path;
    } else if |head| > MAX_PATH {
      assert head == head[..MAX_PATH] + head[MAX_PATH..];
      PrefixSplit(head[..MAX_PATH], head[MAX_PATH..], path);
      ChunkedStuck(head[MAX_PATH..], child, path[MAX_PATH..]);
    }
  }

  lemma {:induction false} ExtendStuck<V>(head: Path, child: Node<V>, path: Path)
    requires Shaped(child) && head <= path && Stuck(child, path[|head|..])
    ensures Shaped(Extend(head, child)) && Stuck(Extend(head, child), path)
    decreases child
  {
    if child.Extension? && |head| % MAX_PATH != 0 {
      PrefixSplit(head, child.path, path);
      ExtendStuck(head + child.path, child.child, path);
    } else {
      ChunkedStuck(head, child, path);
    }
  }

  lemma ShrunkStuck<V>(children: seq<Node<V>>, path: Path)
    requires |children| == 16 && forall i :: 0 <= i < 16 ==> Shaped(children[i])
    requires path != [] && Stuck(children[path[0]], path[1..])
    ensures Shaped(Shrunk(children)) && Stuck(Shrunk(children), path)
  {
    ShrunkLookup(children, []);
    if Filled(children) == 1 {
      FilledExists(children);
      var i := FirstFilled(children);
      if i != path[0] { FilledOne(children, i, path[0]); }
      if children[i].Extension? {
        PrefixSplit([i], children[i].path, path);
        ExtendStuck([i] + children[i].path, children[i].child, path);
      } else {
        ExtendStuck([i], children[i], path);
      }
    }
  }

  lemma UpdatedStuck<V>(children: seq<Node<V>>, i: Nibble, c: Node<V>, path: Path)
    requires |children| == 16 && (forall j :: 0 <= j < 16 ==> Shaped(children[j])) && Shaped(c)
    requires path != [] && Stuck(if path[0] == i then c else children[path[0]], path[1..])
    ensures Shaped(Shrunk(children[i := c])) && Stuck(Shrunk(children[i := c]), path)
  {
    var updated := children[i := c];
    assert forall j :: 0 <= j < 16 ==> updated[j] == if j == i then c else children[j];
    ShrunkStuck(updated, path);
  }

  lemma ReattachedStuck<V>(head: Path, n: Node<V>, path: Path)
    requires Shaped(n) && 0 < |head| <= MAX_PATH && head <= path && Stuck(n, path[|head|..])
    ensures Shaped(Reattached(head, n)) && Stuck(Reattached(head, n), path)
  {
    if n.Extension? {
      PrefixSplit(head, n.path, path);
      ExtendStuck(head + n.path, n.child, path);
    }
  }

  /** Removing a key that does not continue the path changes nothing of that. */
  lemma {:induction false} RemoveSticks<V>(n: Node<V>, less: Path, path: Path)
    requires Shaped(n) && Stuck(n, path) && !(path <= less) && Remove(n, less).Removed?
    ensures Shaped(Remove(n, less).node) && Stuck(Remove(n, less).node, path)
    decreases n
  {
    RemoveTakes(n, less, []);
    match n
    case Branch(_, children) =>
      var i := less[0];
      if path[0] == i {
        assert path == [i] + path[1..] && less == [i] + less[1..];
        PrefixSplit([i], path[1..], less);
        RemoveSticks(children[i], less[1..], path[1..]);
      }
      RemoveTakes(children[i], less[1..], []);
      UpdatedStuck(children, i, Remove(children[i], less[1..]).node, path);
    case Extension(_, compressed, child) =>
      if compressed <= less {
        assert path == compressed + path[|compressed|..];
        PrefixSplit(compressed, path[|compressed|..], less);
        RemoveSticks(child, less[|compressed|..], path[|compressed|..]);
        ReattachedStuck(compressed, Remove(child, less[|compressed|..]).node, path);
      }
    case MidBranchLeaf(_, _, child) =>
      if less != [] { RemoveSticks(child, less, path); }
  }

  /** Removing one that does leaves a node that no removal makes empty. */
  lemma {:induction false} RemoveLeaves<V>(n: Node<V>, less: Path, path: Path)
    requires Shaped(n) && Stuck(n, path) && path < less && Remove(n, less).Removed?
    ensures !Plain(Remove(n, less).node)
    decreases n
  {
    match n
    case Branch(_, children) =>
      var i := less[0];
      RemoveLeaves(children[i], less[1..], path[1..]);
      ShrunkLeaves(children[i := Remove(children[i], less[1..]).node], i);
    case Extension(_, compressed, child) =>
      RemoveLeaves(child, less[|compressed|..], path[|compressed|..]);
      var below := Remove(child, less[|compressed|..]).node;
      if below.Extension? { ExtendPlain(compressed + below.path, below.child); }
    case MidBranchLeaf(_, _, child) =>
      if path == [] {
        if Remove(child, less).node.Empty? { PlainOnly(child, less); }
      } else {
        RemoveLeaves(child, less, path);
      }
  }

  lemma ShrunkLeaves<V>(children: seq<Node<V>>, i: Nibble)
    requires |children| == 16 && !Plain(children[i])
    ensures !Plain(Shrunk(children))
  {
    if Filled(children) == 1 {
      FilledExists(children);
      var j := FirstFilled(children);
      if i != j { FilledOne(children, j, i); }
      if children[i].Extension? {
        ExtendPlain([i] + children[i].path, children[i].child);
      } else {
        ExtendPlain([i], children[i]);
      }
    }
  }

  // ----- histories that lead into one -----

  /** In the extensions of a single key, a prefix of it ends inside one unless it fills its last. */
  lemma {:induction false} InsideAlone<V>(q: Path, v: V, p: Path)
    requires p < q
    ensures Shaped(Extend(q, NewLeaf(v))) && (EndsInside(Extend(q, NewLeaf(v)), p) <==> Offset(|p|) != 0)
    decreases |q|
  {
    Unfolded(q, v);
    if |q| > 255 && |p| >= 255 {
      assert q[..255] <= p && p[255..] < q[255..];
      InsideAlone(q[255..], v, p[255..]);
    }
  }

  lemma OffsetBelow(x: int)
    ensures Offset(x - 255) == Offset(x)
  {}

  /** With another key that parts from it before, the extensions are counted from there. */
  lemma {:induction false} InsideBoth<V>(r: Path, q: Path, v: V, p: Path, x: nat)
    requires p < q && x == Common(r, p) && x < |r| && x < |p|
    requires Offset(|p|) == 0 && Offset(x) != 254
    ensures Shaped(Both(r, q, v)) && EndsInside(Both(r, q, v), p)
    decreases |p|
  {
    if x >= 255 {
      Peeled(r, p);
      OffsetBelow(x);
      OffsetBelow(|p|);
      assert p[255..] < q[255..];
      InsideBoth(r[255..], q[255..], v, p[255..], x - 255);
      InsideBelow(r, q, v, p);
    } else {
      InsideHere(r, q, v, p, x);
    }
  }

  lemma InsideBelow<V>(r: Path, q: Path, v: V, p: Path)
    requires |r| > 255 && |p| > 255 && p < q && r[..255] == p[..255]
    requires Shaped(Both(r[255..], q[255..], v)) && EndsInside(Both(r[255..], q[255..], v), p[255..])
    ensures Shaped(Both(r, q, v)) && EndsInside(Both(r, q, v), p)
  {
    assert r[..255] == q[..255];
    Unfolded(r, v);
    InsertBelowForm(Extend(r, NewLeaf(v)), q, v);
    BothBelow(r, q, v);
    assert Both(r, q, v).path == p[..255];
  }

  /** Below x nibbles there is a branch. */
  ghost predicate BranchAfter<V>(n: Node<V>, path: Path) {
    if path == [] then n.Branch? else n.Extension? && n.path == path && n.child.Branch?
  }

  lemma InsideSide<V>(n: Node<V>, p: Path, x: nat)
    requires Shaped(n) && x < |p| && BranchAfter(n, p[..x])
    ensures Shaped(Side(n, x, p[x])) && (EndsInside(n, p) <==> EndsInside(Side(n, x, p[x]), p[x + 1..]))
  {
    assert p[x..][1..] == p[x + 1..];
  }

  lemma SplitBranches<V>(n: Node<V>, path: Path, v: V, x: nat)
    requires Shaped(n) && n.Extension? && !(n.path <= path) && x == Divergence(n.path, path)
    requires x < |n.path| && x < |path| && n.path[x] != path[x]
    ensures Shaped(Insert(n, path, v).0) && BranchAfter(Insert(n, path, v).0, path[..x])
  {
    InsertPuts(n, path, v, []);
    InsertSplitForm(n, path, v);
  }

  lemma BothSplit<V>(r: Path, q: Path, v: V, x: nat)
    requires x < |r| && x < |q| && x < 255 && r[..x] == q[..x] && r[x] != q[x]
    ensures var n := Both(r, q, v);
            Shaped(n) && BranchAfter(n, q[..x]) && Side(n, x, q[x]) == Insert(Empty, q[x + 1..], v).0
  {
    var n := Extend(r, NewLeaf(v));
    Unfolded(r, v);
    PartsHead(r, n.path, q, x);
    SplitSides(n, q, v, x);
    SplitBranches(n, q, v, x);
  }

  lemma OffsetBetween(x: nat, m: nat)
    requires x < m && Offset(m) == 0 && Offset(x) != 254
    ensures Offset(m - x - 1) != 0
  {}

  lemma ProperPrefix(p: Path, q: Path, x: nat)
    requires p < q && x < |p|
    ensures p[..x] == q[..x] && p[x] == q[x] && p[x + 1..] < q[x + 1..]
  {}

  lemma InsideHere<V>(r: Path, q: Path, v: V, p: Path, x: nat)
    requires p < q && x < |r| && x < |p| && x < 255 && r[..x] == p[..x] && r[x] != p[x]
    requires Offset(|p|) == 0 && Offset(x) != 254
    ensures Shaped(Both(r, q, v)) && EndsInside(Both(r, q, v), p)
  {
    ProperPrefix(p, q, x);
    BothSplit(r, q, v, x);
    InsideSide(Both(r, q, v), p, x);
    OffsetBetween(x, |p|);
    InsideAlone(q[x + 1..], v, p[x + 1..]);
  }

  // ----- exactly then -----

  /** Every history over the keys that ends in the empty map ends in the empty node. */
  ghost predicate Emptying<V(!new)>(keys: iset<Path>) {
    forall ops: seq<Op<V>> :: Over(ops, keys) && MapOf(ops) == map[] ==> Built(ops).Empty?
  }

  lemma BuiltMore<V>(ops: seq<Op<V>>, op: Op<V>)
    ensures Built(ops + [op]) == Apply(Built(ops), op)
    ensures MapOf(ops + [op]) == if op.Put? then MapOf(ops)[op.path := op.value] else MapOf(ops) - {op.path}
  {
    assert (ops + [op])[..|ops|] == ops;
  }

  lemma HasNoPanic<V>(n: Node<V>, path: Path)
    requires Shaped(n) && Lookup(n, path).Some?
    ensures Remove(n, path).Removed?
  {
    RemoveTakes(n, path, []);
    if EndsAtBranch(n, path) { BranchHasNoValue(n, path); }
  }

  /** The way out of a dead end is closed. */
  lemma StaysNotEmpty<V>(ops: seq<Op<V>>, p: Path, q: Path)
    requires p < q && Stuck(Built(ops), p) && MapOf(ops).Keys == {p, q}
    ensures var all := ops + [Take(q)] + [Take(p)]; MapOf(all) == map[] && !Built(all).Empty?
  {
    BuiltMore(ops, Take(q));
    BuiltMore(ops + [Take(q)], Take(p));
    HistoryIsMap(ops, q);
    HasNoPanic(Built(ops), q);
    RemoveLeaves(Built(ops), q, p);
    var n := Built(ops + [Take(q)]);
    if Remove(n, p).Removed? && Remove(n, p).node.Empty? { PlainOnly(n, p); }
  }

  function Leaving<V>(p: Path, q: Path, v: V): seq<Op<V>> { [Put(q, v), Put(p, v)] + [Take(q)] + [Take(p)] }

  /** Inserting a key, then a prefix of it that does not fill its last extension, and removing both
      leaves no value, but not the empty node. */
  lemma EmptyMapNotEmptyNode<V>(p: Path, q: Path, v: V)
    requires p < q && Offset(|p|) != 0
    ensures var ops := Leaving(p, q, v); MapOf(ops) == map[] && !Built(ops).Empty? && Ann(Built(ops)) == 0
  {
    var ops := [Put(q, v), Put(p, v)];
    BothIsBuilt(q, p, v);
    MapOfTwo(ops[0], ops[1]);
    InsideAlone(q, v, p);
    InsertSticks(Extend(q, NewLeaf(v)), p, v);
    StaysNotEmpty(ops, p, q);
    HistorySize(Leaving(p, q, v));
  }

  function Detour<V>(p: Path, q: Path, r: Path, v: V): seq<Op<V>> {
    [Put(r, v), Put(q, v)] + [Put(p, v)] + [Take(r)] + [Take(q)] + [Take(p)]
  }

  lemma DetourSticks<V>(p: Path, q: Path, r: Path, v: V)
    requires p < q && Common(r, p) < |r| && Common(r, p) < |p|
    requires Offset(|p|) == 0 && Offset(Common(r, p)) != 254
    ensures var ops := [Put(r, v), Put(q, v)] + [Put(p, v)];
            Stuck(Built(ops), p) && MapOf(ops).Keys == {p, q, r} && !(p <= r) && q != r
  {
    var two := [Put(r, v), Put(q, v)];
    BothIsBuilt(r, q, v);
    MapOfTwo(two[0], two[1]);
    BuiltMore(two, Put(p, v));
    InsideBoth(r, q, v, p, Common(r, p));
    InsertSticks(Built(two), p, v);
    assert r[Common(r, p)] != p[Common(r, p)];
  }

  lemma StaysStuck<V>(ops: seq<Op<V>>, p: Path, r: Path)
    requires Stuck(Built(ops), p) && !(p <= r) && r in MapOf(ops)
    ensures Stuck(Built(ops + [Take(r)]), p) && MapOf(ops + [Take(r)]) == MapOf(ops) - {r}
  {
    BuiltMore(ops, Take(r));
    HistoryIsMap(ops, r);
    HasNoPanic(Built(ops), r);
    RemoveSticks(Built(ops), r, p);
  }

  /** So does the same with a third key around that parts from the prefix. */
  lemma DetourNotEmptyNode<V>(p: Path, q: Path, r: Path, v: V)
    requires p < q && Common(r, p) < |r| && Common(r, p) < |p|
    requires Offset(|p|) == 0 && Offset(Common(r, p)) != 254
    ensures var ops := Detour(p, q, r, v); MapOf(ops) == map[] && !Built(ops).Empty?
  {
    var three := [Put(r, v), Put(q, v)] + [Put(p, v)];
    DetourSticks(p, q, r, v);
    StaysStuck(three, p, r);
    assert MapOf(three + [Take(r)]).Keys == {p, q};
    StaysNotEmpty(three + [Take(r)], p, q);
  }

  ghost predicate Leaves<V>(ops: seq<Op<V>>, keys: iset<Path>) {
    Over(ops, keys) && MapOf(ops) == map[] && !Built(ops).Empty?
  }

  lemma LeavingLeaves<V>(p: Path, q: Path, v: V, keys: iset<Path>)
    requires p in keys && q in keys && p < q && Offset(|p|) != 0
    ensures Leaves(Leaving(p, q, v), keys)
  {
    EmptyMapNotEmptyNode(p, q, v);
  }

  lemma DetourLeaves<V>(p: Path, q: Path, r: Path, v: V, keys: iset<Path>)
    requires p in keys && q in keys && r in keys && p < q && Common(r, p) < |r| && Common(r, p) < |p|
    requires Offset(|p|) == 0 && Offset(Common(r, p)) != 254
    ensures Leaves(Detour(p, q, r, v), keys)
  {
    DetourNotEmptyNode(p, q, r, v);
  }

  lemma EndsBefore(r: Path, p: Path)
    requires Common(r, p) == |r| < |p|
    ensures r < p
  {
    assert r == r[..|r|] == p[..|r|];
  }

  lemma MisalignedLeaves<V>(keys: iset<Path>, p: Path, q: Path, r: Path, v: V) returns (ops: seq<Op<V>>)
    requires p in keys && q in keys && r in keys && p < q && !Fits(r, p)
    ensures Leaves(ops, keys)
  {
    if Offset(|p|) != 0 {
      LeavingLeaves(p, q, v, keys);
      ops := Leaving(p, q, v);
    } else if Common(r, p) == |r| {
      EndsBefore(r, p);
      LeavingLeaves(r, p, v, keys);
      ops := Leaving(r, p, v);
    } else {
      DetourLeaves(p, q, r, v, keys);
      ops := Detour(p, q, r, v);
    }
  }

  /** The emptiness test is right after every history over the keys if and only if a key that
      another one continues, but the empty one, fills its last extension however the rest went in. */
  lemma EmptyExactly<V(!new)>(keys: iset<Path>, v: V)
    ensures Emptying<V>(keys) <==> Aligned(keys)
  {
    if Aligned(keys) {
      forall ops: seq<Op<V>> | Over(ops, keys) && MapOf(ops) == map[] ensures Built(ops).Empty? {
        AlignedLively(ops, keys);
        LivelyEmpty(ops);
      }
    } else {
      var p, r :| Inner(keys, p) && r in keys && !Fits(r, p);
      var q :| q in keys && p < q;
      var ops := MisalignedLeaves(keys, p, q, r, v);
    }
  }

  /** For keys of at most 255 nibbles: if and only if none but the empty one is a proper prefix of
      another. */
  lemma ShortEmptyExactly<V(!new)>(keys: iset<Path>, v: V)
    requires forall q :: q in keys ==> |q| <= 255
    ensures Emptying<V>(keys) <==> forall p, q :: p in keys && q in keys && p < q ==> p == []
  {
    EmptyExactly<V>(keys, v);
    forall p, q | p in keys && q in keys && p < q ensures p == [] || (Inner(keys, p) && Offset(|p|) != 0) {}
    if forall p, q :: p in keys && q in keys && p < q ==> p == [] {
      assert forall p :: !Inner(keys, p);
    }
    if Aligned(keys) {
      forall p, q | p in keys && q in keys && p < q ensures p == [] {
        assert Inner(keys, p) ==> Fits(p, p);
      }
    }
  }
}
