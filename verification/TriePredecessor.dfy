/** The search for the greatest path before a given one. */
module TriePredecessor {
  import opened Basics
  import opened Trie
  import opened TrieKeeps
  import opened TriePrune

  // ----- the search -----

  /** The greatest path below a node, which is reached by the path `at`. */
  function Largest<V>(n: Node<V>, at: Path): Option<(Path, V)>
    requires Shaped(n)
    decreases n, 17
  {
    match n
    case Empty => None
    case Leaf(_, value) => Some((at, value))
    case Branch(_, _) => LargestAmong(n, 16, at)
    case Extension(_, path, child) => Largest(child, at + path)
    case MidBranchLeaf(_, value, child) =>
      match Largest(child, at)
      case None => Some((at, value))
      case Some(found) => Some(found)
  }

  /** The same among the children before the h-th. */
  function LargestAmong<V>(n: Node<V>, h: nat, at: Path): Option<(Path, V)>
    requires Shaped(n) && n.Branch? && h <= 16
    decreases n, h
  {
    if h == 0 then None else
    match Largest(n.children[h - 1], at + [h - 1])
    case None => LargestAmong(n, h - 1, at)
    case Some(found) => Some(found)
  }

  /** The loop over the earlier siblings, from the last to the first. */
  method EarlierSibling<V>(n: Node<V>, h: Nibble, at: Path) returns (best: Option<(Path, V)>)
    requires Shaped(n) && n.Branch?
    ensures best == LargestAmong(n, h, at)
  {
    best := None;
    var i := h;
    while i > 0
      invariant 0 <= i <= h
      invariant best.None? && LargestAmong(n, i, at) == LargestAmong(n, h, at)
    {
      i := i - 1;
      var found := Largest(n.children[i], at + [i]);
      if found.Some? { return found; }
    }
  }

  /** Indexing a target that ends inside an extension is a panic. */
  datatype Search<V> = OutOfRange | Best(found: Option<(Path, V)>)

  function Predecessor<V>(n: Node<V>, target: Path, at: Path): Search<V>
    requires Shaped(n)
    decreases n
  {
    if target == [] then Best(None) else
    match n
    case Empty => Best(None)
    case Leaf(_, value) => Best(Some((at, value)))
    case Branch(_, children) =>
      var child := children[target[0]];
      var r := if child.Empty? then Best(None) else Predecessor(child, target[1..], at + [target[0]]);
      if r.OutOfRange? || r.found.Some? then r else Best(LargestAmong(n, target[0], at))
    case Extension(_, compressed, child) =>
      var m := Common(compressed, target);
      if m == |compressed| then Predecessor(child, target[m..], at + compressed)
      else if m == |target| then OutOfRange
      else if compressed[m] < target[m] then Best(Largest(n, at))
      else Best(None)
    case MidBranchLeaf(_, value, child) =>
      var r := Predecessor(child, target, at);
      if r.OutOfRange? || r.found.Some? then r else Best(Some((at, value)))
  }

  // ----- what it finds -----

  /** The greatest path of the node among those allowed, if there is one. */
  ghost predicate Greatest<V>(n: Node<V>, allowed: Path -> bool, at: Path, best: Option<(Path, V)>)
    requires Shaped(n)
  {
    match best
    case None => forall q :: allowed(q) ==> Lookup(n, q) == None
    case Some(found) =>
      at <= found.0 &&
      var k := found.0[|at|..];
      && allowed(k) && Lookup(n, k) == Some(found.1)
      && forall q :: allowed(q) && Lookup(n, q).Some? ==> !Less(k, q)
  }

  /** The path leads into the child, if it is an allowed one. */
  ghost predicate Enters<V>(n: Node<V>, allowed: Path -> bool, head: Path, child: Node<V>, below: Path -> bool, q: Path)
    requires Shaped(n) && Shaped(child)
  {
    allowed(q) && Lookup(n, q).Some? ==> head <= q && below(q[|head|..]) && Lookup(child, q[|head|..]) == Lookup(n, q)
  }

  /** The child's path is one of the node's, if it is an allowed one. */
  ghost predicate Emerges<V>(n: Node<V>, allowed: Path -> bool, head: Path, child: Node<V>, below: Path -> bool, k: Path)
    requires Shaped(n) && Shaped(child)
  {
    below(k) && Lookup(child, k).Some? ==> allowed(head + k) && Lookup(n, head + k) == Lookup(child, k)
  }

  lemma NotLessThrough(head: Path, k: Path, q: Path)
    requires head <= q && !Less(k, q[|head|..])
    ensures !Less(head + k, q)
  {
    LessBelow(head, head + k, q);
    assert (head + k)[|head|..] == k;
  }

  /** If all allowed paths go through a child, its greatest is the node's. */
  lemma GreatestBelow<V>(n: Node<V>, allowed: Path -> bool, at: Path, head: Path, child: Node<V>,
                         below: Path -> bool, best: Option<(Path, V)>)
    requires Shaped(n) && Shaped(child) && Greatest(child, below, at + head, best)
    requires forall q :: Enters(n, allowed, head, child, below, q)
    requires forall k :: Emerges(n, allowed, head, child, below, k)
    ensures Greatest(n, allowed, at, best)
  {
    if best.Some? {
      var k := best.value.0[|at + head|..];
      assert best.value.0[|at|..] == head + k;
      assert Emerges(n, allowed, head, child, below, k);
      forall q | allowed(q) && Lookup(n, q).Some? ensures !Less(head + k, q) {
        assert Enters(n, allowed, head, child, below, q);
        NotLessThrough(head, k, q);
      }
    } else {
      forall q | allowed(q) ensures Lookup(n, q) == None { assert Enters(n, allowed, head, child, below, q); }
    }
  }

  ghost function Any(): Path -> bool { _ => true }

  ghost function Before(target: Path): Path -> bool { q => Less(q, target) }

  ghost function FirstBefore(h: nat): Path -> bool { q => q != [] && q[0] < h }

  ghost function FirstIs(h: nat): Path -> bool { q => q != [] && q[0] == h }

  lemma ChildGreatest<V>(n: Node<V>, i: Nibble, at: Path, allowed: Path -> bool, below: Path -> bool,
                         best: Option<(Path, V)>)
    requires Shaped(n) && n.Branch? && Greatest(n.children[i], below, at + [i], best)
    requires forall q :: allowed(q) ==> q != [] && q[0] == i && below(q[1..])
    requires forall k :: below(k) ==> allowed([i] + k)
    ensures Greatest(n, allowed, at, best)
  {
    forall k ensures Emerges(n, allowed, [i], n.children[i], below, k) { assert ([i] + k)[1..] == k; }
    GreatestBelow(n, allowed, at, [i], n.children[i], below, best);
  }

  lemma {:induction false} LargestAmongGreatest<V>(n: Node<V>, h: nat, at: Path)
    requires Shaped(n) && n.Branch? && h <= 16
    ensures Greatest(n, FirstBefore(h), at, LargestAmong(n, h, at))
    decreases n, h
  {
    if h != 0 {
      LargestGreatest(n.children[h - 1], at + [h - 1]);
      var found := Largest(n.children[h - 1], at + [h - 1]);
      ChildGreatest(n, h - 1, at, FirstIs(h - 1), Any(), found);
      if found.None? { LargestAmongGreatest(n, h - 1, at); }
    }
  }

  lemma {:induction false} LargestGreatest<V>(n: Node<V>, at: Path)
    requires Shaped(n)
    ensures Greatest(n, Any(), at, Largest(n, at))
    decreases n, 17
  {
    match n
    case Empty =>
    case Leaf(_, _) => assert at[|at|..] == [];
    case Branch(_, _) => LargestAmongGreatest(n, 16, at);
    case Extension(_, path, child) =>
      LargestGreatest(child, at + path);
      forall k ensures Emerges(n, Any(), path, child, Any(), k) { assert (path + k)[|path|..] == k; }
      GreatestBelow(n, Any(), at, path, child, Any(), Largest(n, at));
    case MidBranchLeaf(_, _, child) =>
      LargestGreatest(child, at);
      assert at[|at|..] == [];
  }

  /** The target ends inside an extension that it leads to. */
  ghost predicate EndsInside<V>(n: Node<V>, target: Path)
    requires Shaped(n)
  {
    target != [] &&
    match n
    case Empty => false
    case Leaf(_, _) => false
    case Branch(_, children) => EndsInside(children[target[0]], target[1..])
    case Extension(_, compressed, child) =>
      if compressed <= target then EndsInside(child, target[|compressed|..]) else target <= compressed
    case MidBranchLeaf(_, _, child) => EndsInside(child, target)
  }

  /** The search finds the greatest path before the target, unless the target ends inside an
      extension, and then it panics. */
  ghost predicate Finds<V>(n: Node<V>, target: Path, at: Path, r: Search<V>)
    requires Shaped(n)
  {
    match r
    case OutOfRange => EndsInside(n, target)
    case Best(found) => !EndsInside(n, target) && Greatest(n, Before(target), at, found)
  }

  lemma BranchFinds<V>(n: Node<V>, target: Path, at: Path)
    requires Shaped(n) && n.Branch? && target != []
    requires Finds(n.children[target[0]], target[1..], at + [target[0]],
                   Predecessor(n.children[target[0]], target[1..], at + [target[0]]))
    ensures Finds(n, target, at, Predecessor(n, target, at))
  {
    var i := target[0];
    var r := Predecessor(n.children[i], target[1..], at + [i]);
    if r.Best? {
      var rest := target[1..];
      forall k | Before(rest)(k) ensures Through(i, rest)([i] + k) { assert ([i] + k)[1..] == k; }
      ChildGreatest(n, i, at, Through(i, rest), Before(rest), r.found);
      if r.found.None? {
        LargestAmongGreatest(n, i, at);
        EarlierGreatest(n, target, at, LargestAmong(n, i, at));
      } else {
        ThroughGreatest(n, target, at, r.found);
      }
    }
  }

  ghost function Through(i: nat, rest: Path): Path -> bool { q => q != [] && q[0] == i && Less(q[1..], rest) }

  lemma ThroughGreatest<V>(n: Node<V>, target: Path, at: Path, best: Option<(Path, V)>)
    requires Shaped(n) && n.Branch? && target != [] && best.Some?
    requires Greatest(n, Through(target[0], target[1..]), at, best)
    ensures Greatest(n, Before(target), at, best)
  {}

  lemma EarlierGreatest<V>(n: Node<V>, target: Path, at: Path, best: Option<(Path, V)>)
    requires Shaped(n) && n.Branch? && target != []
    requires Greatest(n, Through(target[0], target[1..]), at, None) && Greatest(n, FirstBefore(target[0]), at, best)
    ensures Greatest(n, Before(target), at, best)
  {
    forall q | Less(q, target) && Lookup(n, q).Some? ensures FirstBefore(target[0])(q) {
      assert !Through(target[0], target[1..])(q);
    }
  }

  lemma ExtensionFinds<V>(n: Node<V>, target: Path, at: Path)
    requires Shaped(n) && n.Extension? && target != []
    requires n.path <= target ==> Finds(n.child, target[|n.path|..], at + n.path,
                                       Predecessor(n.child, target[|n.path|..], at + n.path))
    ensures Finds(n, target, at, Predecessor(n, target, at))
  {
    var m := Common(n.path, target);
    assert n.path <= target <==> m == |n.path|;
    assert target <= n.path <==> m == |target|;
    if m == |n.path| {
      var r := Predecessor(n.child, target[m..], at + n.path);
      if r.Best? { GreatestThrough(n, target, at, r.found); }
    } else if m != |target| {
      LargestGreatest(n, at);
      Diverges(n.path, target);
      RelevantEqual(n.path, target);
      forall q | n.path <= q ensures Less(q, target) <==> n.path[m] < target[m] { OneSide(n.path, target, q); }
    }
  }

  lemma GreatestThrough<V>(n: Node<V>, target: Path, at: Path, found: Option<(Path, V)>)
    requires Shaped(n) && n.Extension? && n.path <= target
    requires Greatest(n.child, Before(target[|n.path|..]), at + n.path, found)
    ensures Greatest(n, Before(target), at, found)
  {
    var rest := target[|n.path|..];
    forall q ensures Enters(n, Before(target), n.path, n.child, Before(rest), q) {
      if n.path <= q { LessBelow(n.path, q, target); }
    }
    forall k ensures Emerges(n, Before(target), n.path, n.child, Before(rest), k) {
      assert (n.path + k)[|n.path|..] == k;
      LessBelow(n.path, n.path + k, target);
    }
    GreatestBelow(n, Before(target), at, n.path, n.child, Before(rest), found);
  }

  /** Where two paths part, the first nibbles that differ decide. */
  lemma {:induction false} Diverges(compressed: Path, target: Path)
    requires var m := Common(compressed, target); m < |compressed| && m < |target|
    ensures var m := Common(compressed, target);
            Less(compressed, Relevant(compressed, target)) <==> compressed[m] < target[m]
  {
    if compressed[0] == target[0] {
      Diverges(compressed[1..], target[1..]);
      assert Relevant(compressed, target)[1..] == Relevant(compressed[1..], target[1..]);
    }
  }

  lemma {:induction false} PredecessorFinds<V>(n: Node<V>, target: Path, at: Path)
    requires Shaped(n)
    ensures Finds(n, target, at, Predecessor(n, target, at))
    decreases n
  {
    if target != [] {
      match n
      case Empty =>
      case Leaf(_, _) => assert at[|at|..] == [];
      case Branch(_, children) =>
        PredecessorFinds(children[target[0]], target[1..], at + [target[0]]);
        BranchFinds(n, target, at);
      case Extension(_, compressed, child) =>
        if compressed <= target { PredecessorFinds(child, target[|compressed|..], at + compressed); }
        ExtensionFinds(n, target, at);
      case MidBranchLeaf(_, _, child) =>
        PredecessorFinds(child, target, at);
        assert at[|at|..] == [];
    }
  }

  /** Among keys of which none properly continues the target, the search does not panic. */
  lemma {:induction false} CleanSearch<V>(n: Node<V>, target: Path)
    requires Shaped(n) && EndsInside(n, target)
    ensures Degrades(n, target)
    decreases n
  {
    match n
    case Branch(_, children) => CleanSearch(children[target[0]], target[1..]);
    case Extension(_, compressed, child) =>
      if compressed <= target { CleanSearch(child, target[|compressed|..]); }
    case MidBranchLeaf(_, _, child) => CleanSearch(child, target);
  }
}
