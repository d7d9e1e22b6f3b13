/** The Merkle Patricia trie behind the ledger's maps: nodes, lookup, insertion and removal. */
module Trie {
  import opened Basics

  type Nibble = x: int | 0 <= x < 16
  type Path = seq<Nibble>

  /** `size` is the annotation every node carries: the number of values below it. */
  datatype Node<V> =
    | Empty
    | Leaf(size: nat, value: V)
    | Branch(size: nat, children: seq<Node<V>>)
    | Extension(size: nat, path: Path, child: Node<V>)
    | MidBranchLeaf(size: nat, value: V, child: Node<V>)

  /** An extension holds at most this many nibbles. */
  const MAX_PATH := 255

  function Ann<V>(n: Node<V>): nat { if n.Empty? then 0 else n.size }

  function AnnSum<V>(children: seq<Node<V>>): nat {
    if children == [] then 0 else AnnSum(children[..|children| - 1]) + Ann(children[|children| - 1])
  }

  /** What every operation relies on. */
  ghost predicate Shaped<V>(n: Node<V>) {
    match n
    case Empty => true
    case Leaf(_, _) => true
    case Branch(_, children) => |children| == 16 && forall i :: 0 <= i < 16 ==> Shaped(children[i])
    case Extension(_, path, child) => 0 < |path| <= MAX_PATH && Shaped(child)
    case MidBranchLeaf(_, _, child) => (child.Branch? || child.Extension?) && Shaped(child)
  }

  // ----- lookup -----

  function Lookup<V>(n: Node<V>, path: Path): Option<V>
    requires Shaped(n)
  {
    match n
    case Empty => None
    case Leaf(_, value) => if path == [] then Some(value) else None
    case Branch(_, children) => if path == [] then None else Lookup(children[path[0]], path[1..])
    case Extension(_, compressed, child) =>
      if compressed <= path then Lookup(child, path[|compressed|..]) else None
    case MidBranchLeaf(_, value, child) => if path == [] then Some(value) else Lookup(child, path)
  }

  // ----- extensions -----

  /** Prefixes a path to a node, in extensions of at most 255 nibbles. */
  function Chunked<V>(path: Path, child: Node<V>): Node<V>
    decreases |path|
  {
    if path == [] then child
    else if |path| <= MAX_PATH then Extension(Ann(child), path, child)
    else Extension(Ann(child), path[..MAX_PATH], Chunked(path[MAX_PATH..], child))
  }

  /** Likewise, but first absorbs the extensions below as long as the path does not fill its last one. */
  function Extend<V>(path: Path, child: Node<V>): Node<V>
    decreases child
  {
    if child.Extension? && |path| % MAX_PATH != 0 then Extend(path + child.path, child.child)
    else Chunked(path, child)
  }

  method MakeExtension<V>(start: Path, below: Node<V>) returns (cur: Node<V>)
    ensures cur == Extend(start, below)
  {
    var path := start;
    cur := below;
    while cur.Extension? && |path| % MAX_PATH != 0
      invariant Extend(path, cur) == Extend(start, below)
      decreases cur
    {
      path, cur := path + cur.path, cur.child;
    }
    cur := MakeChunks(path, cur);
  }

  /** The chunks in reverse: the last one is whatever 255 leaves over. */
  method MakeChunks<V>(path: Path, bottom: Node<V>) returns (cur: Node<V>)
    ensures cur == Chunked(path, bottom)
  {
    cur := bottom;
    var end := |path|;
    while end > 0
      invariant 0 <= end <= |path| && (end == |path| || end % 255 == 0)
      invariant cur == Chunked(path[end..], bottom)
    {
      var from := if end % 255 == 0 then end - 255 else end - end % 255;
      ChunkStep(path, from, end, bottom);
      cur := Extension(Ann(cur), path[from..end], cur);
      end := from;
    }
    assert path[0..] == path;
  }

  lemma {:induction false} ChunkedAnn<V>(path: Path, child: Node<V>)
    ensures Ann(Chunked(path, child)) == Ann(child)
  {}

  lemma ChunkStep<V>(path: Path, from: nat, end: nat, bottom: Node<V>)
    requires from < end <= |path| && end - from <= MAX_PATH
    requires end == |path| || end - from == MAX_PATH
    ensures var below := Chunked(path[end..], bottom);
            Chunked(path[from..], bottom) == Extension(Ann(below), path[from..end], below)
  {
    ChunkedAnn(path[end..], bottom);
    if |path[from..]| <= MAX_PATH {
      assert path[from..end] == path[from..] && path[end..] == [];
    } else {
      assert path[from..][..MAX_PATH] == path[from..end] && path[from..][MAX_PATH..] == path[end..];
    }
  }

  // ----- insertion -----

  /** The length of the common prefix. */
  function Common(a: Path, b: Path): (n: nat)
    ensures n <= |a| && n <= |b| && a[..n] == b[..n]
    ensures n < |a| && n < |b| ==> a[n] != b[n]
  {
    if a == [] || b == [] || a[0] != b[0] then 0 else
    var n := Common(a[1..], b[1..]);
    assert a[..n + 1] == [a[0]] + a[1..][..n] && b[..n + 1] == [b[0]] + b[1..][..n];
    n + 1
  }

  function NewLeaf<V>(value: V): Node<V> { Leaf(1, value) }

  /** Sixteen children of which only the i-th is not empty. */
  function Single<V>(i: Nibble, child: Node<V>): (c: seq<Node<V>>)
    ensures |c| == 16
  {
    seq(16, j requires 0 <= j < 16 => if j == i then child else Empty)
  }

  function InsertHere<V>(n: Node<V>, value: V): (Node<V>, Option<V>) {
    match n
    case Empty => (NewLeaf(value), None)
    case Leaf(_, before) => (NewLeaf(value), Some(before))
    case Branch(size, _) => (MidBranchLeaf(size + 1, value, n), None)
    case Extension(size, _, _) => (MidBranchLeaf(size + 1, value, n), None)
    case MidBranchLeaf(_, before, child) => (MidBranchLeaf(Ann(child) + 1, value, child), Some(before))
  }

  function InsertBranch<V>(size: nat, children: seq<Node<V>>, path: Path, value: V): (Node<V>, Option<V>)
    requires |children| == 16 && forall i :: 0 <= i < 16 ==> Shaped(children[i])
    decreases |path|, 0
  {
    if path == [] then InsertHere(Branch(size, children), value) else
    var (child, existing) := Insert(children[path[0]], path[1..], value);
    var updated := children[path[0] := child];
    (Branch(AnnSum(updated), updated), existing)
  }

  /** The updated node, and the value the path had before. */
  function Insert<V>(n: Node<V>, path: Path, value: V): (Node<V>, Option<V>)
    requires Shaped(n)
    decreases |path|, 1, n
  {
    if path == [] then InsertHere(n, value) else
    match n
    case Empty => (Extend(path, NewLeaf(value)), None)
    case Leaf(size, before) => (MidBranchLeaf(1 + size, before, Extend(path, NewLeaf(value))), None)
    case Branch(size, children) => InsertBranch(size, children, path, value)
    case Extension(size, compressed, child) =>
      var index := Common(compressed, if |path| <= MAX_PATH then path else path[..MAX_PATH]);
      if index == |compressed| then
        var (below, existing) := Insert(child, path[index..], value);
        (Extension(Ann(below), compressed, below), existing)
      else
        var remaining := if index == |compressed| - 1 then child
          else Extension(Ann(child), compressed[index + 1..], child);
        var children := Single(compressed[index], remaining);
        var (branch, existing) := InsertBranch(AnnSum(children), children, path[index..], value);
        if index == 0 then (branch, existing)
        else (Extension(Ann(branch), compressed[..index], branch), existing)
    case MidBranchLeaf(_, here, child) =>
      var (below, existing) := Insert(child, path, value);
      (MidBranchLeaf(1 + Ann(below), here, below), existing)
  }

  // ----- removal -----

  function Filled<V>(children: seq<Node<V>>): nat {
    if children == [] then 0
    else Filled(children[..|children| - 1]) + (if children[|children| - 1].Empty? then 0 else 1)
  }

  /** The first child that is not empty. */
  function FirstFilled<V>(children: seq<Node<V>>): (i: nat)
    requires exists i :: 0 <= i < |children| && !children[i].Empty?
    ensures i < |children| && !children[i].Empty?
    ensures forall j :: 0 <= j < i ==> children[j].Empty?
  {
    if !children[0].Empty? then 0 else
    assert exists i :: 0 <= i < |children[1..]| && !children[1..][i].Empty?;
    1 + FirstFilled(children[1..])
  }

  lemma {:induction false} FilledExists<V>(children: seq<Node<V>>)
    requires Filled(children) > 0
    ensures exists i :: 0 <= i < |children| && !children[i].Empty?
  {
    var n := |children| - 1;
    if children[n].Empty? {
      FilledExists(children[..n]);
      var i :| 0 <= i < n && !children[..n][i].Empty?;
      assert !children[i].Empty?;
    }
  }

  /** A branch of these children, or an extension if only one is left. */
  function Shrunk<V>(children: seq<Node<V>>): Node<V>
    requires |children| == 16
  {
    if Filled(children) != 1 then Branch(AnnSum(children), children) else
    FilledExists(children);
    var i := FirstFilled(children);
    if children[i].Extension? then Extend([i] + children[i].path, children[i].child)
    else Extend([i], children[i])
  }

  /** An extension of this node, merged with it if it is one, and nothing if it is empty. */
  function Reattached<V>(path: Path, n: Node<V>): Node<V> {
    if n.Empty? then Empty
    else if n.Extension? then Extend(path + n.path, n.child)
    else Extension(Ann(n), path, n)
  }

  /** Indexing an empty path at a branch is a panic. */
  datatype Removal<V> = Panic | Removed(node: Node<V>, value: Option<V>)

  function Remove<V>(n: Node<V>, path: Path): Removal<V>
    requires Shaped(n)
    decreases n
  {
    match n
    case Empty => Removed(Empty, None)
    case Leaf(_, value) => if path == [] then Removed(Empty, Some(value)) else Removed(n, None)
    case Branch(_, children) =>
      if path == [] then Panic else
      (match Remove(children[path[0]], path[1..])
       case Panic => Panic
       case Removed(child, value) => Removed(Shrunk(children[path[0] := child]), value))
    case Extension(_, compressed, child) =>
      if !(compressed <= path) then Removed(n, None) else
      (match Remove(child, path[|compressed|..])
       case Panic => Panic
       case Removed(below, value) => Removed(Reattached(compressed, below), value))
    case MidBranchLeaf(_, here, child) =>
      if path == [] then Removed(child, Some(here)) else
      match Remove(child, path)
      case Panic => Panic
      case Removed(below, value) =>
        Removed(if below.Empty? then Leaf(Ann(below) + 1, here) else MidBranchLeaf(Ann(below) + 1, here, below), value)
  }
}
