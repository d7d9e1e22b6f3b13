/** The trie is a map: what lookup finds after each operation. */
module TrieMap {
  import opened Basics
  import opened Trie

  // ----- extensions -----

  lemma {:induction false} ChunkedLookup<V>(path: Path, child: Node<V>, q: Path)
    requires Shaped(child)
    ensures Shaped(Chunked(path, child))
    ensures Lookup(Chunked(path, child), q) == if path <= q then Lookup(child, q[|path|..]) else None
    decreases |path|
  {
    if path == [] {
      assert q[0..] == q;
    } else if |path| > MAX_PATH {
      var head, tail := path[..MAX_PATH], path[MAX_PATH..];
      assert path == head + tail;
      if head <= q {
        ChunkedLookup(tail, child, q[MAX_PATH..]);
        PrefixSplit(head, tail, q);
      } else {
        ChunkedLookup(tail, child, []);
      }
    }
  }

  lemma PrefixSplit(a: Path, b: Path, q: Path)
    requires a <= q
    ensures a + b <= q <==> b <= q[|a|..]
    ensures a + b <= q ==> q[|a + b|..] == q[|a|..][|b|..]
  {
    if b <= q[|a|..] {
      assert q == a + q[|a|..];
    }
    if a + b <= q {
      assert q[|a|..|a| + |b|] == b;
    }
  }

  lemma {:induction false} ExtendLookup<V>(path: Path, child: Node<V>, q: Path)
    requires Shaped(child)
    ensures Shaped(Extend(path, child))
    ensures Lookup(Extend(path, child), q) == if path <= q then Lookup(child, q[|path|..]) else None
    decreases child
  {
    if child.Extension? && |path| % MAX_PATH != 0 {
      ExtendLookup(path + child.path, child.child, q);
      if path <= q { PrefixSplit(path, child.path, q); }
    } else {
      ChunkedLookup(path, child, q);
    }
  }

  lemma {:induction false} ExtendIsExtension<V>(path: Path, child: Node<V>)
    requires path != []
    ensures Extend(path, child).Extension?
    decreases child
  {
    if child.Extension? && |path| % MAX_PATH != 0 { ExtendIsExtension(path + child.path, child.child); }
  }

  // ----- insertion -----

  /** Paths of the new node and the old one agree, except that the given path has the new value. */
  ghost predicate Puts<V>(n: Node<V>, path: Path, value: V, r: (Node<V>, Option<V>), q: Path)
    requires Shaped(n)
  {
    && Shaped(r.0)
    && Lookup(r.0, q) == (if q == path then Some(value) else Lookup(n, q))
    && r.1 == Lookup(n, path)
  }

  lemma InsertHerePuts<V>(n: Node<V>, value: V, q: Path)
    requires Shaped(n)
    ensures Puts(n, [], value, InsertHere(n, value), q)
  {}

  lemma {:induction false} InsertBranchPuts<V>(size: nat, children: seq<Node<V>>, path: Path, value: V, q: Path)
    requires Shaped(Branch(size, children))
    ensures Puts(Branch(size, children), path, value, InsertBranch(size, children, path, value), q)
    decreases |path|, 0
  {
    if path == [] {
      InsertHerePuts(Branch(size, children), value, q);
    } else {
      var r := Insert(children[path[0]], path[1..], value);
      var q' := if q == [] then [] else q[1..];
      InsertPuts(children[path[0]], path[1..], value, q');
      var updated := children[path[0] := r.0];
      assert forall i :: 0 <= i < 16 ==> updated[i] == if i == path[0] then r.0 else children[i];
      assert path == [path[0]] + path[1..];
      if q != [] { assert q == [q[0]] + q[1..]; }
    }
  }

  /** An extension split at one of its nibbles, as a branch below the shorter extension. */
  ghost function SplitAt<V>(compressed: Path, child: Node<V>, index: nat): Node<V>
    requires index < |compressed|
  {
    var remaining := if index == |compressed| - 1 then child else Extension(Ann(child), compressed[index + 1..], child);
    var children := Single(compressed[index], remaining);
    Branch(AnnSum(children), children)
  }

  lemma SplitLookup<V>(compressed: Path, child: Node<V>, index: nat, q: Path)
    requires Shaped(child) && index < |compressed| <= MAX_PATH
    ensures Shaped(SplitAt(compressed, child, index))
    ensures Lookup(SplitAt(compressed, child, index), q)
         == if compressed[index..] <= q then Lookup(child, q[|compressed| - index..]) else None
  {
    var b := SplitAt(compressed, child, index);
    assert forall i :: 0 <= i < 16 && i != compressed[index] ==> b.children[i] == Empty;
    assert compressed[index..] == [compressed[index]] + compressed[index + 1..];
    if q != [] && q[0] == compressed[index] { PrefixSplit([compressed[index]], compressed[index + 1..], q); }
  }

  lemma NewPath<V>(path: Path, value: V, q: Path)
    ensures Shaped(Extend(path, NewLeaf(value)))
    ensures path != [] ==> Extend(path, NewLeaf(value)).Extension?
    ensures Lookup(Extend(path, NewLeaf(value)), q) == if q == path then Some(value) else None
  {
    ExtendLookup(path, NewLeaf(value), q);
    if path != [] { ExtendIsExtension(path, NewLeaf(value)); }
    if path <= q && q[|path|..] == [] { assert q == path + q[|path|..]; }
  }

  function Drop(q: Path, prefix: Path): Path { if prefix <= q then q[|prefix|..] else [] }

  lemma DropEqual(q: Path, path: Path, prefix: Path)
    requires prefix <= path
    ensures q == path <==> prefix <= q && Drop(q, prefix) == path[|prefix|..]
  {
    assert path == prefix + path[|prefix|..];
    if prefix <= q { assert q == prefix + q[|prefix|..]; }
  }

  lemma CommonOfLong(compressed: Path, path: Path)
    requires |compressed| <= MAX_PATH
    ensures var index := Common(compressed, if |path| <= MAX_PATH then path else path[..MAX_PATH]);
            && index <= |path| && compressed[..index] == path[..index]
            && (index < |compressed| && index < |path| ==> compressed[index] != path[index])
  {}

  lemma InsertBelowForm<V>(n: Node<V>, path: Path, value: V)
    requires Shaped(n) && n.Extension? && path != [] && n.path <= path
    ensures var r := Insert(n.child, path[|n.path|..], value);
            Insert(n, path, value) == (Extension(Ann(r.0), n.path, r.0), r.1)
  {
    CommonOfLong(n.path, path);
    assert n.path == path[..|n.path|];
    assert Common(n.path, if |path| <= MAX_PATH then path else path[..MAX_PATH]) == |n.path|;
  }

  lemma {:induction false} InsertBelowExtension<V>(n: Node<V>, path: Path, value: V, q: Path)
    requires Shaped(n) && n.Extension? && path != [] && n.path <= path
    ensures Puts(n, path, value, Insert(n, path, value), q)
    decreases |path|, 0, n
  {
    InsertBelowForm(n, path, value);
    InsertPuts(n.child, path[|n.path|..], value, Drop(q, n.path));
    DropEqual(q, path, n.path);
  }

  /** A node below a path of at most one extension. */
  ghost function Under<V>(a: Path, n: Node<V>): Node<V> { if a == [] then n else Extension(Ann(n), a, n) }

  lemma UnderLookup<V>(a: Path, n: Node<V>, q: Path)
    requires Shaped(n) && |a| <= MAX_PATH
    ensures Shaped(Under(a, n))
    ensures Lookup(Under(a, n), q) == if a <= q then Lookup(n, q[|a|..]) else None
  {
    if a == [] { assert q[0..] == q; }
  }

  /** Where a path leaves an extension. */
  ghost function Divergence(compressed: Path, path: Path): nat {
    Common(compressed, if |path| <= MAX_PATH then path else path[..MAX_PATH])
  }

  lemma InsertSplitForm<V>(n: Node<V>, path: Path, value: V)
    requires Shaped(n) && n.Extension? && path != [] && !(n.path <= path)
    ensures var index := Divergence(n.path, path);
      && index < |n.path| && index <= |path| && n.path[..index] == path[..index]
      && Shaped(SplitAt(n.path, n.child, index))
      && var b := SplitAt(n.path, n.child, index);
         var r := InsertBranch(b.size, b.children, path[index..], value);
         Insert(n, path, value) == (Under(n.path[..index], r.0), r.1)
  {
    var index := Divergence(n.path, path);
    DivergenceInside(n.path, path);
    SplitLookup(n.path, n.child, index, []);
  }

  lemma DivergenceInside(compressed: Path, path: Path)
    requires |compressed| <= MAX_PATH && !(compressed <= path)
    ensures var index := Divergence(compressed, path);
            && index < |compressed| && index <= |path| && compressed[..index] == path[..index]
            && (index < |path| ==> compressed[index] != path[index])
  {
    CommonOfLong(compressed, path);
    assert compressed[..|compressed|] == compressed;
  }

  lemma {:induction false} InsertSplits<V>(n: Node<V>, path: Path, value: V, q: Path)
    requires Shaped(n) && n.Extension? && path != [] && !(n.path <= path)
    ensures Puts(n, path, value, Insert(n, path, value), q)
    decreases |path|, 1, n, 0
  {
    InsertSplitForm(n, path, value);
    var index := Divergence(n.path, path);
    var a, b := n.path[..index], SplitAt(n.path, n.child, index);
    var r := InsertBranch(b.size, b.children, path[index..], value);
    InsertBranchPuts(b.size, b.children, path[index..], value, Drop(q, a));
    UnderLookup(a, r.0, q);
    UnderLookup(a, b, q);
    UnderLookup(a, b, path);
    SplitUnder(n, index, q);
    SplitUnder(n, index, path);
    DropEqual(q, path, a);
  }

  /** Splitting an extension changes no lookup. */
  lemma SplitUnder<V>(n: Node<V>, index: nat, q: Path)
    requires Shaped(n) && n.Extension? && index < |n.path|
    ensures Shaped(SplitAt(n.path, n.child, index)) && Shaped(Under(n.path[..index], SplitAt(n.path, n.child, index)))
    ensures Lookup(Under(n.path[..index], SplitAt(n.path, n.child, index)), q) == Lookup(n, q)
  {
    var a := n.path[..index];
    SplitLookup(n.path, n.child, index, Drop(q, a));
    UnderLookup(a, SplitAt(n.path, n.child, index), q);
    assert n.path == a + n.path[index..];
    if a <= q { PrefixSplit(a, n.path[index..], q); }
  }

  lemma InsertKind<V>(n: Node<V>, path: Path, value: V)
    requires Shaped(n) && path != [] && (n.Branch? || n.Extension?)
    ensures Insert(n, path, value).0.Branch? || Insert(n, path, value).0.Extension?
  {
    if n.Extension? && !(n.path <= path) {
      InsertSplitForm(n, path, value);
    }
  }

  lemma {:induction false} InsertPuts<V>(n: Node<V>, path: Path, value: V, q: Path)
    requires Shaped(n)
    ensures Puts(n, path, value, Insert(n, path, value), q)
    decreases |path|, 1, n, 1
  {
    if path == [] {
      InsertHerePuts(n, value, q);
    } else {
      match n
      case Empty => NewPath(path, value, q);
      case Leaf(_, _) => NewPath(path, value, q);
      case Branch(size, children) => InsertBranchPuts(size, children, path, value, q);
      case Extension(_, compressed, child) =>
        if compressed <= path { InsertBelowExtension(n, path, value, q); } else { InsertSplits(n, path, value, q); }
      case MidBranchLeaf(_, _, child) =>
        InsertPuts(child, path, value, q);
        InsertKind(child, path, value);
    }
  }

  // ----- what a child holds -----

  lemma BelowBranch<V>(n: Node<V>, i: Nibble, q: Path)
    requires Shaped(n) && n.Branch?
    ensures Lookup(n, [i] + q) == Lookup(n.children[i], q)
  {
    assert ([i] + q)[1..] == q;
  }

  lemma BelowExtension<V>(n: Node<V>, q: Path)
    requires Shaped(n) && n.Extension?
    ensures Lookup(n, n.path + q) == Lookup(n.child, q)
  {
    assert (n.path + q)[|n.path|..] == q;
  }

  // ----- removal -----

  lemma {:induction false} FilledZero<V>(children: seq<Node<V>>)
    ensures Filled(children) == 0 <==> forall j :: 0 <= j < |children| ==> children[j].Empty?
  {
    if children != [] {
      var n := |children| - 1;
      FilledZero(children[..n]);
      assert forall j :: 0 <= j < n ==> children[..n][j] == children[j];
    }
  }

  lemma {:induction false} FilledOne<V>(children: seq<Node<V>>, i: nat, j: nat)
    requires Filled(children) == 1 && i < |children| && j < |children| && i != j && !children[i].Empty?
    ensures children[j].Empty?
  {
    var n := |children| - 1;
    FilledZero(children[..n]);
    if i < n && j < n { FilledOne(children[..n], i, j); }
    if i < n { assert !children[..n][i].Empty?; }
    if j < n { assert children[..n][j] == children[j]; }
  }

  lemma ShrunkLookup<V>(children: seq<Node<V>>, q: Path)
    requires Shaped(Branch(0, children))
    ensures Shaped(Shrunk(children))
    ensures Lookup(Shrunk(children), q) == Lookup(Branch(0, children), q)
  {
    if Filled(children) == 1 {
      FilledExists(children);
      var i := FirstFilled(children);
      var only := children[i];
      if q != [] && q[0] != i { FilledOne(children, i, q[0]); }
      ReattachedLookup([i], only, q);
      if only.Extension? {
        ExtendLookup([i] + only.path, only.child, q);
      } else {
        ExtendLookup([i], only, q);
      }
      assert q != [] && q[0] == i <==> [i] <= q;
    }
  }

  lemma ReattachedLookup<V>(path: Path, n: Node<V>, q: Path)
    requires Shaped(n) && 0 < |path| <= MAX_PATH
    ensures Shaped(Reattached(path, n))
    ensures Lookup(Reattached(path, n), q) == if path <= q then Lookup(n, q[|path|..]) else None
  {
    if n.Extension? {
      ExtendLookup(path + n.path, n.child, q);
      if path <= q { PrefixSplit(path, n.path, q); }
    }
  }

  /** The path ends at a branch. */
  ghost predicate EndsAtBranch<V>(n: Node<V>, path: Path)
    requires Shaped(n)
  {
    match n
    case Empty => false
    case Leaf(_, _) => false
    case Branch(_, children) => path == [] || EndsAtBranch(children[path[0]], path[1..])
    case Extension(_, compressed, child) => compressed <= path && EndsAtBranch(child, path[|compressed|..])
    case MidBranchLeaf(_, _, child) => path != [] && EndsAtBranch(child, path)
  }

  /** Removal takes exactly the given path away, and returns its value, unless it panics. */
  ghost predicate Takes<V>(n: Node<V>, path: Path, r: Removal<V>, q: Path)
    requires Shaped(n)
  {
    match r
    case Panic => EndsAtBranch(n, path)
    case Removed(node, value) =>
      && !EndsAtBranch(n, path)
      && Shaped(node)
      && Lookup(node, q) == (if q == path then None else Lookup(n, q))
      && value == Lookup(n, path)
  }

  lemma RemoveKind<V>(n: Node<V>, path: Path)
    requires Shaped(n) && (n.Branch? || n.Extension?) && Remove(n, path).Removed?
    ensures var m := Remove(n, path).node; m.Empty? || m.Branch? || m.Extension?
  {
    if n.Branch? {
      var updated := n.children[path[0] := Remove(n.children[path[0]], path[1..]).node];
      if Filled(updated) == 1 {
        FilledExists(updated);
        var i := FirstFilled(updated);
        if updated[i].Extension? {
          ExtendIsExtension([i] + updated[i].path, updated[i].child);
        } else {
          ExtendIsExtension([i], updated[i]);
        }
      }
    } else if n.path <= path {
      var below := Remove(n.child, path[|n.path|..]).node;
      if below.Extension? { ExtendIsExtension(n.path + below.path, below.child); }
    }
  }

  lemma {:induction false} RemoveFromBranch<V>(n: Node<V>, path: Path, q: Path)
    requires Shaped(n) && n.Branch? && path != []
    requires Takes(n.children[path[0]], path[1..], Remove(n.children[path[0]], path[1..]), if q == [] then [] else q[1..])
    ensures Takes(n, path, Remove(n, path), q)
  {
    var r := Remove(n.children[path[0]], path[1..]);
    if r.Removed? {
      var updated := n.children[path[0] := r.node];
      assert forall i :: 0 <= i < 16 ==> updated[i] == if i == path[0] then r.node else n.children[i];
      ShrunkLookup(updated, q);
      assert path == [path[0]] + path[1..];
      if q != [] { assert q == [q[0]] + q[1..]; }
    }
  }

  lemma {:induction false} RemoveTakes<V>(n: Node<V>, path: Path, q: Path)
    requires Shaped(n)
    ensures Takes(n, path, Remove(n, path), q)
    decreases n
  {
    match n
    case Empty =>
    case Leaf(_, _) =>
    case Branch(_, children) =>
      if path != [] {
        RemoveTakes(children[path[0]], path[1..], if q == [] then [] else q[1..]);
        RemoveFromBranch(n, path, q);
      }
    case Extension(_, compressed, child) =>
      if compressed <= path {
        RemoveTakes(child, path[|compressed|..], Drop(q, compressed));
        var r := Remove(child, path[|compressed|..]);
        if r.Removed? { ReattachedLookup(compressed, r.node, q); }
        DropEqual(q, path, compressed);
      }
    case MidBranchLeaf(_, _, child) =>
      if path != [] {
        RemoveTakes(child, path, q);
        if Remove(child, path).Removed? { RemoveKind(child, path); }
      }
  }
}
