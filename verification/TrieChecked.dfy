/** The invariants the storage layer states for trie nodes, how far they are from the canonical
form, and the one canonical trie that every trie stands for. */
module TrieChecked {
  import opened Trie
  import opened TrieMap
  import opened TrieCanon
  import opened TrieKeeps

  /** Every annotation is what its node adds up to: the check a loaded trie passes. */
  ghost predicate Summed<V>(n: Node<V>) {
    match n
    case Empty => true
    case Leaf(size, _) => size == 1
    case Branch(size, children) =>
      && |children| == 16 && (forall i :: 0 <= i < 16 ==> Summed(children[i]))
      && size == AnnSum(children)
    case Extension(size, _, child) => Summed(child) && size == Ann(child)
    case MidBranchLeaf(size, _, child) => Summed(child) && size == Ann(child) + 1
  }

  /** Every node passes the check stated for single nodes, apart from the sizes. */
  ghost predicate Arranged<V>(n: Node<V>) {
    match n
    case Empty => true
    case Leaf(_, _) => true
    case Branch(_, children) =>
      && |children| == 16 && (forall i :: 0 <= i < 16 ==> Arranged(children[i]))
      && Filled(children) >= 2
    case Extension(_, path, child) =>
      |path| <= MAX_PATH && Arranged(child) && (child.Extension? ==> |path| == MAX_PATH)
    case MidBranchLeaf(_, _, child) => (child.Branch? || child.Extension?) && Arranged(child)
  }

  /** No extension has an empty path or leads nowhere. */
  ghost predicate Solid<V>(n: Node<V>) {
    match n
    case Empty => true
    case Leaf(_, _) => true
    case Branch(_, children) => forall i :: 0 <= i < |children| ==> Solid(children[i])
    case Extension(_, path, child) => path != [] && !child.Empty? && Solid(child)
    case MidBranchLeaf(_, _, child) => Solid(child)
  }

  /** The checks leave two things open. */
  lemma {:induction false} CheckedExactly<V>(n: Node<V>)
    ensures Canonical(n) <==> Summed(n) && Arranged(n) && Solid(n)
  {
    match n
    case Branch(_, children) =>
      if Canonical(n) {
        forall i | 0 <= i < 16 ensures Summed(children[i]) && Arranged(children[i]) && Solid(children[i]) {
          CheckedExactly(children[i]);
        }
      }
      if Summed(n) && Arranged(n) && Solid(n) {
        forall i | 0 <= i < 16 ensures children[i].Empty? || Proper(children[i]) { CheckedExactly(children[i]); }
      }
    case Extension(_, _, child) =>
      CheckedExactly(child);
      ExtensionChecked(n);
    case MidBranchLeaf(_, _, child) => CheckedExactly(child);
    case _ =>
  }

  lemma ExtensionChecked<V>(n: Node<V>)
    requires n.Extension? && (Canonical(n.child) <==> Summed(n.child) && Arranged(n.child) && Solid(n.child))
    ensures Canonical(n) <==> Summed(n) && Arranged(n) && Solid(n)
  {
    var child := n.child;
    assert Summed(n) <==> Summed(child) && n.size == Ann(child);
    assert Arranged(n) <==> |n.path| <= MAX_PATH && Arranged(child) && (child.Extension? ==> |n.path| == MAX_PATH);
    assert Solid(n) <==> n.path != [] && !child.Empty? && Solid(child);
    assert Proper(child) <==> !child.Empty? && Canonical(child);
  }

  /** Of all the checked tries for a map, the solid one is the only one. */
  lemma CheckedUnique<V>(s: Node<V>, t: Node<V>)
    requires Summed(s) && Arranged(s) && Solid(s) && Shaped(s)
    requires Summed(t) && Arranged(t) && Shaped(t) && Same(s, t)
    ensures s == t <==> Solid(t)
  {
    CheckedExactly(s);
    CheckedExactly(t);
    if Solid(t) { Unique(s, t); }
  }

  // ----- the canonical form of any trie -----

  ghost function Normal<V>(n: Node<V>): Node<V>
    requires Shaped(n)
  {
    match n
    case Empty => Empty
    case Leaf(_, value) => Leaf(1, value)
    case Branch(_, children) =>
      var normal := seq(16, i requires 0 <= i < 16 => Normal(children[i]));
      if Filled(normal) == 0 then Empty else Shrunk(normal)
    case Extension(_, path, child) => Reattached(path, Normal(child))
    case MidBranchLeaf(_, value, child) =>
      var below := Normal(child);
      if below.Empty? then Leaf(1, value) else MidBranchLeaf(Ann(below) + 1, value, below)
  }

  lemma {:induction false} NormalCanonical<V>(n: Node<V>)
    requires Shaped(n)
    ensures Canonical(Normal(n)) && (n.Branch? || n.Extension? ==> !Normal(n).Leaf? && !Normal(n).MidBranchLeaf?)
  {
    match n
    case Branch(_, children) =>
      forall i | 0 <= i < 16 ensures Canonical(Normal(children[i])) { NormalCanonical(children[i]); }
      var normal := seq(16, i requires 0 <= i < 16 => Normal(children[i]));
      if Filled(normal) > 0 {
        ShrunkProper(normal);
        ShrunkKind(normal);
      }
    case Extension(_, path, child) =>
      NormalCanonical(child);
      ReattachedCanonical(path, Normal(child));
      if Normal(child).Extension? { ExtendProper(path + Normal(child).path, Normal(child).child); }
    case MidBranchLeaf(_, _, child) => NormalCanonical(child);
    case _ =>
  }

  lemma ShrunkKind<V>(children: seq<Node<V>>)
    requires |children| == 16 && Filled(children) >= 1 && forall i :: 0 <= i < 16 ==> Canonical(children[i])
    ensures Shrunk(children).Branch? || Shrunk(children).Extension?
  {
    if Filled(children) == 1 {
      FilledExists(children);
      var i := FirstFilled(children);
      if children[i].Extension? {
        ExtendProper([i] + children[i].path, children[i].child);
      } else {
        ExtendProper([i], children[i]);
      }
    }
  }

  lemma {:induction false} NormalLookup<V>(n: Node<V>, q: Path)
    requires Shaped(n) && Shaped(Normal(n))
    ensures Lookup(Normal(n), q) == Lookup(n, q)
  {
    match n
    case Branch(_, children) =>
      var normal := seq(16, i requires 0 <= i < 16 => Normal(children[i]));
      forall i | 0 <= i < 16 ensures Shaped(normal[i]) {
        NormalCanonical(children[i]);
        ProperShaped(normal[i]);
      }
      if q != [] {
        assert normal[q[0]] == Normal(children[q[0]]);
        NormalLookup(children[q[0]], q[1..]);
      }
      assert Lookup(Branch(0, normal), q) == Lookup(n, q);
      if Filled(normal) == 0 { FilledZero(normal); } else { ShrunkLookup(normal, q); }
    case Extension(_, path, child) =>
      NormalCanonical(child);
      ProperShaped(Normal(child));
      ReattachedLookup(path, Normal(child), q);
      if path <= q { NormalLookup(child, q[|path|..]); }
    case MidBranchLeaf(_, _, child) =>
      NormalCanonical(child);
      ProperShaped(Normal(child));
      NormalLookup(child, q);
    case _ =>
  }

  /** Every trie has exactly one canonical trie for its map. */
  lemma NormalForm<V>(n: Node<V>, m: Node<V>)
    requires Shaped(n) && Shaped(m) && Same(n, m)
    ensures Canonical(Normal(n)) && Shaped(Normal(n)) && Same(n, Normal(n))
    ensures Canonical(m) <==> m == Normal(n)
  {
    NormalCanonical(n);
    ProperShaped(Normal(n));
    forall q ensures Lookup(n, q) == Lookup(Normal(n), q) { NormalLookup(n, q); }
    if Canonical(m) { Unique(m, Normal(n)); }
  }
}
