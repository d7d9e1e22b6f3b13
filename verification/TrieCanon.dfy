/** The canonical form of a trie, which leaves only one trie for each map. */
module TrieCanon {
  import opened Trie

  /** A canonical node that is not empty: branches have at least two children, only full
      extensions continue in another one, a value above other values sits on a branch or
      extension, and all sizes are right. */
  ghost predicate Proper<V>(n: Node<V>) {
    match n
    case Empty => false
    case Leaf(size, _) => size == 1
    case Branch(size, children) =>
      && |children| == 16 && (forall i :: 0 <= i < 16 ==> children[i].Empty? || Proper(children[i]))
      && Filled(children) >= 2 && size == AnnSum(children)
    case Extension(size, path, child) =>
      && 0 < |path| <= MAX_PATH && Proper(child)
      && (child.Extension? ==> |path| == MAX_PATH) && size == Ann(child)
    case MidBranchLeaf(size, _, child) =>
      (child.Branch? || child.Extension?) && Proper(child) && size == Ann(child) + 1
  }

  ghost predicate Canonical<V>(n: Node<V>) { n.Empty? || Proper(n) }

  lemma {:induction false} ProperShaped<V>(n: Node<V>)
    requires Canonical(n)
    ensures Shaped(n)
  {
    match n
    case Branch(_, children) =>
      forall i | 0 <= i < 16 ensures Shaped(children[i]) { ProperShaped(children[i]); }
    case Extension(_, _, child) => ProperShaped(child);
    case MidBranchLeaf(_, _, child) => ProperShaped(child);
    case _ =>
  }

  // ----- what lookups reveal about a canonical node -----

  ghost predicate Rooted<V>(n: Node<V>) requires Shaped(n) { Lookup(n, []).Some? }

  ghost predicate HasDeep<V>(n: Node<V>) requires Shaped(n) { exists q :: q != [] && Lookup(n, q).Some? }

  ghost predicate Fork<V>(n: Node<V>, q: Path, r: Path) requires Shaped(n) {
    q != [] && r != [] && q[0] != r[0] && Lookup(n, q).Some? && Lookup(n, r).Some?
  }

  ghost predicate Forks<V>(n: Node<V>) requires Shaped(n) { exists q, r :: Fork(n, q, r) }

  lemma {:induction false} TwoFilled<V>(children: seq<Node<V>>) returns (i: nat, j: nat)
    requires Filled(children) >= 2
    ensures i < j < |children| && !children[i].Empty? && !children[j].Empty?
  {
    var n := |children| - 1;
    if children[n].Empty? {
      i, j := TwoFilled(children[..n]);
    } else {
      FilledExists(children[..n]);
      i, j := FirstFilled(children[..n]), n;
    }
  }

  /** Every canonical node that is not empty holds some value. */
  lemma {:induction false} Witness<V>(n: Node<V>) returns (q: Path)
    requires Proper(n)
    ensures Shaped(n) && Lookup(n, q).Some?
    ensures n.Branch? || n.Extension? ==> q != []
  {
    ProperShaped(n);
    match n
    case Leaf(_, _) => q := [];
    case Branch(_, children) =>
      var i, j := TwoFilled(children);
      var r := Witness(children[i]);
      q := [i] + r;
      assert q[1..] == r;
    case Extension(_, path, child) =>
      var r := Witness(child);
      q := path + r;
      assert q[|path|..] == r;
    case MidBranchLeaf(_, _, _) => q := [];
  }

  lemma BranchForks<V>(n: Node<V>)
    requires Proper(n) && n.Branch?
    ensures Shaped(n) && Forks(n)
  {
    ProperShaped(n);
    var i, j := TwoFilled(n.children);
    var q := Witness(n.children[i]);
    var r := Witness(n.children[j]);
    assert ([i] + q)[1..] == q && ([j] + r)[1..] == r;
    assert Fork(n, [i] + q, [j] + r);
  }

  /** Lookups tell the four kinds of node apart. */
  lemma Kinds<V>(n: Node<V>)
    requires Proper(n)
    ensures Shaped(n)
    ensures n.Leaf? <==> Rooted(n) && !HasDeep(n)
    ensures n.MidBranchLeaf? <==> Rooted(n) && HasDeep(n)
    ensures n.Branch? <==> !Rooted(n) && Forks(n)
    ensures n.Extension? <==> !Rooted(n) && !Forks(n)
  {
    ProperShaped(n);
    match n
    case Leaf(_, _) =>
    case Branch(_, _) => BranchForks(n);
    case Extension(_, path, _) =>
      forall q, r ensures !Fork(n, q, r) { assert path <= q && path <= r ==> q[0] == path[0] == r[0]; }
    case MidBranchLeaf(_, _, child) =>
      var q := Witness(child);
      assert Lookup(n, q).Some?;
  }

  // ----- one trie per map -----

  /** Both nodes stand for the same map. */
  ghost predicate Same<V>(s: Node<V>, t: Node<V>)
    requires Shaped(s) && Shaped(t)
  {
    forall q :: Lookup(s, q) == Lookup(t, q)
  }

  lemma SameKind<V>(s: Node<V>, t: Node<V>)
    requires Proper(s) && Proper(t) && Shaped(s) && Shaped(t) && Same(s, t)
    ensures s.Leaf? == t.Leaf? && s.Branch? == t.Branch? && s.Extension? == t.Extension?
    ensures s.MidBranchLeaf? == t.MidBranchLeaf?
  {
    Kinds(s);
    Kinds(t);
    assert Rooted(s) == Rooted(t);
    if HasDeep(s) { var q :| q != [] && Lookup(s, q).Some?; assert Lookup(t, q).Some?; }
    if HasDeep(t) { var q :| q != [] && Lookup(t, q).Some?; assert Lookup(s, q).Some?; }
    if Forks(s) { var q, r :| Fork(s, q, r); assert Fork(t, q, r); }
    if Forks(t) { var q, r :| Fork(t, q, r); assert Fork(s, q, r); }
  }

  lemma SameBelow<V>(s: Node<V>, t: Node<V>, i: Nibble)
    requires Shaped(s) && Shaped(t) && s.Branch? && t.Branch? && Same(s, t)
    ensures Same(s.children[i], t.children[i])
  {
    forall q ensures Lookup(s.children[i], q) == Lookup(t.children[i], q) {
      assert ([i] + q)[1..] == q;
      assert Lookup(s, [i] + q) == Lookup(t, [i] + q);
    }
  }

  /** An extension that is not full has some value outside any longer path. */
  lemma Outsider<V>(s: Node<V>, p: Path) returns (w: Path)
    requires Proper(s) && Shaped(s) && s.Extension? && |s.path| < |p| <= MAX_PATH
    ensures Lookup(s, w).Some? && !(p <= w)
  {
    var k := |s.path|;
    Kinds(s.child);
    if Rooted(s.child) {
      w := s.path;
    } else {
      var q, r :| Fork(s.child, q, r);
      assert (s.path + q)[k..] == q && (s.path + r)[k..] == r;
      assert (s.path + q)[k] != (s.path + r)[k];
      w := if p <= s.path + q then s.path + r else s.path + q;
    }
  }

  lemma SameLength<V>(s: Node<V>, t: Node<V>)
    requires Proper(s) && Proper(t) && Shaped(s) && Shaped(t) && s.Extension? && t.Extension? && Same(s, t)
    ensures |s.path| >= |t.path|
  {
    if |s.path| < |t.path| { var w := Outsider(s, t.path); }
  }

  lemma SamePath<V>(s: Node<V>, t: Node<V>)
    requires Proper(s) && Proper(t) && Shaped(s) && Shaped(t) && s.Extension? && t.Extension? && Same(s, t)
    ensures s.path == t.path && Same(s.child, t.child)
  {
    SameLength(s, t);
    SameLength(t, s);
    var w := Witness(s);
    assert Lookup(t, w).Some?;
    assert s.path == w[..|s.path|] == t.path;
    forall q ensures Lookup(s.child, q) == Lookup(t.child, q) {
      assert (s.path + q)[|s.path|..] == q;
      assert Lookup(s, s.path + q) == Lookup(t, s.path + q);
    }
  }

  /** Canonical tries for the same map are equal, so they have the same hash. */
  lemma {:induction false} Unique<V>(s: Node<V>, t: Node<V>)
    requires Canonical(s) && Canonical(t) && Shaped(s) && Shaped(t) && Same(s, t)
    ensures s == t
    decreases s
  {
    if s.Empty? || t.Empty? {
      if Proper(s) { var q := Witness(s); }
      if Proper(t) { var q := Witness(t); }
    } else {
      SameKind(s, t);
      assert Lookup(s, []) == Lookup(t, []);
      match s
      case Leaf(_, _) =>
      case Branch(_, _) =>
        forall i | 0 <= i < 16 ensures s.children[i] == t.children[i] {
          SameBelow(s, t, i);
          Unique(s.children[i], t.children[i]);
        }
        assert s.children == t.children;
      case Extension(_, _, _) =>
        SamePath(s, t);
        Unique(s.child, t.child);
      case MidBranchLeaf(_, _, _) =>
        forall q ensures Lookup(s.child, q) == Lookup(t.child, q) {
          if q != [] { assert Lookup(s, q) == Lookup(t, q); }
        }
        Unique(s.child, t.child);
    }
  }
}
