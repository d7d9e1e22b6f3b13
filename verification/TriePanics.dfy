/** When removal and predecessor search panic, said of the keys alone. */
module TriePanics {
  import opened Basics
  import opened Trie
  import opened TrieMap
  import opened TrieCanon
  import opened TriePredecessor

  ghost predicate ForkAt<V>(n: Node<V>, path: Path, q: Path, r: Path)
    requires Shaped(n)
  {
    && q != [] && r != [] && q[0] != r[0]
    && Lookup(n, path + q).Some? && Lookup(n, path + r).Some?
  }

  /** Two keys part right after the path. */
  ghost predicate ForksAfter<V>(n: Node<V>, path: Path)
    requires Shaped(n)
  {
    exists q, r :: ForkAt(n, path, q, r)
  }

  /** Some key properly continues the path. */
  ghost predicate Continues<V>(n: Node<V>, path: Path)
    requires Shaped(n)
  {
    exists q :: q != [] && Lookup(n, path + q).Some?
  }

  // ----- below a path -----

  /** The child holds what the node does below a path. */
  ghost predicate Beneath<V>(n: Node<V>, head: Path, child: Node<V>)
    requires Shaped(n) && Shaped(child)
  {
    forall k :: Lookup(n, head + k) == Lookup(child, k)
  }

  lemma LookupBelow<V>(n: Node<V>, head: Path, child: Node<V>, path: Path, k: Path)
    requires Shaped(n) && Shaped(child) && Beneath(n, head, child)
    ensures Lookup(n, (head + path) + k) == Lookup(child, path + k)
  {
    Associate(head, path, k);
    assert Lookup(n, head + (path + k)) == Lookup(child, path + k);
  }

  lemma ForksBelow<V>(n: Node<V>, head: Path, child: Node<V>, path: Path)
    requires Shaped(n) && Shaped(child) && Beneath(n, head, child)
    ensures ForksAfter(n, head + path) <==> ForksAfter(child, path)
  {
    forall q, r ensures ForkAt(n, head + path, q, r) <==> ForkAt(child, path, q, r) {
      LookupBelow(n, head, child, path, q);
      LookupBelow(n, head, child, path, r);
    }
  }

  lemma ContinuesBelow<V>(n: Node<V>, head: Path, child: Node<V>, path: Path)
    requires Shaped(n) && Shaped(child) && Beneath(n, head, child)
    ensures Continues(n, head + path) <==> Continues(child, path)
  {
    forall q ensures Lookup(n, (head + path) + q) == Lookup(child, path + q) { LookupBelow(n, head, child, path, q); }
  }

  lemma BranchUnder<V>(n: Node<V>, i: Nibble)
    requires Shaped(n) && n.Branch?
    ensures Beneath(n, [i], n.children[i])
  {
    forall k ensures Lookup(n, [i] + k) == Lookup(n.children[i], k) { BelowBranch(n, i, k); }
  }

  lemma ExtensionUnder<V>(n: Node<V>)
    requires Shaped(n) && n.Extension?
    ensures Beneath(n, n.path, n.child)
  {
    forall k ensures Lookup(n, n.path + k) == Lookup(n.child, k) { BelowExtension(n, k); }
  }

  /** Above a value, all other keys are the child's. */
  lemma ValueOver<V>(n: Node<V>, path: Path)
    requires Shaped(n) && n.MidBranchLeaf?
    ensures ForksAfter(n, path) <==> ForksAfter(n.child, path)
    ensures Continues(n, path) <==> Continues(n.child, path)
  {
    forall k: Path | k != [] ensures Lookup(n, path + k) == Lookup(n.child, path + k) {}
    forall q, r ensures ForkAt(n, path, q, r) <==> ForkAt(n.child, path, q, r) {}
  }

  // ----- inside an extension -----

  lemma Comparable(a: Path, b: Path, c: Path)
    requires a <= b + c
    ensures a <= b || b <= a
  {
    if |a| <= |b| { assert a == (b + c)[..|a|] == b[..|a|]; } else { assert a[..|b|] == (b + c)[..|b|] == b; }
  }

  /** All keys of an extension agree up to its end. */
  lemma InsideExtension<V>(n: Node<V>, path: Path)
    requires Proper(n) && Shaped(n) && n.Extension? && !(n.path <= path)
    ensures Lookup(n, path) == None && !ForksAfter(n, path)
    ensures Continues(n, path) <==> path <= n.path
  {
    forall q | q != [] && Lookup(n, path + q).Some? ensures path <= n.path && q[0] == n.path[|path|] {
      Comparable(n.path, path, q);
      assert (path + q)[|path|] == q[0];
    }
    forall q, r ensures !ForkAt(n, path, q, r) {}
    if path <= n.path {
      var w := Witness(n.child);
      var q := n.path[|path|..] + w;
      assert path + q == n.path + w by { assert n.path == path + n.path[|path|..]; }
      assert (n.path + w)[|n.path|..] == w;
      assert q != [] && Lookup(n, path + q).Some?;
    }
  }

  lemma NothingAfterLeaf<V>(n: Node<V>, path: Path)
    requires Shaped(n) && (n.Empty? || n.Leaf?)
    ensures !ForksAfter(n, path) && !Continues(n, path)
  {}

  // ----- removal -----

  lemma AtRoot<V>(n: Node<V>)
    requires Canonical(n) && Shaped(n)
    ensures n.Branch? <==> Lookup(n, []) == None && ForksAfter(n, [])
  {
    forall q: Path ensures [] + q == q {}
    forall q, r ensures ForkAt(n, [], q, r) <==> Fork(n, q, r) {}
    if Proper(n) { Kinds(n); }
  }

  /** On a canonical trie the path ends at a branch, so that its removal panics, exactly if it is
      no key and two keys part right after it. */
  lemma {:induction false} BranchExactly<V>(n: Node<V>, path: Path)
    requires Canonical(n) && Shaped(n)
    ensures EndsAtBranch(n, path) <==> Lookup(n, path) == None && ForksAfter(n, path)
    decreases n
  {
    if path == [] {
      AtRoot(n);
    } else {
      match n
      case Empty => NothingAfterLeaf(n, path);
      case Leaf(_, _) => NothingAfterLeaf(n, path);
      case Branch(_, children) =>
        var i := path[0];
        BranchExactly(children[i], path[1..]);
        BranchUnder(n, i);
        ForksBelow(n, [i], children[i], path[1..]);
        assert path == [i] + path[1..];
      case Extension(_, compressed, child) =>
        if compressed <= path {
          var rest := path[|compressed|..];
          BranchExactly(child, rest);
          ExtensionUnder(n);
          ForksBelow(n, compressed, child, rest);
          assert path == compressed + rest;
        } else {
          InsideExtension(n, path);
        }
      case MidBranchLeaf(_, _, child) =>
        BranchExactly(child, path);
        ValueOver(n, path);
    }
  }

  /** So removal panics exactly then. */
  lemma RemovalExactly<V>(n: Node<V>, path: Path)
    requires Canonical(n) && Shaped(n)
    ensures Remove(n, path).Panic? <==> Lookup(n, path) == None && ForksAfter(n, path)
  {
    RemoveTakes(n, path, []);
    BranchExactly(n, path);
  }

  // ----- search -----

  /** After s nibbles of the path a node begins: the root, one with a value, or one below a branch. */
  ghost predicate Stop<V>(n: Node<V>, path: Path, s: nat)
    requires Shaped(n) && s <= |path|
  {
    s == 0 || Lookup(n, path[..s]).Some? || ForksAfter(n, path[..s - 1])
  }

  /** The last such point among the first s nibbles. */
  ghost function LastStop<V>(n: Node<V>, path: Path, s: nat): nat
    requires Shaped(n) && s <= |path|
  {
    if Stop(n, path, s) then s else LastStop(n, path, s - 1)
  }

  /** The path lies on a stretch that all keys through it share: it is no key, some key continues
      it, and no keys part right after it. */
  ghost predicate Straight<V>(n: Node<V>, path: Path)
    requires Shaped(n)
  {
    Lookup(n, path) == None && Continues(n, path) && !ForksAfter(n, path)
  }

  /** And it stops short of the end of an extension, the first of which begins at the last stop. */
  ghost predicate Short<V>(n: Node<V>, path: Path)
    requires Shaped(n)
  {
    (|path| - LastStop(n, path, |path|)) % 255 != 0
  }

  lemma StraightBelow<V>(n: Node<V>, head: Path, child: Node<V>, path: Path)
    requires Shaped(n) && Shaped(child) && Beneath(n, head, child)
    ensures Straight(n, head + path) <==> Straight(child, path)
  {
    ForksBelow(n, head, child, path);
    ContinuesBelow(n, head, child, path);
    LookupBelow(n, head, child, path, []);
    assert (head + path) + [] == head + path && path + [] == path;
  }

  lemma StopBelow<V>(n: Node<V>, head: Path, child: Node<V>, path: Path, s: nat)
    requires Shaped(n) && Shaped(child) && Beneath(n, head, child) && 0 < s <= |path|
    ensures Stop(n, head + path, |head| + s) <==> Stop(child, path, s)
  {
    assert (head + path)[..|head| + s] == head + path[..s];
    assert (head + path)[..|head| + s - 1] == head + path[..s - 1];
    ForksBelow(n, head, child, path[..s - 1]);
  }

  ghost predicate SameStops<V>(n: Node<V>, long: Path, k: nat, child: Node<V>, path: Path)
    requires Shaped(n) && Shaped(child) && |long| == k + |path|
  {
    forall s {:trigger Stop(child, path, s)} :: 0 < s <= |path| ==> (Stop(n, long, k + s) <==> Stop(child, path, s))
  }

  lemma {:induction false} LastOfSameStops<V>(
      n: Node<V>, long: Path, k: nat, child: Node<V>, path: Path, s: nat, t: nat)
    requires Shaped(n) && Shaped(child) && |long| == k + |path| && SameStops(n, long, k, child, path)
    requires s <= |path| && t == k + s
    ensures var at := LastStop(child, path, s);
            LastStop(n, long, t) == if at > 0 then k + at else LastStop(n, long, k)
    decreases s
  {
    if s > 0 && !Stop(child, path, s) { LastOfSameStops(n, long, k, child, path, s - 1, t - 1); }
  }

  lemma StopsBelow<V>(n: Node<V>, head: Path, child: Node<V>, path: Path)
    requires Shaped(n) && Shaped(child) && Beneath(n, head, child)
    ensures SameStops(n, head + path, |head|, child, path)
  {
    forall s | 0 < s <= |path| ensures Stop(n, head + path, |head| + s) <==> Stop(child, path, s) {
      StopBelow(n, head, child, path, s);
    }
  }

  lemma {:induction false} LastStopOver<V>(n: Node<V>, path: Path, s: nat)
    requires Shaped(n) && n.MidBranchLeaf? && s <= |path|
    ensures LastStop(n, path, s) == LastStop(n.child, path, s)
  {
    if s > 0 {
      ValueOver(n, path[..s - 1]);
      LastStopOver(n, path, s - 1);
    }
  }

  lemma {:induction false} NoStopInside<V>(n: Node<V>, path: Path, s: nat)
    requires Proper(n) && Shaped(n) && n.Extension? && s <= |path| && s < |n.path|
    ensures LastStop(n, path, s) == 0
  {
    if s > 0 {
      InsideExtension(n, path[..s]);
      InsideExtension(n, path[..s - 1]);
      NoStopInside(n, path, s - 1);
    }
  }

  lemma StopAtEnd<V>(n: Node<V>, path: Path)
    requires Proper(n) && Shaped(n) && n.Extension? && n.path <= path
    ensures LastStop(n, path, |n.path|) == if Lookup(n.child, []).Some? then |n.path| else 0
  {
    var k := |n.path|;
    assert path[..k] == n.path && n.path[k..] == [];
    InsideExtension(n, path[..k - 1]);
    NoStopInside(n, path, k - 1);
  }

  lemma {:induction false} StopAfterBranch<V>(n: Node<V>, path: Path, s: nat)
    requires Proper(n) && Shaped(n) && n.Branch? && 0 < s <= |path|
    ensures LastStop(n, path, s) > 0
  {
    if s == 1 {
      AtRoot(n);
      assert path[..0] == [];
    } else {
      StopAfterBranch(n, path, s - 1);
    }
  }

  /** Below a branch. */
  lemma ShortBelowBranch<V>(n: Node<V>, path: Path)
    requires Proper(n) && Shaped(n) && n.Branch? && path != []
    ensures Straight(n, path) <==> Straight(n.children[path[0]], path[1..])
    ensures Short(n, path) <==> Short(n.children[path[0]], path[1..])
  {
    var i, rest := path[0], path[1..];
    assert path == [i] + rest;
    BranchUnder(n, i);
    StraightBelow(n, [i], n.children[i], rest);
    StopsBelow(n, [i], n.children[i], rest);
    LastOfSameStops(n, path, 1, n.children[i], rest, |rest|, |path|);
    StopAfterBranch(n, path, 1);
  }

  lemma StopBelowExtension<V>(n: Node<V>, path: Path, rest: Path)
    requires Proper(n) && Shaped(n) && n.Extension? && path == n.path + rest
    ensures var at := LastStop(n.child, rest, |rest|);
            LastStop(n, path, |path|) == if at > 0 || Lookup(n.child, []).Some? then |n.path| + at else 0
  {
    assert SameStops(n, path, |n.path|, n.child, rest) by {
      ExtensionUnder(n);
      StopsBelow(n, n.path, n.child, rest);
    }
    LastOfSameStops(n, path, |n.path|, n.child, rest, |rest|, |path|);
    StopAtEnd(n, path);
  }

  /** Below an extension: its end is a stop, or so far from the last one that it makes no difference. */
  lemma ShortBelowExtension<V>(n: Node<V>, path: Path)
    requires Proper(n) && Shaped(n) && n.Extension? && n.path <= path
    ensures var rest := path[|n.path|..];
            Straight(n, path) && Short(n, path) <==> Straight(n.child, rest) && Short(n.child, rest)
  {
    var child, rest := n.child, path[|n.path|..];
    assert path == n.path + rest;
    assert Straight(n, path) <==> Straight(child, rest) by {
      ExtensionUnder(n);
      StraightBelow(n, n.path, child, rest);
    }
    StopBelowExtension(n, path, rest);
    if Lookup(child, []) == None && !child.Extension? {
      StraightFromBranch(child, rest);
    } else if child.Extension? {
      FullMakesNoDifference(|path|, |rest|);
    }
  }

  lemma FullMakesNoDifference(m: nat, k: nat)
    ensures m == 255 + k ==> m % 255 == k % 255
  {}

  lemma StraightFromBranch<V>(n: Node<V>, path: Path)
    requires Proper(n) && Shaped(n) && !n.Extension? && Lookup(n, []) == None
    ensures LastStop(n, path, |path|) == 0 ==> !Straight(n, path)
  {
    AtRoot(n);
    if path != [] { StopAfterBranch(n, path, |path|); }
  }

  /** On a canonical trie the target ends inside an extension, so that the search panics, exactly
      if it lies on such a stretch and not a multiple of 255 nibbles after its last stop. */
  lemma {:induction false} InsideExactly<V>(n: Node<V>, target: Path)
    requires Canonical(n) && Shaped(n)
    ensures EndsInside(n, target) <==> Straight(n, target) && Short(n, target)
    decreases n
  {
    if target != [] {
      match n
      case Empty => NothingAfterLeaf(n, target);
      case Leaf(_, _) => NothingAfterLeaf(n, target);
      case Branch(_, children) =>
        InsideExactly(children[target[0]], target[1..]);
        ShortBelowBranch(n, target);
      case Extension(_, compressed, child) =>
        if compressed <= target {
          InsideExactly(child, target[|compressed|..]);
          ShortBelowExtension(n, target);
        } else {
          InsideExtension(n, target);
          if target <= compressed { NoStopInside(n, target, |target|); }
        }
      case MidBranchLeaf(_, _, child) =>
        InsideExactly(child, target);
        ValueOver(n, target);
        LastStopOver(n, target, |target|);
    }
  }

  /** So the search panics exactly then. */
  lemma SearchExactly<V>(n: Node<V>, target: Path)
    requires Canonical(n) && Shaped(n)
    ensures Predecessor(n, target, []).OutOfRange? <==> Straight(n, target) && Short(n, target)
  {
    PredecessorFinds(n, target, []);
    InsideExactly(n, target);
  }
}
