/** Which operations keep a trie canonical, and what follows for whole histories. */
module TrieKeeps {
  import opened Basics
  import opened Trie
  import opened TrieMap
  import opened TrieCanon

  // ----- counting children -----

  function One<V>(n: Node<V>): nat { if n.Empty? then 0 else 1 }

  lemma {:induction false} FilledUpdate<V>(children: seq<Node<V>>, i: nat, c: Node<V>)
    requires i < |children|
    ensures Filled(children[i := c]) + One(children[i]) == Filled(children) + One(c)
  {
    var n := |children| - 1;
    if i == n {
      assert children[i := c][..n] == children[..n];
    } else {
      FilledUpdate(children[..n], i, c);
      assert children[i := c][..n] == children[..n][i := c];
    }
  }

  lemma FilledSingle<V>(i: Nibble, child: Node<V>)
    requires !child.Empty?
    ensures Filled(Single(i, child)) == 1
  {
    var none: seq<Node<V>> := seq(16, _ => Empty);
    FilledZero(none);
    FilledUpdate(none, i, child);
    assert none[i := child] == Single(i, child);
  }

  // ----- extensions -----

  lemma {:induction false} ChunkedProper<V>(path: Path, child: Node<V>)
    requires path != [] && Proper(child) && (child.Extension? ==> |path| % MAX_PATH == 0)
    ensures Proper(Chunked(path, child)) && Ann(Chunked(path, child)) == Ann(child)
    decreases |path|
  {
    if |path| > MAX_PATH { ChunkedProper(path[MAX_PATH..], child); }
  }

  lemma {:induction false} ExtendProper<V>(path: Path, child: Node<V>)
    requires path != [] && Proper(child)
    ensures Proper(Extend(path, child)) && Extend(path, child).Extension?
    ensures Ann(Extend(path, child)) == Ann(child)
    decreases child
  {
    if child.Extension? && |path| % MAX_PATH != 0 {
      ExtendProper(path + child.path, child.child);
    } else {
      ChunkedProper(path, child);
    }
  }

  // ----- insertion -----

  /** Where insertion leaves the canonical form: a path that ends inside an extension leaves a
      branch with a single child, and a split of an extension that continues in another one
      leaves a short extension above a full one. */
  ghost predicate Degrades<V>(n: Node<V>, path: Path)
    requires Shaped(n)
  {
    path != [] &&
    match n
    case Empty => false
    case Leaf(_, _) => false
    case Branch(_, children) => Degrades(children[path[0]], path[1..])
    case Extension(_, compressed, child) =>
      if compressed <= path then Degrades(child, path[|compressed|..])
      else path <= compressed || (child.Extension? && Divergence(compressed, path) < |compressed| - 1)
    case MidBranchLeaf(_, _, child) => Degrades(child, path)
  }

  lemma InsertEmpty<V>(path: Path, value: V)
    ensures Proper(Insert(Empty, path, value).0)
  {
    if path != [] { ExtendProper(path, NewLeaf(value)); }
  }

  lemma InsertHereProper<V>(n: Node<V>, value: V)
    requires Canonical(n)
    ensures Proper(InsertHere(n, value).0)
  {}

  lemma {:induction false} InsertProper<V>(n: Node<V>, path: Path, value: V)
    requires Canonical(n) && Shaped(n)
    ensures Proper(Insert(n, path, value).0) <==> !Degrades(n, path)
    decreases |path|, n
  {
    if path == [] {
      InsertHereProper(n, value);
    } else {
      match n
      case Empty => InsertEmpty(path, value);
      case Leaf(_, _) => ExtendProper(path, NewLeaf(value));
      case Branch(_, children) =>
        InsertProper(children[path[0]], path[1..], value);
        InsertIntoBranch(n, path, value);
      case Extension(_, compressed, child) =>
        if compressed <= path {
          InsertProper(child, path[|compressed|..], value);
          InsertIntoExtension(n, path, value);
        } else {
          InsertSplitting(n, path, value);
        }
      case MidBranchLeaf(_, _, child) =>
        InsertProper(child, path, value);
        InsertKind(child, path, value);
    }
  }

  lemma InsertIntoBranch<V>(n: Node<V>, path: Path, value: V)
    requires Proper(n) && Shaped(n) && n.Branch? && path != []
    ensures Proper(Insert(n, path, value).0) <==> Proper(Insert(n.children[path[0]], path[1..], value).0)
  {
    var i := path[0];
    var c := Insert(n.children[i], path[1..], value).0;
    var updated := n.children[i := c];
    FilledUpdate(n.children, i, c);
    InsertPuts(n.children[i], path[1..], value, path[1..]);
    assert updated[i] == c;
    assert forall j :: 0 <= j < 16 && j != i ==> updated[j] == n.children[j];
  }

  lemma InsertIntoExtension<V>(n: Node<V>, path: Path, value: V)
    requires Proper(n) && Shaped(n) && n.Extension? && path != [] && n.path <= path
    ensures Proper(Insert(n, path, value).0) <==> Proper(Insert(n.child, path[|n.path|..], value).0)
  {
    InsertBelowForm(n, path, value);
    if !n.child.Extension? { InsertNotExtension(n.child, path[|n.path|..], value); }
  }

  lemma InsertNotExtension<V>(n: Node<V>, path: Path, value: V)
    requires Shaped(n) && !n.Extension? && !n.Empty?
    ensures !Insert(n, path, value).0.Extension?
  {}

  /** The branch at which an extension is split, with the new path on its other side. */
  lemma InsertBeside<V>(compressed: Path, child: Node<V>, index: nat, path: Path, value: V)
    requires Proper(child) && Shaped(child) && index < |compressed| <= MAX_PATH
    requires path != [] && path[0] != compressed[index]
    ensures Shaped(SplitAt(compressed, child, index))
    ensures var b := SplitAt(compressed, child, index);
            var r := InsertBranch(b.size, b.children, path, value).0;
            r.Branch? && (Proper(r) <==> !(child.Extension? && index < |compressed| - 1))
  {
    SplitLookup(compressed, child, index, []);
    var b := SplitAt(compressed, child, index);
    var remaining := b.children[compressed[index]];
    var c := Insert(Empty, path[1..], value).0;
    var updated := b.children[path[0] := c];
    InsertEmpty(path[1..], value);
    FilledSingle(compressed[index], remaining);
    FilledUpdate(b.children, path[0], c);
    assert Filled(updated) == 2;
    assert forall j :: 0 <= j < 16 && j != path[0] && j != compressed[index] ==> updated[j] == Empty;
    assert updated[path[0]] == c && updated[compressed[index]] == remaining;
    assert Proper(remaining) <==> !(child.Extension? && index < |compressed| - 1);
  }

  lemma InsertInside<V>(compressed: Path, child: Node<V>, index: nat, value: V)
    requires Proper(child) && Shaped(child) && index < |compressed| <= MAX_PATH
    ensures Shaped(SplitAt(compressed, child, index))
    ensures var b := SplitAt(compressed, child, index); !Proper(InsertBranch(b.size, b.children, [], value).0)
  {
    SplitLookup(compressed, child, index, []);
    var b := SplitAt(compressed, child, index);
    var remaining := b.children[compressed[index]];
    FilledSingle(compressed[index], remaining);
    assert b.children == Single(compressed[index], remaining);
    assert !Proper(b);
  }

  lemma UnderProper<V>(a: Path, n: Node<V>)
    requires |a| < MAX_PATH
    ensures !Proper(n) ==> !Proper(Under(a, n))
    ensures Proper(n) && !n.Extension? ==> Proper(Under(a, n))
  {}

  lemma InsertSplitting<V>(n: Node<V>, path: Path, value: V)
    requires Proper(n) && Shaped(n) && n.Extension? && path != [] && !(n.path <= path)
    ensures Proper(Insert(n, path, value).0) <==>
            !(path <= n.path || (n.child.Extension? && Divergence(n.path, path) < |n.path| - 1))
  {
    InsertSplitForm(n, path, value);
    var index := Divergence(n.path, path);
    var b := SplitAt(n.path, n.child, index);
    var r := InsertBranch(b.size, b.children, path[index..], value).0;
    assert path <= n.path <==> index == |path| by { CommonOfLong(n.path, path); }
    if index == |path| {
      InsertInside(n.path, n.child, index, value);
    } else {
      assert path[index..][0] != n.path[index] by { CommonOfLong(n.path, path); }
      InsertBeside(n.path, n.child, index, path[index..], value);
    }
    UnderProper(n.path[..index], r);
  }

  // ----- removal -----

  lemma ShrunkProper<V>(children: seq<Node<V>>)
    requires |children| == 16 && Filled(children) >= 1
    requires forall i :: 0 <= i < 16 ==> Canonical(children[i])
    ensures Proper(Shrunk(children))
  {
    if Filled(children) == 1 {
      FilledExists(children);
      var i := FirstFilled(children);
      assert Canonical(children[i]);
      if children[i].Extension? {
        ExtendProper([i] + children[i].path, children[i].child);
      } else {
        ExtendProper([i], children[i]);
      }
    }
  }

  lemma ReattachedCanonical<V>(path: Path, n: Node<V>)
    requires Canonical(n) && 0 < |path| <= MAX_PATH
    ensures Canonical(Reattached(path, n))
  {
    if n.Extension? { ExtendProper(path + n.path, n.child); }
  }

  /** Removal always restores the canonical form. */
  lemma {:induction false} RemoveCanonical<V>(n: Node<V>, path: Path)
    requires Canonical(n) && Shaped(n) && Remove(n, path).Removed?
    ensures Canonical(Remove(n, path).node)
    decreases n
  {
    match n
    case Empty =>
    case Leaf(_, _) =>
    case Branch(_, children) =>
      var i := path[0];
      RemoveCanonical(children[i], path[1..]);
      var c := Remove(children[i], path[1..]).node;
      FilledUpdate(children, i, c);
      assert forall j :: 0 <= j < 16 ==> children[i := c][j] == if j == i then c else children[j];
      ShrunkProper(children[i := c]);
    case Extension(_, compressed, child) =>
      if compressed <= path {
        RemoveCanonical(child, path[|compressed|..]);
        ReattachedCanonical(compressed, Remove(child, path[|compressed|..]).node);
      }
    case MidBranchLeaf(_, _, child) =>
      if path != [] {
        RemoveCanonical(child, path);
        RemoveKind(child, path);
      }
  }

  // ----- histories -----

  datatype Op<V> = Put(path: Path, value: V) | Take(path: Path)

  /** The operation does not leave the canonical form. */
  ghost predicate Clean<V>(n: Node<V>, op: Op<V>)
    requires Shaped(n)
  {
    match op
    case Put(path, _) => !Degrades(n, path)
    case Take(_) => true
  }

  /** A panic leaves the trie as it was. */
  ghost function Apply<V>(n: Node<V>, op: Op<V>): Node<V>
    requires Shaped(n)
  {
    match op
    case Put(path, value) => Insert(n, path, value).0
    case Take(path) => (match Remove(n, path) case Panic => n case Removed(m, _) => m)
  }

  lemma ApplyShaped<V>(n: Node<V>, op: Op<V>)
    requires Shaped(n)
    ensures Shaped(Apply(n, op))
  {
    match op
    case Put(path, value) => InsertPuts(n, path, value, []);
    case Take(path) => RemoveTakes(n, path, []);
  }

  lemma ApplyCanonical<V>(n: Node<V>, op: Op<V>)
    requires Canonical(n) && Shaped(n) && Clean(n, op)
    ensures Canonical(Apply(n, op))
  {
    match op
    case Put(path, value) => InsertProper(n, path, value);
    case Take(path) => if Remove(n, path).Removed? { RemoveCanonical(n, path); }
  }

  ghost function Built<V>(ops: seq<Op<V>>): (n: Node<V>)
    ensures Shaped(n)
  {
    if ops == [] then Empty else
    var n := Built(ops[..|ops| - 1]);
    ApplyShaped(n, ops[|ops| - 1]);
    Apply(n, ops[|ops| - 1])
  }

  ghost predicate CleanHistory<V>(ops: seq<Op<V>>) {
    forall i :: 0 <= i < |ops| ==> Clean(Built(ops[..i]), ops[i])
  }

  lemma CleanPrefix<V>(ops: seq<Op<V>>)
    requires CleanHistory(ops) && ops != []
    ensures CleanHistory(ops[..|ops| - 1]) && Clean(Built(ops[..|ops| - 1]), ops[|ops| - 1])
  {
    var k := |ops| - 1;
    forall i | 0 <= i < k ensures Clean(Built(ops[..k][..i]), ops[..k][i]) {
      assert ops[..k][..i] == ops[..i];
    }
  }

  lemma {:induction false} HistoryCanonical<V>(ops: seq<Op<V>>)
    requires CleanHistory(ops)
    ensures Canonical(Built(ops))
  {
    if ops != [] {
      CleanPrefix(ops);
      HistoryCanonical(ops[..|ops| - 1]);
      ApplyCanonical(Built(ops[..|ops| - 1]), ops[|ops| - 1]);
    }
  }

  // ----- the map a history stands for -----

  ghost function MapOf<V>(ops: seq<Op<V>>): map<Path, V> {
    if ops == [] then map[] else
    var m := MapOf(ops[..|ops| - 1]);
    match ops[|ops| - 1]
    case Put(path, value) => m[path := value]
    case Take(path) => m - {path}
  }

  ghost function Get<V>(m: map<Path, V>, q: Path): Option<V> { if q in m then Some(m[q]) else None }

  lemma {:induction false} BranchHasNoValue<V>(n: Node<V>, path: Path)
    requires Shaped(n) && EndsAtBranch(n, path)
    ensures Lookup(n, path) == None
  {
    match n
    case Branch(_, children) => if path != [] { BranchHasNoValue(children[path[0]], path[1..]); }
    case Extension(_, compressed, child) => BranchHasNoValue(child, path[|compressed|..]);
    case MidBranchLeaf(_, _, child) => BranchHasNoValue(child, path);
    case _ =>
  }

  lemma ApplyLookup<V>(n: Node<V>, op: Op<V>, q: Path)
    requires Shaped(n)
    ensures Shaped(Apply(n, op))
    ensures Lookup(Apply(n, op), q) == if q != op.path then Lookup(n, q) else if op.Put? then Some(op.value) else None
  {
    match op
    case Put(path, value) => InsertPuts(n, path, value, q);
    case Take(path) =>
      RemoveTakes(n, path, q);
      if EndsAtBranch(n, path) { BranchHasNoValue(n, path); }
  }

  /** After any history at all, clean or not, lookups are those of the map. */
  lemma {:induction false} HistoryIsMap<V>(ops: seq<Op<V>>, q: Path)
    ensures Lookup(Built(ops), q) == Get(MapOf(ops), q)
  {
    if ops != [] {
      HistoryIsMap(ops[..|ops| - 1], q);
      ApplyLookup(Built(ops[..|ops| - 1]), ops[|ops| - 1], q);
    }
  }

  /** A history that ends in the same map as a canonical one ends in the same trie exactly if it
      ends canonical too, as every clean one does. */
  lemma HistoryForgotten<V>(ops: seq<Op<V>>, ops': seq<Op<V>>)
    requires Canonical(Built(ops)) && MapOf(ops) == MapOf(ops')
    ensures Built(ops) == Built(ops') <==> Canonical(Built(ops'))
  {
    if Canonical(Built(ops')) {
      forall q ensures Lookup(Built(ops), q) == Lookup(Built(ops'), q) {
        HistoryIsMap(ops, q);
        HistoryIsMap(ops', q);
      }
      Unique(Built(ops), Built(ops'));
    }
  }

  lemma {:induction false} KeysFromOps<V>(ops: seq<Op<V>>, q: Path)
    requires q in MapOf(ops)
    ensures exists i :: 0 <= i < |ops| && ops[i].path == q
  {
    var k := |ops| - 1;
    if ops[k].path != q {
      KeysFromOps(ops[..k], q);
      var i :| 0 <= i < k && ops[..k][i].path == q;
      assert ops[i].path == q;
    }
  }
}
