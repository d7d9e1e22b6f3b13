/** Which sets of keys leave no trace of their history in the trie. */
module TrieHistories {
  import opened Trie
  import opened TrieMap
  import opened TrieCanon
  import opened TrieKeeps

  // ----- keys that get along -----

  /** The extension of 255 nibbles, counted from the root, in which a nibble comes to lie. */
  function Chunk(x: int): int { x / 255 }

  function Offset(x: int): int { x % 255 }

  /** A key of this length may part from another at this depth: there the extension is full, or it
      is the last one of the key. */
  ghost predicate MayPart(x: nat, length: nat) { Offset(x) == 254 || Chunk(length - 1) <= Chunk(x) }

  /** Two keys below a path of s nibbles: where one of them ends, or where they part, the
      extension that either has when alone ends too, or goes no further. */
  ghost predicate Friendly(q: Path, r: Path, s: nat) { q == r || MayMeet(Common(q, r), |q|, |r|, s) }

  ghost predicate MayMeet(x: nat, m: nat, n: nat, s: nat) {
    if x == m || x == n then Offset(s + x) == 0 else MayPart(s + x, s + m) && MayPart(s + x, s + n)
  }

  lemma {:induction false} CommonIs(a: Path, b: Path, n: nat)
    requires n <= |a| && n <= |b| && a[..n] == b[..n]
    requires n == |a| || n == |b| || a[n] != b[n]
    ensures Common(a, b) == n
  {
    if n > 0 {
      assert a[0] == a[..n][0] == b[..n][0] == b[0];
      assert a[1..][..n - 1] == a[..n][1..] && b[1..][..n - 1] == b[..n][1..];
      CommonIs(a[1..], b[1..], n - 1);
    }
  }

  lemma CommonBelow(head: Path, q: Path, r: Path)
    ensures Common(head + q, head + r) == |head| + Common(q, r)
  {
    var x := Common(q, r);
    assert (head + q)[..|head| + x] == head + q[..x] && (head + r)[..|head| + x] == head + r[..x];
    CommonIs(head + q, head + r, |head| + x);
  }

  lemma FriendlyBelow(head: Path, q: Path, r: Path, s: nat)
    requires Friendly(head + q, head + r, s)
    ensures Friendly(q, r, s + |head|)
  {
    CommonBelow(head, q, r);
    MeetBelow(Common(q, r), |q|, |r|, s, |head|);
    if head + q == head + r { assert q == (head + q)[|head|..] == (head + r)[|head|..] == r; }
  }

  lemma MeetBelow(x: nat, m: nat, n: nat, s: nat, h: nat)
    ensures MayMeet(h + x, h + m, h + n, s) <==> MayMeet(x, m, n, s + h)
  {}

  // ----- friendly keys never leave the canonical form -----

  ghost predicate Among<V>(n: Node<V>, path: Path, q: Path)
    requires Shaped(n)
  {
    q == path || Lookup(n, q).Some?
  }

  /** The keys of a node below s nibbles, together with one more. */
  ghost predicate AllFriendly<V>(n: Node<V>, path: Path, s: nat)
    requires Shaped(n)
  {
    forall q, r {:trigger Friendly(q, r, s)} :: Among(n, path, q) && Among(n, path, r) ==> Friendly(q, r, s)
  }

  lemma AmongBelow<V>(n: Node<V>, child: Node<V>, path: Path, head: Path, q: Path)
    requires Shaped(n) && Shaped(child) && head <= path && Among(child, path[|head|..], q)
    requires forall k :: Lookup(child, k).Some? ==> Lookup(n, head + k).Some?
    ensures Among(n, path, head + q)
  {
    assert path == head + path[|head|..];
  }

  lemma AllFriendlyBelow<V>(n: Node<V>, child: Node<V>, path: Path, head: Path, s: nat)
    requires Shaped(n) && Shaped(child) && head <= path && AllFriendly(n, path, s)
    requires forall q :: Lookup(child, q).Some? ==> Lookup(n, head + q).Some?
    ensures AllFriendly(child, path[|head|..], s + |head|)
  {
    var rest := path[|head|..];
    forall q, r | Among(child, rest, q) && Among(child, rest, r) ensures Friendly(q, r, s + |head|) {
      AmongBelow(n, child, path, head, q);
      AmongBelow(n, child, path, head, r);
      assert Friendly(head + q, head + r, s);
      FriendlyBelow(head, q, r, s);
    }
  }

  /** An extension begins at a multiple of 255 nibbles, or all its keys end before the next one. */
  ghost predicate Begins<V>(n: Node<V>, s: nat)
    requires Shaped(n)
  {
    n.Extension? ==> Offset(s) == 0 || forall q :: Lookup(n, q).Some? ==> Chunk(s + |q| - 1) <= Chunk(s - 1)
  }

  /** A key on another side of a branch. */
  lemma OtherSide<V>(n: Node<V>, i: Nibble) returns (j: Nibble, r: Path)
    requires Proper(n) && Shaped(n) && n.Branch?
    ensures i != j && Lookup(n, [j] + r).Some?
  {
    var a, b := TwoFilled(n.children);
    j := if a == i then b else a;
    r := Witness(n.children[j]);
    BelowBranch(n, j, r);
  }

  lemma BeginsBelowBranch<V>(n: Node<V>, i: Nibble, path: Path, s: nat)
    requires Proper(n) && Shaped(n) && n.Branch? && AllFriendly(n, path, s)
    ensures Begins(n.children[i], s + 1)
  {
    var j, r := OtherSide(n, i);
    forall q | Lookup(n.children[i], q).Some?
      ensures Offset(s + 1) == 0 || Chunk(s + 1 + |q| - 1) <= Chunk(s + 1 - 1)
    {
      BelowBranch(n, i, q);
      assert Among(n, path, [i] + q) && Among(n, path, [j] + r);
      FriendlyHeads(i, q, j, r, s);
      PartNext(s, |q|);
    }
  }

  lemma PartNext(s: nat, length: nat)
    requires MayPart(s, s + 1 + length)
    ensures Offset(s + 1) == 0 || Chunk(s + 1 + length - 1) <= Chunk(s + 1 - 1)
  {}

  lemma FriendlyHeads(i: Nibble, q: Path, j: Nibble, r: Path, s: nat)
    requires i != j
    ensures Friendly([i] + q, [j] + r, s) ==> MayPart(s, s + 1 + |q|)
  {
    CommonIs([i] + q, [j] + r, 0);
  }

  lemma ChainBegins<V>(n: Node<V>, s: nat)
    requires Proper(n) && Shaped(n) && n.Extension? && n.child.Extension? && Begins(n, s)
    ensures |n.path| == 255 && Offset(s) == 0
  {
    var w := Witness(n.child);
    BelowExtension(n, w);
    assert Offset(s) == 0 || Chunk(s + |n.path + w| - 1) <= Chunk(s - 1);
    FarBeyond(s, |n.path + w|);
  }

  lemma FarBeyond(s: nat, length: nat)
    requires length > 255
    ensures Chunk(s + length - 1) > Chunk(s - 1)
  {}

  lemma NoneEndsInside(s: nat, length: nat, end: nat)
    requires 0 < end < length && end < 255
    requires Offset(s) == 0 || Chunk(s + length - 1) <= Chunk(s - 1)
    ensures Offset(s + end) != 0
  {}

  lemma NonePartsInside(s: nat, length: nat, x: nat)
    requires Offset(s) == 0 && x < 254 && length > 255
    ensures !MayPart(s + x, s + length)
  {}

  /** A friendly path neither ends inside an extension nor parts from one that continues. */
  lemma FriendlyParts<V>(n: Node<V>, path: Path, s: nat)
    requires Proper(n) && Shaped(n) && n.Extension? && AllFriendly(n, path, s) && Begins(n, s)
    requires path != [] && !(n.path <= path)
    ensures !(path <= n.path) && !(n.child.Extension? && Divergence(n.path, path) < |n.path| - 1)
  {
    var w := Witness(n.child);
    assert Friendly(path, n.path + w, s) && (Offset(s) == 0 || Chunk(s + |n.path + w| - 1) <= Chunk(s - 1)) by {
      BelowExtension(n, w);
      assert Among(n, path, n.path + w) && Among(n, path, path);
    }
    if path <= n.path {
      EndsBadly(n.path, w, path, s);
    } else if n.child.Extension? {
      ChainBegins(n, s);
      if Divergence(n.path, path) < 254 { PartsBadly(n.path, w, path, s); }
    }
  }

  lemma EndsBadly(compressed: Path, w: Path, path: Path, s: nat)
    requires path != [] && path < compressed && |compressed| <= MAX_PATH
    requires Offset(s) == 0 || Chunk(s + |compressed + w| - 1) <= Chunk(s - 1)
    ensures !Friendly(path, compressed + w, s)
  {
    CommonIs(path, compressed + w, |path|);
    NoneEndsInside(s, |compressed + w|, |path|);
  }

  lemma PartsBadly(compressed: Path, w: Path, path: Path, s: nat)
    requires !(compressed <= path) && !(path <= compressed) && |compressed| == 255 && w != []
    requires Offset(s) == 0 && Divergence(compressed, path) < 254
    ensures !Friendly(path, compressed + w, s)
  {
    DivergenceIsCommon(compressed, path, w);
    NonePartsInside(s, |compressed + w|, Divergence(compressed, path));
  }

  lemma DivergenceIsCommon(compressed: Path, path: Path, w: Path)
    requires |compressed| <= MAX_PATH && !(compressed <= path) && !(path <= compressed)
    ensures var x := Divergence(compressed, path);
            x < |compressed| && x < |path| && compressed[x] != path[x] && Common(path, compressed + w) == x
  {
    var x := Divergence(compressed, path);
    DivergenceInside(compressed, path);
    assert path[..|path|] == path;
    assert x < |path|;
    assert (compressed + w)[..x] == path[..x] by { TakeFirst(compressed, w, x); }
    assert (compressed + w)[x] == compressed[x];
    CommonIs(path, compressed + w, x);
  }

  lemma TakeFirst(a: Path, b: Path, n: nat)
    requires n <= |a|
    ensures (a + b)[..n] == a[..n]
  {}

  lemma UnderBranch<V>(n: Node<V>, path: Path, s: nat)
    requires Proper(n) && Shaped(n) && n.Branch? && AllFriendly(n, path, s) && path != []
    ensures AllFriendly(n.children[path[0]], path[1..], s + 1) && Begins(n.children[path[0]], s + 1)
  {
    var i := path[0];
    forall q | Lookup(n.children[i], q).Some? ensures Lookup(n, [i] + q).Some? { BelowBranch(n, i, q); }
    AllFriendlyBelow(n, n.children[i], path, [i], s);
    BeginsBelowBranch(n, i, path, s);
  }

  lemma UnderExtension<V>(n: Node<V>, path: Path, s: nat)
    requires Proper(n) && Shaped(n) && n.Extension? && AllFriendly(n, path, s) && Begins(n, s) && n.path <= path
    ensures AllFriendly(n.child, path[|n.path|..], s + |n.path|) && Begins(n.child, s + |n.path|)
  {
    ChildBegins(n, s);
    forall q | Lookup(n.child, q).Some? ensures Lookup(n, n.path + q).Some? { BelowExtension(n, q); }
    AllFriendlyBelow(n, n.child, path, n.path, s);
  }

  lemma ChildBegins<V>(n: Node<V>, s: nat)
    requires Proper(n) && Shaped(n) && n.Extension? && Begins(n, s)
    ensures Begins(n.child, s + |n.path|)
  {
    if n.child.Extension? {
      ChainBegins(n, s);
      NextBegins(s);
    }
  }

  lemma NextBegins(s: nat)
    requires Offset(s) == 0
    ensures Offset(s + 255) == 0
  {}

  lemma UnderValue<V>(n: Node<V>, path: Path, s: nat)
    requires Proper(n) && Shaped(n) && n.MidBranchLeaf? && AllFriendly(n, path, s)
    ensures AllFriendly(n.child, path, s) && Begins(n.child, s)
  {
    forall q, r | Among(n.child, path, q) && Among(n.child, path, r) ensures Friendly(q, r, s) {
      assert Among(n, path, q) && Among(n, path, r);
    }
    var w := Witness(n.child);
    assert Among(n, path, []) && Among(n, path, w) && Friendly([], w, s);
    CommonIs([], w, 0);
  }

  lemma {:induction false} FriendlyIsClean<V>(n: Node<V>, path: Path, s: nat)
    requires Canonical(n) && Shaped(n) && AllFriendly(n, path, s) && Begins(n, s)
    ensures !Degrades(n, path)
    decreases n
  {
    if path != [] {
      match n
      case Empty =>
      case Leaf(_, _) =>
      case Branch(_, children) =>
        UnderBranch(n, path, s);
        FriendlyIsClean(children[path[0]], path[1..], s + 1);
      case Extension(_, compressed, child) =>
        if compressed <= path {
          UnderExtension(n, path, s);
          FriendlyIsClean(child, path[|compressed|..], s + |compressed|);
        } else {
          FriendlyParts(n, path, s);
        }
      case MidBranchLeaf(_, _, child) =>
        UnderValue(n, path, s);
        FriendlyIsClean(child, path, s);
    }
  }

  // ----- histories over a set of keys -----

  ghost predicate Over<V>(ops: seq<Op<V>>, keys: iset<Path>) { forall i :: 0 <= i < |ops| ==> ops[i].path in keys }

  ghost predicate Harmless(keys: iset<Path>) {
    forall q, r {:trigger Friendly(q, r, 0)} :: q in keys && r in keys ==> Friendly(q, r, 0)
  }

  lemma KeysOver<V>(ops: seq<Op<V>>, keys: iset<Path>, q: Path)
    requires Over(ops, keys) && Lookup(Built(ops), q).Some?
    ensures q in keys
  {
    HistoryIsMap(ops, q);
    KeysFromOps(ops, q);
  }

  lemma {:induction false} OverCanonical<V>(ops: seq<Op<V>>, keys: iset<Path>)
    requires Over(ops, keys) && Harmless(keys)
    ensures Canonical(Built(ops))
  {
    if ops != [] {
      var before, op := ops[..|ops| - 1], ops[|ops| - 1];
      var n := Built(before);
      OverCanonical(before, keys);
      forall q, r | Among(n, op.path, q) && Among(n, op.path, r) ensures Friendly(q, r, 0) {
        if q != op.path { KeysOver(before, keys, q); }
        if r != op.path { KeysOver(before, keys, r); }
      }
      FriendlyIsClean(n, op.path, 0);
      ApplyCanonical(n, op);
    }
  }

  /** All histories over the keys that end in the same map end in the same trie. */
  ghost predicate Traceless<V(!new)>(keys: iset<Path>) {
    forall a: seq<Op<V>>, b: seq<Op<V>> ::
      Over(a, keys) && Over(b, keys) && MapOf(a) == MapOf(b) ==> Built(a) == Built(b)
  }

  // ----- unfriendly keys: the order of two insertions shows -----

  lemma BuiltOne<V>(op: Op<V>)
    ensures Built([op]) == Apply(Empty, op)
  {
    assert [op][..0] == [];
  }

  lemma BuiltTwo<V>(a: Op<V>, b: Op<V>)
    ensures Shaped(Apply(Empty, a)) && Built([a, b]) == Apply(Apply(Empty, a), b)
  {
    BuiltOne(a);
    assert [a, b][..1] == [a];
  }

  lemma MapOfTwo<V>(a: Op<V>, b: Op<V>)
    requires a.Put? && b.Put?
    ensures MapOf([a, b]) == map[a.path := a.value][b.path := b.value]
  {
    assert [a, b][..1] == [a] && [a][..0] == [];
    assert MapOf([a]) == map[a.path := a.value];
  }

  /** The trie of two keys, inserted in this order. */
  ghost function Both<V>(first: Path, second: Path, v: V): Node<V> {
    NewPath(first, v, []);
    Insert(Extend(first, NewLeaf(v)), second, v).0
  }

  lemma BothIsBuilt<V>(p: Path, q: Path, v: V)
    ensures Built([Put(p, v), Put(q, v)]) == Both(p, q, v)
  {
    BuiltTwo(Put(p, v), Put(q, v));
    assert Insert(Empty, p, v).0 == Extend(p, NewLeaf(v));
  }

  lemma Unfolded<V>(p: Path, v: V)
    requires p != []
    ensures var n := Extend(p, NewLeaf(v));
            && Shaped(n) && n.Extension?
            && (|p| <= 255 ==> n.path == p && n.child == NewLeaf(v))
            && (|p| > 255 ==> n.path == p[..255] && n.child == Extend(p[255..], NewLeaf(v)))
  {
    NewPath(p, v, []);
  }

  /** Keys that agree on their first extension differ below it, if at all. */
  lemma BothBelow<V>(p: Path, q: Path, v: V)
    requires |p| > 255 && |q| > 255 && p[..255] == q[..255]
    ensures var n := Both(p, q, v); n.Extension? && n.child == Both(p[255..], q[255..], v)
  {
    Unfolded(p, v);
    var n := Extend(p, NewLeaf(v));
    assert n.path <= q;
    InsertBelowForm(n, q, v);
  }

  /** The node on one side of a branch below x nibbles. */
  ghost function Side<V>(n: Node<V>, x: nat, i: Nibble): Node<V> {
    var b := if x == 0 then n else if n.Extension? then n.child else Empty;
    if b.Branch? && |b.children| == 16 then b.children[i] else Empty
  }

  /** A split keeps the old extension's rest on its side and puts the new path on the other. */
  lemma SplitSides<V>(n: Node<V>, path: Path, v: V, x: nat)
    requires Shaped(n) && n.Extension? && !(n.path <= path) && x == Divergence(n.path, path)
    requires x < |n.path| && x < |path| && n.path[x] != path[x]
    ensures var r := Insert(n, path, v).0;
            && Side(r, x, path[x]) == Insert(Empty, path[x + 1..], v).0
            && (x < |n.path| - 1 ==> Side(r, x, n.path[x]) == Extension(Ann(n.child), n.path[x + 1..], n.child))
  {
    InsertSplitForm(n, path, v);
    assert path[x..][1..] == path[x + 1..];
  }

  lemma Peeled(p: Path, q: Path)
    requires Common(p, q) >= 255
    ensures |p| >= 255 && |q| >= 255 && p[..255] == q[..255]
    ensures Common(p[255..], q[255..]) == Common(p, q) - 255
  {
    var x := Common(p, q);
    assert p[..255] == p[..x][..255] && q[..255] == q[..x][..255];
    assert p == p[..255] + p[255..] && q == q[..255] + q[255..];
    CommonBelow(p[..255], p[255..], q[255..]);
  }

  lemma MayPartBelow(x: nat, length: nat)
    requires 255 <= x && 255 <= length
    ensures MayPart(x - 255, length - 255) <==> MayPart(x, length)
  {}

  /** Where one of them may not part from the other, their order shows. */
  lemma {:induction false} PartedOrder<V>(p: Path, q: Path, v: V)
    requires var x := Common(p, q); x < |p| && x < |q| && !MayPart(x, |q|)
    ensures Both(p, q, v) != Both(q, p, v)
    decreases |p|
  {
    var x := Common(p, q);
    if x >= 255 {
      Peeled(p, q);
      MayPartBelow(x, |q|);
      PartedOrder(p[255..], q[255..], v);
      BothBelow(p, q, v);
      BothBelow(q, p, v);
    } else {
      PartedHere(p, q, v);
    }
  }

  lemma PartedHere<V>(p: Path, q: Path, v: V)
    requires var x := Common(p, q); x < |p| && x < 254 && |q| > 255
    ensures Both(p, q, v) != Both(q, p, v)
  {
    var x := Common(p, q);
    PartedNew(p, q, v, x);
    PartedOld(q, p, v, x);
  }

  lemma PartedNew<V>(p: Path, q: Path, v: V, x: nat)
    requires x < |p| && x < 254 && |q| > 255 && p[..x] == q[..x] && p[x] != q[x]
    ensures Side(Both(p, q, v), x, q[x]) == Extend(q[x + 1..], NewLeaf(v))
    ensures var e := Extend(q[x + 1..], NewLeaf(v)); e.Extension? && |e.path| > 254 - x
  {
    Unfolded(p, v);
    Unfolded(q[x + 1..], v);
    var n := Extend(p, NewLeaf(v));
    PartsHead(p, n.path, q, x);
    SplitSides(n, q, v, x);
  }

  lemma PartedOld<V>(q: Path, p: Path, v: V, x: nat)
    requires x < |p| && x < 254 && |q| > 255 && p[..x] == q[..x] && p[x] != q[x]
    ensures var e := Side(Both(q, p, v), x, q[x]); e.Extension? && |e.path| == 254 - x
  {
    Unfolded(q, v);
    var n := Extend(q, NewLeaf(v));
    PartsHead(q, n.path, p, x);
    SplitSides(n, p, v, x);
  }

  lemma PartsHead(p: Path, head: Path, q: Path, x: nat)
    requires x < |p| && x < |q| && p[..x] == q[..x] && p[x] != q[x]
    requires head <= p && x < |head| <= MAX_PATH
    ensures head[x] == p[x] && !(head <= q) && !(q <= head) && Divergence(head, q) == x
  {
    assert head[x] == p[x] && head[..x] == p[..x];
    CommonIs(head, if |q| <= MAX_PATH then q else q[..MAX_PATH], x);
  }

  /** Where one of them ends inside an extension of the other, their order shows. */
  lemma {:induction false} EndedOrder<V>(p: Path, q: Path, v: V)
    requires p < q && Offset(|p|) != 0
    ensures Both(p, q, v) != Both(q, p, v)
    decreases |p|
  {
    if |p| > 255 {
      assert p[..255] == q[..255] && p[255..] < q[255..];
      EndedOrder(p[255..], q[255..], v);
      BothBelow(p, q, v);
      BothBelow(q, p, v);
    } else {
      EndedHere(p, q, v);
    }
  }

  lemma EndedHere<V>(p: Path, q: Path, v: V)
    requires p < q && 0 < |p| < 255
    ensures Both(p, q, v) != Both(q, p, v)
  {
    var m, n := Extend(p, NewLeaf(v)), Extend(q, NewLeaf(v));
    assert Both(p, q, v).Extension? && Both(p, q, v).child.MidBranchLeaf? && Both(p, q, v).child.child.Extension? by {
      Unfolded(p, v);
      InsertBelowForm(m, q, v);
      Unfolded(q[|p|..], v);
    }
    assert Both(q, p, v).Extension? && Both(q, p, v).child.MidBranchLeaf? && Both(q, p, v).child.child.Branch? by {
      Unfolded(q, v);
      InsertSplitForm(n, p, v);
      CommonIs(n.path, p, |p|);
    }
  }

  lemma OrderShows<V(!new)>(keys: iset<Path>, p: Path, q: Path, v: V)
    requires p in keys && q in keys && p != q && Both(p, q, v) != Both(q, p, v)
    ensures !Traceless<V>(keys)
  {
    var a, b := [Put(p, v), Put(q, v)], [Put(q, v), Put(p, v)];
    BothIsBuilt(p, q, v);
    BothIsBuilt(q, p, v);
    MapOfTwo(a[0], a[1]);
    MapOfTwo(b[0], b[1]);
    assert Over(a, keys) && Over(b, keys) && MapOf(a) == MapOf(b);
  }

  lemma UnfriendlyShows<V>(p: Path, q: Path, v: V)
    requires !Friendly(p, q, 0)
    ensures Both(p, q, v) != Both(q, p, v)
  {
    var x := Common(p, q);
    CommonIs(q, p, x);
    if x == |p| {
      EndedOrder(p, q, v);
    } else if x == |q| {
      EndedOrder(q, p, v);
    } else if !MayPart(x, |q|) {
      PartedOrder(p, q, v);
    } else {
      PartedOrder(q, p, v);
    }
  }

  /** Exactly then: the trie never shows its history if and only if all keys are friendly. */
  lemma TracelessExactly<V(!new)>(keys: iset<Path>, v: V)
    ensures Traceless<V>(keys) <==> Harmless(keys)
  {
    if Harmless(keys) {
      forall a: seq<Op<V>>, b: seq<Op<V>> | Over(a, keys) && Over(b, keys) && MapOf(a) == MapOf(b)
        ensures Built(a) == Built(b)
      {
        OverCanonical(a, keys);
        OverCanonical(b, keys);
        HistoryForgotten(a, b);
      }
    } else {
      var p, q :| p in keys && q in keys && !Friendly(p, q, 0);
      UnfriendlyShows(p, q, v);
      OrderShows(keys, p, q, v);
    }
  }

  /** For keys of at most 255 nibbles: if and only if none but the empty one is a proper prefix of
      another. */
  lemma ShortExactly<V(!new)>(keys: iset<Path>, v: V)
    requires forall q :: q in keys ==> |q| <= 255
    ensures Traceless<V>(keys) <==> forall p, q :: p in keys && q in keys && p < q ==> p == []
  {
    TracelessExactly<V>(keys, v);
    if Harmless(keys) {
      forall p, q | p in keys && q in keys && p < q ensures p == [] {
        assert Friendly(p, q, 0);
        CommonIs(p, q, |p|);
      }
    }
    if forall p, q :: p in keys && q in keys && p < q ==> p == [] {
      forall p, q | p in keys && q in keys ensures Friendly(p, q, 0) { ShortFriendly(p, q); }
    }
  }

  lemma ShortFriendly(p: Path, q: Path)
    requires |p| <= 255 && |q| <= 255 && (p < q ==> p == []) && (q < p ==> q == [])
    ensures Friendly(p, q, 0)
  {
    var x := Common(p, q);
    if x == |p| { assert p == q[..x]; }
    if x == |q| { assert q == p[..x]; }
  }
}
