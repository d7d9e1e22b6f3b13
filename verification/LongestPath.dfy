/** The search for the longest chain of state transitions in a log. It labels every state with
a distance from the states without a predecessor, correcting labels from a stack of states
whose successors are still to be looked at, and follows recorded parents back from the
farthest state. */
module LongestPath {
  import opened Basics

  type Node = string

  /** A dictionary from states to successors, with its keys in insertion order. */
  datatype Graph = Graph(keys: seq<Node>, edges: map<Node, seq<Node>>) {
    ghost predicate Valid() {
      && (forall n :: n in keys <==> n in edges)
      && (forall i, j :: 0 <= i < j < |keys| ==> keys[i] != keys[j])
    }

    /** Missing keys have no successors. */
    function Children(n: Node): seq<Node> {
      if n in edges then edges[n] else []
    }

    ghost predicate Edge(a: Node, b: Node) { b in Children(a) }

    /** A key that no state leads to. */
    ghost predicate Genesis(n: Node) { n in edges && forall a :: !Edge(a, n) }

    /** State names are matched by a pattern of at least one character. */
    ghost predicate Named() { forall n :: n in edges ==> n != "" && "" !in edges[n] }
  }

  // ----- walks and distances -----

  ghost predicate Walk(g: Graph, p: seq<Node>) {
    p != [] && forall i :: 0 <= i < |p| - 1 ==> g.Edge(p[i], p[i + 1])
  }

  /** A walk from a genesis state to v. */
  ghost predicate Leads(g: Graph, p: seq<Node>, v: Node) {
    Walk(g, p) && g.Genesis(p[0]) && p[|p| - 1] == v
  }

  ghost predicate Reachable(g: Graph, v: Node) { exists p :: Leads(g, p, v) }

  /** d is the least number of steps from a genesis state to v. */
  ghost predicate Distance(g: Graph, v: Node, d: nat) {
    && (exists p :: Leads(g, p, v) && |p| == d + 1)
    && (forall p :: Leads(g, p, v) ==> d + 1 <= |p|)
  }

  // ----- the genesis states -----

  function Get<K, V>(m: map<K, V>, k: K, default: V): V { if k in m then m[k] else default }

  ghost predicate Orphan(parents: map<Node, seq<Node>>, n: Node) { Get(parents, n, []) == [] }

  method AddParent(parents: map<Node, seq<Node>>, node: Node, children: seq<Node>)
      returns (p: map<Node, seq<Node>>)
    ensures forall c :: Orphan(p, c) <==> Orphan(parents, c) && c !in children
  {
    p := parents;
    for k := 0 to |children|
      invariant forall c :: Orphan(p, c) <==> Orphan(parents, c) && c !in children[..k]
    {
      p := p[children[k] := Get(p, children[k], []) + [node]];
    }
  }

  method Parents(g: Graph) returns (parents: map<Node, seq<Node>>)
    requires g.Valid()
    ensures forall n :: Orphan(parents, n) <==> forall a :: !g.Edge(a, n)
  {
    parents := map[];
    for i := 0 to |g.keys|
      invariant forall c :: Orphan(parents, c) <==> forall j :: 0 <= j < i ==> !g.Edge(g.keys[j], c)
    {
      parents := AddParent(parents, g.keys[i], g.edges[g.keys[i]]);
    }
    forall n ensures Orphan(parents, n) <==> forall a :: !g.Edge(a, n) {
      if a :| g.Edge(a, n) {
        var j :| 0 <= j < |g.keys| && g.keys[j] == a;
      }
    }
  }

  method GenesisPoints(g: Graph) returns (genesis: seq<Node>)
    requires g.Valid()
    ensures forall n :: n in genesis <==> g.Genesis(n)
  {
    var parents := Parents(g);
    genesis := [];
    for i := 0 to |g.keys|
      invariant forall n :: n in genesis <==> n in g.keys[..i] && Orphan(parents, n)
    {
      if Get(parents, g.keys[i], []) == [] {
        genesis := genesis + [g.keys[i]];
      }
    }
    assert g.keys[..|g.keys|] == g.keys;
  }

  // ----- labels -----

  /** A distance and the state it was reached from. */
  datatype Label = Label(dist: nat, parent: Option<Node>)
  type Labels = map<Node, Label>

  /** Every label is the length of some walk, and one more than its parent's label or better. */
  ghost predicate Sound(g: Graph, dists: Labels) {
    && (forall v {:trigger Walked(g, dists, v)} {:trigger SoundParent(g, dists, v)} ::
          v in dists ==> Walked(g, dists, v) && SoundParent(g, dists, v))
    && (forall v :: g.Genesis(v) ==> v in dists && dists[v].dist == 0)
  }

  ghost predicate Walked(g: Graph, dists: Labels, v: Node)
    requires v in dists
  {
    exists p :: Leads(g, p, v) && |p| == dists[v].dist + 1
  }

  ghost predicate SoundParent(g: Graph, dists: Labels, v: Node)
    requires v in dists
  {
    match dists[v].parent
    case None => dists[v].dist == 0
    case Some(q) => q in dists && g.Edge(q, v) && dists[q].dist + 1 <= dists[v].dist
  }

  /** The label of w allows for a step from v. */
  ghost predicate RelaxedEdge(dists: Labels, v: Node, w: Node)
    requires v in dists
  {
    w in dists && dists[w].dist <= dists[v].dist + 1
  }

  ghost predicate Relaxed(g: Graph, dists: Labels, v: Node)
    requires v in dists
  {
    forall w :: w in g.Children(v) ==> RelaxedEdge(dists, v, w)
  }

  // ----- termination: unlabelled states, then the sum of labels, then the stack -----

  ghost function AllChildren(g: Graph, keys: seq<Node>): seq<Node> {
    if keys == [] then [] else g.Children(keys[0]) + AllChildren(g, keys[1..])
  }

  lemma {:induction false} ChildListed(g: Graph, keys: seq<Node>, a: Node, n: Node)
    requires a in keys && g.Edge(a, n)
    ensures n in AllChildren(g, keys)
  {
    if a != keys[0] { ChildListed(g, keys[1..], a, n); }
  }

  ghost function Unlabelled(nodes: seq<Node>, dists: Labels): nat {
    if nodes == [] then 0 else (if nodes[0] in dists then 0 else 1) + Unlabelled(nodes[1..], dists)
  }

  ghost function LabelSum(nodes: seq<Node>, dists: Labels): nat {
    if nodes == [] then 0 else (if nodes[0] in dists then dists[nodes[0]].dist else 0) + LabelSum(nodes[1..], dists)
  }

  lemma {:induction false} NewLabel(nodes: seq<Node>, dists: Labels, w: Node, l: Label)
    requires w !in dists
    ensures Unlabelled(nodes, dists[w := l]) <= Unlabelled(nodes, dists)
    ensures w in nodes ==> Unlabelled(nodes, dists[w := l]) < Unlabelled(nodes, dists)
  {
    if nodes != [] { NewLabel(nodes[1..], dists, w, l); }
  }

  lemma {:induction false} BetterLabel(nodes: seq<Node>, dists: Labels, w: Node, l: Label)
    requires w in dists && l.dist < dists[w].dist
    ensures Unlabelled(nodes, dists[w := l]) == Unlabelled(nodes, dists)
    ensures LabelSum(nodes, dists[w := l]) <= LabelSum(nodes, dists)
    ensures w in nodes ==> LabelSum(nodes, dists[w := l]) < LabelSum(nodes, dists)
  {
    if nodes != [] { BetterLabel(nodes[1..], dists, w, l); }
  }

  // ----- relaxation -----

  lemma ExtendWalk(g: Graph, p: seq<Node>, curr: Node, node: Node)
    requires Leads(g, p, curr) && g.Edge(curr, node)
    ensures Leads(g, p + [node], node)
  {
    var q := p + [node];
    forall i | 0 <= i < |q| - 1 ensures g.Edge(q[i], q[i + 1]) {
      if i < |p| - 1 { assert q[i + 1] == p[i + 1]; }
    }
  }

  ghost function Improved(dists: Labels, curr: Node, node: Node): Labels
    requires curr in dists
  {
    dists[node := Label(dists[curr].dist + 1, Some(curr))]
  }

  lemma ImprovedWalk(g: Graph, dists: Labels, curr: Node, node: Node)
    requires curr in dists && Walked(g, dists, curr) && g.Edge(curr, node)
    ensures Walked(g, Improved(dists, curr, node), node)
  {
    var p :| Leads(g, p, curr) && |p| == dists[curr].dist + 1;
    ExtendWalk(g, p, curr, node);
    assert |p + [node]| == dists[curr].dist + 2;
  }

  ghost predicate Shorter(dists: Labels, curr: Node, node: Node)
    requires curr in dists
  {
    node !in dists || dists[curr].dist + 1 < dists[node].dist
  }

  lemma ImprovedParent(g: Graph, dists: Labels, curr: Node, node: Node, v: Node)
    requires curr in dists && g.Edge(curr, node) && Shorter(dists, curr, node)
    requires v in Improved(dists, curr, node) && (v != node ==> SoundParent(g, dists, v))
    ensures SoundParent(g, Improved(dists, curr, node), v)
  {}

  /** Recording a shorter way keeps the labels sound. */
  lemma Improve(g: Graph, dists: Labels, curr: Node, node: Node)
    requires Sound(g, dists) && curr in dists && g.Edge(curr, node) && Shorter(dists, curr, node)
    ensures Sound(g, Improved(dists, curr, node))
  {
    var d := Improved(dists, curr, node);
    forall v | v in d ensures Walked(g, d, v) && SoundParent(g, d, v) {
      if v == node { ImprovedWalk(g, dists, curr, node); } else { assert Walked(g, dists, v); }
      ImprovedParent(g, dists, curr, node, v);
    }
    forall v | g.Genesis(v) ensures v in d && d[v].dist == 0 {
      assert v != node;
    }
  }

  lemma ImproveKeepsRelaxed(g: Graph, dists: Labels, curr: Node, node: Node, v: Node)
    requires curr in dists && v in dists && v != node && Shorter(dists, curr, node) && Relaxed(g, dists, v)
    ensures Relaxed(g, Improved(dists, curr, node), v)
  {
    forall w | w in g.Children(v) ensures RelaxedEdge(Improved(dists, curr, node), v, w) {
      assert RelaxedEdge(dists, v, w);
    }
  }

  /** Only states on the stack, and possibly curr, may have successors with too large a label. */
  ghost predicate Settled(g: Graph, dists: Labels, stack: seq<Node>, curr: Option<Node>) {
    && (forall v :: v in stack ==> v in dists)
    && (forall v {:trigger Relaxed(g, dists, v)} ::
          v in dists && v !in stack && Some(v) != curr ==> Relaxed(g, dists, v))
  }

  lemma ImproveKeepsSettled(g: Graph, dists: Labels, stack: seq<Node>, curr: Node, node: Node)
    requires curr in dists && Shorter(dists, curr, node) && Settled(g, dists, stack, Some(curr))
    ensures Settled(g, Improved(dists, curr, node), stack + [node], Some(curr))
  {
    var d := Improved(dists, curr, node);
    forall v | v in d && v !in stack + [node] && v != curr ensures Relaxed(g, d, v) {
      ImproveKeepsRelaxed(g, dists, curr, node, v);
    }
  }

  /** Fewer unlabelled states, or as many and smaller labels. */
  ghost predicate Progress(nodes: seq<Node>, before: Labels, after: Labels) {
    || Unlabelled(nodes, after) < Unlabelled(nodes, before)
    || (Unlabelled(nodes, after) == Unlabelled(nodes, before) && LabelSum(nodes, after) < LabelSum(nodes, before))
  }

  lemma ImproveIsProgress(g: Graph, dists: Labels, curr: Node, node: Node)
    requires g.Valid() && curr in dists && g.Edge(curr, node) && Shorter(dists, curr, node)
    ensures Progress(AllChildren(g, g.keys), dists, Improved(dists, curr, node))
  {
    var nodes, l := AllChildren(g, g.keys), Label(dists[curr].dist + 1, Some(curr));
    ChildListed(g, g.keys, curr, node);
    if node in dists { BetterLabel(nodes, dists, node, l); } else { NewLabel(nodes, dists, node, l); }
  }

  /** The state of the search: labels, the stack, and the labelled states in insertion order. */
  datatype State = State(dists: Labels, frontier: seq<Node>, order: seq<Node>)

  ghost predicate Inv(g: Graph, s: State, curr: Option<Node>) {
    && Sound(g, s.dists)
    && Settled(g, s.dists, s.frontier, curr)
    && (forall n :: n in s.order <==> n in s.dists)
  }

  function Improvement(s: State, curr: Node, node: Node): State
    requires curr in s.dists
  {
    State(s.dists[node := Label(s.dists[curr].dist + 1, Some(curr))],
      s.frontier + [node],
      if node in s.dists then s.order else s.order + [node])
  }

  lemma ImprovementOrder(s: State, curr: Node, node: Node)
    requires curr in s.dists && forall n :: n in s.order <==> n in s.dists
    ensures var r := Improvement(s, curr, node);
            r.dists == Improved(s.dists, curr, node) && forall n :: n in r.order <==> n in r.dists
  {}

  lemma ImprovementKeepsInv(g: Graph, s: State, curr: Node, node: Node)
    requires Inv(g, s, Some(curr)) && curr in s.dists && g.Edge(curr, node) && Shorter(s.dists, curr, node)
    ensures Inv(g, Improvement(s, curr, node), Some(curr))
  {
    Improve(g, s.dists, curr, node);
    ImproveKeepsSettled(g, s.dists, s.frontier, curr, node);
    ImprovementOrder(s, curr, node);
  }

  /** Labels of the first i successors allow for a step from curr. */
  ghost predicate RelaxedUpTo(dists: Labels, curr: Node, nxt: seq<Node>, i: nat)
    requires curr in dists && i <= |nxt|
  {
    forall k :: 0 <= k < i ==> RelaxedEdge(dists, curr, nxt[k])
  }

  lemma ImprovementRelaxes(dists: Labels, curr: Node, nxt: seq<Node>, i: nat)
    requires curr in dists && i < |nxt| && RelaxedUpTo(dists, curr, nxt, i) && Shorter(dists, curr, nxt[i])
    ensures RelaxedUpTo(Improved(dists, curr, nxt[i]), curr, nxt, i + 1)
  {
    var d := Improved(dists, curr, nxt[i]);
    forall k | 0 <= k < i + 1 ensures RelaxedEdge(d, curr, nxt[k]) {
      if k < i { assert RelaxedEdge(dists, curr, nxt[k]); }
    }
  }

  /** One turn of the inner loop. */
  function RelaxEdge(s: State, curr: Node, node: Node): State
    requires curr in s.dists
  {
    if node !in s.dists || s.dists[curr].dist + 1 < s.dists[node].dist then Improvement(s, curr, node) else s
  }

  ghost predicate Turned(g: Graph, start: State, s: State, curr: Node, i: nat)
    requires i <= |g.Children(curr)|
  {
    && Inv(g, s, Some(curr))
    && curr in s.dists
    && RelaxedUpTo(s.dists, curr, g.Children(curr), i)
    && (s == start || Progress(AllChildren(g, g.keys), start.dists, s.dists))
  }

  lemma TurnRelaxes(dists: Labels, curr: Node, nxt: seq<Node>, i: nat)
    requires curr in dists && i < |nxt| && RelaxedUpTo(dists, curr, nxt, i) && !Shorter(dists, curr, nxt[i])
    ensures RelaxedUpTo(dists, curr, nxt, i + 1)
  {}

  lemma TurnProgresses(g: Graph, start: State, s: State, curr: Node, node: Node)
    requires g.Valid() && curr in s.dists && g.Edge(curr, node) && Shorter(s.dists, curr, node)
    requires s == start || Progress(AllChildren(g, g.keys), start.dists, s.dists)
    ensures Progress(AllChildren(g, g.keys), start.dists, Improvement(s, curr, node).dists)
  {
    ImproveIsProgress(g, s.dists, curr, node);
  }

  lemma Turn(g: Graph, start: State, s: State, curr: Node, i: nat)
    requires g.Valid() && i < |g.Children(curr)| && Turned(g, start, s, curr, i)
    ensures Turned(g, start, RelaxEdge(s, curr, g.Children(curr)[i]), curr, i + 1)
  {
    var nxt := g.Children(curr);
    var node := nxt[i];
    if Shorter(s.dists, curr, node) {
      var t := Improvement(s, curr, node);
      assert RelaxEdge(s, curr, node) == t && curr in t.dists;
      assert Inv(g, t, Some(curr)) by { ImprovementKeepsInv(g, s, curr, node); }
      assert RelaxedUpTo(t.dists, curr, nxt, i + 1) by { ImprovementRelaxes(s.dists, curr, nxt, i); }
      TurnProgresses(g, start, s, curr, node);
    } else {
      assert RelaxEdge(s, curr, node) == s;
      TurnRelaxes(s.dists, curr, nxt, i);
    }
  }

  /** The body of the search loop: look at all successors of the state just popped. */
  method RelaxFrom(g: Graph, curr: Node, start: State) returns (s: State)
    requires g.Valid() && Inv(g, start, Some(curr)) && curr in start.dists
    ensures Inv(g, s, None)
    ensures s == start || Progress(AllChildren(g, g.keys), start.dists, s.dists)
  {
    s := start;
    var nxt := g.Children(curr);
    for i := 0 to |nxt|
      invariant Turned(g, start, s, curr, i)
    {
      Turn(g, start, s, curr, i);
      s := RelaxEdge(s, curr, nxt[i]);
    }
    CurrIsRelaxed(g, s, curr);
  }

  lemma CurrIsRelaxed(g: Graph, s: State, curr: Node)
    requires Inv(g, s, Some(curr)) && curr in s.dists
    requires RelaxedUpTo(s.dists, curr, g.Children(curr), |g.Children(curr)|)
    ensures Inv(g, s, None)
  {
    forall w | w in g.Children(curr) ensures RelaxedEdge(s.dists, curr, w) {
      var k :| 0 <= k < |g.Children(curr)| && g.Children(curr)[k] == w;
    }
  }

  ghost predicate Done(g: Graph, dists: Labels) {
    Sound(g, dists) && forall v {:trigger Relaxed(g, dists, v)} :: v in dists ==> Relaxed(g, dists, v)
  }

  lemma PopKeepsInv(g: Graph, s: State)
    requires Inv(g, s, None) && s.frontier != []
    ensures var n := |s.frontier| - 1;
            Inv(g, s.(frontier := s.frontier[..n]), Some(s.frontier[n])) && s.frontier[n] in s.dists
  {
    var n := |s.frontier| - 1;
    assert s.frontier == s.frontier[..n] + [s.frontier[n]];
  }

  method Search(g: Graph, genesis: seq<Node>) returns (s: State)
    requires g.Valid() && forall n :: n in genesis <==> g.Genesis(n)
    ensures Done(g, s.dists)
    ensures forall n :: n in s.order <==> n in s.dists
  {
    s := Start(g, genesis);
    while |s.frontier| != 0
      invariant Inv(g, s, None)
      decreases Unlabelled(AllChildren(g, g.keys), s.dists), LabelSum(AllChildren(g, g.keys), s.dists), |s.frontier|
    {
      PopKeepsInv(g, s);
      var n := |s.frontier| - 1;
      s := RelaxFrom(g, s.frontier[n], s.(frontier := s.frontier[..n]));
    }
  }

  method Start(g: Graph, genesis: seq<Node>) returns (s: State)
    requires forall n :: n in genesis <==> g.Genesis(n)
    ensures Inv(g, s, None)
  {
    var dists: Labels, order := map[], [];
    for i := 0 to |genesis|
      invariant forall n :: n in order <==> n in dists
      invariant forall n :: n in dists <==> n in genesis[..i]
      invariant forall n :: n in dists ==> dists[n] == Label(0, None)
    {
      if genesis[i] !in dists {
        order := order + [genesis[i]];
      }
      dists := dists[genesis[i] := Label(0, None)];
    }
    assert genesis[..|genesis|] == genesis;
    StartIsSound(g, genesis, dists);
    s := State(dists, genesis, order);
  }

  lemma StartIsSound(g: Graph, genesis: seq<Node>, dists: Labels)
    requires forall n :: n in genesis <==> g.Genesis(n)
    requires forall n :: n in dists <==> n in genesis
    requires forall n :: n in dists ==> dists[n] == Label(0, None)
    ensures Sound(g, dists) && Settled(g, dists, genesis, None)
  {
    forall v | v in dists ensures Walked(g, dists, v) {
      assert Leads(g, [v], v) && |[v]| == dists[v].dist + 1;
    }
  }

  // ----- relaxed labels are distances -----

  lemma {:induction false} LabelBelowWalk(g: Graph, dists: Labels, p: seq<Node>, i: nat)
    requires Done(g, dists) && Walk(g, p) && g.Genesis(p[0]) && i < |p|
    ensures p[i] in dists && dists[p[i]].dist <= i
  {
    if i > 0 {
      LabelBelowWalk(g, dists, p, i - 1);
      assert g.Edge(p[i - 1], p[i]);
      assert Relaxed(g, dists, p[i - 1]);
      assert RelaxedEdge(dists, p[i - 1], p[i]);
    }
  }

  /** When the stack is empty, exactly the reachable states are labelled, each with its distance. */
  lemma LabelsAreDistances(g: Graph, dists: Labels, v: Node)
    requires Done(g, dists)
    ensures v in dists <==> Reachable(g, v)
    ensures v in dists ==> Distance(g, v, dists[v].dist)
  {
    if v in dists { assert Walked(g, dists, v); }
    forall p | Leads(g, p, v) ensures v in dists && dists[v].dist + 1 <= |p| {
      LabelBelowWalk(g, dists, p, |p| - 1);
    }
  }

  /** A parent is exactly one step closer; only genesis states have none. */
  lemma ParentIsCloser(g: Graph, dists: Labels, v: Node)
    requires Done(g, dists) && v in dists
    ensures match dists[v].parent
            case None => dists[v].dist == 0 && g.Genesis(v)
            case Some(q) => q in dists && g.Edge(q, v) && dists[v].dist == dists[q].dist + 1
  {
    assert SoundParent(g, dists, v);
    match dists[v].parent
    case None =>
      assert Walked(g, dists, v);
    case Some(q) =>
      assert Relaxed(g, dists, q);
      assert RelaxedEdge(dists, q, v);
  }

  // ----- the farthest state and the way back -----

  /** The first of the states with the greatest label, in insertion order. */
  method Farthest(dists: Labels, order: seq<Node>) returns (k: nat)
    requires order != [] && forall n :: n in order ==> n in dists
    ensures k < |order|
    ensures forall j :: 0 <= j < |order| ==> dists[order[j]].dist <= dists[order[k]].dist
    ensures forall j :: 0 <= j < k ==> dists[order[j]].dist < dists[order[k]].dist
  {
    k := 0;
    for i := 1 to |order|
      invariant k < i
      invariant forall j :: 0 <= j < i ==> dists[order[j]].dist <= dists[order[k]].dist
      invariant forall j :: 0 <= j < k ==> dists[order[j]].dist < dists[order[k]].dist
    {
      if dists[order[i]].dist > dists[order[k]].dist {
        k := i;
      }
    }
  }

  function Reversed(s: seq<Node>): (r: seq<Node>)
    ensures |r| == |s|
  {
    seq(|s|, i requires 0 <= i < |s| => s[|s| - 1 - i])
  }

  ghost predicate Back(g: Graph, dists: Labels, end: Node, path: seq<Node>)
    requires end in dists
  {
    && (path != [] ==> path[0] == end)
    && (forall i :: 0 <= i < |path| ==> path[i] in dists && dists[path[i]].dist + i == dists[end].dist)
    && (forall i :: 0 < i < |path| ==> g.Edge(path[i], path[i - 1]))
  }

  lemma BackStep(g: Graph, dists: Labels, end: Node, back: seq<Node>, c: Node)
    requires Done(g, dists) && end in dists && c in dists && Back(g, dists, end, back + [c])
    ensures match dists[c].parent
            case None => g.Genesis(c) && |back + [c]| == dists[end].dist + 1
            case Some(q) => q in dists && dists[q].dist < dists[c].dist && Back(g, dists, end, back + [c] + [q])
  {
    ParentIsCloser(g, dists, c);
    assert (back + [c])[|back|] == c;
  }

  lemma BackIsWalk(g: Graph, dists: Labels, end: Node, back: seq<Node>)
    requires end in dists && back != [] && Back(g, dists, end, back) && g.Genesis(back[|back| - 1])
    ensures Leads(g, Reversed(back), end)
  {
    var path := Reversed(back);
    forall i | 0 <= i < |path| - 1 ensures g.Edge(path[i], path[i + 1]) {
      assert g.Edge(back[|back| - 1 - i], back[|back| - 2 - i]);
    }
  }

  method TraceBack(g: Graph, dists: Labels, end: Node) returns (path: seq<Node>)
    requires Done(g, dists) && end in dists && "" !in dists
    ensures Leads(g, path, end) && |path| == dists[end].dist + 1
  {
    var back: seq<Node> := [];
    var curr := Some(end);
    while curr.Some?
      invariant curr.Some? ==> curr.value in dists && Back(g, dists, end, back + [curr.value])
      invariant curr.None? ==> back != [] && Back(g, dists, end, back) && g.Genesis(back[|back| - 1])
      invariant curr.None? ==> |back| == dists[end].dist + 1
      decreases if curr.Some? then dists[curr.value].dist + 1 else 0
    {
      BackStep(g, dists, end, back, curr.value);
      back := back + [curr.value];
      var nxt := dists[curr.value].parent;
      if nxt.Some? && nxt.value != "" {
        curr := nxt;
      } else {
        curr := None;
      }
    }
    BackIsWalk(g, dists, end, back);
    path := Reversed(back);
  }

  /** A walk from a genesis state, as long as the distance to its end, which is the greatest. */
  ghost predicate FarthestWalk(g: Graph, path: seq<Node>) {
    && path != []
    && Leads(g, path, path[|path| - 1])
    && Distance(g, path[|path| - 1], |path| - 1)
    && forall v, d: nat :: Distance(g, v, d) ==> d <= |path| - 1
  }

  lemma NamesInLabels(g: Graph, dists: Labels)
    requires g.Named() && Done(g, dists)
    ensures "" !in dists
  {
    if "" in dists { ParentIsCloser(g, dists, ""); }
  }

  lemma DistanceIsLabel(g: Graph, dists: Labels, v: Node, d: nat)
    requires Done(g, dists) && Distance(g, v, d)
    ensures v in dists && dists[v].dist == d
  {
    LabelsAreDistances(g, dists, v);
    var p :| Leads(g, p, v) && |p| == d + 1;
    assert Reachable(g, v);
    var q :| Leads(g, q, v) && |q| == dists[v].dist + 1;
  }

  lemma FarthestIsFarthest(g: Graph, dists: Labels, end: Node, path: seq<Node>)
    requires Done(g, dists) && end in dists && Leads(g, path, end) && |path| == dists[end].dist + 1
    requires forall v :: v in dists ==> dists[v].dist <= dists[end].dist
    ensures FarthestWalk(g, path)
  {
    LabelsAreDistances(g, dists, end);
    forall v, d: nat | Distance(g, v, d) ensures d <= |path| - 1 {
      DistanceIsLabel(g, dists, v, d);
    }
  }

  /** The maximum of an empty dictionary raises an error: that is the case without genesis states. */
  method LongestPath(g: Graph) returns (r: Option<seq<Node>>)
    requires g.Valid() && g.Named()
    ensures r.None? <==> forall n :: !g.Genesis(n)
    ensures r.Some? ==> FarthestWalk(g, r.value)
  {
    var genesis := GenesisPoints(g);
    var s := Search(g, genesis);
    if s.order == [] {
      return None;
    }
    var k := Farthest(s.dists, s.order);
    var end := s.order[k];
    NamesInLabels(g, s.dists);
    var path := TraceBack(g, s.dists, end);
    FarthestIsFarthest(g, s.dists, end, path);
    return Some(path);
  }

  // ----- when the farthest walk is the longest -----

  /** No walk from a genesis state is longer. */
  ghost predicate Longest(g: Graph, path: seq<Node>) { forall q, v :: Leads(g, q, v) ==> |q| <= |path| }

  /** A numbering of the reachable states, up to some bound, that rises along every edge. */
  ghost predicate Rises(g: Graph, f: Node -> nat, bound: nat) {
    && (forall v :: Reachable(g, v) ==> f(v) <= bound)
    && (forall a, b :: Reachable(g, a) && g.Edge(a, b) ==> f(a) < f(b))
  }

  ghost predicate Numbered(g: Graph, bound: nat) { exists f: Node -> nat :: Rises(g, f, bound) }

  lemma WalkPrefix(g: Graph, q: seq<Node>, i: nat)
    requires Walk(g, q) && g.Genesis(q[0]) && i < |q|
    ensures Leads(g, q[..i + 1], q[i])
  {
    assert forall j :: 0 <= j < i ==> g.Edge(q[j], q[j + 1]);
  }

  lemma {:induction false} WalkRises(g: Graph, f: Node -> nat, bound: nat, q: seq<Node>, i: nat)
    requires Rises(g, f, bound) && Walk(g, q) && g.Genesis(q[0]) && i < |q|
    ensures i <= f(q[i]) <= bound
  {
    WalkPrefix(g, q, i);
    if i > 0 {
      WalkRises(g, f, bound, q, i - 1);
      WalkPrefix(g, q, i - 1);
      assert g.Edge(q[i - 1], q[i]);
    }
  }

  ghost predicate Walkable(g: Graph, v: Node, d: nat) { exists q :: Leads(g, q, v) && |q| == d + 1 }

  /** The most steps, up to a bound, that a walk to the state takes. */
  ghost function MostSteps(g: Graph, v: Node, bound: nat): (d: nat)
    ensures d <= bound
    ensures forall e :: d < e <= bound ==> !Walkable(g, v, e)
    ensures d > 0 ==> Walkable(g, v, d)
  {
    if bound == 0 || Walkable(g, v, bound) then bound else MostSteps(g, v, bound - 1)
  }

  lemma StepRises(g: Graph, a: Node, b: Node, path: seq<Node>)
    requires path != [] && Longest(g, path) && Reachable(g, a) && g.Edge(a, b)
    ensures MostSteps(g, a, |path| - 1) < MostSteps(g, b, |path| - 1)
  {
    var q := MostWalk(g, a, |path| - 1);
    ExtendWalk(g, q, a, b);
    assert |q + [b]| <= |path|;
    assert Walkable(g, b, |q|);
  }

  lemma MostWalk(g: Graph, v: Node, bound: nat) returns (q: seq<Node>)
    requires Reachable(g, v)
    ensures Leads(g, q, v) && |q| > MostSteps(g, v, bound)
  {
    var d := MostSteps(g, v, bound);
    if d > 0 { q :| Leads(g, q, v) && |q| == d + 1; } else { q :| Leads(g, q, v); }
  }

  /** Exactly then: the walk is a longest one if and only if the reachable states can be numbered
      up to its length so that every edge rises. */
  lemma LongestExactly(g: Graph, path: seq<Node>)
    requires path != []
    ensures Longest(g, path) <==> Numbered(g, |path| - 1)
  {
    if Longest(g, path) {
      var f: Node -> nat := v => MostSteps(g, v, |path| - 1);
      forall a, b | Reachable(g, a) && g.Edge(a, b) ensures f(a) < f(b) { StepRises(g, a, b, path); }
      assert Rises(g, f, |path| - 1);
    }
    if Numbered(g, |path| - 1) {
      var bound := |path| - 1;
      var f: Node -> nat :| Rises(g, f, bound);
      forall q, v | Leads(g, q, v) ensures |q| <= |path| { WalkRises(g, f, bound, q, |q| - 1); }
    }
  }

  /** Every edge between reachable states leads one step farther away. */
  ghost predicate Layered(g: Graph) {
    forall a, b, d: nat :: Distance(g, a, d) && g.Edge(a, b) ==> Distance(g, b, d + 1)
  }

  lemma {:induction false} LayeredWalk(g: Graph, q: seq<Node>, v: Node)
    requires Layered(g) && Leads(g, q, v)
    ensures Distance(g, v, |q| - 1)
  {
    var k := |q| - 1;
    if k > 0 {
      WalkPrefix(g, q, k - 1);
      LayeredWalk(g, q[..k], q[k - 1]);
      assert g.Edge(q[k - 1], q[k]);
    }
  }

  /** Walks to the same state are equally long. */
  ghost predicate OneLength(g: Graph) {
    forall p, q, v :: Leads(g, p, v) && Leads(g, q, v) ==> |p| == |q|
  }

  lemma LayeredExactly(g: Graph)
    ensures Layered(g) <==> OneLength(g)
  {
    if Layered(g) {
      forall p, q, v | Leads(g, p, v) && Leads(g, q, v) ensures |p| == |q| {
        LayeredWalk(g, p, v);
        LayeredWalk(g, q, v);
      }
    }
    if OneLength(g) {
      forall a, b, d: nat | Distance(g, a, d) && g.Edge(a, b) ensures Distance(g, b, d + 1) {
        var p :| Leads(g, p, a) && |p| == d + 1;
        ExtendWalk(g, p, a, b);
        assert Leads(g, p + [b], b) && |p + [b]| == d + 2;
      }
    }
  }

  /** Then no walk from a genesis state is longer, and the walk ends at a leaf. */
  lemma FarthestIsLongest(g: Graph, path: seq<Node>)
    requires Layered(g) && FarthestWalk(g, path)
    ensures Longest(g, path)
    ensures g.Children(path[|path| - 1]) == []
  {
    forall q, v | Leads(g, q, v) ensures |q| <= |path| { LayeredWalk(g, q, v); }
    var end := path[|path| - 1];
    if g.Children(end) != [] {
      var w := g.Children(end)[0];
      ExtendWalk(g, path, end, w);
    }
  }

  /** Every state has at most one predecessor, as in a log of a single evolution. */
  ghost predicate UniqueParents(g: Graph) {
    forall a, b, n :: g.Edge(a, n) && g.Edge(b, n) ==> a == b
  }

  lemma {:induction false} WalksAgree(g: Graph, p: seq<Node>, q: seq<Node>, v: Node)
    requires UniqueParents(g) && Leads(g, p, v) && Leads(g, q, v)
    ensures |p| == |q|
    decreases |p|
  {
    var m, n := |p| - 1, |q| - 1;
    if m > 0 { assert g.Edge(p[m - 1], p[m]); }
    if n > 0 { assert g.Edge(q[n - 1], q[n]); }
    if m > 0 && n > 0 {
      assert p[m - 1] == q[n - 1];
      WalksAgree(g, p[..m], q[..n], p[m - 1]);
    }
  }

  /** A log of a single evolution is layered, so the result is a longest walk. */
  lemma UniqueParentsLayered(g: Graph)
    requires UniqueParents(g)
    ensures Layered(g)
  {
    forall p, q, v | Leads(g, p, v) && Leads(g, q, v) ensures |p| == |q| { WalksAgree(g, p, q, v); }
    LayeredExactly(g);
  }

  lemma FarthestAgree(g: Graph, p: seq<Node>, q: seq<Node>)
    requires FarthestWalk(g, p) && FarthestWalk(g, q)
    ensures |p| == |q|
  {
    assert Distance(g, p[|p| - 1], |p| - 1) && Distance(g, q[|q| - 1], |q| - 1);
  }

  /** The first two states lead to the third, the first also to the second. */
  const SHORTCUT := Graph(["a", "b"], map["a" := ["b", "c"], "b" := ["c"]])

  lemma ShortcutWalks()
    ensures SHORTCUT.Valid() && SHORTCUT.Named()
    ensures Leads(SHORTCUT, ["a"], "a") && Leads(SHORTCUT, ["a", "b"], "b")
    ensures Leads(SHORTCUT, ["a", "c"], "c") && Leads(SHORTCUT, ["a", "b", "c"], "c")
  {
    var g := SHORTCUT;
    assert g.Edge("a", "b") && g.Edge("a", "c") && g.Edge("b", "c");
    assert g.Genesis("a");
  }

  lemma ShortcutDone(dists: Labels)
    requires dists == map["a" := Label(0, None), "b" := Label(1, Some("a")), "c" := Label(1, Some("a"))]
    ensures Done(SHORTCUT, dists)
  {
    ShortcutLabels(dists);
    ShortcutWalked(dists);
  }

  lemma ShortcutWalked(dists: Labels)
    requires dists == map["a" := Label(0, None), "b" := Label(1, Some("a")), "c" := Label(1, Some("a"))]
    ensures forall v :: v in dists ==> Walked(SHORTCUT, dists, v)
  {
    ShortcutWalks();
    var a, b, c: seq<Node> := ["a"], ["a", "b"], ["a", "c"];
    assert |a| == 1 && |b| == 2 && |c| == 2;
  }

  lemma ShortcutLabels(dists: Labels)
    requires dists == map["a" := Label(0, None), "b" := Label(1, Some("a")), "c" := Label(1, Some("a"))]
    ensures forall v :: v in dists ==> SoundParent(SHORTCUT, dists, v) && Relaxed(SHORTCUT, dists, v)
    ensures forall v :: SHORTCUT.Genesis(v) ==> v in dists && dists[v].dist == 0
  {
    var g := SHORTCUT;
    assert g.Children("a") == ["b", "c"] && g.Children("b") == ["c"] && g.Children("c") == [];
    assert g.Edge("a", "b") && g.Edge("a", "c");
    forall v | g.Genesis(v) ensures v == "a" {}
  }

  /** With a shortcut every result the search may return is shorter than the longest walk. */
  lemma ShortcutHidesLongest()
    ensures SHORTCUT.Valid() && SHORTCUT.Named()
    ensures exists q :: FarthestWalk(SHORTCUT, q)
    ensures forall q :: FarthestWalk(SHORTCUT, q) ==> |q| == 2
    ensures Leads(SHORTCUT, ["a", "b", "c"], "c")
  {
    ShortcutWalks();
    var dists: Labels := map["a" := Label(0, None), "b" := Label(1, Some("a")), "c" := Label(1, Some("a"))];
    ShortcutDone(dists);
    var p: seq<Node> := ["a", "c"];
    assert |p| == 2;
    FarthestIsFarthest(SHORTCUT, dists, "c", p);
    forall q | FarthestWalk(SHORTCUT, q) ensures |q| == 2 { FarthestAgree(SHORTCUT, p, q); }
  }
}
