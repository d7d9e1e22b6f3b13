/** Whole runs of the time map, against the plain map from times to sets of items. */
module TimeRuns {
  import opened Basics
  import opened FixedPoint
  import opened Trie
  import opened TrieCanon
  import opened TimeKeys
  import opened TimeFilter

  datatype Op<T> =
    | InsertAt(t: U64, item: T)
    | UpsertAt(t: U64, items: set<T>)
    | FilterAt(cutoff: U64)

  ghost function Apply<T>(m: TimeMap<T>, op: Op<T>): TimeMap<T>
    requires Shaped(m.entries)
  {
    match op
    case InsertAt(t, item) => TimeFilter.Insert(m, t, item)
    case UpsertAt(t, items) => Upsert(m, t, items)
    case FilterAt(cutoff) => Filter(m, cutoff)
  }

  lemma ApplyValid<T>(m: TimeMap<T>, op: Op<T>)
    requires Valid(m)
    ensures Valid(Apply(m, op))
  {
    match op
    case InsertAt(t, item) => InsertKeeps(m, t, item);
    case UpsertAt(t, items) => UpsertKeeps(m, t, items);
    case FilterAt(cutoff) => FilterKeeps(m, cutoff);
  }

  ghost function Run<T>(ops: seq<Op<T>>): (m: TimeMap<T>)
    ensures Valid(m)
  {
    if ops == [] then New() else
    var m := Run(ops[..|ops| - 1]);
    ApplyValid(m, ops[|ops| - 1]);
    Apply(m, ops[|ops| - 1])
  }

  // ----- the plain map -----

  ghost function Under<T>(times: map<U64, set<T>>, t: U64): set<T> { if t in times then times[t] else {} }

  ghost function Next<T>(times: map<U64, set<T>>, op: Op<T>): map<U64, set<T>> {
    match op
    case InsertAt(t, item) => times[t := {item}]
    case UpsertAt(t, items) => times[t := Under(times, t) + items]
    case FilterAt(cutoff) => map t | t in times && t >= cutoff :: times[t]
  }

  ghost function Times<T>(ops: seq<Op<T>>): map<U64, set<T>> {
    if ops == [] then map[] else Next(Times(ops[..|ops| - 1]), ops[|ops| - 1])
  }

  ghost predicate Agrees<T>(m: TimeMap<T>, times: map<U64, set<T>>)
    requires Shaped(m.entries)
  {
    forall t: U64 :: At(m, t) == if t in times then Some(times[t]) else None
  }

  lemma ApplyAgrees<T>(m: TimeMap<T>, times: map<U64, set<T>>, op: Op<T>)
    requires Valid(m) && Agrees(m, times)
    ensures Valid(Apply(m, op)) && Agrees(Apply(m, op), Next(times, op))
  {
    match op
    case InsertAt(t, item) => InsertKeeps(m, t, item);
    case UpsertAt(t, items) => UpsertKeeps(m, t, items);
    case FilterAt(cutoff) => FilterKeeps(m, cutoff);
  }

  /** After any run, the trie holds the plain map. */
  lemma {:induction false} RunAgrees<T>(ops: seq<Op<T>>)
    ensures Agrees(Run(ops), Times(ops))
  {
    if ops == [] {
      assert Run(ops).entries == Empty;
    } else {
      RunAgrees(ops[..|ops| - 1]);
      ApplyAgrees(Run(ops[..|ops| - 1]), Times(ops[..|ops| - 1]), ops[|ops| - 1]);
    }
  }

  /** Runs that leave the same map leave the same trie. */
  lemma RunForgotten<T>(ops: seq<Op<T>>, ops': seq<Op<T>>)
    requires Times(ops) == Times(ops')
    ensures Run(ops).entries == Run(ops').entries
  {
    var s, t := Run(ops).entries, Run(ops').entries;
    forall q ensures Lookup(s, q) == Lookup(t, q) {
      RunAgrees(ops);
      RunAgrees(ops');
      if Lookup(s, q).Some? || Lookup(t, q).Some? {
        var u: U64 :| q == Key(u);
        assert At(Run(ops), u) == At(Run(ops'), u);
      }
    }
    Unique(s, t);
  }

  /** The latest time in the map that is not after the given one. */
  ghost predicate Latest<T>(times: map<U64, set<T>>, t: U64, u: U64) {
    u in times && u <= t && forall v :: v in times && v <= t ==> v <= u
  }

  /** After any run, a query gives the container at the latest time not after the given one. */
  lemma RunGets<T>(ops: seq<Op<T>>, t: U64)
    ensures Get(Run(ops), t).Answer?
    ensures Get(Run(ops), t).items.None? ==> forall u :: u in Times(ops) ==> u > t
    ensures Get(Run(ops), t).items.Some? ==>
              exists u :: Latest(Times(ops), t, u) && Get(Run(ops), t).items.value == Times(ops)[u]
  {
    var m, times := Run(ops), Times(ops);
    RunAgrees(ops);
    GetNearest(m, t);
    if Get(m, t).items.Some? {
      var u: U64 :| NearestBefore(m, t, u) && At(m, u) == Get(m, t).items;
      forall v | v in times && v <= t ensures v <= u { assert At(m, v).Some?; }
      assert Latest(times, t, u);
    } else {
      forall u | u in times ensures u > t { assert At(m, u).Some?; }
    }
  }

  // ----- counting -----

  /** How often an item was added to a container that already had it. */
  ghost function Doubled<T>(ops: seq<Op<T>>, x: T): nat {
    if ops == [] then 0 else
    var before, op := ops[..|ops| - 1], ops[|ops| - 1];
    Doubled(before, x) + if op.UpsertAt? then Occurs(op.items * Under(Times(before), op.t), x) else 0
  }

  lemma {:induction false} RunExcess<T>(ops: seq<Op<T>>, x: T)
    ensures Excess(Run(ops), x) == Doubled(ops, x)
  {
    if ops != [] {
      var before, op := ops[..|ops| - 1], ops[|ops| - 1];
      var m := Run(before);
      RunExcess(before, x);
      match op
      case InsertAt(t, item) => InsertCounts(m, t, item, x);
      case UpsertAt(t, items) =>
        RunAgrees(before);
        assert At(m, t) == if t in Times(before) then Some(Times(before)[t]) else None;
        UpsertCounts(m, t, items, x);
      case FilterAt(cutoff) => FilterCounts(m, cutoff, x);
    }
  }

  ghost predicate InSome<T>(times: map<U64, set<T>>, x: T) { exists t :: t in times && x in times[t] }

  /** After any run, an item is found exactly if the map holds it, or if it was ever added where
      it already was. */
  lemma RunContains<T>(ops: seq<Op<T>>, x: T)
    ensures Contains(Run(ops), x) <==> InSome(Times(ops), x) || Doubled(ops, x) > 0
  {
    var m, times := Run(ops), Times(ops);
    RunAgrees(ops);
    RunExcess(ops, x);
    ContainedIsHeld(m, x);
    if Held(m, x) {
      var t: U64 :| x in ItemsAt(m, t);
      assert At(m, t).Some?;
      assert t in times && x in times[t];
    }
    if InSome(times, x) {
      var t :| t in times && x in times[t];
      assert At(m, t) == Some(times[t]);
      assert x in ItemsAt(m, t);
    }
  }

  /** So an item added twice at one time is still found when that time has been filtered out. */
  lemma DoubledLingers<T>(t: U64, cutoff: U64, x: T)
    requires t < cutoff
    ensures var ops := [UpsertAt(t, {x}), UpsertAt(t, {x}), FilterAt(cutoff)];
            Times(ops) == map[] && Contains(Run(ops), x)
  {
    var one := [UpsertAt(t, {x})];
    var two := [UpsertAt(t, {x}), UpsertAt(t, {x})];
    var ops := [UpsertAt(t, {x}), UpsertAt(t, {x}), FilterAt(cutoff)];
    assert one[..0] == [] && two[..1] == one && ops[..2] == two;
    assert Times(one) == Next(map[], one[0]) && Under(Times(one), t) == {x};
    assert Doubled(two, x) >= 1;
    assert Times(two) == Next(Times(one), two[1]) && Times(two).Keys == {t};
    RunContains(ops, x);
  }
}
