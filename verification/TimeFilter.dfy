/** The map from timestamps to containers of items, with a count of every item it holds. */
module TimeFilter {
  import opened Basics
  import opened FixedPoint
  import opened Trie
  import opened TrieMap
  import opened TrieCanon
  import opened TrieKeeps
  import opened TrieHistories
  import opened TrieSizes
  import opened TriePrune
  import opened TriePredecessor
  import opened TimeKeys

  // ----- counted sets -----

  /** An element whose count becomes zero, or would become less, is no longer in the map. */
  function RemoveN<T>(c: Counts<T>, x: T, n: nat): Counts<T> {
    if Count(c, x) <= n then c - {x} else c[x := Count(c, x) - n]
  }

  function Occurs<T>(items: set<T>, x: T): nat { if x in items then 1 else 0 }

  /** Each of the items once more. */
  function AddAll<T>(c: Counts<T>, items: set<T>): Counts<T> {
    map x | x in c.Keys + items :: Count(c, x) + Occurs(items, x)
  }

  /** Each of the items once less. */
  function TakeAll<T>(c: Counts<T>, items: set<T>): Counts<T> {
    map x | x in c && Count(c, x) > Occurs(items, x) :: Count(c, x) - Occurs(items, x)
  }

  function TakeEach<T>(c: Counts<T>, values: seq<set<T>>): Counts<T> {
    if values == [] then c
    else TakeAll(TakeEach(c, values[..|values| - 1]), values[|values| - 1])
  }

  /** The loops over the items of a container come to the same whatever order they take. */
  method InsertItems<T(==)>(c: Counts<T>, items: set<T>) returns (r: Counts<T>)
    ensures r == AddAll(c, items)
  {
    r := c;
    var rest := items;
    while rest != {}
      invariant rest <= items && r == AddAll(c, items - rest)
      decreases rest
    {
      var x :| x in rest;
      r := InsertOne(r, x);
      assert items - (rest - {x}) == items - rest + {x};
      rest := rest - {x};
    }
    assert items - {} == items;
  }

  method RemoveItems<T(==)>(c: Counts<T>, items: set<T>) returns (r: Counts<T>)
    requires Positive(c)
    ensures r == TakeAll(c, items)
  {
    r := c;
    var rest := items;
    while rest != {}
      invariant rest <= items && r == TakeAll(c, items - rest)
      decreases rest
    {
      var x :| x in rest;
      r := RemoveN(r, x, 1);
      assert items - (rest - {x}) == items - rest + {x};
      rest := rest - {x};
    }
    assert items - {} == items;
  }

  // ----- the map -----

  /** A container is the set of its items: any set, or one of a single item. */
  datatype TimeMap<!T> = TimeMap(entries: Node<set<T>>, counts: Counts<T>)

  function New<T>(): TimeMap<T> { TimeMap(Empty, map[]) }

  function At<T>(m: TimeMap<T>, t: U64): Option<set<T>>
    requires Shaped(m.entries)
  {
    Lookup(m.entries, Key(t))
  }

  function ItemsAt<T>(m: TimeMap<T>, t: U64): set<T>
    requires Shaped(m.entries)
  {
    match At(m, t) case None => {} case Some(items) => items
  }

  datatype Answer<T> = Panicked | Answer(items: Option<set<T>>)

  /** The container at the time, or else the one at the nearest time before. */
  function Get<T>(m: TimeMap<T>, t: U64): Answer<T>
    requires Shaped(m.entries)
  {
    match At(m, t)
    case Some(items) => Answer(Some(items))
    case None =>
      match Predecessor(m.entries, Key(t), [])
      case OutOfRange => Panicked
      case Best(None) => Answer(None)
      case Best(Some(found)) => Answer(Some(found.1))
  }

  /** A single item in the place of what was there. */
  function Insert<T>(m: TimeMap<T>, t: U64, x: T): TimeMap<T>
    requires Shaped(m.entries)
  {
    TimeMap(Trie.Insert(m.entries, Key(t), {x}).0, InsertOne(TakeAll(m.counts, ItemsAt(m, t)), x))
  }

  /** More items beside what is there. */
  function Upsert<T>(m: TimeMap<T>, t: U64, items: set<T>): TimeMap<T>
    requires Shaped(m.entries)
  {
    TimeMap(Trie.Insert(m.entries, Key(t), ItemsAt(m, t) + items).0, AddAll(m.counts, items))
  }

  /** Without the times before the cutoff. */
  function Filter<T>(m: TimeMap<T>, cutoff: U64): TimeMap<T>
    requires Shaped(m.entries)
  {
    var r := Prune(m.entries, Key(cutoff));
    TimeMap(r.0, TakeEach(m.counts, r.1))
  }

  method FilterLoop<T(==)>(m: TimeMap<T>, cutoff: U64) returns (r: TimeMap<T>)
    requires Shaped(m.entries) && Positive(m.counts)
    ensures r == Filter(m, cutoff)
  {
    var pruned := Prune(m.entries, Key(cutoff));
    var counts := m.counts;
    for i := 0 to |pruned.1|
      invariant Positive(counts) && counts == TakeEach(m.counts, pruned.1[..i])
    {
      counts := RemoveItems(counts, pruned.1[i]);
      assert pruned.1[..i + 1][..i] == pruned.1[..i];
    }
    assert pruned.1[..|pruned.1|] == pruned.1;
    r := TimeMap(pruned.0, counts);
  }

  predicate Contains<T(==)>(m: TimeMap<T>, x: T) { x in m.counts }

  // ----- what every operation keeps -----

  /** All paths are those of timestamps. */
  ghost predicate Timed<V>(n: Node<V>)
    requires Shaped(n)
  {
    forall q :: Lookup(n, q).Some? ==> exists t: U64 :: q == Key(t)
  }

  ghost predicate Valid<T>(m: TimeMap<T>) {
    Canonical(m.entries) && Shaped(m.entries) && Timed(m.entries) && Positive(m.counts)
  }

  ghost function Has<T>(x: T): set<T> -> nat { items => Occurs(items, x) }

  /** How much more often an item is counted than there are containers with it. */
  ghost function Excess<T>(m: TimeMap<T>, x: T): int { Count(m.counts, x) - Weight(m.entries, Has(x)) }

  lemma TimedIsClean<V>(n: Node<V>, t: U64)
    requires Canonical(n) && Shaped(n) && Timed(n)
    ensures !Degrades(n, Key(t)) && !EndsInside(n, Key(t))
  {
    forall q, r | Among(n, Key(t), q) && Among(n, Key(t), r) ensures Friendly(q, r, 0) {
      assert |q| == |r| == 16;
      ShortFriendly(q, r);
    }
    FriendlyIsClean(n, Key(t), 0);
    if EndsInside(n, Key(t)) { CleanSearch(n, Key(t)); }
  }

  /** A container put at a time changes what is there and nothing else. */
  lemma PutEntry<V>(n: Node<V>, t: U64, value: V)
    requires Canonical(n) && Shaped(n) && Timed(n)
    ensures var r := Trie.Insert(n, Key(t), value).0;
            && Canonical(r) && Shaped(r) && Timed(r)
            && forall u: U64 :: Lookup(r, Key(u)) == if u == t then Some(value) else Lookup(n, Key(u))
  {
    var r := Trie.Insert(n, Key(t), value).0;
    TimedIsClean(n, t);
    InsertProper(n, Key(t), value);
    InsertPuts(n, Key(t), value, []);
    forall q | Lookup(r, q).Some? ensures exists u: U64 :: q == Key(u) { InsertPuts(n, Key(t), value, q); }
    forall u: U64 ensures Lookup(r, Key(u)) == if u == t then Some(value) else Lookup(n, Key(u)) {
      InsertPuts(n, Key(t), value, Key(u));
      KeyOrder(t, u);
    }
  }

  lemma CutEntries<V>(n: Node<V>, cutoff: U64)
    requires Canonical(n) && Shaped(n) && Timed(n)
    ensures var r := Prune(n, Key(cutoff)).0;
            && Canonical(r) && Shaped(r) && Timed(r)
            && forall u: U64 :: Lookup(r, Key(u)) == if u < cutoff then None else Lookup(n, Key(u))
  {
    var r := Prune(n, Key(cutoff)).0;
    PruneCanonical(n, Key(cutoff));
    PruneCuts(n, Key(cutoff), []);
    forall q | Lookup(r, q).Some? ensures exists u: U64 :: q == Key(u) { PruneCuts(n, Key(cutoff), q); }
    forall u: U64 ensures Lookup(r, Key(u)) == if u < cutoff then None else Lookup(n, Key(u)) {
      PruneCuts(n, Key(cutoff), Key(u));
      KeyOrder(u, cutoff);
    }
  }

  lemma InsertKeeps<T>(m: TimeMap<T>, t: U64, x: T)
    requires Valid(m)
    ensures var r := Insert(m, t, x);
            Valid(r) && forall u: U64 :: At(r, u) == if u == t then Some({x}) else At(m, u)
  {
    PutEntry(m.entries, t, {x});
  }

  lemma UpsertKeeps<T>(m: TimeMap<T>, t: U64, items: set<T>)
    requires Valid(m)
    ensures var r := Upsert(m, t, items);
            Valid(r) && forall u: U64 :: At(r, u) == if u == t then Some(ItemsAt(m, t) + items) else At(m, u)
  {
    PutEntry(m.entries, t, ItemsAt(m, t) + items);
  }

  lemma {:induction false} TakeEachPositive<T>(c: Counts<T>, values: seq<set<T>>)
    requires Positive(c)
    ensures Positive(TakeEach(c, values))
  {
    if values != [] { TakeEachPositive(c, values[..|values| - 1]); }
  }

  lemma FilterKeeps<T>(m: TimeMap<T>, cutoff: U64)
    requires Valid(m)
    ensures var r := Filter(m, cutoff);
            Valid(r) && forall u: U64 :: At(r, u) == if u < cutoff then None else At(m, u)
  {
    CutEntries(m.entries, cutoff);
    TakeEachPositive(m.counts, Prune(m.entries, Key(cutoff)).1);
  }

  // ----- counting -----

  lemma ItemsWeigh<T>(m: TimeMap<T>, t: U64, x: T)
    requires Shaped(m.entries)
    ensures WeightOf(At(m, t), Has(x)) == Occurs(ItemsAt(m, t), x)
    ensures Occurs(ItemsAt(m, t), x) <= Weight(m.entries, Has(x))
  {
    if At(m, t).Some? { ValueWeighs(m.entries, Key(t), Has(x)); }
  }

  lemma EntryWeight<T>(m: TimeMap<T>, t: U64, items: set<T>, x: T)
    requires Shaped(m.entries)
    ensures Weight(Trie.Insert(m.entries, Key(t), items).0, Has(x)) + Occurs(ItemsAt(m, t), x)
         == Weight(m.entries, Has(x)) + Occurs(items, x)
  {
    InsertWeight(m.entries, Key(t), items, Has(x));
    InsertPuts(m.entries, Key(t), items, []);
    ItemsWeigh(m, t, x);
  }

  /** Replacing a container keeps the counts as exact as they were. */
  lemma InsertCounts<T>(m: TimeMap<T>, t: U64, y: T, x: T)
    requires Shaped(m.entries) && Excess(m, x) >= 0
    ensures Excess(Insert(m, t, y), x) == Excess(m, x)
  {
    EntryWeight(m, t, {y}, x);
    ItemsWeigh(m, t, x);
  }

  /** Adding an item to a container that has it counts it once too often. */
  lemma UpsertCounts<T>(m: TimeMap<T>, t: U64, items: set<T>, x: T)
    requires Shaped(m.entries)
    ensures Excess(Upsert(m, t, items), x) == Excess(m, x) + Occurs(items * ItemsAt(m, t), x)
  {
    EntryWeight(m, t, ItemsAt(m, t) + items, x);
  }

  lemma {:induction false} TakeEachCount<T>(c: Counts<T>, values: seq<set<T>>, x: T)
    requires Count(c, x) >= Total(values, Has(x))
    ensures Count(TakeEach(c, values), x) == Count(c, x) - Total(values, Has(x))
  {
    if values != [] { TakeEachCount(c, values[..|values| - 1], x); }
  }

  lemma FilterCounts<T>(m: TimeMap<T>, cutoff: U64, x: T)
    requires Shaped(m.entries) && Excess(m, x) >= 0
    ensures Excess(Filter(m, cutoff), x) == Excess(m, x)
  {
    PruneWeight(m.entries, Key(cutoff), Has(x));
    TakeEachCount(m.counts, Prune(m.entries, Key(cutoff)).1, x);
  }

  // ----- what the queries say -----

  ghost predicate Held<T>(m: TimeMap<T>, x: T)
    requires Shaped(m.entries)
  {
    exists t: U64 :: x in ItemsAt(m, t)
  }

  /** An item is found if a container holds it, or if it was counted too often. */
  lemma ContainedIsHeld<T>(m: TimeMap<T>, x: T)
    requires Valid(m) && Excess(m, x) >= 0
    ensures Contains(m, x) <==> Held(m, x) || Excess(m, x) > 0
  {
    if Weight(m.entries, Has(x)) > 0 {
      var q := Heavy(m.entries, Has(x));
      var t: U64 :| q == Key(t);
      assert x in ItemsAt(m, t);
    }
    if Held(m, x) {
      var t: U64 :| x in ItemsAt(m, t);
      ItemsWeigh(m, t, x);
    }
  }

  /** The time at or before the given one that is nearest to it. */
  ghost predicate NearestBefore<T>(m: TimeMap<T>, t: U64, u: U64)
    requires Shaped(m.entries)
  {
    u <= t && At(m, u).Some? && forall v: U64 :: u < v <= t ==> At(m, v).None?
  }

  lemma GetPredecessor<T>(m: TimeMap<T>, t: U64, found: Option<(Path, set<T>)>)
    requires Valid(m) && At(m, t).None? && Greatest(m.entries, Before(Key(t)), [], found)
    ensures found.None? ==> forall u: U64 :: u <= t ==> At(m, u).None?
    ensures found.Some? ==> exists u: U64 :: NearestBefore(m, t, u) && At(m, u) == Some(found.value.1)
  {
    forall u: U64 | u < t && At(m, u).Some? ensures Before(Key(t))(Key(u)) { KeyOrder(u, t); }
    if found.Some? {
      var k := found.value.0;
      assert k[0..] == k;
      var u: U64 :| k == Key(u);
      KeyOrder(u, t);
      forall v: U64 | u < v <= t ensures At(m, v).None? { KeyOrder(u, v); }
      assert NearestBefore(m, t, u);
    }
  }

  /** Looking up a time never panics, and gives the container at the nearest time not after it,
      if there is any. */
  lemma GetNearest<T>(m: TimeMap<T>, t: U64)
    requires Valid(m)
    ensures Get(m, t).Answer?
    ensures Get(m, t).items.None? <==> forall u: U64 :: u <= t ==> At(m, u).None?
    ensures Get(m, t).items.Some? ==> exists u: U64 :: NearestBefore(m, t, u) && At(m, u) == Get(m, t).items
  {
    if At(m, t).Some? {
      assert NearestBefore(m, t, t);
    } else {
      TimedIsClean(m.entries, t);
      PredecessorFinds(m.entries, Key(t), []);
      GetPredecessor(m, t, Predecessor(m.entries, Key(t), []).found);
    }
  }
}
