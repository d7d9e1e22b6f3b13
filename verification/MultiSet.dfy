/** A multiset kept as a map from elements to counts. */
module MultiSet {
  import opened Basics

  ghost predicate Represents<T(!new)>(m: Counts<T>, s: multiset<T>) {
    Positive(m) && forall e :: Basics.Count(m, e) == s[e]
  }

  class MultiSet<T(==, !new)> {
    var elements: Counts<T>
    ghost var contents: multiset<T>

    ghost predicate Valid()
      reads this
    {
      Represents(elements, contents)
    }

    constructor ()
      ensures Valid() && contents == multiset{}
    {
      elements := map[];
      contents := multiset{};
    }

    method Insert(element: T)
      requires Valid()
      modifies this
      ensures Valid() && contents == old(contents) + multiset{element}
    {
      elements := InsertOne(elements, element);
      contents := contents + multiset{element};
    }

    function Count(element: T): (n: nat)
      requires Valid()
      reads this
      ensures n == contents[element]
    {
      Basics.Count(elements, element)
    }

    method HasSubset(other: MultiSet<T>) returns (b: bool)
      requires Valid() && other.Valid()
      ensures b <==> other.contents <= contents
    {
      var left := other.elements.Keys;
      while left != {}
        invariant left <= other.elements.Keys
        invariant forall e :: e in other.elements && e !in left ==> other.contents[e] <= contents[e]
        decreases left
      {
        var element :| element in left;
        left := left - {element};
        if Count(element) < other.elements[element] {
          assert other.contents[element] > contents[element];
          return false;
        }
      }
      forall e | e in other.contents ensures other.contents[e] <= contents[e] {
        assert Basics.Count(other.elements, e) == other.contents[e];
      }
      return true;
    }
  }

  method FromIter<T(==, !new)>(items: seq<T>) returns (m: MultiSet<T>)
    ensures m.Valid() && m.contents == multiset(items)
  {
    m := new MultiSet<T>();
    for i := 0 to |items|
      invariant m.Valid() && m.contents == multiset(items[..i])
      invariant fresh(m)
    {
      assert items[..i + 1] == items[..i] + [items[i]];
      m.Insert(items[i]);
    }
    assert items[..|items|] == items;
  }

  /** Equality of the maps is equality of the multisets. */
  lemma MapEquality<T(!new)>(m: Counts<T>, n: Counts<T>, s: multiset<T>, t: multiset<T>)
    requires Represents(m, s) && Represents(n, t)
    ensures m == n <==> s == t
  {
    if m == n {
      forall e ensures s[e] == t[e] { assert Basics.Count(m, e) == Basics.Count(n, e); }
    }
    if s == t {
      forall e ensures e in m <==> e in n { assert Basics.Count(m, e) == Basics.Count(n, e); }
      forall e | e in m ensures m[e] == n[e] { assert Basics.Count(m, e) == Basics.Count(n, e); }
    }
  }
}
