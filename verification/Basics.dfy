/** What several modules share. */
module Basics {

  datatype Option<+T> = None | Some(value: T)

  lemma Associate<T>(a: seq<T>, b: seq<T>, c: seq<T>)
    ensures (a + b) + c == a + (b + c)
  {}

  lemma Behind<T>(head: seq<T>, tail: seq<T>, from: nat, length: nat)
    requires from + length <= |tail|
    ensures (head + tail)[|head| + from..|head| + from + length] == tail[from..from + length]
  {}

  lemma CancelOne<T>(a: multiset<T>, b: multiset<T>, x: T)
    requires a + multiset{x} <= b + multiset{x}
    ensures a <= b
  {
    forall e | e in a ensures a[e] <= b[e] {
      assert (a + multiset{x})[e] <= (b + multiset{x})[e];
    }
  }

  // ----- counted elements -----

  type Counts<!T> = map<T, nat>

  function Count<T>(c: Counts<T>, x: T): nat { if x in c then c[x] else 0 }

  function InsertOne<T>(c: Counts<T>, x: T): Counts<T> { c[x := Count(c, x) + 1] }

  ghost predicate Positive<T>(c: Counts<T>) { forall x :: x in c ==> c[x] > 0 }
}
