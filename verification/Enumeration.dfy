/** Iteration over a set in no particular order. */
module Enumeration {
  /** `order` visits every element of `s` once: what map iteration promises. */
  predicate Enumerates<T(==)>(order: seq<T>, s: set<T>) {
    && (forall x :: x in order ==> x in s)
    && (forall x :: x in s ==> x in order)
    && forall i, j :: 0 <= i < j < |order| ==> order[i] != order[j]
  }

  lemma {:induction false} EnumerationSize<T>(order: seq<T>, s: set<T>)
    requires Enumerates(order, s)
    ensures |order| == |s|
  {
    if order == [] {
      assert s == {};
    } else {
      var n := |order| - 1;
      var rest := order[..n];
      assert order == rest + [order[n]];
      EnumerationSize(rest, s - {order[n]});
    }
  }
}
