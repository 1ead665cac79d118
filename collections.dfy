/**
 * Small helpers shared by both scripts: an Option type, distinctness of a
 * list, the set of a list's elements, and the conversion of a set into a list
 * in an order nobody promises (Python's `list(some_set)`).
 */
module Collections {

  datatype Option<+T> = None | Some(value: T)

  /** No element occurs twice in `xs`. */
  predicate Distinct<T(==)>(xs: seq<T>) {
    forall i, j :: 0 <= i < j < |xs| ==> xs[i] != xs[j]
  }

  /** The set of the elements of `xs`. */
  function Elements<T>(xs: seq<T>): set<T> {
    set x | x in xs
  }

  lemma ElementsAppend<T>(xs: seq<T>, ys: seq<T>)
    ensures Elements(xs + ys) == Elements(xs) + Elements(ys)
  {
  }

  /** A list has at least as many entries as distinct elements. */
  lemma {:induction false} CardinalityBound<T>(xs: seq<T>)
    ensures |Elements(xs)| <= |xs|
  {
    if xs != [] {
      var last := |xs| - 1;
      CardinalityBound(xs[..last]);
      assert xs == xs[..last] + [xs[last]];
      ElementsAppend(xs[..last], [xs[last]]);
      assert Elements([xs[last]]) == {xs[last]};
    }
  }

  /** A subset is no larger than the set containing it. */
  lemma SubsetCardinality<T>(a: set<T>, b: set<T>)
    requires a <= b
    ensures |a| <= |b|
  {
    assert b == a + (b - a);
  }

  /** `[f(x) for x in xs]`. */
  function MapSeq<A, B>(f: A -> B, xs: seq<A>): seq<B> {
    if xs == [] then [] else MapSeq(f, xs[..|xs| - 1]) + [f(xs[|xs| - 1])]
  }

  lemma MapSeqSnoc<A, B>(f: A -> B, xs: seq<A>, x: A)
    ensures MapSeq(f, xs + [x]) == MapSeq(f, xs) + [f(x)]
  {
    assert (xs + [x])[..|xs|] == xs;
  }

  /** Mapping keeps the length and applies `f` at every position. */
  lemma {:induction false} MapSeqSpec<A, B>(f: A -> B, xs: seq<A>)
    ensures |MapSeq(f, xs)| == |xs|
    ensures forall k :: 0 <= k < |xs| ==> MapSeq(f, xs)[k] == f(xs[k])
  {
    if xs != [] {
      var init := xs[..|xs| - 1];
      MapSeqSpec(f, init);
      assert forall k :: 0 <= k < |init| ==> init[k] == xs[k];
    }
  }

  /**
   * `list(s)`: every element of `s` exactly once, in an order the caller
   * cannot rely on (the choice below is arbitrary).
   */
  method Enumerate<T>(s: set<T>) returns (xs: seq<T>)
    ensures Distinct(xs)
    ensures Elements(xs) == s
  {
    xs := [];
    var rest := s;
    while rest != {}
      invariant Distinct(xs)
      invariant Elements(xs) + rest == s
      invariant Elements(xs) !! rest
      decreases |rest|
    {
      var x :| x in rest;
      ElementsAppend(xs, [x]);
      xs := xs + [x];
      rest := rest - {x};
    }
  }
}
