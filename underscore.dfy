/**
 * The Underscore.js array helpers the collection view is built on, with
 * JavaScript `===` taken as equality of `Js.Value`s: `_.intersection`, `_.uniq`,
 * `_.union`, `_.without`, and the `_containSameElements` mixin that
 * decides whether a selection change is reported.
 */
module Underscore {

  import opened Js

  predicate NoDup(s: seq<Value>)
  {
    forall i, j | 0 <= i < j < |s| :: s[i] != s[j]
  }

  /** The set of elements of a sequence. */
  function Elems(s: seq<Value>): set<Value>
  {
    set x | x in s
  }

  /** `_.intersection( a, b )`: the distinct elements of `a` that also
      occur in `b`, in the order of their first occurrence in `a`. */
  function Intersection(a: seq<Value>, b: seq<Value>): (r: seq<Value>)
    ensures NoDup(r)
    ensures forall x :: x in r <==> x in a && x in b
    decreases |a|
  {
    if a == [] then []
    else
      LastSplit(a);
      var p := Intersection(a[..|a| - 1], b);
      var x := a[|a| - 1];
      if x in b && x !in p then p + [x] else p
  }

  /** The elements of `a` that occur in `b`, in the order of `a`. */
  function KeepIn(a: seq<Value>, b: seq<Value>): seq<Value>
    decreases |a|
  {
    if a == [] then []
    else
      var p := KeepIn(a[..|a| - 1], b);
      if a[|a| - 1] in b then p + [a[|a| - 1]] else p
  }

  /** On a duplicate-free `a` (the reference ids of a collection),
      `_.intersection( a, b )` keeps the elements of `a` found in `b` in the
      order of `a`. */
  lemma {:induction false} IntersectionOfDistinct(a: seq<Value>, b: seq<Value>)
    requires NoDup(a)
    ensures Intersection(a, b) == KeepIn(a, b)
    decreases |a|
  {
    if a != [] {
      LastSplit(a);
      IntersectionOfDistinct(a[..|a| - 1], b);
    }
  }

  /** A duplicate-free sequence intersected with a superset of its
      elements is itself. */
  lemma {:induction false} IntersectionOfSubset(a: seq<Value>, b: seq<Value>)
    requires NoDup(a)
    requires forall x | x in a :: x in b
    ensures Intersection(a, b) == a
    decreases |a|
  {
    if a != [] {
      LastSplit(a);
      IntersectionOfSubset(a[..|a| - 1], b);
    }
  }

  /** `_.uniq( s )`: the first occurrence of every element, in order. */
  function Uniq(s: seq<Value>): (r: seq<Value>)
    ensures NoDup(r)
    ensures forall x :: x in r <==> x in s
    decreases |s|
  {
    if s == [] then []
    else
      LastSplit(s);
      var p := Uniq(s[..|s| - 1]);
      if s[|s| - 1] in p then p else p + [s[|s| - 1]]
  }

  lemma {:induction false} UniqOfNoDup(s: seq<Value>)
    requires NoDup(s)
    ensures Uniq(s) == s
    decreases |s|
  {
    if s != [] {
      LastSplit(s);
      UniqOfNoDup(s[..|s| - 1]);
    }
  }

  /** `_.union( s, x )` for a single, non-array value `x`: the distinct
      elements of `s` followed by `x` when it is new. */
  function Union(s: seq<Value>, x: Value): seq<Value>
  {
    Uniq(s + [x])
  }

  lemma UnionAppends(s: seq<Value>, x: Value)
    requires NoDup(s) && x !in s
    ensures Union(s, x) == s + [x]
  {
    UniqOfNoDup(s + [x]);
  }

  /** `_.without( s, x )`: `s` with every occurrence of `x` dropped. */
  function Without(s: seq<Value>, x: Value): (r: seq<Value>)
    ensures forall y :: y in r <==> y in s && y != x
    ensures NoDup(s) ==> NoDup(r)
    decreases |s|
  {
    if s == [] then []
    else
      LastSplit(s);
      var p := Without(s[..|s| - 1], x);
      assert NoDup(s) ==> NoDup(s[..|s| - 1]) && s[|s| - 1] !in s[..|s| - 1];
      if s[|s| - 1] == x then p else p + [s[|s| - 1]]
  }

  /** `_containSameElements( a, b )`. */
  predicate ContainSameElements(a: seq<Value>, b: seq<Value>)
  {
    |a| == |b| && |Intersection(a, b)| == |a|
  }

  lemma {:induction false} NoDupCard(s: seq<Value>)
    requires NoDup(s)
    ensures |Elems(s)| == |s|
    decreases |s|
  {
    if s != [] {
      var s' := s[..|s| - 1];
      LastSplit(s);
      NoDupCard(s');
      assert Elems(s) == Elems(s') + {s[|s| - 1]};
      assert s[|s| - 1] !in Elems(s');
    }
  }

  lemma SubsetSameCard(x: set<Value>, y: set<Value>)
    requires x <= y && |x| == |y|
    ensures x == y
  {
    if x != y {
      var z :| z in y && z !in x;
      assert x <= y - {z};
      assert |y - {z}| == |y| - 1;
      SubsetCard(x, y - {z});
    }
  }

  lemma {:induction false} SubsetCard(x: set<Value>, y: set<Value>)
    requires x <= y
    ensures |x| <= |y|
    decreases |y|
  {
    if x != {} {
      var z :| z in x;
      SubsetCard(x - {z}, y - {z});
    }
  }

  /** For duplicate-free sequences (every selection is one),
      `_containSameElements` holds exactly when the two sequences hold the
      same set of elements, whatever their order. */
  lemma SameElementsIffSameSet(a: seq<Value>, b: seq<Value>)
    requires NoDup(a) && NoDup(b)
    ensures ContainSameElements(a, b) <==> Elems(a) == Elems(b)
  {
    var i := Intersection(a, b);
    NoDupCard(a);
    NoDupCard(b);
    NoDupCard(i);
    assert Elems(i) == Elems(a) * Elems(b);
    if ContainSameElements(a, b) {
      SubsetSameCard(Elems(i), Elems(a));
      SubsetSameCard(Elems(i), Elems(b));
    }
    if Elems(a) == Elems(b) {
      assert Elems(i) == Elems(a);
    }
  }
}
