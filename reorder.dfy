/**
 * `_reorderCollectionBasedOnHTML`: after a drag, the component walks the
 * list's children in document order and, for every child whose
 * `data-item-id` names a model, removes the model from the collection and
 * adds it back at the end. This module gives the result of that walk and
 * proves what it achieves.
 */
module Reorder {

  import opened Js
  import opened Backbone
  import opened Dom

  /** The model a child names: nothing for a missing or empty attribute;
      otherwise `collection.get( attr )`, or `collection.getByCid( attr )`
      in the oldest revision when it references models by cid. */
  function Resolve(c: seq<Record>, itemId: Option<string>, byCidOnly: bool): Option<Record>
  {
    if itemId.None? || itemId.value == "" then None
    else if byCidOnly then LookupCid(c, itemId.value)
    else Lookup(c, itemId.value)
  }

  /** `collection.remove( m, { silent : true } )` followed by
      `collection.add( m, { silent : true } )`. */
  function MoveToEnd(c: seq<Record>, m: Record): seq<Record>
  {
    Add(Remove(c, m), m, None)
  }

  /** The collection after the walk has visited `children`. */
  function Reordered(c: seq<Record>, children: seq<Row>, byCidOnly: bool): seq<Record>
    decreases |children|
  {
    if children == [] then c
    else
      var p := Reordered(c, children[..|children| - 1], byCidOnly);
      match Resolve(p, children[|children| - 1].itemId, byCidOnly)
      case None => p
      case Some(m) => MoveToEnd(p, m)
  }

  /** The models the children name, in document order. */
  function Named(c: seq<Record>, children: seq<Row>, byCidOnly: bool): seq<Record>
    decreases |children|
  {
    if children == [] then []
    else
      var p := Named(c, children[..|children| - 1], byCidOnly);
      match Resolve(c, children[|children| - 1].itemId, byCidOnly)
      case None => p
      case Some(m) => p + [m]
  }

  /** The models of `c` that `ms` does not hold, in collection order. */
  function Drop(c: seq<Record>, ms: seq<Record>): seq<Record>
    decreases |c|
  {
    if c == [] then []
    else
      var p := Drop(c[..|c| - 1], ms);
      if c[|c| - 1] in ms then p else p + [c[|c| - 1]]
  }

  lemma ResolveFound(c: seq<Record>, itemId: Option<string>, byCidOnly: bool)
    ensures Resolve(c, itemId, byCidOnly).Some? ==> Resolve(c, itemId, byCidOnly).value in c
  {
  }

  /** Moving a model of the collection to the end only reorders it. */
  lemma MoveToEndPermutes(c: seq<Record>, m: Record)
    requires WellFormed(c) && m in c
    ensures multiset(MoveToEnd(c, m)) == multiset(c)
    ensures MoveToEnd(c, m) == Remove(c, m) + [m]
  {
    CidUnique(c, m);
    RemoveMultiset(c, m);
    DistinctMultiset(c);
    var d := Remove(c, m);
    assert m !in d;
    assert MoveToEnd(c, m) == d + [m];
    assert multiset(c)[m] == 1 by {
      assert m in multiset(c);
    }
    calc {
      multiset(d + [m]);
      multiset(d) + multiset{m};
      multiset(c)[m := 0] + multiset{m};
      multiset(c);
    }
  }

  /** The walk leaves a permutation of the collection, still well formed. */
  lemma {:induction false} ReorderedPermutes(c: seq<Record>, children: seq<Row>, byCidOnly: bool)
    requires WellFormed(c)
    ensures multiset(Reordered(c, children, byCidOnly)) == multiset(c)
    ensures WellFormed(Reordered(c, children, byCidOnly))
    decreases |children|
  {
    if children != [] {
      var p := Reordered(c, children[..|children| - 1], byCidOnly);
      ReorderedPermutes(c, children[..|children| - 1], byCidOnly);
      var r := Resolve(p, children[|children| - 1].itemId, byCidOnly);
      if r.Some? {
        MoveToEndPermutes(p, r.value);
        WellFormedPermutation(p, MoveToEnd(p, r.value));
      }
    }
  }

  /** Keys name the same model in any permutation of a well-formed
      collection, so the walk resolves every child as in the original. */
  lemma ResolvePermutation(c: seq<Record>, p: seq<Record>, itemId: Option<string>, byCidOnly: bool)
    requires WellFormed(c) && multiset(c) == multiset(p)
    ensures Resolve(p, itemId, byCidOnly) == Resolve(c, itemId, byCidOnly)
  {
    WellFormedPermutation(c, p);
    forall x ensures x in c <==> x in p {
      assert x in c <==> x in multiset(c);
      assert x in p <==> x in multiset(p);
    }
    if itemId.Some? && itemId.value != "" {
      var key := itemId.value;
      if !byCidOnly {
        var f := Lookup(c, key);
        if f.Some? {
          LookupUnique(p, key, f.value);
        }
      }
    }
  }

  lemma {:induction false} RemoveDrop(c: seq<Record>, ms: seq<Record>, m: Record)
    requires forall x | x in c && x.cid == m.cid :: x == m
    ensures Remove(Drop(c, ms), m) == Drop(c, ms + [m])
    decreases |c|
  {
    if c != [] {
      var c' := c[..|c| - 1];
      var z := c[|c| - 1];
      assert forall x | x in c' :: x in c;
      RemoveDrop(c', ms, m);
      var d := Drop(c', ms);
      if z !in ms {
        assert (d + [z])[..|d + [z]| - 1] == d;
      }
    }
  }

  lemma NamedFound(c: seq<Record>, children: seq<Row>, byCidOnly: bool)
    ensures forall x | x in Named(c, children, byCidOnly) :: x in c
    decreases |children|
  {
    if children != [] {
      NamedFound(c, children[..|children| - 1], byCidOnly);
    }
  }

  /** One step of the walk on a collection already split into unnamed
      and named models. */
  lemma MoveNamedToEnd(c: seq<Record>, ms: seq<Record>, m: Record)
    requires WellFormed(c) && WellFormed(Drop(c, ms) + ms)
    requires m in c && m in Drop(c, ms) + ms && m !in ms
    requires forall x | x in ms :: x in c
    ensures MoveToEnd(Drop(c, ms) + ms, m) == Drop(c, ms + [m]) + (ms + [m])
  {
    var p := Drop(c, ms) + ms;
    MoveToEndPermutes(p, m);
    RemoveConcat(Drop(c, ms), ms, m);
    forall x | x in ms ensures x.cid != m.cid {
      assert KeysDiffer(x, m);
    }
    RemoveAbsent(ms, m);
    CidUnique(c, m);
    RemoveDrop(c, ms, m);
  }

  lemma DistinctLast(s: seq<Record>, m: Record)
    requires Distinct(s + [m])
    ensures m !in s
  {
    forall i | 0 <= i < |s| ensures s[i] != m {
      assert (s + [m])[i] == s[i] && (s + [m])[|s|] == m;
    }
  }

  lemma DistinctPrefix(ms: seq<Record>, k: nat)
    requires Distinct(ms) && k <= |ms|
    ensures Distinct(ms[..k])
  {
    forall i, j | 0 <= i < j < k ensures ms[..k][i] != ms[..k][j] {
      assert ms[..k][i] == ms[i] && ms[..k][j] == ms[j];
    }
  }

  /** When the children name distinct models, the walk moves exactly
      those models to the end, in document order, and leaves the others
      in their relative order before them. */
  lemma {:induction false} ReorderedOrder(c: seq<Record>, children: seq<Row>, byCidOnly: bool)
    requires WellFormed(c)
    requires Distinct(Named(c, children, byCidOnly))
    ensures Reordered(c, children, byCidOnly) == Drop(c, Named(c, children, byCidOnly)) + Named(c, children, byCidOnly)
    decreases |children|
  {
    var ms := Named(c, children, byCidOnly);
    if children == [] {
      DropNone(c);
    } else {
      var ch' := children[..|children| - 1];
      var ms' := Named(c, ch', byCidOnly);
      var p := Reordered(c, ch', byCidOnly);
      var last := children[|children| - 1].itemId;
      var r := Resolve(c, last, byCidOnly);
      assert ms == if r.Some? then ms' + [r.value] else ms';
      DistinctPrefix(ms, |ms'|);
      assert ms[..|ms'|] == ms';
      ReorderedOrder(c, ch', byCidOnly);
      ReorderedPermutes(c, ch', byCidOnly);
      ResolvePermutation(c, p, last, byCidOnly);
      if r.Some? {
        var m := r.value;
        DistinctLast(ms', m);
        NamedFound(c, ch', byCidOnly);
        assert m in p by {
          assert m in multiset(c);
        }
        MoveNamedToEnd(c, ms', m);
      }
    }
  }

  lemma {:induction false} DropNone(c: seq<Record>)
    ensures Drop(c, []) == c
    decreases |c|
  {
    if c != [] {
      DropNone(c[..|c| - 1]);
      LastSplit(c);
    }
  }

  lemma {:induction false} DropAll(c: seq<Record>, ms: seq<Record>)
    requires forall x | x in c :: x in ms
    ensures Drop(c, ms) == []
    decreases |c|
  {
    if c != [] {
      DropAll(c[..|c| - 1], ms);
    }
  }

  /** When the children name every model, once each, the collection ends
      up in document order. */
  lemma CollectionFollowsDocument(c: seq<Record>, children: seq<Row>, byCidOnly: bool)
    requires WellFormed(c)
    requires Distinct(Named(c, children, byCidOnly))
    requires forall x | x in c :: x in Named(c, children, byCidOnly)
    ensures Reordered(c, children, byCidOnly) == Named(c, children, byCidOnly)
  {
    ReorderedOrder(c, children, byCidOnly);
    DropAll(c, Named(c, children, byCidOnly));
  }

  // -----------------------------------------------------------------------
  // Drags

  /** `collection.remove( modelBeingSorted, { silent : true } )`, which
      ignores `undefined`. */
  function DraggedOut(c: seq<Record>, m: Option<Record>): seq<Record>
  {
    if m.Some? then Remove(c, m.value) else c
  }

  /** `collection.get( ui.item.attr( "data-item-id" ) )`. */
  function DraggedModel(c: seq<Record>, itemAttr: Option<string>): Option<Record>
  {
    if itemAttr.Some? then Get(c, Str(itemAttr.value)) else None
  }

  /** The model of a drag, as the `sortStop` notification carries it. */
  function ModelValue(m: Option<Record>): Value
  {
    if m.Some? then ModelRef(m.value) else Undefined
  }

  /** Dropping a model into another list takes it out of this collection
      and keeps every other model. */
  lemma DraggedOutMultiset(c: seq<Record>, m: Option<Record>)
    requires WellFormed(c) && (m.Some? ==> m.value in c)
    ensures m.Some? ==> multiset(DraggedOut(c, m)) == multiset(c)[m.value := 0] && m.value !in DraggedOut(c, m)
    ensures WellFormed(DraggedOut(c, m))
  {
    if m.Some? {
      CidUnique(c, m.value);
      RemoveMultiset(c, m.value);
      RemoveKeepsWellFormed(c, m.value);
    }
  }

  /** The collection after `_sortStop`: the dragged model leaves it when
      it was dropped into another list, then the walk reorders it by the
      new children. */
  function Sorted(c: seq<Record>, newRows: seq<Row>, itemAttr: Option<string>, newIndex: int): seq<Record>
  {
    Reordered(if newIndex == -1 then DraggedOut(c, DraggedModel(c, itemAttr)) else c, newRows, false)
  }

  /** A drag within the list only reorders the collection; a drag out of
      it loses exactly the dragged model. */
  lemma SortedMultiset(c: seq<Record>, newRows: seq<Row>, itemAttr: Option<string>, newIndex: int)
    requires WellFormed(c)
    ensures var m := DraggedModel(c, itemAttr);
            var d := Sorted(c, newRows, itemAttr, newIndex);
            if newIndex == -1 && m.Some? then multiset(d) == multiset(c)[m.value := 0] && m.value !in d
            else multiset(d) == multiset(c)
  {
    var m := DraggedModel(c, itemAttr);
    var e := if newIndex == -1 then DraggedOut(c, m) else c;
    DraggedOutMultiset(c, m);
    ReorderedPermutes(e, newRows, false);
    if newIndex == -1 && m.Some? {
      assert m.value !in multiset(e);
    }
  }

  /** One more child visited by the walk: `collection.get` of a
      non-empty attribute is the lookup `Resolve` makes. */
  lemma ReorderedStep(c: seq<Record>, children: seq<Row>, i: int)
    requires 0 <= i < |children|
    ensures var p := Reordered(c, children[..i], false);
            var id := children[i].itemId;
            Reordered(c, children[..i + 1], false)
            == if id.Some? && id.value != "" && Get(p, Str(id.value)).Some?
               then Add(Remove(p, Get(p, Str(id.value)).value), Get(p, Str(id.value)).value, None)
               else p
  {
    assert children[..i + 1][..i] == children[..i];
  }

  /** Every child with a non-empty attribute names a model of `c`. */
  predicate AllResolve(c: seq<Record>, children: seq<Row>, byCidOnly: bool)
  {
    forall k | 0 <= k < |children| && children[k].itemId.Some? && children[k].itemId.value != "" ::
      Resolve(c, children[k].itemId, byCidOnly).Some?
  }

  /** One more child visited by the walk when every child names a model:
      a child without an attribute is skipped, and the model a child names
      is still in the collection and moves to the end. */
  lemma ResolvedStep(c: seq<Record>, children: seq<Row>, i: int, byCidOnly: bool)
    requires WellFormed(c) && AllResolve(c, children, byCidOnly) && 0 <= i < |children|
    ensures var p := Reordered(c, children[..i], byCidOnly);
            var id := children[i].itemId;
            if id.None? || id.value == "" then Reordered(c, children[..i + 1], byCidOnly) == p
            else && Resolve(p, id, byCidOnly).Some?
                 && Reordered(c, children[..i + 1], byCidOnly) == MoveToEnd(p, Resolve(p, id, byCidOnly).value)
  {
    assert children[..i + 1][..i] == children[..i];
    var p := Reordered(c, children[..i], byCidOnly);
    ReorderedPermutes(c, children[..i], byCidOnly);
    ResolvePermutation(c, p, children[i].itemId, byCidOnly);
  }
}
