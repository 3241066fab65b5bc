/**
 * What every revision does when a new selection is committed:
 * `_validateSelection` (keep the reference ids of the collection, in
 * collection order, that pass `selectableModelsFilter`), the set-equality
 * test `_containSameElements` that decides whether anything is reported,
 * and the notifications, modelled as entries appended to an event log.
 */
module Selection {

  import opened Js
  import opened Underscore
  import opened Backbone

  /** The notifications the component triggers, in the order triggered. */
  datatype Event =
    | SelectionChanged(newItems: seq<Value>, oldItems: seq<Value>)
    | UpdateDependentControls(items: seq<Value>)
    | Render
    | Reorder
    | SortStop(model: Value, newIndex: int)
    /** The oldest revision's `sortStop`, which carries nothing. */
    | SortStopped

  /** What `_getModelByReferenceId( id )` hands to the filter: the model,
      or `undefined`. */
  function ModelOf(c: seq<Record>, id: Value): Value
  {
    match Get(c, id)
    case None => Undefined
    case Some(m) => ModelRef(m)
  }

  /** A filter that is not a function keeps everything. */
  predicate Selectable(c: seq<Record>, id: Value, filter: Option<Value -> bool>)
  {
    filter.None? || filter.value(ModelOf(c, id))
  }

  /** `_.filter( ids, selectableModelsFilter )`. */
  function KeepSelectable(ids: seq<Value>, c: seq<Record>, filter: Option<Value -> bool>): (r: seq<Value>)
    ensures forall x :: x in r <==> x in ids && Selectable(c, x, filter)
    ensures NoDup(ids) ==> NoDup(r)
    decreases |ids|
  {
    if ids == [] then []
    else
      LastSplit(ids);
      var p := KeepSelectable(ids[..|ids| - 1], c, filter);
      var x := ids[|ids| - 1];
      assert NoDup(ids) ==> NoDup(ids[..|ids| - 1]) && x !in ids[..|ids| - 1];
      if Selectable(c, x, filter) then p + [x] else p
  }

  /** `_validateSelection`: the selection becomes the reference ids of the
      collection that it holds, once each, that pass the filter. */
  function Validate(c: seq<Record>, sel: seq<Value>, byCid: bool, filter: Option<Value -> bool>): (r: seq<Value>)
    ensures NoDup(r)
    ensures forall x :: x in r <==> x in RefIds(c, byCid) && x in sel && Selectable(c, x, filter)
  {
    KeepSelectable(Intersection(RefIds(c, byCid), sel), c, filter)
  }

  /** Reference definition: the collection's reference ids, in collection
      order, kept when selected and selectable. */
  function InCollectionOrder(ids: seq<Value>, sel: seq<Value>, c: seq<Record>, filter: Option<Value -> bool>): seq<Value>
    decreases |ids|
  {
    if ids == [] then []
    else
      var p := InCollectionOrder(ids[..|ids| - 1], sel, c, filter);
      var x := ids[|ids| - 1];
      if x in sel && Selectable(c, x, filter) then p + [x] else p
  }

  lemma {:induction false} KeepSelectableOfKeepIn(ids: seq<Value>, sel: seq<Value>, c: seq<Record>, filter: Option<Value -> bool>)
    ensures KeepSelectable(KeepIn(ids, sel), c, filter) == InCollectionOrder(ids, sel, c, filter)
    decreases |ids|
  {
    if ids != [] {
      var ids' := ids[..|ids| - 1];
      KeepSelectableOfKeepIn(ids', sel, c, filter);
      var k := KeepIn(ids', sel);
      var x := ids[|ids| - 1];
      if x in sel {
        assert (k + [x])[..|k + [x]| - 1] == k;
      }
    }
  }

  /** Validation follows collection order: the validated selection is the
      collection's reference ids filtered to the selected, selectable
      ones. */
  lemma ValidateInCollectionOrder(c: seq<Record>, sel: seq<Value>, byCid: bool, filter: Option<Value -> bool>)
    requires WellFormed(c) && HasRefIds(c, byCid)
    ensures Validate(c, sel, byCid, filter) == InCollectionOrder(RefIds(c, byCid), sel, c, filter)
  {
    RefIdsDistinct(c, byCid);
    IntersectionOfDistinct(RefIds(c, byCid), sel);
    KeepSelectableOfKeepIn(RefIds(c, byCid), sel, c, filter);
  }

  lemma {:induction false} InCollectionOrderCongruent(ids: seq<Value>, s1: seq<Value>, s2: seq<Value>, c: seq<Record>, filter: Option<Value -> bool>)
    requires forall x | x in ids && Selectable(c, x, filter) :: x in s1 <==> x in s2
    ensures InCollectionOrder(ids, s1, c, filter) == InCollectionOrder(ids, s2, c, filter)
    decreases |ids|
  {
    if ids != [] {
      var ids' := ids[..|ids| - 1];
      assert forall x | x in ids' :: x in ids;
      InCollectionOrderCongruent(ids', s1, s2, c, filter);
    }
  }

  /** Validation depends only on which ids are asked for, not on their
      order or repetition. */
  lemma ValidateCongruent(c: seq<Record>, a: seq<Value>, b: seq<Value>, byCid: bool, filter: Option<Value -> bool>)
    requires WellFormed(c) && HasRefIds(c, byCid)
    requires forall x :: x in a <==> x in b
    ensures Validate(c, a, byCid, filter) == Validate(c, b, byCid, filter)
  {
    ValidateInCollectionOrder(c, a, byCid, filter);
    ValidateInCollectionOrder(c, b, byCid, filter);
    InCollectionOrderCongruent(RefIds(c, byCid), a, b, c, filter);
  }

  /** Validating twice changes nothing more than validating once. */
  lemma ValidateIdempotent(c: seq<Record>, sel: seq<Value>, byCid: bool, filter: Option<Value -> bool>)
    requires WellFormed(c) && HasRefIds(c, byCid)
    ensures Validate(c, Validate(c, sel, byCid, filter), byCid, filter) == Validate(c, sel, byCid, filter)
  {
    var v := Validate(c, sel, byCid, filter);
    ValidateInCollectionOrder(c, sel, byCid, filter);
    ValidateInCollectionOrder(c, v, byCid, filter);
    InCollectionOrderCongruent(RefIds(c, byCid), v, sel, c, filter);
  }

  /** Nothing asked for, nothing selected. */
  lemma ValidateNothing(c: seq<Record>, byCid: bool, filter: Option<Value -> bool>)
    ensures Validate(c, [], byCid, filter) == []
  {
    var v := Validate(c, [], byCid, filter);
    assert Elems(v) == {};
    NoDupCard(v);
  }

  /** Asking for one reference id of the collection selects it alone when
      it passes the filter, and nothing otherwise. */
  lemma ValidateSingle(c: seq<Record>, x: Value, byCid: bool, filter: Option<Value -> bool>)
    requires x in RefIds(c, byCid)
    ensures Validate(c, [x], byCid, filter) == if Selectable(c, x, filter) then [x] else []
  {
    SingleOrNothing(Validate(c, [x], byCid, filter), x, Selectable(c, x, filter));
  }

  /** A duplicate-free sequence that holds at most `x` is `[x]` or empty. */
  lemma SingleOrNothing(v: seq<Value>, x: Value, keep: bool)
    requires NoDup(v)
    requires forall y :: y in v <==> y == x && keep
    ensures v == if keep then [x] else []
  {
    NoDupCard(v);
    if keep {
      assert Elems(v) == {x};
      assert v[0] in Elems(v);
    } else {
      assert Elems(v) == {};
    }
  }

  /** No entry of `s` is a numeral string, so `_convertStringsToInts`
      leaves `s` as it is. */
  predicate Unconvertible(s: seq<Value>)
  {
    forall x | x in s :: !(x.Str? && IsNumeral(x.s))
  }

  lemma ConvertUnconvertible(s: seq<Value>)
    requires Unconvertible(s)
    ensures ConvertStringsToInts(s) == s
  {
    assert forall i | 0 <= i < |s| :: s[i] in s;
  }

  /** Cids are never numerals, so a selection of cids comes back from
      `_convertStringsToInts` unchanged. */
  lemma CidsUnconvertible(c: seq<Record>, sel: seq<Value>)
    requires WellFormed(c)
    requires forall x | x in sel :: x in RefIds(c, true)
    ensures Unconvertible(sel)
  {
    forall x | x in sel ensures !(x.Str? && IsNumeral(x.s)) {
      var k :| 0 <= k < |c| && RefIds(c, true)[k] == x;
      assert c[k] in c;
    }
  }

  /** The notifications after a commit: nothing when the set of ids did
      not change; otherwise `selectionChanged` unless silent, then
      `updateDependentControls`. */
  function Notice(changed: bool, silent: bool, selectionChanged: Event, updateDependentControls: Event): seq<Event>
  {
    if !changed then []
    else if silent then [updateDependentControls]
    else [selectionChanged, updateDependentControls]
  }

  /** The commit reports a change exactly when the set of selected ids
      differs, in either argument order of `_containSameElements`. */
  lemma ChangedIffSetsDiffer(olds: seq<Value>, news: seq<Value>)
    requires NoDup(olds) && NoDup(news)
    ensures !ContainSameElements(olds, news) <==> Elems(olds) != Elems(news)
    ensures !ContainSameElements(news, olds) <==> Elems(olds) != Elems(news)
  {
    SameElementsIffSameSet(olds, news);
    SameElementsIffSameSet(news, olds);
  }

  /** One value that is not a numeral string is left as it is. */
  lemma ConvertOne(x: Value)
    requires !(x.Str? && IsNumeral(x.s))
    ensures ConvertStringsToInts([x]) == [x]
  {
    assert ConvertStringsToInts([x])[0] == ConvertStringToInt(x);
  }

  /** An id the collection does not carry is validated away. */
  lemma ValidateGone(c: seq<Record>, x: Value, byCid: bool, filter: Option<Value -> bool>)
    requires x !in RefIds(c, byCid)
    ensures Validate(c, [x], byCid, filter) == []
  {
    var v := Validate(c, [x], byCid, filter);
    assert Elems(v) == {};
    NoDupCard(v);
  }
}
