/**
 * vCollectionList.js, the oldest revision of the collection view. Models
 * are referenced by cid, or by id when `referenceModelsByCid` is off, and
 * looked up again with `getByCid` or `get`. There is no selectable-models
 * filter and no `silent` option: every change of the selection is
 * announced. `render` builds the list from a model view, from an item
 * template, or keeps the elements already there, and then tags the
 * children of the list, one per model, by position. The collection's
 * `add` and `remove` events only re-render: a selection whose model was
 * removed is not pruned first, so the restore falls back to the saved
 * line numbers and selects the model that now sits on the removed line.
 */
module VCollectionList {

  import opened Js
  import opened Underscore
  import opened Backbone
  import opened Dom
  import opened Selection
  import opened Reorder
  import opened Clicks
  import opened Commits
  import opened Rendering
  import opened Addressing
  import opened LineAddressing
  import opened SelectedItems
  import opened NumberedLines

  /** `restoreSelection` goes through `setSelectedItems`, which always
      announces a change. */
  const RestoreSilently := false

  const UpArrow := 38
  const DownArrow := 40

  /** `_validateSelection` only intersects with the collection's ids. */
  const NoFilter: Option<Value -> bool> := None

  // -----------------------------------------------------------------------
  // Models by reference id

  /** `_getModelByReferenceId( id )`: `getByCid` when models are referenced
      by cid, `get` otherwise. */
  function ModelByReferenceId(c: seq<Record>, id: Value, byCid: bool): Option<Record>
  {
    if byCid then GetByCid(c, id) else Get(c, id)
  }

  /** `getSelectedModels()`: the model of every selected id, `undefined`
      where there is none. */
  function ModelsByReference(c: seq<Record>, sel: seq<Value>, byCid: bool): (r: seq<Value>)
    ensures |r| == |sel|
  {
    seq(|sel|, i requires 0 <= i < |sel| => ModelValue(ModelByReferenceId(c, sel[i], byCid)))
  }

  /** Backbone's cids (`c1`, `c2`, ...) are never empty, so `getByCid`
      finds them. */
  predicate NamedCids(c: seq<Record>)
  {
    forall m | m in c :: m.cid != ""
  }

  /** For the ids of the collection, the lookup by `getByCid` finds the
      same models as `get`. */
  lemma ModelsByReferenceAgree(c: seq<Record>, sel: seq<Value>, byCid: bool)
    requires WellFormed(c) && NamedCids(c)
    requires forall x | x in sel :: x in RefIds(c, byCid)
    ensures ModelsByReference(c, sel, byCid) == Models(c, sel)
  {
    if byCid {
      forall i | 0 <= i < |sel| ensures ModelValue(GetByCid(c, sel[i])) == ModelOf(c, sel[i]) {
        assert sel[i] in sel;
        var k :| 0 <= k < |c| && RefIds(c, true)[k] == sel[i];
        CidFound(c, c[k]);
        GetRefId(c, c[k], true);
      }
    }
  }

  /** `getByCid` of a model's cid finds that model. */
  lemma CidFound(c: seq<Record>, m: Record)
    requires WellFormed(c) && NamedCids(c) && m in c
    ensures GetByCid(c, Str(m.cid)) == Some(m)
  {
  }

  /** `_getModelByReferenceId` of a non-empty attribute is the lookup the
      reordering walk makes. */
  lemma AttributeLookup(c: seq<Record>, s: string, byCid: bool)
    requires s != ""
    ensures ModelByReferenceId(c, Str(s), byCid) == Resolve(c, Some(s), byCid)
  {
  }

  // -----------------------------------------------------------------------
  // The setters

  /** `setSelectedModel( m )`: the reference id is read before anything
      else, so `null` and `undefined` throw even on a view that is not
      selectable, and there is no shortcut to `selectNone`. */
  predicate ModelSet(selectable: bool, c: seq<Record>, byCid: bool, before: Snapshot, m: Value, out: Outcome, after: Snapshot)
  {
    match ReferenceOf(m, byCid)
    case Failure(e) => out == Fail(e) && after == before
    case Success(x) => ItemsSet(selectable, c, byCid, NoFilter, before, Arr([x]), false, out, after)
  }

  /** Every model carries a reference id that survives `String` and
      `_convertStringsToInts`: a cid, a number, or a string id that is
      not a numeral. */
  predicate PlainRefIds(c: seq<Record>, byCid: bool)
  {
    forall m | m in c :: Defined(RefId(m, byCid)) && !(RefId(m, byCid).Str? && IsNumeral(RefId(m, byCid).s))
  }

  /** Setting a model selects exactly that model when it is in the
      collection; `null` and `undefined` throw and change nothing;
      anything that is not a model has an `undefined` reference id, which
      only a model without an id, referenced by id, matches. */
  lemma ModelSetSelects(c: seq<Record>, byCid: bool, before: Snapshot, v: Value, out: Outcome, after: Snapshot)
    requires ModelSet(true, c, byCid, before, v, out, after)
    ensures v.Undefined? || v.Null? ==> out == Fail(TypeError) && after == before
    ensures v.ModelRef? && v.model in c && PlainRefIds([v.model], byCid) ==> out == Pass && after.sel == [RefId(v.model, byCid)]
    ensures !(v.ModelRef? || v.Undefined? || v.Null?) ==>
              out == Pass && after.sel == if Undefined in RefIds(c, byCid) then [Undefined] else []
  {
    if v.ModelRef? && v.model in c && PlainRefIds([v.model], byCid) {
      var x := RefId(v.model, byCid);
      assert v.model in [v.model];
      ConvertOne(x);
      RefIdInCollection(c, v.model, byCid);
      ValidateSingle(c, x, byCid, NoFilter);
    } else if !(v.ModelRef? || v.Undefined? || v.Null?) {
      ConvertOne(Undefined);
      if Undefined in RefIds(c, byCid) {
        ValidateSingle(c, Undefined, byCid, NoFilter);
      } else {
        ValidateGone(c, Undefined, byCid, NoFilter);
      }
    }
  }

  /** Setting the models read with `getSelectedModels` again changes
      nothing: no event, no marker, the same selection. */
  lemma ModelsReadBackUnchanged(c: seq<Record>, byCid: bool, s: seq<Value>, before: Snapshot, out: Outcome, after: Snapshot)
    requires WellFormed(c) && NamedCids(c) && HasRefIds(c, byCid) && Unconvertible(s)
    requires before.sel == Validate(c, s, byCid, NoFilter)
    requires ModelsSet(true, c, byCid, NoFilter, before, Arr(ModelsByReference(c, before.sel, byCid)), false, out, after)
    ensures out == Pass && after == before
  {
    ModelsByReferenceAgree(c, before.sel, byCid);
    ModelsSetBackUnchanged(c, byCid, NoFilter, s, before, false, out, after);
  }

  // -----------------------------------------------------------------------
  // The list `render` leaves

  /** `$( el ).attr( "data-item-id", id )`: `undefined` only reads the
      attribute, `null` removes it, anything else writes `String( id )`. */
  function RetagRow(row: Row, ref: Value): (r: Row)
    ensures r.visible == row.visible && r.marked == row.marked
  {
    if ref.Undefined? then row
    else if ref.Null? then row.(itemId := None)
    else row.(itemId := Some(Text(ref)))
  }

  /** The loop over the models after the list is built: the `k`-th child
      of the list is tagged with the reference id of the `k`-th model;
      children past the last model keep their attribute, and models past
      the last child tag nothing. */
  function Retagged(rows: seq<Row>, c: seq<Record>, byCid: bool): (r: seq<Row>)
    ensures |r| == |rows|
    ensures forall k | 0 <= k < |rows| :: r[k].visible == rows[k].visible && r[k].marked == rows[k].marked
  {
    seq(|rows|, k requires 0 <= k < |rows| => if k < |c| then RetagRow(rows[k], RefId(c[k], byCid)) else rows[k])
  }

  /** The elements `$.tmpl` makes of the models, one per model, shown, and
      not yet tagged. */
  function Blank(n: nat): seq<Row>
  {
    seq(n, _ => Row(None, true, false))
  }

  /** The list a complete render leaves: the wrapped model views, the
      template's elements, or the children already there, then tagged. */
  function RenderedList(c: seq<Record>, byCid: bool, modelView: bool, templated: bool, hides: Value -> bool, previous: seq<Row>): seq<Row>
  {
    var built := if modelView then ItemRows(c, byCid, false, hides, None)
                 else if templated then Blank(|c|)
                 else previous;
    Retagged(built, c, byCid)
  }

  /** Tagging the template's elements gives the list the newer revisions
      build with a template: an `undefined` or `null` id leaves the
      element without an attribute. */
  lemma TemplateRetagged(c: seq<Record>, byCid: bool, hides: Value -> bool)
    ensures Retagged(Blank(|c|), c, byCid) == ItemRows(c, byCid, true, hides, None)
  {
    ItemRowsAt(c, byCid, true, hides, None);
  }

  /** Tagging wrapped model views again changes nothing, except that a
      `null` id, written as the text `null` by the wrapper, is removed. */
  lemma ModelViewsRetagged(c: seq<Record>, byCid: bool, hides: Value -> bool)
    ensures var r := Retagged(ItemRows(c, byCid, false, hides, None), c, byCid);
            forall k | 0 <= k < |c| ::
              r[k] == if RefId(c[k], byCid).Null? then ItemRow(c[k], byCid, false, hides, None).(itemId := None)
                      else ItemRow(c[k], byCid, false, hides, None)
  {
    ItemRowsAt(c, byCid, false, hides, None);
  }

  /** So a model with a `null` id gets no line: it cannot be clicked, nor
      set by line. */
  lemma NullIdHasNoLine(rows: seq<Row>, c: seq<Record>, k: int)
    requires 0 <= k < |c| && k < |rows| && c[k].id.Null?
    ensures Retagged(rows, c, false)[k].itemId.None?
  {
  }

  lemma {:induction false} ItemRowsAt(c: seq<Record>, byCid: bool, templated: bool, hides: Value -> bool, visible: Option<Value -> bool>)
    ensures |ItemRows(c, byCid, templated, hides, visible)| == |c|
    ensures forall k | 0 <= k < |c| :: ItemRows(c, byCid, templated, hides, visible)[k] == ItemRow(c[k], byCid, templated, hides, visible)
    decreases |c|
  {
    if c != [] {
      ItemRowsAt(c[..|c| - 1], byCid, templated, hides, visible);
    }
  }

  /** With model views or a template, every model referenced by a plain
      id, and no model view hiding itself, the lines of the rendered list
      are the models, in collection order, tagged with their reference
      ids. */
  lemma RenderedLines(c: seq<Record>, byCid: bool, modelView: bool, templated: bool, hides: Value -> bool, previous: seq<Row>)
    requires modelView || templated
    requires forall m | m in c :: Defined(RefId(m, byCid))
    requires modelView ==> forall m | m in c :: !hides(ModelRef(m))
    ensures var attrs := Attrs(Lines(RenderedList(c, byCid, modelView, templated, hides, previous)));
            && |attrs| == |c|
            && forall k | 0 <= k < |c| :: attrs[k] == Str(Text(RefId(c[k], byCid)))
  {
    var t := !modelView;
    if modelView {
      ModelViewsRetagged(c, byCid, hides);
      ItemRowsAt(c, byCid, false, hides, None);
      assert forall k | 0 <= k < |c| :: c[k] in c;
      assert RenderedList(c, byCid, modelView, templated, hides, previous) == ItemRows(c, byCid, false, hides, None);
    } else {
      TemplateRetagged(c, byCid, hides);
    }
    ItemLines(c, byCid, t, hides, None);
    ShownTags(c, byCid, t, hides);
  }

  /** The behaviour the restore was written for: when the selected model,
      on line `k + 1`, is removed from the collection, the re-render
      selects the model that followed it, which now sits on that line, or
      nothing when the removed model was the last. */
  lemma RemovedLineSelectsNext(c: seq<Record>, byCid: bool, k: int, modelView: bool, templated: bool, hides: Value -> bool,
                               before: Snapshot, after: Snapshot)
    requires WellFormed(c) && PlainRefIds(c, byCid) && 0 <= k < |c|
    requires modelView || templated
    requires modelView ==> forall m | m in c :: !hides(ModelRef(m))
    requires before.sel == [RefId(c[k], byCid)] && MarkedLines(Lines(before.rows), FirstLine) == [Number(FirstLine + k)]
    requires RenderedByLines(true, RestoreSilently, Remove(c, c[k]), byCid, NoFilter, FirstLine,
                             RenderedList(Remove(c, c[k]), byCid, modelView, templated, hides, before.rows), before, after)
    ensures after.sel == if k + 1 < |c| then [RefId(c[k + 1], byCid)] else []
  {
    var d := Remove(c, c[k]);
    RemoveAt(c, k);
    RemoveKeepsWellFormed(c, c[k]);
    RenderedLines(d, byCid, modelView, templated, hides, before.rows);
    var attrs := Attrs(Lines(RenderedList(d, byCid, modelView, templated, hides, before.rows)));
    var x := RefId(c[k], byCid);
    assert c[k] in c;
    ConvertOne(x);
    RefIdGone(c, c[k], byCid);
    ValidateGone(d, x, byCid, NoFilter);
    assert after.sel == AtLines(d, byCid, NoFilter, attrs, [Number(FirstLine + k)], FirstLine);
    SingleLineSelects(d, byCid, NoFilter, attrs, FirstLine + k, FirstLine);
    if k + 1 < |c| {
      var y := RefId(c[k + 1], byCid);
      assert d[k] == c[k + 1] && c[k + 1] in c;
      TextThenConvert(y);
      assert ConvertStringsToInts([attrs[k]]) == [y] by {
        assert ConvertStringsToInts([attrs[k]])[0] == ConvertStringToInt(attrs[k]);
      }
      RefIdInCollection(d, d[k], byCid);
      ValidateSingle(d, y, byCid, NoFilter);
    }
  }

  /** The tagging loop of `render`. */
  method Retag(list: seq<Row>, c: seq<Record>, byCid: bool) returns (r: seq<Row>)
    ensures r == Retagged(list, c, byCid)
  {
    r := list;
    var curElNum := 0;
    while curElNum < |c|
      invariant 0 <= curElNum <= |c|
      invariant |r| == |list|
      invariant forall k | 0 <= k < |r| ::
                  r[k] == if k < curElNum then RetagRow(list[k], RefId(c[k], byCid)) else list[k]
    {
      if curElNum < |r| {
        r := r[curElNum := RetagRow(r[curElNum], RefId(c[curElNum], byCid))];
      }
      curElNum := curElNum + 1;
    }
  }

  class CollectionList {

    var collection: seq<Record>
    var selectedItems: seq<Value>
    var savedSelection: Option<SavedLines>
    /** `modelViewsByReferenceId`, `None` until a render with a model
        view. */
    var viewsByRef: Option<map<string, ItemView>>
    var rows: seq<Row>
    var log: seq<Event>

    /** `referenceModelsByCid`. */
    const byCid: bool
    const selectable: bool
    const selectMultiple: bool
    const processKeyEvents: bool
    /** Whether a `modelView` was given. */
    const modelView: bool
    /** The models whose model view's `render` returns `false`. */
    const modelViewHides: Value -> bool
    /** Whether an `.item-template` was found. */
    const templated: bool

    ghost predicate Valid()
      reads this`collection, this`selectedItems
    {
      && WellFormed(collection)
      && NoDup(selectedItems)
      && Unconvertible(selectedItems)
      && (!selectable ==> selectedItems == [])
    }

    function Snap(): Snapshot
      reads this`selectedItems, this`rows, this`log
    {
      Snapshot(selectedItems, rows, log)
    }

    /** `initialize`: models are referenced by cid, and the list is
        selectable and handles keys, unless told otherwise; nothing is
        rendered yet. */
    constructor (models: seq<Record>, byCidOption: Value, selectableOption: Value, selectMultipleOption: Value,
                 processKeyEventsOption: Value, withModelView: bool, hides: Value -> bool, withTemplate: bool)
      requires WellFormed(models)
      ensures Valid()
      ensures collection == models && selectedItems == [] && rows == [] && log == []
      ensures savedSelection.None? && viewsByRef.None?
      ensures byCid == Flag(byCidOption, true) && selectable == Flag(selectableOption, true)
      ensures selectMultiple == Flag(selectMultipleOption, false) && processKeyEvents == Flag(processKeyEventsOption, true)
      ensures modelView == withModelView && modelViewHides == hides && templated == withTemplate
    {
      collection := models;
      selectedItems := [];
      savedSelection := None;
      viewsByRef := None;
      rows := [];
      log := [];
      byCid := Flag(byCidOption, true);
      selectable := Flag(selectableOption, true);
      selectMultiple := Flag(selectMultipleOption, false);
      processKeyEvents := Flag(processKeyEventsOption, true);
      modelView := withModelView;
      modelViewHides := hides;
      templated := withTemplate;
    }

    // ---------------------------------------------------------------------
    // Reading the selection

    /** `getSelectedModels()`. */
    method GetSelectedModels() returns (r: seq<Value>)
      ensures r == ModelsByReference(collection, selectedItems, byCid)
    {
      r := [];
      var i := 0;
      while i < |selectedItems|
        invariant 0 <= i <= |selectedItems|
        invariant r == ModelsByReference(collection, selectedItems[..i], byCid)
      {
        r := r + [ModelValue(ModelByReferenceId(collection, selectedItems[i], byCid))];
        i := i + 1;
      }
      assert selectedItems[..i] == selectedItems;
    }

    /** `getSelectedModelViews()`. */
    method GetSelectedModelViews() returns (r: Result<seq<Value>>)
      ensures r == SelectedModelViews(viewsByRef, selectedItems)
    {
      if viewsByRef.None? {
        if selectedItems == [] {
          return Success([]);
        }
        return Failure(TypeError);
      }
      r := Success(SelectedViews(viewsByRef.value, selectedItems));
    }

    /** `getSelectedLines()`: the numbers, from 1, of the marked visible
        lines. */
    method GetSelectedLines() returns (r: seq<Value>)
      ensures r == MarkedLines(Lines(rows), FirstLine)
    {
      r := CollectMarkedLines(rows, FirstLine);
    }

    // ---------------------------------------------------------------------
    // Setting the selection

    /** `setSelectedItems( items )`. */
    method SetSelectedItems(items: Value) returns (out: Outcome)
      requires Valid()
      modifies this`selectedItems, this`rows, this`log
      ensures Valid()
      ensures ItemsSet(selectable, collection, byCid, NoFilter, old(Snap()), items, false, out, Snap())
      ensures SameUpToMarks(rows, old(rows))
      ensures Appended(old(log), log)
      ensures MarkersAgree(old(rows), old(selectedItems)) ==> MarkersAgree(rows, selectedItems)
      ensures (out.Pass? && MarkedWithin(old(rows), old(selectedItems))
               && Elems(selectedItems) != Elems(old(selectedItems))) ==> MarkersAgree(rows, selectedItems)
    {
      if !selectable {
        return Fail(NotSelectable);
      }
      if !items.Arr? {
        return Fail(InvalidParameter);
      }
      ghost var before := Snap();
      Commit(Validate(collection, ConvertStringsToInts(items.elems), byCid, NoFilter));
      out := Pass;
      ItemsSetProperties(true, collection, byCid, NoFilter, before, items, false, out, Snap());
    }

    /** The end of `setSelectedItems`: store the validated ids, then, if
        the set changed, `_selectionChanged`: update the markers, trigger
        `selectionChanged` and update the dependent controls. */
    method Commit(newSel: seq<Value>)
      requires Valid() && NoDup(newSel) && Unconvertible(newSel)
      requires !selectable ==> newSel == []
      modifies this`selectedItems, this`rows, this`log
      ensures Valid()
      ensures selectedItems == newSel
      ensures CommittedIds(old(Snap()), Snap(), false)
    {
      var oldSelectedItems := selectedItems;
      selectedItems := newSel;
      SameElementsIffSameSet(selectedItems, oldSelectedItems);
      SameElementsIffSameSet(oldSelectedItems, selectedItems);
      if !ContainSameElements(selectedItems, oldSelectedItems) {
        rows := Remark(rows, oldSelectedItems, selectedItems);
        log := log + [SelectionChanged(selectedItems, oldSelectedItems)];
        UpdateDependentControls();
      }
    }

    /** `setSelectedItem( item )`. */
    method SetSelectedItem(item: Value) returns (out: Outcome)
      requires Valid()
      modifies this`selectedItems, this`rows, this`log
      ensures Valid()
      ensures ItemsSet(selectable, collection, byCid, NoFilter, old(Snap()), Arr([item]), false, out, Snap())
      ensures SameUpToMarks(rows, old(rows)) && Appended(old(log), log)
      ensures MarkersAgree(old(rows), old(selectedItems)) ==> MarkersAgree(rows, selectedItems)
    {
      out := SetSelectedItems(Arr([item]));
    }

    /** `setSelectedModel( m )`. */
    method SetSelectedModel(m: Value) returns (out: Outcome)
      requires Valid()
      modifies this`selectedItems, this`rows, this`log
      ensures Valid()
      ensures ModelSet(selectable, collection, byCid, old(Snap()), m, out, Snap())
      ensures SameUpToMarks(rows, old(rows)) && Appended(old(log), log)
      ensures MarkersAgree(old(rows), old(selectedItems)) ==> MarkersAgree(rows, selectedItems)
    {
      var ref := ReferenceOf(m, byCid);
      if ref.Failure? {
        return Fail(ref.error);
      }
      out := SetSelectedItem(ref.value);
    }

    /** `setSelectedModels( models )`. */
    method SetSelectedModels(models: Value) returns (out: Outcome)
      requires Valid()
      modifies this`selectedItems, this`rows, this`log
      ensures Valid()
      ensures ModelsSet(selectable, collection, byCid, NoFilter, old(Snap()), models, false, out, Snap())
      ensures SameUpToMarks(rows, old(rows)) && Appended(old(log), log)
      ensures MarkersAgree(old(rows), old(selectedItems)) ==> MarkersAgree(rows, selectedItems)
    {
      if !models.Arr? {
        return Fail(InvalidParameter);
      }
      var refs := ReferencesOf(models.elems, byCid);
      if refs.Failure? {
        return Fail(refs.error);
      }
      out := SetSelectedItems(Arr(refs.value));
    }

    /** `setSelectedLines( lines )`, with the loop over the visible
        lines. */
    method SetSelectedLines(lines: Value) returns (out: Outcome)
      requires Valid()
      modifies this`selectedItems, this`rows, this`log
      ensures Valid()
      ensures LinesSet(selectable, collection, byCid, NoFilter, old(Snap()), lines, false, out, Snap())
      ensures SameUpToMarks(rows, old(rows)) && Appended(old(log), log)
      ensures MarkersAgree(old(rows), old(selectedItems)) ==> MarkersAgree(rows, selectedItems)
    {
      if !lines.Arr? {
        return Fail(InvalidParameter);
      }
      var items := CollectItemsAtLines(rows, lines.elems, FirstLine);
      out := SetSelectedItems(Arr(items));
    }

    /** `setSelectedLine( line, autoContrainToList )`. */
    method SetSelectedLine(line: int, constrain: Value) returns (out: Outcome)
      requires Valid()
      modifies this`selectedItems, this`rows, this`log
      ensures Valid()
      ensures LinesSet(selectable, collection, byCid, NoFilter, old(Snap()),
                       Arr([Number(LineAskedFor(line, constrain, old(rows)))]), false, out, Snap())
      ensures SameUpToMarks(rows, old(rows)) && Appended(old(log), log)
      ensures MarkersAgree(old(rows), old(selectedItems)) ==> MarkersAgree(rows, selectedItems)
    {
      var selectedLine := line;
      if constrain.Undefined? || Truthy(constrain) {
        var lineCount := CountLines(rows);
        selectedLine := ClampLine(line, lineCount);
      }
      out := SetSelectedLines(Arr([Number(selectedLine)]));
    }

    /** `selectNone()`. */
    method SelectNone() returns (out: Outcome)
      requires Valid()
      modifies this`selectedItems, this`rows, this`log
      ensures Valid()
      ensures ItemsSet(selectable, collection, byCid, NoFilter, old(Snap()), Arr([]), false, out, Snap())
      ensures out == Pass <==> selectable
      ensures out.Pass? ==> selectedItems == []
      ensures SameUpToMarks(rows, old(rows)) && Appended(old(log), log)
      ensures MarkersAgree(old(rows), old(selectedItems)) ==> MarkersAgree(rows, selectedItems)
      ensures out.Pass? && MarkedWithin(old(rows), old(selectedItems)) ==> MarkersAgree(rows, selectedItems)
    {
      out := SetSelectedItems(Arr([]));
      ItemsSetNothing(selectable, collection, byCid, NoFilter, old(Snap()), false, out, Snap());
      if out.Pass? && MarkedWithin(old(rows), old(selectedItems)) && Elems(old(selectedItems)) == {} {
        assert old(selectedItems) == [] by {
          NoDupCard(old(selectedItems));
        }
      }
    }

    // ---------------------------------------------------------------------
    // Saving, restoring and rendering

    /** `saveSelection()`. */
    method SaveSelection() returns (out: Outcome)
      modifies this`savedSelection
      ensures !selectable ==> out == Fail(SaveOnNonSelectable) && savedSelection == old(savedSelection)
      ensures selectable ==>
                out == Pass && savedSelection == Some(SavedLines(selectedItems, MarkedLines(Lines(rows), FirstLine)))
    {
      if !selectable {
        return Fail(SaveOnNonSelectable);
      }
      var lines := GetSelectedLines();
      savedSelection := Some(SavedLines(selectedItems, lines));
      out := Pass;
    }

    /** `restoreSelection()`: clear, select the saved ids, and when none
        of them is left select the saved lines; every step announces its
        change. */
    method RestoreSelection() returns (out: Outcome)
      requires Valid()
      modifies this`selectedItems, this`rows, this`log, this`savedSelection
      ensures Valid()
      ensures SameUpToMarks(rows, old(rows))
      ensures Appended(old(log), log)
      ensures old(savedSelection).None? ==>
                out == Fail(NothingSaved) && Snap() == old(Snap()) && savedSelection == old(savedSelection)
      ensures old(savedSelection).Some? && !selectable ==>
                out == Fail(NotSelectable) && Snap() == old(Snap()) && savedSelection == old(savedSelection)
      ensures old(savedSelection).Some? && selectable ==>
                && out == Pass && savedSelection.None?
                && selectedItems == RestoredByLines(collection, byCid, NoFilter, old(savedSelection).value,
                                                    Attrs(Lines(old(rows))), FirstLine)
                && log == old(log) + RestoreNotices(RestoreSilently, old(selectedItems), selectedItems)
      ensures out.Pass? && MarkedWithin(old(rows), old(selectedItems)) ==> MarkersAgree(rows, selectedItems)
    {
      if savedSelection.None? {
        return Fail(NothingSaved);
      }
      var saved := savedSelection.value;
      out := SelectNone();
      if out.Fail? {
        return;
      }
      ghost var s1 := Snap();
      ClearReported(collection, byCid, NoFilter, old(Snap()), RestoreSilently, out, s1);
      LineAttrsIgnoreMarks(rows, old(rows));
      Reselect(saved);
      RestoreNoticesCompose(RestoreSilently, old(Snap()), s1, Snap());
      savedSelection := None;
    }

    /** The part of `restoreSelection` after the selection was cleared:
        what it reports is the commit of the restored ids to the empty
        selection. */
    method Reselect(saved: SavedLines)
      requires Valid() && selectable && selectedItems == []
      modifies this`selectedItems, this`rows, this`log
      ensures Valid()
      ensures SameUpToMarks(rows, old(rows))
      ensures Appended(old(log), log)
      ensures selectedItems == RestoredByLines(collection, byCid, NoFilter, saved, Attrs(Lines(old(rows))), FirstLine)
      ensures log == old(log) + Notice(selectedItems != [], RestoreSilently, SelectionChanged(selectedItems, []),
                                       Event.UpdateDependentControls(selectedItems))
      ensures MarkersAgree(old(rows), []) ==> MarkersAgree(rows, selectedItems)
    {
      if |saved.items| > 0 {
        ghost var s1 := Snap();
        var byId := SetSelectedItems(Arr(saved.items));
        SetFromNothingReported(collection, byCid, NoFilter, s1, saved.items, RestoreSilently, byId, Snap());
        if |selectedItems| == 0 {
          ghost var s2 := Snap();
          var byLine := SetSelectedLines(Arr(saved.lines));
          AppendedTrans(s1.log, s2.log, log);
          LineAttrsIgnoreMarks(s2.rows, s1.rows);
          LinesSelect(collection, byCid, NoFilter, s2, saved.lines, RestoreSilently, byLine, Snap());
          SetFromNothingReported(collection, byCid, NoFilter, s2,
                                 ItemsAtLines(Attrs(Lines(s2.rows)), saved.lines, FirstLine), RestoreSilently, byLine, Snap());
        }
      } else {
        ValidateNothing(collection, byCid, NoFilter);
      }
    }

    /** The list a complete render leaves, given the list before it. */
    function Layout(previous: seq<Row>): seq<Row>
      reads this`collection
    {
      RenderedList(collection, byCid, modelView, templated, modelViewHides, previous)
    }

    /** How many models a render gets through: all of them, unless model
        views are built and one model has no reference id. */
    function Reached(): nat
      reads this`collection
    {
      if modelView then UnreferencedIndex(collection, byCid) else |collection|
    }

    /** `render()`: save the selection, build the list (and, with a model
        view, `modelViewsByReferenceId`), tag its children, trigger
        `render`, restore the selection and update the dependent
        controls. A model view without a reference id throws midway,
        leaving the list and the registry with the models before it. */
    method Render() returns (out: Outcome)
      requires Valid()
      modifies this`selectedItems, this`rows, this`log, this`savedSelection, this`viewsByRef
      ensures Valid()
      ensures out.Pass? <==> Reached() == |collection|
      ensures out.Pass? ==>
                && viewsByRef == (if modelView then Some(ViewMap(collection, byCid)) else old(viewsByRef))
                && RenderedByLines(selectable, RestoreSilently, collection, byCid, NoFilter, FirstLine, Layout(old(rows)), old(Snap()), Snap())
                && (selectable ==> savedSelection.None?)
                && (!selectable ==> savedSelection == old(savedSelection))
      ensures out.Fail? ==>
                && out == Fail(NoReferenceId)
                && rows == ItemRows(collection[..Reached()], byCid, false, modelViewHides, None)
                && viewsByRef == Some(ViewMap(collection[..Reached()], byCid))
                && selectedItems == old(selectedItems) && log == old(log)
                && (selectable ==> savedSelection == Some(SavedLines(old(selectedItems), MarkedLines(Lines(old(rows)), FirstLine))))
                && (!selectable ==> savedSelection == old(savedSelection))
    {
      ghost var before := Snap();
      if selectable {
        var saved := SaveSelection();
      }
      var list := rows;
      if modelView {
        var built, views, reached := BuildList();
        viewsByRef := Some(views);
        rows := built;
        if reached < |collection| {
          return Fail(NoReferenceId);
        }
        assert collection[..|collection|] == collection;
        list := built;
      } else if templated {
        list := Blank(|collection|);
      }
      list := Retag(list, collection, byCid);
      Finish(before, list);
      out := Pass;
    }

    /** The end of a render that got through every model: the tagged list
        is shown, `render` is triggered, then a selectable list restores
        its selection and updates the dependent controls. */
    method Finish(ghost before: Snapshot, list: seq<Row>)
      requires Valid() && selectedItems == before.sel && log == before.log
      requires selectable ==> savedSelection == Some(SavedLines(before.sel, MarkedLines(Lines(before.rows), FirstLine)))
      modifies this`selectedItems, this`rows, this`log, this`savedSelection
      ensures Valid()
      ensures RenderedByLines(selectable, RestoreSilently, collection, byCid, NoFilter, FirstLine, list, before, Snap())
      ensures selectable ==> savedSelection.None?
      ensures !selectable ==> savedSelection == old(savedSelection)
    {
      rows := list;
      log := log + [Event.Render];
      if selectable {
        RestoreAndNotify(before, list);
      }
    }

    /** The `collection.each` loop that builds the model views. */
    method BuildList() returns (list: seq<Row>, views: map<string, ItemView>, reached: nat)
      requires modelView
      ensures reached == Reached()
      ensures list == ItemRows(collection[..reached], byCid, false, modelViewHides, None)
      ensures views == ViewMap(collection[..reached], byCid)
    {
      var c := collection;
      list := [];
      views := map[];
      var i := 0;
      while i < |c|
        invariant 0 <= i <= |c|
        invariant i <= UnreferencedIndex(c, byCid)
        invariant list == ItemRows(c[..i], byCid, false, modelViewHides, None)
        invariant views == ViewMap(c[..i], byCid)
      {
        var thisModelReferenceId := RefId(c[i], byCid);
        if thisModelReferenceId.Undefined? {
          return list, views, i;
        }
        assert c[..i + 1][..i] == c[..i];
        list := list + [ItemRow(c[i], byCid, false, modelViewHides, None)];
        views := views[Text(thisModelReferenceId) := ItemView(c[i])];
        i := i + 1;
      }
      reached := i;
    }

    /** The end of `render` on a selectable list: `restoreSelection`,
        then `updateDependentControls`. */
    method RestoreAndNotify(ghost before: Snapshot, ghost list: seq<Row>)
      requires Valid() && selectable
      requires savedSelection == Some(SavedLines(before.sel, MarkedLines(Lines(before.rows), FirstLine)))
      requires Snap() == Snapshot(before.sel, list, before.log + [Event.Render])
      modifies this`selectedItems, this`rows, this`log, this`savedSelection
      ensures Valid() && savedSelection.None?
      ensures RenderedByLines(true, RestoreSilently, collection, byCid, NoFilter, FirstLine, list, before, Snap())
    {
      ghost var s0 := Snap();
      var restored := RestoreSelection();
      ghost var s1 := Snap();
      UpdateDependentControls();
      RenderByLinesComposes(RestoreSilently, collection, byCid, NoFilter, FirstLine, list, before, s0, s1, Snap());
    }

    /** `updateDependentControls()`. */
    method UpdateDependentControls()
      modifies this`log
      ensures log == old(log) + [Event.UpdateDependentControls(selectedItems)]
    {
      log := log + [Event.UpdateDependentControls(selectedItems)];
    }

    /** The collection's `add` event: Backbone adds a model that is not
        there yet, and the list renders. */
    method CollectionAdd(m: Record, at: Option<int>) returns (out: Outcome)
      requires Valid() && Compatible(collection, m)
      modifies this`collection, this`selectedItems, this`rows, this`log, this`savedSelection, this`viewsByRef
      ensures Valid()
      ensures collection == Add(old(collection), m, at)
      ensures m in old(collection) ==> out == Pass && Snap() == old(Snap()) && viewsByRef == old(viewsByRef)
      ensures m !in old(collection) ==>
                && multiset(collection) == multiset(old(collection)) + multiset{m}
                && (out.Pass? <==> Reached() == |collection|)
                && (out.Pass? ==> RenderedByLines(selectable, RestoreSilently, collection, byCid, NoFilter, FirstLine,
                                                  Layout(old(rows)), old(Snap()), Snap()))
    {
      AddKeepsWellFormed(collection, m, at);
      if m in collection {
        return Pass;
      }
      collection := Add(collection, m, at);
      out := Render();
    }

    /** The collection's `remove` event: the list renders, with the
        selection as it was. */
    method CollectionRemove(m: Record) returns (out: Outcome)
      requires Valid()
      modifies this`collection, this`selectedItems, this`rows, this`log, this`savedSelection, this`viewsByRef
      ensures Valid()
      ensures m !in old(collection) ==> out == Pass && collection == old(collection) && Snap() == old(Snap())
      ensures m in old(collection) ==>
                && collection == Remove(old(collection), m)
                && (out.Pass? <==> Reached() == |collection|)
                && (out.Pass? ==> RenderedByLines(selectable, RestoreSilently, collection, byCid, NoFilter, FirstLine,
                                                  Layout(old(rows)), old(Snap()), Snap()))
    {
      if m !in collection {
        return Pass;
      }
      RemoveKeepsWellFormed(collection, m);
      collection := Remove(collection, m);
      out := Render();
    }

    /** `setCollection( newCollection )`: store the collection and
        render. */
    method SetCollection(models: seq<Record>) returns (out: Outcome)
      requires Valid() && WellFormed(models)
      modifies this`collection, this`selectedItems, this`rows, this`log, this`savedSelection, this`viewsByRef
      ensures Valid()
      ensures collection == models
      ensures out.Pass? <==> Reached() == |models|
      ensures out.Pass? ==>
                RenderedByLines(selectable, RestoreSilently, models, byCid, NoFilter, FirstLine, Layout(old(rows)), old(Snap()), Snap())
    {
      collection := models;
      out := Render();
    }

    // ---------------------------------------------------------------------
    // Drags, keys and clicks

    /** `_reorderCollectionBasedOnHTML`: walk the children in document
        order, moving every model they name to the end of the collection,
        then trigger `reorder`. The source triggers `reorder` on the
        collection, not on the view; the model records it in the view's
        log, which stands for every event observers can see. */
    method ReorderCollectionBasedOnHtml()
      requires Valid() && AllResolve(collection, rows, byCid)
      modifies this`collection, this`log
      ensures Valid()
      ensures collection == Reordered(old(collection), rows, byCid)
      ensures multiset(collection) == multiset(old(collection))
      ensures log == old(log) + [Event.Reorder]
    {
      var i := 0;
      while i < |rows|
        invariant 0 <= i <= |rows|
        invariant collection == Reordered(old(collection), rows[..i], byCid)
        invariant log == old(log)
      {
        ResolvedStep(old(collection), rows, i, byCid);
        var thisModelId := rows[i].itemId;
        if thisModelId.Some? && thisModelId.value != "" {
          AttributeLookup(collection, thisModelId.value, byCid);
          var thisModel := ModelByReferenceId(collection, Str(thisModelId.value), byCid);
          collection := Remove(collection, thisModel.value);
          collection := Add(collection, thisModel.value, None);
        }
        i := i + 1;
      }
      assert rows[..|rows|] == rows;
      ReorderedPermutes(old(collection), rows, byCid);
      WellFormedPermutation(old(collection), collection);
      log := log + [Event.Reorder];
    }

    /** The sortable's `stop`: the list's children are now `newRows`; the
        collection is reordered to follow them, the dependent controls are
        updated and `sortStop` is triggered. The selection is left as it
        was. */
    method SortStop(newRows: seq<Row>)
      requires Valid() && AllResolve(collection, newRows, byCid)
      modifies this`rows, this`collection, this`log
      ensures Valid()
      ensures rows == newRows
      ensures collection == Reordered(old(collection), newRows, byCid)
      ensures multiset(collection) == multiset(old(collection))
      ensures log == old(log) + [Event.Reorder, Event.UpdateDependentControls(selectedItems), SortStopped]
    {
      rows := newRows;
      ReorderCollectionBasedOnHtml();
      UpdateDependentControls();
      log := log + [SortStopped];
    }

    /** `_onKeydown( event )`, returning whether the event is passed on:
        with exactly one marked line, the up and down arrows select the
        line above or below, clamped to the list. */
    method OnKeydown(key: int) returns (passOn: bool, out: Outcome)
      requires Valid()
      modifies this`selectedItems, this`rows, this`log
      ensures Valid()
      ensures !(processKeyEvents && |MarkedLines(Lines(old(rows)), FirstLine)| == 1 && (key == UpArrow || key == DownArrow)) ==>
                passOn && out == Pass && Snap() == old(Snap())
      ensures processKeyEvents && |MarkedLines(Lines(old(rows)), FirstLine)| == 1 && (key == UpArrow || key == DownArrow) ==>
                && !passOn
                && MarkedLines(Lines(old(rows)), FirstLine)[0].Number?
                && LinesSet(selectable, collection, byCid, NoFilter, old(Snap()),
                            Arr([Number(ClampLine(MarkedLines(Lines(old(rows)), FirstLine)[0].n + (if key == UpArrow then -1 else 1),
                                                  |Lines(old(rows))|))]),
                            false, out, Snap())
    {
      passOn, out := true, Pass;
      if !processKeyEvents {
        return;
      }
      var lines := GetSelectedLines();
      if |lines| == 1 && (key == UpArrow || key == DownArrow) {
        FirstMarkedLineIsNumber(Lines(rows), FirstLine);
        var line := lines[0].n + (if key == UpArrow then -1 else 1);
        out := SetSelectedLine(line, Undefined);
        passOn := false;
      }
    }

    /** `_listItem_onClick( theEvent )`: on a selectable list, the ids the
        click rules pick are set; only the meta key toggles. */
    method OnItemClick(click: Click) returns (out: Outcome)
      requires Valid()
      modifies this`selectedItems, this`rows, this`log
      ensures Valid()
      ensures !selectable ==> out == Pass && Snap() == old(Snap())
      ensures selectable ==>
                match ClickRequest(collection, old(selectedItems), byCid, selectMultiple, click.metaKey, click)
                case Failure(e) => out == Fail(e) && Snap() == old(Snap())
                case Success(req) =>
                  ItemsSet(true, collection, byCid, NoFilter, old(Snap()), Arr(req), false, out, Snap())
    {
      if !selectable {
        return Pass;
      }
      var req := ClickedItems(collection, selectedItems, byCid, selectMultiple, click.metaKey, click);
      if req.Failure? {
        return Fail(req.error);
      }
      out := SetSelectedItems(Arr(req.value));
    }

    /** `_listBackground_onClick( theEvent )`: a click on the list element
        itself clears the selection of a selectable list. */
    method OnBackgroundClick(onList: bool) returns (out: Outcome)
      requires Valid()
      modifies this`selectedItems, this`rows, this`log
      ensures Valid()
      ensures out == Pass
      ensures !(selectable && onList) ==> Snap() == old(Snap())
      ensures selectable && onList ==>
                && selectedItems == []
                && ItemsSet(true, collection, byCid, NoFilter, old(Snap()), Arr([]), false, out, Snap())
                && log == old(log) + Notice(old(selectedItems) != [], false, SelectionChanged([], old(selectedItems)),
                                            Event.UpdateDependentControls([]))
    {
      if !selectable || !onList {
        return Pass;
      }
      out := SelectNone();
      ClearReported(collection, byCid, NoFilter, old(Snap()), false, out, Snap());
    }
  }
}
