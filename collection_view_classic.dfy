/**
 * The classic `Backbone.CollectionView` (collectionView.js). Models are
 * referenced by cid, or by id when `referenceModelsByCid` is off; the
 * selection is held as those reference ids and the notifications carry
 * them. The setters are silent unless told otherwise, lines are counted
 * from 1, and the model views are kept in `modelViewsByReferenceId`.
 */
module CollectionViewClassic {

  import opened Js
  import opened Underscore
  import opened Backbone
  import opened Dom
  import opened Selection
  import opened Reorder
  import opened Clicks
  import opened Commits
  import opened Rendering
  import opened Addressing
  import opened LineAddressing
  import opened SelectedItems
  import opened NumberedLines

  /** `restoreSelection` calls `setSelectedItems` and `setSelectedLines`
      without options, so silently. */
  const RestoreSilently := true

  const UpArrow := 38
  const DownArrow := 40

  // -----------------------------------------------------------------------
  // The setters built on `setSelectedItems`

  /** `setSelectedModel( m, { silent : silent } )`: a falsy argument calls
      `selectNone()`, which drops the options; a model is set by its
      reference id. */
  predicate ModelSet(selectable: bool, c: seq<Record>, byCid: bool, f: Option<Value -> bool>,
                     before: Snapshot, m: Value, silent: bool, out: Outcome, after: Snapshot)
  {
    if !Truthy(m) then ItemsSet(selectable, c, byCid, f, before, Arr([]), true, out, after)
    else ItemsSet(selectable, c, byCid, f, before, Arr([ReferenceOf(m, byCid).value]), silent, out, after)
  }

  /** Whether `toggleItemSelected( itemId, trueOrFalse )` selects the
      item: as asked, or the opposite of its current state when
      `trueOrFalse` is left out. */
  function ToggleOn(sel: seq<Value>, itemId: Value, trueOrFalse: Value): bool
  {
    if trueOrFalse.Undefined? then !IsItemSelected(sel, itemId) else Truthy(trueOrFalse)
  }

  /** The list `toggleItemSelected` hands to `setSelectedItems`. */
  function ToggleRequest(sel: seq<Value>, itemId: Value, trueOrFalse: Value): seq<Value>
  {
    if ToggleOn(sel, itemId, trueOrFalse) then Union(sel, itemId) else Without(sel, itemId)
  }

  /** Toggling an id the setter can keep sets its membership as asked and
      leaves every other selected id in place. */
  lemma ToggleFlips(c: seq<Record>, byCid: bool, f: Option<Value -> bool>, before: Snapshot,
                    x: Value, t: Value, silent: bool, out: Outcome, after: Snapshot)
    requires NoDup(before.sel) && Unconvertible(before.sel)
    requires forall y | y in before.sel :: y in RefIds(c, byCid) && Selectable(c, y, f)
    requires !(x.Str? && IsNumeral(x.s))
    requires ItemsSet(true, c, byCid, f, before, Arr(ToggleRequest(before.sel, x, t)), silent, out, after)
    ensures out == Pass
    ensures forall y :: y in after.sel <==>
              if y == x then ToggleOn(before.sel, x, t) && x in RefIds(c, byCid) && Selectable(c, x, f)
              else y in before.sel
  {
    var req := ToggleRequest(before.sel, x, t);
    assert forall y :: y in req <==> if y == x then ToggleOn(before.sel, x, t) else y in before.sel by {
      if ToggleOn(before.sel, x, t) {
        UniqMembers(before.sel + [x]);
      }
    }
    assert Unconvertible(req);
    ConvertUnconvertible(req);
  }

  lemma UniqMembers(s: seq<Value>)
    ensures forall y :: y in Uniq(s) <==> y in s
  {
  }

  /** A model of the collection, set with `setSelectedModel`, becomes the
      whole selection when it passes the filter and its reference id is
      not a numeral string. */
  lemma ModelSelectsItself(c: seq<Record>, byCid: bool, f: Option<Value -> bool>, before: Snapshot,
                           m: Record, silent: bool, out: Outcome, after: Snapshot)
    requires m in c
    requires !(RefId(m, byCid).Str? && IsNumeral(RefId(m, byCid).s))
    requires ModelSet(true, c, byCid, f, before, ModelRef(m), silent, out, after)
    ensures out == Pass
    ensures after.sel == if Selectable(c, RefId(m, byCid), f) then [RefId(m, byCid)] else []
  {
    var x := RefId(m, byCid);
    ModelSetsReference(c, byCid, f, before, m, silent, out, after);
    RefIdInCollection(c, m, byCid);
    ValidateSingle(c, x, byCid, f);
  }

  lemma ModelSetsReference(c: seq<Record>, byCid: bool, f: Option<Value -> bool>, before: Snapshot,
                           m: Record, silent: bool, out: Outcome, after: Snapshot)
    requires !(RefId(m, byCid).Str? && IsNumeral(RefId(m, byCid).s))
    requires ModelSet(true, c, byCid, f, before, ModelRef(m), silent, out, after)
    ensures out == Pass && after.sel == Validate(c, [RefId(m, byCid)], byCid, f)
  {
    var x := RefId(m, byCid);
    assert ReferenceOf(ModelRef(m), byCid) == Success(x);
    assert ItemsSet(true, c, byCid, f, before, Arr([x]), silent, out, after);
    ConvertOne(x);
  }

  /** A model whose id is a numeral string can never be selected by id:
      `_convertStringsToInts` turns the id into a number first. */
  lemma NumeralIdNeverSelected(selectable: bool, c: seq<Record>, f: Option<Value -> bool>, before: Snapshot,
                               items: Value, silent: bool, out: Outcome, after: Snapshot, s: string)
    requires IsNumeral(s)
    requires ItemsSet(selectable, c, false, f, before, items, silent, out, after)
    ensures out.Pass? ==> Str(s) !in after.sel
  {
    if out.Pass? {
      ValidatedUnconvertible(c, items.elems, false, f);
    }
  }

  /** One more model in the list and the registry. */
  lemma BuildStep(c: seq<Record>, i: nat, byCid: bool, templated: bool, hides: Value -> bool, visible: Option<Value -> bool>)
    requires i < |c|
    ensures ItemRows(c[..i + 1], byCid, templated, hides, visible) == ItemRows(c[..i], byCid, templated, hides, visible) + [ItemRow(c[i], byCid, templated, hides, visible)]
    ensures ViewMap(c[..i + 1], byCid) == ViewMap(c[..i], byCid)[Text(RefId(c[i], byCid)) := ItemView(c[i])]
  {
    assert c[..i + 1][..i] == c[..i];
  }

  class CollectionView {

    var collection: seq<Record>
    var selectedItems: seq<Value>
    var savedSelection: Option<SavedLines>
    /** `modelViewsByReferenceId`, `None` before the first render. */
    var viewsByRef: Option<map<string, ItemView>>
    var rows: seq<Row>
    var log: seq<Event>

    /** `referenceModelsByCid`. */
    const byCid: bool
    const selectable: bool
    const clickToSelect: bool
    const selectMultiple: bool
    const clickToToggle: bool
    const processKeyEvents: bool
    const selectableModelsFilter: Option<Value -> bool>
    const visibleModelsFilter: Option<Value -> bool>
    /** The models whose model view's `render` returns `false`. */
    const modelViewHides: Value -> bool
    /** Whether an item template was found. */
    const templated: bool

    ghost predicate Valid()
      reads this`collection, this`selectedItems
    {
      && WellFormed(collection)
      && NoDup(selectedItems)
      && Unconvertible(selectedItems)
      && (!selectable ==> selectedItems == [])
    }

    function Snap(): Snapshot
      reads this`selectedItems, this`rows, this`log
    {
      Snapshot(selectedItems, rows, log)
    }

    /** `initialize`: models are referenced by cid, and the view is
        selectable, selects on click and handles keys, unless told
        otherwise; nothing is rendered yet. */
    constructor (models: seq<Record>, byCidOption: Value, selectableOption: Value, clickToSelectOption: Value,
                 selectMultipleOption: Value, clickToToggleOption: Value, processKeyEventsOption: Value,
                 filter: Option<Value -> bool>, visible: Option<Value -> bool>, hides: Value -> bool, withTemplate: bool)
      requires WellFormed(models)
      ensures Valid()
      ensures collection == models && selectedItems == [] && rows == [] && log == []
      ensures savedSelection.None? && viewsByRef.None?
      ensures byCid == Flag(byCidOption, true)
      ensures selectable == Flag(selectableOption, true) && clickToSelect == Flag(clickToSelectOption, true)
      ensures selectMultiple == Flag(selectMultipleOption, false) && clickToToggle == Flag(clickToToggleOption, false)
      ensures processKeyEvents == Flag(processKeyEventsOption, true)
      ensures selectableModelsFilter == filter && visibleModelsFilter == visible
      ensures modelViewHides == hides && templated == withTemplate
    {
      collection := models;
      selectedItems := [];
      savedSelection := None;
      viewsByRef := None;
      rows := [];
      log := [];
      byCid := Flag(byCidOption, true);
      selectable := Flag(selectableOption, true);
      clickToSelect := Flag(clickToSelectOption, true);
      selectMultiple := Flag(selectMultipleOption, false);
      clickToToggle := Flag(clickToToggleOption, false);
      processKeyEvents := Flag(processKeyEventsOption, true);
      selectableModelsFilter := filter;
      visibleModelsFilter := visible;
      modelViewHides := hides;
      templated := withTemplate;
    }

    // ---------------------------------------------------------------------
    // Reading the selection

    /** `getSelectedModels()`: `collection.get` of every selected id. */
    method GetSelectedModels() returns (r: seq<Value>)
      ensures r == Models(collection, selectedItems)
    {
      r := Models(collection, selectedItems);
    }

    /** `getSelectedModelViews()`. */
    method GetSelectedModelViews() returns (r: Result<seq<Value>>)
      ensures r == SelectedModelViews(viewsByRef, selectedItems)
    {
      if viewsByRef.None? {
        if selectedItems == [] {
          return Success([]);
        }
        return Failure(TypeError);
      }
      r := Success(SelectedViews(viewsByRef.value, selectedItems));
    }

    /** `getSelectedLines()`: the numbers, from 1, of the marked visible
        lines. */
    method GetSelectedLines() returns (r: seq<Value>)
      ensures r == MarkedLines(Lines(rows), FirstLine)
    {
      r := CollectMarkedLines(rows, FirstLine);
    }

    // ---------------------------------------------------------------------
    // Setting the selection

    /** `setSelectedItems( items, { silent : silent } )`. */
    method SetSelectedItems(items: Value, silent: bool) returns (out: Outcome)
      requires Valid()
      modifies this`selectedItems, this`rows, this`log
      ensures Valid()
      ensures ItemsSet(selectable, collection, byCid, selectableModelsFilter, old(Snap()), items, silent, out, Snap())
      ensures SameUpToMarks(rows, old(rows))
      ensures Appended(old(log), log)
      ensures MarkersAgree(old(rows), old(selectedItems)) ==> MarkersAgree(rows, selectedItems)
      ensures (out.Pass? && MarkedWithin(old(rows), old(selectedItems))
               && Elems(selectedItems) != Elems(old(selectedItems))) ==> MarkersAgree(rows, selectedItems)
    {
      if !selectable {
        return Fail(NotSelectable);
      }
      if !items.Arr? {
        return Fail(InvalidParameter);
      }
      ghost var before := Snap();
      Commit(Validate(collection, ConvertStringsToInts(items.elems), byCid, selectableModelsFilter), silent);
      out := Pass;
      ItemsSetProperties(true, collection, byCid, selectableModelsFilter, before, items, silent, out, Snap());
    }

    /** The end of `setSelectedItems`: store the validated ids, then
        update the markers and notify if the set changed. */
    method Commit(newSel: seq<Value>, silent: bool)
      requires Valid() && NoDup(newSel) && Unconvertible(newSel)
      requires !selectable ==> newSel == []
      modifies this`selectedItems, this`rows, this`log
      ensures Valid()
      ensures selectedItems == newSel
      ensures CommittedIds(old(Snap()), Snap(), silent)
    {
      var oldSelectedItems := selectedItems;
      selectedItems := newSel;
      SameElementsIffSameSet(selectedItems, oldSelectedItems);
      SameElementsIffSameSet(oldSelectedItems, selectedItems);
      if !ContainSameElements(selectedItems, oldSelectedItems) {
        rows := Remark(rows, oldSelectedItems, selectedItems);
        if !silent {
          log := log + [SelectionChanged(selectedItems, oldSelectedItems)];
        }
        log := log + [Event.UpdateDependentControls(selectedItems)];
      }
    }

    /** `setSelectedItem( item, { silent : silent } )`. */
    method SetSelectedItem(item: Value, silent: bool) returns (out: Outcome)
      requires Valid()
      modifies this`selectedItems, this`rows, this`log
      ensures Valid()
      ensures ItemsSet(selectable, collection, byCid, selectableModelsFilter, old(Snap()), Arr([item]), silent, out, Snap())
      ensures SameUpToMarks(rows, old(rows)) && Appended(old(log), log)
      ensures MarkersAgree(old(rows), old(selectedItems)) ==> MarkersAgree(rows, selectedItems)
    {
      out := SetSelectedItems(Arr([item]), silent);
    }

    /** `toggleItemSelected( itemId, trueOrFalse, { silent : silent } )`. */
    method ToggleItemSelected(itemId: Value, trueOrFalse: Value, silent: bool) returns (out: Outcome)
      requires Valid()
      modifies this`selectedItems, this`rows, this`log
      ensures Valid()
      ensures ItemsSet(selectable, collection, byCid, selectableModelsFilter, old(Snap()),
                       Arr(ToggleRequest(old(selectedItems), itemId, trueOrFalse)), silent, out, Snap())
      ensures SameUpToMarks(rows, old(rows)) && Appended(old(log), log)
      ensures MarkersAgree(old(rows), old(selectedItems)) ==> MarkersAgree(rows, selectedItems)
    {
      var on := if trueOrFalse.Undefined? then !IsItemSelected(selectedItems, itemId) else Truthy(trueOrFalse);
      var newSelectedItems := if on then Union(selectedItems, itemId) else Without(selectedItems, itemId);
      out := SetSelectedItems(Arr(newSelectedItems), silent);
    }

    /** `setSelectedModel( m, { silent : silent } )`. */
    method SetSelectedModel(m: Value, silent: bool) returns (out: Outcome)
      requires Valid()
      modifies this`selectedItems, this`rows, this`log
      ensures Valid()
      ensures ModelSet(selectable, collection, byCid, selectableModelsFilter, old(Snap()), m, silent, out, Snap())
      ensures SameUpToMarks(rows, old(rows)) && Appended(old(log), log)
      ensures MarkersAgree(old(rows), old(selectedItems)) ==> MarkersAgree(rows, selectedItems)
    {
      if !Truthy(m) {
        out := SelectNone(true);
      } else {
        var ref := ReferenceOf(m, byCid);
        out := SetSelectedItem(ref.value, silent);
      }
    }

    /** `setSelectedModels( models, { silent : silent } )`. */
    method SetSelectedModels(models: Value, silent: bool) returns (out: Outcome)
      requires Valid()
      modifies this`selectedItems, this`rows, this`log
      ensures Valid()
      ensures ModelsSet(selectable, collection, byCid, selectableModelsFilter, old(Snap()), models, silent, out, Snap())
      ensures SameUpToMarks(rows, old(rows)) && Appended(old(log), log)
      ensures MarkersAgree(old(rows), old(selectedItems)) ==> MarkersAgree(rows, selectedItems)
    {
      if !models.Arr? {
        return Fail(InvalidParameter);
      }
      var refs := ReferencesOf(models.elems, byCid);
      if refs.Failure? {
        return Fail(refs.error);
      }
      out := SetSelectedItems(Arr(refs.value), silent);
    }

    /** `setSelectedLines( lines, { silent : silent } )`, with the loop
        over the visible lines. */
    method SetSelectedLines(lines: Value, silent: bool) returns (out: Outcome)
      requires Valid()
      modifies this`selectedItems, this`rows, this`log
      ensures Valid()
      ensures LinesSet(selectable, collection, byCid, selectableModelsFilter, old(Snap()), lines, silent, out, Snap())
      ensures SameUpToMarks(rows, old(rows)) && Appended(old(log), log)
      ensures MarkersAgree(old(rows), old(selectedItems)) ==> MarkersAgree(rows, selectedItems)
    {
      if !lines.Arr? {
        return Fail(InvalidParameter);
      }
      var items := CollectItemsAtLines(rows, lines.elems, FirstLine);
      out := SetSelectedItems(Arr(items), silent);
    }

    /** `setSelectedLine( line, autoContrainToList, { silent : silent } )`. */
    method SetSelectedLine(line: int, constrain: Value, silent: bool) returns (out: Outcome)
      requires Valid()
      modifies this`selectedItems, this`rows, this`log
      ensures Valid()
      ensures LinesSet(selectable, collection, byCid, selectableModelsFilter, old(Snap()),
                       Arr([Number(LineAskedFor(line, constrain, old(rows)))]), silent, out, Snap())
      ensures SameUpToMarks(rows, old(rows)) && Appended(old(log), log)
      ensures MarkersAgree(old(rows), old(selectedItems)) ==> MarkersAgree(rows, selectedItems)
    {
      var selectedLine := line;
      if constrain.Undefined? || Truthy(constrain) {
        var lineCount := CountLines(rows);
        selectedLine := ClampLine(line, lineCount);
      }
      out := SetSelectedLines(Arr([Number(selectedLine)]), silent);
    }

    /** `selectNone( { silent : silent } )`. */
    method SelectNone(silent: bool) returns (out: Outcome)
      requires Valid()
      modifies this`selectedItems, this`rows, this`log
      ensures Valid()
      ensures ItemsSet(selectable, collection, byCid, selectableModelsFilter, old(Snap()), Arr([]), silent, out, Snap())
      ensures out == Pass <==> selectable
      ensures out.Pass? ==> selectedItems == []
      ensures SameUpToMarks(rows, old(rows)) && Appended(old(log), log)
      ensures MarkersAgree(old(rows), old(selectedItems)) ==> MarkersAgree(rows, selectedItems)
      ensures out.Pass? && MarkedWithin(old(rows), old(selectedItems)) ==> MarkersAgree(rows, selectedItems)
    {
      out := SetSelectedItems(Arr([]), silent);
      ItemsSetNothing(selectable, collection, byCid, selectableModelsFilter, old(Snap()), silent, out, Snap());
      if out.Pass? && MarkedWithin(old(rows), old(selectedItems)) && Elems(old(selectedItems)) == {} {
        assert old(selectedItems) == [] by {
          NoDupCard(old(selectedItems));
        }
      }
    }

    /** `_validateSelection`: the markers are not touched. */
    method ValidateSelection()
      requires Valid()
      modifies this`selectedItems
      ensures Valid()
      ensures selectedItems == Validate(collection, old(selectedItems), byCid, selectableModelsFilter)
    {
      selectedItems := Validate(collection, selectedItems, byCid, selectableModelsFilter);
      if !selectable {
        ValidateNothing(collection, byCid, selectableModelsFilter);
      }
    }

    // ---------------------------------------------------------------------
    // Saving, restoring and rendering

    /** `saveSelection()`. */
    method SaveSelection() returns (out: Outcome)
      modifies this`savedSelection
      ensures !selectable ==> out == Fail(SaveOnNonSelectable) && savedSelection == old(savedSelection)
      ensures selectable ==>
                out == Pass && savedSelection == Some(SavedLines(selectedItems, MarkedLines(Lines(rows), FirstLine)))
    {
      if !selectable {
        return Fail(SaveOnNonSelectable);
      }
      var lines := GetSelectedLines();
      savedSelection := Some(SavedLines(selectedItems, lines));
      out := Pass;
    }

    /** `restoreSelection()`: clear, select the saved ids, and when none
        of them is left select the saved lines; every step is silent. */
    method RestoreSelection() returns (out: Outcome)
      requires Valid()
      modifies this`selectedItems, this`rows, this`log, this`savedSelection
      ensures Valid()
      ensures SameUpToMarks(rows, old(rows))
      ensures Appended(old(log), log)
      ensures old(savedSelection).None? ==>
                out == Fail(NothingSaved) && Snap() == old(Snap()) && savedSelection == old(savedSelection)
      ensures old(savedSelection).Some? && !selectable ==>
                out == Fail(NotSelectable) && Snap() == old(Snap()) && savedSelection == old(savedSelection)
      ensures old(savedSelection).Some? && selectable ==>
                && out == Pass && savedSelection.None?
                && selectedItems == RestoredByLines(collection, byCid, selectableModelsFilter, old(savedSelection).value,
                                                    Attrs(Lines(old(rows))), FirstLine)
                && log == old(log) + RestoreNotices(RestoreSilently, old(selectedItems), selectedItems)
      ensures out.Pass? && MarkedWithin(old(rows), old(selectedItems)) ==> MarkersAgree(rows, selectedItems)
    {
      if savedSelection.None? {
        return Fail(NothingSaved);
      }
      var saved := savedSelection.value;
      out := SelectNone(RestoreSilently);
      if out.Fail? {
        return;
      }
      ghost var s1 := Snap();
      ClearReported(collection, byCid, selectableModelsFilter, old(Snap()), RestoreSilently, out, s1);
      LineAttrsIgnoreMarks(rows, old(rows));
      Reselect(saved);
      RestoreNoticesCompose(RestoreSilently, old(Snap()), s1, Snap());
      savedSelection := None;
    }

    /** The part of `restoreSelection` after the selection was cleared:
        what it reports is the commit of the restored ids to the empty
        selection. */
    method Reselect(saved: SavedLines)
      requires Valid() && selectable && selectedItems == []
      modifies this`selectedItems, this`rows, this`log
      ensures Valid()
      ensures SameUpToMarks(rows, old(rows))
      ensures Appended(old(log), log)
      ensures selectedItems == RestoredByLines(collection, byCid, selectableModelsFilter, saved, Attrs(Lines(old(rows))), FirstLine)
      ensures log == old(log) + Notice(selectedItems != [], RestoreSilently, SelectionChanged(selectedItems, []),
                                       Event.UpdateDependentControls(selectedItems))
      ensures MarkersAgree(old(rows), []) ==> MarkersAgree(rows, selectedItems)
    {
      if |saved.items| > 0 {
        ghost var s1 := Snap();
        var byId := SetSelectedItems(Arr(saved.items), RestoreSilently);
        SetFromNothingReported(collection, byCid, selectableModelsFilter, s1, saved.items, RestoreSilently, byId, Snap());
        if |selectedItems| == 0 {
          ghost var s2 := Snap();
          var byLine := SetSelectedLines(Arr(saved.lines), RestoreSilently);
          AppendedTrans(s1.log, s2.log, log);
          LineAttrsIgnoreMarks(s2.rows, s1.rows);
          LinesSelect(collection, byCid, selectableModelsFilter, s2, saved.lines, RestoreSilently, byLine, Snap());
          SetFromNothingReported(collection, byCid, selectableModelsFilter, s2,
                                 ItemsAtLines(Attrs(Lines(s2.rows)), saved.lines, FirstLine), RestoreSilently, byLine, Snap());
        }
      } else {
        ValidateNothing(collection, byCid, selectableModelsFilter);
      }
    }

    /** The list a complete render builds. */
    function Layout(): seq<Row>
      reads this`collection
    {
      Built(collection, byCid, templated, modelViewHides, visibleModelsFilter, false)
    }

    /** How many models a render gets through: all of them with an item
        template, else those before the first without a reference id. */
    function Reached(): nat
      reads this`collection
    {
      if templated then |collection| else UnreferencedIndex(collection, byCid)
    }

    /** `render()`: save the selection, rebuild the list and
        `modelViewsByReferenceId`, trigger `render`, restore the selection
        and update the dependent controls. A model view without a
        reference id throws midway, leaving the list and the registry
        with the models before it. */
    method Render() returns (out: Outcome)
      requires Valid()
      modifies this`selectedItems, this`rows, this`log, this`savedSelection, this`viewsByRef
      ensures Valid()
      ensures out.Pass? <==> Reached() == |collection|
      ensures out.Pass? ==>
                && viewsByRef == Some(ViewMap(collection, byCid))
                && RenderedByLines(selectable, RestoreSilently, collection, byCid, selectableModelsFilter, FirstLine, Layout(), old(Snap()), Snap())
                && (selectable ==> savedSelection.None?)
                && (!selectable ==> savedSelection == old(savedSelection))
      ensures out.Fail? ==>
                && out == Fail(NoReferenceId)
                && rows == ItemRows(collection[..Reached()], byCid, templated, modelViewHides, visibleModelsFilter)
                && viewsByRef == Some(ViewMap(collection[..Reached()], byCid))
                && selectedItems == old(selectedItems) && log == old(log)
                && (selectable ==> savedSelection == Some(SavedLines(old(selectedItems), MarkedLines(Lines(old(rows)), FirstLine))))
                && (!selectable ==> savedSelection == old(savedSelection))
    {
      ghost var before := Snap();
      var saved := SaveSelection();
      var reached := Rebuild();
      if reached < |collection| {
        return Fail(NoReferenceId);
      }
      Finish(before);
      out := Pass;
    }

    /** The end of a render that got through every model: `render` is
        triggered, then a selectable view restores its selection and
        updates the dependent controls. */
    method Finish(ghost before: Snapshot)
      requires Valid() && rows == Layout() && selectedItems == before.sel && log == before.log
      requires selectable ==> savedSelection == Some(SavedLines(before.sel, MarkedLines(Lines(before.rows), FirstLine)))
      modifies this`selectedItems, this`rows, this`log, this`savedSelection
      ensures Valid()
      ensures RenderedByLines(selectable, RestoreSilently, collection, byCid, selectableModelsFilter, FirstLine, Layout(), before, Snap())
      ensures selectable ==> savedSelection.None?
      ensures !selectable ==> savedSelection == old(savedSelection)
    {
      log := log + [Event.Render];
      if selectable {
        BuiltUnmarked(collection, byCid, templated, modelViewHides, visibleModelsFilter, false);
        RestoreAndNotify(before, rows);
      }
    }

    /** The middle of `render`: the list and `modelViewsByReferenceId` are
        rebuilt from the models the loops get through. */
    method Rebuild() returns (reached: nat)
      modifies this`rows, this`viewsByRef
      ensures reached == Reached()
      ensures rows == ItemRows(collection[..reached], byCid, templated, modelViewHides, visibleModelsFilter)
      ensures viewsByRef == Some(ViewMap(collection[..reached], byCid))
      ensures reached == |collection| ==> rows == Layout() && viewsByRef == Some(ViewMap(collection, byCid))
    {
      var list, views;
      list, views, reached := BuildList();
      viewsByRef := Some(views);
      rows := list;
      assert collection[..|collection|] == collection;
    }

    /** The `collection.each` loops of `render`. */
    method BuildList() returns (list: seq<Row>, views: map<string, ItemView>, reached: nat)
      ensures reached == Reached()
      ensures list == ItemRows(collection[..reached], byCid, templated, modelViewHides, visibleModelsFilter)
      ensures views == ViewMap(collection[..reached], byCid)
    {
      var c := collection;
      list := [];
      views := map[];
      var i := 0;
      while i < |c|
        invariant 0 <= i <= |c|
        invariant !templated ==> i <= UnreferencedIndex(c, byCid)
        invariant list == ItemRows(c[..i], byCid, templated, modelViewHides, visibleModelsFilter)
        invariant views == ViewMap(c[..i], byCid)
      {
        var thisModelReferenceId := RefId(c[i], byCid);
        if !templated && thisModelReferenceId.Undefined? {
          return list, views, i;
        }
        BuildStep(c, i, byCid, templated, modelViewHides, visibleModelsFilter);
        list := list + [ItemRow(c[i], byCid, templated, modelViewHides, visibleModelsFilter)];
        views := views[Text(thisModelReferenceId) := ItemView(c[i])];
        i := i + 1;
      }
      reached := i;
    }

    /** The end of `render` on a selectable view: `restoreSelection`,
        then `updateDependentControls`. */
    method RestoreAndNotify(ghost before: Snapshot, ghost list: seq<Row>)
      requires Valid() && selectable
      requires savedSelection == Some(SavedLines(before.sel, MarkedLines(Lines(before.rows), FirstLine)))
      requires Snap() == Snapshot(before.sel, list, before.log + [Event.Render]) && Unmarked(list)
      modifies this`selectedItems, this`rows, this`log, this`savedSelection
      ensures Valid() && savedSelection.None?
      ensures RenderedByLines(true, RestoreSilently, collection, byCid, selectableModelsFilter, FirstLine, list, before, Snap())
    {
      ghost var s0 := Snap();
      var restored := RestoreSelection();
      ghost var s1 := Snap();
      UpdateDependentControls();
      RenderByLinesComposes(RestoreSilently, collection, byCid, selectableModelsFilter, FirstLine, list, before, s0, s1, Snap());
    }

    /** `updateDependentControls()`. */
    method UpdateDependentControls()
      modifies this`log
      ensures log == old(log) + [Event.UpdateDependentControls(selectedItems)]
    {
      log := log + [Event.UpdateDependentControls(selectedItems)];
    }

    /** `validateSelectionAndRender()`, what `remove` and `reset` of the
        collection call: a selection pruned first survives the render. */
    method ValidateSelectionAndRender() returns (out: Outcome)
      requires Valid()
      modifies this`selectedItems, this`rows, this`log, this`savedSelection, this`viewsByRef
      ensures Valid()
      ensures out.Pass? <==> Reached() == |collection|
      ensures out.Pass? ==>
                RenderedByLines(selectable, RestoreSilently, collection, byCid, selectableModelsFilter, FirstLine, Layout(),
                                Snapshot(Validate(collection, old(selectedItems), byCid, selectableModelsFilter), old(rows), old(log)),
                                Snap())
      ensures out.Pass? && selectable && HasRefIds(collection, byCid) ==>
                selectedItems == Validate(collection, old(selectedItems), byCid, selectableModelsFilter)
    {
      ValidateSelection();
      out := Render();
      if out.Pass? && selectable && HasRefIds(collection, byCid) {
        PrunedSurvivesRenderByLines(RestoreSilently, collection, byCid, selectableModelsFilter, FirstLine, Layout(), old(selectedItems),
                                    Snapshot(Validate(collection, old(selectedItems), byCid, selectableModelsFilter), old(rows), old(log)),
                                    Snap());
      }
    }

    /** The collection's `add` event: Backbone adds a model that is not
        there yet, and the view renders. */
    method CollectionAdd(m: Record, at: Option<int>) returns (out: Outcome)
      requires Valid() && Compatible(collection, m)
      modifies this`collection, this`selectedItems, this`rows, this`log, this`savedSelection, this`viewsByRef
      ensures Valid()
      ensures collection == Add(old(collection), m, at)
      ensures m in old(collection) ==> out == Pass && Snap() == old(Snap()) && viewsByRef == old(viewsByRef)
      ensures m !in old(collection) ==>
                && multiset(collection) == multiset(old(collection)) + multiset{m}
                && (out.Pass? <==> Reached() == |collection|)
                && (out.Pass? ==> RenderedByLines(selectable, RestoreSilently, collection, byCid, selectableModelsFilter, FirstLine,
                                                  Layout(), old(Snap()), Snap()))
    {
      AddKeepsWellFormed(collection, m, at);
      if m in collection {
        return Pass;
      }
      collection := Add(collection, m, at);
      out := Render();
    }

    /** The collection's `remove` event. */
    method CollectionRemove(m: Record) returns (out: Outcome)
      requires Valid()
      modifies this`collection, this`selectedItems, this`rows, this`log, this`savedSelection, this`viewsByRef
      ensures Valid()
      ensures m !in old(collection) ==> out == Pass && collection == old(collection) && Snap() == old(Snap())
      ensures m in old(collection) ==>
                && collection == Remove(old(collection), m)
                && (out.Pass? <==> Reached() == |collection|)
                && (out.Pass? && selectable && HasRefIds(collection, byCid) ==>
                      selectedItems == Validate(collection, old(selectedItems), byCid, selectableModelsFilter))
    {
      if m !in collection {
        return Pass;
      }
      RemoveKeepsWellFormed(collection, m);
      collection := Remove(collection, m);
      out := ValidateSelectionAndRender();
    }

    /** The collection's `reset` event. */
    method CollectionReset(models: seq<Record>) returns (out: Outcome)
      requires Valid() && WellFormed(models)
      modifies this`collection, this`selectedItems, this`rows, this`log, this`savedSelection, this`viewsByRef
      ensures Valid()
      ensures collection == models
      ensures out.Pass? <==> Reached() == |models|
      ensures out.Pass? && selectable && HasRefIds(models, byCid) ==>
                selectedItems == Validate(models, old(selectedItems), byCid, selectableModelsFilter)
    {
      collection := models;
      out := ValidateSelectionAndRender();
    }

    /** `setCollection( newCollection )`: store the collection and
        render. */
    method SetCollection(models: seq<Record>) returns (out: Outcome)
      requires Valid() && WellFormed(models)
      modifies this`collection, this`selectedItems, this`rows, this`log, this`savedSelection, this`viewsByRef
      ensures Valid()
      ensures collection == models
      ensures out.Pass? <==> Reached() == |models|
      ensures out.Pass? ==>
                RenderedByLines(selectable, RestoreSilently, models, byCid, selectableModelsFilter, FirstLine, Layout(), old(Snap()), Snap())
    {
      collection := models;
      out := Render();
    }

    // ---------------------------------------------------------------------
    // Drags, keys and clicks

    /** `_reorderCollectionBasedOnHTML`: walk the children in document
        order, moving every model they name to the end of the collection,
        then trigger `reorder`. The source triggers `reorder` on the
        collection, not on the view; the model records it in the view's
        log, which stands for every event observers can see. */
    method ReorderCollectionBasedOnHtml()
      requires Valid()
      modifies this`collection, this`log
      ensures Valid()
      ensures collection == Reordered(old(collection), rows, false)
      ensures multiset(collection) == multiset(old(collection))
      ensures log == old(log) + [Event.Reorder]
    {
      var i := 0;
      while i < |rows|
        invariant 0 <= i <= |rows|
        invariant collection == Reordered(old(collection), rows[..i], false)
        invariant log == old(log)
      {
        ReorderedStep(old(collection), rows, i);
        var thisModelId := rows[i].itemId;
        if thisModelId.Some? && thisModelId.value != "" {
          var thisModel := Get(collection, Str(thisModelId.value));
          if thisModel.Some? {
            collection := Remove(collection, thisModel.value);
            collection := Add(collection, thisModel.value, None);
          }
        }
        i := i + 1;
      }
      assert rows[..|rows|] == rows;
      ReorderedPermutes(old(collection), rows, false);
      log := log + [Event.Reorder];
    }

    /** `_sortStop`: the list's children are now `newRows`; the collection
        is reordered to follow them and `sortStop` reports the dragged
        model and its new index. The selection is left as it was. */
    method SortStop(newRows: seq<Row>, itemAttr: Option<string>, newIndex: int)
      requires Valid()
      modifies this`rows, this`collection, this`log
      ensures Valid()
      ensures rows == newRows
      ensures collection == Reordered(old(collection), newRows, false)
      ensures multiset(collection) == multiset(old(collection))
      ensures log == old(log) + [Event.Reorder, Event.UpdateDependentControls(selectedItems),
                                 Event.SortStop(ModelValue(DraggedModel(old(collection), itemAttr)), newIndex)]
    {
      var modelBeingSorted := DraggedModel(collection, itemAttr);
      rows := newRows;
      ReorderCollectionBasedOnHtml();
      UpdateDependentControls();
      log := log + [Event.SortStop(ModelValue(modelBeingSorted), newIndex)];
    }

    /** `_onKeydown( event )`, returning whether the event is passed on:
        with exactly one marked line, the up and down arrows select the
        line above or below, clamped to the list, silently. */
    method OnKeydown(key: int) returns (passOn: bool, out: Outcome)
      requires Valid()
      modifies this`selectedItems, this`rows, this`log
      ensures Valid()
      ensures !(processKeyEvents && |MarkedLines(Lines(old(rows)), FirstLine)| == 1 && (key == UpArrow || key == DownArrow)) ==>
                passOn && out == Pass && Snap() == old(Snap())
      ensures processKeyEvents && |MarkedLines(Lines(old(rows)), FirstLine)| == 1 && (key == UpArrow || key == DownArrow) ==>
                && !passOn
                && MarkedLines(Lines(old(rows)), FirstLine)[0].Number?
                && LinesSet(selectable, collection, byCid, selectableModelsFilter, old(Snap()),
                            Arr([Number(ClampLine(MarkedLines(Lines(old(rows)), FirstLine)[0].n + (if key == UpArrow then -1 else 1),
                                                  |Lines(old(rows))|))]),
                            true, out, Snap())
    {
      passOn, out := true, Pass;
      if !processKeyEvents {
        return;
      }
      var lines := GetSelectedLines();
      if |lines| == 1 && (key == UpArrow || key == DownArrow) {
        FirstMarkedLineIsNumber(Lines(rows), FirstLine);
        var line := lines[0].n + (if key == UpArrow then -1 else 1);
        out := SetSelectedLine(line, Undefined, true);
        passOn := false;
      }
    }

    /** `_listItem_onClick( theEvent )`: the ids the click rules pick are
        set, not silently. */
    method OnItemClick(click: Click) returns (out: Outcome)
      requires Valid()
      modifies this`selectedItems, this`rows, this`log
      ensures Valid()
      ensures !(selectable && clickToSelect) ==> out == Pass && Snap() == old(Snap())
      ensures selectable && clickToSelect ==>
                match ClickRequest(collection, old(selectedItems), byCid, selectMultiple, clickToToggle || click.metaKey, click)
                case Failure(e) => out == Fail(e) && Snap() == old(Snap())
                case Success(req) =>
                  ItemsSet(true, collection, byCid, selectableModelsFilter, old(Snap()), Arr(req), false, out, Snap())
    {
      if !selectable || !clickToSelect {
        return Pass;
      }
      var req := ClickedItems(collection, selectedItems, byCid, selectMultiple, clickToToggle || click.metaKey, click);
      if req.Failure? {
        return Fail(req.error);
      }
      out := SetSelectedItems(Arr(req.value), false);
    }

    /** `_listBackground_onClick( theEvent )`: a click on the list element
        itself clears the selection of a selectable view. */
    method OnBackgroundClick(onList: bool) returns (out: Outcome)
      requires Valid()
      modifies this`selectedItems, this`rows, this`log
      ensures Valid()
      ensures out == Pass
      ensures !(selectable && onList) ==> Snap() == old(Snap())
      ensures selectable && onList ==>
                && selectedItems == []
                && ItemsSet(true, collection, byCid, selectableModelsFilter, old(Snap()), Arr([]), false, out, Snap())
                && log == old(log) + Notice(old(selectedItems) != [], false, SelectionChanged([], old(selectedItems)),
                                            Event.UpdateDependentControls([]))
    {
      if !selectable || !onList {
        return Pass;
      }
      out := SelectNone(false);
      ClearReported(collection, byCid, selectableModelsFilter, old(Snap()), false, out, Snap());
    }
  }
}
