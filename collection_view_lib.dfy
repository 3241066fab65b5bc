/**
 * `Backbone.CollectionView` v0.4.0 as in lib/collectionView.js. The
 * selection is held as cids (`_getModelReferenceId` is always `cid`);
 * the setters and getters take a `by` mode ("cid", "id", "model",
 * "modelView", "line", default "cid"), lines are counted from 0, and the
 * setters are silent unless told otherwise. The notifications carry the
 * cids. The options are fixed once the view is initialized.
 */
module CollectionViewLib {

  import opened Js
  import opened Underscore
  import opened Backbone
  import opened Dom
  import opened Selection
  import opened Registry
  import opened Reorder
  import opened Clicks
  import opened Commits
  import opened Rendering
  import opened Addressing
  import opened LineAddressing
  import opened SelectedItems

  const DefaultReferenceBy := "cid"

  /** `_restoreSelection` calls `setSelectedItems` without options, so
      silently. */
  const RestoreSilently := true

  const UpArrow := 38
  const DownArrow := 40

  /** The cids `setSelectedItems` collects for each `by` mode. `views` is
      `viewManager`, `None` until the first render. */
  function Request(refBy: string, items: seq<Value>, views: Option<seq<ItemView>>, rows: seq<Row>): Result<seq<Value>>
  {
    if refBy == "cid" then Success(items)
    else if refBy == "id" then
      if views.None? then Failure(TypeError) else Success(CidsWithIds(views.value, items))
    else if refBy == "model" then PluckCids(items)
    else if refBy == "modelView" then ViewCids(items)
    else if refBy == "line" then Success(ItemsAtLines(Attrs(Lines(rows)), items, 0))
    else Failure(BadReferenceBy)
  }

  /** `setSelectedItems( items, { by : by, silent : silent } )`: the
      selectable and array checks come first, then the cids of the mode,
      then the commit of the validated cids. */
  predicate SetterEffect(selectable: bool, c: seq<Record>, f: Option<Value -> bool>, views: Option<seq<ItemView>>,
                         before: Snapshot, items: Value, refBy: string, silent: bool, out: Outcome, after: Snapshot)
  {
    if !selectable || !items.Arr? then ItemsSet(selectable, c, true, f, before, items, silent, out, after)
    else match Request(refBy, items.elems, views, before.rows)
      case Failure(e) => out == Fail(e) && after == before
      case Success(req) => ItemsSet(true, c, true, f, before, Arr(req), silent, out, after)
  }

  /** The setter passes exactly on a selectable view given an array in a
      mode it knows; the new selection then holds, once each, exactly the
      collection's cids the mode asked for that pass the filter, and the
      log grows exactly when the set of cids changed. */
  lemma SetterProperties(selectable: bool, c: seq<Record>, f: Option<Value -> bool>, views: Option<seq<ItemView>>,
                         before: Snapshot, items: Value, refBy: string, silent: bool, out: Outcome, after: Snapshot)
    requires NoDup(before.sel)
    requires SetterEffect(selectable, c, f, views, before, items, refBy, silent, out, after)
    ensures out.Pass? <==> selectable && items.Arr? && Request(refBy, items.elems, views, before.rows).Success?
    ensures out.Pass? ==> NoDup(after.sel) && forall x :: x in after.sel <==>
              x in RefIds(c, true) && x in ConvertStringsToInts(Request(refBy, items.elems, views, before.rows).value)
              && Selectable(c, x, f)
    ensures after.log != before.log <==> out.Pass? && Elems(after.sel) != Elems(before.sel)
    ensures Appended(before.log, after.log) && SameUpToMarks(after.rows, before.rows)
  {
    if !selectable || !items.Arr? {
      ItemsSetProperties(selectable, c, true, f, before, items, silent, out, after);
    } else if Request(refBy, items.elems, views, before.rows).Success? {
      var req := Request(refBy, items.elems, views, before.rows).value;
      ItemsSetProperties(true, c, true, f, before, Arr(req), silent, out, after);
    }
  }

  /** In line mode the setter selects the validated cids of the visible
      lines, counted from 0, whose numbers are asked for. */
  lemma SetterLineMode(c: seq<Record>, f: Option<Value -> bool>, views: Option<seq<ItemView>>, before: Snapshot,
                       items: seq<Value>, silent: bool, out: Outcome, after: Snapshot)
    requires SetterEffect(true, c, f, views, before, Arr(items), "line", silent, out, after)
    ensures out == Pass
    ensures after.sel == AtLines(c, true, f, Attrs(Lines(before.rows)), items, 0)
    ensures forall x :: x in after.sel <==>
              && x in RefIds(c, true) && Selectable(c, x, f)
              && exists k :: 0 <= k < |Lines(before.rows)| && Number(k) in items
                             && ConvertStringToInt(Attrs(Lines(before.rows))[k]) == x
  {
    var req := ItemsAtLines(Attrs(Lines(before.rows)), items, 0);
    assert Request("line", items, views, before.rows) == Success(req);
    assert ItemsSet(true, c, true, f, before, Arr(req), silent, out, after);
    assert after.sel == AtLines(c, true, f, Attrs(Lines(before.rows)), items, 0);
    AtLinesSpec(c, true, f, Attrs(Lines(before.rows)), items, 0);
  }

  /** Setting no items selects nothing, whatever the mode, once the view
      has been rendered. */
  lemma SetterNothing(c: seq<Record>, f: Option<Value -> bool>, views: Option<seq<ItemView>>, before: Snapshot,
                      refBy: string, silent: bool, out: Outcome, after: Snapshot)
    requires refBy in ["cid", "model", "modelView", "line"] || (refBy == "id" && views.Some?)
    requires SetterEffect(true, c, f, views, before, Arr([]), refBy, silent, out, after)
    ensures out == Pass && after.sel == []
  {
    if refBy == "line" {
      NoNumbersNoLines(Attrs(Lines(before.rows)), 0);
    }
    if refBy == "id" {
      assert CidsWithIds(views.value, []) == [] by { NoIdsNoCids(views.value); }
    }
    ItemsSetNothing(true, c, true, f, before, silent, out, after);
  }

  lemma {:induction false} NoIdsNoCids(views: seq<ItemView>)
    ensures CidsWithIds(views, []) == []
    decreases |views|
  {
    if views != [] {
      NoIdsNoCids(views[..|views| - 1]);
    }
  }

  /** In id mode, after a render, the setter selects exactly the cids of
      the models whose id was asked for and that pass the filter. */
  lemma SetterIdModeAfterRender(c: seq<Record>, f: Option<Value -> bool>, before: Snapshot,
                                ids: seq<Value>, silent: bool, out: Outcome, after: Snapshot)
    requires WellFormed(c)
    requires SetterEffect(true, c, f, Some(ViewsOf(c)), before, Arr(ids), "id", silent, out, after)
    ensures out == Pass
    ensures forall x | x in after.sel :: x in RefIds(c, true)
    ensures forall m | m in c :: Str(m.cid) in after.sel <==> m.id in ids && Selectable(c, Str(m.cid), f)
  {
    var req := CidsWithIds(ViewsOf(c), ids);
    IdRequest(c, ids);
    CidsUnconvertible(c, req);
    ConvertUnconvertible(req);
    assert after.sel == Validate(c, req, true, f);
    forall m | m in c ensures Str(m.cid) in after.sel <==> m.id in ids && Selectable(c, Str(m.cid), f) {
      RefIdInCollection(c, m, true);
    }
  }

  /** Against the registry of a render, the cids id mode collects are
      those of the models whose id is listed. */
  lemma IdRequest(c: seq<Record>, ids: seq<Value>)
    requires WellFormed(c)
    ensures forall x | x in CidsWithIds(ViewsOf(c), ids) :: x in RefIds(c, true)
    ensures forall m | m in c :: Str(m.cid) in CidsWithIds(ViewsOf(c), ids) <==> m.id in ids
  {
    IdModeFollowsCollection(c, ids);
    forall x | x in RefIds(WithIds(c, ids), true) ensures x in RefIds(c, true) {
      ListedCidInCollection(c, ids, x);
    }
    forall m | m in c ensures Str(m.cid) in RefIds(WithIds(c, ids), true) <==> m.id in ids {
      ListedCid(c, ids, m);
    }
  }

  lemma ListedCidInCollection(c: seq<Record>, ids: seq<Value>, x: Value)
    requires x in RefIds(WithIds(c, ids), true)
    ensures x in RefIds(c, true)
  {
    var w := WithIds(c, ids);
    var k :| 0 <= k < |w| && RefIds(w, true)[k] == x;
    assert w[k] in w;
    RefIdInCollection(c, w[k], true);
  }

  lemma ListedCid(c: seq<Record>, ids: seq<Value>, m: Record)
    requires WellFormed(c) && m in c
    ensures Str(m.cid) in RefIds(WithIds(c, ids), true) <==> m.id in ids
  {
    var w := WithIds(c, ids);
    if m.id in ids {
      assert m in w;
      var k :| 0 <= k < |w| && w[k] == m;
      assert RefIds(w, true)[k] == Str(m.cid);
    }
    if Str(m.cid) in RefIds(w, true) {
      var k :| 0 <= k < |w| && RefIds(w, true)[k] == Str(m.cid);
      assert w[k] in w;
      SameCidSameModel(c, w[k], m);
    }
  }

  lemma SameCidSameModel(c: seq<Record>, a: Record, b: Record)
    requires WellFormed(c) && a in c && b in c && a.cid == b.cid
    ensures a == b
  {
  }

  /** An arrow key selects the model on the line above or below, counted
      from 0, when the list has that line and its model passes
      validation, and clears the selection past either end. */
  lemma ArrowMove(c: seq<Record>, f: Option<Value -> bool>, views: Option<seq<ItemView>>, before: Snapshot,
                  n: int, d: int, out: Outcome, after: Snapshot)
    requires SetterEffect(true, c, f, views, before, Arr([Step(Number(n), d)]), "line", true, out, after)
    ensures out == Pass && after.sel == AtLine(c, true, f, Attrs(Lines(before.rows)), n + d, 0)
  {
    var items := [Step(Number(n), d)];
    SetterLineMode(c, f, views, before, items, true, out, after);
    assert items == [Number(n + d)];
    SingleLineSelects(c, true, f, Attrs(Lines(before.rows)), n + d, 0);
  }

  /** `setSelectedItem( m, { by : "model" } )` passes exactly on a
      selectable view, and there selects the model's cid alone when it
      names a model of the collection that passes the filter, and nothing
      otherwise. */
  lemma SetterReceivedModel(selectable: bool, c: seq<Record>, f: Option<Value -> bool>, views: Option<seq<ItemView>>,
                            before: Snapshot, m: Record, silent: bool, out: Outcome, after: Snapshot)
    requires !IsNumeral(m.cid)
    requires SetterEffect(selectable, c, f, views, before, Arr([ModelRef(m)]), "model", silent, out, after)
    ensures out == Pass <==> selectable
    ensures selectable ==>
              after.sel == if Str(m.cid) in RefIds(c, true) && Selectable(c, Str(m.cid), f) then [Str(m.cid)] else []
  {
    if selectable {
      ReceivedModelSelected(c, m, f);
      assert Request("model", [ModelRef(m)], views, before.rows) == Success([Str(m.cid)]);
    }
  }

  // -----------------------------------------------------------------------
  // Reading the selection

  /** `viewManager.findByModel( collection.get( item ) ).model` for every
      selected cid: reading through a registry that does not exist yet, a
      cid the collection lacks or a model without a view throws. */
  function RegisteredModels(c: seq<Record>, views: Option<seq<ItemView>>, sel: seq<Value>): Result<seq<Record>>
    decreases |sel|
  {
    if sel == [] then Success([])
    else
      match RegisteredModels(c, views, sel[..|sel| - 1])
      case Failure(e) => Failure(e)
      case Success(p) =>
        if views.None? then Failure(TypeError)
        else
          match Get(c, sel[|sel| - 1])
          case None => Failure(TypeError)
          case Some(m) =>
            match FindByModel(views.value, m)
            case None => Failure(TypeError)
            case Some(v) => Success(p + [v.model])
  }

  function IdsOfRecords(ms: seq<Record>): seq<Value>
  {
    seq(|ms|, i requires 0 <= i < |ms| => ms[i].id)
  }

  function RefsOfRecords(ms: seq<Record>): seq<Value>
  {
    seq(|ms|, i requires 0 <= i < |ms| => ModelRef(ms[i]))
  }

  /** `getSelectedItems( { by : by } )`. */
  function Read(refBy: string, c: seq<Record>, views: Option<seq<ItemView>>, sel: seq<Value>, rows: seq<Row>): Result<seq<Value>>
  {
    if refBy == "id" || refBy == "model" then
      match RegisteredModels(c, views, sel)
      case Failure(e) => Failure(e)
      case Success(ms) => Success(if refBy == "id" then IdsOfRecords(ms) else RefsOfRecords(ms))
    else if refBy == "cid" then Success(sel)
    else if refBy == "line" then Success(MarkedLines(Lines(rows), 0))
    else if refBy == "modelView" then
      if views.None? then (if sel == [] then Success([]) else Failure(TypeError))
      else ViewsOfSelection(c, views.value, sel)
    else Failure(BadReferenceBy)
  }

  /** After a render every selected cid reads back as its own model. */
  lemma {:induction false} RegisteredAfterRender(c: seq<Record>, sel: seq<Value>)
    requires WellFormed(c) && CidsOf(c, sel)
    ensures RegisteredModels(c, Some(ViewsOf(c)), sel).Success?
    ensures RefsOfRecords(RegisteredModels(c, Some(ViewsOf(c)), sel).value) == Models(c, sel)
    decreases |sel|
  {
    if sel != [] {
      var s' := sel[..|sel| - 1];
      var x := sel[|sel| - 1];
      assert CidsOf(c, s') by { LastSplit(sel); }
      RegisteredAfterRender(c, s');
      var m := CidModel(c, x);
      FindByModelAfterRender(c, m);
      var p := RegisteredModels(c, Some(ViewsOf(c)), s').value;
      assert RegisteredModels(c, Some(ViewsOf(c)), sel) == Success(p + [m]);
      RefsAppend(p, m);
      LastSplit(sel);
      ModelsAppend(c, s', x);
    }
  }

  lemma RefsAppend(p: seq<Record>, m: Record)
    ensures RefsOfRecords(p + [m]) == RefsOfRecords(p) + [ModelRef(m)]
  {
  }

  lemma ModelsAppend(c: seq<Record>, s: seq<Value>, x: Value)
    ensures Models(c, s + [x]) == Models(c, s) + [ModelOf(c, x)]
  {
  }

  /** Reading the selection after a render and setting what was read
      again, in the same mode, changes nothing: in model and modelView
      mode the setter gets back exactly the selected cids, in line mode
      the cids of the marked lines. */
  lemma ReadThenSet(c: seq<Record>, sel: seq<Value>, rows: seq<Row>)
    requires WellFormed(c) && CidsOf(c, sel)
    ensures Read("model", c, Some(ViewsOf(c)), sel, rows) == Success(Models(c, sel))
    ensures Request("model", Models(c, sel), Some(ViewsOf(c)), rows) == Success(sel)
    ensures Read("modelView", c, Some(ViewsOf(c)), sel, rows).Success?
    ensures Request("modelView", Read("modelView", c, Some(ViewsOf(c)), sel, rows).value, Some(ViewsOf(c)), rows) == Success(sel)
    ensures Request("line", MarkedLines(Lines(rows), 0), Some(ViewsOf(c)), rows) == Success(MarkedAttrs(Lines(rows)))
  {
    RegisteredAfterRender(c, sel);
    ModelModeRoundTrip(c, sel);
    ViewModeRoundTrip(c, sel);
    LinesRoundTrip(Lines(rows), 0);
  }

  /** In line mode, reading and setting again gives back the same cids,
      with no notification, when exactly the selected rows carry the
      `selected` class and every selected cid is shown on a visible row. */
  lemma LinesReadThenSet(c: seq<Record>, f: Option<Value -> bool>, views: Option<seq<ItemView>>, before: Snapshot,
                         silent: bool, out: Outcome, after: Snapshot)
    requires WellFormed(c) && before.sel == Validate(c, before.sel, true, f)
    requires MarkersAgree(before.rows, before.sel)
    requires forall x | x in before.sel :: exists r | r in before.rows :: r.visible && r.itemId == Some(Text(x))
    requires SetterEffect(true, c, f, views, before, Arr(Read("line", c, views, before.sel, before.rows).value), "line",
                          silent, out, after)
    ensures out == Pass && after.sel == before.sel && after.log == before.log
  {
    var lines := MarkedLines(Lines(before.rows), 0);
    SetterLineMode(c, f, views, before, lines, silent, out, after);
    forall x | x in before.sel
      ensures x.Str? && !IsNumeral(x.s)
    {
      var k :| 0 <= k < |c| && RefIds(c, true)[k] == x;
      assert c[k] in c;
    }
    LinesReadBack(c, true, f, before.rows, before.sel, 0);
    SetterProperties(true, c, f, views, before, Arr(lines), "line", silent, out, after);
  }

  /** So setting the models read back from a validated selection is a
      no-op: the selection, the list and the log stay as they are. */
  lemma ModelsSetBackUnchanged(c: seq<Record>, f: Option<Value -> bool>, s: seq<Value>, before: Snapshot,
                               silent: bool, out: Outcome, after: Snapshot)
    requires WellFormed(c) && before.sel == Validate(c, s, true, f)
    requires SetterEffect(true, c, f, Some(ViewsOf(c)), before, Arr(Models(c, before.sel)), "model", silent, out, after)
    ensures out == Pass && after == before
  {
    ReadThenSet(c, before.sel, before.rows);
    CidsUnconvertible(c, before.sel);
    ConvertUnconvertible(before.sel);
    ValidateIdempotent(c, s, true, f);
    ChangedIffSetsDiffer(before.sel, after.sel);
  }

  // -----------------------------------------------------------------------
  // The view

  class CollectionView {

    var collection: seq<Record>
    var selectedItems: seq<Value>
    var savedSelection: Option<SavedLines>
    var viewManager: Option<seq<ItemView>>
    var rows: seq<Row>
    var log: seq<Event>

    const selectable: bool
    const clickToSelect: bool
    const selectMultiple: bool
    const clickToToggle: bool
    const processKeyEvents: bool
    const selectableModelsFilter: Option<Value -> bool>
    const visibleModelsFilter: Option<Value -> bool>
    /** The models whose model view's `render` returns `false`. */
    const modelViewHides: Value -> bool
    /** Whether an item template was found. */
    const templated: bool

    ghost predicate Valid()
      reads this`collection, this`selectedItems
    {
      && WellFormed(collection)
      && NoDup(selectedItems)
      && Unconvertible(selectedItems)
      && (!selectable ==> selectedItems == [])
    }

    function Snap(): Snapshot
      reads this`selectedItems, this`rows, this`log
    {
      Snapshot(selectedItems, rows, log)
    }

    /** `initialize`: `selectable`, `clickToSelect` and `processKeyEvents`
        default to true, `selectMultiple` and `clickToToggle` to false;
        nothing is rendered yet and there is no registry. */
    constructor (models: seq<Record>, selectableOption: Value, clickToSelectOption: Value, selectMultipleOption: Value,
                 clickToToggleOption: Value, processKeyEventsOption: Value,
                 filter: Option<Value -> bool>, visible: Option<Value -> bool>, hides: Value -> bool, withTemplate: bool)
      requires WellFormed(models)
      ensures Valid()
      ensures collection == models && selectedItems == [] && rows == [] && log == []
      ensures savedSelection.None? && viewManager.None?
      ensures selectable == Flag(selectableOption, true) && clickToSelect == Flag(clickToSelectOption, true)
      ensures selectMultiple == Flag(selectMultipleOption, false) && clickToToggle == Flag(clickToToggleOption, false)
      ensures processKeyEvents == Flag(processKeyEventsOption, true)
      ensures selectableModelsFilter == filter && visibleModelsFilter == visible
      ensures modelViewHides == hides && templated == withTemplate
    {
      collection := models;
      selectedItems := [];
      savedSelection := None;
      viewManager := None;
      rows := [];
      log := [];
      selectable := Flag(selectableOption, true);
      clickToSelect := Flag(clickToSelectOption, true);
      selectMultiple := Flag(selectMultipleOption, false);
      clickToToggle := Flag(clickToToggleOption, false);
      processKeyEvents := Flag(processKeyEventsOption, true);
      selectableModelsFilter := filter;
      visibleModelsFilter := visible;
      modelViewHides := hides;
      templated := withTemplate;
    }

    /** `getSelectedItems( { by : by } )`. */
    method GetSelectedItems(refBy: string) returns (r: Result<seq<Value>>)
      ensures r == Read(refBy, collection, viewManager, selectedItems, rows)
      ensures refBy == "cid" ==> r == Success(selectedItems)
      ensures refBy == "line" ==> r == Success(MarkedLines(Lines(rows), 0))
    {
      if refBy == "line" {
        var items := CollectMarkedLines(rows, 0);
        r := Success(items);
      } else {
        r := Read(refBy, collection, viewManager, selectedItems, rows);
      }
    }

    /** `getSelectedItem( { by : by } )`: the first of them. */
    method GetSelectedItem(refBy: string) returns (r: Result<Value>)
      ensures r.Success? <==> Read(refBy, collection, viewManager, selectedItems, rows).Success?
      ensures r.Success? ==> r.value == FirstOr(Read(refBy, collection, viewManager, selectedItems, rows).value)
    {
      var all := GetSelectedItems(refBy);
      if all.Failure? {
        return Failure(all.error);
      }
      r := Success(FirstOr(all.value));
    }

    /** `setSelectedItems( items, { by : by, silent : silent } )`. */
    method SetSelectedItems(items: Value, refBy: string, silent: bool) returns (out: Outcome)
      requires Valid()
      modifies this`selectedItems, this`rows, this`log
      ensures Valid()
      ensures SetterEffect(selectable, collection, selectableModelsFilter, viewManager, old(Snap()), items, refBy, silent, out, Snap())
      ensures SameUpToMarks(rows, old(rows))
      ensures Appended(old(log), log)
      ensures MarkersAgree(old(rows), old(selectedItems)) ==> MarkersAgree(rows, selectedItems)
      ensures (out.Pass? && MarkedWithin(old(rows), old(selectedItems))
               && Elems(selectedItems) != Elems(old(selectedItems))) ==> MarkersAgree(rows, selectedItems)
    {
      if !selectable {
        return Fail(NotSelectable);
      }
      if !items.Arr? {
        return Fail(InvalidParameter);
      }
      var req := RequestedCids(items.elems, refBy);
      if req.Failure? {
        return Fail(req.error);
      }
      ghost var before := Snap();
      Commit(Validate(collection, ConvertStringsToInts(req.value), true, selectableModelsFilter), silent);
      out := Pass;
      ItemsSetProperties(true, collection, true, selectableModelsFilter, before, Arr(req.value), silent, out, Snap());
    }

    /** The `switch` of `setSelectedItems`, with the line loop. */
    method RequestedCids(newItems: seq<Value>, refBy: string) returns (req: Result<seq<Value>>)
      ensures req == Request(refBy, newItems, viewManager, rows)
    {
      if refBy == "cid" {
        req := Success(newItems);
      } else if refBy == "id" {
        if viewManager.None? {
          return Failure(TypeError);
        }
        req := Success(CidsWithIds(viewManager.value, newItems));
      } else if refBy == "model" {
        req := PluckCids(newItems);
      } else if refBy == "modelView" {
        req := ViewCids(newItems);
      } else if refBy == "line" {
        var atLines := CollectItemsAtLines(rows, newItems, 0);
        req := Success(atLines);
      } else {
        req := Failure(BadReferenceBy);
      }
    }

    /** The end of `setSelectedItems`: store the validated cids, then
        update the markers and notify if the set changed. */
    method Commit(newSel: seq<Value>, silent: bool)
      requires Valid() && NoDup(newSel) && Unconvertible(newSel)
      requires !selectable ==> newSel == []
      modifies this`selectedItems, this`rows, this`log
      ensures Valid()
      ensures selectedItems == newSel
      ensures CommittedIds(old(Snap()), Snap(), silent)
    {
      var oldSelectedItems := selectedItems;
      selectedItems := newSel;
      SameElementsIffSameSet(selectedItems, oldSelectedItems);
      SameElementsIffSameSet(oldSelectedItems, selectedItems);
      if !ContainSameElements(selectedItems, oldSelectedItems) {
        rows := Remark(rows, oldSelectedItems, selectedItems);
        if !silent {
          log := log + [SelectionChanged(selectedItems, oldSelectedItems)];
        }
        log := log + [Event.UpdateDependentControls(selectedItems)];
      }
    }

    /** `setSelectedItem( item, { by : by, silent : silent } )`: `null`
        and `undefined` call `selectNone()`, which drops the options. */
    method SetSelectedItem(item: Value, refBy: string, silent: bool) returns (out: Outcome)
      requires Valid()
      modifies this`selectedItems, this`rows, this`log
      ensures Valid()
      ensures item.Undefined? || item.Null? ==>
                SetterEffect(selectable, collection, selectableModelsFilter, viewManager, old(Snap()), Arr([]),
                             DefaultReferenceBy, true, out, Snap())
      ensures !(item.Undefined? || item.Null?) ==>
                SetterEffect(selectable, collection, selectableModelsFilter, viewManager, old(Snap()), Arr([item]),
                             refBy, silent, out, Snap())
      ensures SameUpToMarks(rows, old(rows))
      ensures Appended(old(log), log)
      ensures MarkersAgree(old(rows), old(selectedItems)) ==> MarkersAgree(rows, selectedItems)
    {
      if item.Undefined? || item.Null? {
        out := SelectNone(true);
      } else {
        out := SetSelectedItems(Arr([item]), refBy, silent);
      }
    }

    /** `selectNone( { silent : silent } )`. */
    method SelectNone(silent: bool) returns (out: Outcome)
      requires Valid()
      modifies this`selectedItems, this`rows, this`log
      ensures Valid()
      ensures SetterEffect(selectable, collection, selectableModelsFilter, viewManager, old(Snap()), Arr([]),
                           DefaultReferenceBy, silent, out, Snap())
      ensures out == Pass <==> selectable
      ensures out.Pass? ==> selectedItems == []
      ensures SameUpToMarks(rows, old(rows))
      ensures Appended(old(log), log)
      ensures MarkersAgree(old(rows), old(selectedItems)) ==> MarkersAgree(rows, selectedItems)
      ensures out.Pass? && MarkedWithin(old(rows), old(selectedItems)) ==> MarkersAgree(rows, selectedItems)
    {
      ghost var before := Snap();
      out := SetSelectedItems(Arr([]), DefaultReferenceBy, silent);
      if selectable {
        SetterNothing(collection, selectableModelsFilter, viewManager, before, DefaultReferenceBy, silent, out, Snap());
      }
      if out.Pass? && MarkedWithin(old(rows), old(selectedItems)) && Elems(old(selectedItems)) == {} {
        assert old(selectedItems) == [] by {
          NoDupCard(old(selectedItems));
        }
      }
    }

    /** `_validateSelection`: the markers are not touched. */
    method ValidateSelection()
      requires Valid()
      modifies this`selectedItems
      ensures Valid()
      ensures selectedItems == Validate(collection, old(selectedItems), true, selectableModelsFilter)
    {
      selectedItems := Validate(collection, selectedItems, true, selectableModelsFilter);
      if !selectable {
        ValidateNothing(collection, true, selectableModelsFilter);
      }
    }

    /** The list `render` builds from the current collection: every item
        carries its cid; with an item template every item is shown. */
    function Layout(): seq<Row>
      reads this`collection
    {
      Built(collection, true, templated, modelViewHides, visibleModelsFilter, false)
    }

    /** The `collection.each` loop of `render`: one element and one
        registered view per model. */
    method BuildList() returns (list: seq<Row>, views: seq<ItemView>)
      ensures list == Layout() && views == ViewsOf(collection)
    {
      var c := collection;
      list := [];
      views := [];
      var i := 0;
      while i < |c|
        invariant 0 <= i <= |c| && |views| == i
        invariant list == ItemRows(c[..i], true, templated, modelViewHides, visibleModelsFilter)
        invariant forall k | 0 <= k < i :: views[k] == ItemView(c[k])
      {
        assert c[..i + 1][..i] == c[..i];
        list := list + [ItemRow(c[i], true, templated, modelViewHides, visibleModelsFilter)];
        views := views + [ItemView(c[i])];
        i := i + 1;
      }
      assert c[..|c|] == c;
    }

    /** `_saveSelection`: the cids and the numbers of the marked lines. */
    method SaveSelection() returns (out: Outcome)
      modifies this`savedSelection
      ensures !selectable ==> out == Fail(SaveOnNonSelectable) && savedSelection == old(savedSelection)
      ensures selectable ==>
                out == Pass && savedSelection == Some(SavedLines(selectedItems, MarkedLines(Lines(rows), 0)))
    {
      if !selectable {
        return Fail(SaveOnNonSelectable);
      }
      var lines := GetSelectedItems("line");
      savedSelection := Some(SavedLines(selectedItems, lines.value));
      out := Pass;
    }

    /** `_restoreSelection`: clear, select the saved cids, and when none
        of them is left select the saved lines; every step is silent. */
    method RestoreSelection() returns (out: Outcome)
      requires Valid()
      modifies this`selectedItems, this`rows, this`log, this`savedSelection
      ensures Valid()
      ensures SameUpToMarks(rows, old(rows))
      ensures Appended(old(log), log)
      ensures old(savedSelection).None? ==>
                out == Fail(NothingSaved) && Snap() == old(Snap()) && savedSelection == old(savedSelection)
      ensures old(savedSelection).Some? && !selectable ==>
                out == Fail(NotSelectable) && Snap() == old(Snap()) && savedSelection == old(savedSelection)
      ensures old(savedSelection).Some? && selectable ==>
                && out == Pass && savedSelection.None?
                && selectedItems == RestoredByLines(collection, true, selectableModelsFilter, old(savedSelection).value,
                                                    Attrs(Lines(old(rows))), 0)
                && log == old(log) + RestoreNotices(RestoreSilently, old(selectedItems), selectedItems)
      ensures out.Pass? && MarkedWithin(old(rows), old(selectedItems)) ==> MarkersAgree(rows, selectedItems)
    {
      if savedSelection.None? {
        return Fail(NothingSaved);
      }
      var saved := savedSelection.value;
      out := SelectNone(RestoreSilently);
      if out.Fail? {
        return;
      }
      ghost var s1 := Snap();
      ClearReported(collection, true, selectableModelsFilter, old(Snap()), RestoreSilently, out, s1);
      LineAttrsIgnoreMarks(rows, old(rows));
      Reselect(saved);
      RestoreNoticesCompose(RestoreSilently, old(Snap()), s1, Snap());
      savedSelection := None;
    }

    /** The part of `_restoreSelection` after the selection was cleared:
        what it reports is the commit of the restored cids to the empty
        selection. */
    method Reselect(saved: SavedLines)
      requires Valid() && selectable && selectedItems == []
      modifies this`selectedItems, this`rows, this`log
      ensures Valid()
      ensures SameUpToMarks(rows, old(rows))
      ensures Appended(old(log), log)
      ensures selectedItems == RestoredByLines(collection, true, selectableModelsFilter, saved, Attrs(Lines(old(rows))), 0)
      ensures log == old(log) + Notice(selectedItems != [], RestoreSilently, SelectionChanged(selectedItems, []),
                                       Event.UpdateDependentControls(selectedItems))
      ensures MarkersAgree(old(rows), []) ==> MarkersAgree(rows, selectedItems)
    {
      if |saved.items| > 0 {
        ghost var s1 := Snap();
        var byCid := SetSelectedItems(Arr(saved.items), "cid", RestoreSilently);
        SetFromNothingReported(collection, true, selectableModelsFilter, s1, saved.items, RestoreSilently, byCid, Snap());
        if |selectedItems| == 0 {
          ghost var s2 := Snap();
          var byLine := SetSelectedItems(Arr(saved.lines), "line", RestoreSilently);
          AppendedTrans(s1.log, s2.log, log);
          LineAttrsIgnoreMarks(s2.rows, s1.rows);
          SetterLineMode(collection, selectableModelsFilter, viewManager, s2, saved.lines, RestoreSilently, byLine, Snap());
          SetFromNothingReported(collection, true, selectableModelsFilter, s2,
                                 ItemsAtLines(Attrs(Lines(s2.rows)), saved.lines, 0), RestoreSilently, byLine, Snap());
        }
      } else {
        ValidateNothing(collection, true, selectableModelsFilter);
      }
    }

    /** `render`: save the selection, rebuild the list and the registry,
        trigger `render`, restore the selection and update the dependent
        controls. */
    method Render()
      requires Valid()
      modifies this`selectedItems, this`rows, this`log, this`savedSelection, this`viewManager
      ensures Valid()
      ensures viewManager == Some(ViewsOf(collection))
      ensures RenderedByLines(selectable, RestoreSilently, collection, true, selectableModelsFilter, 0, Layout(), old(Snap()), Snap())
      ensures CidsOf(collection, selectedItems) || !selectable
      ensures selectable ==> savedSelection.None?
      ensures !selectable ==> savedSelection == old(savedSelection)
    {
      ghost var before := Snap();
      var saved := SaveSelection();
      Rebuild();
      ghost var list := rows;
      if selectable {
        BuiltUnmarked(collection, true, templated, modelViewHides, visibleModelsFilter, false);
        RestoreAndNotify(before, list);
      }
    }

    /** The middle of `render`: the list and the registry are rebuilt and
        `render` is triggered. */
    method Rebuild()
      modifies this`rows, this`log, this`viewManager
      ensures rows == Layout() && viewManager == Some(ViewsOf(collection)) && log == old(log) + [Event.Render]
    {
      var list, views := BuildList();
      viewManager := Some(views);
      rows := list;
      log := log + [Event.Render];
    }

    /** The end of `render` on a selectable view: `_restoreSelection`,
        then `updateDependentControls`. */
    method RestoreAndNotify(ghost before: Snapshot, ghost list: seq<Row>)
      requires Valid() && selectable
      requires savedSelection == Some(SavedLines(before.sel, MarkedLines(Lines(before.rows), 0)))
      requires Snap() == Snapshot(before.sel, list, before.log + [Event.Render]) && Unmarked(list)
      modifies this`selectedItems, this`rows, this`log, this`savedSelection
      ensures Valid() && savedSelection.None?
      ensures RenderedByLines(true, RestoreSilently, collection, true, selectableModelsFilter, 0, list, before, Snap())
      ensures CidsOf(collection, selectedItems)
    {
      ghost var s0 := Snap();
      var restored := RestoreSelection();
      ghost var s1 := Snap();
      UpdateDependentControls();
      RenderByLinesComposes(RestoreSilently, collection, true, selectableModelsFilter, 0, list, before, s0, s1, Snap());
    }

    /** `updateDependentControls`. */
    method UpdateDependentControls()
      modifies this`log
      ensures log == old(log) + [Event.UpdateDependentControls(selectedItems)]
    {
      log := log + [Event.UpdateDependentControls(selectedItems)];
    }

    /** `validateSelectionAndRender`, what `remove` and `reset` of the
        collection call. */
    method ValidateSelectionAndRender()
      requires Valid()
      modifies this`selectedItems, this`rows, this`log, this`savedSelection, this`viewManager
      ensures Valid()
      ensures viewManager == Some(ViewsOf(collection))
      ensures RenderedByLines(selectable, RestoreSilently, collection, true, selectableModelsFilter, 0, Layout(),
                              Snapshot(Validate(collection, old(selectedItems), true, selectableModelsFilter), old(rows), old(log)), Snap())
      ensures selectable ==> selectedItems == Validate(collection, old(selectedItems), true, selectableModelsFilter)
    {
      ValidateSelection();
      Render();
      if selectable {
        PrunedSurvivesRenderByLines(RestoreSilently, collection, true, selectableModelsFilter, 0, Layout(), old(selectedItems),
                                    Snapshot(Validate(collection, old(selectedItems), true, selectableModelsFilter), old(rows), old(log)),
                                    Snap());
      }
    }

    /** The collection's `add` event: Backbone adds a model that is not
        there yet (and then triggers `add`, which renders). */
    method CollectionAdd(m: Record, at: Option<int>)
      requires Valid() && Compatible(collection, m)
      modifies this`collection, this`selectedItems, this`rows, this`log, this`savedSelection, this`viewManager
      ensures Valid()
      ensures collection == Add(old(collection), m, at)
      ensures m in old(collection) ==> Snap() == old(Snap()) && viewManager == old(viewManager)
      ensures m !in old(collection) ==>
                && multiset(collection) == multiset(old(collection)) + multiset{m}
                && viewManager == Some(ViewsOf(collection))
                && RenderedByLines(selectable, RestoreSilently, collection, true, selectableModelsFilter, 0, Layout(), old(Snap()), Snap())
    {
      AddKeepsWellFormed(collection, m, at);
      if m !in collection {
        collection := Add(collection, m, at);
        Render();
      }
    }

    /** The collection's `remove` event. */
    method CollectionRemove(m: Record)
      requires Valid()
      modifies this`collection, this`selectedItems, this`rows, this`log, this`savedSelection, this`viewManager
      ensures Valid()
      ensures m !in old(collection) ==> collection == old(collection) && Snap() == old(Snap())
      ensures m in old(collection) ==>
                && collection == Remove(old(collection), m)
                && (selectable ==> selectedItems == Validate(collection, old(selectedItems), true, selectableModelsFilter))
                && Str(m.cid) !in selectedItems
    {
      if m in collection {
        RemoveKeepsWellFormed(collection, m);
        collection := Remove(collection, m);
        RefIdGone(old(collection), m, true);
        ValidateSelectionAndRender();
      }
    }

    /** The collection's `reset` event. */
    method CollectionReset(models: seq<Record>)
      requires Valid() && WellFormed(models)
      modifies this`collection, this`selectedItems, this`rows, this`log, this`savedSelection, this`viewManager
      ensures Valid()
      ensures collection == models
      ensures selectable ==> selectedItems == Validate(models, old(selectedItems), true, selectableModelsFilter)
      ensures SameUpToMarks(rows, Layout())
    {
      collection := models;
      ValidateSelectionAndRender();
    }

    /** `setCollection( newCollection )`: store the collection and
        render. */
    method SetCollection(models: seq<Record>)
      requires Valid() && WellFormed(models)
      modifies this`collection, this`selectedItems, this`rows, this`log, this`savedSelection, this`viewManager
      ensures Valid()
      ensures collection == models && viewManager == Some(ViewsOf(models))
      ensures RenderedByLines(selectable, RestoreSilently, models, true, selectableModelsFilter, 0, Layout(), old(Snap()), Snap())
    {
      collection := models;
      Render();
    }

    /** `_reorderCollectionBasedOnHTML`: walk the children in document
        order, moving every model they name to the end of the collection,
        then trigger `reorder`. The source triggers `reorder` on the
        collection, not on the view; the model records it in the view's
        log, which stands for every event observers can see. */
    method ReorderCollectionBasedOnHtml()
      requires Valid()
      modifies this`collection, this`log
      ensures Valid()
      ensures collection == Reordered(old(collection), rows, false)
      ensures multiset(collection) == multiset(old(collection))
      ensures log == old(log) + [Event.Reorder]
    {
      var i := 0;
      while i < |rows|
        invariant 0 <= i <= |rows|
        invariant collection == Reordered(old(collection), rows[..i], false)
        invariant log == old(log)
      {
        ReorderedStep(old(collection), rows, i);
        var thisModelId := rows[i].itemId;
        if thisModelId.Some? && thisModelId.value != "" {
          var thisModel := Get(collection, Str(thisModelId.value));
          if thisModel.Some? {
            collection := Remove(collection, thisModel.value);
            collection := Add(collection, thisModel.value, None);
          }
        }
        i := i + 1;
      }
      assert rows[..|rows|] == rows;
      ReorderedPermutes(old(collection), rows, false);
      log := log + [Event.Reorder];
    }

    /** `collection.remove( modelBeingSorted, { silent : true } )`: no
        event, so nothing is rendered. */
    method RemoveDragged(m: Option<Record>)
      requires Valid() && (m.Some? ==> m.value in collection)
      modifies this`collection
      ensures Valid()
      ensures collection == DraggedOut(old(collection), m)
    {
      DraggedOutMultiset(collection, m);
      collection := DraggedOut(collection, m);
    }

    /** `_sortStop`: the list's children are now `newRows`; a model dropped
        into another list (`newIndex` is -1) leaves the collection
        silently, the rest is reordered, and the dependent controls and
        `sortStop` are notified. The selection is left as it was. */
    method SortStop(newRows: seq<Row>, itemAttr: Option<string>, newIndex: int)
      requires Valid()
      modifies this`rows, this`collection, this`log
      ensures Valid()
      ensures rows == newRows
      ensures collection == Sorted(old(collection), newRows, itemAttr, newIndex)
      ensures log == old(log) + [Event.Reorder, Event.UpdateDependentControls(selectedItems),
                                 Event.SortStop(ModelValue(DraggedModel(old(collection), itemAttr)), newIndex)]
    {
      var modelBeingSorted := DraggedModel(collection, itemAttr);
      rows := newRows;
      if newIndex == -1 {
        RemoveDragged(modelBeingSorted);
      }
      ReorderCollectionBasedOnHtml();
      UpdateDependentControls();
      log := log + [Event.SortStop(ModelValue(modelBeingSorted), newIndex)];
    }

    /** `_receive`: the model dropped in from another list is added at the
        drop index (and the `add` listener renders), then set as the
        selection by model, silently. Backbone does not add a model that
        shares a key with one the collection holds, and triggers no `add`
        then; the model is set all the same. `fromList` says whether the
        sender is a collection view with a collection. */
    method Receive(fromList: bool, m: Record, newIndex: int) returns (out: Outcome)
      requires Valid() && !IsNumeral(m.cid) && PrimitiveId(m.id)
      modifies this`collection, this`selectedItems, this`rows, this`log, this`savedSelection, this`viewManager
      ensures Valid()
      ensures !fromList ==> out == Pass && collection == old(collection) && Snap() == old(Snap())
      ensures fromList ==> collection == AddUnlessFound(old(collection), m, Some(newIndex))
      ensures fromList ==> (m in collection <==> !Collides(old(collection), m))
      ensures fromList ==> (out == Pass <==> selectable)
      ensures fromList && selectable ==>
                selectedItems == if Str(m.cid) in RefIds(collection, true)
                                    && Selectable(collection, Str(m.cid), selectableModelsFilter)
                                 then [Str(m.cid)] else []
      ensures fromList && selectable && !Collides(old(collection), m) ==>
                selectedItems == if Selectable(collection, Str(m.cid), selectableModelsFilter) then [Str(m.cid)] else []
    {
      if !fromList {
        return Pass;
      }
      AddUnlessFoundSpec(collection, m, Some(newIndex));
      if !Collides(collection, m) {
        CollectionAdd(m, Some(newIndex));
      }
      ghost var s1 := Snap();
      out := SetSelectedItem(ModelRef(m), "model", true);
      SetterReceivedModel(selectable, collection, selectableModelsFilter, viewManager, s1, m, true, out, Snap());
      ReceivedModelSelected(collection, m, selectableModelsFilter);
    }

    /** `_onKeydown( event )`, returning whether the event is passed on:
        with exactly one marked line, the up and down arrows select the
        line above or below, silently. */
    method OnKeydown(key: int) returns (passOn: bool, out: Outcome)
      requires Valid()
      modifies this`selectedItems, this`rows, this`log
      ensures Valid()
      ensures !(processKeyEvents && |MarkedLines(Lines(old(rows)), 0)| == 1 && (key == UpArrow || key == DownArrow)) ==>
                passOn && out == Pass && Snap() == old(Snap())
      ensures processKeyEvents && |MarkedLines(Lines(old(rows)), 0)| == 1 && (key == UpArrow || key == DownArrow) ==>
                && !passOn
                && SetterEffect(selectable, collection, selectableModelsFilter, viewManager, old(Snap()),
                                Arr([Step(MarkedLines(Lines(old(rows)), 0)[0], if key == UpArrow then -1 else 1)]),
                                "line", true, out, Snap())
    {
      passOn, out := true, Pass;
      if !processKeyEvents {
        return;
      }
      var lines := GetSelectedItems("line");
      assert Snap() == old(Snap());
      if |lines.value| == 1 && (key == UpArrow || key == DownArrow) {
        FirstMarkedLineIsNumber(Lines(rows), 0);
        var item := Step(lines.value[0], if key == UpArrow then -1 else 1);
        assert item == Step(MarkedLines(Lines(old(rows)), 0)[0], if key == UpArrow then -1 else 1);
        out := SetSelectedItem(item, "line", true);
        passOn := false;
      }
    }

    /** `_listItem_onClick( theEvent )`: the cids the click rules pick are
        set, not silently. */
    method OnItemClick(click: Click) returns (out: Outcome)
      requires Valid()
      modifies this`selectedItems, this`rows, this`log
      ensures Valid()
      ensures !(selectable && clickToSelect) ==> out == Pass && Snap() == old(Snap())
      ensures selectable && clickToSelect ==>
                match ClickRequest(collection, old(selectedItems), true, selectMultiple, clickToToggle || click.metaKey, click)
                case Failure(e) => out == Fail(e) && Snap() == old(Snap())
                case Success(req) =>
                  SetterEffect(true, collection, selectableModelsFilter, viewManager, old(Snap()), Arr(req),
                               "cid", false, out, Snap())
    {
      if !selectable || !clickToSelect {
        return Pass;
      }
      var req := ClickedItems(collection, selectedItems, true, selectMultiple, clickToToggle || click.metaKey, click);
      if req.Failure? {
        return Fail(req.error);
      }
      out := SetSelectedItems(Arr(req.value), "cid", false);
    }

    /** `_listBackground_onClick( theEvent )`: a click on the list element
        itself clears the selection of a selectable view. */
    method OnBackgroundClick(onList: bool) returns (out: Outcome)
      requires Valid()
      modifies this`selectedItems, this`rows, this`log
      ensures Valid()
      ensures out == Pass
      ensures !(selectable && onList) ==> Snap() == old(Snap())
      ensures selectable && onList ==>
                && selectedItems == []
                && SetterEffect(true, collection, selectableModelsFilter, viewManager, old(Snap()), Arr([]),
                                DefaultReferenceBy, false, out, Snap())
                && log == old(log) + Notice(old(selectedItems) != [], false, SelectionChanged([], old(selectedItems)),
                                            Event.UpdateDependentControls([]))
    {
      if !selectable || !onList {
        return Pass;
      }
      out := SelectNone(false);
      ClearReported(collection, true, selectableModelsFilter, old(Snap()), false, out, Snap());
    }
  }
}
