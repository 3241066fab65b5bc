/**
 * `Backbone.CollectionView` as in src/Backbone.CollectionView.js, the
 * latest revision. Models are referenced refBy cid; the setters and getters
 * take a `refBy` mode ("cid", "id", "model", "view", "offset", default
 * "model"); `selectionChanged` and `updateDependentControls` carry the
 * selected models. The view is a class whose fields are the ones the
 * source keeps on `this`; the rendered list is `rows` and the triggered
 * notifications are appended to `log`.
 */
module CollectionViewSrc {

  import opened Js
  import opened Underscore
  import opened Backbone
  import opened Dom
  import opened Selection
  import opened Registry
  import opened Reorder
  import opened Clicks
  import opened Commits
  import opened Rendering
  import opened Addressing
  import opened LineAddressing

  const DefaultReferenceBy := "model"

  const AllowedOptions: seq<string> := [
    "collection", "modelView", "modelViewOptions", "itemTemplate", "emptyListCaption",
    "selectable", "clickToSelect", "selectableModelsFilter", "visibleModelsFilter",
    "selectMultiple", "clickToToggle", "processKeyEvents", "sortable", "sortableModelsFilter"]

  const OptionsRequiringRerendering: seq<string> := [
    "collection", "modelView", "modelViewOptions", "itemTemplate", "selectableModelsFilter", "visibleModelsFilter"]

  const UpArrow := 38
  const DownArrow := 40

  /** `this.savedSelection`: the selected cids and the first selected
      offset (`undefined` when no line was marked). */
  datatype SavedSelection = SavedSelection(items: seq<Value>, offset: Value)

  /** A value handed to `setOption`: a plain value, a function (a filter,
      or a model view constructor whose `render` returns `false` for the
      models the function accepts), or a Backbone collection. */
  datatype OptionValue = Plain(v: Value) | Callback(f: Value -> bool) | NewCollection(models: seq<Record>)

  predicate OptionTruthy(o: OptionValue)
  {
    !o.Plain? || Truthy(o.v)
  }

  /** `_.isFunction( value )`. */
  function AsFilter(o: OptionValue): Option<Value -> bool>
  {
    if o.Callback? then Some(o.f) else None
  }

  /** The cids `setSelectedModels` collects for each `refBy` mode; `views`
      is `viewManager`, `None` until the first render. */
  function Request(refBy: string, items: seq<Value>, views: Option<seq<ItemView>>, rows: seq<Row>): Result<seq<Value>>
  {
    if refBy == "cid" then Success(items)
    else if refBy == "id" then
      if views.None? then Failure(TypeError) else Success(CidsWithIds(views.value, items))
    else if refBy == "model" then PluckCids(items)
    else if refBy == "view" then ViewCids(items)
    else if refBy == "offset" then Success(ItemsAtLines(Attrs(Lines(rows)), items, 0))
    else Failure(BadReferenceBy)
  }

  /** `viewManager.findByModel( collection.get( item ) )` for every
      selected cid: before the first render there is no `viewManager`, so
      any selected cid throws. */
  function SelectedViews(c: seq<Record>, views: Option<seq<ItemView>>, sel: seq<Value>): Result<seq<Value>>
  {
    if views.None? then (if sel == [] then Success([]) else Failure(TypeError))
    else ViewsOfSelection(c, views.value, sel)
  }

  /** Before the first render the view read throws exactly when something
      is selected, and the id-mode setter always throws on a selectable
      view given a list; the other modes do not consult `viewManager`. */
  lemma UnrenderedRegistry(c: seq<Record>, f: Option<Value -> bool>, before: Snapshot, items: seq<Value>,
                           refBy: string, silent: bool, out: Outcome, after: Snapshot)
    requires SetterEffect(true, c, f, None, before, Arr(items), refBy, silent, out, after)
    ensures SelectedViews(c, None, before.sel).Success? <==> before.sel == []
    ensures refBy == "id" ==> out == Fail(TypeError) && after == before
    ensures refBy == "cid" ==> out == Pass
  {
  }

  /** Once rendered, the views read for a selection of the collection's
      cids ask, by view, for exactly those cids again. */
  lemma RenderedViewsReadBack(c: seq<Record>, sel: seq<Value>, rows: seq<Row>)
    requires WellFormed(c) && CidsOf(c, sel)
    ensures SelectedViews(c, Some(ViewsOf(c)), sel).Success?
    ensures Request("view", SelectedViews(c, Some(ViewsOf(c)), sel).value, Some(ViewsOf(c)), rows) == Success(sel)
  {
    ViewModeRoundTrip(c, sel);
  }

  /** `collection.get( item ).id` for every selected cid. */
  function IdsOf(c: seq<Record>, sel: seq<Value>): Result<seq<Value>>
    decreases |sel|
  {
    if sel == [] then Success([])
    else
      match IdsOf(c, sel[..|sel| - 1])
      case Failure(e) => Failure(e)
      case Success(p) =>
        match Get(c, sel[|sel| - 1])
        case None => Failure(TypeError)
        case Some(m) => Success(p + [m.id])
  }

  // -----------------------------------------------------------------------
  // Committing a selection

  /** `setSelectedModels( items, { by : by, silent : silent } )` on a view
      that is `selectable`, with collection `c`, filter `f` and registry
      `views`, going from `before` to `after`. */
  predicate SetterEffect(selectable: bool, c: seq<Record>, f: Option<Value -> bool>, views: Option<seq<ItemView>>,
                         before: Snapshot, items: Value, refBy: string, silent: bool, out: Outcome, after: Snapshot)
  {
    if !selectable then out == Fail(NotSelectable) && after == before
    else if !items.Arr? then out == Fail(InvalidParameter) && after == before
    else match Request(refBy, items.elems, views, before.rows)
      case Failure(e) => out == Fail(e) && after == before
      case Success(req) =>
        && out == Pass
        && after.sel == Validate(c, ConvertStringsToInts(req), true, f)
        && Committed(before, after, silent, SelectionChanged(Models(c, after.sel), Models(c, before.sel)),
                     UpdateDependentControls(Models(c, after.sel)))
  }

  // -----------------------------------------------------------------------
  // Rendering

  /** `_restoreSelection` on a list whose lines carry `attrs`: the saved
      cids are selected again; when none of them is left, the line at the
      saved offset is selected instead. */
  function RestoredSelection(c: seq<Record>, f: Option<Value -> bool>, saved: SavedSelection, attrs: seq<Value>): seq<Value>
  {
    if saved.items == [] then []
    else
      var byCid := Validate(c, ConvertStringsToInts(saved.items), true, f);
      if byCid != [] then byCid
      else if saved.offset.Undefined? || saved.offset.Null? then []
      else AtLines(c, true, f, attrs, [saved.offset], 0)
  }

  /** A selection validated before the render comes back unchanged: the
      offset is never consulted. This is what happens when a model is
      removed or the collection reset (`validateSelectionAndRender`). */
  lemma RestoreValidated(c: seq<Record>, f: Option<Value -> bool>, sel: seq<Value>, offset: Value, attrs: seq<Value>)
    requires WellFormed(c)
    ensures RestoredSelection(c, f, SavedSelection(Validate(c, sel, true, f), offset), attrs) == Validate(c, sel, true, f)
  {
    var v := Validate(c, sel, true, f);
    if v != [] {
      CidsUnconvertible(c, v);
      ConvertUnconvertible(v);
      ValidateIdempotent(c, sel, true, f);
    }
  }

  /** The selection a saved offset stands for: only a line number selects
      anything. */
  function OffsetSelection(c: seq<Record>, f: Option<Value -> bool>, attrs: seq<Value>, offset: Value): seq<Value>
  {
    if offset.Number? then AtLine(c, true, f, attrs, offset.n, 0) else []
  }

  /** When no saved cid is left, the selection is the line at the saved
      offset if the list has such a line and it passes validation, and
      nothing when the offset is undefined or past the visible lines. */
  lemma RestoreFallsBackToOffset(c: seq<Record>, f: Option<Value -> bool>, saved: SavedSelection, attrs: seq<Value>)
    requires WellFormed(c) && saved.items != []
    requires Validate(c, ConvertStringsToInts(saved.items), true, f) == []
    ensures RestoredSelection(c, f, saved, attrs) == OffsetSelection(c, f, attrs, saved.offset)
  {
    var o := saved.offset;
    if !(o.Undefined? || o.Null?) {
      if o.Number? {
        SingleLineSelects(c, true, f, attrs, o.n, 0);
      } else {
        var none := ItemsAtLines(attrs, [o], 0);
        ItemsAtLinesInRange(attrs, [o], [], 0);
        NoNumbersNoLines(attrs, 0);
      }
      ValidateNothing(c, true, f);
    }
  }

  /** A setter that passed committed the selection it validated. */
  lemma SetterCommitted(selectable: bool, c: seq<Record>, f: Option<Value -> bool>, views: Option<seq<ItemView>>,
                        before: Snapshot, items: Value, refBy: string, silent: bool, out: Outcome, after: Snapshot)
    requires SetterEffect(selectable, c, f, views, before, items, refBy, silent, out, after) && out.Pass?
    ensures Committed(before, after, silent, SelectionChanged(Models(c, after.sel), Models(c, before.sel)),
                      UpdateDependentControls(Models(c, after.sel)))
  {
  }

  /** Clearing the selection reports exactly the clearing of a
      selection that was not empty, and selecting on an emptied selection
      reports exactly a selection that is not empty. */
  lemma SetterAtNothingReported(c: seq<Record>, before: Snapshot, after: Snapshot, silent: bool)
    requires before.sel == [] || after.sel == []
    requires Committed(before, after, silent, SelectionChanged(Models(c, after.sel), Models(c, before.sel)),
                       UpdateDependentControls(Models(c, after.sel)))
    ensures after.sel == [] ==>
              after.log == before.log + Notice(before.sel != [], silent, SelectionChanged([], Models(c, before.sel)),
                                               UpdateDependentControls([]))
    ensures before.sel == [] ==>
              after.log == before.log + Notice(after.sel != [], silent, SelectionChanged(Models(c, after.sel), []),
                                               UpdateDependentControls(Models(c, after.sel)))
  {
    assert Models(c, []) == [];
    CommittedAtNothing(before, after, silent, SelectionChanged(Models(c, after.sel), Models(c, before.sel)),
                       UpdateDependentControls(Models(c, after.sel)));
  }

  /** Clearing a selectable view's selection announces exactly the
      clearing of a selection that was not empty. */
  lemma SetterClearReported(c: seq<Record>, f: Option<Value -> bool>, views: Option<seq<ItemView>>, before: Snapshot,
                            silent: bool, out: Outcome, after: Snapshot)
    requires SetterEffect(true, c, f, views, before, Arr([]), DefaultReferenceBy, silent, out, after)
    ensures out == Pass && after.sel == []
    ensures after.log == before.log + Notice(before.sel != [], silent, SelectionChanged([], Models(c, before.sel)),
                                             UpdateDependentControls([]))
  {
    SetterNothing(c, f, views, before, DefaultReferenceBy, silent, out, after);
    SetterAtNothingReported(c, before, after, silent);
  }

  /** The notifications of `_restoreSelection`, whose setters are not
      silent, with the selected models as payloads: the clearing of a
      selection `prior` that was not empty, then the selection of
      `restored` when it is not empty. */
  function RestoreAnnouncements(c: seq<Record>, prior: seq<Value>, restored: seq<Value>): seq<Event>
  {
    Notice(prior != [], false, SelectionChanged([], Models(c, prior)), UpdateDependentControls([]))
    + Notice(restored != [], false, SelectionChanged(Models(c, restored), []), UpdateDependentControls(Models(c, restored)))
  }

  /** The two steps of the restore make up `RestoreAnnouncements`, and
      only append to the log. */
  lemma RestoreAnnouncementsCompose(c: seq<Record>, before: Snapshot, cleared: Snapshot, after: Snapshot)
    requires cleared.log == before.log + Notice(before.sel != [], false, SelectionChanged([], Models(c, before.sel)),
                                                UpdateDependentControls([]))
    requires after.log == cleared.log + Notice(after.sel != [], false, SelectionChanged(Models(c, after.sel), []),
                                               UpdateDependentControls(Models(c, after.sel)))
    ensures after.log == before.log + RestoreAnnouncements(c, before.sel, after.sel)
    ensures Appended(before.log, after.log)
  {
    var n1 := Notice(before.sel != [], false, SelectionChanged([], Models(c, before.sel)), UpdateDependentControls([]));
    var n2 := Notice(after.sel != [], false, SelectionChanged(Models(c, after.sel), []),
                     UpdateDependentControls(Models(c, after.sel)));
    assert after.log == before.log + (n1 + n2);
    assert after.log[|before.log|..] == n1 + n2;
    assert Event.Render !in n1 && Event.Render !in n2;
  }

  /** What `render` does to the selection, the list and the log: the list
      is rebuilt; on a selectable view the selection saved beforehand
      (the cids, and the first marked line of the old list) is restored
      on the new list, the markers show it, and the log receives `render`,
      the announcements of the restore and a final
      `updateDependentControls`. */
  predicate RenderEffect(selectable: bool, c: seq<Record>, f: Option<Value -> bool>, built: seq<Row>,
                         before: Snapshot, after: Snapshot)
  {
    && SameUpToMarks(after.rows, built)
    && if !selectable then
         after.rows == built && after.sel == before.sel && after.log == before.log + [Event.Render]
       else
         && after.sel == RestoredSelection(c, f, SavedSelection(before.sel, FirstOr(MarkedLines(Lines(before.rows), 0))),
                                           Attrs(Lines(built)))
         && MarkersAgree(after.rows, after.sel)
         && after.log == before.log + [Event.Render] + RestoreAnnouncements(c, before.sel, after.sel)
                         + [UpdateDependentControls(Models(c, after.sel))]
  }

  /** On a view that is not selectable `render` only rebuilds the list
      and logs itself. */
  lemma RenderUnselectable(c: seq<Record>, f: Option<Value -> bool>, built: seq<Row>, before: Snapshot, after: Snapshot)
    requires after == Snapshot(before.sel, built, before.log + [Event.Render])
    ensures RenderEffect(false, c, f, built, before, after)
  {
  }

  /** The steps of `render` on a selectable view make up `RenderEffect`:
      `mid` is the state once the list is built and `render` logged,
      `restored` the state after `_restoreSelection`. */
  lemma RenderComposes(c: seq<Record>, f: Option<Value -> bool>, built: seq<Row>,
                       before: Snapshot, mid: Snapshot, restored: Snapshot, after: Snapshot)
    requires mid == Snapshot(before.sel, built, before.log + [Event.Render])
    requires SameUpToMarks(restored.rows, mid.rows)
    requires restored.log == mid.log + RestoreAnnouncements(c, before.sel, restored.sel)
    requires restored.sel == RestoredSelection(c, f, SavedSelection(before.sel, FirstOr(MarkedLines(Lines(before.rows), 0))),
                                               Attrs(Lines(built)))
    requires MarkersAgree(restored.rows, restored.sel)
    requires after == restored.(log := restored.log + [Event.UpdateDependentControls(Models(c, restored.sel))])
    ensures RenderEffect(true, c, f, built, before, after)
  {
  }

  /** `render` reports itself once, right after what was logged before. */
  lemma RenderLoggedOnce(selectable: bool, c: seq<Record>, f: Option<Value -> bool>, built: seq<Row>,
                         before: Snapshot, after: Snapshot)
    requires RenderEffect(selectable, c, f, built, before, after)
    ensures |after.log| > |before.log| && after.log[..|before.log|] == before.log
    ensures after.log[|before.log|] == Event.Render
    ensures Event.Render !in after.log[|before.log| + 1..]
  {
    var n := |before.log|;
    if selectable {
      var n1 := Notice(before.sel != [], false, SelectionChanged([], Models(c, before.sel)), UpdateDependentControls([]));
      var n2 := Notice(after.sel != [], false, SelectionChanged(Models(c, after.sel), []),
                       UpdateDependentControls(Models(c, after.sel)));
      var tail := n1 + n2 + [UpdateDependentControls(Models(c, after.sel))];
      assert after.log == before.log + [Event.Render] + tail;
      assert after.log[n + 1..] == tail;
      assert Event.Render !in n1 && Event.Render !in n2;
    } else {
      assert after.log == before.log + [Event.Render];
    }
  }

  /** What a render on a selectable view announces: the clearing of a
      selection that was not empty, with its models, and the restored
      selection when it is not empty; the last notification is
      `updateDependentControls` with the restored models, and a render
      with nothing selected before or after logs only `render` and
      that. */
  lemma RenderAnnounces(c: seq<Record>, f: Option<Value -> bool>, built: seq<Row>, before: Snapshot, after: Snapshot)
    requires RenderEffect(true, c, f, built, before, after)
    ensures before.sel != [] ==> SelectionChanged([], Models(c, before.sel)) in after.log[|before.log|..]
    ensures after.sel != [] ==> SelectionChanged(Models(c, after.sel), []) in after.log[|before.log|..]
    ensures after.log[|after.log| - 1] == UpdateDependentControls(Models(c, after.sel))
    ensures before.sel == [] && after.sel == [] ==>
              after.log == before.log + [Event.Render, UpdateDependentControls([])]
  {
    var n1 := Notice(before.sel != [], false, SelectionChanged([], Models(c, before.sel)), UpdateDependentControls([]));
    var n2 := Notice(after.sel != [], false, SelectionChanged(Models(c, after.sel), []),
                     UpdateDependentControls(Models(c, after.sel)));
    var tail := [Event.Render] + n1 + n2 + [UpdateDependentControls(Models(c, after.sel))];
    assert after.log == before.log + tail;
    assert after.log[|before.log|..] == tail;
    if before.sel != [] {
      assert tail[1] == SelectionChanged([], Models(c, before.sel));
    }
    if after.sel != [] {
      assert tail[1 + |n1|] == SelectionChanged(Models(c, after.sel), []);
    }
    if before.sel == [] && after.sel == [] {
      assert Models(c, []) == [];
    }
  }

  /** `validateSelectionAndRender`: the selection is pruned before the
      render saves it, so the render gives back the pruned selection and
      never falls back to the saved offset. */
  lemma PrunedSelectionSurvivesRender(c: seq<Record>, f: Option<Value -> bool>, built: seq<Row>,
                                      sel: seq<Value>, before: Snapshot, after: Snapshot)
    requires WellFormed(c) && before.sel == Validate(c, sel, true, f)
    requires RenderEffect(true, c, f, built, before, after)
    ensures after.sel == Validate(c, sel, true, f)
  {
    RestoreValidated(c, f, sel, FirstOr(MarkedLines(Lines(before.rows), 0)), Attrs(Lines(built)));
  }


  /** In cid mode the setter selects the validated argument. */
  lemma SetterCidMode(c: seq<Record>, f: Option<Value -> bool>, views: Option<seq<ItemView>>, before: Snapshot,
                      items: seq<Value>, silent: bool, out: Outcome, after: Snapshot)
    requires SetterEffect(true, c, f, views, before, Arr(items), "cid", silent, out, after)
    ensures out == Pass && after.sel == Validate(c, ConvertStringsToInts(items), true, f)
  {
  }

  /** In offset mode the setter selects the validated cids of the visible
      lines whose numbers are asked for. */
  lemma SetterOffsetMode(c: seq<Record>, f: Option<Value -> bool>, views: Option<seq<ItemView>>, before: Snapshot,
                         items: seq<Value>, silent: bool, out: Outcome, after: Snapshot)
    requires SetterEffect(true, c, f, views, before, Arr(items), "offset", silent, out, after)
    ensures out == Pass
    ensures after.sel == AtLines(c, true, f, Attrs(Lines(before.rows)), items, 0)
    ensures forall x :: x in after.sel <==>
              && x in RefIds(c, true) && Selectable(c, x, f)
              && exists k :: 0 <= k < |Lines(before.rows)| && Number(k) in items
                             && ConvertStringToInt(Attrs(Lines(before.rows))[k]) == x
  {
    var req := ItemsAtLines(Attrs(Lines(before.rows)), items, 0);
    assert Request("offset", items, views, before.rows) == Success(req);
    assert after.sel == Validate(c, ConvertStringsToInts(req), true, f);
    assert after.sel == AtLines(c, true, f, Attrs(Lines(before.rows)), items, 0);
    AtLinesSpec(c, true, f, Attrs(Lines(before.rows)), items, 0);
  }

  /** Setting no models selects nothing. */
  lemma SetterNothing(c: seq<Record>, f: Option<Value -> bool>, views: Option<seq<ItemView>>, before: Snapshot,
                      refBy: string, silent: bool, out: Outcome, after: Snapshot)
    requires refBy in ["cid", "model", "view", "offset"]
    requires SetterEffect(true, c, f, views, before, Arr([]), refBy, silent, out, after)
    ensures out == Pass && after.sel == []
  {
    ValidateNothing(c, true, f);
    if refBy == "offset" {
      NoNumbersNoLines(Attrs(Lines(before.rows)), 0);
    }
  }

  /** Whenever none of the saved models is left (the collection was
      swapped for one without them), `render` selects the line at the
      first marked offset of the old list, if the new list has such a line
      and its model passes validation, and nothing otherwise. */
  lemma RenderFallsBackToOffset(c: seq<Record>, f: Option<Value -> bool>, built: seq<Row>, before: Snapshot, after: Snapshot)
    requires WellFormed(c) && RenderEffect(true, c, f, built, before, after)
    requires before.sel != [] && Validate(c, ConvertStringsToInts(before.sel), true, f) == []
    ensures after.sel == OffsetSelection(c, f, Attrs(Lines(built)), FirstOr(MarkedLines(Lines(before.rows), 0)))
  {
    RestoreFallsBackToOffset(c, f, SavedSelection(before.sel, FirstOr(MarkedLines(Lines(before.rows), 0))), Attrs(Lines(built)));
  }

  // -----------------------------------------------------------------------
  // Options

  /** The options the view consults, as stored by `initialize` and
      `setOption`. */
  datatype Settings = Settings(selectable: bool, clickToSelect: bool, selectMultiple: bool, clickToToggle: bool,
                               processKeyEvents: bool, sortable: bool,
                               selectableModelsFilter: Option<Value -> bool>, visibleModelsFilter: Option<Value -> bool>,
                               modelViewHides: Value -> bool, emptyListCaption: bool, templated: bool)

  /** The options after `initialize`: click to select, no toggling,
      keys processed, not sortable, default model views, no template and
      no empty-list caption. */
  function DefaultSettings(selectable: bool, selectMultiple: bool,
                           selectableModelsFilter: Option<Value -> bool>, visibleModelsFilter: Option<Value -> bool>): Settings
  {
    Settings(selectable, true, selectMultiple, false, true, false, selectableModelsFilter, visibleModelsFilter,
             (v: Value) => false, false, false)
  }

  /** A model view constructor given as an option: the models whose view
      renders `false`; any other value leaves every view shown. */
  function HidesOf(o: OptionValue): Value -> bool
  {
    if o.Callback? then o.f else (v: Value) => false
  }

  /** `this[ name ] = value` (with `_updateItemTemplate` for
      `itemTemplate`, which keeps a template once one was found). The
      handlers test flags for truthiness; `modelViewOptions` and
      `sortableModelsFilter` change nothing this model observes. */
  function Configured(s: Settings, name: string, value: OptionValue): Settings
  {
    var b := OptionTruthy(value);
    Settings(
      if name == "selectable" then b else s.selectable,
      if name == "clickToSelect" then b else s.clickToSelect,
      if name == "selectMultiple" then b else s.selectMultiple,
      if name == "clickToToggle" then b else s.clickToToggle,
      if name == "processKeyEvents" then b else s.processKeyEvents,
      if name == "sortable" then b else s.sortable,
      if name == "selectableModelsFilter" then AsFilter(value) else s.selectableModelsFilter,
      if name == "visibleModelsFilter" then AsFilter(value) else s.visibleModelsFilter,
      if name == "modelView" then HidesOf(value) else s.modelViewHides,
      if name == "emptyListCaption" then !(value.Plain? && value.v.Null?) else s.emptyListCaption,
      if name == "itemTemplate" then s.templated || b else s.templated)
  }

  /** Only `selectable` switches selection on or off. */
  lemma ConfiguredKeepsSelectable(s: Settings, name: string, value: OptionValue)
    requires name != "selectable"
    ensures Configured(s, name, value).selectable == s.selectable
  {
  }

  /** The selection once `selectableModelsFilter` is set to `value`:
      pruned with the new filter when it is a function. */
  function FilteredSelection(c: seq<Record>, sel: seq<Value>, value: OptionValue): seq<Value>
  {
    if value.Callback? then Validate(c, sel, true, Some(value.f)) else sel
  }

  /** A view that holds at most one model once `selectMultiple` is turned
      off: the first one is set again by cid. */
  lemma SingleAfterSelectMultipleOff(c: seq<Record>, x: Value, f: Option<Value -> bool>)
    ensures |Validate(c, [x], true, f)| <= 1
  {
    var v := Validate(c, [x], true, f);
    NoDupCard(v);
    assert Elems(v) <= {x};
    SubsetCard(Elems(v), {x});
  }

  /** The state of a view that `setOption` can change. */
  datatype ViewState = ViewState(collection: seq<Record>, views: Option<seq<ItemView>>, options: Settings, snap: Snapshot)

  /** The list `render` builds for collection `c` under options `o`. */
  function LayoutFor(c: seq<Record>, o: Settings): seq<Row>
  {
    Built(c, true, o.templated, o.modelViewHides, o.visibleModelsFilter, o.emptyListCaption)
  }

  /** `s1` is the state after a `render` that started with selection,
      list and log `pre`. */
  ghost predicate Rerendered(pre: Snapshot, s1: ViewState)
  {
    && s1.views == Some(ViewsOf(s1.collection))
    && RenderEffect(s1.options.selectable, s1.collection, s1.options.selectableModelsFilter,
                    LayoutFor(s1.collection, s1.options), pre, s1.snap)
  }

  /** What `setOption( name, value )` does, going from `s0` to `s1`:
      an unknown name throws; `collection`, given a collection, swaps the
      collection and renders; every other allowed option is stored, `selectMultiple`
      turned off keeps only the first selected model, `selectable` turned
      off first clears the selection (both announced, since the setter is
      not silent here), a new `selectableModelsFilter`
      function prunes the selection, and the options that change the list
      render it again. */
  ghost predicate OptionSet(name: string, value: OptionValue, s0: ViewState, out: Outcome, s1: ViewState)
  {
    if name == "collection" then
      && value.NewCollection?
      && out == Pass && s1.collection == value.models && s1.options == s0.options
      && Rerendered(s0.snap, s1)
    else if name !in AllowedOptions then out == Fail(NotAllowedOption(name)) && s1 == s0
    else
      && out == Pass
      && s1.collection == s0.collection
      && s1.options == Configured(s0.options, name, value)
      && if name == "selectMultiple" || name == "selectable" then
           var sel0 := s0.snap.sel;
           var c := s0.collection;
           && s1.views == s0.views
           && SameUpToMarks(s1.snap.rows, s0.snap.rows)
           && (MarkersAgree(s0.snap.rows, sel0) ==> MarkersAgree(s1.snap.rows, s1.snap.sel))
           && if name == "selectable" && !OptionTruthy(value) && sel0 != [] then
                && s1.snap.sel == []
                && s1.snap.log == s0.snap.log + [SelectionChanged([], Models(c, sel0)), Event.UpdateDependentControls([])]
              else if name == "selectMultiple" && !OptionTruthy(value) && |sel0| > 1 then
                var sel1 := s1.snap.sel;
                && sel1 == Validate(c, [sel0[0]], true, s1.options.selectableModelsFilter)
                && s1.snap.log == s0.snap.log + [SelectionChanged(Models(c, sel1), Models(c, sel0)),
                                                 Event.UpdateDependentControls(Models(c, sel1))]
              else s1.snap == s0.snap
         else if name == "selectableModelsFilter" then
           Rerendered(Snapshot(FilteredSelection(s0.collection, s0.snap.sel, value), s0.snap.rows, s0.snap.log), s1)
         else if name in OptionsRequiringRerendering then
           Rerendered(s0.snap, s1)
         else
           s1.snap == s0.snap && s1.views == s0.views
  }

  /** The plain cases of `setOption`: an option stored without a render,
      and an option stored and followed by a render. */
  lemma OptionStored(name: string, value: OptionValue, s0: ViewState, s1: ViewState)
    requires name in AllowedOptions && name !in OptionsRequiringRerendering
    requires name != "selectMultiple" && name != "selectable"
    requires s1 == s0.(options := Configured(s0.options, name, value))
    ensures OptionSet(name, value, s0, Pass, s1)
  {
  }

  lemma OptionStoredAndRendered(name: string, value: OptionValue, s0: ViewState, s1: ViewState)
    requires name in OptionsRequiringRerendering && name != "collection" && name != "selectableModelsFilter"
    requires s1.collection == s0.collection && s1.options == Configured(s0.options, name, value)
    requires Rerendered(s0.snap, s1)
    ensures OptionSet(name, value, s0, Pass, s1)
  {
  }

  /** The `collection` case of `setOption`: a new collection followed by
      a render. */
  lemma CollectionSwapped(value: OptionValue, s0: ViewState, s1: ViewState)
    requires value.NewCollection? && s1.collection == value.models && s1.options == s0.options
    requires Rerendered(s0.snap, s1)
    ensures OptionSet("collection", value, s0, Pass, s1)
  {
  }

  /** `setOption` renders exactly for the options in
      `kOptionsRequiringRerendering`, once, and otherwise only appends to
      the log. */
  lemma OptionRendersIff(name: string, value: OptionValue, s0: ViewState, out: Outcome, s1: ViewState)
    requires OptionSet(name, value, s0, out, s1) && out.Pass?
    ensures |s1.snap.log| >= |s0.snap.log| && s1.snap.log[..|s0.snap.log|] == s0.snap.log
    ensures Event.Render in s1.snap.log[|s0.snap.log|..] <==> name in OptionsRequiringRerendering
  {
    var o := s1.options;
    var built := LayoutFor(s1.collection, o);
    if name in OptionsRequiringRerendering {
      var pre := if name == "selectableModelsFilter"
                 then Snapshot(FilteredSelection(s0.collection, s0.snap.sel, value), s0.snap.rows, s0.snap.log)
                 else s0.snap;
      RenderLoggedOnce(o.selectable, s1.collection, o.selectableModelsFilter, built, pre, s1.snap);
      assert s1.snap.log[|s0.snap.log|..][0] == Event.Render;
    }
  }

  /** Turning `selectMultiple` off leaves at most one model selected, and
      a new filter function leaves only models it accepts, the selection
      having been pruned before the render saved it. */
  lemma OptionSelection(name: string, value: OptionValue, s0: ViewState, out: Outcome, s1: ViewState)
    requires OptionSet(name, value, s0, out, s1) && WellFormed(s0.collection)
    ensures name == "selectMultiple" && !OptionTruthy(value) ==> |s1.snap.sel| <= 1
    ensures name == "selectable" && !OptionTruthy(value) ==> s1.snap.sel == []
    ensures name == "selectableModelsFilter" && value.Callback? && s1.options.selectable ==>
              s1.snap.sel == Validate(s0.collection, s0.snap.sel, true, Some(value.f))
  {
    if name == "selectMultiple" && !OptionTruthy(value) {
      if |s0.snap.sel| > 1 {
        SingleAfterSelectMultipleOff(s1.collection, s0.snap.sel[0], s1.options.selectableModelsFilter);
      } else {
        assert s1.snap.sel == s0.snap.sel;
      }
    }
    if name == "selectableModelsFilter" && value.Callback? && s1.options.selectable {
      PrunedSelectionSurvivesRender(s1.collection, Some(value.f), LayoutFor(s1.collection, s1.options), s0.snap.sel,
                                    Snapshot(FilteredSelection(s0.collection, s0.snap.sel, value), s0.snap.rows, s0.snap.log), s1.snap);
    }
  }

  // -----------------------------------------------------------------------
  // Keys, drags and drops

  /** An arrow key on a selectable view selects the model on the line
      above or below, when the list has that line and its model passes
      validation, and clears the selection past either end: the move is
      not clamped. */
  lemma ArrowMove(c: seq<Record>, f: Option<Value -> bool>, views: Option<seq<ItemView>>, before: Snapshot,
                  n: int, d: int, out: Outcome, after: Snapshot)
    requires SetterEffect(true, c, f, views, before, Arr([Step(Number(n), d)]), "offset", false, out, after)
    ensures out == Pass && after.sel == AtLine(c, true, f, Attrs(Lines(before.rows)), n + d, 0)
  {
    var items := [Step(Number(n), d)];
    SetterOffsetMode(c, f, views, before, items, false, out, after);
    assert items == [Number(n + d)];
    SingleLineSelects(c, true, f, Attrs(Lines(before.rows)), n + d, 0);
  }

  /** `setSelectedModel( m, { by : "model" } )` passes exactly on a
      selectable view, and there selects the model's cid alone when it
      names a model of the collection that passes the filter, and nothing
      otherwise. */
  lemma SetterReceivedModel(selectable: bool, c: seq<Record>, f: Option<Value -> bool>, views: Option<seq<ItemView>>,
                            before: Snapshot, m: Record, out: Outcome, after: Snapshot)
    requires !IsNumeral(m.cid)
    requires SetterEffect(selectable, c, f, views, before, Arr([ModelRef(m)]), "model", false, out, after)
    ensures out == Pass <==> selectable
    ensures selectable ==>
              after.sel == if Str(m.cid) in RefIds(c, true) && Selectable(c, Str(m.cid), f) then [Str(m.cid)] else []
  {
    if selectable {
      ReceivedModelSelected(c, m, f);
      assert Request("model", [ModelRef(m)], views, before.rows) == Success([Str(m.cid)]);
    }
  }

  // -----------------------------------------------------------------------
  // The view

  class CollectionView {

    var collection: seq<Record>
    var selectedItems: seq<Value>
    var savedSelection: Option<SavedSelection>
    /** `None` until the first render creates it. */
    var viewManager: Option<seq<ItemView>>
    var rows: seq<Row>
    var log: seq<Event>

    /** The allowed options `initialize` and `setOption` copy onto the
        view. */
    var options: Settings

    ghost predicate Valid()
      reads this`collection, this`selectedItems, this`options
    {
      && WellFormed(collection)
      && NoDup(selectedItems)
      && Unconvertible(selectedItems)
      && (forall x | x in selectedItems :: x.Str?)
      && (!options.selectable ==> selectedItems == [])
    }

    function Snap(): Snapshot
      reads this`selectedItems, this`rows, this`log
    {
      Snapshot(selectedItems, rows, log)
    }

    /** `initialize`, with the options not given here at their defaults;
        nothing is rendered yet. */
    constructor (models: seq<Record>, selectable: bool, selectMultiple: bool,
                 selectableModelsFilter: Option<Value -> bool>, visibleModelsFilter: Option<Value -> bool>)
      requires WellFormed(models)
      ensures Valid()
      ensures collection == models && selectedItems == [] && rows == [] && log == []
      ensures savedSelection.None? && viewManager.None?
      ensures options == DefaultSettings(selectable, selectMultiple, selectableModelsFilter, visibleModelsFilter)
    {
      collection := models;
      selectedItems := [];
      savedSelection := None;
      viewManager := None;
      rows := [];
      log := [];
      options := DefaultSettings(selectable, selectMultiple, selectableModelsFilter, visibleModelsFilter);
    }

    /** `getSelectedModels( { by : by } )`. */
    method GetSelectedModels(refBy: string) returns (r: Result<seq<Value>>)
      ensures refBy == "cid" ==> r == Success(selectedItems)
      ensures refBy == "model" ==> r == Success(Models(collection, selectedItems))
      ensures refBy == "id" ==> r == IdsOf(collection, selectedItems)
      ensures refBy == "view" ==> r == SelectedViews(collection, viewManager, selectedItems)
      ensures refBy == "offset" ==> r == Success(MarkedLines(Lines(rows), 0))
      ensures refBy !in ["cid", "model", "id", "view", "offset"] ==> r == Failure(BadReferenceBy)
    {
      if refBy == "id" {
        r := IdsOf(collection, selectedItems);
      } else if refBy == "cid" {
        r := Success(selectedItems);
      } else if refBy == "offset" {
        var items := CollectMarkedLines(rows, 0);
        r := Success(items);
      } else if refBy == "model" {
        r := Success(Models(collection, selectedItems));
      } else if refBy == "view" {
        r := SelectedViews(collection, viewManager, selectedItems);
      } else {
        r := Failure(BadReferenceBy);
      }
    }

    /** `setSelectedModels( items, { by : by, silent : silent } )`. */
    method SetSelectedModels(items: Value, refBy: string, silent: bool) returns (out: Outcome)
      requires Valid()
      modifies this`selectedItems, this`rows, this`log
      ensures Valid()
      ensures SetterEffect(options.selectable, collection, options.selectableModelsFilter, viewManager,
                           old(Snap()), items, refBy, silent, out, Snap())
      ensures SameUpToMarks(rows, old(rows))
      ensures Appended(old(log), log)
      ensures MarkersAgree(old(rows), old(selectedItems)) ==> MarkersAgree(rows, selectedItems)
      ensures (out.Pass? && MarkedWithin(old(rows), old(selectedItems))
               && Elems(selectedItems) != Elems(old(selectedItems))) ==> MarkersAgree(rows, selectedItems)
    {
      if !options.selectable {
        return Fail(NotSelectable);
      }
      if !items.Arr? {
        return Fail(InvalidParameter);
      }
      var req := RequestedCids(items.elems, refBy);
      if req.Failure? {
        return Fail(req.error);
      }
      Commit(Validate(collection, ConvertStringsToInts(req.value), true, options.selectableModelsFilter), silent);
      out := Pass;
    }

    /** The cids `setSelectedModels` is asked to select. */
    method RequestedCids(newItems: seq<Value>, refBy: string) returns (req: Result<seq<Value>>)
      ensures req == Request(refBy, newItems, viewManager, rows)
    {
      if refBy == "cid" {
        req := Success(newItems);
      } else if refBy == "id" {
        if viewManager.None? {
          req := Failure(TypeError);
        } else {
          req := Success(CidsWithIds(viewManager.value, newItems));
        }
      } else if refBy == "model" {
        req := PluckCids(newItems);
      } else if refBy == "view" {
        req := ViewCids(newItems);
      } else if refBy == "offset" {
        var atLines := CollectItemsAtLines(rows, newItems, 0);
        req := Success(atLines);
      } else {
        req := Failure(BadReferenceBy);
      }
    }

    /** The second half of `setSelectedModels`: store the validated
        selection, then update the markers and notify if it changed. */
    method Commit(newSel: seq<Value>, silent: bool)
      requires Valid() && NoDup(newSel) && CidsOf(collection, newSel)
      requires !options.selectable ==> newSel == []
      modifies this`selectedItems, this`rows, this`log
      ensures Valid()
      ensures selectedItems == newSel
      ensures Committed(old(Snap()), Snap(), silent,
                        SelectionChanged(Models(collection, selectedItems), Models(collection, old(selectedItems))),
                        Event.UpdateDependentControls(Models(collection, selectedItems)))
      ensures SameUpToMarks(rows, old(rows))
      ensures Appended(old(log), log)
      ensures MarkersAgree(old(rows), old(selectedItems)) ==> MarkersAgree(rows, selectedItems)
      ensures (MarkedWithin(old(rows), old(selectedItems))
               && Elems(selectedItems) != Elems(old(selectedItems))) ==> MarkersAgree(rows, selectedItems)
    {
      ghost var before := Snap();
      var oldSelectedModels := Models(collection, selectedItems);
      var oldSelectedCids := selectedItems;
      selectedItems := newSel;
      CidsUnconvertible(collection, selectedItems);
      var newSelectedModels := Models(collection, selectedItems);
      if !ContainSameElements(oldSelectedCids, selectedItems) {
        rows := Remark(rows, oldSelectedCids, selectedItems);
        if !silent {
          log := log + [SelectionChanged(newSelectedModels, oldSelectedModels)];
        }
        log := log + [Event.UpdateDependentControls(newSelectedModels)];
      }
      CommitProperties(before, Snap(), silent, SelectionChanged(newSelectedModels, oldSelectedModels),
                       Event.UpdateDependentControls(newSelectedModels));
    }

    /** `setSelectedModel( item, { by : by, silent : silent } )`: `null`
        and `undefined` call `selectNone()`, which drops the options. */
    method SetSelectedModel(item: Value, refBy: string, silent: bool) returns (out: Outcome)
      requires Valid()
      modifies this`selectedItems, this`rows, this`log
      ensures Valid()
      ensures item.Undefined? || item.Null? ==>
                SetterEffect(options.selectable, collection, options.selectableModelsFilter, viewManager,
                             old(Snap()), Arr([]), DefaultReferenceBy, false, out, Snap())
      ensures !(item.Undefined? || item.Null?) ==>
                SetterEffect(options.selectable, collection, options.selectableModelsFilter, viewManager,
                             old(Snap()), Arr([item]), refBy, silent, out, Snap())
      ensures SameUpToMarks(rows, old(rows))
      ensures Appended(old(log), log)
      ensures MarkersAgree(old(rows), old(selectedItems)) ==> MarkersAgree(rows, selectedItems)
      ensures (out.Pass? && MarkedWithin(old(rows), old(selectedItems))
               && Elems(selectedItems) != Elems(old(selectedItems))) ==> MarkersAgree(rows, selectedItems)
    {
      if item.Undefined? || item.Null? {
        out := SelectNone(false);
      } else {
        out := SetSelectedModels(Arr([item]), refBy, silent);
      }
    }

    /** `selectNone( { silent : silent } )`. */
    method SelectNone(silent: bool) returns (out: Outcome)
      requires Valid()
      modifies this`selectedItems, this`rows, this`log
      ensures Valid()
      ensures SetterEffect(options.selectable, collection, options.selectableModelsFilter, viewManager,
                           old(Snap()), Arr([]), DefaultReferenceBy, silent, out, Snap())
      ensures out.Pass? ==> selectedItems == []
      ensures SameUpToMarks(rows, old(rows))
      ensures Appended(old(log), log)
      ensures MarkersAgree(old(rows), old(selectedItems)) ==> MarkersAgree(rows, selectedItems)
      ensures out.Pass? && MarkedWithin(old(rows), old(selectedItems)) ==> MarkersAgree(rows, selectedItems)
    {
      out := SetSelectedModels(Arr([]), DefaultReferenceBy, silent);
      ValidateNothing(collection, true, options.selectableModelsFilter);
      if out.Pass? && MarkedWithin(old(rows), old(selectedItems)) && Elems(old(selectedItems)) == {} {
        assert old(selectedItems) == [] by {
          NoDupCard(old(selectedItems));
        }
      }
    }

    /** `_validateSelection`: the markers are not touched. */
    method ValidateSelection()
      requires Valid()
      modifies this`selectedItems
      ensures Valid()
      ensures selectedItems == Validate(collection, old(selectedItems), true, options.selectableModelsFilter)
    {
      selectedItems := Validate(collection, selectedItems, true, options.selectableModelsFilter);
      CidsUnconvertible(collection, selectedItems);
      if !options.selectable {
        ValidateNothing(collection, true, options.selectableModelsFilter);
      }
    }
      /** `getSelectedModel( { by : by } )`: the first of them. */
    method GetSelectedModel(refBy: string) returns (r: Result<Value>)
      ensures r.Success? <==> (refBy in ["cid", "model", "offset"]
                               || (refBy == "id" && IdsOf(collection, selectedItems).Success?)
                               || (refBy == "view" && SelectedViews(collection, viewManager, selectedItems).Success?))
      ensures refBy == "cid" ==> r == Success(FirstOr(selectedItems))
      ensures refBy == "offset" ==> r == Success(FirstOr(MarkedLines(Lines(rows), 0)))
    {
      var all := GetSelectedModels(refBy);
      if all.Failure? {
        return Failure(all.error);
      }
      r := Success(FirstOr(all.value));
    }

    /** The list `render` builds from the current collection and settings. */
    function Layout(): seq<Row>
      reads this`collection, this`options
    {
      LayoutFor(collection, options)
    }

    ghost function State(): ViewState
      reads this`collection, this`viewManager, this`options, this`selectedItems, this`rows, this`log
    {
      ViewState(collection, viewManager, options, Snap())
    }

    /** The `collection.each` loop of `render`: one element and one
        registered view per model, then the caption check over the
        registered views. */
    method BuildList() returns (list: seq<Row>, views: seq<ItemView>)
      ensures list == Layout() && views == ViewsOf(collection)
    {
      var c, t, h, v := collection, options.templated, options.modelViewHides, options.visibleModelsFilter;
      var items: seq<Row> := [];
      views := [];
      var i := 0;
      while i < |c|
        invariant 0 <= i <= |c| && |views| == i
        invariant items == ItemRows(c[..i], true, t, h, v)
        invariant forall k | 0 <= k < i :: views[k] == ItemView(c[k])
      {
        assert c[..i + 1][..i] == c[..i];
        items := items + [ItemRow(c[i], true, t, h, v)];
        views := views + [ItemView(c[i])];
        i := i + 1;
      }
      assert c[..|c|] == c;
      var visibleView := false;
      var j := 0;
      while j < |items| && !visibleView
        invariant 0 <= j <= |items|
        invariant visibleView <==> exists k | 0 <= k < j :: items[k].visible
      {
        visibleView := items[j].visible;
        j := j + 1;
      }
      assert !visibleView ==> NoneVisible(items);
      if options.emptyListCaption && !visibleView {
        items := items + [Row(None, true, false)];
      }
      list := items;
    }

    /** `_saveSelection`. */
    method SaveSelection() returns (out: Outcome)
      modifies this`savedSelection
      ensures !options.selectable ==> out == Fail(SaveOnNonSelectable) && savedSelection == old(savedSelection)
      ensures options.selectable ==>
                out == Pass && savedSelection == Some(SavedSelection(selectedItems, FirstOr(MarkedLines(Lines(rows), 0))))
    {
      if !options.selectable {
        return Fail(SaveOnNonSelectable);
      }
      var offset := GetSelectedModel("offset");
      savedSelection := Some(SavedSelection(selectedItems, offset.value));
      out := Pass;
    }

    /** `_restoreSelection`: clear, select the saved cids, and when none
        of them is left select the line at the saved offset. */
    method RestoreSelection() returns (out: Outcome)
      requires Valid()
      modifies this`selectedItems, this`rows, this`log, this`savedSelection
      ensures Valid()
      ensures SameUpToMarks(rows, old(rows))
      ensures Appended(old(log), log)
      ensures old(savedSelection).None? ==>
                out == Fail(NothingSaved) && Snap() == old(Snap()) && savedSelection == old(savedSelection)
      ensures old(savedSelection).Some? && !options.selectable ==>
                out == Fail(NotSelectable) && Snap() == old(Snap()) && savedSelection == old(savedSelection)
      ensures old(savedSelection).Some? && options.selectable ==>
                && out == Pass && savedSelection.None?
                && selectedItems == RestoredSelection(collection, options.selectableModelsFilter, old(savedSelection).value,
                                                      Attrs(Lines(rows)))
                && log == old(log) + RestoreAnnouncements(collection, old(selectedItems), selectedItems)
      ensures out.Pass? && MarkedWithin(old(rows), old(selectedItems)) ==> MarkersAgree(rows, selectedItems)
    {
      if savedSelection.None? {
        return Fail(NothingSaved);
      }
      var saved := savedSelection.value;
      out := SelectNone(false);
      if out.Fail? {
        return;
      }
      ghost var s1 := Snap();
      SetterClearReported(collection, options.selectableModelsFilter, viewManager, old(Snap()), false, out, s1);
      Reselect(saved);
      RestoreAnnouncementsCompose(collection, old(Snap()), s1, Snap());
      savedSelection := None;
    }

    /** The part of `_restoreSelection` after the selection was cleared:
        what it announces is the commit of the restored cids to the empty
        selection. */
    method Reselect(saved: SavedSelection)
      requires Valid() && options.selectable && selectedItems == []
      modifies this`selectedItems, this`rows, this`log
      ensures Valid()
      ensures SameUpToMarks(rows, old(rows))
      ensures Appended(old(log), log)
      ensures selectedItems == RestoredSelection(collection, options.selectableModelsFilter, saved, Attrs(Lines(rows)))
      ensures log == old(log) + Notice(selectedItems != [], false, SelectionChanged(Models(collection, selectedItems), []),
                                       Event.UpdateDependentControls(Models(collection, selectedItems)))
      ensures MarkersAgree(old(rows), []) ==> MarkersAgree(rows, selectedItems)
    {
      ValidateNothing(collection, true, options.selectableModelsFilter);
      if |saved.items| > 0 {
        ghost var s1 := Snap();
        var byCid := SetSelectedModels(Arr(saved.items), "cid", false);
        SetterCidMode(collection, options.selectableModelsFilter, viewManager, s1, saved.items, false, byCid, Snap());
        SetterCommitted(true, collection, options.selectableModelsFilter, viewManager, s1, Arr(saved.items), "cid", false,
                        byCid, Snap());
        SetterAtNothingReported(collection, s1, Snap(), false);
        if |selectedItems| == 0 {
          ghost var s2 := Snap();
          var byOffset := SetSelectedModel(saved.offset, "offset", false);
          AppendedTrans(s1.log, s2.log, log);
          LineAttrsIgnoreMarks(rows, s2.rows);
          if saved.offset.Undefined? || saved.offset.Null? {
            SetterNothing(collection, options.selectableModelsFilter, viewManager, s2, DefaultReferenceBy, false, byOffset, Snap());
            SetterCommitted(true, collection, options.selectableModelsFilter, viewManager, s2, Arr([]), DefaultReferenceBy,
                            false, byOffset, Snap());
          } else {
            SetterOffsetMode(collection, options.selectableModelsFilter, viewManager, s2, [saved.offset], false, byOffset, Snap());
            SetterCommitted(true, collection, options.selectableModelsFilter, viewManager, s2, Arr([saved.offset]), "offset",
                            false, byOffset, Snap());
          }
          SetterAtNothingReported(collection, s2, Snap(), false);
        }
      }
    }

    /** `render`. */
    method Render()
      requires Valid()
      modifies this`selectedItems, this`rows, this`log, this`savedSelection, this`viewManager
      ensures Valid()
      ensures viewManager == Some(ViewsOf(collection))
      ensures RenderEffect(options.selectable, collection, options.selectableModelsFilter, Layout(), old(Snap()), Snap())
      ensures options.selectable ==> savedSelection.None?
      ensures !options.selectable ==> savedSelection == old(savedSelection)
    {
      ghost var before := Snap();
      var saved := SaveSelection();
      Rebuild();
      ghost var list := rows;
      if options.selectable {
        BuiltUnmarked(collection, true, options.templated, options.modelViewHides, options.visibleModelsFilter, options.emptyListCaption);
        RestoreAndNotify(before, list);
      } else {
        RenderUnselectable(collection, options.selectableModelsFilter, list, before, Snap());
      }
    }

    /** The middle of `render`: the list and the registry are rebuilt and
        `render` is triggered. */
    method Rebuild()
      modifies this`rows, this`log, this`viewManager
      ensures rows == Layout() && viewManager == Some(ViewsOf(collection)) && log == old(log) + [Event.Render]
    {
      var list, views := BuildList();
      viewManager := Some(views);
      rows := list;
      log := log + [Event.Render];
    }

    /** The end of `render` on a selectable view: `_restoreSelection`,
        then `updateDependentControls`. */
    method RestoreAndNotify(ghost before: Snapshot, ghost list: seq<Row>)
      requires Valid() && options.selectable
      requires savedSelection == Some(SavedSelection(before.sel, FirstOr(MarkedLines(Lines(before.rows), 0))))
      requires Snap() == Snapshot(before.sel, list, before.log + [Event.Render]) && Unmarked(list)
      modifies this`selectedItems, this`rows, this`log, this`savedSelection
      ensures Valid() && savedSelection.None?
      ensures RenderEffect(true, collection, options.selectableModelsFilter, list, before, Snap())
    {
      ghost var s0 := Snap();
      var restored := RestoreSelection();
      ghost var s1 := Snap();
      LineAttrsIgnoreMarks(rows, list);
      UpdateDependentControls();
      RenderComposes(collection, options.selectableModelsFilter, list, before, s0, s1, Snap());
    }

    /** `updateDependentControls`. */
    method UpdateDependentControls()
      modifies this`log
      ensures log == old(log) + [Event.UpdateDependentControls(Models(collection, selectedItems))]
    {
      log := log + [Event.UpdateDependentControls(Models(collection, selectedItems))];
    }

    /** `validateSelectionAndRender`, what `remove` and `reset` of the
        collection call. */
    method ValidateSelectionAndRender()
      requires Valid()
      modifies this`selectedItems, this`rows, this`log, this`savedSelection, this`viewManager
      ensures Valid()
      ensures viewManager == Some(ViewsOf(collection))
      ensures RenderEffect(options.selectable, collection, options.selectableModelsFilter, Layout(),
                           Snapshot(Validate(collection, old(selectedItems), true, options.selectableModelsFilter), old(rows), old(log)), Snap())
      ensures options.selectable ==> selectedItems == Validate(collection, old(selectedItems), true, options.selectableModelsFilter)
      ensures options.selectable ==> MarkersAgree(rows, selectedItems)
    {
      ValidateSelection();
      Render();
      if options.selectable {
        PrunedSelectionSurvivesRender(collection, options.selectableModelsFilter, Layout(), old(selectedItems),
                                      Snapshot(Validate(collection, old(selectedItems), true, options.selectableModelsFilter), old(rows), old(log)),
                                      Snap());
      }
    }

    /** The collection's `add` event: Backbone adds a model that is not
        there yet (and then triggers `add`, which renders). */
    method CollectionAdd(m: Record, at: Option<int>)
      requires Valid() && Compatible(collection, m)
      modifies this`collection, this`selectedItems, this`rows, this`log, this`savedSelection, this`viewManager
      ensures Valid()
      ensures collection == Add(old(collection), m, at)
      ensures m in old(collection) ==> Snap() == old(Snap()) && viewManager == old(viewManager)
      ensures m !in old(collection) ==>
                && multiset(collection) == multiset(old(collection)) + multiset{m}
                && viewManager == Some(ViewsOf(collection))
                && RenderEffect(options.selectable, collection, options.selectableModelsFilter, Layout(), old(Snap()), Snap())
    {
      AddKeepsWellFormed(collection, m, at);
      if m !in collection {
        collection := Add(collection, m, at);
        Render();
      }
    }

    /** The collection's `remove` event: Backbone removes a model it
        holds, then triggers `remove`. */
    method CollectionRemove(m: Record)
      requires Valid()
      modifies this`collection, this`selectedItems, this`rows, this`log, this`savedSelection, this`viewManager
      ensures Valid()
      ensures m !in old(collection) ==> collection == old(collection) && Snap() == old(Snap())
      ensures m in old(collection) ==>
                && collection == Remove(old(collection), m)
                && m !in collection
                && (options.selectable ==> selectedItems == Validate(collection, old(selectedItems), true, options.selectableModelsFilter))
                && (options.selectable ==> Str(m.cid) !in selectedItems)
                && (options.selectable ==> MarkersAgree(rows, selectedItems))
    {
      if m in collection {
        RemoveKeepsWellFormed(collection, m);
        collection := Remove(collection, m);
        RefIdGone(old(collection), m, true);
        ValidateSelectionAndRender();
      }
    }

    /** The collection's `reset` event. */
    method CollectionReset(models: seq<Record>)
      requires Valid() && WellFormed(models)
      modifies this`collection, this`selectedItems, this`rows, this`log, this`savedSelection, this`viewManager
      ensures Valid()
      ensures collection == models
      ensures options.selectable ==> selectedItems == Validate(models, old(selectedItems), true, options.selectableModelsFilter)
      ensures options.selectable ==> MarkersAgree(rows, selectedItems)
      ensures SameUpToMarks(rows, Layout())
    {
      collection := models;
      ValidateSelectionAndRender();
    }

    /** `setOption( name, value )`. */
    method SetOption(name: string, value: OptionValue) returns (out: Outcome)
      requires Valid()
      requires name == "collection" ==> value.NewCollection? && WellFormed(value.models)
      modifies this`collection, this`selectedItems, this`savedSelection, this`viewManager, this`rows, this`log,
               this`options
      ensures Valid()
      ensures OptionSet(name, value, old(State()), out, State())
    {
      if name == "collection" {
        ghost var s0 := State();
        SetCollection(value.models);
        CollectionSwapped(value, s0, State());
        return Pass;
      }
      if name !in AllowedOptions {
        return Fail(NotAllowedOption(name));
      }
      if name == "selectMultiple" {
        SetSelectMultiple(value);
      } else if name == "selectable" {
        SetSelectable(value);
      } else if name == "selectableModelsFilter" {
        SetSelectableModelsFilter(value);
      } else if name in OptionsRequiringRerendering {
        StoreAndRender(name, value);
      } else {
        StoreOption(name, value);
      }
      out := Pass;
    }

    /** `this[ name ] = value` for the options with no further effect. */
    method StoreOption(name: string, value: OptionValue)
      requires Valid() && name in AllowedOptions && name !in OptionsRequiringRerendering
      requires name != "collection" && name != "selectableModelsFilter" && name != "selectMultiple" && name != "selectable"
      modifies this`options
      ensures Valid()
      ensures OptionSet(name, value, old(State()), Pass, State())
    {
      options := Configured(options, name, value);
      OptionStored(name, value, old(State()), State());
    }

    /** `this[ name ] = value`, then `render`, for the options that need a
        new list. */
    method StoreAndRender(name: string, value: OptionValue)
      requires Valid() && name in OptionsRequiringRerendering
      requires name != "collection" && name != "selectableModelsFilter" && name != "selectMultiple" && name != "selectable"
      modifies this`options, this`selectedItems, this`savedSelection, this`viewManager, this`rows, this`log
      ensures Valid()
      ensures OptionSet(name, value, old(State()), Pass, State())
    {
      ConfiguredKeepsSelectable(options, name, value);
      options := Configured(options, name, value);
      Render();
      OptionStoredAndRendered(name, value, old(State()), State());
    }

    /** `case "selectMultiple"`: store, then keep only the first selected
        model when multiple selection is turned off. */
    method SetSelectMultiple(value: OptionValue)
      requires Valid()
      modifies this`options, this`selectedItems, this`rows, this`log
      ensures Valid()
      ensures OptionSet("selectMultiple", value, old(State()), Pass, State())
    {
      options := options.(selectMultiple := OptionTruthy(value));
      if !OptionTruthy(value) && |selectedItems| > 1 {
        ghost var before := Snap();
        var first := selectedItems[0];
        assert first in selectedItems;
        ConvertUnconvertible([first]);
        var out := SetSelectedModel(first, "cid", false);
        SetterCidMode(collection, options.selectableModelsFilter, viewManager, before, [first], false, out, Snap());
        SetterCommitted(true, collection, options.selectableModelsFilter, viewManager, before, Arr([first]), "cid", false, out, Snap());
        SingleAfterSelectMultipleOff(collection, first, options.selectableModelsFilter);
      }
    }

    /** `case "selectable"`: a view that stops being selectable first
        clears its selection. */
    method SetSelectable(value: OptionValue)
      requires Valid()
      modifies this`options, this`selectedItems, this`rows, this`log
      ensures Valid()
      ensures OptionSet("selectable", value, old(State()), Pass, State())
    {
      if !OptionTruthy(value) && |selectedItems| > 0 {
        ghost var before := Snap();
        var out := SetSelectedModels(Arr([]), DefaultReferenceBy, false);
        SetterClearReported(collection, options.selectableModelsFilter, viewManager, before, false, out, Snap());
      }
      options := options.(selectable := OptionTruthy(value));
    }

    /** `case "selectableModelsFilter"`: store, prune the selection when
        the new filter is a function, then `render`. */
    method SetSelectableModelsFilter(value: OptionValue)
      requires Valid()
      modifies this`options, this`selectedItems, this`savedSelection, this`viewManager, this`rows, this`log
      ensures Valid()
      ensures OptionSet("selectableModelsFilter", value, old(State()), Pass, State())
    {
      StoreFilter(value);
      Render();
    }

    /** The assignment and the pruning of `case "selectableModelsFilter"`. */
    method StoreFilter(value: OptionValue)
      requires Valid()
      modifies this`options, this`selectedItems
      ensures Valid()
      ensures options == Configured(old(options), "selectableModelsFilter", value)
      ensures selectedItems == FilteredSelection(collection, old(selectedItems), value)
    {
      options := options.(selectableModelsFilter := AsFilter(value));
      if value.Callback? {
        ValidateSelection();
      }
    }

    /** `_setCollection`: the new collection is stored (the source skips
        the store when it is the collection already held, which comes to
        the same), then `render`. */
    method SetCollection(models: seq<Record>)
      requires Valid() && WellFormed(models)
      modifies this`collection, this`selectedItems, this`rows, this`log, this`savedSelection, this`viewManager
      ensures Valid()
      ensures collection == models && options == old(options)
      ensures Rerendered(old(Snap()), State())
    {
      collection := models;
      Render();
    }

    /** `_reorderCollectionBasedOnHTML`: walk the children in document
        order, moving every model they name to the end of the collection,
        then trigger `reorder`. The source triggers `reorder` on the
        collection, not on the view; the model records it in the view's
        log, which stands for every event observers can see. */
    method ReorderCollectionBasedOnHtml()
      requires Valid()
      modifies this`collection, this`log
      ensures Valid()
      ensures collection == Reordered(old(collection), rows, false)
      ensures multiset(collection) == multiset(old(collection))
      ensures log == old(log) + [Event.Reorder]
    {
      var i := 0;
      while i < |rows|
        invariant 0 <= i <= |rows|
        invariant collection == Reordered(old(collection), rows[..i], false)
        invariant log == old(log)
      {
        ReorderedStep(old(collection), rows, i);
        var thisModelId := rows[i].itemId;
        if thisModelId.Some? && thisModelId.value != "" {
          var thisModel := Get(collection, Str(thisModelId.value));
          if thisModel.Some? {
            collection := Remove(collection, thisModel.value);
            collection := Add(collection, thisModel.value, None);
          }
        }
        i := i + 1;
      }
      assert rows[..|rows|] == rows;
      ReorderedPermutes(old(collection), rows, false);
      log := log + [Event.Reorder];
    }

    /** `collection.remove( modelBeingSorted, { silent : true } )`: no
        event, so nothing is rendered. */
    method RemoveDragged(m: Option<Record>)
      requires Valid() && (m.Some? ==> m.value in collection)
      modifies this`collection
      ensures Valid()
      ensures collection == DraggedOut(old(collection), m)
    {
      DraggedOutMultiset(collection, m);
      collection := DraggedOut(collection, m);
    }

    /** `_sortStop`: the list's children are now `newRows`; a model dropped
        into another list (`newIndex` is -1) leaves the collection
        silently, the rest is reordered, and the dependent controls and
        `sortStop` are notified. The selection is left as it was. */
    method SortStop(newRows: seq<Row>, itemAttr: Option<string>, newIndex: int)
      requires Valid()
      modifies this`rows, this`collection, this`log
      ensures Valid()
      ensures rows == newRows
      ensures collection == Sorted(old(collection), newRows, itemAttr, newIndex)
      ensures log == old(log) + [Event.Reorder, Event.UpdateDependentControls(Models(collection, selectedItems)),
                                 Event.SortStop(ModelValue(DraggedModel(old(collection), itemAttr)), newIndex)]
    {
      var modelBeingSorted := DraggedModel(collection, itemAttr);
      rows := newRows;
      if newIndex == -1 {
        RemoveDragged(modelBeingSorted);
      }
      ReorderCollectionBasedOnHtml();
      UpdateDependentControls();
      log := log + [Event.SortStop(ModelValue(modelBeingSorted), newIndex)];
    }

    /** `_receive` as written: the model dropped in from another list is
        added at the drop index (and the `add` listener renders), then
        `this.setSelectedItem`, which this revision does not define, is
        called and throws. `fromList` says whether the sender is a
        collection view with a collection. */
    method ReceiveAsWritten(fromList: bool, m: Record, newIndex: int) returns (out: Outcome)
      requires Valid() && !IsNumeral(m.cid) && PrimitiveId(m.id)
      modifies this`collection, this`selectedItems, this`rows, this`log, this`savedSelection, this`viewManager
      ensures Valid()
      ensures !fromList ==> out == Pass && collection == old(collection) && Snap() == old(Snap())
      ensures fromList ==> out == Fail(TypeError) && collection == AddUnlessFound(old(collection), m, Some(newIndex))
      ensures fromList && (m in old(collection) || Collides(old(collection), m)) ==> Snap() == old(Snap())
      ensures fromList && m !in old(collection) && !Collides(old(collection), m) ==>
                RenderEffect(options.selectable, collection, options.selectableModelsFilter, Layout(), old(Snap()), Snap())
    {
      if !fromList {
        return Pass;
      }
      AddUnlessFoundSpec(collection, m, Some(newIndex));
      if !Collides(collection, m) {
        CollectionAdd(m, Some(newIndex));
      }
      out := Fail(TypeError);
    }

    /** `_receive` calling `setSelectedModel( modelReceived, { by : "model" } )`:
        the received model is added at the drop index and becomes the
        whole selection when it passes the filter. Backbone does not add a
        model that shares a key with one the collection holds, and the
        model is set all the same. */
    method Receive(fromList: bool, m: Record, newIndex: int) returns (out: Outcome)
      requires Valid() && !IsNumeral(m.cid) && PrimitiveId(m.id)
      modifies this`collection, this`selectedItems, this`rows, this`log, this`savedSelection, this`viewManager
      ensures Valid()
      ensures !fromList ==> out == Pass && collection == old(collection) && Snap() == old(Snap())
      ensures fromList ==> collection == AddUnlessFound(old(collection), m, Some(newIndex))
      ensures fromList ==> (m in collection <==> !Collides(old(collection), m))
      ensures fromList ==> (out == Pass <==> options.selectable)
      ensures fromList && options.selectable ==>
                selectedItems == if Str(m.cid) in RefIds(collection, true)
                                    && Selectable(collection, Str(m.cid), options.selectableModelsFilter)
                                 then [Str(m.cid)] else []
      ensures fromList && options.selectable && !Collides(old(collection), m) ==>
                selectedItems == if Selectable(collection, Str(m.cid), options.selectableModelsFilter) then [Str(m.cid)] else []
    {
      if !fromList {
        return Pass;
      }
      AddUnlessFoundSpec(collection, m, Some(newIndex));
      if !Collides(collection, m) {
        CollectionAdd(m, Some(newIndex));
      }
      ghost var s1 := Snap();
      out := SetSelectedModel(ModelRef(m), "model", false);
      SetterReceivedModel(options.selectable, collection, options.selectableModelsFilter, viewManager, s1, m, out, Snap());
      ReceivedModelSelected(collection, m, options.selectableModelsFilter);
    }

    /** `_onKeydown( event )`, returning whether the event is passed on: with
        exactly one marked line, the up and down arrows select the line
        above or below by offset. */
    method OnKeydown(key: int) returns (passOn: bool, out: Outcome)
      requires Valid()
      modifies this`selectedItems, this`rows, this`log
      ensures Valid()
      ensures !(options.processKeyEvents && |MarkedLines(Lines(old(rows)), 0)| == 1 && (key == UpArrow || key == DownArrow)) ==>
                passOn && out == Pass && Snap() == old(Snap())
      ensures options.processKeyEvents && |MarkedLines(Lines(old(rows)), 0)| == 1 && (key == UpArrow || key == DownArrow) ==>
                && !passOn
                && SetterEffect(options.selectable, collection, options.selectableModelsFilter, viewManager, old(Snap()),
                                Arr([Step(MarkedLines(Lines(old(rows)), 0)[0], if key == UpArrow then -1 else 1)]),
                                "offset", false, out, Snap())
    {
      passOn, out := true, Pass;
      if !options.processKeyEvents {
        return;
      }
      var offsets := GetSelectedModels("offset");
      assert Snap() == old(Snap());
      if |offsets.value| == 1 && (key == UpArrow || key == DownArrow) {
        FirstMarkedLineIsNumber(Lines(rows), 0);
        var item := Step(offsets.value[0], if key == UpArrow then -1 else 1);
        assert item == Step(MarkedLines(Lines(old(rows)), 0)[0], if key == UpArrow then -1 else 1);
        out := SetSelectedModel(item, "offset", false);
        passOn := false;
      }
    }

    /** `_listItem_onClick( theEvent )`: the reference ids the click rules
        pick are set by cid; a click outside every item clears the
        selection. */
    method OnItemClick(click: Click) returns (out: Outcome)
      requires Valid()
      modifies this`selectedItems, this`rows, this`log
      ensures Valid()
      ensures !(options.selectable && options.clickToSelect) ==> out == Pass && Snap() == old(Snap())
      ensures options.selectable && options.clickToSelect ==>
                match ClickRequest(collection, old(selectedItems), true, options.selectMultiple, options.clickToToggle || click.metaKey, click)
                case Failure(e) => out == Fail(e) && Snap() == old(Snap())
                case Success(req) =>
                  SetterEffect(true, collection, options.selectableModelsFilter, viewManager, old(Snap()), Arr(req),
                               if Truthy(ClickedId(click)) then "cid" else DefaultReferenceBy, false, out, Snap())
    {
      if !options.selectable || !options.clickToSelect {
        return Pass;
      }
      var req := ClickedItems(collection, selectedItems, true, options.selectMultiple, options.clickToToggle || click.metaKey, click);
      if req.Failure? {
        return Fail(req.error);
      }
      if Truthy(ClickedId(click)) {
        out := SetSelectedModels(Arr(req.value), "cid", false);
      } else {
        out := SetSelectedModels(Arr([]), DefaultReferenceBy, false);
      }
    }

    /** `_listBackground_onClick( theEvent )`: a click on the list element
        itself clears the selection of a selectable view. */
    method OnBackgroundClick(onList: bool) returns (out: Outcome)
      requires Valid()
      modifies this`selectedItems, this`rows, this`log
      ensures Valid()
      ensures out == Pass
      ensures !(options.selectable && onList) ==> Snap() == old(Snap())
      ensures options.selectable && onList ==>
                && selectedItems == []
                && SetterEffect(true, collection, options.selectableModelsFilter, viewManager, old(Snap()), Arr([]),
                                DefaultReferenceBy, false, out, Snap())
                && log == old(log) + Notice(old(selectedItems) != [], false,
                                            SelectionChanged([], Models(collection, old(selectedItems))),
                                            Event.UpdateDependentControls([]))
    {
      if !options.selectable || !onList {
        return Pass;
      }
      ghost var before := Snap();
      out := SetSelectedModels(Arr([]), DefaultReferenceBy, false);
      SetterClearReported(collection, options.selectableModelsFilter, viewManager, before, false, out, Snap());
    }
  }


}
