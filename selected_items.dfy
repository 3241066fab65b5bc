/**
 * What the three older revisions share: the selection is held as the
 * reference ids themselves (cids, or ids when models are referenced by
 * id), the notifications carry those ids, and a render restores the saved
 * ids or, when none is left, the saved line numbers. Also the
 * `_getModelReferenceId` mapping of models to reference ids and the
 * `modelViewsByReferenceId` registry.
 */
module SelectedItems {

  import opened Js
  import opened Underscore
  import opened Backbone
  import opened Dom
  import opened Selection
  import opened Commits
  import opened LineAddressing
  import opened Addressing

  // -----------------------------------------------------------------------
  // Committing a selection of reference ids

  /** The end of `setSelectedItems`, with the ids as payloads:
      `selectionChanged( new, old )` and `updateDependentControls( new )`. */
  predicate CommittedIds(before: Snapshot, after: Snapshot, silent: bool)
  {
    Committed(before, after, silent, SelectionChanged(after.sel, before.sel), UpdateDependentControls(after.sel))
  }

  /** `setSelectedItems( items, { silent : silent } )` on a view with
      collection `c` and filter `f`: a view that is not selectable and an
      argument that is not an array throw; otherwise the converted,
      validated items are committed. */
  predicate ItemsSet(selectable: bool, c: seq<Record>, byCid: bool, f: Option<Value -> bool>,
                     before: Snapshot, items: Value, silent: bool, out: Outcome, after: Snapshot)
  {
    if !selectable then out == Fail(NotSelectable) && after == before
    else if !items.Arr? then out == Fail(InvalidParameter) && after == before
    else
      && out == Pass
      && after.sel == Validate(c, ConvertStringsToInts(items.elems), byCid, f)
      && CommittedIds(before, after, silent)
  }

  /** `_convertStringsToInts` never returns a numeral string. */
  lemma ConvertedUnconvertible(vs: seq<Value>)
    ensures Unconvertible(ConvertStringsToInts(vs))
  {
    var r := ConvertStringsToInts(vs);
    forall x | x in r ensures !(x.Str? && IsNumeral(x.s)) {
      var i :| 0 <= i < |r| && r[i] == x;
    }
  }

  /** So a selection that went through the setter is left as it is when
      converted again. */
  lemma ValidatedUnconvertible(c: seq<Record>, vs: seq<Value>, byCid: bool, f: Option<Value -> bool>)
    ensures Unconvertible(Validate(c, ConvertStringsToInts(vs), byCid, f))
  {
    ConvertedUnconvertible(vs);
  }

  /** The setter passes exactly on a selectable view given an array; the
      new selection then holds each id once, in collection order, exactly
      the collection's ids asked for that pass the filter; the log grows
      exactly when the set of ids changed, and only by notifications; the
      list changes in its markers only, and they keep showing the
      selection. */
  lemma ItemsSetProperties(selectable: bool, c: seq<Record>, byCid: bool, f: Option<Value -> bool>,
                           before: Snapshot, items: Value, silent: bool, out: Outcome, after: Snapshot)
    requires NoDup(before.sel)
    requires ItemsSet(selectable, c, byCid, f, before, items, silent, out, after)
    ensures out.Pass? <==> selectable && items.Arr?
    ensures out.Pass? ==> NoDup(after.sel) && Unconvertible(after.sel)
    ensures out.Pass? ==> forall x :: x in after.sel <==>
              x in RefIds(c, byCid) && x in ConvertStringsToInts(items.elems) && Selectable(c, x, f)
    ensures out.Pass? && WellFormed(c) && HasRefIds(c, byCid) ==>
              after.sel == InCollectionOrder(RefIds(c, byCid), ConvertStringsToInts(items.elems), c, f)
    ensures after.log != before.log <==> out.Pass? && Elems(after.sel) != Elems(before.sel)
    ensures Appended(before.log, after.log)
    ensures SameUpToMarks(after.rows, before.rows)
    ensures MarkersAgree(before.rows, before.sel) ==> MarkersAgree(after.rows, after.sel)
    ensures MarkedWithin(before.rows, before.sel) && Elems(after.sel) != Elems(before.sel)
            ==> MarkersAgree(after.rows, after.sel)
  {
    if out.Pass? {
      ValidatedUnconvertible(c, items.elems, byCid, f);
      if WellFormed(c) && HasRefIds(c, byCid) {
        ValidateInCollectionOrder(c, ConvertStringsToInts(items.elems), byCid, f);
      }
      CommitProperties(before, after, silent, SelectionChanged(after.sel, before.sel), UpdateDependentControls(after.sel));
    }
  }

  /** Asking for nothing selects nothing. */
  lemma ItemsSetNothing(selectable: bool, c: seq<Record>, byCid: bool, f: Option<Value -> bool>,
                        before: Snapshot, silent: bool, out: Outcome, after: Snapshot)
    requires ItemsSet(selectable, c, byCid, f, before, Arr([]), silent, out, after)
    ensures selectable ==> out == Pass && after.sel == []
  {
    if selectable {
      assert ConvertStringsToInts([]) == [];
      ValidateNothing(c, byCid, f);
    }
  }

  /** Clearing a selectable view's selection reports exactly the
      clearing of a selection that was not empty: `selectionChanged( [],
      old )` unless silent, then `updateDependentControls( [] )`. */
  lemma ClearReported(c: seq<Record>, byCid: bool, f: Option<Value -> bool>, before: Snapshot, silent: bool,
                      out: Outcome, after: Snapshot)
    requires ItemsSet(true, c, byCid, f, before, Arr([]), silent, out, after)
    ensures out == Pass && after.sel == []
    ensures after.log == before.log + Notice(before.sel != [], silent, SelectionChanged([], before.sel),
                                             UpdateDependentControls([]))
  {
    ItemsSetNothing(true, c, byCid, f, before, silent, out, after);
    CommittedAtNothing(before, after, silent, SelectionChanged(after.sel, before.sel), UpdateDependentControls(after.sel));
  }

  /** Setting ids on an emptied selection reports exactly a selection
      that is not empty. */
  lemma SetFromNothingReported(c: seq<Record>, byCid: bool, f: Option<Value -> bool>, before: Snapshot, items: seq<Value>,
                               silent: bool, out: Outcome, after: Snapshot)
    requires before.sel == []
    requires ItemsSet(true, c, byCid, f, before, Arr(items), silent, out, after)
    ensures after.log == before.log + Notice(after.sel != [], silent, SelectionChanged(after.sel, []),
                                             UpdateDependentControls(after.sel))
  {
    CommittedAtNothing(before, after, silent, SelectionChanged(after.sel, before.sel), UpdateDependentControls(after.sel));
  }

  // -----------------------------------------------------------------------
  // Saving and restoring by lines

  /** `savedSelection`: the selected ids and the numbers of the marked
      lines. */
  datatype SavedLines = SavedLines(items: seq<Value>, lines: seq<Value>)

  /** `restoreSelection` on a list whose lines carry `attrs`, numbered from
      `first`: the saved ids are selected again; when none of them is left,
      the saved lines are. */
  function RestoredByLines(c: seq<Record>, byCid: bool, f: Option<Value -> bool>, saved: SavedLines,
                           attrs: seq<Value>, first: int): seq<Value>
  {
    if saved.items == [] then []
    else
      var byId := Validate(c, ConvertStringsToInts(saved.items), byCid, f);
      if byId != [] then byId else AtLines(c, byCid, f, attrs, saved.lines, first)
  }

  /** A selection validated before the render comes back unchanged; the
      saved lines are never consulted. */
  lemma RestoreValidatedLines(c: seq<Record>, byCid: bool, f: Option<Value -> bool>, sel: seq<Value>,
                              lines: seq<Value>, attrs: seq<Value>, first: int)
    requires WellFormed(c) && HasRefIds(c, byCid) && Unconvertible(sel)
    ensures RestoredByLines(c, byCid, f, SavedLines(Validate(c, sel, byCid, f), lines), attrs, first)
            == Validate(c, sel, byCid, f)
  {
    var v := Validate(c, sel, byCid, f);
    if v != [] {
      assert Unconvertible(v);
      ConvertUnconvertible(v);
      ValidateIdempotent(c, sel, byCid, f);
    }
  }

  /** When none of the saved ids is left, the restored selection is
      exactly the ids of the collection, passing the filter, that the
      lines now numbered as the saved ones carry. */
  lemma RestoreFallsBackToLines(c: seq<Record>, byCid: bool, f: Option<Value -> bool>, saved: SavedLines,
                                attrs: seq<Value>, first: int)
    requires saved.items != [] && Validate(c, ConvertStringsToInts(saved.items), byCid, f) == []
    ensures forall x :: x in RestoredByLines(c, byCid, f, saved, attrs, first) <==>
              && x in RefIds(c, byCid) && Selectable(c, x, f)
              && exists k :: 0 <= k < |attrs| && Number(first + k) in saved.lines && ConvertStringToInt(attrs[k]) == x
  {
    AtLinesSpec(c, byCid, f, attrs, saved.lines, first);
  }

  /** The notifications of `restoreSelection`: clearing the selection
      `prior` reports itself only when anything was selected, and
      selecting `restored` on the emptied selection only when anything is
      selected again. */
  function RestoreNotices(silent: bool, prior: seq<Value>, restored: seq<Value>): seq<Event>
  {
    Notice(prior != [], silent, SelectionChanged([], prior), UpdateDependentControls([]))
    + Notice(restored != [], silent, SelectionChanged(restored, []), UpdateDependentControls(restored))
  }

  /** The two steps of the restore, clearing and then selecting again,
      report `RestoreNotices` together, and only append to the log. */
  lemma RestoreNoticesCompose(silent: bool, before: Snapshot, cleared: Snapshot, after: Snapshot)
    requires cleared.log == before.log + Notice(before.sel != [], silent, SelectionChanged([], before.sel),
                                                UpdateDependentControls([]))
    requires after.log == cleared.log + Notice(after.sel != [], silent, SelectionChanged(after.sel, []),
                                               UpdateDependentControls(after.sel))
    ensures after.log == before.log + RestoreNotices(silent, before.sel, after.sel)
    ensures Appended(before.log, after.log)
  {
    var n1 := Notice(before.sel != [], silent, SelectionChanged([], before.sel), UpdateDependentControls([]));
    var n2 := Notice(after.sel != [], silent, SelectionChanged(after.sel, []), UpdateDependentControls(after.sel));
    assert after.log == before.log + (n1 + n2);
    assert after.log[|before.log|..] == n1 + n2;
    assert Event.Render !in n1 && Event.Render !in n2;
  }

  /** What `render` does to the selection, the list and the log, once the
      new list `built` is in place: the selection saved beforehand (the
      ids, and the numbers of the marked lines of the old list) is
      restored on the new list, and the log receives `render`, the
      notifications of the restore (`silent` or not, as the revision's
      restore calls its setter) and a final `updateDependentControls`.
      A view that is not selectable only logs the render. */
  predicate RenderedByLines(selectable: bool, silent: bool, c: seq<Record>, byCid: bool, f: Option<Value -> bool>,
                            first: int, built: seq<Row>, before: Snapshot, after: Snapshot)
  {
    && SameUpToMarks(after.rows, built)
    && if !selectable then after == Snapshot(before.sel, built, before.log + [Event.Render])
       else
         && after.sel == RestoredByLines(c, byCid, f, SavedLines(before.sel, MarkedLines(Lines(before.rows), first)),
                                         Attrs(Lines(built)), first)
         && (MarkedWithin(built, before.sel) ==> MarkersAgree(after.rows, after.sel))
         && after.log == before.log + [Event.Render] + RestoreNotices(silent, before.sel, after.sel)
                         + [UpdateDependentControls(after.sel)]
  }

  /** The steps of `render` on a selectable view make up
      `RenderedByLines`: `mid` is the state once the list is built and
      `render` logged, `restored` the state after `restoreSelection`. */
  lemma RenderByLinesComposes(silent: bool, c: seq<Record>, byCid: bool, f: Option<Value -> bool>, first: int,
                              built: seq<Row>, before: Snapshot, mid: Snapshot, restored: Snapshot, after: Snapshot)
    requires mid == Snapshot(before.sel, built, before.log + [Event.Render])
    requires SameUpToMarks(restored.rows, mid.rows)
    requires restored.log == mid.log + RestoreNotices(silent, before.sel, restored.sel)
    requires restored.sel == RestoredByLines(c, byCid, f, SavedLines(before.sel, MarkedLines(Lines(before.rows), first)),
                                             Attrs(Lines(built)), first)
    requires MarkedWithin(built, before.sel) ==> MarkersAgree(restored.rows, restored.sel)
    requires after == restored.(log := restored.log + [Event.UpdateDependentControls(restored.sel)])
    ensures RenderedByLines(true, silent, c, byCid, f, first, built, before, after)
  {
  }

  /** `render` reports itself once, right after what was logged before. */
  lemma RenderedByLinesLoggedOnce(selectable: bool, silent: bool, c: seq<Record>, byCid: bool, f: Option<Value -> bool>,
                                  first: int, built: seq<Row>, before: Snapshot, after: Snapshot)
    requires RenderedByLines(selectable, silent, c, byCid, f, first, built, before, after)
    ensures |after.log| > |before.log| && after.log[..|before.log|] == before.log
    ensures after.log[|before.log|] == Event.Render
    ensures Event.Render !in after.log[|before.log| + 1..]
  {
    var n := |before.log|;
    if selectable {
      var n1 := Notice(before.sel != [], silent, SelectionChanged([], before.sel), UpdateDependentControls([]));
      var n2 := Notice(after.sel != [], silent, SelectionChanged(after.sel, []), UpdateDependentControls(after.sel));
      var tail := n1 + n2 + [UpdateDependentControls(after.sel)];
      assert after.log == before.log + [Event.Render] + tail;
      assert after.log[n + 1..] == tail;
      assert Event.Render !in n1 && Event.Render !in n2;
    } else {
      assert after.log == before.log + [Event.Render];
    }
  }

  /** With a silent restore (the two revisions whose setters are silent
      by default) a render on a selectable view announces no
      `selectionChanged` at all: it only calls `updateDependentControls`. */
  lemma SilentRenderQuiet(c: seq<Record>, byCid: bool, f: Option<Value -> bool>, first: int,
                          built: seq<Row>, before: Snapshot, after: Snapshot)
    requires RenderedByLines(true, true, c, byCid, f, first, built, before, after)
    ensures forall e: Event | e in after.log[|before.log|..] :: e == Event.Render || e.UpdateDependentControls?
  {
    var n1 := Notice(before.sel != [], true, SelectionChanged([], before.sel), UpdateDependentControls([]));
    var n2 := Notice(after.sel != [], true, SelectionChanged(after.sel, []), UpdateDependentControls(after.sel));
    var tail := [Event.Render] + n1 + n2 + [UpdateDependentControls(after.sel)];
    assert after.log[|before.log|..] == tail;
    assert forall e: Event | e in n1 + n2 :: e.UpdateDependentControls?;
  }

  /** What a render on a selectable view announces when its restore is
      not silent: the clearing of a selection that was not empty and the
      restored selection when it is not empty. Whatever the restore, the
      last notification is `updateDependentControls` with the restored
      selection, and a render with nothing selected before or after logs
      only `render` and that. */
  lemma RenderAnnouncements(silent: bool, c: seq<Record>, byCid: bool, f: Option<Value -> bool>, first: int,
                            built: seq<Row>, before: Snapshot, after: Snapshot)
    requires RenderedByLines(true, silent, c, byCid, f, first, built, before, after)
    ensures !silent && before.sel != [] ==> SelectionChanged([], before.sel) in after.log[|before.log|..]
    ensures !silent && after.sel != [] ==> SelectionChanged(after.sel, []) in after.log[|before.log|..]
    ensures after.log[|after.log| - 1] == UpdateDependentControls(after.sel)
    ensures before.sel == [] && after.sel == [] ==>
              after.log == before.log + [Event.Render, UpdateDependentControls([])]
  {
    var n1 := Notice(before.sel != [], silent, SelectionChanged([], before.sel), UpdateDependentControls([]));
    var n2 := Notice(after.sel != [], silent, SelectionChanged(after.sel, []), UpdateDependentControls(after.sel));
    var tail := [Event.Render] + n1 + n2 + [UpdateDependentControls(after.sel)];
    assert after.log == before.log + tail;
    assert after.log[|before.log|..] == tail;
    if !silent && before.sel != [] {
      assert tail[1] == SelectionChanged([], before.sel);
    }
    if !silent && after.sel != [] {
      assert tail[1 + |n1|] == SelectionChanged(after.sel, []);
    }
  }

  /** A selection pruned before the render (`validateSelectionAndRender`)
      survives it: the saved lines are never consulted. */
  lemma PrunedSurvivesRenderByLines(silent: bool, c: seq<Record>, byCid: bool, f: Option<Value -> bool>, first: int,
                                    built: seq<Row>, sel: seq<Value>, before: Snapshot, after: Snapshot)
    requires WellFormed(c) && HasRefIds(c, byCid) && Unconvertible(sel)
    requires before.sel == Validate(c, sel, byCid, f)
    requires RenderedByLines(true, silent, c, byCid, f, first, built, before, after)
    ensures after.sel == Validate(c, sel, byCid, f)
  {
    RestoreValidatedLines(c, byCid, f, sel, MarkedLines(Lines(before.rows), first), Attrs(Lines(built)), first);
  }

  /** Removing the selected model and pruning the selection before the
      render, as `validateSelectionAndRender` does, leaves nothing
      selected: the line the model occupied is not consulted. */
  lemma RemovedSelectionCleared(silent: bool, c: seq<Record>, m: Record, byCid: bool, f: Option<Value -> bool>,
                                first: int, built: seq<Row>, before: Snapshot, after: Snapshot)
    requires WellFormed(c) && HasRefIds(c, byCid) && m in c
    requires before.sel == Validate(Remove(c, m), [RefId(m, byCid)], byCid, f)
    requires RenderedByLines(true, silent, Remove(c, m), byCid, f, first, built, before, after)
    ensures after.sel == []
  {
    var d := Remove(c, m);
    RemoveKeepsWellFormed(c, m);
    RefIdGone(c, m, byCid);
    ValidateGone(d, RefId(m, byCid), byCid, f);
    RemoveHasRefIds(c, m, byCid);
    ValidateNothing(d, byCid, f);
    PrunedSurvivesRenderByLines(silent, d, byCid, f, first, built, [], before, after);
  }

  // -----------------------------------------------------------------------
  // Models and their reference ids

  /** `_getModelReferenceId( v )` (`v.cid`, or `v.id`): a property read on
      `null` or `undefined` throws, and anything but a model has no such
      property. */
  function ReferenceOf(v: Value, byCid: bool): Result<Value>
  {
    if v.Undefined? || v.Null? then Failure(TypeError)
    else if v.ModelRef? then Success(RefId(v.model, byCid))
    else Success(Undefined)
  }

  /** `_.map( models, _getModelReferenceId )`. */
  function ReferencesOf(items: seq<Value>, byCid: bool): Result<seq<Value>>
    decreases |items|
  {
    if items == [] then Success([])
    else
      match ReferencesOf(items[..|items| - 1], byCid)
      case Failure(e) => Failure(e)
      case Success(p) =>
        match ReferenceOf(items[|items| - 1], byCid)
        case Failure(e) => Failure(e)
        case Success(x) => Success(p + [x])
  }

  /** The mapping throws exactly when one of the items is `null` or
      `undefined`, and otherwise keeps one id per item. */
  lemma {:induction false} ReferencesOfSpec(items: seq<Value>, byCid: bool)
    ensures ReferencesOf(items, byCid).Failure? <==> exists k :: 0 <= k < |items| && (items[k].Undefined? || items[k].Null?)
    ensures ReferencesOf(items, byCid).Success? ==>
              |ReferencesOf(items, byCid).value| == |items|
              && forall k | 0 <= k < |items| :: ReferencesOf(items, byCid).value[k] == ReferenceOf(items[k], byCid).value
    decreases |items|
  {
    if items != [] {
      var p := items[..|items| - 1];
      ReferencesOfSpec(p, byCid);
      assert forall k | 0 <= k < |p| :: items[k] == p[k];
    }
  }

  /** A reference id of a well-formed collection names one of its models,
      which `collection.get` finds and whose reference id it is. */
  lemma RefIdModel(c: seq<Record>, x: Value, byCid: bool) returns (m: Record)
    requires WellFormed(c) && HasRefIds(c, byCid) && x in RefIds(c, byCid)
    ensures m in c && RefId(m, byCid) == x && ModelOf(c, x) == ModelRef(m)
  {
    var k :| 0 <= k < |c| && RefIds(c, byCid)[k] == x;
    m := c[k];
    GetRefId(c, m, byCid);
  }

  /** Reading the selection as models and setting those models again
      gives back the same ids. */
  lemma {:induction false} ModelsByRefRoundTrip(c: seq<Record>, sel: seq<Value>, byCid: bool)
    requires WellFormed(c) && HasRefIds(c, byCid)
    requires forall x | x in sel :: x in RefIds(c, byCid)
    ensures ReferencesOf(Models(c, sel), byCid) == Success(sel)
    decreases |sel|
  {
    if sel != [] {
      var s' := sel[..|sel| - 1];
      var x := sel[|sel| - 1];
      LastSplit(sel);
      ModelsByRefRoundTrip(c, s', byCid);
      var ms := Models(c, sel);
      assert ms[..|ms| - 1] == Models(c, s');
      var m := RefIdModel(c, x, byCid);
      assert ms[|ms| - 1] == ModelRef(m);
      assert ReferenceOf(ms[|ms| - 1], byCid) == Success(x);
    }
  }

  /** `isItemSelected( itemId )`: without an id, whether anything is
      selected. */
  function IsItemSelected(sel: seq<Value>, itemId: Value): (r: bool)
    ensures itemId.Undefined? ==> (r <==> sel != [])
    ensures !itemId.Undefined? ==> (r <==> itemId in sel)
  {
    if itemId.Undefined? then |sel| > 0 else itemId in sel
  }

  // -----------------------------------------------------------------------
  // The registry by reference id

  /** `modelViewsByReferenceId` as `render` fills it: one view per model,
      keyed by `String( referenceId )`; a later model overwrites an
      earlier one with the same key. */
  function ViewMap(c: seq<Record>, byCid: bool): map<string, ItemView>
    decreases |c|
  {
    if c == [] then map[]
    else ViewMap(c[..|c| - 1], byCid)[Text(RefId(c[|c| - 1], byCid)) := ItemView(c[|c| - 1])]
  }

  /** The keys of the registry are the texts of the reference ids. */
  lemma {:induction false} ViewMapKeys(c: seq<Record>, byCid: bool)
    ensures forall key :: key in ViewMap(c, byCid) <==> exists m | m in c :: Text(RefId(m, byCid)) == key
    decreases |c|
  {
    if c != [] {
      var c' := c[..|c| - 1];
      ViewMapKeys(c', byCid);
      LastSplit(c);
      forall key ensures key in ViewMap(c, byCid) <==> exists m | m in c :: Text(RefId(m, byCid)) == key {
        if key in ViewMap(c', byCid) {
          var m :| m in c' && Text(RefId(m, byCid)) == key;
          assert m in c;
        }
        if exists m | m in c :: Text(RefId(m, byCid)) == key {
          var m :| m in c && Text(RefId(m, byCid)) == key;
          if m != c[|c| - 1] {
            assert m in c';
          }
        }
      }
    }
  }

  /** After a render every model of a well-formed collection is found
      under its own reference id. */
  lemma {:induction false} ViewMapFinds(c: seq<Record>, byCid: bool, m: Record)
    requires WellFormed(c) && HasRefIds(c, byCid) && m in c
    ensures Text(RefId(m, byCid)) in ViewMap(c, byCid)
    ensures ViewMap(c, byCid)[Text(RefId(m, byCid))] == ItemView(m)
    decreases |c|
  {
    var c' := c[..|c| - 1];
    var z := c[|c| - 1];
    LastSplit(c);
    if m != z {
      assert m in c';
      assert WellFormed(c') by {
        forall i, j | 0 <= i < j < |c'| ensures c'[i] != c'[j] {
          assert c'[i] == c[i] && c'[j] == c[j];
        }
      }
      ViewMapFinds(c', byCid, m);
      assert KeysDiffer(m, z);
      assert Text(RefId(m, byCid)) != Text(RefId(z, byCid));
    }
  }

  /** `getSelectedModelViews()`: the registered view of every selected id,
      `undefined` when there is none. */
  function SelectedViews(views: map<string, ItemView>, sel: seq<Value>): seq<Value>
  {
    seq(|sel|, i requires 0 <= i < |sel| => if Text(sel[i]) in views then ViewRef(views[Text(sel[i])]) else Undefined)
  }

  /** `getSelectedModelViews()`: the registered view of every selected id;
      before the first render there is no registry to read. */
  function SelectedModelViews(views: Option<map<string, ItemView>>, sel: seq<Value>): Result<seq<Value>>
  {
    if views.None? then (if sel == [] then Success([]) else Failure(TypeError))
    else Success(SelectedViews(views.value, sel))
  }

  /** After a render, the selected ids of the collection read back as the
      views of their models. */
  lemma SelectedViewsAfterRender(c: seq<Record>, byCid: bool, sel: seq<Value>)
    requires WellFormed(c) && HasRefIds(c, byCid)
    requires forall x | x in sel :: x in RefIds(c, byCid)
    ensures var vs := SelectedViews(ViewMap(c, byCid), sel);
            forall i | 0 <= i < |sel| ::
              vs[i].ViewRef? && vs[i].view.model in c && RefId(vs[i].view.model, byCid) == sel[i]
  {
    var vs := SelectedViews(ViewMap(c, byCid), sel);
    forall i | 0 <= i < |sel|
      ensures vs[i].ViewRef? && vs[i].view.model in c && RefId(vs[i].view.model, byCid) == sel[i]
    {
      assert sel[i] in sel;
      var m := RefIdModel(c, sel[i], byCid);
      ViewMapFinds(c, byCid, m);
    }
  }
}
