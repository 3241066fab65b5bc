# Backbone.CollectionView: selection and render reconciliation

Backbone.CollectionView renders a Backbone collection as a `ul` or `table`: one
element per model, tagged with a `data-item-id` attribute. On top of that list it
keeps a *selection*, held in `selectedItems` as model reference ids (cids, or ids in
the older revisions). The selection can be read and written in several ways: by id,
by cid, by model, by view, or by position among the visible items (the "offset" or
"line"). Whenever the list is rendered again, the component saves the selection and
restores it, first by reference id and then by position. After a drag-and-drop
reorder, it rebuilds the collection order from the document order.

This project models that engine in four revisions of the component:

| revision | module |
|---|---|
| `src/Backbone.CollectionView.js` (latest) | `CollectionViewSrc` |
| `lib/collectionView.js` | `CollectionViewLib` |
| `collectionView.js` | `CollectionViewClassic` |
| `vCollectionList.js` (oldest) | `VCollectionList` |

Each revision is a `class` whose fields are the component's mutable state:

- `collection`: a `seq<Record>`;
- `selectedItems`: a `seq<Value>`;
- the saved selection;
- the registry of item views;
- the list element, a `seq<Row>` that records each row's item id, visibility and `selected` class;
- `log`: the notifications triggered so far.

Each method of a class changes only the fields it names. The pure logic shared by
the revisions lives in modules of functions and lemmas:

| module | holds |
|---|---|
| `Js` | JavaScript values, `String()`, `parseInt`, `_convertStringsToInts` |
| `Underscore` | `_.intersection`, `_.uniq`, `_.union`, `_.without`, `_containSameElements` |
| `Backbone` | `collection.get`, `remove`, `add`, `find` |
| `Selection` | `_validateSelection` |
| `Dom` | visible lines, markers, line numbering |
| `Commits` | the notifications of a selection change |
| `LineAddressing` and `NumberedLines` | selection by line |
| `Addressing` | selection by model and by view |
| `SelectedItems` | the revisions that keep ids and restore by lines |
| `Registry` | the view container |
| `Rendering` | the list `render` builds |
| `Reorder` | `_reorderCollectionBasedOnHTML` and `_sortStop` |
| `Clicks` | the click rules |

Notifications are events appended to `log`; a `silent` option suppresses only
`selectionChanged`. The `reorder` event, which the source triggers on the
collection, is recorded in the same log.

The central properties proved:

- `_validateSelection` keeps exactly the selected reference ids of the collection that pass the filter, in collection order, and is idempotent.
- A selection change notifies exactly when the set of selected ids changes. When the rows' `selected` classes matched the selection before the change, exactly the selected rows carry the class afterwards.
- Reading the selection by model or by view and setting it again in the same mode gives back the same selection, with no notification. By line this holds when exactly the selected rows carry the `selected` class and every selected id is shown on a visible row; a hidden selected row is not read back.
- `render` restores a selection that was pruned before it (`validateSelectionAndRender`) unchanged, so removing the selected model clears the selection. The oldest revision renders on `remove` without pruning: its restore falls back to lines, and it selects the model that followed the removed one.
- Reordering from the document is a permutation of the collection, and it puts the collection in document order when every model has a row.
- Shift-click selects exactly the range between the anchor and the clicked model. A toggle click flips exactly the clicked id.

## Model

| member | source | states |
|---|---|---|
| Js.IntTextRoundTrip | src/Backbone.CollectionView.js:846-852 | writing an integer as text and parsing it back with `parseInt` gives the integer, and the text is a numeral |
| Js.ConvertStringToInt | src/Backbone.CollectionView.js:846-852 | the result is never a numeral string, it is loosely equal (`==`) to the input, and it differs from the input only by turning a string into a number; these three facts fix the result; the text of an integer converts back to that integer |
| Js.ConvertStringsToInts | src/Backbone.CollectionView.js:846-852 | the same length, and each entry is converted on its own |
| Js.TextThenConvert | src/Backbone.CollectionView.js:311-325 | a number or a non-numeral string written into `data-item-id` converts back to the same value |
| Js.NumeralStringIdIsLost | collectionView.js:880-887 | a numeral string id does not survive the round trip through the attribute: it comes back as a number |
| Js.ClickedItemId | src/Backbone.CollectionView.js:613-617 | the id is never a numeral string, it is loosely equal to the attribute text, and it is either a number or the text itself; these three facts fix the id; an attribute holding the text of an integer gives back that integer |
| Underscore.Intersection | src/Backbone.CollectionView.js:627 | `_.intersection` is duplicate-free and holds exactly the elements in both arguments |
| Underscore.IntersectionOfDistinct | src/Backbone.CollectionView.js:627 | on a duplicate-free first argument, `_.intersection` keeps that argument's order |
| Underscore.IntersectionOfSubset | src/Backbone.CollectionView.js:855-859 | a duplicate-free list intersected with a superset of it is itself |
| Underscore.Uniq | collectionView.js:337 | `_.uniq` is duplicate-free with the same elements |
| Underscore.UniqOfNoDup | src/Backbone.CollectionView.js:811 | `_.uniq` leaves a duplicate-free list unchanged |
| Underscore.UnionAppends | src/Backbone.CollectionView.js:811 | `_.union` with a new id appends it |
| Underscore.Without | src/Backbone.CollectionView.js:810 | `_.without` drops exactly the given element and keeps duplicate-freedom |
| Underscore.SameElementsIffSameSet | src/Backbone.CollectionView.js:855-859 | for duplicate-free lists `_containSameElements` holds iff the sets of elements are equal |
| Backbone.Lookup | src/Backbone.CollectionView.js:596-598 | a found model is in the collection and named by the key; not found means no model is named by it |
| Backbone.LookupUnique | src/Backbone.CollectionView.js:596-598 | in a well-formed collection the key of a model finds exactly that model |
| Backbone.RefIds | src/Backbone.CollectionView.js:625 | `_.pluck( models, "cid" )`: one reference id per model, in order |
| Backbone.RefIdsDistinct | src/Backbone.CollectionView.js:622-635 | reference ids of a well-formed collection are distinct |
| Backbone.GetRefId | src/Backbone.CollectionView.js:591-598 | `collection.get` of a model's own reference id finds the model |
| Backbone.FindCounter | src/Backbone.CollectionView.js:772-786 | the index counter of `collection.find` stays between -1 and the last index |
| Backbone.FindCounterSpec | src/Backbone.CollectionView.js:772-786 | the counter stops on the first accepted model, runs to the end when none is accepted, and stays -1 on an empty collection |
| Backbone.Remove | src/Backbone.CollectionView.js:712 | `remove` drops exactly the models with that cid |
| Backbone.RemoveMultiset | src/Backbone.CollectionView.js:670-671 | removing keeps every other model exactly as often as before |
| Backbone.SpliceIndex | src/Backbone.CollectionView.js:727-729 | the insertion index of `add( m, { at : newIndex } )` lies within the collection |
| Backbone.WellFormedPermutation | src/Backbone.CollectionView.js:658-681 | reordering a well-formed collection keeps it well formed |
| Backbone.AddKeepsWellFormed | src/Backbone.CollectionView.js:729 | adding a compatible model keeps the collection well formed and adds it exactly once, and adding a present model changes nothing |
| Backbone.AddUnlessFoundSpec | src/Backbone.CollectionView.js:729 | `add` of a model that a different model of the collection shares an id or cid with leaves the collection as it was; otherwise the model is added once (or was already there), and the collection stays well formed |
| Backbone.RemoveKeepsWellFormed | src/Backbone.CollectionView.js:712 | removing keeps the collection well formed |
| Backbone.RemoveAt | src/Backbone.CollectionView.js:712 | removing the model at index k takes out exactly that entry |
| Backbone.RefIdGone | src/Backbone.CollectionView.js:573-576 | after its model is removed, a reference id is no longer among the collection's |
| Selection.KeepSelectable | src/Backbone.CollectionView.js:629-634 | the filter keeps exactly the ids whose model passes it, and keeps duplicate-freedom |
| Selection.Validate | src/Backbone.CollectionView.js:622-635 | the validated selection is duplicate-free and holds exactly the collection's reference ids that were selected and pass the filter |
| Selection.ValidateInCollectionOrder | src/Backbone.CollectionView.js:622-635 | validation equals the reference definition: the collection's ids, in collection order, kept when selected and selectable |
| Selection.ValidateCongruent | src/Backbone.CollectionView.js:622-635 | validation depends only on which ids are asked for, not on their order or repetition |
| Selection.ValidateIdempotent | src/Backbone.CollectionView.js:622-635 | validating twice is validating once |
| Selection.ValidateNothing | src/Backbone.CollectionView.js:358-360 | validating an empty request gives an empty selection |
| Selection.ValidateSingle | src/Backbone.CollectionView.js:622-635 | one id of the collection is selected alone when selectable, and nothing is selected otherwise |
| Selection.ValidateGone | src/Backbone.CollectionView.js:622-635 | an id the collection does not carry is validated away |
| Selection.CidsUnconvertible | src/Backbone.CollectionView.js:846-852 | cids are never numerals, so `_convertStringsToInts` leaves a selection of cids unchanged |
| Selection.ChangedIffSetsDiffer | src/Backbone.CollectionView.js:330 | the change test holds iff the old and new sets of ids differ, in either argument order |
| Dom.Remark | src/Backbone.CollectionView.js:637-656 | rows of new ids gain the class, rows only of old ids lose it, and every other row and attribute is untouched |
| Dom.RemarkAgrees | src/Backbone.CollectionView.js:637-656 | when only rows of the old selection were marked, after the update exactly the rows of the new selection are marked |
| Dom.AgreeSameSet | src/Backbone.CollectionView.js:330-347 | markers depend only on the set of ids, which is why an unchanged set needs no update |
| Dom.UnmarkedAgreesWithNone | src/Backbone.CollectionView.js:376-379 | a freshly built list agrees with the empty selection the restore starts from |
| Dom.LinesSkipUncounted | src/Backbone.CollectionView.js:211-225 | a hidden row or a row without an item id never shifts a line number |
| Dom.LinesMembers | collectionView.js:275 | the counted lines are exactly the visible rows with an item id |
| Dom.MarkedLinesSpec | src/Backbone.CollectionView.js:211-225 | every marked visible line is reported by its number, and only those |
| Dom.FirstMarkedLineIsNumber | src/Backbone.CollectionView.js:733-756 | the first reported line is a number |
| Dom.Attrs | src/Backbone.CollectionView.js:301-317 | one attribute per line |
| Dom.LineAttrsIgnoreMarks | src/Backbone.CollectionView.js:301-317 | line attributes do not depend on the `selected` class |
| Dom.ItemsAtLinesSpec | src/Backbone.CollectionView.js:301-317 | an attribute is collected iff its line number is asked for |
| Dom.ItemsAtLinesInRange | src/Backbone.CollectionView.js:301-317 | only line numbers within the list matter |
| Dom.ItemsAtSingleLine | src/Backbone.CollectionView.js:351-356 | one line number selects that line's attribute if it exists, and nothing otherwise |
| Dom.MarkedAttrsMembers | collectionView.js:275-278 | an attribute is among the marked lines' attributes exactly when a marked line carries it |
| Dom.LinesRoundTrip | src/Backbone.CollectionView.js:211-225 | setting the line numbers that were read back selects the attributes of exactly the marked lines, in order |
| Dom.CollectMarkedLines | src/Backbone.CollectionView.js:211-225 | the loop returns the marked line numbers |
| Dom.CollectItemsAtLines | src/Backbone.CollectionView.js:301-317 | the loop returns the attributes of the asked-for lines |
| Dom.ClampLine | collectionView.js:377-391 | a clamped line lies in 1..count; a line in range is unchanged, and a line below 1 becomes 1 |
| Dom.CountLines | collectionView.js:383-386 | the loop counts the visible lines |
| Commits.CommitProperties | src/Backbone.CollectionView.js:322-347 | a commit only appends to the log, and does so iff the set changed; it touches only markers, and keeps or establishes marker agreement |
| Commits.CommittedAtNothing | collectionView.js:302-318 | a commit from or to the empty selection appends exactly one notice: `selectionChanged` (unless silent) and `updateDependentControls`, iff the selection changed |
| LineAddressing.AtLinesSpec | collectionView.js:359-375 | selecting by lines gives exactly the collection's selectable ids that the asked-for lines carry, after conversion |
| LineAddressing.SingleLineSelects | collectionView.js:377-391 | asking for one line is the line's id when in range, and nothing otherwise |
| LineAddressing.LineInRange | collectionView.js:377-391 | a line in range selects its converted, validated attribute |
| LineAddressing.LinesReadBack | collectionView.js:263-372 | selecting the lines read as marked gives back a validated selection when exactly its rows are marked, each id is on a visible row, and each id is a number or a string that is not a numeral |
| LineAddressing.LineOutOfRange | collectionView.js:377-391 | a line out of range selects nothing |
| Registry.FindByModel | src/Backbone.CollectionView.js:232-236 | `findByModel` returns a registered view with the model's cid, or none if there is no such view |
| Registry.FindByModelAfterRender | src/Backbone.CollectionView.js:402-493 | after a render every model finds its own view |
| Registry.WithIds | src/Backbone.CollectionView.js:288-292 | the models whose id is listed, in collection order |
| Registry.IdModeFollowsCollection | src/Backbone.CollectionView.js:288-292 | after a render, id mode collects the cids of the listed models in collection order |
| Rendering.ItemRows | src/Backbone.CollectionView.js:404-493 | one row per model |
| Rendering.CaptionNotCounted | src/Backbone.CollectionView.js:530-557 | the empty-list caption is never a line |
| Rendering.BuiltUnmarked | src/Backbone.CollectionView.js:402-493 | a freshly built list carries no `selected` class |
| Rendering.BuiltLines | src/Backbone.CollectionView.js:479-489 | hidden models have no line: the lines carry the tags of the visible models, in collection order |
| Rendering.UnreferencedIndex | collectionView.js:464-478 | the render stops at the first model without a reference id; every model before it has one |
| Rendering.RenderThrowsIff | collectionView.js:476-478 | without an item template, render throws iff models are referenced by id and some model's id is `undefined` |
| Rendering.ShownTags | src/Backbone.CollectionView.js:404-493 | with all models shown and referenced, line k carries the text of model k's reference id |
| Reorder.MoveToEndPermutes | src/Backbone.CollectionView.js:668-672 | `remove` then `add` moves a model to the end and keeps the same models |
| Reorder.ReorderedPermutes | src/Backbone.CollectionView.js:658-681 | the walk leaves a well-formed permutation of the collection |
| Reorder.ResolvePermutation | src/Backbone.CollectionView.js:668 | an attribute resolves to the same model in any permutation of the collection |
| Reorder.ReorderedOrder | src/Backbone.CollectionView.js:658-681 | the result is the unnamed models in their old order followed by the named models in document order |
| Reorder.CollectionFollowsDocument | src/Backbone.CollectionView.js:658-681 | when every model has a row, once, the collection ends in document order |
| Reorder.DraggedOutMultiset | src/Backbone.CollectionView.js:709-713 | dropping into another list removes exactly the dragged model |
| Reorder.SortedMultiset | src/Backbone.CollectionView.js:705-720 | a drag within the list only permutes; a drag out loses exactly the dragged model |
| Reorder.ReorderedStep | src/Backbone.CollectionView.js:662-673 | one child of the walk is the `get`, `remove`, `add` of the source |
| Reorder.ResolvedStep | vCollectionList.js:465-476 | when every attribute resolves, each step moves the named model to the end |
| Clicks.ClickedIdOfRow | src/Backbone.CollectionView.js:600-620 | a row tagged with an id reports that id when clicked |
| Clicks.CollectRange | src/Backbone.CollectionView.js:792-794 | the loop returns the reference ids of the index range, or the error the source throws |
| Clicks.Toggled | src/Backbone.CollectionView.js:807-811 | toggling flips the clicked id's membership and keeps every other id |
| Clicks.ClickedItems | src/Backbone.CollectionView.js:758-824 | the handler computes the request of the click rules |
| Clicks.AnchorIsFirstSelected | src/Backbone.CollectionView.js:768-778 | the anchor is the first model in collection order whose id is selected |
| Clicks.ClickedIsFirstMatch | src/Backbone.CollectionView.js:780-786 | the clicked index is the first model whose id loosely equals the clicked id |
| Clicks.ShiftBoundsSpec | src/Backbone.CollectionView.js:788-790 | the range runs from the lower to the higher of the clicked index and the anchor |
| Clicks.ShiftClickRange | src/Backbone.CollectionView.js:766-795 | a shift-click asks for the ids of the models from the lower to the higher index, inclusive |
| Clicks.RangeSelection | src/Backbone.CollectionView.js:766-795 | after validation, a shift-click selects exactly the selectable models between the two indices |
| Clicks.PlainClickSelectsRow | src/Backbone.CollectionView.js:813-814 | a plain click on a model's row selects that model alone when selectable, and nothing otherwise |
| Clicks.PlainClickRequest | src/Backbone.CollectionView.js:813-814 | a plain click asks for the clicked id alone |
| Clicks.ClickOnIdZeroClears | collectionView.js:792-853 | with ids as references, clicking the row of id 0 is read as a background click and clears the selection |
| Addressing.ModelModeRoundTrip | src/Backbone.CollectionView.js:227-231 | reading the selection by model and setting it again by model gives back the same cids |
| Addressing.ViewModeRoundTrip | src/Backbone.CollectionView.js:232-236 | reading the selection by view and setting it again by view gives back the same cids |
| Addressing.ReceivedModelSelected | src/Backbone.CollectionView.js:722-731 | setting the received model by model selects its cid alone when the cid names a model of the collection that passes the filter, and nothing otherwise; a model of the collection is always named by its cid |
| SelectedItems.ConvertedUnconvertible | collectionView.js:880-887 | `_convertStringsToInts` never returns a numeral string |
| SelectedItems.ValidatedUnconvertible | collectionView.js:298-300 | a selection that went through the setter survives a second conversion |
| SelectedItems.ItemsSetProperties | collectionView.js:290-321 | the setter passes iff selectable and given a list; it selects exactly the converted ids of the collection that pass the filter, in collection order; it notifies iff the set changed and touches only markers |
| SelectedItems.ItemsSetNothing | collectionView.js:393-395 | setting nothing selects nothing |
| SelectedItems.ClearReported | collectionView.js:393-395 | setting `[]` on a selectable view passes, selects nothing, and logs `selectionChanged` (unless silent) and `updateDependentControls( [] )` exactly when something was selected |
| SelectedItems.SetFromNothingReported | collectionView.js:414-419 | setting a list when nothing is selected logs `selectionChanged` (unless silent) and `updateDependentControls` with the new selection exactly when something gets selected |
| SelectedItems.RestoreValidatedLines | collectionView.js:408-430 | a selection validated before the render comes back unchanged; the saved lines are not consulted |
| SelectedItems.RestoreFallsBackToLines | collectionView.js:408-430 | when no saved id is left, the restore selects exactly the selectable ids on the saved line numbers |
| SelectedItems.RestoreNoticesCompose | collectionView.js:408-430 | the clear and the set of a restore together log exactly the restore notices and never `render` |
| SelectedItems.RenderByLinesComposes | collectionView.js:432-594 | save, build, trigger `render`, a restore whose log is exactly its clear-then-set notices, and the final notice make up the render effect |
| SelectedItems.RenderedByLinesLoggedOnce | collectionView.js:582 | `render` reports itself exactly once, right after the earlier log |
| SelectedItems.SilentRenderQuiet | collectionView.js:582-590 | when the restore is silent, the render logs only `render` and `updateDependentControls` |
| SelectedItems.RenderAnnouncements | collectionView.js:582-590 | a render that does not restore silently announces the cleared and the restored selections, always ends with `updateDependentControls` on the restored selection, and with nothing selected before or after logs just `render` and `updateDependentControls( [] )` |
| SelectedItems.PrunedSurvivesRenderByLines | collectionView.js:596-599 | a selection pruned before the render survives it |
| SelectedItems.RemovedSelectionCleared | collectionView.js:152-156 | when the selected model is removed, the pruned render leaves nothing selected |
| SelectedItems.ReferencesOfSpec | vCollectionList.js:217-225 | mapping models to reference ids throws iff an entry is `null` or `undefined`, and otherwise keeps one id per item |
| SelectedItems.ModelsByRefRoundTrip | collectionView.js:221-225 | reading the selection as models and setting those models gives back the same ids |
| SelectedItems.IsItemSelected | collectionView.js:210-214 | without an id, it tells whether anything is selected; with one, whether that id is selected |
| SelectedItems.ViewMapKeys | collectionView.js:456 | the registry keys are the texts of the reference ids |
| SelectedItems.ViewMapFinds | collectionView.js:542 | after a render, each model is found under its own reference id |
| SelectedItems.SelectedViewsAfterRender | collectionView.js:231-242 | after a render, each selected id reads back as the view of the model with that id |
| NumberedLines.ModelsSetBackUnchanged | collectionView.js:349-357 | setting the models read from a validated selection changes nothing |
| NumberedLines.LinesSelect | collectionView.js:359-375 | `setSelectedLines` selects exactly the selectable ids on the listed lines, counting from 1 |
| NumberedLines.LinesRead | collectionView.js:263-284 | reading the selected lines and setting them again asks for the attributes of exactly the marked lines |
| NumberedLines.LinesReadThenSet | collectionView.js:263-284 | reading the selected lines and setting them again gives back the same selection with no notification when exactly the selected rows are marked and every selected id is on a visible row |
| NumberedLines.ClampedLineSelects | collectionView.js:377-391 | a clamped line always lies on a visible line, and selects that line's validated id |
| CollectionViewClassic.ToggleFlips | collectionView.js:327-342 | toggling sets the id's membership as asked and leaves every other selected id in place |
| CollectionViewClassic.ModelSelectsItself | collectionView.js:344-347 | setting a model selects its reference id alone when selectable |
| CollectionViewClassic.ModelSetsReference | collectionView.js:344-347 | setting a model selects the validated reference id of that model |
| CollectionViewClassic.NumeralIdNeverSelected | collectionView.js:297-300 | a model whose id is a numeral string can never be selected by id |
| CollectionViewClassic.CollectionView.constructor | collectionView.js:48-170 | options are read with their defaults; nothing is selected or rendered yet |
| CollectionViewClassic.CollectionView.GetSelectedModels | collectionView.js:221-225 | `collection.get` of each selected id |
| CollectionViewClassic.CollectionView.GetSelectedModelViews | collectionView.js:231-242 | the registered view of each selected id |
| CollectionViewClassic.CollectionView.GetSelectedLines | collectionView.js:263-284 | the numbers, from 1, of the marked visible lines |
| CollectionViewClassic.CollectionView.SetSelectedItems | collectionView.js:290-321 | the setter effect, with markers kept in agreement |
| CollectionViewClassic.CollectionView.Commit | collectionView.js:302-320 | the stored ids, and notification iff the set changed |
| CollectionViewClassic.CollectionView.SetSelectedItem | collectionView.js:323-325 | the setter on a one-item list |
| CollectionViewClassic.CollectionView.ToggleItemSelected | collectionView.js:327-342 | the setter on the toggled list |
| CollectionViewClassic.CollectionView.SetSelectedModel | collectionView.js:344-347 | the setter on the model's reference id; null or undefined select nothing |
| CollectionViewClassic.CollectionView.SetSelectedModels | collectionView.js:349-357 | the setter on the models' reference ids |
| CollectionViewClassic.CollectionView.SetSelectedLines | collectionView.js:359-375 | the setter on the ids of the listed lines |
| CollectionViewClassic.CollectionView.SetSelectedLine | collectionView.js:377-391 | the setter on the clamped line, or on the line as given when constraining is off |
| CollectionViewClassic.CollectionView.SelectNone | collectionView.js:393-395 | a selectable view ends with nothing selected |
| CollectionViewClassic.CollectionView.ValidateSelection | collectionView.js:668-683 | the selection becomes its validation |
| CollectionViewClassic.CollectionView.SaveSelection | collectionView.js:397-406 | saves the ids and the marked lines; throws on a non-selectable view |
| CollectionViewClassic.CollectionView.RestoreSelection | collectionView.js:408-430 | throws with nothing saved; otherwise the saved ids, or the saved lines when no saved id is left, and the log grows by exactly the silent clear-then-set notices (`updateDependentControls` only) |
| CollectionViewClassic.CollectionView.Reselect | collectionView.js:414-427 | restores from the empty selection; the log grows by one silent notice exactly when something was restored |
| CollectionViewClassic.CollectionView.Render | collectionView.js:432-594 | builds the layout and the registry; the log grows by `render`, then the restore's silent notices, then `updateDependentControls` with the restored selection; throws at the first model without a reference id |
| CollectionViewClassic.CollectionView.BuildList | collectionView.js:439-545 | the rows and the registry of the models reached |
| CollectionViewClassic.CollectionView.RestoreAndNotify | collectionView.js:584-590 | the end of the render effect |
| CollectionViewClassic.CollectionView.Rebuild | collectionView.js:437-545 | the list and `modelViewsByReferenceId` hold exactly the models the loop reaches, the whole layout and registry when it reaches every model |
| CollectionViewClassic.CollectionView.Finish | collectionView.js:582-590 | after a complete build, `render` is triggered and a selectable view restores its selection by line and notifies |
| CollectionViewClassic.CollectionView.UpdateDependentControls | collectionView.js:612-619 | appends the notification |
| CollectionViewClassic.CollectionView.ValidateSelectionAndRender | collectionView.js:596-599 | the pruned selection survives the render |
| CollectionViewClassic.CollectionView.CollectionAdd | collectionView.js:146-150 | adds the model and renders |
| CollectionViewClassic.CollectionView.CollectionRemove | collectionView.js:152-156 | removes the model, prunes the selection and renders |
| CollectionViewClassic.CollectionView.CollectionReset | collectionView.js:158-162 | replaces the collection, prunes the selection and renders |
| CollectionViewClassic.CollectionView.SetCollection | collectionView.js:172-184 | stores the collection and renders |
| CollectionViewClassic.CollectionView.ReorderCollectionBasedOnHtml | collectionView.js:706-727 | the collection is reordered from the rows as a permutation, then `reorder` is triggered |
| CollectionViewClassic.CollectionView.SortStop | collectionView.js:751-760 | reorders, updates the dependent controls and triggers `sortStop` with the dragged model |
| CollectionViewClassic.CollectionView.OnKeydown | collectionView.js:762-785 | with exactly one marked line, an arrow key selects the clamped neighbouring line silently and traps the event; otherwise nothing changes |
| CollectionViewClassic.CollectionView.OnItemClick | collectionView.js:787-859 | a click on a selectable view sets the click request, not silently |
| CollectionViewClassic.CollectionView.OnBackgroundClick | collectionView.js:872-877 | on a selectable view a click on the list is the setter on `[]`, not silent: it clears the selection, and the log grows by `selectionChanged` and `updateDependentControls` exactly when something was selected; any other click changes nothing |
| CollectionViewLib.SetterProperties | lib/collectionView.js:238-303 | the setter passes iff selectable, given a list and the mode resolves; it selects exactly the requested cids of the collection that pass the filter; it notifies iff the set changed |
| CollectionViewLib.SetterLineMode | lib/collectionView.js:269-285 | line mode selects the validated cids on the listed lines, counting from 0 |
| CollectionViewLib.SetterNothing | lib/collectionView.js:310-312 | setting nothing selects nothing in every mode once rendered |
| CollectionViewLib.SetterIdModeAfterRender | lib/collectionView.js:256-260 | after a render, id mode selects exactly the cids of the selectable models whose id was asked for |
| CollectionViewLib.IdRequest | lib/collectionView.js:256-260 | id mode collects the cids of exactly the listed models |
| CollectionViewLib.ArrowMove | lib/collectionView.js:650-679 | an arrow key selects the neighbouring line, or nothing past either end |
| CollectionViewLib.SetterReceivedModel | lib/collectionView.js:645-647 | setting a received model selects its cid alone when the cid names a model that passes the filter, and nothing otherwise, whether or not the add took place |
| CollectionViewLib.RegisteredAfterRender | lib/collectionView.js:195-204 | after a render each selected cid reads back as its own model |
| CollectionViewLib.ReadThenSet | lib/collectionView.js:164-303 | reading by model or by view and setting what was read asks for exactly the selected cids; reading by line and setting it asks for the attributes of the marked lines |
| CollectionViewLib.LinesReadThenSet | lib/collectionView.js:187-194 | in line mode, reading and setting again gives back the same cids with no notification when exactly the selected rows are marked and every selected cid is on a visible row |
| CollectionViewLib.ModelsSetBackUnchanged | lib/collectionView.js:238-303 | setting the models read from a validated selection changes nothing |
| CollectionViewLib.CollectionView.constructor | lib/collectionView.js:36-136 | options are read with their defaults; nothing is rendered yet |
| CollectionViewLib.CollectionView.GetSelectedItems | lib/collectionView.js:164-211 | the selection read in the given mode |
| CollectionViewLib.CollectionView.GetSelectedItem | lib/collectionView.js:155-157 | the first item read, or the same failure |
| CollectionViewLib.CollectionView.SetSelectedItems | lib/collectionView.js:238-303 | the setter effect, with markers kept in agreement |
| CollectionViewLib.CollectionView.RequestedCids | lib/collectionView.js:251-285 | the `switch`, with the line loop |
| CollectionViewLib.CollectionView.Commit | lib/collectionView.js:287-302 | the stored cids, and notification iff the set changed |
| CollectionViewLib.CollectionView.SetSelectedItem | lib/collectionView.js:305-308 | null or undefined select nothing; anything else is set as a one-item list |
| CollectionViewLib.CollectionView.SelectNone | lib/collectionView.js:310-312 | nothing is selected afterwards |
| CollectionViewLib.CollectionView.ValidateSelection | lib/collectionView.js:526-538 | the selection becomes its validation |
| CollectionViewLib.CollectionView.BuildList | lib/collectionView.js:356-434 | one row and one registered view per model |
| CollectionViewLib.CollectionView.SaveSelection | lib/collectionView.js:314-325 | saves the cids and the marked lines |
| CollectionViewLib.CollectionView.RestoreSelection | lib/collectionView.js:327-349 | the saved cids, or the saved lines when no saved cid is left, and the log grows by exactly the silent clear-then-set notices |
| CollectionViewLib.CollectionView.Reselect | lib/collectionView.js:333-345 | restores from the empty selection; the log grows by one silent notice exactly when something was restored |
| CollectionViewLib.CollectionView.Render | lib/collectionView.js:351-476 | builds the layout and the registry; the log grows by `render`, then the restore's silent notices, then `updateDependentControls` with the restored selection |
| CollectionViewLib.CollectionView.Rebuild | lib/collectionView.js:356-467 | the list, the registry and the `render` event |
| CollectionViewLib.CollectionView.RestoreAndNotify | lib/collectionView.js:469-473 | the end of the render effect |
| CollectionViewLib.CollectionView.UpdateDependentControls | lib/collectionView.js:487-494 | appends the notification |
| CollectionViewLib.CollectionView.ValidateSelectionAndRender | lib/collectionView.js:478-481 | the pruned selection survives the render |
| CollectionViewLib.CollectionView.CollectionAdd | lib/collectionView.js:115-118 | adds the model and renders |
| CollectionViewLib.CollectionView.CollectionRemove | lib/collectionView.js:120-123 | removes the model, prunes the selection and renders |
| CollectionViewLib.CollectionView.CollectionReset | lib/collectionView.js:125-128 | replaces the collection, prunes the selection and renders |
| CollectionViewLib.CollectionView.SetCollection | lib/collectionView.js:138-149 | stores the collection and renders |
| CollectionViewLib.CollectionView.ReorderCollectionBasedOnHtml | lib/collectionView.js:561-586 | the collection is reordered from the rows as a permutation, then `reorder` is triggered |
| CollectionViewLib.CollectionView.SortStop | lib/collectionView.js:614-633 | a model dropped elsewhere leaves the collection, the rest is reordered, and the notifications follow |
| CollectionViewLib.CollectionView.RemoveDragged | lib/collectionView.js:618-623 | silently removes the dragged model, keeping the collection well formed |
| CollectionViewLib.CollectionView.Receive | lib/collectionView.js:635-648 | the received model is added at the drop index unless a different model of the collection shares its id or cid, in which case the collection, rows and log stay as they were; the setter then runs either way and selects the model's cid exactly when it names a selectable model |
| CollectionViewLib.CollectionView.OnKeydown | lib/collectionView.js:650-679 | with exactly one marked line, an arrow key selects the neighbouring line silently |
| CollectionViewLib.CollectionView.OnItemClick | lib/collectionView.js:681-746 | a click sets the click request by cid, not silently |
| CollectionViewLib.CollectionView.OnBackgroundClick | lib/collectionView.js:759-766 | on a selectable view a click on the list is the setter on `[]`, not silent: it clears the selection, and the log grows by `selectionChanged` and `updateDependentControls` exactly when something was selected; any other click changes nothing |
| CollectionViewSrc.RestoreValidated | src/Backbone.CollectionView.js:373-395 | a validated selection is restored unchanged |
| CollectionViewSrc.RestoreFallsBackToOffset | src/Backbone.CollectionView.js:386-391 | when no saved cid is left, the restore selects the line at the saved offset |
| CollectionViewSrc.RestoreAnnouncementsCompose | src/Backbone.CollectionView.js:373-395 | the clear and the set of a restore together log exactly the restore announcements, with models, and never `render` |
| CollectionViewSrc.RenderUnselectable | src/Backbone.CollectionView.js:397-571 | a non-selectable view only rebuilds and logs the render |
| CollectionViewSrc.RenderComposes | src/Backbone.CollectionView.js:397-571 | save, build, trigger, a restore whose log is exactly its clear-then-set notices, and the final notice make up the render effect |
| CollectionViewSrc.RenderLoggedOnce | src/Backbone.CollectionView.js:559 | `render` reports itself exactly once |
| CollectionViewSrc.RenderAnnounces | src/Backbone.CollectionView.js:559-567 | a render announces the cleared and the restored models, ends with `updateDependentControls` on the restored models, and with nothing selected before or after logs just `render` and `updateDependentControls( [] )` |
| CollectionViewSrc.PrunedSelectionSurvivesRender | src/Backbone.CollectionView.js:573-576 | a selection pruned before the render survives it |
| CollectionViewSrc.SetterCidMode | src/Backbone.CollectionView.js:285-287 | cid mode selects the validated argument |
| CollectionViewSrc.SetterCommitted | src/Backbone.CollectionView.js:322-347 | a passing `setSelectedModels` is a commit whose `selectionChanged` carries the new and old models |
| CollectionViewSrc.SetterAtNothingReported | src/Backbone.CollectionView.js:330-347 | a commit from or to the empty selection logs one `selectionChanged` with the models and `updateDependentControls`, exactly when the selection changed |
| CollectionViewSrc.SetterClearReported | src/Backbone.CollectionView.js:358-360 | `setSelectedModels( [] )` on a selectable view passes, selects nothing, and announces the old models exactly when something was selected |
| CollectionViewSrc.SetterOffsetMode | src/Backbone.CollectionView.js:301-317 | offset mode selects exactly the selectable cids on the listed lines |
| CollectionViewSrc.SetterNothing | src/Backbone.CollectionView.js:358-360 | setting nothing selects nothing |
| CollectionViewSrc.UnrenderedRegistry | src/Backbone.CollectionView.js:232-236 | before the first render (no `viewManager`, created at line 402) the view read throws exactly when something is selected, the id setter always throws and the cid setter passes |
| CollectionViewSrc.RenderedViewsReadBack | src/Backbone.CollectionView.js:232-236 | once rendered, the views read for a selection ask by view for exactly the same cids |
| CollectionViewSrc.RenderFallsBackToOffset | src/Backbone.CollectionView.js:373-395 | after a render that lost every selected model, the model now on the saved line is selected |
| CollectionViewSrc.ConfiguredKeepsSelectable | src/Backbone.CollectionView.js:128-168 | only `selectable` switches selection on or off |
| CollectionViewSrc.SingleAfterSelectMultipleOff | src/Backbone.CollectionView.js:137-141 | setting the first selected cid again selects at most one model |
| CollectionViewSrc.OptionStored | src/Backbone.CollectionView.js:160-161 | a plain option is only stored |
| CollectionViewSrc.OptionStoredAndRendered | src/Backbone.CollectionView.js:164 | an option requiring re-rendering is stored, then rendered |
| CollectionViewSrc.CollectionSwapped | src/Backbone.CollectionView.js:130-131 | `setOption( "collection", … )` with a collection stores it and re-renders |
| CollectionViewSrc.OptionRendersIff | src/Backbone.CollectionView.js:128-168 | `setOption` only appends to the log, and renders iff the option requires it |
| CollectionViewSrc.OptionSelection | src/Backbone.CollectionView.js:137-151 | turning off `selectMultiple` leaves at most one selected, turning off `selectable` leaves none, and a new filter prunes |
| CollectionViewSrc.ArrowMove | src/Backbone.CollectionView.js:733-756 | an arrow key selects the neighbouring line, not clamped |
| CollectionViewSrc.SetterReceivedModel | src/Backbone.CollectionView.js:722-731 | setting a received model by model selects its cid alone when the cid names a model that passes the filter, and nothing otherwise, whether or not the add took place |
| CollectionViewSrc.CollectionView.constructor | src/Backbone.CollectionView.js:41-109 | the defaults of `initialize`; nothing is rendered yet and there is no `viewManager` |
| CollectionViewSrc.CollectionView.GetSelectedModels | src/Backbone.CollectionView.js:188-243 | each mode's reading; by view it throws before the first render when something is selected; the throw on an unknown mode |
| CollectionViewSrc.CollectionView.SetSelectedModels | src/Backbone.CollectionView.js:270-349 | the setter effect, with markers kept in agreement; by id it throws before the first render |
| CollectionViewSrc.CollectionView.RequestedCids | src/Backbone.CollectionView.js:282-320 | the `switch`, with the offset loop; id mode throws while there is no `viewManager` |
| CollectionViewSrc.CollectionView.Commit | src/Backbone.CollectionView.js:322-347 | the stored cids, notified with models iff the set changed |
| CollectionViewSrc.CollectionView.SetSelectedModel | src/Backbone.CollectionView.js:351-356 | null or undefined select nothing; anything else is set as a one-item list |
| CollectionViewSrc.CollectionView.SelectNone | src/Backbone.CollectionView.js:358-360 | nothing is selected afterwards |
| CollectionViewSrc.CollectionView.ValidateSelection | src/Backbone.CollectionView.js:622-635 | the selection becomes its validation |
| CollectionViewSrc.CollectionView.GetSelectedModel | src/Backbone.CollectionView.js:184-186 | the first of the reading, failing exactly when the reading fails (by view before the first render with something selected) |
| CollectionViewSrc.CollectionView.BuildList | src/Backbone.CollectionView.js:402-493 | the layout and the registry |
| CollectionViewSrc.CollectionView.SaveSelection | src/Backbone.CollectionView.js:362-371 | saves the cids and the first marked offset |
| CollectionViewSrc.CollectionView.RestoreSelection | src/Backbone.CollectionView.js:373-395 | the saved cids, or the saved offset when no saved cid is left, and the log grows by exactly the clear-then-set notices, announced with models |
| CollectionViewSrc.CollectionView.Reselect | src/Backbone.CollectionView.js:381-392 | restores from the empty selection; the log grows by `selectionChanged` and `updateDependentControls` exactly when something was restored |
| CollectionViewSrc.CollectionView.Render | src/Backbone.CollectionView.js:397-571 | builds the layout and the registry; the log grows by `render`, then the restore's clear-then-set notices announced with models, then `updateDependentControls` with the restored models |
| CollectionViewSrc.CollectionView.Rebuild | src/Backbone.CollectionView.js:402-561 | the list, the registry and the `render` event |
| CollectionViewSrc.CollectionView.RestoreAndNotify | src/Backbone.CollectionView.js:563-567 | the end of the render effect |
| CollectionViewSrc.CollectionView.UpdateDependentControls | src/Backbone.CollectionView.js:582-589 | appends the notification with the selected models |
| CollectionViewSrc.CollectionView.ValidateSelectionAndRender | src/Backbone.CollectionView.js:573-576 | the pruned selection survives the render, and the markers agree with it |
| CollectionViewSrc.CollectionView.CollectionAdd | src/Backbone.CollectionView.js:85-89 | adds the model and renders |
| CollectionViewSrc.CollectionView.CollectionRemove | src/Backbone.CollectionView.js:91-95 | removes the model, prunes the selection and renders |
| CollectionViewSrc.CollectionView.CollectionReset | src/Backbone.CollectionView.js:97-101 | replaces the collection, prunes the selection and renders |
| CollectionViewSrc.CollectionView.SetOption | src/Backbone.CollectionView.js:128-168 | the effect of each allowed option, and the throw on any other; `collection` is given a collection |
| CollectionViewSrc.CollectionView.StoreOption | src/Backbone.CollectionView.js:160-161 | a plain option is stored |
| CollectionViewSrc.CollectionView.StoreAndRender | src/Backbone.CollectionView.js:160-164 | stores the option, then renders |
| CollectionViewSrc.CollectionView.SetSelectMultiple | src/Backbone.CollectionView.js:137-141 | stores the option; turned off with more than one selected, it sets the first cid, not silently, so the log grows by exactly `selectionChanged` with the new and old models and `updateDependentControls`; otherwise nothing else changes |
| CollectionViewSrc.CollectionView.SetSelectable | src/Backbone.CollectionView.js:142-146 | turned off with something selected, it clears the selection, not silently, so the log grows by exactly `selectionChanged` with no new models and the old ones and `updateDependentControls( [] )`; then it stores the option; otherwise nothing else changes |
| CollectionViewSrc.CollectionView.SetSelectableModelsFilter | src/Backbone.CollectionView.js:147-151 | stores the filter, prunes with it and renders |
| CollectionViewSrc.CollectionView.StoreFilter | src/Backbone.CollectionView.js:147-151 | stores the filter and prunes with it |
| CollectionViewSrc.CollectionView.SetCollection | src/Backbone.CollectionView.js:170-182 | the new collection is stored and re-rendered, options untouched |
| CollectionViewSrc.CollectionView.ReorderCollectionBasedOnHtml | src/Backbone.CollectionView.js:658-681 | the collection is reordered from the rows as a permutation, then `reorder` is triggered |
| CollectionViewSrc.CollectionView.RemoveDragged | src/Backbone.CollectionView.js:709-713 | silently removes the dragged model |
| CollectionViewSrc.CollectionView.SortStop | src/Backbone.CollectionView.js:705-720 | a model dropped elsewhere leaves the collection, the rest is reordered, and the notifications follow |
| CollectionViewSrc.CollectionView.ReceiveAsWritten | src/Backbone.CollectionView.js:722-731 | as written, the drop adds and renders (or, on a collision or a model already present, changes nothing), then throws calling a method the view does not have |
| CollectionViewSrc.CollectionView.Receive | src/Backbone.CollectionView.js:722-731 | corrected: the received model is added at the drop index unless a different model shares its id or cid; the setter then runs either way and selects the model's cid exactly when it names a selectable model |
| CollectionViewSrc.CollectionView.OnKeydown | src/Backbone.CollectionView.js:733-756 | with exactly one marked line, an arrow key selects the neighbouring line by offset and is trapped; otherwise nothing changes |
| CollectionViewSrc.CollectionView.OnItemClick | src/Backbone.CollectionView.js:758-824 | a click sets the click request by cid, not silently |
| CollectionViewSrc.CollectionView.OnBackgroundClick | src/Backbone.CollectionView.js:838-843 | on a selectable view a click on the list is `setSelectedModels( [] )`: it clears the selection, and the log grows by `selectionChanged` with the old models and `updateDependentControls` exactly when something was selected; any other click changes nothing |
| VCollectionList.ModelsByReference | vCollectionList.js:128-132 | one entry per selected id |
| VCollectionList.ModelsByReferenceAgree | vCollectionList.js:395-398 | for ids of the collection, `getByCid` finds the same models as `get` |
| VCollectionList.AttributeLookup | vCollectionList.js:468-470 | `_getModelByReferenceId` of a non-empty attribute is the lookup of the reordering walk |
| VCollectionList.ModelSetSelects | vCollectionList.js:213-225 | null or undefined throw; a model selects its own id; anything else matches only a model without an id |
| VCollectionList.ModelsReadBackUnchanged | vCollectionList.js:128-132 | setting the models read back changes nothing |
| VCollectionList.RetagRow | vCollectionList.js:345-349 | retagging keeps visibility and markers |
| VCollectionList.Retagged | vCollectionList.js:343-349 | the same number of rows, each keeping its visibility and marker |
| VCollectionList.TemplateRetagged | vCollectionList.js:336-349 | tagging the template's elements gives the template layout |
| VCollectionList.ModelViewsRetagged | vCollectionList.js:303-349 | retagging model views changes only the rows of `null` ids, which lose their tag |
| VCollectionList.NullIdHasNoLine | vCollectionList.js:343-349 | a model with a `null` id, referenced by id, is left without a tag |
| VCollectionList.RenderedLines | vCollectionList.js:300-349 | with model views or a template, line k carries model k's reference id |
| VCollectionList.RemovedLineSelectsNext | vCollectionList.js:276-298 | after the selected model is removed, the re-render selects the model that followed it, or nothing if it was the last |
| VCollectionList.Retag | vCollectionList.js:343-349 | the tagging loop |
| VCollectionList.CollectionList.constructor | vCollectionList.js:33-88 | options are read with their defaults; nothing is rendered yet |
| VCollectionList.CollectionList.GetSelectedModels | vCollectionList.js:128-132 | the model of each selected id |
| VCollectionList.CollectionList.GetSelectedModelViews | vCollectionList.js:138-149 | the registered view of each selected id |
| VCollectionList.CollectionList.GetSelectedLines | vCollectionList.js:170-191 | the numbers, from 1, of the marked visible lines |
| VCollectionList.CollectionList.SetSelectedItems | vCollectionList.js:197-207 | the setter effect, never silent |
| VCollectionList.CollectionList.Commit | vCollectionList.js:201-206 | the stored ids; `selectionChanged` and the dependent controls iff the set changed |
| VCollectionList.CollectionList.SetSelectedItem | vCollectionList.js:209-211 | the setter on a one-item list |
| VCollectionList.CollectionList.SetSelectedModel | vCollectionList.js:213-215 | the model setter on a one-item list |
| VCollectionList.CollectionList.SetSelectedModels | vCollectionList.js:217-225 | the setter on the models' reference ids |
| VCollectionList.CollectionList.SetSelectedLines | vCollectionList.js:227-243 | the setter on the ids of the listed lines |
| VCollectionList.CollectionList.SetSelectedLine | vCollectionList.js:245-259 | the setter on the clamped line |
| VCollectionList.CollectionList.SelectNone | vCollectionList.js:261-263 | a selectable list ends with nothing selected |
| VCollectionList.CollectionList.SaveSelection | vCollectionList.js:265-274 | saves the ids and the marked lines |
| VCollectionList.CollectionList.RestoreSelection | vCollectionList.js:276-298 | the saved ids, or the saved lines when no saved id is left, and the log grows by exactly the clear-then-set notices, which this revision does not silence |
| VCollectionList.CollectionList.Reselect | vCollectionList.js:282-295 | restores from the empty selection; the log grows by `selectionChanged` and `updateDependentControls` exactly when something was restored |
| VCollectionList.CollectionList.Render | vCollectionList.js:300-377 | model views, a template or the existing children, then tagged; the log grows by `render`, the restore's clear-then-set notices and `updateDependentControls`; throws at a model without a reference id |
| VCollectionList.CollectionList.BuildList | vCollectionList.js:303-335 | the model views and the registry of the models reached |
| VCollectionList.CollectionList.RestoreAndNotify | vCollectionList.js:372-376 | the end of the render effect |
| VCollectionList.CollectionList.Finish | vCollectionList.js:370-376 | after a complete build, the tagged list is shown, `render` is triggered, and a selectable list restores its selection by line and notifies |
| VCollectionList.CollectionList.UpdateDependentControls | vCollectionList.js:386-388 | appends the notification |
| VCollectionList.CollectionList.CollectionAdd | vCollectionList.js:79 | adds the model and renders |
| VCollectionList.CollectionList.CollectionRemove | vCollectionList.js:80 | removes the model and renders without pruning the selection |
| VCollectionList.CollectionList.SetCollection | vCollectionList.js:90-101 | stores the collection and renders |
| VCollectionList.CollectionList.ReorderCollectionBasedOnHtml | vCollectionList.js:461-479 | the collection is reordered from the rows as a permutation, then `reorder` is triggered |
| VCollectionList.CollectionList.SortStop | vCollectionList.js:362-366 | reorders, updates the dependent controls and triggers `sortStop` |
| VCollectionList.CollectionList.OnKeydown | vCollectionList.js:558-581 | with exactly one marked line, an arrow key selects the clamped neighbouring line |
| VCollectionList.CollectionList.OnItemClick | vCollectionList.js:481-542 | a click on a selectable list sets the click request; only the meta key toggles |
| VCollectionList.CollectionList.OnBackgroundClick | vCollectionList.js:551-556 | on a selectable list a click on the list is the setter on `[]`: it clears the selection, and the log grows by `selectionChanged` and `updateDependentControls` exactly when something was selected; any other click changes nothing |

## Left out

- jQuery and the DOM beyond the list's rows: the list is a sequence of rows, each with an item id, a visibility and the `selected` class. Table layout, nested descendants and children other than the list items are not modelled.
- Templates: the item template function and `$.tmpl` are not modelled. A template is assumed to make one element per model. The throw for an item template selector that matches nothing is not modelled.
- Model view constructors and `render()`: a view's render result is the `hides` parameter; `modelViewOptions`, `renderFunction` and `onAfterRender` are not modelled.
- The drag lifecycle of jQuery UI: only `_sortStop` and `_receive` are modelled; `sortStart`, `sortChange` and the `sortable` class and options are not. The drop index and the dragged row's attribute are parameters.
- Backbone.Courier `spawn` messages, focus, `tabindex` and the text-selection clearing after a shift-click: these are side effects outside the selection.
- Double click, `getSelectedModelViewElement(s)` and `triggerAllModelViews`: they only read or trigger events, and never change the selection.
- `emptyListDescriptionView`, `getCollection`, `getListElement` and the other accessors: they only return a field.
- A view passed where a model is expected (`setSelectedModel( view )`): the model has no view values in that position.
- The sender of a drop in `_receive` is a parameter, `fromList`. The received model is a parameter too; the sender's lookup is not modelled.
- `setCollection` does not unbind the old collection's listeners; the model has a single collection, so stale listeners are not modelled.
- Keys of `Object.prototype` in `modelViewsByReferenceId` are not modelled.
- `$.isNumeric` is modelled as an optional minus sign followed by decimal digits. Hexadecimal, exponent, decimal-point and whitespace forms are not modelled.
- The oldest revision takes its arrow key codes from `Rotunda.Constants.CharCodes`, which is not part of this model; they are taken to be 38 and 40, as in the newer revisions.
- An array passed as the clicked id to `_.union` or `_.without` is not modelled: a clicked id is a single value.
- Reading by id and setting again does not in general give back the selection, and no round trip is claimed for it: two unsaved models both have the id `undefined`, so reading a selection of one of them gives `[undefined]`, and setting that by id selects both (lib/collectionView.js:179-182 and 256-260).
- Js.ConvertStringToInt: the loose comparison `parseInt( s, 10 ) == s` also converts strings such as `"+5"`, `" 5"`, `"5 "` and `"5.0"` to numbers, and it rounds numerals above 2^53; the model converts exactly the strings of an optional minus sign and decimal digits, so for example `setSelectedItems( [ "5.0" ] )` is modelled as keeping the string `"5.0"`.
- Numbers are JavaScript doubles; the model's `Number` holds an integer, so fractional ids and values beyond 2^53 are not modelled.
- Underscore.Union: `_.union( selectedItems, clickedItemId )` with a bare value appends it as Underscore up to 1.6 does; Underscore 1.7 and later ignore a non-array argument, so there the toggle click would not add the id.
- The `add` handler runs only after Backbone actually added the model, so each revision's `CollectionAdd` requires a model compatible with the collection; the collision case is handled in `Receive`, where the model is not added and nothing is rendered.
- The oldest revision's `get` is modelled with the newer lookup, which also accepts cids.
- The oldest revision's requirement that `el` be given is not modelled.
- CollectionViewSrc.CollectionView.SetOption: requires a collection as the value of the `collection` option. For any other value, `_setCollection` stores it (src/Backbone.CollectionView.js:173) and then throws at the `bind` on line 175, leaving the view holding a value that the model's list of models cannot represent; that state is not modelled.
- VCollectionList.CollectionList.ReorderCollectionBasedOnHtml: requires every non-empty attribute to name a model. With Backbone 0.9, an unresolved id makes `add` insert a blank model, which is not modelled.
- VCollectionList.CollectionList.SortStop: requires every non-empty attribute to name a model, for the same reason.
- The constructors take the options that bear on selection as parameters; every other option starts at its default (for example `modelView`, `itemTemplate` and `sortable`).
- Clocks, the network and randomness are not used by the core.

## Findings

| source | as written | input that shows it | evidently intended | confidence | as-written member | corrected member |
|---|---|---|---|---|---|---|
| src/Backbone.CollectionView.js:730 | `_receive` calls `this.setSelectedItem`, which this revision no longer defines, so the drop throws a TypeError after the add (and its render, when the model was new) | any drop from another collection view with a collection | `this.setSelectedModel( modelReceived, { by : "model" } )`, which selects the received model | not executed | CollectionViewSrc.CollectionView.ReceiveAsWritten | CollectionViewSrc.CollectionView.Receive |
