/**
 * The selection setters of the revisions that count the visible lines
 * from 1 (collectionView.js and vCollectionList.js): setting by models,
 * by line numbers and by one clamped line, with what each selects.
 */
module NumberedLines {

  import opened Js
  import opened Underscore
  import opened Backbone
  import opened Dom
  import opened Selection
  import opened Commits
  import opened Addressing
  import opened LineAddressing
  import opened SelectedItems

  /** `getSelectedLines` counts the visible items from 1. */
  const FirstLine := 1

  /** `setSelectedModels( models )` (with `{ silent : silent }` in the
      classic revision; the oldest never is silent): the argument must be
      an array, and reading the reference id of `null` or
      `undefined` throws, both before the selectable check. */
  predicate ModelsSet(selectable: bool, c: seq<Record>, byCid: bool, f: Option<Value -> bool>,
                      before: Snapshot, models: Value, silent: bool, out: Outcome, after: Snapshot)
  {
    if !models.Arr? then out == Fail(InvalidParameter) && after == before
    else match ReferencesOf(models.elems, byCid)
      case Failure(e) => out == Fail(e) && after == before
      case Success(refs) => ItemsSet(selectable, c, byCid, f, before, Arr(refs), silent, out, after)
  }

  /** `setSelectedLines( lines )`: the ids of the visible lines, counted
      from 1, whose numbers are listed. */
  predicate LinesSet(selectable: bool, c: seq<Record>, byCid: bool, f: Option<Value -> bool>,
                     before: Snapshot, lines: Value, silent: bool, out: Outcome, after: Snapshot)
  {
    if !lines.Arr? then out == Fail(InvalidParameter) && after == before
    else ItemsSet(selectable, c, byCid, f, before, Arr(ItemsAtLines(Attrs(Lines(before.rows)), lines.elems, FirstLine)),
                  silent, out, after)
  }

  /** The line `setSelectedLine( line, constrain )` asks for: clamped to
      the visible lines unless `autoContrainToList` is given and falsy. */
  function LineAskedFor(line: int, constrain: Value, rows: seq<Row>): int
  {
    if constrain.Undefined? || Truthy(constrain) then ClampLine(line, |Lines(rows)|) else line
  }

  /** Setting the models read with `getSelectedModels` again is a no-op
      when the selection was validated: the selection, the list and the
      log stay as they are. */
  lemma ModelsSetBackUnchanged(c: seq<Record>, byCid: bool, f: Option<Value -> bool>, s: seq<Value>,
                               before: Snapshot, silent: bool, out: Outcome, after: Snapshot)
    requires WellFormed(c) && HasRefIds(c, byCid) && Unconvertible(s)
    requires before.sel == Validate(c, s, byCid, f)
    requires ModelsSet(true, c, byCid, f, before, Arr(Models(c, before.sel)), silent, out, after)
    ensures out == Pass && after == before
  {
    ModelsByRefRoundTrip(c, before.sel, byCid);
    ConvertUnconvertible(before.sel);
    ValidateIdempotent(c, s, byCid, f);
    ChangedIffSetsDiffer(before.sel, after.sel);
  }

  /** `setSelectedLines` selects exactly the ids of the collection,
      passing the filter, that the listed lines carry. */
  lemma LinesSelect(c: seq<Record>, byCid: bool, f: Option<Value -> bool>, before: Snapshot,
                    lines: seq<Value>, silent: bool, out: Outcome, after: Snapshot)
    requires LinesSet(true, c, byCid, f, before, Arr(lines), silent, out, after)
    ensures out == Pass
    ensures after.sel == AtLines(c, byCid, f, Attrs(Lines(before.rows)), lines, FirstLine)
    ensures forall x :: x in after.sel <==>
              && x in RefIds(c, byCid) && Selectable(c, x, f)
              && exists k :: 0 <= k < |Lines(before.rows)| && Number(FirstLine + k) in lines
                             && ConvertStringToInt(Attrs(Lines(before.rows))[k]) == x
  {
    AtLinesSpec(c, byCid, f, Attrs(Lines(before.rows)), lines, FirstLine);
  }

  /** Reading the selected lines and setting them again asks for the
      attributes of exactly the marked lines. */
  lemma LinesRead(rows: seq<Row>)
    ensures ItemsAtLines(Attrs(Lines(rows)), MarkedLines(Lines(rows), FirstLine), FirstLine) == MarkedAttrs(Lines(rows))
  {
    LinesRoundTrip(Lines(rows), FirstLine);
  }

  /** Reading the selected lines and setting them again gives back the
      same selection, with no notification, when exactly the selected rows
      carry the `selected` class and every selected id is shown on a
      visible row. A hidden selected row is not read, so it would be lost. */
  lemma LinesReadThenSet(c: seq<Record>, byCid: bool, f: Option<Value -> bool>, before: Snapshot,
                         silent: bool, out: Outcome, after: Snapshot)
    requires WellFormed(c) && HasRefIds(c, byCid)
    requires before.sel == Validate(c, before.sel, byCid, f) && Unconvertible(before.sel)
    requires MarkersAgree(before.rows, before.sel)
    requires forall x | x in before.sel :: exists r | r in before.rows :: r.visible && r.itemId == Some(Text(x))
    requires LinesSet(true, c, byCid, f, before, Arr(MarkedLines(Lines(before.rows), FirstLine)), silent, out, after)
    ensures out == Pass && after.sel == before.sel && after.log == before.log
  {
    var lines := MarkedLines(Lines(before.rows), FirstLine);
    LinesSelect(c, byCid, f, before, lines, silent, out, after);
    forall x | x in before.sel
      ensures x.Number? || (x.Str? && !IsNumeral(x.s))
    {
      var k :| 0 <= k < |c| && RefIds(c, byCid)[k] == x;
      assert c[k] in c;
    }
    LinesReadBack(c, byCid, f, before.rows, before.sel, FirstLine);
    ItemsSetProperties(true, c, byCid, f, before, Arr(ItemsAtLines(Attrs(Lines(before.rows)), lines, FirstLine)),
                       silent, out, after);
  }

  /** With the line clamped, a list with any visible line always has the
      line asked for: `setSelectedLine` selects the validated id of a
      line that exists, and never clears the selection for being out of
      range. */
  lemma ClampedLineSelects(c: seq<Record>, byCid: bool, f: Option<Value -> bool>, before: Snapshot,
                           n: int, silent: bool, out: Outcome, after: Snapshot)
    requires |Lines(before.rows)| > 0
    requires LinesSet(true, c, byCid, f, before, Arr([Number(ClampLine(n, |Lines(before.rows)|))]), silent, out, after)
    ensures out == Pass
    ensures var l := ClampLine(n, |Lines(before.rows)|);
            && FirstLine <= l < FirstLine + |Lines(before.rows)|
            && after.sel == Validate(c, ConvertStringsToInts([Attrs(Lines(before.rows))[l - FirstLine]]), byCid, f)
  {
    var attrs := Attrs(Lines(before.rows));
    var l := ClampLine(n, |Lines(before.rows)|);
    assert after.sel == AtLines(c, byCid, f, attrs, [Number(l)], FirstLine);
    LineInRange(c, byCid, f, attrs, l, FirstLine);
  }
}
