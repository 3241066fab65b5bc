/**
 * What every revision's selection setter does once the new selection is
 * known, stated over a snapshot of the view: the selection, the rendered
 * list and the log of triggered notifications. Also the shape of the log
 * that the composite operations (`render`, the restore) keep: they only
 * ever append to it.
 */
module Commits {

  import opened Js
  import opened Underscore
  import opened Dom
  import opened Selection

  /** The selection, the rendered list and the log, taken together. */
  datatype Snapshot = Snapshot(sel: seq<Value>, rows: seq<Row>, log: seq<Event>)

  /** `_.first( s )`: `undefined` for an empty list. */
  function FirstOr(s: seq<Value>): Value
  {
    if s == [] then Undefined else s[0]
  }

  /** The end of every setter: nothing more when the set of ids is
      unchanged (`_containSameElements`); otherwise the markers are
      updated (`_addSelectedClassToSelectedItems`) and the notifications
      `selectionChanged` (unless silent) and `updateDependentControls` are
      appended. Each revision passes the payloads it triggers with. */
  predicate Committed(before: Snapshot, after: Snapshot, silent: bool, selectionChanged: Event, updateDependentControls: Event)
  {
    if ContainSameElements(before.sel, after.sel) then
      after.rows == before.rows && after.log == before.log
    else
      && after.rows == Remark(before.rows, before.sel, after.sel)
      && after.log == before.log + Notice(true, silent, selectionChanged, updateDependentControls)
  }

  /** `after` is `before` with notifications appended, none of them a
      `render`. */
  predicate Appended(before: seq<Event>, after: seq<Event>)
  {
    |after| >= |before| && after[..|before|] == before && Event.Render !in after[|before|..]
  }

  lemma AppendedTrans(a: seq<Event>, b: seq<Event>, c: seq<Event>)
    requires Appended(a, b) && Appended(b, c)
    ensures Appended(a, c)
  {
    assert c[..|a|] == b[..|a|];
    assert c[|a|..] == b[|a|..] + c[|b|..];
  }

  /** Committing from or to the empty selection reports exactly whether
      the selection changed. */
  lemma CommittedAtNothing(before: Snapshot, after: Snapshot, silent: bool, sc: Event, udc: Event)
    requires before.sel == [] || after.sel == []
    requires Committed(before, after, silent, sc, udc)
    ensures after.log == before.log + Notice(before.sel != after.sel, silent, sc, udc)
  {
  }

  lemma AppendOne(l0: seq<Event>, l1: seq<Event>, e: Event)
    requires Appended(l0, l1) && e != Event.Render
    ensures Appended(l0, l1 + [e])
  {
    assert (l1 + [e])[..|l0|] == l0;
    assert (l1 + [e])[|l0|..] == l1[|l0|..] + [e];
  }

  /** A commit only ever appends to the log, and appends exactly when the
      set of selected ids changed; it changes nothing in the list but the
      markers, and leaves the markers showing the new selection whenever
      they showed the old one, or only rows of the old one were marked and
      the set changed. */
  lemma CommitProperties(before: Snapshot, after: Snapshot, silent: bool, sc: Event, udc: Event)
    requires NoDup(before.sel) && NoDup(after.sel)
    requires sc != Event.Render && udc != Event.Render
    requires Committed(before, after, silent, sc, udc)
    ensures Appended(before.log, after.log)
    ensures after.log != before.log <==> Elems(after.sel) != Elems(before.sel)
    ensures SameUpToMarks(after.rows, before.rows)
    ensures MarkersAgree(before.rows, before.sel) ==> MarkersAgree(after.rows, after.sel)
    ensures MarkedWithin(before.rows, before.sel) && Elems(after.sel) != Elems(before.sel)
            ==> MarkersAgree(after.rows, after.sel)
  {
    ChangedIffSetsDiffer(before.sel, after.sel);
    if ContainSameElements(before.sel, after.sel) {
      assert before.rows == after.rows;
      if MarkersAgree(before.rows, before.sel) {
        AgreeSameSet(before.rows, before.sel, after.sel);
      }
    } else {
      assert after.log[..|before.log|] == before.log;
      assert after.log[|before.log|..] == Notice(true, silent, sc, udc);
      if MarkedWithin(before.rows, before.sel) {
        RemarkAgrees(before.rows, before.sel, after.sel);
      }
    }
  }
}
