/**
 * `_listItem_onClick`, common to every revision: which item was clicked,
 * and the list of reference ids the handler hands to the selection
 * setter. A shift-click selects the models between the anchor (the first
 * selected model in collection order) and the clicked model; a toggle
 * click flips the clicked id; a plain click selects the clicked id alone;
 * a click outside every item clears the selection.
 */
module Clicks {

  import opened Js
  import opened Underscore
  import opened Backbone
  import opened Selection

  /** A click as the handler sees it: whether the clicked element lies in
      this list (and not in a nested one), the `data-item-id` of the
      closest tagged ancestor, if any, and the modifier keys. */
  datatype Click = Click(inThisList: bool, itemAttr: Option<string>, shiftKey: bool, metaKey: bool)

  /** `_getClickedItemId`: `undefined` for a click that belongs to another
      list, `null` for one outside every item, else the attribute, parsed
      to a number when it is numeric. */
  function ClickedId(click: Click): Value
  {
    if !click.inThisList then Undefined
    else if click.itemAttr.None? then Null
    else ClickedItemId(click.itemAttr.value)
  }

  /** A row tagged with `String( id )` reports `id` again when clicked,
      for every id that is a number or a string that is not numeric. */
  lemma ClickedIdOfRow(id: Value, shiftKey: bool, metaKey: bool)
    requires id.Number? || (id.Str? && !IsNumeral(id.s))
    ensures ClickedId(Click(true, Some(Text(id)), shiftKey, metaKey)) == id
  {
    if id.Number? {
      IntTextRoundTrip(id.n);
    }
  }

  /** `firstSelectedItemIndex`: -1 when nothing is selected, else the
      counter of the `find` for the first model whose reference id is
      selected. */
  function AnchorIndex(c: seq<Record>, sel: seq<Value>, byCid: bool): int
  {
    if |sel| > 0 then FindCounter(c, m => RefId(m, byCid) in sel) else -1
  }

  /** `clickedItemIndex`: the counter of the `find` for the first model
      whose reference id is loosely equal (`==`) to the clicked id. */
  function ClickedIndex(c: seq<Record>, clicked: Value, byCid: bool): int
  {
    FindCounter(c, m => LooseEquals(RefId(m, byCid), clicked))
  }

  function Min(a: int, b: int): int { if a <= b then a else b }

  function Max(a: int, b: int): int { if a <= b then b else a }

  /** The first and last collection index of a shift-click range. */
  function ShiftBounds(c: seq<Record>, sel: seq<Value>, clicked: Value, byCid: bool): (int, int)
  {
    var a := AnchorIndex(c, sel, byCid);
    var k := ClickedIndex(c, clicked, byCid);
    var root := if a == -1 then k else a;
    (Min(k, root), Max(k, root))
  }

  /** The reference ids the `for` loop pushes for indices `lo..hi`;
      `collection.at` past either end gives `undefined`, and reading its
      reference id throws. */
  function RangeIds(c: seq<Record>, lo: int, hi: int, byCid: bool): Result<seq<Value>>
  {
    if lo > hi then Success([])
    else if lo < 0 || hi >= |c| then Failure(TypeError)
    else Success(RefIds(c[lo..hi + 1], byCid))
  }

  lemma RefIdsSliceStep(c: seq<Record>, lo: int, i: int, byCid: bool)
    requires 0 <= lo <= i < |c|
    ensures RefIds(c[lo..i + 1], byCid) == RefIds(c[lo..i], byCid) + [RefId(c[i], byCid)]
  {
    var l := RefIds(c[lo..i + 1], byCid);
    var r := RefIds(c[lo..i], byCid) + [RefId(c[i], byCid)];
    forall k | 0 <= k < |l| ensures l[k] == r[k] {
      if k < i - lo {
        assert c[lo..i + 1][k] == c[lo..i][k];
      }
    }
  }

  /** The loop itself. */
  method CollectRange(c: seq<Record>, lo: int, hi: int, byCid: bool) returns (r: Result<seq<Value>>)
    ensures r == RangeIds(c, lo, hi, byCid)
  {
    if lo > hi {
      return Success([]);
    }
    var items: seq<Value> := [];
    var i := lo;
    while i <= hi
      invariant lo <= i <= hi + 1
      invariant i == lo || (0 <= lo && i <= |c|)
      invariant i == lo ==> items == []
      invariant i > lo ==> items == RefIds(c[lo..i], byCid)
      decreases hi - i
    {
      var m := At(c, i);
      if m.None? {
        return Failure(TypeError);
      }
      RefIdsSliceStep(c, lo, i, byCid);
      items := items + [RefId(m.value, byCid)];
      i := i + 1;
    }
    return Success(items);
  }

  /** `_.without` or `_.union` of the clicked id: its membership flips and
      nothing else changes. */
  function Toggled(sel: seq<Value>, id: Value): (r: seq<Value>)
    ensures forall x :: x in r <==> (if x == id then x !in sel else x in sel)
    ensures NoDup(sel) ==> NoDup(r)
  {
    if id in sel then Without(sel, id) else Union(sel, id)
  }

  /** The list the click handler passes to the setter. `toggle` is
      `clickToToggle || metaKey` (only `metaKey` in the oldest revision). */
  function ClickRequest(c: seq<Record>, sel: seq<Value>, byCid: bool, selectMultiple: bool, toggle: bool, click: Click): Result<seq<Value>>
  {
    var id := ClickedId(click);
    if !Truthy(id) then Success([])
    else if selectMultiple && click.shiftKey then
      var (lo, hi) := ShiftBounds(c, sel, id, byCid);
      RangeIds(c, lo, hi, byCid)
    else if selectMultiple && toggle then Success(Toggled(sel, id))
    else Success([id])
  }

  /** The handler's computation of that list, with the range loop. */
  method ClickedItems(c: seq<Record>, sel: seq<Value>, byCid: bool, selectMultiple: bool, toggle: bool, click: Click) returns (r: Result<seq<Value>>)
    ensures r == ClickRequest(c, sel, byCid, selectMultiple, toggle, click)
  {
    var id := ClickedId(click);
    if !Truthy(id) {
      r := Success([]);
    } else if selectMultiple && click.shiftKey {
      var (lo, hi) := ShiftBounds(c, sel, id, byCid);
      r := CollectRange(c, lo, hi, byCid);
    } else if selectMultiple && toggle {
      r := Success(Toggled(sel, id));
    } else {
      r := Success([id]);
    }
  }

  /** The anchor is the first model, in collection order, whose reference
      id is selected; when no model's is, the counter runs to the end. */
  lemma AnchorIsFirstSelected(c: seq<Record>, sel: seq<Value>, byCid: bool, a: int)
    requires 0 <= a < |c| && RefId(c[a], byCid) in sel
    requires forall j | 0 <= j < a :: RefId(c[j], byCid) !in sel
    ensures AnchorIndex(c, sel, byCid) == a
  {
    FindCounterSpec(c, m => RefId(m, byCid) in sel);
  }

  lemma ClickedIsFirstMatch(c: seq<Record>, clicked: Value, byCid: bool, k: int)
    requires 0 <= k < |c| && LooseEquals(RefId(c[k], byCid), clicked)
    requires forall j | 0 <= j < k :: !LooseEquals(RefId(c[j], byCid), clicked)
    ensures ClickedIndex(c, clicked, byCid) == k
  {
    FindCounterSpec(c, m => LooseEquals(RefId(m, byCid), clicked));
  }

  /** The bounds of a shift-click range: the clicked index `k` and the
      anchor `a` (the first selected model, or `k` when nothing is
      selected), in increasing order. */
  lemma ShiftBoundsSpec(c: seq<Record>, sel: seq<Value>, id: Value, byCid: bool, k: int, a: int)
    requires 0 <= k < |c| && LooseEquals(RefId(c[k], byCid), id)
    requires forall j | 0 <= j < k :: !LooseEquals(RefId(c[j], byCid), id)
    requires sel == [] ==> a == k
    requires sel != [] ==> 0 <= a < |c| && RefId(c[a], byCid) in sel
    requires forall j | 0 <= j < a :: RefId(c[j], byCid) !in sel
    ensures ShiftBounds(c, sel, id, byCid) == (Min(k, a), Max(k, a))
  {
    ClickedIsFirstMatch(c, id, byCid, k);
    if sel != [] {
      AnchorIsFirstSelected(c, sel, byCid, a);
    }
  }

  /** Shift-click: the request is the reference ids of the models from the
      lower to the higher of the clicked index and the anchor, inclusive. */
  lemma ShiftClickRange(c: seq<Record>, sel: seq<Value>, byCid: bool, toggle: bool, click: Click, k: int, a: int)
    requires click.shiftKey && Truthy(ClickedId(click))
    requires 0 <= k < |c| && LooseEquals(RefId(c[k], byCid), ClickedId(click))
    requires forall j | 0 <= j < k :: !LooseEquals(RefId(c[j], byCid), ClickedId(click))
    requires sel == [] ==> a == k
    requires sel != [] ==> 0 <= a < |c| && RefId(c[a], byCid) in sel
    requires forall j | 0 <= j < a :: RefId(c[j], byCid) !in sel
    ensures ClickRequest(c, sel, byCid, true, toggle, click) == Success(RefIds(c[Min(k, a)..Max(k, a) + 1], byCid))
  {
    ShiftBoundsSpec(c, sel, ClickedId(click), byCid, k, a);
  }

  /** The models a shift-click selects once the request is validated:
      exactly the selectable models between the two indices. */
  lemma RangeSelection(c: seq<Record>, lo: int, hi: int, byCid: bool, filter: Option<Value -> bool>)
    requires WellFormed(c) && HasRefIds(c, byCid) && Unconvertible(RefIds(c, byCid))
    requires 0 <= lo <= hi < |c|
    ensures forall j | 0 <= j < |c| ::
              RefId(c[j], byCid) in Validate(c, ConvertStringsToInts(RefIds(c[lo..hi + 1], byCid)), byCid, filter)
              <==> lo <= j <= hi && Selectable(c, RefId(c[j], byCid), filter)
  {
    SliceIds(c, lo, hi, byCid);
  }

  /** The reference ids of a slice are unchanged by the conversion, and a
      model's reference id is among them exactly when the model is in the
      slice. */
  lemma SliceIds(c: seq<Record>, lo: int, hi: int, byCid: bool)
    requires WellFormed(c) && HasRefIds(c, byCid) && Unconvertible(RefIds(c, byCid))
    requires 0 <= lo <= hi < |c|
    ensures ConvertStringsToInts(RefIds(c[lo..hi + 1], byCid)) == RefIds(c[lo..hi + 1], byCid)
    ensures forall j | 0 <= j < |c| :: RefId(c[j], byCid) in RefIds(c, byCid)
    ensures forall j | 0 <= j < |c| :: RefId(c[j], byCid) in RefIds(c[lo..hi + 1], byCid) <==> lo <= j <= hi
  {
    RefIdsDistinct(c, byCid);
    SliceUnconvertible(c, lo, hi, byCid);
    SliceMembership(c, lo, hi, byCid);
  }

  lemma SliceUnconvertible(c: seq<Record>, lo: int, hi: int, byCid: bool)
    requires Unconvertible(RefIds(c, byCid))
    requires 0 <= lo <= hi < |c|
    ensures ConvertStringsToInts(RefIds(c[lo..hi + 1], byCid)) == RefIds(c[lo..hi + 1], byCid)
  {
    var ids := RefIds(c, byCid);
    var range := RefIds(c[lo..hi + 1], byCid);
    forall x | x in range ensures !(x.Str? && IsNumeral(x.s)) {
      var i :| 0 <= i < |range| && range[i] == x;
      assert x == ids[lo + i];
    }
    ConvertUnconvertible(range);
  }

  lemma SliceMembership(c: seq<Record>, lo: int, hi: int, byCid: bool)
    requires NoDup(RefIds(c, byCid))
    requires 0 <= lo <= hi < |c|
    ensures forall j | 0 <= j < |c| :: RefId(c[j], byCid) in RefIds(c, byCid)
    ensures forall j | 0 <= j < |c| :: RefId(c[j], byCid) in RefIds(c[lo..hi + 1], byCid) <==> lo <= j <= hi
  {
    var ids := RefIds(c, byCid);
    var range := RefIds(c[lo..hi + 1], byCid);
    forall j | 0 <= j < |c| ensures RefId(c[j], byCid) in ids {
      assert ids[j] == RefId(c[j], byCid);
    }
    forall j | 0 <= j < |c| ensures ids[j] in range <==> lo <= j <= hi {
      if lo <= j <= hi {
        assert range[j - lo] == ids[j];
      }
      if ids[j] in range {
        var i :| 0 <= i < |range| && range[i] == ids[j];
        assert range[i] == ids[lo + i];
      }
    }
  }

  /** A plain click on the row of model `c[k]` selects that model alone,
      when it is selectable, and nothing otherwise. */
  lemma PlainClickSelectsRow(c: seq<Record>, sel: seq<Value>, byCid: bool, selectMultiple: bool, toggle: bool,
                             k: int, filter: Option<Value -> bool>)
    requires WellFormed(c) && HasRefIds(c, byCid) && Unconvertible(RefIds(c, byCid))
    requires 0 <= k < |c| && Truthy(RefId(c[k], byCid))
    requires !(selectMultiple && toggle)
    ensures var click := Click(true, Some(Text(RefId(c[k], byCid))), false, false);
            var id := RefId(c[k], byCid);
            ClickRequest(c, sel, byCid, selectMultiple, toggle, click) == Success([id])
            && Validate(c, ConvertStringsToInts([id]), byCid, filter)
               == (if Selectable(c, id, filter) then [id] else [])
  {
    var id := RefId(c[k], byCid);
    RowRefId(c, byCid, k);
    PlainClickRequest(c, sel, byCid, selectMultiple, toggle, id);
    ConvertUnconvertible([id]);
    ValidateSingle(c, id, byCid, filter);
  }

  /** The reference id of a row of a well-formed collection is a number or
      a string that is not numeric. */
  lemma RowRefId(c: seq<Record>, byCid: bool, k: int)
    requires WellFormed(c) && HasRefIds(c, byCid) && Unconvertible(RefIds(c, byCid))
    requires 0 <= k < |c|
    ensures var id := RefId(c[k], byCid);
            id in RefIds(c, byCid) && (id.Number? || (id.Str? && !IsNumeral(id.s)))
  {
    var id := RefId(c[k], byCid);
    assert id == RefIds(c, byCid)[k];
    assert c[k] in c;
  }

  /** A plain click on the row tagged with `id` asks for `[id]`. */
  lemma PlainClickRequest(c: seq<Record>, sel: seq<Value>, byCid: bool, selectMultiple: bool, toggle: bool, id: Value)
    requires id.Number? || (id.Str? && !IsNumeral(id.s))
    requires Truthy(id) && !(selectMultiple && toggle)
    ensures ClickRequest(c, sel, byCid, selectMultiple, toggle, Click(true, Some(Text(id)), false, false)) == Success([id])
  {
    ClickedIdOfRow(id, false, false);
  }

  /** With persistent ids as references, a model whose id is 0 gets the
      attribute "0"; the click handler parses it to the number 0, which is
      falsy, and treats the click as one on the background. */
  lemma ClickOnIdZeroClears(c: seq<Record>, sel: seq<Value>, selectMultiple: bool, toggle: bool, shiftKey: bool, metaKey: bool)
    ensures ClickRequest(c, sel, false, selectMultiple, toggle, Click(true, Some(Text(Number(0))), shiftKey, metaKey)) == Success([])
  {
    IntTextRoundTrip(0);
  }
}
