/**
 * The ways a selection is read and written besides its raw reference ids:
 * as models, as the views the registry holds for them, and back.
 * A selection of reference ids that all name models of the collection
 * reads back as the same ids through every one of these.
 */
module Addressing {

  import opened Js
  import opened Backbone
  import opened Selection
  import opened Registry

  /** `getSelectedModels()`, the payload of the notifications. */
  function Models(c: seq<Record>, sel: seq<Value>): seq<Value>
  {
    seq(|sel|, i requires 0 <= i < |sel| => ModelOf(c, sel[i]))
  }

  /** `_.pluck( items, "cid" )`: the cid of a model; a property read on
      `null` or `undefined` throws, and anything else has no cid. */
  function PluckCids(items: seq<Value>): Result<seq<Value>>
    decreases |items|
  {
    if items == [] then Success([])
    else
      match PluckCids(items[..|items| - 1])
      case Failure(e) => Failure(e)
      case Success(p) =>
        var x := items[|items| - 1];
        if x.Undefined? || x.Null? then Failure(TypeError)
        else if x.ModelRef? then Success(p + [Str(x.model.cid)])
        else Success(p + [Undefined])
  }

  /** `item.model.cid` for every item: only views have a model. */
  function ViewCids(items: seq<Value>): Result<seq<Value>>
    decreases |items|
  {
    if items == [] then Success([])
    else
      match ViewCids(items[..|items| - 1])
      case Failure(e) => Failure(e)
      case Success(p) =>
        var x := items[|items| - 1];
        if x.ViewRef? then Success(p + [Str(x.view.model.cid)]) else Failure(TypeError)
  }

  /** `viewManager.findByModel( collection.get( item ) )` for every
      selected cid. */
  function ViewsOfSelection(c: seq<Record>, views: seq<ItemView>, sel: seq<Value>): Result<seq<Value>>
    decreases |sel|
  {
    if sel == [] then Success([])
    else
      match ViewsOfSelection(c, views, sel[..|sel| - 1])
      case Failure(e) => Failure(e)
      case Success(p) =>
        match Get(c, sel[|sel| - 1])
        case None => Failure(TypeError)
        case Some(m) =>
          match FindByModel(views, m)
          case None => Success(p + [Undefined])
          case Some(v) => Success(p + [ViewRef(v)])
  }

  /** A selection of cids that all name models of `c`. */
  predicate CidsOf(c: seq<Record>, sel: seq<Value>)
  {
    forall x | x in sel :: x in RefIds(c, true)
  }

  /** A cid of `c` reads back as its model, whose cid it is. */
  lemma CidModel(c: seq<Record>, x: Value) returns (m: Record)
    requires WellFormed(c) && x in RefIds(c, true)
    ensures m in c && x == Str(m.cid) && ModelOf(c, x) == ModelRef(m) && Get(c, x) == Some(m)
  {
    var k :| 0 <= k < |c| && RefIds(c, true)[k] == x;
    m := c[k];
    GetRefId(c, m, true);
  }

  /** Reading the selection as models and setting those models again
      gives back the same cids. */
  lemma {:induction false} ModelModeRoundTrip(c: seq<Record>, sel: seq<Value>)
    requires WellFormed(c) && CidsOf(c, sel)
    ensures PluckCids(Models(c, sel)) == Success(sel)
    decreases |sel|
  {
    if sel != [] {
      var s' := sel[..|sel| - 1];
      var x := sel[|sel| - 1];
      var items := Models(c, sel);
      assert items[..|items| - 1] == Models(c, s');
      assert CidsOf(c, s') by { LastSplit(sel); }
      ModelModeRoundTrip(c, s');
      var m := CidModel(c, x);
      assert items[|items| - 1] == ModelRef(m);
      assert s' + [x] == sel by { LastSplit(sel); }
    }
  }

  /** Reading the selection as views of a freshly rendered list and
      setting those views again gives back the same cids. */
  lemma {:induction false} ViewModeRoundTrip(c: seq<Record>, sel: seq<Value>)
    requires WellFormed(c) && CidsOf(c, sel)
    ensures ViewsOfSelection(c, ViewsOf(c), sel).Success?
    ensures ViewCids(ViewsOfSelection(c, ViewsOf(c), sel).value) == Success(sel)
    decreases |sel|
  {
    if sel != [] {
      var s' := sel[..|sel| - 1];
      var x := sel[|sel| - 1];
      assert CidsOf(c, s') by { LastSplit(sel); }
      ViewModeRoundTrip(c, s');
      var m := CidModel(c, x);
      FindByModelAfterRender(c, m);
      var p := ViewsOfSelection(c, ViewsOf(c), s').value;
      var q := p + [ViewRef(ItemView(m))];
      assert ViewsOfSelection(c, ViewsOf(c), sel) == Success(q);
      assert q[..|q| - 1] == p;
      assert s' + [x] == sel by { LastSplit(sel); }
    }
  }

  /** A model received from another list, set by model, is the whole
      selection when its cid names a model of the collection that passes
      the filter, and nothing is selected otherwise; the cid of a model
      of the collection always names one. */
  lemma ReceivedModelSelected(c: seq<Record>, m: Record, f: Option<Value -> bool>)
    requires !IsNumeral(m.cid)
    ensures PluckCids([ModelRef(m)]) == Success([Str(m.cid)])
    ensures Validate(c, ConvertStringsToInts([Str(m.cid)]), true, f)
            == if Str(m.cid) in RefIds(c, true) && Selectable(c, Str(m.cid), f) then [Str(m.cid)] else []
    ensures m in c ==> Str(m.cid) in RefIds(c, true)
  {
    PluckOneModel(m);
    ConvertOne(Str(m.cid));
    if m in c {
      RefIdInCollection(c, m, true);
    }
    if Str(m.cid) in RefIds(c, true) {
      ValidateSingle(c, Str(m.cid), true, f);
    } else {
      ValidateGone(c, Str(m.cid), true, f);
    }
  }

  lemma PluckOneModel(m: Record)
    ensures PluckCids([ModelRef(m)]) == Success([Str(m.cid)])
  {
    var one := [ModelRef(m)];
    assert one[..0] == [] && one[0] == ModelRef(m);
    assert PluckCids(one[..0]) == Success([]);
    assert [] + [Str(m.cid)] == [Str(m.cid)];
  }
}
