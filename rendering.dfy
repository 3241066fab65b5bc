/**
 * The list `render` builds, common to every revision: one element per
 * model in collection order, tagged with the model's reference id, shown
 * or hidden by the model view and the visibility filter, and, in the
 * latest revision, followed by an empty-list caption.
 */
module Rendering {

  import opened Js
  import opened Backbone
  import opened Dom

  /** The `data-item-id` a model's element carries. A model view is
      wrapped in `<li data-item-id='...'>`, which writes `String( id )`;
      an item template is tagged with `.attr( "data-item-id", id )`, which
      for `undefined` only reads the attribute and for `null` removes it. */
  function Tag(ref: Value, templated: bool): Option<string>
  {
    if templated && !Defined(ref) then None else Some(Text(ref))
  }

  /** The element of one model. With an item template every element is
      shown; a model view is hidden when its `render` returns `false` or
      `visibleModelsFilter` rejects the model. */
  function ItemRow(m: Record, byCid: bool, templated: bool, hides: Value -> bool, visible: Option<Value -> bool>): Row
  {
    Row(Tag(RefId(m, byCid), templated),
        templated || (!hides(ModelRef(m)) && (visible.None? || visible.value(ModelRef(m)))),
        false)
  }

  /** One element per model, in collection order. */
  function ItemRows(c: seq<Record>, byCid: bool, templated: bool, hides: Value -> bool, visible: Option<Value -> bool>): (rows: seq<Row>)
    ensures |rows| == |c|
    decreases |c|
  {
    if c == [] then []
    else ItemRows(c[..|c| - 1], byCid, templated, hides, visible) + [ItemRow(c[|c| - 1], byCid, templated, hides, visible)]
  }

  /** No element is visible. */
  predicate NoneVisible(rows: seq<Row>)
  {
    forall k | 0 <= k < |rows| :: !rows[k].visible
  }

  /** The list `render` builds: the elements of the models, then the
      empty-list caption (which carries no `data-item-id`) when a caption
      is set and no element is visible. */
  function Built(c: seq<Record>, byCid: bool, templated: bool, hides: Value -> bool, visible: Option<Value -> bool>, caption: bool): seq<Row>
  {
    var items := ItemRows(c, byCid, templated, hides, visible);
    if caption && NoneVisible(items) then items + [Row(None, true, false)] else items
  }

  /** The caption is never counted as a line. */
  lemma CaptionNotCounted(items: seq<Row>)
    ensures Lines(items + [Row(None, true, false)]) == Lines(items)
  {
    assert (items + [Row(None, true, false)])[..|items|] == items;
  }

  /** Nothing is marked in a freshly built list. */
  lemma BuiltUnmarked(c: seq<Record>, byCid: bool, templated: bool, hides: Value -> bool, visible: Option<Value -> bool>, caption: bool)
    ensures Unmarked(Built(c, byCid, templated, hides, visible, caption))
  {
    ItemRowsUnmarked(c, byCid, templated, hides, visible);
  }

  lemma {:induction false} ItemRowsUnmarked(c: seq<Record>, byCid: bool, templated: bool, hides: Value -> bool, visible: Option<Value -> bool>)
    ensures Unmarked(ItemRows(c, byCid, templated, hides, visible))
    decreases |c|
  {
    if c != [] {
      ItemRowsUnmarked(c[..|c| - 1], byCid, templated, hides, visible);
    }
  }

  /** The attributes of the models whose element is shown and tagged, in
      collection order. */
  function VisibleTags(c: seq<Record>, byCid: bool, templated: bool, hides: Value -> bool, visible: Option<Value -> bool>): seq<Value>
    decreases |c|
  {
    if c == [] then []
    else
      var p := VisibleTags(c[..|c| - 1], byCid, templated, hides, visible);
      var r := ItemRow(c[|c| - 1], byCid, templated, hides, visible);
      if r.visible && r.itemId.Some? then p + [Str(r.itemId.value)] else p
  }

  /** Hidden models have no line: the lines of a built list carry the
      tags of the visible models, in collection order. */
  lemma BuiltLines(c: seq<Record>, byCid: bool, templated: bool, hides: Value -> bool, visible: Option<Value -> bool>, caption: bool)
    ensures Attrs(Lines(Built(c, byCid, templated, hides, visible, caption)))
            == VisibleTags(c, byCid, templated, hides, visible)
  {
    var items := ItemRows(c, byCid, templated, hides, visible);
    if caption && NoneVisible(items) {
      CaptionNotCounted(items);
    }
    ItemLines(c, byCid, templated, hides, visible);
  }

  lemma {:induction false} ItemLines(c: seq<Record>, byCid: bool, templated: bool, hides: Value -> bool, visible: Option<Value -> bool>)
    ensures Attrs(Lines(ItemRows(c, byCid, templated, hides, visible))) == VisibleTags(c, byCid, templated, hides, visible)
    decreases |c|
  {
    if c != [] {
      var c' := c[..|c| - 1];
      var items := ItemRows(c, byCid, templated, hides, visible);
      var items' := ItemRows(c', byCid, templated, hides, visible);
      var r := items[|items| - 1];
      assert items == items' + [r];
      assert items[..|items| - 1] == items';
      ItemLines(c', byCid, templated, hides, visible);
      if r.visible && r.itemId.Some? {
        var l := Lines(items');
        assert Lines(items) == l + [r];
        assert (l + [r])[..|l|] == l;
      }
    }
  }

  /** The index of the first model without a reference id (an `undefined`
      id when models are referenced by id), or the model count. */
  function UnreferencedIndex(c: seq<Record>, byCid: bool): (k: nat)
    ensures k <= |c|
    ensures forall j | 0 <= j < k :: !RefId(c[j], byCid).Undefined?
    ensures k < |c| ==> RefId(c[k], byCid).Undefined?
    decreases |c|
  {
    if c == [] then 0
    else if RefId(c[0], byCid).Undefined? then 0
    else 1 + UnreferencedIndex(c[1..], byCid)
  }

  /** The model-view render throws exactly when models are referenced by
      id and one of them has no id; referencing by cid never throws, and
      neither does a collection whose ids are all set. */
  lemma RenderThrowsIff(c: seq<Record>, byCid: bool)
    ensures UnreferencedIndex(c, byCid) < |c| <==> !byCid && exists m | m in c :: m.id.Undefined?
    ensures HasRefIds(c, byCid) ==> UnreferencedIndex(c, byCid) == |c|
  {
    if !byCid && exists m | m in c :: m.id.Undefined? {
      var m :| m in c && m.id.Undefined?;
      var k :| 0 <= k < |c| && c[k] == m;
      assert UnreferencedIndex(c, byCid) <= k;
    }
  }

  /** A list in which every model has a usable reference id and no model
      is hidden has one line per model, in collection order, tagged with
      the model's reference id. */
  lemma {:induction false} ShownTags(c: seq<Record>, byCid: bool, templated: bool, hides: Value -> bool)
    requires forall m | m in c :: Defined(RefId(m, byCid))
    requires templated || forall m | m in c :: !hides(ModelRef(m))
    ensures |VisibleTags(c, byCid, templated, hides, None)| == |c|
    ensures forall k | 0 <= k < |c| :: VisibleTags(c, byCid, templated, hides, None)[k] == Str(Text(RefId(c[k], byCid)))
    decreases |c|
  {
    if c != [] {
      var c' := c[..|c| - 1];
      assert forall m | m in c' :: m in c;
      ShownTags(c', byCid, templated, hides);
      assert c[|c| - 1] in c;
    }
  }
}
