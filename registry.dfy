/**
 * The registry of item views that `render` rebuilds (`viewManager`, a
 * `Backbone.ChildViewContainer`, in the two newer revisions): one view per
 * model, in collection order. The selection setters and getters address
 * models through it in the `id` and `view` / `modelView` modes.
 */
module Registry {

  import opened Js
  import opened Underscore
  import opened Backbone

  /** The registry as `render` leaves it. */
  function ViewsOf(c: seq<Record>): seq<ItemView>
  {
    seq(|c|, k requires 0 <= k < |c| => ItemView(c[k]))
  }

  /** `viewManager.findByModel( m )`: the container indexes views by the
      cid of their model, so the view added last for that cid wins. */
  function FindByModel(views: seq<ItemView>, m: Record): (r: Option<ItemView>)
    ensures r.Some? ==> r.value in views && r.value.model.cid == m.cid
    ensures r.None? ==> forall v | v in views :: v.model.cid != m.cid
    decreases |views|
  {
    if views == [] then None
    else
      LastSplit(views);
      if views[|views| - 1].model.cid == m.cid then Some(views[|views| - 1])
      else FindByModel(views[..|views| - 1], m)
  }

  /** After a render, every model of a well-formed collection finds its
      own view. */
  lemma FindByModelAfterRender(c: seq<Record>, m: Record)
    requires WellFormed(c) && m in c
    ensures FindByModel(ViewsOf(c), m) == Some(ItemView(m))
  {
    var vs := ViewsOf(c);
    var k :| 0 <= k < |c| && c[k] == m;
    assert vs[k] in vs;
    forall v | v in vs && v.model.cid == m.cid ensures v == ItemView(m) {
      var j :| 0 <= j < |vs| && vs[j] == v;
      assert c[j] in c;
    }
  }

  /** The id-mode setter: the cids of the registered views whose model id
      is listed (`_.contains`, so compared with `===`), in registry order. */
  function CidsWithIds(views: seq<ItemView>, ids: seq<Value>): seq<Value>
    decreases |views|
  {
    if views == [] then []
    else
      var p := CidsWithIds(views[..|views| - 1], ids);
      var m := views[|views| - 1].model;
      if m.id in ids then p + [Str(m.cid)] else p
  }

  /** The models of `c` whose id is listed, in collection order. */
  function WithIds(c: seq<Record>, ids: seq<Value>): (d: seq<Record>)
    ensures forall m :: m in d <==> m in c && m.id in ids
    decreases |c|
  {
    if c == [] then []
    else
      LastSplit(c);
      var p := WithIds(c[..|c| - 1], ids);
      if c[|c| - 1].id in ids then p + [c[|c| - 1]] else p
  }

  lemma RefIdsAppend(c: seq<Record>, m: Record, byCid: bool)
    ensures RefIds(c + [m], byCid) == RefIds(c, byCid) + [RefId(m, byCid)]
  {
    var l := RefIds(c + [m], byCid);
    var r := RefIds(c, byCid) + [RefId(m, byCid)];
    assert |l| == |r|;
    forall k | 0 <= k < |l| ensures l[k] == r[k] {
      if k < |c| {
        assert (c + [m])[k] == c[k];
      }
    }
  }

  /** In id mode the new selection is the cids of the collection's models
      whose ids were asked for, in collection order: neither the order nor
      the repetitions of the argument matter. */
  lemma {:induction false} IdModeFollowsCollection(c: seq<Record>, ids: seq<Value>)
    ensures CidsWithIds(ViewsOf(c), ids) == RefIds(WithIds(c, ids), true)
    decreases |c|
  {
    if c != [] {
      var c' := c[..|c| - 1];
      var m := c[|c| - 1];
      assert ViewsOf(c)[..|c| - 1] == ViewsOf(c');
      IdModeFollowsCollection(c', ids);
      if m.id in ids {
        RefIdsAppend(WithIds(c', ids), m, true);
      }
    }
  }
}
