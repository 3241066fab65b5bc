/**
 * The parts of a Backbone collection the collection view relies on: the
 * ordered models, lookup by reference id (`get`, and the older
 * `getByCid`), `at`, `find`, and the silent `remove`/`add` used when the
 * list is reordered or an item is dragged in or out.
 */
module Backbone {

  import opened Js
  import opened Underscore

  /** Neither `undefined` nor `null`: Backbone indexes a model by its id
      only when the id is set. */
  predicate Defined(v: Value)
  {
    !(v.Undefined? || v.Null?)
  }

  /** A model id is a string or a number, or not set yet. */
  predicate PrimitiveId(v: Value)
  {
    v.Undefined? || v.Null? || v.Number? || v.Str?
  }

  /** `key` names the model in Backbone's `_byId` index, which holds both
      the cid and the text of the id of every model. */
  predicate Names(r: Record, key: string)
  {
    r.cid == key || (Defined(r.id) && Text(r.id) == key)
  }

  /** No key names both models. */
  predicate KeysDiffer(a: Record, b: Record)
  {
    && a.cid != b.cid
    && (Defined(a.id) ==> Text(a.id) != b.cid)
    && (Defined(b.id) ==> Text(b.id) != a.cid)
    && (Defined(a.id) && Defined(b.id) ==> Text(a.id) != Text(b.id))
  }

  predicate Distinct(c: seq<Record>)
  {
    forall i, j | 0 <= i < j < |c| :: c[i] != c[j]
  }

  /** What Backbone keeps true of a collection: no model twice, no key
      naming two models, primitive ids, and cids of Backbone's own `c<n>`
      form, which are never numerals. */
  predicate WellFormed(c: seq<Record>)
  {
    && Distinct(c)
    && (forall a, b | a in c && b in c && a != b :: KeysDiffer(a, b))
    && (forall a | a in c :: !IsNumeral(a.cid) && PrimitiveId(a.id))
  }

  /** A model that may join `c`: it is already there, or no key of it
      names a model of `c`. */
  predicate Compatible(c: seq<Record>, r: Record)
  {
    && !IsNumeral(r.cid) && PrimitiveId(r.id)
    && (forall x | x in c :: x == r || KeysDiffer(x, r))
  }

  /** The first model that `key` names. */
  function Lookup(c: seq<Record>, key: string): (r: Option<Record>)
    ensures r.Some? ==> r.value in c && Names(r.value, key)
    ensures r.None? ==> forall x | x in c :: !Names(x, key)
  {
    if c == [] then None
    else if Names(c[0], key) then Some(c[0])
    else Lookup(c[1..], key)
  }

  /** The first model whose cid is `cid`. */
  function LookupCid(c: seq<Record>, cid: string): (r: Option<Record>)
    ensures r.Some? ==> r.value in c && r.value.cid == cid
    ensures r.None? ==> forall x | x in c :: x.cid != cid
  {
    if c == [] then None
    else if c[0].cid == cid then Some(c[0])
    else LookupCid(c[1..], cid)
  }

  /** `collection.get( v )`: by the key `String( v )`, or by the id and
      then the cid of a model passed in; nothing for `null`/`undefined`. */
  function Get(c: seq<Record>, v: Value): Option<Record>
  {
    match v
    case Undefined => None
    case Null => None
    case ModelRef(m) =>
      if Defined(m.id) && Lookup(c, Text(m.id)).Some? then Lookup(c, Text(m.id))
      else Lookup(c, m.cid)
    case _ => Lookup(c, Text(v))
  }

  /** `collection.getByCid( v )` of Backbone 0.9, used by the oldest
      revision: falsy values find nothing. */
  function GetByCid(c: seq<Record>, v: Value): Option<Record>
  {
    if !Truthy(v) then None
    else if v.ModelRef? then LookupCid(c, v.model.cid)
    else LookupCid(c, Text(v))
  }

  /** In a well-formed collection a key names at most one model, so the
      lookup finds exactly the model named. */
  lemma LookupUnique(c: seq<Record>, key: string, r: Record)
    requires WellFormed(c) && r in c && Names(r, key)
    ensures Lookup(c, key) == Some(r)
  {
  }

  /** `_getModelReferenceId( m )`: the cid, or the id. */
  function RefId(r: Record, byCid: bool): Value
  {
    if byCid then Str(r.cid) else r.id
  }

  /** `_.pluck( collection.models, "cid" )` or `..., "id" )`. */
  function RefIds(c: seq<Record>, byCid: bool): (ids: seq<Value>)
    ensures |ids| == |c|
    ensures forall k | 0 <= k < |c| :: ids[k] == RefId(c[k], byCid)
  {
    if c == [] then [] else [RefId(c[0], byCid)] + RefIds(c[1..], byCid)
  }

  /** Every model of the collection carries a usable reference id. */
  predicate HasRefIds(c: seq<Record>, byCid: bool)
  {
    byCid || forall r | r in c :: Defined(r.id)
  }

  /** Reference ids of a well-formed collection are distinct. */
  lemma RefIdsDistinct(c: seq<Record>, byCid: bool)
    requires WellFormed(c) && HasRefIds(c, byCid)
    ensures NoDup(RefIds(c, byCid))
  {
    var ids := RefIds(c, byCid);
    forall i, j | 0 <= i < j < |ids|
      ensures ids[i] != ids[j]
    {
      assert c[i] != c[j];
      assert KeysDiffer(c[i], c[j]);
    }
  }

  /** Looking a model up by its own reference id finds it. */
  lemma GetRefId(c: seq<Record>, r: Record, byCid: bool)
    requires WellFormed(c) && r in c && (byCid || Defined(r.id))
    ensures Get(c, RefId(r, byCid)) == Some(r)
  {
    if byCid {
      LookupUnique(c, r.cid, r);
    } else {
      LookupUnique(c, Text(r.id), r);
    }
  }

  /** The model at a collection index, if any: `collection.at( i )`. */
  function At(c: seq<Record>, i: int): Option<Record>
  {
    if 0 <= i < |c| then Some(c[i]) else None
  }

  /** The value of the counter that the click handler increments inside
      `collection.find( fn )`: it starts at -1 and is incremented once per
      model visited, and `find` stops at the first model `p` accepts. */
  function FindCounter(c: seq<Record>, p: Record -> bool): (k: int)
    ensures -1 <= k < |c|
  {
    if c == [] then -1
    else if p(c[0]) then 0
    else
      var k := FindCounter(c[1..], p);
      if k == -1 then 0 else k + 1
  }

  /** The counter ends on the first model `p` accepts; when `p` accepts
      none it ends on the last model, and on -1 for an empty collection. */
  lemma {:induction false} FindCounterSpec(c: seq<Record>, p: Record -> bool)
    ensures c == [] ==> FindCounter(c, p) == -1
    ensures (forall i | 0 <= i < |c| :: !p(c[i])) ==> FindCounter(c, p) == |c| - 1
    ensures forall i | 0 <= i < |c| && p(c[i]) ::
              var k := FindCounter(c, p);
              0 <= k <= i && p(c[k]) && forall j | 0 <= j < k :: !p(c[j])
  {
    if c != [] && !p(c[0]) {
      FindCounterSpec(c[1..], p);
      forall i | 0 <= i < |c| && p(c[i])
        ensures var k := FindCounter(c, p);
                0 <= k <= i && p(c[k]) && forall j | 0 <= j < k :: !p(c[j])
      {
        assert c[1..][i - 1] == c[i];
        forall j | 0 <= j < FindCounter(c, p)
          ensures !p(c[j])
        {
          if j > 0 { assert c[1..][j - 1] == c[j]; }
        }
      }
      if forall i | 0 <= i < |c| :: !p(c[i]) {
        assert forall i | 0 <= i < |c| - 1 :: !p(c[1..][i]) by {
          forall i | 0 <= i < |c| - 1 ensures !p(c[1..][i]) {
            assert c[1..][i] == c[i + 1];
          }
        }
      }
    }
  }

  /** `collection.remove( r, { silent : true } )`: drops the model with
      `r`'s cid. */
  function Remove(c: seq<Record>, r: Record): (d: seq<Record>)
    ensures forall x :: x in d <==> x in c && x.cid != r.cid
    decreases |c|
  {
    if c == [] then []
    else
      LastSplit(c);
      var p := Remove(c[..|c| - 1], r);
      if c[|c| - 1].cid == r.cid then p else p + [c[|c| - 1]]
  }

  /** In a well-formed collection no other model shares a model's cid. */
  lemma CidUnique(c: seq<Record>, m: Record)
    requires WellFormed(c) && m in c
    ensures forall x | x in c && x.cid == m.cid :: x == m
  {
  }

  /** Removing keeps every other model, each as often as before. */
  lemma {:induction false} RemoveMultiset(c: seq<Record>, r: Record)
    requires forall x | x in c && x.cid == r.cid :: x == r
    ensures multiset(Remove(c, r)) == multiset(c)[r := 0]
    decreases |c|
  {
    if c != [] {
      var c' := c[..|c| - 1];
      LastSplit(c);
      RemoveMultiset(c', r);
      assert multiset(c) == multiset(c') + multiset{c[|c| - 1]};
    }
  }

  /** Where JavaScript's `splice( at, 0, r )` inserts. */
  function SpliceIndex(len: nat, at: int): (k: nat)
    ensures k <= len
  {
    if at < 0 then (if len + at < 0 then 0 else len + at)
    else if at > len then len
    else at
  }

  /** `collection.add( r, { at : at } )`; a model already present is not
      added again. */
  function Add(c: seq<Record>, r: Record, at: Option<int>): (d: seq<Record>)
  {
    if r in c then c
    else if at.None? then c + [r]
    else
      var k := SpliceIndex(|c|, at.value);
      c[..k] + [r] + c[k..]
  }

  lemma {:induction false} DistinctMultiset(c: seq<Record>)
    ensures Distinct(c) <==> forall x :: multiset(c)[x] <= 1
    decreases |c|
  {
    if c != [] {
      var c' := c[..|c| - 1];
      var z := c[|c| - 1];
      LastSplit(c);
      DistinctMultiset(c');
      assert multiset(c) == multiset(c') + multiset{z};
      if Distinct(c) {
        assert Distinct(c') by {
          forall i, j | 0 <= i < j < |c'| ensures c'[i] != c'[j] {
            assert c'[i] == c[i] && c'[j] == c[j];
          }
        }
        assert z !in c';
      }
      if forall x :: multiset(c)[x] <= 1 {
        assert forall x :: multiset(c')[x] <= 1 by {
          forall x ensures multiset(c')[x] <= 1 {
            assert multiset(c')[x] <= multiset(c)[x];
          }
        }
        assert z !in c' by {
          assert multiset(c)[z] == multiset(c')[z] + 1;
        }
        forall i, j | 0 <= i < j < |c|
          ensures c[i] != c[j]
        {
          if j < |c| - 1 {
            assert c[i] == c'[i] && c[j] == c'[j];
          } else {
            assert c[i] in c';
          }
        }
      }
    }
  }

  /** Being well formed depends only on which models a collection holds,
      so it survives any reordering. */
  lemma WellFormedPermutation(c: seq<Record>, d: seq<Record>)
    requires WellFormed(c) && multiset(c) == multiset(d)
    ensures WellFormed(d)
  {
    DistinctMultiset(c);
    DistinctMultiset(d);
    forall x ensures x in d <==> x in c {
      assert x in d <==> x in multiset(d);
      assert x in c <==> x in multiset(c);
    }
  }

  /** Adding a compatible model keeps the collection well formed, and adds
      the model exactly once. */
  lemma AddKeepsWellFormed(c: seq<Record>, r: Record, at: Option<int>)
    requires WellFormed(c) && Compatible(c, r)
    ensures WellFormed(Add(c, r, at))
    ensures r !in c ==> multiset(Add(c, r, at)) == multiset(c) + multiset{r}
    ensures r in c ==> Add(c, r, at) == c
  {
    if r !in c {
      var d := Add(c, r, at);
      var e := c + [r];
      assert WellFormed(e) by {
        DistinctMultiset(c);
        DistinctMultiset(e);
        assert multiset(e) == multiset(c) + multiset{r};
        forall a, b | a in e && b in e && a != b
          ensures KeysDiffer(a, b)
        {
          if a == r { assert KeysDiffer(b, r); }
          else if b == r { assert KeysDiffer(a, r); }
        }
      }
      if at.Some? {
        var k := SpliceIndex(|c|, at.value);
        assert c == c[..k] + c[k..];
        assert multiset(d) == multiset(e);
      }
      WellFormedPermutation(e, d);
    }
  }

  /** A model that shares a key with another model of `c`: Backbone's
      `get` finds that other model in its place. */
  predicate Collides(c: seq<Record>, r: Record)
  {
    exists x | x in c :: x != r && !KeysDiffer(x, r)
  }

  /** `collection.add( r, { at : at } )` for any model it may be handed:
      one the collection holds, or one whose key names another model of
      it, leaves the collection as it is (`get` finds the existing model,
      which is neither merged nor moved, and no `add` is triggered). */
  function AddUnlessFound(c: seq<Record>, r: Record, at: Option<int>): seq<Record>
  {
    if Collides(c, r) then c else Add(c, r, at)
  }

  /** Adding a model with a cid of Backbone's kind and a primitive id
      keeps the collection well formed; the model is in the collection
      afterwards exactly when no other model shares a key with it, and
      when it was not there before it is then the only model gained. */
  lemma AddUnlessFoundSpec(c: seq<Record>, r: Record, at: Option<int>)
    requires WellFormed(c) && !IsNumeral(r.cid) && PrimitiveId(r.id)
    ensures WellFormed(AddUnlessFound(c, r, at))
    ensures r in AddUnlessFound(c, r, at) <==> !Collides(c, r)
    ensures Collides(c, r) || r in c ==> AddUnlessFound(c, r, at) == c
    ensures !Collides(c, r) && r !in c ==> multiset(AddUnlessFound(c, r, at)) == multiset(c) + multiset{r}
    ensures !Collides(c, r) ==> Compatible(c, r)
  {
    if !Collides(c, r) {
      assert Compatible(c, r);
      AddKeepsWellFormed(c, r, at);
      if r !in c && at.Some? {
        var k := SpliceIndex(|c|, at.value);
        assert (c[..k] + [r] + c[k..])[k] == r;
      }
    } else {
      var x :| x in c && x != r && !KeysDiffer(x, r);
      assert r !in c;
    }
  }

  /** Removing a model keeps the collection well formed. */
  lemma RemoveKeepsWellFormed(c: seq<Record>, r: Record)
    requires WellFormed(c)
    ensures WellFormed(Remove(c, r))
  {
    var d := Remove(c, r);
    RemoveDistinct(c, r);
  }

  lemma {:induction false} RemoveDistinct(c: seq<Record>, r: Record)
    requires Distinct(c)
    ensures Distinct(Remove(c, r))
    decreases |c|
  {
    if c != [] {
      var c' := c[..|c| - 1];
      LastSplit(c);
      assert Distinct(c') by {
        forall i, j | 0 <= i < j < |c'| ensures c'[i] != c'[j] {
          assert c'[i] == c[i] && c'[j] == c[j];
        }
      }
      RemoveDistinct(c', r);
      assert c[|c| - 1] !in c';
      DistinctAppend(Remove(c', r), c[|c| - 1]);
    }
  }

  lemma DistinctAppend(c: seq<Record>, m: Record)
    requires Distinct(c) && m !in c
    ensures Distinct(c + [m])
  {
    var d := c + [m];
    forall i, j | 0 <= i < j < |d| ensures d[i] != d[j] {
      assert d[i] == c[i];
      if j < |c| {
        assert d[j] == c[j];
      }
    }
  }

  /** The reference id of a model of the collection is among its
      reference ids. */
  lemma RefIdInCollection(c: seq<Record>, m: Record, byCid: bool)
    requires m in c
    ensures RefId(m, byCid) in RefIds(c, byCid)
  {
    var k :| 0 <= k < |c| && c[k] == m;
    assert RefIds(c, byCid)[k] == RefId(m, byCid);
  }

  lemma {:induction false} RemoveConcat(a: seq<Record>, b: seq<Record>, m: Record)
    ensures Remove(a + b, m) == Remove(a, m) + Remove(b, m)
    decreases |b|
  {
    if b == [] {
      assert a + b == a;
    } else {
      var b' := b[..|b| - 1];
      RemoveConcat(a, b', m);
      assert (a + b)[..|a + b| - 1] == a + b';
    }
  }

  lemma {:induction false} RemoveAbsent(s: seq<Record>, m: Record)
    requires forall x | x in s :: x.cid != m.cid
    ensures Remove(s, m) == s
    decreases |s|
  {
    if s != [] {
      LastSplit(s);
      RemoveAbsent(s[..|s| - 1], m);
    }
  }

  /** Removing the model at index `k` of a well-formed collection takes
      out exactly that entry. */
  lemma RemoveAt(c: seq<Record>, k: int)
    requires WellFormed(c) && 0 <= k < |c|
    ensures Remove(c, c[k]) == c[..k] + c[k + 1..]
  {
    var m := c[k];
    var a, b := c[..k], c[k + 1..];
    OthersKeepCid(c, k);
    assert c == a + [m] + b;
    RemoveConcat(a + [m], b, m);
    RemoveConcat(a, [m], m);
    RemoveAbsent(a, m);
    RemoveAbsent(b, m);
    assert [m][..0] == [];
  }

  /** In a well-formed collection no other model shares a model's cid. */
  lemma OthersKeepCid(c: seq<Record>, k: int)
    requires WellFormed(c) && 0 <= k < |c|
    ensures forall x | x in c[..k] :: x.cid != c[k].cid
    ensures forall x | x in c[k + 1..] :: x.cid != c[k].cid
  {
    forall x | x in c[..k] ensures x.cid != c[k].cid {
      var i :| 0 <= i < k && c[..k][i] == x;
      assert c[i] != c[k] && KeysDiffer(c[i], c[k]);
    }
    forall x | x in c[k + 1..] ensures x.cid != c[k].cid {
      var i :| 0 <= i < |c| - k - 1 && c[k + 1..][i] == x;
      assert c[k] != c[k + 1 + i] && KeysDiffer(c[k], c[k + 1 + i]);
    }
  }

  /** Removing a model keeps every other model's reference id defined. */
  lemma RemoveHasRefIds(c: seq<Record>, m: Record, byCid: bool)
    requires WellFormed(c) && HasRefIds(c, byCid) && m in c
    ensures HasRefIds(Remove(c, m), byCid)
  {
    var d := Remove(c, m);
    CidUnique(c, m);
    RemoveMultiset(c, m);
    forall r | r in d ensures r in c {
      assert r in multiset(d);
    }
  }

  /** Once a model is removed, no model left carries its reference id. */
  lemma RefIdGone(c: seq<Record>, m: Record, byCid: bool)
    requires WellFormed(c) && m in c && (byCid || Defined(m.id))
    ensures RefId(m, byCid) !in RefIds(Remove(c, m), byCid)
  {
    var d := Remove(c, m);
    forall k | 0 <= k < |d| ensures RefIds(d, byCid)[k] != RefId(m, byCid) {
      assert d[k] in d && d[k] != m;
      assert KeysDiffer(d[k], m);
    }
  }
}
