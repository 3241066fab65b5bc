/**
 * Selecting by line number, as every revision does it: the visible item
 * rows are numbered in document order (from 0 in the two newer
 * revisions, from 1 in the two older ones), the lines whose numbers are
 * asked for stand for the reference ids their `data-item-id` attributes
 * carry, and those are validated like any other request.
 */
module LineAddressing {

  import opened Js
  import opened Underscore
  import opened Backbone
  import opened Dom
  import opened Selection

  /** The selection the lines numbered in `wanted` stand for, on a list
      whose lines carry the attributes `attrs`. */
  function AtLines(c: seq<Record>, byCid: bool, f: Option<Value -> bool>, attrs: seq<Value>, wanted: seq<Value>, first: int): seq<Value>
  {
    Validate(c, ConvertStringsToInts(ItemsAtLines(attrs, wanted, first)), byCid, f)
  }

  /** Exactly the reference ids of the collection that pass the filter
      and that, read back from the attribute of a line asked for, come
      out of `_convertStringsToInts`. */
  lemma AtLinesSpec(c: seq<Record>, byCid: bool, f: Option<Value -> bool>, attrs: seq<Value>, wanted: seq<Value>, first: int)
    ensures forall x :: x in AtLines(c, byCid, f, attrs, wanted, first) <==>
              && x in RefIds(c, byCid) && Selectable(c, x, f)
              && exists k :: 0 <= k < |attrs| && Number(first + k) in wanted && ConvertStringToInt(attrs[k]) == x
  {
    var items := ItemsAtLines(attrs, wanted, first);
    var conv := ConvertStringsToInts(items);
    ItemsAtLinesSpec(attrs, wanted, first);
    forall x ensures x in conv <==> exists k :: 0 <= k < |attrs| && Number(first + k) in wanted && ConvertStringToInt(attrs[k]) == x
    {
      if x in conv {
        var i :| 0 <= i < |conv| && conv[i] == x;
        assert items[i] in items;
        var k :| 0 <= k < |attrs| && Number(first + k) in wanted && attrs[k] == items[i];
      }
      if exists k :: 0 <= k < |attrs| && Number(first + k) in wanted && ConvertStringToInt(attrs[k]) == x {
        var k :| 0 <= k < |attrs| && Number(first + k) in wanted && ConvertStringToInt(attrs[k]) == x;
        assert attrs[k] in items;
        var i :| 0 <= i < |items| && items[i] == attrs[k];
        assert conv[i] == x;
      }
    }
  }

  /** The selection the single line numbered `n` stands for: the
      validated id of that line when the list has it, and nothing
      otherwise. */
  function AtLine(c: seq<Record>, byCid: bool, f: Option<Value -> bool>, attrs: seq<Value>, n: int, first: int): seq<Value>
  {
    if first <= n < first + |attrs| then Validate(c, ConvertStringsToInts([attrs[n - first]]), byCid, f) else []
  }

  /** Asking for one line number selects the model of the line with that
      number, if it passes validation, and nothing when the list has no
      such line. */
  lemma SingleLineSelects(c: seq<Record>, byCid: bool, f: Option<Value -> bool>, attrs: seq<Value>, n: int, first: int)
    ensures AtLines(c, byCid, f, attrs, [Number(n)], first) == AtLine(c, byCid, f, attrs, n, first)
  {
    if first <= n < first + |attrs| {
      LineInRange(c, byCid, f, attrs, n, first);
    } else {
      LineOutOfRange(c, byCid, f, attrs, n, first);
    }
  }

  lemma LineInRange(c: seq<Record>, byCid: bool, f: Option<Value -> bool>, attrs: seq<Value>, n: int, first: int)
    requires first <= n < first + |attrs|
    ensures AtLines(c, byCid, f, attrs, [Number(n)], first) == Validate(c, ConvertStringsToInts([attrs[n - first]]), byCid, f)
  {
    var a := ConvertStringsToInts(ItemsAtLines(attrs, [Number(n)], first));
    var b := ConvertStringsToInts([attrs[n - first]]);
    ConvertedLine(attrs, n, first);
    ValidateSame(c, byCid, f, a, b);
  }

  lemma ConvertedLine(attrs: seq<Value>, n: int, first: int)
    requires first <= n < first + |attrs|
    ensures ConvertStringsToInts(ItemsAtLines(attrs, [Number(n)], first)) == ConvertStringsToInts([attrs[n - first]])
  {
    ItemsAtSingleLine(attrs, n, first);
  }

  lemma ValidateSame(c: seq<Record>, byCid: bool, f: Option<Value -> bool>, a: seq<Value>, b: seq<Value>)
    requires a == b
    ensures Validate(c, a, byCid, f) == Validate(c, b, byCid, f)
  {
  }

  lemma LineOutOfRange(c: seq<Record>, byCid: bool, f: Option<Value -> bool>, attrs: seq<Value>, n: int, first: int)
    requires !(first <= n < first + |attrs|)
    ensures AtLines(c, byCid, f, attrs, [Number(n)], first) == []
  {
    ItemsAtSingleLine(attrs, n, first);
    NothingConverted(c, byCid, f);
  }

  lemma NothingConverted(c: seq<Record>, byCid: bool, f: Option<Value -> bool>)
    ensures Validate(c, ConvertStringsToInts([]), byCid, f) == []
  {
    assert ConvertStringsToInts([]) == [];
    ValidateNothing(c, byCid, f);
  }

  /** Asking for no line selects nothing. */
  lemma {:induction false} NoNumbersNoLines(attrs: seq<Value>, first: int)
    ensures ItemsAtLines(attrs, [], first) == []
    decreases |attrs|
  {
    if attrs != [] {
      NoNumbersNoLines(attrs[..|attrs| - 1], first);
    }
  }

  /** Reading the marked lines and setting them again gives back a
      validated selection, provided exactly its rows carry the `selected`
      class, each of its ids is shown on a visible row, and each id
      survives the attribute round trip (a number or a string that is not
      a numeral). */
  lemma LinesReadBack(c: seq<Record>, byCid: bool, f: Option<Value -> bool>, rows: seq<Row>, sel: seq<Value>, first: int)
    requires WellFormed(c) && HasRefIds(c, byCid)
    requires sel == Validate(c, sel, byCid, f)
    requires forall x | x in sel :: x.Number? || (x.Str? && !IsNumeral(x.s))
    requires MarkersAgree(rows, sel)
    requires forall x | x in sel :: exists r | r in rows :: r.visible && r.itemId == Some(Text(x))
    ensures AtLines(c, byCid, f, Attrs(Lines(rows)), MarkedLines(Lines(rows), first), first) == sel
  {
    var ls := Lines(rows);
    var attrs := MarkedAttrs(ls);
    var req := ConvertStringsToInts(attrs);
    LinesRoundTrip(ls, first);
    LinesMembers(rows);
    MarkedAttrsMembers(ls);
    forall x
      ensures x in req <==> x in sel
    {
      if x in req {
        var i :| 0 <= i < |req| && req[i] == x;
        assert attrs[i] in attrs;
        var k :| 0 <= k < |ls| && ls[k].marked && attrs[i] == Attr(ls[k]);
        assert ls[k] in ls;
        var j :| 0 <= j < |rows| && rows[j] == ls[k];
        assert Tagged(rows[j], sel);
        var y :| y in sel && Text(y) == ls[k].itemId.value;
        TextThenConvert(y);
      }
      if x in sel {
        var r :| r in rows && r.visible && r.itemId == Some(Text(x));
        var j :| 0 <= j < |rows| && rows[j] == r;
        assert Text(x) in Texts(sel);
        assert r in ls;
        var k :| 0 <= k < |ls| && ls[k] == r;
        assert Attr(r) in attrs;
        var i :| 0 <= i < |attrs| && attrs[i] == Attr(r);
        TextThenConvert(x);
        assert req[i] == x;
      }
    }
    ValidateCongruent(c, req, sel, byCid, f);
  }
}
