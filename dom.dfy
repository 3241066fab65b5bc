/**
 * The rendered list as the component sees it through jQuery: a sequence of
 * child elements, each with the `data-item-id` attribute it carries (the
 * empty-list caption carries none), whether it is visible, and whether it
 * carries the `selected` class. On top of it: the marker update, the
 * counting of visible lines behind the offset / line addressing modes,
 * and the clamping of a line number to the list.
 */
module Dom {

  import opened Js
  import opened Underscore

  datatype Row = Row(itemId: Option<string>, visible: bool, marked: bool)

  /** The attribute texts that `"[data-item-id=" + id + "]"` selects for a
      list of reference ids. */
  function Texts(ids: seq<Value>): set<string>
  {
    set v | v in ids :: Text(v)
  }

  /** The row is the element of one of `ids`. */
  predicate Tagged(row: Row, ids: seq<Value>)
  {
    row.itemId.Some? && row.itemId.value in Texts(ids)
  }

  /** Exactly the rows of the selected ids carry the `selected` class. */
  predicate MarkersAgree(rows: seq<Row>, sel: seq<Value>)
  {
    forall k | 0 <= k < |rows| :: rows[k].marked == Tagged(rows[k], sel)
  }

  function RemarkRow(row: Row, olds: seq<Value>, news: seq<Value>): Row
  {
    if Tagged(row, news) then row.(marked := true)
    else if Tagged(row, olds) then row.(marked := false)
    else row
  }

  /** The two lists hold the same rows, whatever their `selected` class. */
  predicate SameUpToMarks(a: seq<Row>, b: seq<Row>)
  {
    |a| == |b| && forall k | 0 <= k < |a| :: a[k].itemId == b[k].itemId && a[k].visible == b[k].visible
  }

  /** `_addSelectedClassToSelectedItems( olds )`: the class is taken off
      the rows of every old id, then put on the rows of every new id. The
      source narrows both lists with `_.without( list, otherList )`, which
      removes nothing because no element equals the array itself, so the
      lists are used whole. Nothing but the class changes. */
  function Remark(rows: seq<Row>, olds: seq<Value>, news: seq<Value>): (r: seq<Row>)
    ensures SameUpToMarks(r, rows)
    ensures forall k | 0 <= k < |rows| && Tagged(rows[k], news) :: r[k].marked
    ensures forall k | 0 <= k < |rows| && !Tagged(rows[k], news) && Tagged(rows[k], olds) :: !r[k].marked
    ensures forall k | 0 <= k < |rows| && !Tagged(rows[k], news) && !Tagged(rows[k], olds) :: r[k] == rows[k]
  {
    seq(|rows|, k requires 0 <= k < |rows| => RemarkRow(rows[k], olds, news))
  }

  /** Every row that carries the class is the row of one of `ids`: true
      of markers that agree with `ids`, and of a freshly rendered list. */
  predicate MarkedWithin(rows: seq<Row>, ids: seq<Value>)
  {
    forall k | 0 <= k < |rows| && rows[k].marked :: Tagged(rows[k], ids)
  }

  /** When only rows of the old selection carried the class, after the
      update exactly the rows of the new selection carry it. */
  lemma RemarkAgrees(rows: seq<Row>, olds: seq<Value>, news: seq<Value>)
    requires MarkedWithin(rows, olds)
    ensures MarkersAgree(Remark(rows, olds, news), news)
  {
  }

  /** Markers depend only on the set of selected ids: reordering the
      selection keeps them in agreement. */
  lemma AgreeSameSet(rows: seq<Row>, a: seq<Value>, b: seq<Value>)
    requires MarkersAgree(rows, a) && Elems(a) == Elems(b)
    ensures MarkersAgree(rows, b)
  {
    assert Texts(a) == Texts(b) by {
      forall t | t in Texts(a) ensures t in Texts(b) {
        var v :| v in a && Text(v) == t;
        assert v in Elems(a);
      }
      forall t | t in Texts(b) ensures t in Texts(a) {
        var v :| v in b && Text(v) == t;
        assert v in Elems(b);
      }
    }
  }

  /** A freshly rendered list carries no `selected` class. */
  predicate Unmarked(rows: seq<Row>)
  {
    forall k | 0 <= k < |rows| :: !rows[k].marked
  }

  lemma UnmarkedAgreesWithNone(rows: seq<Row>)
    requires Unmarked(rows)
    ensures MarkersAgree(rows, [])
  {
  }

  // -----------------------------------------------------------------------
  // Visible lines

  /** The elements `> [data-item-id]:visible` selects, in document order:
      the visible rows that carry an item id. */
  function Lines(rows: seq<Row>): (ls: seq<Row>)
    decreases |rows|
  {
    if rows == [] then []
    else
      var p := Lines(rows[..|rows| - 1]);
      var r := rows[|rows| - 1];
      if r.visible && r.itemId.Some? then p + [r] else p
  }

  /** A hidden row, or one without an item id, is never counted: it can
      be inserted anywhere without moving a line number. */
  lemma {:induction false} LinesSkipUncounted(a: seq<Row>, r: Row, b: seq<Row>)
    requires !r.visible || r.itemId.None?
    ensures Lines(a + [r] + b) == Lines(a + b)
    decreases |b|
  {
    if b == [] {
      assert (a + [r] + b)[..|a + [r] + b| - 1] == a;
      assert a + b == a;
    } else {
      var b' := b[..|b| - 1];
      LinesSkipUncounted(a, r, b');
      assert (a + [r] + b)[..|a + [r] + b| - 1] == a + [r] + b';
      assert (a + b)[..|a + b| - 1] == a + b';
    }
  }

  /** The attribute a line carries, `undefined` when it has none. */
  function Attr(row: Row): Value
  {
    if row.itemId.Some? then Str(row.itemId.value) else Undefined
  }

  /** The numbers of the lines that carry the `selected` class, counting
      from `first` (0 in the newer revisions, 1 in the older ones). */
  function MarkedLines(lines: seq<Row>, first: int): seq<Value>
    decreases |lines|
  {
    if lines == [] then []
    else
      var p := MarkedLines(lines[..|lines| - 1], first);
      if lines[|lines| - 1].marked then p + [Number(first + |lines| - 1)] else p
  }

  /** The counted lines are exactly the visible, tagged rows. */
  lemma {:induction false} LinesMembers(rows: seq<Row>)
    ensures forall r :: r in Lines(rows) <==> r in rows && r.visible && r.itemId.Some?
    decreases |rows|
  {
    if rows != [] {
      var p := rows[..|rows| - 1];
      LinesMembers(p);
      assert rows == p + [rows[|rows| - 1]];
    }
  }

  /** The number of every marked line is reported, and only those. */
  lemma {:induction false} MarkedLinesSpec(lines: seq<Row>, first: int)
    ensures forall k | 0 <= k < |lines| && lines[k].marked ::
              Number(first + k) in MarkedLines(lines, first)
    ensures forall x | x in MarkedLines(lines, first) ::
              x.Number? && first <= x.n < first + |lines| && lines[x.n - first].marked
    decreases |lines|
  {
    if lines != [] {
      var p := lines[..|lines| - 1];
      MarkedLinesSpec(p, first);
      forall k | 0 <= k < |lines| - 1 ensures lines[k] == p[k] { }
    }
  }

  /** A reported line is always reported by its number. */
  lemma FirstMarkedLineIsNumber(lines: seq<Row>, first: int)
    requires MarkedLines(lines, first) != []
    ensures MarkedLines(lines, first)[0].Number?
  {
    MarkedLinesSpec(lines, first);
    assert MarkedLines(lines, first)[0] in MarkedLines(lines, first);
  }

  /** The line number read back, moved by `d`: `getSelectedItem( { by :
      "line" } ) - 1` and the like. A line read back from a list with a
      marked line is always a number (`FirstMarkedLineIsNumber`);
      anything else gives `NaN`, which selects nothing and is written
      `Undefined` here. */
  function Step(line: Value, d: int): Value
  {
    if line.Number? then Number(line.n + d) else Undefined
  }

  /** The `data-item-id` attributes of the lines, in document order. */
  function Attrs(lines: seq<Row>): (a: seq<Value>)
    ensures |a| == |lines|
    decreases |lines|
  {
    if lines == [] then [] else Attrs(lines[..|lines| - 1]) + [Attr(lines[|lines| - 1])]
  }

  /** The attributes read off the visible lines do not depend on which
      rows carry the `selected` class. */
  lemma {:induction false} LineAttrsIgnoreMarks(a: seq<Row>, b: seq<Row>)
    requires SameUpToMarks(a, b)
    ensures Attrs(Lines(a)) == Attrs(Lines(b))
    decreases |a|
  {
    if a != [] {
      var a', b' := a[..|a| - 1], b[..|b| - 1];
      LineAttrsIgnoreMarks(a', b');
      var x, y := a[|a| - 1], b[|b| - 1];
      if x.visible && x.itemId.Some? {
        var la := Lines(a');
        assert (la + [x])[..|la + [x]| - 1] == la;
        var lb := Lines(b');
        assert (lb + [y])[..|lb + [y]| - 1] == lb;
      }
    }
  }

  /** The attributes of the lines whose number is in `wanted`, in document
      order: what the setters collect in offset / line mode. Numbers are
      compared with `===`, so only `Number` entries of `wanted` count. */
  function ItemsAtLines(attrs: seq<Value>, wanted: seq<Value>, first: int): seq<Value>
    decreases |attrs|
  {
    if attrs == [] then []
    else
      var p := ItemsAtLines(attrs[..|attrs| - 1], wanted, first);
      if Number(first + |attrs| - 1) in wanted then p + [attrs[|attrs| - 1]] else p
  }

  /** An attribute is collected exactly when it sits on a line whose
      number is asked for. */
  lemma {:induction false} ItemsAtLinesSpec(attrs: seq<Value>, wanted: seq<Value>, first: int)
    ensures forall x :: x in ItemsAtLines(attrs, wanted, first) <==>
              exists k :: 0 <= k < |attrs| && Number(first + k) in wanted && attrs[k] == x
    decreases |attrs|
  {
    if attrs != [] {
      var p := attrs[..|attrs| - 1];
      ItemsAtLinesSpec(p, wanted, first);
      forall x ensures x in ItemsAtLines(attrs, wanted, first) <==>
                       exists k :: 0 <= k < |attrs| && Number(first + k) in wanted && attrs[k] == x
      {
        if exists k :: 0 <= k < |attrs| && Number(first + k) in wanted && attrs[k] == x {
          var k :| 0 <= k < |attrs| && Number(first + k) in wanted && attrs[k] == x;
          if k < |p| {
            assert p[k] == x;
          }
        }
        if x in ItemsAtLines(p, wanted, first) {
          var k :| 0 <= k < |p| && Number(first + k) in wanted && p[k] == x;
          assert attrs[k] == x;
        }
      }
    }
  }

  /** The attributes of the marked lines, in document order. */
  function MarkedAttrs(lines: seq<Row>): seq<Value>
    decreases |lines|
  {
    if lines == [] then []
    else
      var p := MarkedAttrs(lines[..|lines| - 1]);
      if lines[|lines| - 1].marked then p + [Attr(lines[|lines| - 1])] else p
  }

  /** An attribute is among the marked ones exactly when some marked
      line carries it. */
  lemma {:induction false} MarkedAttrsMembers(lines: seq<Row>)
    ensures forall a :: a in MarkedAttrs(lines) <==>
              exists k :: 0 <= k < |lines| && lines[k].marked && a == Attr(lines[k])
    decreases |lines|
  {
    if lines != [] {
      var p := lines[..|lines| - 1];
      var n := |lines| - 1;
      MarkedAttrsMembers(p);
      forall a
        ensures a in MarkedAttrs(lines) <==> exists k :: 0 <= k < |lines| && lines[k].marked && a == Attr(lines[k])
      {
        if a in MarkedAttrs(lines) {
          if a in MarkedAttrs(p) {
            var k :| 0 <= k < |p| && p[k].marked && a == Attr(p[k]);
            assert lines[k] == p[k];
          } else {
            assert lines[n].marked && a == Attr(lines[n]);
          }
        }
        if exists k :: 0 <= k < |lines| && lines[k].marked && a == Attr(lines[k]) {
          var k :| 0 <= k < |lines| && lines[k].marked && a == Attr(lines[k]);
          if k < n {
            assert p[k] == lines[k];
          }
        }
      }
    }
  }

  /** Only the line numbers in range matter to `ItemsAtLines`. */
  lemma {:induction false} ItemsAtLinesInRange(attrs: seq<Value>, w1: seq<Value>, w2: seq<Value>, first: int)
    requires forall n | first <= n < first + |attrs| :: Number(n) in w1 <==> Number(n) in w2
    ensures ItemsAtLines(attrs, w1, first) == ItemsAtLines(attrs, w2, first)
    decreases |attrs|
  {
    if attrs != [] {
      ItemsAtLinesInRange(attrs[..|attrs| - 1], w1, w2, first);
    }
  }

  /** Asking for one line number selects the line with that number when
      there is one, and nothing otherwise. */
  lemma {:induction false} ItemsAtSingleLine(attrs: seq<Value>, n: int, first: int)
    ensures first <= n < first + |attrs| ==> ItemsAtLines(attrs, [Number(n)], first) == [attrs[n - first]]
    ensures !(first <= n < first + |attrs|) ==> ItemsAtLines(attrs, [Number(n)], first) == []
    decreases |attrs|
  {
    if attrs != [] {
      var p := attrs[..|attrs| - 1];
      ItemsAtSingleLine(p, n, first);
      if first <= n < first + |p| {
        assert p[n - first] == attrs[n - first];
      }
    }
  }

  lemma ItemsAtLineInRange(attrs: seq<Value>, n: int)
    requires 0 <= n < |attrs|
    ensures ItemsAtLines(attrs, [Number(n)], 0) == [attrs[n]]
  {
    ItemsAtSingleLine(attrs, n, 0);
  }

  /** Offset / line addressing is a round trip: selecting the lines that
      were read as marked picks the marked lines again, in order. */
  lemma {:induction false} LinesRoundTrip(lines: seq<Row>, first: int)
    ensures ItemsAtLines(Attrs(lines), MarkedLines(lines, first), first) == MarkedAttrs(lines)
    decreases |lines|
  {
    if lines != [] {
      var p := lines[..|lines| - 1];
      var n := |lines| - 1;
      var a := Attrs(lines);
      var w := MarkedLines(lines, first);
      AttrsPrefix(lines);
      MarkedLinesOfPrefix(lines, first);
      ItemsAtLinesInRange(Attrs(p), w, MarkedLines(p, first), first);
      LinesRoundTrip(p, first);
      var rest := if lines[n].marked then [Attr(lines[n])] else [];
      assert ItemsAtLines(a, w, first) == ItemsAtLines(Attrs(p), w, first) + rest;
      assert MarkedAttrs(lines) == MarkedAttrs(p) + rest;
    }
  }

  lemma AttrsPrefix(lines: seq<Row>)
    requires lines != []
    ensures Attrs(lines)[..|lines| - 1] == Attrs(lines[..|lines| - 1])
    ensures Attrs(lines)[|lines| - 1] == Attr(lines[|lines| - 1])
  {
  }

  /** The lines before the last are marked in `lines` as in its prefix,
      and the last line's number is reported exactly when it is marked. */
  lemma MarkedLinesOfPrefix(lines: seq<Row>, first: int)
    requires lines != []
    ensures var p := lines[..|lines| - 1];
            forall k | first <= k < first + |p| :: Number(k) in MarkedLines(lines, first) <==> Number(k) in MarkedLines(p, first)
    ensures Number(first + |lines| - 1) in MarkedLines(lines, first) <==> lines[|lines| - 1].marked
  {
    var p := lines[..|lines| - 1];
    MarkedLinesSpec(lines, first);
    MarkedLinesSpec(p, first);
    forall k | first <= k < first + |p|
      ensures Number(k) in MarkedLines(lines, first) <==> Number(k) in MarkedLines(p, first)
    {
      assert p[k - first] == lines[k - first];
    }
  }

  /** Reading the marked lines collects the numbers of the visible item
      rows that carry the `selected` class: the `curLineNumber` loop of the
      getters. */
  method CollectMarkedLines(rows: seq<Row>, first: int) returns (items: seq<Value>)
    ensures items == MarkedLines(Lines(rows), first)
  {
    var els := Lines(rows);
    var curLineNumber := first;
    items := [];
    var i := 0;
    while i < |els|
      invariant 0 <= i <= |els|
      invariant curLineNumber == first + i
      invariant items == MarkedLines(els[..i], first)
    {
      assert els[..i + 1][..i] == els[..i];
      if els[i].marked {
        items := items + [Number(curLineNumber)];
      }
      curLineNumber := curLineNumber + 1;
      i := i + 1;
    }
    assert els[..i] == els;
  }

  /** The attributes of the visible item rows whose line number is in
      `wanted`: the `curLineNumber` loop of the setters. */
  method CollectItemsAtLines(rows: seq<Row>, wanted: seq<Value>, first: int) returns (items: seq<Value>)
    ensures items == ItemsAtLines(Attrs(Lines(rows)), wanted, first)
  {
    var els := Lines(rows);
    var curLineNumber := first;
    items := [];
    var i := 0;
    while i < |els|
      invariant 0 <= i <= |els|
      invariant curLineNumber == first + i
      invariant items == ItemsAtLines(Attrs(els[..i]), wanted, first)
    {
      assert els[..i + 1][..i] == els[..i];
      assert Attrs(els[..i + 1])[..i] == Attrs(els[..i]);
      if Number(curLineNumber) in wanted {
        items := items + [Attr(els[i])];
      }
      curLineNumber := curLineNumber + 1;
      i := i + 1;
    }
    assert els[..i] == els;
  }

  /** `setSelectedLine` with `autoContrainToList`: a line below 1 becomes 1,
      a line past the visible count becomes the count. */
  function ClampLine(line: int, count: nat): (l: int)
    ensures count >= 1 ==> 1 <= l <= count
    ensures 1 <= line <= count ==> l == line
    ensures line < 1 ==> l == 1
  {
    if line < 1 then 1 else if line > count then count else line
  }

  /** The number of visible lines, `find( "[data-item-id]:visible" ).length`. */
  method CountLines(rows: seq<Row>) returns (n: nat)
    ensures n == |Lines(rows)|
  {
    var i := 0;
    n := 0;
    while i < |rows|
      invariant 0 <= i <= |rows|
      invariant n == |Lines(rows[..i])|
    {
      LinesStep(rows, i);
      if rows[i].visible && rows[i].itemId.Some? {
        n := n + 1;
      }
      i := i + 1;
    }
    assert rows[..|rows|] == rows;
  }

  lemma LinesStep(rows: seq<Row>, i: int)
    requires 0 <= i < |rows|
    ensures |Lines(rows[..i + 1])| == |Lines(rows[..i])| + if rows[i].visible && rows[i].itemId.Some? then 1 else 0
  {
    assert rows[..i + 1][..i] == rows[..i];
  }
}
