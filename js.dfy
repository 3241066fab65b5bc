/**
 * The JavaScript values the collection view handles: the entries of the
 * arrays passed to the selection setters, the reference ids of models
 * (a Backbone `cid` string or a persistent `id`), and the records
 * themselves. Also the JavaScript coercions the component relies on:
 * truthiness, `String(v)` (how an id becomes a `data-item-id` attribute),
 * the numeral test behind `_convertStringsToInts` and `$.isNumeric`, and
 * loose equality `==`.
 */
module Js {

  datatype Option<T> = None | Some(value: T)

  datatype Result<T> = Success(value: T) | Failure(error: Error)

  datatype Outcome = Pass | Fail(error: Error)

  /** A non-empty sequence is its prefix followed by its last element. */
  lemma LastSplit<T>(a: seq<T>)
    requires a != []
    ensures a == a[..|a| - 1] + [a[|a| - 1]]
  {
  }

  /** The exceptions the component throws, and the JavaScript TypeError
      raised when it dereferences `undefined`. */
  datatype Error =
    | NotSelectable          // "Attempt to set selected items on non-selectable list"
    | InvalidParameter       // "Invalid parameter value"
    | BadReferenceBy         // "The referenceBy property was not properly set"
    | NotAllowedOption(name: string)  // name + " is not an allowed option"
    | SaveOnNonSelectable    // "Attempt to save selection on non-selectable list"
    | NothingSaved           // "Attempt to restore selection but no selection has been saved!"
    | NoReferenceId          // "Model has no reference id"
    | TypeError              // a property read on undefined or null

  /** A Backbone model: its client id (always present) and its persistent
      id (`Undefined` until the model has been saved). */
  datatype Record = Record(cid: string, id: Value)

  /** A rendered item view: the only part used here is `view.model`. */
  datatype ItemView = ItemView(model: Record)

  datatype Value =
    | Undefined
    | Null
    | Bool(b: bool)
    | Number(n: int)
    | Str(s: string)
    | Arr(elems: seq<Value>)
    | ModelRef(model: Record)
    | ViewRef(view: ItemView)

  /** JavaScript truthiness (`if( v )`). */
  predicate Truthy(v: Value)
  {
    match v
    case Undefined => false
    case Null => false
    case Bool(b) => b
    case Number(n) => n != 0
    case Str(s) => s != ""
    case _ => true
  }

  // ---------------------------------------------------------------------
  // Decimal numerals

  predicate IsDigit(c: char) { '0' <= c <= '9' }

  predicate IsDigits(s: string)
  {
    |s| > 0 && forall i :: 0 <= i < |s| ==> IsDigit(s[i])
  }

  /** The strings that `_convertStringsToInts` turns into numbers: an
      optional minus sign followed by decimal digits. */
  predicate IsNumeral(s: string)
  {
    IsDigits(s) || (|s| > 1 && s[0] == '-' && IsDigits(s[1..]))
  }

  function DigitsValue(s: string): (n: nat)
    requires forall i :: 0 <= i < |s| ==> IsDigit(s[i])
    decreases |s|
  {
    if s == [] then 0
    else
      assert IsDigit(s[|s| - 1]);
      DigitsValue(s[..|s| - 1]) * 10 + (s[|s| - 1] as int - '0' as int)
  }

  /** `parseInt( s, 10 )` on a numeral. */
  function NumeralValue(s: string): int
    requires IsNumeral(s)
  {
    if IsDigits(s) then DigitsValue(s) else -(DigitsValue(s[1..]) as int)
  }

  function DigitChar(d: nat): (c: char)
    requires d < 10
    ensures IsDigit(c) && c as int - '0' as int == d
  {
    ('0' as int + d) as char
  }

  /** The decimal text of a natural number, without leading zeros. */
  function NatText(n: nat): string
    decreases n
  {
    if n < 10 then [DigitChar(n)] else NatText(n / 10) + [DigitChar(n % 10)]
  }

  /** `String( n )` for an integer. */
  function IntText(n: int): string
  {
    if n < 0 then "-" + NatText(-n) else NatText(n)
  }

  lemma {:induction false} NatTextRoundTrip(n: nat)
    ensures IsDigits(NatText(n))
    ensures DigitsValue(NatText(n)) == n
    decreases n
  {
    if n >= 10 {
      NatTextRoundTrip(n / 10);
      var t := NatText(n / 10) + [DigitChar(n % 10)];
      assert t[..|t| - 1] == NatText(n / 10);
    }
  }

  /** Printing an integer and parsing it back gives the integer. */
  lemma IntTextRoundTrip(n: int)
    ensures IsNumeral(IntText(n))
    ensures NumeralValue(IntText(n)) == n
  {
    if n < 0 {
      NatTextRoundTrip(-n);
      var t := IntText(n);
      assert t[1..] == NatText(-n);
      assert !IsDigits(t) by { assert !IsDigit(t[0]); }
    } else {
      NatTextRoundTrip(n);
    }
  }

  /** Every integer's text parses back to that integer. */
  lemma IntTextsRoundTrip()
    ensures forall n: int :: IsNumeral(IntText(n)) && NumeralValue(IntText(n)) == n
  {
    forall n: int
      ensures IsNumeral(IntText(n)) && NumeralValue(IntText(n)) == n
    {
      IntTextRoundTrip(n);
    }
  }

  // ---------------------------------------------------------------------
  // Coercions

  /** `String( v )`, as used when an id is written into a `data-item-id`
      attribute or pasted into a `[data-item-id=...]` selector. */
  function Text(v: Value): string
  {
    match v
    case Undefined => "undefined"
    case Null => "null"
    case Bool(b) => if b then "true" else "false"
    case Number(n) => IntText(n)
    case Str(s) => s
    case Arr(elems) => Join(elems)
    case ModelRef(_) => "[object Object]"
    case ViewRef(_) => "[object Object]"
  }

  /** `Array.prototype.join(",")`, where null and undefined print as "". */
  function Join(elems: seq<Value>): string
    decreases elems
  {
    if elems == [] then ""
    else
      var head := if elems[0].Undefined? || elems[0].Null? then "" else Text(elems[0]);
      if |elems| == 1 then head else head + "," + Join(elems[1..])
  }

  /** One element of `_convertStringsToInts`: a string `s` with
      `parseInt( s, 10 ) == s` becomes that number; everything else is
      kept as it is. So the result is never a numeral string, is loosely
      equal to the argument, and differs from it only where a string
      became a number; these three facts leave no other result. The text
      of an integer converts back to that integer. */
  function ConvertStringToInt(v: Value): (r: Value)
    ensures !(r.Str? && IsNumeral(r.s))
    ensures LooseEquals(r, v)
    ensures r != v ==> v.Str? && r.Number?
    ensures forall n: int :: v == Str(IntText(n)) ==> r == Number(n)
  {
    IntTextsRoundTrip();
    if v.Str? && IsNumeral(v.s) then Number(NumeralValue(v.s)) else v
  }

  /** `_convertStringsToInts( theArray )`. */
  function ConvertStringsToInts(vs: seq<Value>): (r: seq<Value>)
    ensures |r| == |vs|
    ensures forall i :: 0 <= i < |vs| ==> r[i] == ConvertStringToInt(vs[i])
  {
    if vs == [] then [] else [ConvertStringToInt(vs[0])] + ConvertStringsToInts(vs[1..])
  }

  /** A value survives `String` followed by `_convertStringsToInts`
      unchanged exactly when it is a number or a string that is not a
      numeral: this is why offsets read back from `data-item-id`
      attributes resolve to the same cid or numeric id again. */
  lemma TextThenConvert(v: Value)
    requires v.Number? || (v.Str? && !IsNumeral(v.s))
    ensures ConvertStringToInt(Str(Text(v))) == v
  {
    if v.Number? { IntTextRoundTrip(v.n); }
  }

  /** A numeric string id does not survive the round trip: it comes back
      as a number, which `===` tells apart from the string. */
  lemma NumeralStringIdIsLost(s: string)
    requires IsNumeral(s)
    ensures ConvertStringToInt(Str(Text(Str(s)))) != Str(s)
  {
  }

  /** `_getClickedItemId`: the attribute text, parsed when `$.isNumeric`.
      The id is never a numeral string, is loosely equal to the text, and
      is either a number or the text itself; these three facts leave no
      other id. A row tagged with the text of an integer reports that
      integer. */
  function ClickedItemId(attr: string): (r: Value)
    ensures !(r.Str? && IsNumeral(r.s))
    ensures LooseEquals(r, Str(attr))
    ensures r.Number? || r == Str(attr)
    ensures forall n: int :: attr == IntText(n) ==> r == Number(n)
  {
    IntTextsRoundTrip();
    if IsNumeral(attr) then Number(NumeralValue(attr)) else Str(attr)
  }

  /** JavaScript `a == b` on the values that meet in the click handler:
      strict equality, null == undefined, and a numeral string equal to
      the number it denotes. */
  predicate LooseEquals(a: Value, b: Value)
  {
    || a == b
    || ((a.Null? || a.Undefined?) && (b.Null? || b.Undefined?))
    || (a.Str? && b.Number? && IsNumeral(a.s) && NumeralValue(a.s) == b.n)
    || (a.Number? && b.Str? && IsNumeral(b.s) && NumeralValue(b.s) == a.n)
  }

  /** An option as `initialize` reads it: `undefined` takes the default,
      anything else is tested for truthiness where it is used. */
  function Flag(v: Value, default: bool): bool
  {
    if v.Undefined? then default else Truthy(v)
  }
}
