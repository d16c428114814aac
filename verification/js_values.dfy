/**
 * The small part of JavaScript's value semantics that the sign page relies on:
 * values produced by `JSON.parse`, optional-chaining property reads, truthiness,
 * `String(value)` conversion and `String.prototype.trim`.
 */
module JsValues {
  import opened Wrappers

  /** A value produced by `JSON.parse`. JSON numbers are modelled as integers. */
  datatype Json =
    | JNull
    | JBool(b: bool)
    | JNum(n: int)
    | JStr(s: string)
    | JArr(elems: seq<Json>)
    | JObj(fields: map<string, Json>)

  /**
   * JavaScript truthiness of the value a property chain yields; `None` is `undefined`.
   * `null`, `false`, `0` and `""` are falsy; every array and object is truthy.
   */
  predicate Truthy(v: Option<Json>)
    ensures Truthy(v) ==> v.Some? && !v.value.JNull?
    ensures v.Some? && v.value.JBool? ==> (Truthy(v) <==> v.value.b)
    ensures v.Some? && v.value.JNum? ==> (Truthy(v) <==> v.value.n != 0)
    ensures v == Some(JStr("")) || v == Some(JNum(0)) || v == Some(JBool(false)) ==> !Truthy(v)
    ensures v.Some? && (v.value.JArr? || v.value.JObj?) ==> Truthy(v)
    ensures v.Some? && v.value.JStr? && v.value.s != "" ==> Truthy(v)
  {
    match v
    case None => false
    case Some(j) =>
      match j
      case JNull => false
      case JBool(b) => b
      case JNum(n) => n != 0
      case JStr(s) => s != ""
      case JArr(_) => true
      case JObj(_) => true
  }

  /**
   * `j[key]` for a named key on a non-null value. Only objects have own properties
   * with the names the client reads (`candidates`, `content`, `parts`, `text`,
   * `error`, `message`); none of them is an inherited property of a string,
   * number, boolean or array, so every other value yields `undefined`.
   */
  function Get(j: Json, key: string): (r: Option<Json>)
    ensures r.Some? ==> j.JObj? && key in j.fields && r.value == j.fields[key]
    ensures j.JObj? && key in j.fields ==> r.Some?
  {
    match j
    case JObj(fields) => if key in fields then Some(fields[key]) else None
    case _ => None
  }

  /**
   * `j[n]` for an index: an array element, a one-character string, or, on an
   * object, the property named by the index's decimal digits.
   */
  function Index(j: Json, n: nat): (r: Option<Json>)
    ensures j.JArr? ==> (r.Some? <==> n < |j.elems|)
    ensures j.JArr? && n < |j.elems| ==> r == Some(j.elems[n])
    ensures j.JStr? ==> (r.Some? <==> n < |j.s|)
    ensures j.JStr? && n < |j.s| ==> r == Some(JStr([j.s[n]]))
    ensures j.JObj? ==> r == Get(j, NatToString(n))
    ensures j.JNull? || j.JBool? || j.JNum? ==> r.None?
  {
    match j
    case JArr(elems) => if n < |elems| then Some(elems[n]) else None
    case JStr(s) => if n < |s| then Some(JStr([s[n]])) else None
    case JObj(fields) => Get(j, NatToString(n))
    case _ => None
  }

  /** `v?.[key]`: `undefined` when `v` is `null` or `undefined`. */
  function OptGet(v: Option<Json>, key: string): (r: Option<Json>)
    ensures v.None? || v == Some(JNull) ==> r.None?
    ensures v.Some? ==> r == Get(v.value, key)
  {
    match v
    case None => None
    case Some(j) => Get(j, key)
  }

  /** `v?.[n]`: `undefined` when `v` is `null` or `undefined`. */
  function OptIndex(v: Option<Json>, n: nat): (r: Option<Json>)
    ensures v.None? || v == Some(JNull) ==> r.None?
    ensures v.Some? ==> r == Index(v.value, n)
  {
    match v
    case None => None
    case Some(j) => Index(j, n)
  }

  /** The decimal digit for `d`. */
  function Digit(d: nat): char
    requires d < 10
  {
    ('0' as int + d) as char
  }

  /** The value of a digit character, the inverse of `Digit`. */
  function DigitValue(c: char): nat {
    if '0' <= c <= '9' then (c as int - '0' as int) as nat else 0
  }

  /** The decimal rendering of a natural number, most significant digit first. */
  function NatToString(n: nat): (r: string)
    ensures |r| >= 1
    ensures forall k :: 0 <= k < |r| ==> '0' <= r[k] <= '9'
    ensures |r| > 1 ==> r[0] != '0'
    decreases n
  {
    if n < 10 then [Digit(n)] else NatToString(n / 10) + [Digit(n % 10)]
  }

  /** Reads a string of decimal digits back as a number. */
  function DecimalValue(s: string): nat
    decreases |s|
  {
    if |s| == 0 then 0 else DecimalValue(s[..|s| - 1]) * 10 + DigitValue(s[|s| - 1])
  }

  /** Reading the rendering of a number gives the number back. */
  lemma {:induction false} DecimalRoundTrip(n: nat)
    ensures DecimalValue(NatToString(n)) == n
    decreases n
  {
    var s := NatToString(n);
    if n < 10 {
      assert DigitValue(s[0]) == n;
      assert s[..0] == [];
    } else {
      DecimalRoundTrip(n / 10);
      assert s[..|s| - 1] == NatToString(n / 10);
      assert DigitValue(s[|s| - 1]) == n % 10;
    }
  }

  /** `String(n)` for an integer: a minus sign before the digits of a negative number. */
  function IntToString(n: int): (r: string)
    ensures n >= 0 ==> r == NatToString(n)
    ensures n < 0 ==> |r| >= 2 && r[0] == '-' && r[1..] == NatToString(-n)
  {
    if n < 0 then "-" + NatToString(-n) else NatToString(n)
  }

  /** Reads an optionally signed string of decimal digits back as an integer. */
  function SignedDecimalValue(s: string): int {
    if |s| > 0 && s[0] == '-' then -(DecimalValue(s[1..]) as int) else DecimalValue(s)
  }

  /** Reading the rendering of an integer, sign included, gives the integer back. */
  lemma {:induction false} SignedRoundTrip(n: int)
    ensures SignedDecimalValue(IntToString(n)) == n
  {
    if n < 0 {
      DecimalRoundTrip(-n);
    } else {
      DecimalRoundTrip(n);
      assert IntToString(n)[0] != '-';
    }
  }

  /**
   * `String(j)`, as `new Error(j)` and a template literal apply it; `None` is the
   * TypeError the conversion throws. An object converts through its `toString`:
   * the inherited one gives "[object Object]", but an own `toString` key holds
   * a JSON value, which is not callable, and the inherited `valueOf` returns the
   * object itself, so no primitive is found and the conversion throws. Arrays
   * join their elements' strings with commas (`null` becomes the empty string).
   */
  function ToJsString(j: Json): (r: Option<string>)
    ensures j.JStr? ==> r == Some(j.s)
    ensures j.JObj? ==> (r.None? <==> "toString" in j.fields)
    ensures j.JObj? && r.Some? ==> r.value == "[object Object]"
    ensures j.JNull? ==> r == Some("null")
    ensures j.JBool? ==> r == Some(if j.b then "true" else "false")
    ensures j.JNum? ==> r == Some(IntToString(j.n))
    ensures j.JArr? && |j.elems| == 0 ==> r == Some("")
    ensures j.JArr? && |j.elems| == 1 ==> r == ElementString(j.elems[0])
    decreases j, 1
  {
    match j
    case JNull => Some("null")
    case JBool(b) => Some(if b then "true" else "false")
    case JNum(n) => Some(IntToString(n))
    case JStr(s) => Some(s)
    case JArr(elems) => JoinElements(j, 0)
    case JObj(fields) => if "toString" in fields then None else Some("[object Object]")
  }

  /** The string an array element contributes to the array's string: "" for `null`. */
  function ElementString(e: Json): (r: Option<string>)
    ensures e.JNull? ==> r == Some("")
    ensures !e.JNull? ==> r == ToJsString(e)
    decreases e, 2
  {
    if e.JNull? then Some("") else ToJsString(e)
  }

  /** The comma-separated strings of the array `arr`'s elements from position `from` on. */
  function JoinElements(arr: Json, from: nat): (r: Option<string>)
    requires arr.JArr? && from <= |arr.elems|
    ensures from == |arr.elems| ==> r == Some("")
    ensures from + 1 == |arr.elems| ==> r == ElementString(arr.elems[from])
    decreases arr, 0, |arr.elems| - from
  {
    if from == |arr.elems| then Some("")
    else
      match ElementString(arr.elems[from])
      case None => None
      case Some(item) =>
        if from + 1 == |arr.elems| then Some(item)
        else
          match JoinElements(arr, from + 1)
          case None => None
          case Some(rest) => Some(item + "," + rest)
  }

  /** Joining from position `from` of `es` is joining from `from - 1` of `es` without its head. */
  lemma {:induction false} JoinShift(es: seq<Json>, from: nat)
    requires 1 <= from <= |es|
    ensures JoinElements(JArr(es), from) == JoinElements(JArr(es[1..]), from - 1)
    decreases |es| - from
  {
    if from < |es| {
      assert JArr(es[1..]).elems[from - 1] == es[from];
      if from + 1 < |es| {
        JoinShift(es, from + 1);
      }
    }
  }

  /**
   * An array of two or more elements renders as its first element's string, a
   * comma, and the string of the rest; it throws exactly when one of them does.
   */
  lemma ArrayStringIsCommaJoined(es: seq<Json>)
    requires |es| >= 2
    ensures var whole := ToJsString(JArr(es));
            var head := ElementString(es[0]);
            var tail := ToJsString(JArr(es[1..]));
            && (whole.Some? <==> head.Some? && tail.Some?)
            && (whole.Some? ==> whole.value == head.value + "," + tail.value)
  {
    JoinShift(es, 1);
  }

  /**
   * The characters `String.prototype.trim` removes: the ECMAScript WhiteSpace
   * code points (tab, vertical tab, form feed, space, no-break space, the byte
   * order mark and the other space separators) and the line terminators.
   */
  predicate IsJsWhitespace(c: char) {
    || c == '\t' || c == '\n' || c == '\U{000B}' || c == '\U{000C}' || c == '\r'
    || c == ' ' || c == '\U{00A0}' || c == '\U{1680}'
    || ('\U{2000}' <= c <= '\U{200A}')
    || c == '\U{2028}' || c == '\U{2029}' || c == '\U{202F}' || c == '\U{205F}'
    || c == '\U{3000}' || c == '\U{FEFF}'
  }

  /** True when every character of `s` at a position in `[lo, hi)` is white space. */
  predicate WhitespaceBetween(s: string, lo: nat, hi: nat) {
    forall k :: lo <= k < hi && k < |s| ==> IsJsWhitespace(s[k])
  }

  /** True when every character of `s` is white space (vacuously for ""). */
  predicate AllWhitespace(s: string) {
    WhitespaceBetween(s, 0, |s|)
  }

  /** The position of the first character at or after `i` that is not white space, or `|s|`. */
  function FirstNonSpace(s: string, i: nat): (lo: nat)
    requires i <= |s|
    ensures i <= lo <= |s|
    ensures WhitespaceBetween(s, i, lo)
    ensures lo == |s| || !IsJsWhitespace(s[lo])
    decreases |s| - i
  {
    if i < |s| && IsJsWhitespace(s[i]) then FirstNonSpace(s, i + 1) else i
  }

  /** The position just after the last character before `j` that is not white space, or 0. */
  function EndNonSpace(s: string, j: nat): (hi: nat)
    requires j <= |s|
    ensures hi <= j
    ensures WhitespaceBetween(s, hi, j)
    ensures hi == 0 || !IsJsWhitespace(s[hi - 1])
    decreases j
  {
    if j > 0 && IsJsWhitespace(s[j - 1]) then EndNonSpace(s, j - 1) else j
  }

  /** `s` with its leading white space removed. */
  function TrimStart(s: string): (r: string)
    ensures |r| <= |s| && r == s[|s| - |r|..]
    ensures WhitespaceBetween(s, 0, |s| - |r|)
    ensures r == [] || !IsJsWhitespace(r[0])
  {
    s[FirstNonSpace(s, 0)..]
  }

  /** `s` with its trailing white space removed. */
  function TrimEnd(s: string): (r: string)
    ensures |r| <= |s| && r == s[..|r|]
    ensures WhitespaceBetween(s, |r|, |s|)
    ensures r == [] || !IsJsWhitespace(r[|r| - 1])
  {
    s[..EndNonSpace(s, |s|)]
  }

  /**
   * `s.trim()`: no longer than `s`, empty exactly when `s` is all white space,
   * and otherwise starting and ending with a non-white-space character.
   */
  function Trim(s: string): (r: string)
    ensures |r| <= |s|
    ensures r == [] <==> AllWhitespace(s)
    ensures r != [] ==> !IsJsWhitespace(r[0]) && !IsJsWhitespace(r[|r| - 1])
  {
    TrimEnd(TrimStart(s))
  }

  /**
   * `s.trim()` keeps exactly the stretch between the first and the last
   * non-white-space character: it is a slice of `s`, everything cut away is
   * white space, and it neither starts nor ends with white space.
   */
  lemma TrimIsMaximalSlice(s: string)
    ensures exists lo, hi :: 0 <= lo <= hi <= |s| && Trim(s) == s[lo..hi]
                             && WhitespaceBetween(s, 0, lo) && WhitespaceBetween(s, hi, |s|)
    ensures Trim(s) == [] || (!IsJsWhitespace(Trim(s)[0]) && !IsJsWhitespace(Trim(s)[|Trim(s)| - 1]))
  {
    var t := TrimStart(s);
    var u := TrimEnd(t);
    var lo := |s| - |t|;
    var hi := lo + |u|;
    assert u == s[lo..hi];
    assert WhitespaceBetween(s, hi, |s|) by {
      forall k | hi <= k < |s|
        ensures IsJsWhitespace(s[k])
      {
        assert s[k] == t[k - lo];
      }
    }
    if u != [] {
      assert u[0] == t[0];
    }
  }

  /** `!s.trim()` holds exactly when `s` consists of white space only. */
  lemma TrimEmptyIffAllWhitespace(s: string)
    ensures Trim(s) == [] <==> AllWhitespace(s)
  {
  }
}
