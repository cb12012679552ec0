/**
 The slice of PHP's value model that the requirement checker touches: the
 values a requirement closure may return, and the three casts the checker
 applies to them — `(bool)` when a closure's result decides whether a
 requirement is met, `(string)` when a plugin name or a failure message is
 stored, and `(array)` when the `active_plugins` option is searched.

 Floats are not modelled. A PHP array is modelled by the sequence of its
 values in order; keys play no part in truthiness, in the `(array)` cast of
 an array, or in a value search with `in_array`.
 */
module PhpValues {

  datatype Value =
    | Null
    | Bool(b: bool)
    | Int(i: int)
    | Str(s: string)
    | Arr(elems: seq<Value>)

  /** True for the values that are not arrays. */
  predicate IsScalarOrNull(v: Value) {
    !v.Arr?
  }

  /** PHP's `(bool)` cast, restricted to the values above. */
  function ToBool(v: Value): (r: bool)
    ensures !r <==> (v == Null || v == Bool(false) || v == Int(0) || v == Str("") || v == Str("0") || v == Arr([]))
  {
    match v
    case Null => false
    case Bool(b) => b
    case Int(i) => i != 0
    case Str(s) => s != "" && s != "0"
    case Arr(elems) => |elems| > 0
  }

  predicate IsDigit(c: char) {
    '0' <= c <= '9'
  }

  predicate AllDigits(s: string) {
    forall k :: 0 <= k < |s| ==> IsDigit(s[k])
  }

  function DigitChar(d: nat): (c: char)
    requires d < 10
    ensures IsDigit(c)
    ensures c == '0' <==> d == 0
  {
    "0123456789"[d]
  }

  function DigitValue(c: char): (d: nat)
    requires IsDigit(c)
    ensures d < 10
    ensures DigitChar(d) == c
  {
    (c as int - '0' as int) as nat
  }

  /** Decimal rendering of a natural number: digits only, no leading zero. */
  function NatToDecimal(n: nat): (s: string)
    ensures |s| >= 1
    ensures AllDigits(s)
    ensures |s| > 1 ==> s[0] != '0'
    ensures s[0] == '0' ==> n == 0
    decreases n
  {
    if n < 10 then [DigitChar(n)] else NatToDecimal(n / 10) + [DigitChar(n % 10)]
  }

  /** The number a string of decimal digits denotes. */
  function DecimalValue(s: string): nat
    requires AllDigits(s)
    decreases |s|
  {
    if s == [] then 0 else DecimalValue(s[..|s| - 1]) * 10 + DigitValue(s[|s| - 1])
  }

  /** Reading back a rendered number gives the number. */
  lemma {:induction false} DecimalRoundTrip(n: nat)
    ensures DecimalValue(NatToDecimal(n)) == n
    decreases n
  {
    if n >= 10 {
      var prefix := NatToDecimal(n / 10);
      var s := prefix + [DigitChar(n % 10)];
      assert s[..|s| - 1] == prefix;
      DecimalRoundTrip(n / 10);
      assert DigitValue(DigitChar(n % 10)) == n % 10;
    } else {
      var s := [DigitChar(n)];
      assert s[..0] == [];
      assert DigitValue(DigitChar(n)) == n;
    }
  }

  /** PHP renders an integer as an optional minus sign followed by its magnitude in decimal. */
  function IntToDecimal(i: int): (s: string)
    ensures |s| >= 1
    ensures i < 0 <==> s[0] == '-'
    ensures i >= 0 ==> AllDigits(s) && DecimalValue(s) == i
    ensures i < 0 ==> AllDigits(s[1..]) && DecimalValue(s[1..]) == -i
    ensures i != 0 ==> s[if i < 0 then 1 else 0] != '0'
  {
    if i < 0 then
      NegativeRendering(-i);
      "-" + NatToDecimal(-i)
    else
      DecimalRoundTrip(i);
      NatToDecimal(i)
  }

  /** A minus sign in front of a positive magnitude's digits leaves those digits readable after it. */
  lemma NegativeRendering(n: nat)
    requires n > 0
    ensures var s := "-" + NatToDecimal(n);
      && |s| >= 2 && s[0] == '-' && s[1] != '0'
      && AllDigits(s[1..]) && DecimalValue(s[1..]) == n
  {
    var m := NatToDecimal(n);
    var s := "-" + m;
    assert s[1..] == m;
    DecimalRoundTrip(n);
  }

  /** The rendering is injective: distinct integers render differently. */
  lemma IntToDecimalInjective(i: int, j: int)
    requires IntToDecimal(i) == IntToDecimal(j)
    ensures i == j
  {
  }

  /** Only zero renders as "0". */
  lemma IntToDecimalZero(i: int)
    ensures IntToDecimal(i) == "0" <==> i == 0
  {
    if IntToDecimal(i) == "0" {
      assert DecimalValue("0") == 0 by {
        assert "0"[..0] == [];
      }
    }
  }

  /** PHP's `(string)` cast, restricted to the values above (an array becomes "Array"). */
  function ToStr(v: Value): (r: string)
    ensures v.Str? ==> r == v.s
    ensures r == "" <==> (v == Null || v == Bool(false) || v == Str(""))
    ensures v == Bool(true) ==> r == "1"
    ensures v.Int? ==> r == IntToDecimal(v.i)
    ensures v.Arr? ==> r == "Array"
  {
    match v
    case Null => ""
    case Bool(b) => if b then "1" else ""
    case Int(i) => IntToDecimal(i)
    case Str(s) => s
    case Arr(_) => "Array"
  }

  /**
   For every value that is not an array, casting to string first does not
   change its truthiness; an array is the exception, since every array
   (even the empty one) becomes the truthy string "Array".
   */
  lemma StringCastKeepsTruthiness(v: Value)
    ensures IsScalarOrNull(v) ==> ToBool(Str(ToStr(v))) == ToBool(v)
    ensures v.Arr? ==> ToBool(Str(ToStr(v)))
  {
    if v.Int? {
      IntToDecimalZero(v.i);
    }
  }

  /** PHP's `(array)` cast, as the sequence of the resulting array's values. */
  function ToArray(v: Value): (r: seq<Value>)
    ensures v.Arr? ==> r == v.elems
    ensures v == Null ==> r == []
    ensures IsScalarOrNull(v) && v != Null ==> r == [v]
  {
    match v
    case Null => []
    case Arr(elems) => elems
    case _ => [v]
  }

  /** `in_array($needle, $haystack, true)`: a strict (`===`) search among the values. */
  predicate InArrayStrict(needle: Value, haystack: seq<Value>): (found: bool)
    ensures found <==> needle in haystack
  {
    exists k :: 0 <= k < |haystack| && haystack[k] == needle
  }

  /**
   Searching the `(array)` cast of a value strictly for a string finds it
   exactly when the value is that string, or an array holding that string.
   */
  lemma StrictSearchOfCast(needle: string, v: Value)
    ensures InArrayStrict(Str(needle), ToArray(v)) <==> (v == Str(needle) || (v.Arr? && Str(needle) in v.elems))
  {
    if v.Arr? {
      if Str(needle) in v.elems {
        var k :| 0 <= k < |v.elems| && v.elems[k] == Str(needle);
        assert ToArray(v)[k] == Str(needle);
      }
    } else if v != Null {
      if v == Str(needle) {
        assert ToArray(v)[0] == Str(needle);
      }
    }
  }
}
