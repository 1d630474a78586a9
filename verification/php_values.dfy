/** The PHP value semantics the backend depends on: the scalar values a JSON
    request body decodes to, `empty()`, `isset()`, `is_numeric()` with the
    `(float)` conversion that follows it, the `(int)` cast applied to query
    parameters, and the loose `in_array` comparison of the status check. */
module PhpValues {
  import opened Outcomes

  /** A scalar PHP value as decoded from a JSON request body. */
  datatype Value = VNull | VBool(b: bool) | VInt(i: int) | VReal(r: real) | VStr(s: string)

  /** PHP's `empty()` on a string: the empty string and "0" are empty. */
  predicate EmptyString(s: string) {
    s == "" || s == "0"
  }

  /** PHP's `empty()` on a value: every falsy value is empty. */
  predicate Empty(v: Value) {
    match v
    case VNull => true
    case VBool(b) => !b
    case VInt(i) => i == 0
    case VReal(r) => r == 0.0
    case VStr(s) => EmptyString(s)
  }

  /** `isset($data[k])`: the key is present and its value is not null. */
  predicate Isset(data: map<string, Value>, k: string) {
    k in data && data[k] != VNull
  }

  /** `isset($data[k]) && !empty($data[k])`, the required-field test. */
  predicate Filled(data: map<string, Value>, k: string) {
    Isset(data, k) && !Empty(data[k])
  }

  predicate IsDigit(c: char) {
    '0' <= c <= '9'
  }

  predicate AllDigits(s: string) {
    forall i :: 0 <= i < |s| ==> IsDigit(s[i])
  }

  /** Ten to the power `n`, the weight of a digit string's length;
      `DigitsValueBound` states what it bounds. */
  function Pow10(n: nat): (p: nat)
    ensures p >= 1
  {
    if n == 0 then 1 else 10 * Pow10(n - 1)
  }

  /** The natural number a string of decimal digits denotes. */
  function DigitsValue(s: string): nat
    requires AllDigits(s)
  {
    if |s| == 0 then 0
    else 10 * DigitsValue(s[..|s| - 1]) + ((s[|s| - 1] as int) - ('0' as int))
  }

  /** A digit string denotes a number below 10 to the power of its length;
      in particular it denotes zero exactly when every digit is '0'. */
  lemma {:induction false} DigitsValueBound(s: string)
    requires AllDigits(s)
    ensures DigitsValue(s) < Pow10(|s|)
    ensures DigitsValue(s) == 0 <==> forall i :: 0 <= i < |s| ==> s[i] == '0'
  {
    if |s| > 0 {
      var init := s[..|s| - 1];
      DigitsValueBound(init);
      assert forall i :: 0 <= i < |init| ==> init[i] == s[i];
    }
  }

  /** Splits an optional leading sign off a numeric string: whether it was
      '-' and what follows it. */
  function SplitSign(s: string): (r: (bool, string))
    ensures r.1 == s || (|s| > 0 && (s[0] == '-' || s[0] == '+') && r.1 == s[1..])
    ensures r.0 ==> |s| > 0 && s[0] == '-'
  {
    if |s| > 0 && (s[0] == '-' || s[0] == '+') then (s[0] == '-', s[1..]) else (false, s)
  }

  /** Index of the first '.' in `s`, or `|s|` when there is none. */
  function DotIndex(s: string): (k: nat)
    ensures k <= |s|
    ensures k < |s| ==> s[k] == '.'
    ensures forall i :: 0 <= i < k ==> s[i] != '.'
  {
    if |s| == 0 then 0
    else if s[0] == '.' then 0
    else 1 + DotIndex(s[1..])
  }

  /** An unsigned decimal literal, `digits [ '.' digits ]` with at least one
      digit in all, and the number it denotes. */
  function UnsignedDecimal(s: string): (r: Option<real>)
    ensures r.Some? ==> r.value >= 0.0
    ensures r.Some? ==> exists i :: 0 <= i < |s| && IsDigit(s[i])
  {
    var dot := DotIndex(s);
    var whole := s[..dot];
    var frac := if dot < |s| then s[dot + 1..] else "";
    if AllDigits(whole) && AllDigits(frac) && |whole| + |frac| > 0 then
      assert |whole| > 0 ==> IsDigit(s[0]);
      assert |whole| == 0 ==> IsDigit(s[dot + 1]);
      Some(DigitsValue(whole) as real + DigitsValue(frac) as real / Pow10(|frac|) as real)
    else
      None
  }

  /** The number a numeric string denotes, or `None` when `is_numeric` would
      reject it. Exponents and surrounding whitespace are not modelled. */
  function NumericString(s: string): (r: Option<real>)
    ensures r.Some? ==> exists i :: 0 <= i < |s| && IsDigit(s[i])
    ensures r.Some? && r.value < 0.0 ==> s[0] == '-'
  {
    var (negative, body) := SplitSign(s);
    match UnsignedDecimal(body)
    case None => None
    case Some(m) =>
      assert exists i :: 0 <= i < |body| && IsDigit(body[i]);
      assert exists i :: 0 <= i < |s| && IsDigit(s[i]) by {
        var i :| 0 <= i < |body| && IsDigit(body[i]);
        if body != s { assert s[i + 1] == body[i]; }
      }
      Some(if negative then -m else m)
  }

  /** The first '.' after a run of digits is where the run ends. */
  lemma {:induction false} DotIndexAfterDigits(d: string, rest: string)
    requires AllDigits(d) && (rest == "" || rest[0] == '.')
    ensures DotIndex(d + rest) == |d|
  {
    if |d| > 0 {
      assert (d + rest)[0] == d[0] && (d + rest)[1..] == d[1..] + rest;
      DotIndexAfterDigits(d[1..], rest);
    } else {
      assert d + rest == rest;
    }
  }

  /** A non-empty digit string denotes its digits' value. */
  lemma UnsignedWhole(d: string)
    requires AllDigits(d) && |d| > 0
    ensures UnsignedDecimal(d).Some? && UnsignedDecimal(d).value == DigitsValue(d) as real
  {
    DotIndexAfterDigits(d, "");
    assert d + "" == d;
    assert d[..DotIndex(d)] == d;
    var zero: real := DigitsValue("") as real / Pow10(|""|) as real;
    assert zero == 0.0;
  }

  /** Digits, a '.' and fraction digits, with at least one digit in all,
      denote the whole part plus the fraction. */
  lemma UnsignedFraction(d: string, e: string)
    requires AllDigits(d) && AllDigits(e) && |d| + |e| > 0
    ensures UnsignedDecimal(d + "." + e).Some?
    ensures UnsignedDecimal(d + "." + e).value == DigitsValue(d) as real + DigitsValue(e) as real / Pow10(|e|) as real
  {
    var s := d + "." + e;
    assert s == d + ("." + e);
    DotIndexAfterDigits(d, "." + e);
    assert s[..|d|] == d;
    assert s[|d| + 1..] == e;
  }

  /** A leading '-' is split off as a minus sign. */
  lemma SplitMinus(s: string)
    ensures SplitSign("-" + s) == (true, s)
  {
    assert ("-" + s)[1..] == s;
  }

  /** A leading '+' is split off as a plus sign. */
  lemma SplitPlus(s: string)
    ensures SplitSign("+" + s) == (false, s)
  {
    assert ("+" + s)[1..] == s;
  }

  /** An unsigned literal that does not start with a sign is numeric as it
      stands, and under a '+' or a '-' it denotes its value or the negation. */
  lemma SignedDecimal(body: string)
    requires UnsignedDecimal(body).Some?
    requires |body| == 0 || (body[0] != '-' && body[0] != '+')
    ensures NumericString(body).Some? && NumericString(body).value == UnsignedDecimal(body).value
    ensures NumericString("+" + body).Some? && NumericString("+" + body).value == UnsignedDecimal(body).value
    ensures NumericString("-" + body).Some? && NumericString("-" + body).value == -UnsignedDecimal(body).value
  {
    SplitPlus(body);
    SplitMinus(body);
  }

  /** The number a decimal literal denotes, with no sign, a '+' or a '-':
      its digits, or its digits, a '.' and its fraction digits. */
  lemma NumericStringValue(d: string, e: string)
    requires AllDigits(d) && AllDigits(e)
    ensures |d| > 0 ==> NumericString(d).Some? && NumericString(d).value == DigitsValue(d) as real
    ensures |d| > 0 ==> NumericString("+" + d).Some? && NumericString("+" + d).value == DigitsValue(d) as real
    ensures |d| > 0 ==> NumericString("-" + d).Some? && NumericString("-" + d).value == -(DigitsValue(d) as real)
    ensures |d| + |e| > 0 ==> NumericString(d + "." + e).Some?
    ensures |d| + |e| > 0 ==>
      NumericString(d + "." + e).value == DigitsValue(d) as real + DigitsValue(e) as real / Pow10(|e|) as real
    ensures |d| + |e| > 0 ==> NumericString("-" + (d + "." + e)).Some?
    ensures |d| + |e| > 0 ==>
      NumericString("-" + (d + "." + e)).value == -(DigitsValue(d) as real + DigitsValue(e) as real / Pow10(|e|) as real)
  {
    if |d| > 0 {
      UnsignedWhole(d);
      assert IsDigit(d[0]);
      SignedDecimal(d);
    }
    if |d| + |e| > 0 {
      var s := d + "." + e;
      UnsignedFraction(d, e);
      assert s[0] == '.' || IsDigit(s[0]);
      SignedDecimal(s);
    }
  }

  /** An optionally signed decimal literal: a sign or none, then digits,
      or digits, a '.' and fraction digits, with at least one digit. */
  ghost predicate DecimalLiteral(s: string) {
    exists sign, d, e :: sign in {"", "+", "-"} && AllDigits(d) && AllDigits(e)
      && ((|d| > 0 && s == sign + d) || (|d| + |e| > 0 && s == sign + (d + "." + e)))
  }

  /** Every string `is_numeric` accepts is an optionally signed decimal
      literal: "12abc", "1.2.3" and "1-" are refused. */
  lemma NumericIsLiteral(s: string)
    requires NumericString(s).Some?
    ensures DecimalLiteral(s)
  {
    var body := SplitSign(s).1;
    var sign := SignOf(s);
    var d, e := LiteralParts(body);
    if |d| > 0 && body == d {
      assert s == sign + d;
    } else {
      assert s == sign + (d + "." + e);
    }
  }

  /** The sign `SplitSign` takes off, as the text it was. */
  lemma SignOf(s: string) returns (sign: string)
    ensures sign in {"", "+", "-"} && s == sign + SplitSign(s).1
  {
    var body := SplitSign(s).1;
    if body == s {
      sign := "";
    } else {
      sign := [s[0]];
      assert s == [s[0]] + s[1..];
    }
  }

  /** An unsigned decimal literal split into its whole and fraction digits. */
  lemma LiteralParts(body: string) returns (d: string, e: string)
    requires UnsignedDecimal(body).Some?
    ensures AllDigits(d) && AllDigits(e)
    ensures (|d| > 0 && body == d) || (|d| + |e| > 0 && body == d + "." + e)
  {
    var dot := DotIndex(body);
    d := body[..dot];
    e := if dot < |body| then body[dot + 1..] else "";
    if dot == |body| {
      assert body == d;
    } else {
      assert body == body[..dot] + [body[dot]] + body[dot + 1..];
    }
  }

  /** Every optionally signed decimal literal is numeric. */
  lemma LiteralIsNumeric(s: string)
    requires DecimalLiteral(s)
    ensures NumericString(s).Some?
  {
    var sign, d, e :| sign in {"", "+", "-"} && AllDigits(d) && AllDigits(e)
      && ((|d| > 0 && s == sign + d) || (|d| + |e| > 0 && s == sign + (d + "." + e)));
    var body := if |d| > 0 && s == sign + d then d else d + "." + e;
    if |d| > 0 && s == sign + d {
      UnsignedWhole(d);
      assert IsDigit(d[0]);
    } else {
      UnsignedFraction(d, e);
      assert body[0] == '.' || IsDigit(body[0]);
    }
    SignedDecimal(body);
    assert s == sign + body;
    if sign == "" {
      assert s == body;
    }
  }

  /** `is_numeric` accepts exactly the optionally signed decimal literals. */
  lemma NumericExactlyLiterals(s: string)
    ensures NumericString(s).Some? <==> DecimalLiteral(s)
  {
    if NumericString(s).Some? {
      NumericIsLiteral(s);
    }
    if DecimalLiteral(s) {
      LiteralIsNumeric(s);
    }
  }

  /** `is_numeric(v)` paired with `(float) v`: the number `v` denotes when it
      is numeric, `None` when it is not. Booleans and null are not numeric. */
  function Numeric(v: Value): (r: Option<real>)
    ensures v.VInt? ==> r == Some(v.i as real)
    ensures v.VReal? ==> r == Some(v.r)
    ensures v.VNull? || v.VBool? ==> r.None?
  {
    match v
    case VInt(i) => Some(i as real)
    case VReal(x) => Some(x)
    case VStr(s) => NumericString(s)
    case _ => None
  }

  /** Length of the longest all-digit prefix of `s`. */
  function LeadingDigits(s: string): (k: nat)
    ensures k <= |s|
    ensures AllDigits(s[..k])
    ensures k < |s| ==> !IsDigit(s[k])
  {
    if |s| == 0 || !IsDigit(s[0]) then 0
    else
      var k := 1 + LeadingDigits(s[1..]);
      assert s[..k] == [s[0]] + s[1..][..k - 1];
      k
  }

  /** PHP's `(int)` cast of a string: an optional sign and the leading
      digits; a string that starts with no digit casts to 0. */
  function IntCast(s: string): (n: int)
    ensures AllDigits(s) ==> n == DigitsValue(s)
    ensures |s| == 0 || !(IsDigit(s[0]) || s[0] == '-' || s[0] == '+') ==> n == 0
  {
    var (negative, body) := SplitSign(s);
    var k := LeadingDigits(body);
    assert AllDigits(s) ==> body == s && k == |s| && s[..k] == s;
    var m: int := DigitsValue(body[..k]);
    if negative then -m else m
  }

  /** The leading digits of digits followed by a non-digit are those digits. */
  lemma {:induction false} LeadingDigitsOf(d: string, rest: string)
    requires AllDigits(d) && (rest == "" || !IsDigit(rest[0]))
    ensures LeadingDigits(d + rest) == |d|
  {
    if |d| > 0 {
      assert (d + rest)[0] == d[0] && (d + rest)[1..] == d[1..] + rest;
      LeadingDigitsOf(d[1..], rest);
    } else {
      assert d + rest == rest;
    }
  }

  /** `(int)` reads the leading digits of what follows the sign, and
      negates them under a '-'. */
  lemma SignedCast(body: string)
    ensures IntCast("+" + body) == DigitsValue(body[..LeadingDigits(body)])
    ensures IntCast("-" + body) == -(DigitsValue(body[..LeadingDigits(body)]) as int)
    ensures |body| == 0 || (body[0] != '-' && body[0] != '+') ==>
      IntCast(body) == DigitsValue(body[..LeadingDigits(body)])
  {
    SplitPlus(body);
    SplitMinus(body);
  }

  /** `(int)` of a string that starts with digits, under an optional sign,
      is the number those digits denote; whatever follows them is ignored. */
  lemma IntCastPrefix(d: string, rest: string)
    requires AllDigits(d) && (rest == "" || !IsDigit(rest[0]))
    ensures |d| > 0 ==> IntCast(d + rest) == DigitsValue(d)
    ensures IntCast("+" + (d + rest)) == DigitsValue(d)
    ensures IntCast("-" + (d + rest)) == -(DigitsValue(d) as int)
  {
    var s := d + rest;
    LeadingDigitsOf(d, rest);
    assert s[..|d|] == d;
    if |d| > 0 {
      assert s[0] == d[0];
    }
    SignedCast(s);
  }

  /** PHP 8's loose `==` between a value and a non-empty string without
      digits (hence not numeric), such as a status name: strings compare
      exactly, `true` equals every such string, and null, `false` and numbers
      equal none of them. */
  predicate LooselyEqualsWord(v: Value, word: string)
    requires word != "" && forall i :: 0 <= i < |word| ==> !IsDigit(word[i])
  {
    match v
    case VStr(s) => s == word
    case VBool(b) => b
    case _ => false
  }
}
