/** The PHP run-time behaviour that LeafletMapMarker relies on: dynamic values,
    their conversions to bool, int and string, `is_numeric`, `str_replace` of one
    character and the loose `==` between two strings.  Integers are PHP's 64-bit
    integers. */
module Php {
  import opened Wrappers

  const MinInt: int := -0x8000_0000_0000_0000
  const MaxInt: int := 0x7FFF_FFFF_FFFF_FFFF

  /** A PHP integer on a 64-bit build. */
  type PhpInt = n: int | MinInt <= n <= MaxInt

  /** The dynamic values a WireData field can hold in this model. */
  datatype Value = Null | Bool(b: bool) | Int(n: PhpInt) | Str(s: string)

  /** PHP's conversion to bool, as in `if ($v)` and `!empty($v)`: null, false,
      0, "" and "0" are false, everything else is true. */
  predicate Truthy(v: Value): (b: bool)
    ensures b <==> v !in {Null, Bool(false), Int(0), Str(""), Str("0")}
  {
    match v
    case Null => false
    case Bool(b) => b
    case Int(n) => n != 0
    case Str(s) => s != "" && s != "0"
  }

  predicate IsDigit(c: char)
  {
    '0' <= c <= '9'
  }

  predicate AllDigits(s: string)
  {
    forall i :: 0 <= i < |s| ==> IsDigit(s[i])
  }

  function DigitChar(d: nat): (c: char)
    requires d < 10
    ensures IsDigit(c)
  {
    "0123456789"[d]
  }

  function DigitVal(c: char): (d: nat)
    ensures d < 10
    ensures IsDigit(c) ==> DigitChar(d) == c
  {
    if IsDigit(c) then (c - '0') as nat else 0
  }

  /** The decimal digits of `n`, without leading zeros. */
  function DigitsText(n: nat): (r: string)
    ensures |r| > 0 && AllDigits(r)
    ensures n < 10 <==> |r| == 1
    ensures r[0] == '0' ==> n == 0
  {
    if n < 10 then [DigitChar(n)] else DigitsText(n / 10) + [DigitChar(n % 10)]
  }

  /** The number that a string of decimal digits denotes. */
  function DigitsValue(s: string): nat
  {
    if s == [] then 0 else DigitsValue(s[..|s| - 1]) * 10 + DigitVal(s[|s| - 1])
  }

  lemma {:induction false} DigitsRoundTrip(n: nat)
    ensures DigitsValue(DigitsText(n)) == n
  {
    var t := DigitsText(n);
    if n >= 10 {
      DigitsRoundTrip(n / 10);
      assert t[..|t| - 1] == DigitsText(n / 10);
    }
  }

  /** PHP's decimal rendering of an integer (string interpolation). */
  function IntText(n: int): (r: string)
    ensures |r| > 0
    ensures r[0] == '-' <==> n < 0
    ensures n >= 0 ==> AllDigits(r)
    ensures n < 0 ==> AllDigits(r[1..])
  {
    if n < 0 then "-" + DigitsText(-n) else DigitsText(n)
  }

  /** PHP's conversion of a value to string. */
  function ToText(v: Value): (r: string)
    ensures v.Str? ==> r == v.s
    ensures v.Int? ==> r == IntText(v.n)
    ensures v == Null || v == Bool(false) ==> r == ""
    ensures v == Bool(true) ==> r == "1"
  {
    match v
    case Null => ""
    case Bool(b) => if b then "1" else ""
    case Int(n) => IntText(n)
    case Str(s) => s
  }

  /** Strict decimal integer syntax: an optional '-' and one or more digits. */
  function ParseInt(s: string): (r: Option<int>)
    ensures r.Some? ==> |s| > 0
    ensures r.Some? && s[0] != '-' ==> r.value >= 0
  {
    if |s| > 0 && s[0] == '-' && |s| > 1 && AllDigits(s[1..]) then Some(-(DigitsValue(s[1..]) as int))
    else if |s| > 0 && AllDigits(s) then Some(DigitsValue(s))
    else None
  }

  lemma ParseIntText(n: int)
    ensures ParseInt(IntText(n)) == Some(n)
  {
    var t := IntText(n);
    if n < 0 {
      var d := DigitsText(-n);
      assert t == "-" + d;
      assert t[1..] == d;
      DigitsRoundTrip(-n);
      assert ParseInt(t) == Some(-(DigitsValue(d) as int));
    } else {
      assert t == DigitsText(n);
      DigitsRoundTrip(n);
      assert t[0] != '-';
    }
  }

  /** The longest prefix of `s` made of digits. */
  function LeadingDigits(s: string): (r: string)
    ensures r <= s && AllDigits(r)
    ensures |r| < |s| ==> !IsDigit(s[|r|])
  {
    if s == [] || !IsDigit(s[0]) then [] else [s[0]] + LeadingDigits(s[1..])
  }

  /** An integer string that does not fit in 64 bits saturates. */
  function Clamp(n: int): (r: PhpInt)
    ensures MinInt <= n <= MaxInt ==> r == n
    ensures n > MaxInt ==> r == MaxInt
    ensures n < MinInt ==> r == MinInt
  {
    if n < MinInt then MinInt else if n > MaxInt then MaxInt else n
  }

  /** The leading optionally signed run of digits of `s`, as a number
      ("12abc" is 12, "-7" is -7, "abc" is 0). */
  function LeadingInt(s: string): int
  {
    if |s| > 0 && s[0] == '-' then -(DigitsValue(LeadingDigits(s[1..])) as int)
    else if |s| > 0 && s[0] == '+' then DigitsValue(LeadingDigits(s[1..]))
    else DigitsValue(LeadingDigits(s))
  }

  /** PHP's `(int)` cast.  A string that denotes an integer beyond 64 bits
      saturates. */
  function IntCast(v: Value): (r: PhpInt)
    ensures v.Int? ==> r == v.n
    ensures v == Null || v == Bool(false) ==> r == 0
    ensures v == Bool(true) ==> r == 1
    ensures v.Str? && (v.s == [] || !(IsDigit(v.s[0]) || v.s[0] == '-' || v.s[0] == '+' || v.s[0] == '.')) ==> r == 0
  {
    match v
    case Null => 0
    case Bool(b) => if b then 1 else 0
    case Int(n) => n
    case Str(s) => Clamp(LeadingInt(s))
  }

  /** Reading digits stops at the first character that is not one. */
  lemma {:induction false} LeadingDigitsPrefix(d: string, rest: string)
    requires AllDigits(d) && (rest == [] || !IsDigit(rest[0]))
    ensures LeadingDigits(d + rest) == d
  {
    if d != [] {
      assert (d + rest)[1..] == d[1..] + rest;
      LeadingDigitsPrefix(d[1..], rest);
    }
  }

  /** The leading integer of a string that starts with the digits of `m` is `m`. */
  lemma LeadingIntDigits(m: nat, rest: string)
    requires rest == [] || !IsDigit(rest[0])
    ensures LeadingInt(DigitsText(m) + rest) == m
  {
    var d := DigitsText(m);
    LeadingDigitsPrefix(d, rest);
    DigitsRoundTrip(m);
    assert IsDigit((d + rest)[0]);
  }

  /** The leading integer of a string that starts with '-' and the digits of
      `m` is `-m`. */
  lemma LeadingIntMinusDigits(m: nat, rest: string)
    requires rest == [] || !IsDigit(rest[0])
    ensures LeadingInt("-" + DigitsText(m) + rest) == -(m as int)
  {
    var d := DigitsText(m);
    var s := "-" + d + rest;
    assert s[0] == '-' && s[1..] == d + rest;
    LeadingDigitsPrefix(d, rest);
    DigitsRoundTrip(m);
  }

  /** The leading integer of a string that starts with the decimal text of
      an integer is that integer. */
  lemma LeadingIntPrefix(n: int, rest: string)
    requires rest == [] || !IsDigit(rest[0])
    ensures LeadingInt(IntText(n) + rest) == n
  {
    if n < 0 {
      LeadingIntMinusDigits(-n, rest);
      assert IntText(n) + rest == "-" + DigitsText(-n) + rest;
    } else {
      LeadingIntDigits(n, rest);
      assert IntText(n) == DigitsText(n);
    }
  }

  /** `(int)` of a string that starts with the decimal text of an integer
      ("12abc", "-7 km") is that integer, saturated to 64 bits.  A '.' or an
      exponent after the digits makes PHP read the string as a double, so
      those are excluded. */
  lemma IntCastLeading(n: int, rest: string)
    requires rest == [] || !(IsDigit(rest[0]) || rest[0] in ".eE")
    ensures IntCast(Str(IntText(n) + rest)) == Clamp(n)
  {
    LeadingIntPrefix(n, rest);
  }

  /** A leading '+' is skipped: `(int)"+5"` is 5. */
  lemma IntCastPlus(n: nat, rest: string)
    requires rest == [] || !(IsDigit(rest[0]) || rest[0] in ".eE")
    ensures IntCast(Str("+" + DigitsText(n) + rest)) == Clamp(n)
  {
    var d := DigitsText(n);
    var s := "+" + d + rest;
    assert s[1..] == d + rest;
    LeadingDigitsPrefix(d, rest);
    DigitsRoundTrip(n);
  }

  /** `str_replace(from, to, s)` for single characters. */
  function ReplaceChar(s: string, from: char, to: char): (r: string)
    ensures |r| == |s|
    ensures forall i :: 0 <= i < |s| ==> r[i] == (if s[i] == from then to else s[i])
  {
    seq(|s|, i requires 0 <= i < |s| => if s[i] == from then to else s[i])
  }

  lemma ReplaceCharRemoves(s: string, from: char, to: char)
    requires from != to
    ensures from !in ReplaceChar(s, from, to)
  {
  }

  lemma ReplaceCharAbsent(s: string, from: char, to: char)
    ensures from !in s ==> ReplaceChar(s, from, to) == s
  {
  }

  /** The part of a numeric string after its optional sign. */
  function Unsigned(s: string): string
  {
    if |s| > 0 && (s[0] == '+' || s[0] == '-') then s[1..] else s
  }

  /** Digits with at most one '.', and at least one digit. */
  predicate IsDecimalBody(b: string)
  {
    && (forall i :: 0 <= i < |b| ==> IsDigit(b[i]) || b[i] == '.')
    && (forall i, j :: 0 <= i < j < |b| ==> !(b[i] == '.' && b[j] == '.'))
    && (exists i :: 0 <= i < |b| && IsDigit(b[i]))
  }

  /** A string whose unsigned part is a decimal body holds only digits, '.',
      and a sign in front. */
  lemma DecimalChars(s: string)
    requires IsDecimalBody(Unsigned(s))
    ensures s != ""
    ensures forall i :: 0 <= i < |s| ==> IsDigit(s[i]) || s[i] == '.' || (i == 0 && (s[i] == '+' || s[i] == '-'))
  {
    var u := Unsigned(s);
    forall i | 0 <= i < |s|
      ensures IsDigit(s[i]) || s[i] == '.' || (i == 0 && (s[i] == '+' || s[i] == '-'))
    {
      if |s| > 0 && (s[0] == '+' || s[0] == '-') && i > 0 {
        assert s[i] == u[i - 1];
      }
    }
  }

  /** `is_numeric` on a string, restricted to plain decimal notation: an
      optional sign, digits and at most one decimal point, with at least one
      digit. */
  predicate IsNumeric(s: string): (b: bool)
    ensures b ==> s != ""
    ensures b ==> forall i :: 0 <= i < |s| ==> IsDigit(s[i]) || s[i] == '.' || (i == 0 && (s[i] == '+' || s[i] == '-'))
  {
    if IsDecimalBody(Unsigned(s)) then DecimalChars(s); true else false
  }

  /** The text of every integer is numeric. */
  lemma IntTextNumeric(n: int)
    ensures IsNumeric(IntText(n))
  {
    var t := IntText(n);
    var b := Unsigned(t);
    if n < 0 {
      assert b == t[1..];
    } else {
      assert b == t;
    }
    assert IsDigit(b[0]);
  }

  /** The split of `s` around its last `c`. */
  function SplitLast(s: string, c: char): (r: Option<(string, string)>)
    ensures r.Some? ==> s == r.value.0 + [c] + r.value.1 && c !in r.value.1
    ensures r.None? <==> c !in s
  {
    if s == [] then None
    else if s[|s| - 1] == c then Some((s[..|s| - 1], []))
    else match SplitLast(s[..|s| - 1], c)
      case None => None
      case Some(p) => Some((p.0, p.1 + [s[|s| - 1]]))
  }

  /** A split around a `c` that is followed by no other `c` is the one SplitLast finds. */
  lemma {:induction false} SplitLastUnique(x: string, c: char, y: string)
    requires c !in y
    ensures SplitLast(x + [c] + y, c) == Some((x, y))
  {
    var s := x + [c] + y;
    if y == [] {
      assert s[..|s| - 1] == x;
    } else {
      var y' := y[..|y| - 1];
      SplitLastUnique(x, c, y');
      assert s[..|s| - 1] == x + [c] + y';
      assert y' + [y[|y| - 1]] == y;
    }
  }

  function Pow10(k: nat): (r: nat)
    ensures r >= 1
  {
    if k == 0 then 1 else 10 * Pow10(k - 1)
  }

  /** The value of a numeric string. */
  function NumericValue(s: string): real
  {
    var body := Unsigned(s);
    var parts := match SplitLast(body, '.') case None => (body, "") case Some(p) => p;
    var magnitude := DigitsValue(parts.0) as real + DigitsValue(parts.1) as real / Pow10(|parts.1|) as real;
    if |s| > 0 && s[0] == '-' then -magnitude else magnitude
  }

  /** PHP 8's `==` between two strings: two numeric strings compare as numbers,
      any other pair compares as text. */
  predicate LooseEquals(a: string, b: string): (r: bool)
    ensures a == b ==> r
    ensures !(IsNumeric(a) && IsNumeric(b)) ==> (r <==> a == b)
  {
    if IsNumeric(a) && IsNumeric(b) then NumericValue(a) == NumericValue(b) else a == b
  }

  lemma DigitsValueTen()
    ensures DigitsValue("10") == 10 && DigitsValue("0") == 0
  {
    assert "10"[..1] == "1" && "1"[..0] == "";
  }

  lemma TenIsNumeric()
    ensures IsNumeric("10") && NumericValue("10") == 10.0
  {
    var a := "10";
    assert Unsigned(a) == a && IsDigit(a[0]);
    assert SplitLast(a, '.') == None;
    DigitsValueTen();
  }

  lemma TenPointZeroIsNumeric()
    ensures IsNumeric("10.0") && NumericValue("10.0") == 10.0
  {
    var b := "10.0";
    assert Unsigned(b) == b && IsDigit(b[0]);
    assert b == "10" + ['.'] + "0";
    SplitLastUnique("10", '.', "0");
    DigitsValueTen();
  }

  /** Two different strings can still be loosely equal. */
  lemma LooseEqualsNumeric()
    ensures LooseEquals("10", "10.0") && "10" != "10.0"
  {
    TenIsNumeric();
    TenPointZeroIsNumeric();
  }
}
