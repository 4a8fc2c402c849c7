/** The cell-value inference `infer` of `parseCSV` (app/csvtojson/page.tsx): the
    empty cell stays empty, `true`/`false` in any letter case become lower case,
    a short decimal numeral becomes the text JavaScript's `String(Number(v))`
    gives it, and anything else is kept as it is. */
module Inference {
  import opened Results
  import opened Text

  // ---------------------------------------------------------------------------
  // Booleans: `/^(true|false)$/i`.

  /** Lower case for the ASCII letters, the only letters a non-Unicode
      case-insensitive regular expression folds onto `true` and `false`. */
  function LowerAscii(c: char): char {
    if 'A' <= c <= 'Z' then (c as int + 32) as char else c
  }

  /** `v` spells the lower-case word `w` in some mix of letter cases. */
  predicate EqualsIgnoringCase(v: string, w: string) {
    |v| == |w| && forall i :: 0 <= i < |v| ==> LowerAscii(v[i]) == w[i]
  }

  // ---------------------------------------------------------------------------
  // Decimal numerals: `/^-?\d+(\.\d+)?$/`.

  /** A numeral split at its sign and point; `frac` is empty when there is no point. */
  datatype Numeral = Numeral(neg: bool, whole: string, frac: string)

  predicate WellFormed(x: Numeral) {
    |x.whole| >= 1 && AllDigits(x.whole) && AllDigits(x.frac)
  }

  /** The digits of a numeral with the point written in, if any. */
  function UnsignedText(whole: string, frac: string): string {
    whole + (if frac == [] then [] else ['.'] + frac)
  }

  /** The text of a numeral. */
  function NumeralText(x: Numeral): string {
    (if x.neg then ['-'] else []) + UnsignedText(x.whole, x.frac)
  }

  lemma SplitAt<T>(u: seq<T>, k: nat)
    requires k < |u|
    ensures u == u[..k] + ([u[k]] + u[k + 1..])
  {
  }

  /** The numeral without sign that `u` spells, if it matches `\d+(\.\d+)?` in full. */
  function ParseUnsigned(neg: bool, u: string): (r: Option<Numeral>)
    ensures r.Some? ==> WellFormed(r.value) && r.value.neg == neg
                        && UnsignedText(r.value.whole, r.value.frac) == u
  {
    if '.' in u then
      var k := IndexOf(u, '.');
      if k >= 1 && k + 1 < |u| && AllDigits(u[..k]) && AllDigits(u[k + 1..]) then
        SplitAt(u, k);
        Some(Numeral(neg, u[..k], u[k + 1..]))
      else None
    else if |u| >= 1 && AllDigits(u) then Some(Numeral(neg, u, []))
    else None
  }

  /** The numeral `v` spells, if it matches `-?\d+(\.\d+)?` in full. */
  function ParseNumeral(v: string): (r: Option<Numeral>)
    ensures r.Some? ==> WellFormed(r.value) && NumeralText(r.value) == v
  {
    if |v| > 0 && v[0] == '-' then
      assert v == ['-'] + v[1..];
      ParseUnsigned(true, v[1..])
    else ParseUnsigned(false, v)
  }

  lemma DigitsHaveNoPoint(s: string)
    requires AllDigits(s)
    ensures '.' !in s
  {
  }

  /** The point of a well-formed numeral's digits is found right after its whole part. */
  lemma PointPosition(whole: string, frac: string)
    requires AllDigits(whole)
    ensures var u := whole + (['.'] + frac); '.' in u && IndexOf(u, '.') == |whole|
  {
    var u := whole + (['.'] + frac);
    var k := |whole|;
    assert u[k] == '.';
    DigitsHaveNoPoint(whole);
    assert u[..k] == whole;
  }

  lemma ParseUnsignedText(x: Numeral)
    requires WellFormed(x)
    ensures ParseUnsigned(x.neg, UnsignedText(x.whole, x.frac)) == Some(x)
  {
    var u := UnsignedText(x.whole, x.frac);
    if x.frac == [] {
      assert u == x.whole;
      DigitsHaveNoPoint(x.whole);
    } else {
      PointPosition(x.whole, x.frac);
      var k := |x.whole|;
      assert u[..k] == x.whole;
      assert u[k + 1..] == x.frac;
    }
  }

  /** Every well-formed numeral is read back from its text: together with the
      postcondition of `ParseNumeral`, the strings it accepts are exactly the texts of
      well-formed numerals. */
  lemma ParseNumeralText(x: Numeral)
    requires WellFormed(x)
    ensures ParseNumeral(NumeralText(x)) == Some(x)
  {
    var v, u := NumeralText(x), UnsignedText(x.whole, x.frac);
    ParseUnsignedText(x);
    assert u[0] != '-' by {
      assert u[0] == x.whole[0] && IsDigit(x.whole[0]);
    }
    if x.neg {
      assert v[1..] == u;
    } else {
      assert v == u;
    }
  }

  // ---------------------------------------------------------------------------
  // The number a numeral denotes, as ECMAScript's Number::toString sees it:
  // zero, or a sign, the significant digits `s` (no leading or trailing zero) and
  // the position `n` of the point, so that the magnitude is 0.s times 10^n.

  datatype Decimal = Zero | Nonzero(neg: bool, digits: string, point: int)

  predicate Significant(s: string) {
    |s| >= 1 && AllDigits(s) && s[0] != '0' && s[|s| - 1] != '0'
  }

  /** The first position at or after `i` that does not hold `0`, or the end. */
  function FirstNonZero(d: string, i: nat): (j: nat)
    requires i <= |d|
    ensures i <= j <= |d|
    ensures forall k :: i <= k < j ==> d[k] == '0'
    ensures j == |d| || d[j] != '0'
    decreases |d| - i
  {
    if i == |d| || d[i] != '0' then i else FirstNonZero(d, i + 1)
  }

  /** Just past the last position in `d[lo..j]` that does not hold `0`, or `lo`. */
  function EndNonZero(d: string, lo: nat, j: nat): (e: nat)
    requires lo <= j <= |d|
    ensures lo <= e <= j
    ensures forall k :: e <= k < j ==> d[k] == '0'
    ensures e == lo || d[e - 1] != '0'
    decreases j
  {
    if j == lo || d[j - 1] != '0' then j else EndNonZero(d, lo, j - 1)
  }

  /** What `Number(v)` computes, kept exact: leading and trailing zeros dropped and
      the point placed. */
  function Normalize(x: Numeral): (r: Decimal)
    requires WellFormed(x)
    ensures r.Nonzero? ==> Significant(r.digits) && r.neg == x.neg
  {
    var d := x.whole + x.frac;
    var a := FirstNonZero(d, 0);
    if a == |d| then Zero
    else
      var b := EndNonZero(d, a, |d|);
      assert a < b by {
        assert d[a] != '0';
      }
      assert AllDigits(d[a..b]) by {
        DigitsAppend(x.whole, x.frac);
      }
      Nonzero(x.neg, d[a..b], |d| - a - |x.frac|)
  }

  lemma DigitsAppend(a: string, b: string)
    requires AllDigits(a) && AllDigits(b)
    ensures AllDigits(a + b)
  {
    assert forall i :: 0 <= i < |a + b| ==> (a + b)[i] == if i < |a| then a[i] else b[i - |a|];
  }

  function Zeros(m: nat): (z: string)
    ensures |z| == m && forall i :: 0 <= i < m ==> z[i] == '0'
  {
    seq(m, _ => '0')
  }

  /** ECMAScript's Number::toString for a number whose significant digits are `s`
      and whose point is at position `n`. */
  function Magnitude(s: string, n: int): (t: string)
    requires |s| >= 1
  {
    var k := |s|;
    if k <= n <= 21 then s + Zeros(n - k)
    else if 0 < n <= 21 then s[..n] + "." + s[n..]
    else if -6 < n <= 0 then "0." + Zeros(-n) + s
    else
      var e := n - 1;
      var exponent := (if e > 0 then "e+" else "e-") + DecimalString(if e > 0 then e else -e);
      if k == 1 then s + exponent else s[..1] + "." + s[1..] + exponent
  }

  /** `String(num)` for the number `d`; negative zero prints as `0`. */
  function NumberToString(d: Decimal): (t: string)
    requires d.Nonzero? ==> |d.digits| >= 1
    ensures t != []
  {
    match d
    case Zero => "0"
    case Nonzero(neg, s, n) => (if neg then "-" else "") + Magnitude(s, n)
  }

  // ---------------------------------------------------------------------------
  // Normalizing keeps the value.

  lemma ZerosValue(z: string)
    requires forall k :: 0 <= k < |z| ==> z[k] == '0'
    ensures AllDigits(z) && DigitsValue(z) == 0
  {
    if z != [] {
      ZerosValue(z[..|z| - 1]);
    }
  }

  /** The value of a numeral is kept by `Normalize`: reading `whole` and `frac` as
      one digit string, scaled down by ten to the length of `frac`, gives the same
      number as the significant digits scaled to their point. */
  lemma NormalizeValue(x: Numeral)
    requires WellFormed(x)
    ensures AllDigits(x.whole + x.frac)
    ensures match Normalize(x)
      case Zero => DigitsValue(x.whole + x.frac) == 0
      case Nonzero(_, s, n) =>
        n - |s| + |x.frac| >= 0
        && DigitsValue(x.whole + x.frac) == DigitsValue(s) * Pow10(n - |s| + |x.frac|)
  {
    var d := x.whole + x.frac;
    DigitsAppend(x.whole, x.frac);
    var a := FirstNonZero(d, 0);
    LeadingZerosDrop(d, a);
    if a < |d| {
      var b := EndNonZero(d, a, |d|);
      TrailingZerosDrop(d, a, b);
      var r := Normalize(x);
      assert r.digits == d[a..b] && r.point - |r.digits| + |x.frac| == |d| - b;
    }
  }

  lemma AllDigitsSlice(d: string, i: nat, j: nat)
    requires AllDigits(d) && i <= j <= |d|
    ensures AllDigits(d[i..j])
  {
    assert forall k :: 0 <= k < j - i ==> d[i..j][k] == d[i + k];
  }

  /** Zeros in front of a digit string do not change its value. */
  lemma LeadingZerosDrop(d: string, a: nat)
    requires AllDigits(d) && a <= |d| && forall k :: 0 <= k < a ==> d[k] == '0'
    ensures AllDigits(d[a..]) && DigitsValue(d) == DigitsValue(d[a..])
  {
    AllDigitsSlice(d, 0, a);
    AllDigitsSlice(d, a, |d|);
    ZerosValue(d[..a]);
    assert d[..a] + d[a..] == d;
    DigitsValueAppend(d[..a], d[a..]);
  }

  /** Zeros at the back of a digit string multiply the value of the rest. */
  lemma TrailingZerosDrop(d: string, a: nat, b: nat)
    requires AllDigits(d) && a <= b <= |d| && forall k :: b <= k < |d| ==> d[k] == '0'
    ensures AllDigits(d[a..]) && AllDigits(d[a..b])
    ensures DigitsValue(d[a..]) == DigitsValue(d[a..b]) * Pow10(|d| - b)
  {
    AllDigitsSlice(d, a, b);
    AllDigitsSlice(d, b, |d|);
    AllDigitsSlice(d, a, |d|);
    ZerosValue(d[b..]);
    assert d[a..b] + d[b..] == d[a..];
    DigitsValueAppend(d[a..b], d[b..]);
  }

  // ---------------------------------------------------------------------------
  // Printing a number and reading it back.

  lemma {:induction false} FirstNonZeroAt(d: string, i: nat, j: nat)
    requires i <= j <= |d| && (j == |d| || d[j] != '0')
    requires forall k :: i <= k < j ==> d[k] == '0'
    ensures FirstNonZero(d, i) == j
    decreases j - i
  {
    if i < j {
      FirstNonZeroAt(d, i + 1, j);
    }
  }

  lemma {:induction false} EndNonZeroAt(d: string, lo: nat, j: nat, e: nat)
    requires lo < e <= j <= |d| && d[e - 1] != '0'
    requires forall k :: e <= k < j ==> d[k] == '0'
    ensures EndNonZero(d, lo, j) == e
    decreases j
  {
    if e < j {
      EndNonZeroAt(d, lo, j - 1, e);
    }
  }

  /** The integer form `s` followed by zeros reads back as the same number. */
  lemma PrintIntegerRoundTrip(neg: bool, s: string, n: int)
    requires Significant(s) && |s| <= n
    ensures var y := Numeral(neg, s + Zeros(n - |s|), []);
            WellFormed(y) && Normalize(y) == Nonzero(neg, s, n)
  {
    var k := |s|;
    var m := s + Zeros(n - k);
    DigitsAppend(s, Zeros(n - k));
    var y := Numeral(neg, m, []);
    assert y.whole + y.frac == m;
    assert m[0] == s[0];
    FirstNonZeroAt(m, 0, 0);
    assert m[k - 1] == s[k - 1];
    EndNonZeroAt(m, 0, |m|, k);
    assert m[0..k] == s;
  }

  /** The point form `s[..n].s[n..]` reads back as the same number. */
  lemma PrintPointRoundTrip(neg: bool, s: string, n: int)
    requires Significant(s) && 0 < n < |s|
    ensures var y := Numeral(neg, s[..n], s[n..]);
            WellFormed(y) && Normalize(y) == Nonzero(neg, s, n)
  {
    var y := Numeral(neg, s[..n], s[n..]);
    assert y.whole + y.frac == s;
    FirstNonZeroAt(s, 0, 0);
    EndNonZeroAt(s, 0, |s|, |s|);
    assert s[0..|s|] == s;
  }

  /** The form `0.` followed by zeros and `s` reads back as the same number. */
  lemma PrintFractionRoundTrip(neg: bool, s: string, n: int)
    requires Significant(s) && n <= 0
    ensures var y := Numeral(neg, "0", Zeros(-n) + s);
            WellFormed(y) && Normalize(y) == Nonzero(neg, s, n)
  {
    var f := Zeros(-n) + s;
    DigitsAppend(Zeros(-n), s);
    var y := Numeral(neg, "0", f);
    var d := "0" + f;
    assert y.whole + y.frac == d;
    ZeroPadded(-n, s);
    FirstNonZeroAt(d, 0, 1 - n);
    EndNonZeroAt(d, 1 - n, |d|, |d|);
  }

  lemma ZeroPadded(m: nat, s: string)
    requires Significant(s)
    ensures var d := "0" + (Zeros(m) + s);
            (forall k :: 0 <= k < m + 1 ==> d[k] == '0') && d[m + 1] != '0' && d[|d| - 1] != '0'
            && d[m + 1..|d|] == s
  {
    var d := "0" + (Zeros(m) + s);
    assert d[m + 1..] == s;
  }

  /** The numeral `String(num)` prints for a number whose point is not far enough
      left or right for exponent notation. */
  function PrintedNumeral(d: Decimal): (y: Numeral)
    requires d.Nonzero? ==> Significant(d.digits) && -6 < d.point <= 21
  {
    match d
    case Zero => Numeral(false, "0", [])
    case Nonzero(neg, s, n) =>
      if |s| <= n then Numeral(neg, s + Zeros(n - |s|), [])
      else if 0 < n then Numeral(neg, s[..n], s[n..])
      else Numeral(neg, "0", Zeros(-n) + s)
  }

  lemma PrintedNumeralText(d: Decimal)
    requires d.Nonzero? ==> Significant(d.digits) && -6 < d.point <= 21
    ensures NumeralText(PrintedNumeral(d)) == NumberToString(d)
  {
    match d
    case Zero =>
    case Nonzero(neg, s, n) =>
      var y := PrintedNumeral(d);
      var sign: string := if neg then "-" else "";
      assert NumberToString(d) == sign + Magnitude(s, n);
      if |s| <= n {
        assert UnsignedText(y.whole, y.frac) == Magnitude(s, n);
      } else if 0 < n {
        assert UnsignedText(y.whole, y.frac) == s[..n] + "." + s[n..];
      } else {
        assert UnsignedText(y.whole, y.frac) == "0." + Zeros(-n) + s;
      }
  }

  lemma PrintedNumeralNormalizes(d: Decimal)
    requires d.Nonzero? ==> Significant(d.digits) && -6 < d.point <= 21
    ensures WellFormed(PrintedNumeral(d)) && Normalize(PrintedNumeral(d)) == d
  {
    var y := PrintedNumeral(d);
    match d
    case Zero =>
      assert y == Numeral(false, "0", []);
      PrintZeroRoundTrip();
    case Nonzero(neg, s, n) =>
      if |s| <= n {
        assert y == Numeral(neg, s + Zeros(n - |s|), []);
        PrintIntegerRoundTrip(neg, s, n);
      } else if 0 < n {
        assert y == Numeral(neg, s[..n], s[n..]);
        PrintPointRoundTrip(neg, s, n);
      } else {
        assert y == Numeral(neg, "0", Zeros(-n) + s);
        PrintFractionRoundTrip(neg, s, n);
      }
  }

  /** `0` reads back as zero. */
  lemma PrintZeroRoundTrip()
    ensures WellFormed(Numeral(false, "0", [])) && Normalize(Numeral(false, "0", [])) == Zero
  {
    FirstNonZeroAt("0", 0, 1);
  }

  /** A number printed without exponent notation reads back as the same number:
      `Number(String(num))` is `num`. */
  lemma PrintRoundTrip(d: Decimal)
    requires d.Nonzero? ==> Significant(d.digits) && -6 < d.point <= 21
    ensures var t := NumberToString(d);
            ParseNumeral(t).Some? && Normalize(ParseNumeral(t).value) == d
  {
    PrintedNumeralNormalizes(d);
    PrintedNumeralText(d);
    ParseNumeralText(PrintedNumeral(d));
  }

  // ---------------------------------------------------------------------------
  // `infer`.

  /** An integer numeral with a leading zero, such as `007`, which `infer` keeps. */
  predicate LeadingZeroInteger(v: string) {
    |v| > 1 && v[0] == '0' && '.' !in v
  }

  /** The value `infer` gives a cell. */
  function Infer(v: string): (r: string)
    ensures r == [] <==> v == []
  {
    if v == [] then []
    else if EqualsIgnoringCase(v, "true") then "true"
    else if EqualsIgnoringCase(v, "false") then "false"
    else
      match ParseNumeral(v)
      case Some(x) =>
        if |v| < 15 && !LeadingZeroInteger(v) then NumberToString(Normalize(x)) else v
      case None => v
  }

  lemma NumeralTextLength(x: Numeral)
    ensures |NumeralText(x)| == (if x.neg then 1 else 0) + |x.whole|
                                + (if x.frac == [] then 0 else |x.frac| + 1)
  {
  }

  lemma MagnitudeLength(s: string, n: int)
    requires |s| >= 1 && -6 < n <= 21
    ensures |Magnitude(s, n)| == if |s| <= n then n else if 0 < n then |s| + 1 else 2 - n + |s|
  {
  }

  /** Printing the normalized number takes no more characters than the numeral,
      unless exponent notation is used; the point never moves right of the whole
      part. */
  lemma PrintedLength(x: Numeral)
    requires WellFormed(x)
    ensures var d := Normalize(x);
            (d.Nonzero? ==> d.point <= |x.whole|)
            && (d.Zero? || -6 < d.point <= 21 ==> |NumberToString(d)| <= |NumeralText(x)|)
  {
    NumeralTextLength(x);
    var d := Normalize(x);
    if d.Nonzero? && -6 < d.point <= 21 {
      var f := x.whole + x.frac;
      var a := FirstNonZero(f, 0);
      var b := EndNonZero(f, a, |f|);
      assert |d.digits| == b - a && d.point == |x.whole| - a;
      MagnitudeLength(d.digits, d.point);
    }
  }

  /** The printed text starts with a sign or a digit. */
  lemma PrintedStart(d: Decimal)
    requires d.Nonzero? ==> Significant(d.digits)
    ensures var t := NumberToString(d); t[0] == '-' || IsDigit(t[0])
  {
    match d
    case Zero =>
    case Nonzero(neg, s, n) =>
      var m := Magnitude(s, n);
      assert m[0] == s[0] || m[0] == '0';
      if neg {
        assert NumberToString(d)[0] == '-';
      } else {
        assert NumberToString(d) == m;
      }
  }

  /** Text starting with a sign or a digit is not a boolean word. */
  lemma NotBoolean(t: string)
    requires t != [] && (t[0] == '-' || IsDigit(t[0]))
    ensures !EqualsIgnoringCase(t, "true") && !EqualsIgnoringCase(t, "false")
  {
    assert LowerAscii(t[0]) == t[0];
  }

  /** What `infer` prints for a numeral is not an integer with a leading zero. */
  lemma PrintedNotLeadingZero(d: Decimal)
    requires d.Nonzero? ==> Significant(d.digits) && -6 < d.point <= 21
    ensures !LeadingZeroInteger(NumberToString(d))
  {
    match d
    case Zero =>
    case Nonzero(neg, s, n) =>
      var t := NumberToString(d);
      if !neg && |s| < n + 1 && 0 < n {
        assert t[0] == s[0];
      } else if !neg && 0 < n {
        assert t[0] == s[0];
      } else if !neg {
        assert t[1] == '.';
      }
  }

  lemma NumeralTextHasNoE(y: Numeral)
    requires WellFormed(y)
    ensures 'e' !in NumeralText(y)
  {
    assert 'e' !in y.whole && 'e' !in y.frac;
  }

  /** Exponent notation is not a numeral `infer` accepts. */
  lemma ExponentNotNumeral(d: Decimal)
    requires d.Nonzero? && |d.digits| >= 1 && d.point <= -6
    ensures ParseNumeral(NumberToString(d)).None?
  {
    var s, n := d.digits, d.point;
    var t := NumberToString(d);
    var e := n - 1;
    var exponent := "e-" + DecimalString(-e);
    var m := Magnitude(s, n);
    assert m == (if |s| == 1 then s else s[..1] + "." + s[1..]) + exponent;
    assert 'e' in m by {
      assert m[|m| - |exponent|] == 'e';
    }
    assert 'e' in t by {
      var i :| 0 <= i < |m| && m[i] == 'e';
      if d.neg {
        assert t[i + 1] == 'e';
      } else {
        assert t[i] == 'e';
      }
    }
    if ParseNumeral(t).Some? {
      NumeralTextHasNoE(ParseNumeral(t).value);
    }
  }

  /** Inferring a second time changes nothing. */
  lemma InferIdempotent(v: string)
    ensures Infer(Infer(v)) == Infer(v)
  {
    if v == [] {
    } else if EqualsIgnoringCase(v, "true") {
      assert EqualsIgnoringCase("true", "true");
    } else if EqualsIgnoringCase(v, "false") {
      assert !EqualsIgnoringCase("false", "true");
      assert EqualsIgnoringCase("false", "false");
    } else if ParseNumeral(v).Some? && |v| < 15 && !LeadingZeroInteger(v) {
      var x := ParseNumeral(v).value;
      var d := Normalize(x);
      var t := NumberToString(d);
      assert Infer(v) == t;
      PrintedStart(d);
      NotBoolean(t);
      PrintedLength(x);
      if d.Zero? || d.point > -6 {
        PrintRoundTrip(d);
        PrintedNotLeadingZero(d);
      } else {
        ExponentNotNumeral(d);
      }
    }
  }

  /** `Normalize` with the first and last non-zero digit positions given. */
  lemma NormalizeAt(x: Numeral, a: nat, b: nat)
    requires WellFormed(x) && a < b <= |x.whole| + |x.frac|
    requires var d := x.whole + x.frac;
             (forall k :: 0 <= k < a ==> d[k] == '0') && d[a] != '0'
             && d[b - 1] != '0' && (forall k :: b <= k < |d| ==> d[k] == '0')
    ensures Normalize(x) == Nonzero(x.neg, (x.whole + x.frac)[a..b], |x.whole| - a)
  {
    var d := x.whole + x.frac;
    FirstNonZeroAt(d, 0, a);
    EndNonZeroAt(d, a, |d|, b);
  }

  /** `infer` on the text of a short numeral that is not an integer with a leading
      zero prints the numeral's normalized number. */
  lemma InferNumeral(x: Numeral)
    requires WellFormed(x) && |NumeralText(x)| < 15 && !LeadingZeroInteger(NumeralText(x))
    ensures Infer(NumeralText(x)) == NumberToString(Normalize(x))
  {
    var v := NumeralText(x);
    ParseNumeralText(x);
    assert v[0] == '-' || IsDigit(v[0]) by {
      if !x.neg {
        assert v[0] == x.whole[0];
      }
    }
    NotBoolean(v);
  }

  /** `0.50` becomes `0.5`. */
  lemma InferExampleHalf()
    ensures Infer("0.50") == "0.5"
  {
    var x := Numeral(false, "0", "50");
    assert NumeralText(x) == "0.50";
    InferNumeral(x);
    NormalizeAt(x, 1, 2);
    assert Magnitude("5", 0) == "0.5";
  }

  /** `1.0` becomes `1`. */
  lemma InferExampleOne()
    ensures Infer("1.0") == "1"
  {
    var x := Numeral(false, "1", "0");
    assert Infer("1.0") == NumberToString(Normalize(x)) by {
      assert NumeralText(x) == "1.0";
      InferNumeral(x);
    }
    OneNormalizes(x);
  }

  /** `-0` becomes `0`. */
  lemma InferExampleNegativeZero()
    ensures Infer("-0") == "0"
  {
  }

  /** `-007` becomes `-7`: the leading-zero guard looks only at the first character. */
  lemma InferExampleNegativeLeadingZeros()
    ensures Infer("-007") == "-7"
  {
    var x := Numeral(true, "007", "");
    assert Infer("-007") == NumberToString(Normalize(x)) by {
      assert NumeralText(x) == "-007";
      InferNumeral(x);
    }
    SevenNormalizes(x);
  }

  /** `007` is kept as it is. */
  lemma InferExampleLeadingZeros()
    ensures Infer("007") == "007"
  {
  }

  /** Everything that is neither a boolean nor a numeral `infer` rewrites is returned
      unchanged: text that does not match the number pattern, and numerals that are
      15 characters or longer or are integers with a leading zero. */
  lemma InferKeeps(v: string)
    requires v != []
    requires !EqualsIgnoringCase(v, "true") && !EqualsIgnoringCase(v, "false")
    requires ParseNumeral(v).None? || |v| >= 15 || LeadingZeroInteger(v)
    ensures Infer(v) == v
  {
  }

  /** Text that is not a numeral, such as `12a` or `1e5`, is kept. */
  lemma InferKeepsNonNumeral(v: string)
    requires v != [] && v[0] != '-' && !IsDigit(v[0])
    requires !EqualsIgnoringCase(v, "true") && !EqualsIgnoringCase(v, "false")
    ensures Infer(v) == v
  {
    assert ParseNumeral(v).None?;
  }

  /** `True` becomes `true`. */
  lemma InferExampleTrue()
    ensures Infer("True") == "true"
  {
  }

  /** `0.0000001` becomes `1e-7`: JavaScript prints numbers below 10^-6 in exponent
      notation. */
  lemma InferExampleTiny()
    ensures Infer("0.0000001") == "1e-7"
  {
    var x := Numeral(false, "0", "0000001");
    assert Infer("0.0000001") == NumberToString(Normalize(x)) by {
      assert NumeralText(x) == "0.0000001";
      InferNumeral(x);
    }
    TinyNormalizes(x);
    TinyPrints();
  }

  lemma SevenNormalizes(x: Numeral)
    requires x == Numeral(true, "007", "")
    ensures Normalize(x) == Nonzero(true, "7", 1)
  {
    NormalizeAt(x, 2, 3);
  }

  lemma OneNormalizes(x: Numeral)
    requires x == Numeral(false, "1", "0")
    ensures Normalize(x) == Nonzero(false, "1", 1)
  {
    NormalizeAt(x, 0, 1);
  }

  lemma TinyNormalizes(x: Numeral)
    requires x == Numeral(false, "0", "0000001")
    ensures Normalize(x) == Nonzero(false, "1", -6)
  {
    NormalizeAt(x, 7, 8);
  }

  lemma TinyPrints()
    ensures NumberToString(Nonzero(false, "1", -6)) == "1e-7"
  {
    assert DecimalString(7) == "7";
  }
}
