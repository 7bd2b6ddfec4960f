/**
 * The string primitives the tip tool relies on: substring search
 * (`String.prototype.includes`), ASCII lower-casing, `trim`, joining with a
 * space, the filter that keeps digits, `.` and `-`, and `parseFloat` on
 * decimal text.
 */
module Text {
  import opened Common

  // ---------------------------------------------------------------------
  // Substring search
  // ---------------------------------------------------------------------

  /** `kw` occurs in `s` starting at position `i`. */
  predicate OccursAt(s: string, kw: string, i: int) {
    0 <= i && i + |kw| <= |s| && s[i..i + |kw|] == kw
  }

  /** `kw` occurs somewhere in `s` (`String.prototype.includes`). */
  predicate Contains(s: string, kw: string) {
    exists i | 0 <= i <= |s| :: OccursAt(s, kw, i)
  }

  // ---------------------------------------------------------------------
  // Lower-casing
  // ---------------------------------------------------------------------

  function LowerChar(c: char): char {
    if 'A' <= c <= 'Z' then (c as int + 32) as char else c
  }

  /** Lower-casing (`String.prototype.toLowerCase`) restricted to the ASCII letters. */
  function ToLower(s: string): (r: string)
    ensures |r| == |s|
    ensures forall i :: 0 <= i < |s| ==> r[i] == LowerChar(s[i])
    ensures forall i :: 0 <= i < |r| ==> !('A' <= r[i] <= 'Z')
  {
    seq(|s|, i requires 0 <= i < |s| => LowerChar(s[i]))
  }

  // ---------------------------------------------------------------------
  // Joining
  // ---------------------------------------------------------------------

  /** Joining with a space (`Array.prototype.join`): the texts in order, one space between neighbours. */
  function JoinSpace(texts: seq<string>): (r: string)
    ensures |texts| > 0 ==> texts[0] <= r
    ensures |texts| > 1 ==> |texts[0]| < |r| && r[|texts[0]|] == ' '
    ensures |texts| > 0 ==> |r| >= |texts| - 1
  {
    if |texts| == 0 then ""
    else if |texts| == 1 then texts[0]
    else texts[0] + " " + JoinSpace(texts[1..])
  }

  /**
   * A keyword without a space cannot straddle the separator, so it occurs in
   * `a + " " + b` exactly when it occurs in `a` or in `b`.
   */
  lemma ContainsAcrossSpace(a: string, b: string, kw: string)
    requires ' ' !in kw
    ensures Contains(a + " " + b, kw) <==> Contains(a, kw) || Contains(b, kw)
  {
    var j := a + " " + b;
    if Contains(a, kw) {
      var i :| 0 <= i <= |a| && OccursAt(a, kw, i);
      assert j[i..i + |kw|] == a[i..i + |kw|];
      assert OccursAt(j, kw, i);
    }
    if Contains(b, kw) {
      var i :| 0 <= i <= |b| && OccursAt(b, kw, i);
      var k := i + |a| + 1;
      assert j[k..k + |kw|] == b[i..i + |kw|];
      assert OccursAt(j, kw, k);
    }
    if Contains(j, kw) {
      var i :| 0 <= i <= |j| && OccursAt(j, kw, i);
      if i + |kw| <= |a| {
        assert a[i..i + |kw|] == j[i..i + |kw|];
        assert OccursAt(a, kw, i);
      } else if i >= |a| + 1 {
        var k := i - |a| - 1;
        assert b[k..k + |kw|] == j[i..i + |kw|];
        assert OccursAt(b, kw, k);
      } else {
        // the separator at position |a| would have to be a character of kw
        OccurrenceCharAt(j, kw, i, |a|);
        assert false;
      }
    }
  }

  lemma OccurrenceCharAt(s: string, kw: string, i: int, p: int)
    requires OccursAt(s, kw, i) && i <= p < i + |kw|
    ensures kw[p - i] == s[p]
  {
    assert s[i..i + |kw|][p - i] == s[p];
  }

  /**
   * A non-empty keyword without a space occurs in the space-joined text
   * exactly when it occurs in one of the pieces.
   */
  lemma {:induction false} JoinSpaceContains(texts: seq<string>, kw: string)
    requires |kw| > 0 && ' ' !in kw
    ensures Contains(JoinSpace(texts), kw) <==> exists i :: 0 <= i < |texts| && Contains(texts[i], kw)
    decreases |texts|
  {
    if |texts| == 0 {
      assert !OccursAt("", kw, 0);
      assert forall i :: !OccursAt("", kw, i);
    } else if |texts| == 1 {
    } else {
      JoinSpaceContains(texts[1..], kw);
      ContainsAcrossSpace(texts[0], JoinSpace(texts[1..]), kw);
      if exists i :: 0 <= i < |texts| && Contains(texts[i], kw) {
        var i :| 0 <= i < |texts| && Contains(texts[i], kw);
        if i > 0 {
          assert texts[1..][i - 1] == texts[i];
        }
      }
      if exists i :: 0 <= i < |texts[1..]| && Contains(texts[1..][i], kw) {
        var i :| 0 <= i < |texts[1..]| && Contains(texts[1..][i], kw);
        assert texts[i + 1] == texts[1..][i];
      }
    }
  }

  // ---------------------------------------------------------------------
  // Trimming
  // ---------------------------------------------------------------------

  /** The characters `String.prototype.trim` removes: WhiteSpace and LineTerminator. */
  predicate IsJsSpace(c: char) {
    || c == ' ' || c == '\t' || c == '\n' || c == '\r'
    || c as int == 0x0B || c as int == 0x0C || c as int == 0xA0 || c as int == 0x1680
    || (0x2000 <= c as int <= 0x200A)
    || c as int == 0x2028 || c as int == 0x2029 || c as int == 0x202F
    || c as int == 0x205F || c as int == 0x3000 || c as int == 0xFEFF
  }

  /** Neither end of `s` is a space character. */
  predicate IsTrimmed(s: string) {
    |s| == 0 || (!IsJsSpace(s[0]) && !IsJsSpace(s[|s| - 1]))
  }

  /** `r` is `s` with the space characters before position `lo` and after `r` removed. */
  predicate TrimmedAt(s: string, r: string, lo: int) {
    && 0 <= lo <= |s| - |r| && r == s[lo..lo + |r|]
    && (forall k :: 0 <= k < lo ==> IsJsSpace(s[k]))
    && (forall k :: lo + |r| <= k < |s| ==> IsJsSpace(s[k]))
  }

  function TrimStart(s: string): (r: string)
    ensures |r| <= |s| && r == s[|s| - |r|..]
    ensures forall k :: 0 <= k < |s| - |r| ==> IsJsSpace(s[k])
    ensures |r| == 0 || !IsJsSpace(r[0])
  {
    if |s| > 0 && IsJsSpace(s[0]) then TrimStart(s[1..]) else s
  }

  function TrimEnd(s: string): (r: string)
    ensures |r| <= |s| && r == s[..|r|]
    ensures forall k :: |r| <= k < |s| ==> IsJsSpace(s[k])
    ensures |r| == 0 || !IsJsSpace(r[|r| - 1])
  {
    if |s| > 0 && IsJsSpace(s[|s| - 1]) then TrimEnd(s[..|s| - 1]) else s
  }

  /**
   * Trimming (`String.prototype.trim`): the result is the part of `s` left after removing the space
   * characters at both ends, and has none at either end.
   */
  function Trim(s: string): (r: string)
    ensures IsTrimmed(r)
    ensures exists lo :: TrimmedAt(s, r, lo)
  {
    var t := TrimStart(s);
    var r := TrimEnd(t);
    TrimmedInside(s, t, r);
    r
  }

  /** Removing spaces from the front and then from the back removes them from the two ends. */
  lemma TrimmedInside(s: string, t: string, r: string)
    requires |t| <= |s| && t == s[|s| - |t|..]
    requires forall k :: 0 <= k < |s| - |t| ==> IsJsSpace(s[k])
    requires |r| <= |t| && r == t[..|r|]
    requires forall k :: |r| <= k < |t| ==> IsJsSpace(t[k])
    ensures TrimmedAt(s, r, |s| - |t|)
  {
    var lo := |s| - |t|;
    assert r == s[lo..lo + |r|];
    forall k | lo + |r| <= k < |s|
      ensures IsJsSpace(s[k])
    {
      assert s[k] == t[k - lo];
    }
  }

  /** Trimming a trimmed string changes nothing, so `Trim` is idempotent. */
  lemma TrimIdempotent(s: string)
    ensures Trim(Trim(s)) == Trim(s)
  {
    TrimOfTrimmed(Trim(s));
  }

  lemma TrimOfTrimmed(s: string)
    requires IsTrimmed(s)
    ensures Trim(s) == s
  {
    var r := Trim(s);
    var lo :| TrimmedAt(s, r, lo);
    if |s| > 0 {
      assert !IsJsSpace(s[0]) && !IsJsSpace(s[|s| - 1]);
      assert lo == 0 && lo + |r| == |s|;
    }
  }

  // ---------------------------------------------------------------------
  // The hours-text filter: digits, `.` and `-` only
  // ---------------------------------------------------------------------

  predicate IsDigit(c: char) { '0' as int <= c as int <= '9' as int }

  predicate IsNumericChar(c: char) { IsDigit(c) || c == '.' || c == '-' }

  /** Removes every character other than a digit, `.` or `-`, keeping the order of the rest. */
  function KeepNumeric(s: string): (r: string)
    ensures forall i :: 0 <= i < |r| ==> IsNumericChar(r[i])
    ensures |r| <= |s|
  {
    if |s| == 0 then ""
    else (if IsNumericChar(s[0]) then [s[0]] else []) + KeepNumeric(s[1..])
  }

  /** The filter distributes over concatenation: it keeps the relative order of what it keeps. */
  lemma {:induction false} KeepNumericAppend(a: string, b: string)
    ensures KeepNumeric(a + b) == KeepNumeric(a) + KeepNumeric(b)
    decreases |a|
  {
    if |a| == 0 {
      assert a + b == b;
    } else {
      assert (a + b)[0] == a[0];
      assert (a + b)[1..] == a[1..] + b;
      KeepNumericAppend(a[1..], b);
    }
  }

  /** A string made only of kept characters passes through the filter unchanged. */
  lemma {:induction false} KeepNumericOfNumeric(s: string)
    requires forall i :: 0 <= i < |s| ==> IsNumericChar(s[i])
    ensures KeepNumeric(s) == s
    decreases |s|
  {
    if |s| > 0 {
      KeepNumericOfNumeric(s[1..]);
    }
  }

  /** Filtering twice is filtering once. */
  lemma KeepNumericIdempotent(s: string)
    ensures KeepNumeric(KeepNumeric(s)) == KeepNumeric(s)
  {
    KeepNumericOfNumeric(KeepNumeric(s));
  }

  /** Every digit, `.` and `-` of the input survives the filter, as many times as it occurs. */
  lemma {:induction false} KeepNumericKeepsAll(s: string, c: char)
    requires IsNumericChar(c)
    ensures multiset(KeepNumeric(s))[c] == multiset(s)[c]
    decreases |s|
  {
    if |s| > 0 {
      KeepNumericKeepsAll(s[1..], c);
      assert s == [s[0]] + s[1..];
    }
  }

  // ---------------------------------------------------------------------
  // parseFloat on decimal text
  // ---------------------------------------------------------------------

  /** The longest run of digits at the start of `s`. */
  function LeadingDigits(s: string): (r: string)
    ensures |r| <= |s| && r == s[..|r|]
    ensures forall i :: 0 <= i < |r| ==> IsDigit(r[i])
    ensures |r| == |s| || !IsDigit(s[|r|])
  {
    if |s| > 0 && IsDigit(s[0]) then [s[0]] + LeadingDigits(s[1..]) else []
  }

  /** The value of a string of decimal digits, most significant first. */
  function DigitsValue(d: string): (v: nat)
    requires forall i :: 0 <= i < |d| ==> IsDigit(d[i])
  {
    if |d| == 0 then 0
    else
      assert IsDigit(d[|d| - 1]);
      DigitsValue(d[..|d| - 1]) * 10 + (d[|d| - 1] as int - '0' as int)
  }

  function Pow10(n: nat): (p: nat)
    ensures p > 0
  {
    if n == 0 then 1 else 10 * Pow10(n - 1)
  }

  /** Ten to the power `e`, for a signed exponent. */
  function Scale(e: int): (r: real)
    ensures r > 0.0
  {
    if e >= 0 then Pow10(e) as real else 1.0 / Pow10(-e) as real
  }

  /**
   * The exponent part at the start of `t`: `e` or `E`, an optional sign and
   * at least one digit. Anything short of that is not an exponent and
   * counts as 0.
   */
  function ParseExponent(t: string): int {
    if |t| == 0 || (t[0] != 'e' && t[0] != 'E') then 0
    else
      var signed := t[1..];
      var digits := if |signed| > 0 && (signed[0] == '-' || signed[0] == '+') then signed[1..] else signed;
      var exponent: int := DigitsValue(LeadingDigits(digits));
      if |signed| > 0 && signed[0] == '-' then -exponent else exponent
  }

  /**
   * `parseFloat` on text without `Infinity` or leading white space: the
   * longest prefix of the form sign? digits (`.` digits?)? exponent? or
   * sign? `.` digits exponent?, read as an exact real, or `None`
   * (JavaScript's NaN) when no digit starts the mantissa.
   */
  function ParseDecimalPrefix(s: string): (r: Option<real>)
    ensures r.None? <==> (var body := if |s| > 0 && (s[0] == '-' || s[0] == '+') then s[1..] else s;
                          (|body| == 0 || !IsDigit(body[0])) &&
                          (|body| < 2 || body[0] != '.' || !IsDigit(body[1])))
    ensures r.Some? && r.value < 0.0 ==> s[0] == '-'
  {
    var negative := |s| > 0 && s[0] == '-';
    var body := if |s| > 0 && (s[0] == '-' || s[0] == '+') then s[1..] else s;
    var whole := LeadingDigits(body);
    var after := body[|whole|..];
    var point := |after| > 0 && after[0] == '.';
    var fraction := if point then LeadingDigits(after[1..]) else [];
    var rest := if point then after[1 + |fraction|..] else after;
    if |whole| == 0 && |fraction| == 0 then None
    else
      var magnitude := Magnitude(DigitsValue(whole), DigitsValue(fraction), |fraction|, ParseExponent(rest));
      Some(if negative then -magnitude else magnitude)
  }

  /** The unsigned value `whole.fraction × 10^exponent`, with `places` digits after the point. */
  function Magnitude(whole: nat, fraction: nat, places: nat, exponent: int): (r: real)
    ensures r >= 0.0
  {
    var mantissa := whole as real + fraction as real / Pow10(places) as real;
    var scale := Scale(exponent);
    assert mantissa >= 0.0 && scale > 0.0;
    ProductNonNegative(mantissa, scale);
    mantissa * scale
  }

  lemma ProductNonNegative(a: real, b: real)
    requires a >= 0.0 && b >= 0.0
    ensures a * b >= 0.0
  {
  }

  /**
   * The hours read from a table cell: everything but digits, `.` and `-` is
   * dropped, the rest is parsed, and a failed parse gives 0. A negative
   * value is kept, and can come only from a leading minus sign.
   */
  function ParseHours(text: string): (r: real)
    ensures r < 0.0 ==> |KeepNumeric(text)| > 0 && KeepNumeric(text)[0] == '-'
  {
    match ParseDecimalPrefix(KeepNumeric(text))
    case None => 0.0
    case Some(v) => v
  }

  /** Text with no digit at all reads as 0 hours. */
  lemma {:induction false} ParseHoursWithoutDigits(text: string)
    requires forall i :: 0 <= i < |text| ==> !IsDigit(text[i])
    ensures ParseHours(text) == 0.0
  {
    var f := KeepNumeric(text);
    NoDigitsSurvive(text);
    assert forall i :: 0 <= i < |f| ==> !IsDigit(f[i]);
  }

  lemma {:induction false} NoDigitsSurvive(s: string)
    requires forall i :: 0 <= i < |s| ==> !IsDigit(s[i])
    ensures forall i :: 0 <= i < |KeepNumeric(s)| ==> !IsDigit(KeepNumeric(s)[i])
    decreases |s|
  {
    if |s| > 0 {
      NoDigitsSurvive(s[1..]);
    }
  }

  /** A leading minus sign is honoured: `-d` reads as minus the value of the digits `d`. */
  lemma {:induction false} ParseHoursNegative(d: string)
    requires |d| > 0 && forall i :: 0 <= i < |d| ==> IsDigit(d[i])
    ensures ParseHours("-" + d) == -(DigitsValue(d) as real)
  {
    var s := "-" + d;
    KeepNumericOfNumeric(s);
    assert s[1..] == d;
    AllDigitsLeading(d);
  }

  /** A run of digits parses as its value. */
  lemma {:induction false} ParseDigits(d: string)
    requires |d| > 0 && forall i :: 0 <= i < |d| ==> IsDigit(d[i])
    ensures ParseDecimalPrefix(d) == Some(DigitsValue(d) as real)
  {
    AllDigitsLeading(d);
    ParseWholeDigits(d);
  }

  lemma {:induction false} ParseWholeDigits(d: string)
    requires |d| > 0 && forall i :: 0 <= i < |d| ==> IsDigit(d[i])
    requires LeadingDigits(d) == d
    ensures ParseDecimalPrefix(d) == Some(DigitsValue(d) as real)
  {
    assert IsDigit(d[0]);
    assert d[|d|..] == [];
    assert ParseExponent([]) == 0;
  }

  /** Digits, `e` and digits read as the first number times ten to the second. */
  lemma ParseScientific(d: string, x: string)
    requires |d| > 0 && forall i :: 0 <= i < |d| ==> IsDigit(d[i])
    requires |x| > 0 && forall i :: 0 <= i < |x| ==> IsDigit(x[i])
    ensures ParseDecimalPrefix(d + "e" + x) == Some((DigitsValue(d) * Pow10(DigitsValue(x))) as real)
  {
    var tail := "e" + x;
    assert d + "e" + x == d + tail;
    ParseWholeThen(d, tail);
    var w, e := DigitsValue(d), DigitsValue(x);
    assert ParseExponent(tail) == e by {
      assert tail[1..] == x;
      AllDigitsLeading(x);
    }
    MagnitudeWhole(w, e);
    var m := Magnitude(w, 0, 0, e);
    assert ParseDecimalPrefix(d + tail) == Some(m);
    assert ParseDecimalPrefix(d + "e" + x) == Some(m);
  }

  /** Digits followed by neither a digit nor a point: the digits are the whole mantissa. */
  lemma ParseWholeThen(d: string, tail: string)
    requires |d| > 0 && forall i :: 0 <= i < |d| ==> IsDigit(d[i])
    requires |tail| == 0 || (!IsDigit(tail[0]) && tail[0] != '.')
    ensures ParseDecimalPrefix(d + tail) == Some(Magnitude(DigitsValue(d), 0, 0, ParseExponent(tail)))
  {
    var s := d + tail;
    LeadingDigitsStop(d, tail);
    assert s[0] == d[0] && IsDigit(s[0]);
    assert s[|d|..] == tail;
    assert DigitsValue([]) == 0;
  }

  /** A whole number scaled by a non-negative exponent. */
  lemma MagnitudeWhole(w: nat, e: nat)
    ensures Magnitude(w, 0, 0, e) == (w * Pow10(e)) as real
  {
    assert Pow10(0) == 1;
  }

  /** The leading digits end where the first non-digit begins. */
  lemma {:induction false} LeadingDigitsStop(d: string, t: string)
    requires forall i :: 0 <= i < |d| ==> IsDigit(d[i])
    requires |t| == 0 || !IsDigit(t[0])
    ensures LeadingDigits(d + t) == d
    decreases |d|
  {
    if |d| == 0 {
      assert d + t == t;
    } else {
      assert (d + t)[1..] == d[1..] + t;
      LeadingDigitsStop(d[1..], t);
    }
  }

  lemma {:induction false} AllDigitsLeading(d: string)
    requires forall i :: 0 <= i < |d| ==> IsDigit(d[i])
    ensures LeadingDigits(d) == d
    decreases |d|
  {
    if |d| > 0 {
      AllDigitsLeading(d[1..]);
    }
  }
}
