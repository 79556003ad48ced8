/**
 * The numeric parse the frame decoder applies to each retained field
 * (Python's `float(x)`), restricted to plain decimal numerals:
 * surrounding whitespace, an optional sign, digits with an optional
 * fractional part, and at least one digit.  The formatter `FormatFixed` is
 * the sending side of the protocol, readings written with a fixed number of
 * decimal places; the two are connected by a round-trip lemma.
 */
module Numeral {
  import opened Wrappers
  import opened Text

  predicate IsDigit(c: char)
  {
    '0' <= c <= '9'
  }

  predicate AllDigits(s: string)
  {
    forall i :: 0 <= i < |s| ==> IsDigit(s[i])
  }

  /** The characters a decimal numeral is made of. */
  predicate IsNumeralChar(c: char)
  {
    IsDigit(c) || c == '.' || c == '+' || c == '-'
  }

  function DigitValue(c: char): (d: nat)
    requires IsDigit(c)
    ensures d < 10
  {
    (c as int) - ('0' as int)
  }

  function Pow10(k: nat): (p: nat)
    ensures p >= 1
  {
    if k == 0 then 1 else 10 * Pow10(k - 1)
  }

  /** The value of a string of decimal digits, most significant first; it has at most `|s|` digits. */
  function DigitsValue(s: string): (n: nat)
    requires AllDigits(s)
    ensures n < Pow10(|s|)
  {
    if s == [] then 0
    else
      var front := DigitsValue(s[..|s| - 1]);
      var d := DigitValue(s[|s| - 1]);
      assert front * 10 + d < Pow10(|s| - 1) * 10 by {
        assert front + 1 <= Pow10(|s| - 1);
        assert (front + 1) * 10 <= Pow10(|s| - 1) * 10;
      }
      front * 10 + d
  }

  /** `n / 10^k`, one division by ten at a time. */
  function Scaled(n: int, k: nat): real
  {
    if k == 0 then n as real else Scaled(n, k - 1) / 10.0
  }

  /** Scaling down by ten `k` times is dividing by `10^k`. */
  lemma {:induction false} ScaledIsQuotient(n: int, k: nat)
    ensures Scaled(n, k) == n as real / Pow10(k) as real
  {
    if k > 0 {
      ScaledIsQuotient(n, k - 1);
      var q, p := n as real / Pow10(k - 1) as real, Pow10(k - 1) as real;
      assert Pow10(k) as real == 10.0 * p;
      assert q * p == n as real;
      assert (q / 10.0) * (10.0 * p) == n as real;
    }
  }

  lemma {:induction false} ScaledNegate(n: int, k: nat)
    ensures Scaled(-n, k) == -Scaled(n, k)
  {
    if k > 0 {
      ScaledNegate(n, k - 1);
    }
  }

  lemma {:induction false} ScaledNonNegative(n: int, k: nat)
    requires n >= 0
    ensures Scaled(n, k) >= 0.0
  {
    if k > 0 {
      ScaledNonNegative(n, k - 1);
    }
  }

  /** The value of the numeral `whole.frac`: all its digits read as one number, scaled down. */
  function Decimal(whole: string, frac: string): (v: real)
    requires AllDigits(whole) && AllDigits(frac)
    ensures v >= 0.0
  {
    var digits := whole + frac;
    assert forall i :: 0 <= i < |digits| ==> digits[i] == if i < |whole| then whole[i] else frac[i - |whole|];
    ScaledNonNegative(DigitsValue(digits), |frac|);
    Scaled(DigitsValue(digits), |frac|)
  }

  /**
   * An unsigned numeral: digits, or digits with a fractional part after one
   * '.', where either side of the point may be empty but not both.
   */
  function ParseUnsigned(u: string): (r: Option<real>)
    ensures r.Some? ==> |u| > 0 && r.value >= 0.0
    ensures r.Some? ==> forall i :: 0 <= i < |u| ==> IsDigit(u[i]) || u[i] == '.'
    ensures r.Some? ==> exists i :: 0 <= i < |u| && IsDigit(u[i])
    ensures r.Some? ==> forall i, j :: 0 <= i < j < |u| && u[i] == '.' ==> u[j] != '.'
    ensures AllDigits(u) && |u| > 0 ==> r == Some(DigitsValue(u) as real)
  {
    if '.' in u then
      var k := IndexOf(u, '.');
      var whole, frac := u[..k], u[k + 1..];
      if |whole| + |frac| > 0 && AllDigits(whole) && AllDigits(frac) then
        DigitsAroundPoint(u, k);
        Some(Decimal(whole, frac))
      else
        None
    else if |u| > 0 && AllDigits(u) then
      assert IsDigit(u[0]);
      Some(DigitsValue(u) as real)
    else
      None
  }

  lemma DigitsAroundPoint(u: string, k: nat)
    requires k < |u| && u[k] == '.' && AllDigits(u[..k]) && AllDigits(u[k + 1..]) && |u| > 1
    ensures forall i :: 0 <= i < |u| ==> IsDigit(u[i]) || u[i] == '.'
    ensures exists i :: 0 <= i < |u| && IsDigit(u[i])
    ensures forall i, j :: 0 <= i < j < |u| && u[i] == '.' ==> u[j] != '.'
  {
    forall i | 0 <= i < |u| && i != k ensures IsDigit(u[i]) {
      if i < k { assert u[i] == u[..k][i]; } else { assert u[i] == u[k + 1..][i - k - 1]; }
    }
    if k > 0 {
      assert IsDigit(u[0]);
    } else {
      assert IsDigit(u[k + 1]);
    }
  }

  /** A numeral with a point reads as all its digits scaled down by ten per digit after the point. */
  lemma ParseFraction(whole: string, frac: string)
    requires AllDigits(whole) && AllDigits(frac) && |whole| + |frac| > 0
    ensures ParseUnsigned(whole + "." + frac) == Some(Decimal(whole, frac))
  {
    var u := whole + "." + frac;
    PointAfterDigits(whole, frac);
    assert u[..|whole|] == whole && u[|whole| + 1..] == frac;
  }

  /** The first point of `whole.frac` is the one after the whole part. */
  lemma PointAfterDigits(whole: string, frac: string)
    requires AllDigits(whole)
    ensures '.' in whole + "." + frac && IndexOf(whole + "." + frac, '.') == |whole|
  {
    var rest := "." + frac;
    assert whole + "." + frac == whole + rest;
    assert '.' !in whole by {
      forall i | 0 <= i < |whole| ensures whole[i] != '.' { assert IsDigit(whole[i]); }
    }
    assert rest[0] == '.';
    IndexOfAfter(whole, rest, '.');
  }

  /** A numeral with no surrounding whitespace: an optional '+' or '-' before an unsigned numeral. */
  function ParseNumeral(t: string): (r: Option<real>)
    ensures r.Some? ==> |t| > 0 && forall i :: 0 <= i < |t| ==> IsNumeralChar(t[i])
    ensures r.Some? && r.value < 0.0 ==> t[0] == '-'
    ensures r.Some? ==> exists i :: 0 <= i < |t| && IsDigit(t[i])
    ensures r.Some? ==> forall i, j :: 0 <= i < j < |t| && t[i] == '.' ==> t[j] != '.'
  {
    if |t| > 0 && (t[0] == '-' || t[0] == '+') then
      match ParseUnsigned(t[1..])
      case None => None
      case Some(v) =>
        var u := t[1..];
        assert forall i :: 1 <= i < |t| ==> t[i] == u[i - 1];
        var d :| 0 <= d < |u| && IsDigit(u[d]);
        assert IsDigit(t[d + 1]);
        Some(if t[0] == '-' then -v else v)
    else
      ParseUnsigned(t)
  }

  /** A sign before an unsigned numeral keeps or negates its value. */
  lemma ParseSigned(sign: char, u: string)
    requires sign == '+' || sign == '-'
    ensures ParseNumeral([sign] + u) ==
              match ParseUnsigned(u)
              case None => None
              case Some(v) => Some(if sign == '-' then -v else v)
  {
    assert ([sign] + u)[1..] == u;
  }

  /** Without a sign in front, a numeral is read as an unsigned one. */
  lemma ParseUnsignedAlone(u: string)
    requires u == [] || (u[0] != '+' && u[0] != '-')
    ensures ParseNumeral(u) == ParseUnsigned(u)
  {
  }

  /**
   * The information separators U+001C..U+001F.  `str.isspace()` accepts
   * them, so `strip()` removes them, but `float()` neither strips nor accepts
   * them: it strips only the rest of the whitespace.
   */
  predicate IsInfoSeparator(c: char)
  {
    0x1C <= c as int <= 0x1F
  }

  predicate SeparatorFree(s: string)
  {
    forall i :: 0 <= i < |s| ==> !IsInfoSeparator(s[i])
  }

  /** Whitespace that `float()` strips around a numeral. */
  predicate IsPadding(s: string)
  {
    IsBlank(s) && SeparatorFree(s)
  }

  /**
   * Python's `float(field)` on a decimal field.  An information separator
   * anywhere in the field makes it fail; on a field without one, `float()`
   * strips the same whitespace as `strip()` and reads the numeral left.
   */
  function ParseNum(field: string): (r: Option<real>)
    ensures r.Some? ==> !IsBlank(field) && SeparatorFree(field)
    ensures r.Some? ==> forall c :: c in Strip(field) ==> IsNumeralChar(c)
    ensures r.Some? ==> exists i :: 0 <= i < |Strip(field)| && IsDigit(Strip(field)[i])
    ensures r.Some? ==> forall i, j :: 0 <= i < j < |Strip(field)| && Strip(field)[i] == '.' ==> Strip(field)[j] != '.'
  {
    if SeparatorFree(field) then ParseNumeral(Strip(field)) else None
  }

  lemma SeparatorFreeAppend(a: string, b: string)
    ensures SeparatorFree(a + b) <==> SeparatorFree(a) && SeparatorFree(b)
  {
    if SeparatorFree(a) && SeparatorFree(b) {
      forall i | 0 <= i < |a + b| ensures !IsInfoSeparator((a + b)[i]) {
        if i < |a| { assert (a + b)[i] == a[i]; } else { assert (a + b)[i] == b[i - |a|]; }
      }
    }
    if SeparatorFree(a + b) {
      forall i | 0 <= i < |a| ensures !IsInfoSeparator(a[i]) {
        assert (a + b)[i] == a[i];
      }
      forall i | 0 <= i < |b| ensures !IsInfoSeparator(b[i]) {
        assert (a + b)[|a| + i] == b[i];
      }
    }
  }

  /** An information separator anywhere in a field makes it fail to parse. */
  lemma ParseNumRejectsInfoSeparator(a: string, c: char, b: string)
    requires IsInfoSeparator(c)
    ensures ParseNum(a + [c] + b) == None
  {
    assert (a + [c] + b)[|a|] == c;
  }

  /** A lone point and a numeral with two points are not numerals. */
  lemma ParseNumRejectsMalformed()
    ensures ParseNum(".") == None && ParseNum("1.2.3") == None
  {
    var one, two := ".", "1.2.3";
    assert !IsDigit(one[0]);
    assert two[1] == '.' && two[3] == '.';
    StripUnpadded(one);
    StripUnpadded(two);
  }

  /** Padding around a field does not change its value. */
  lemma ParseNumIgnoresPadding(w1: string, field: string, w2: string)
    requires IsPadding(w1) && IsPadding(w2)
    ensures ParseNum(w1 + field + w2) == ParseNum(field)
  {
    StripIgnoresPadding(w1, field, w2);
    SeparatorFreeAppend(w1, field);
    SeparatorFreeAppend(w1 + field, w2);
  }

  /** Padding after a field does not change its value. */
  lemma ParseNumIgnoresTrailing(field: string, w: string)
    requires IsPadding(w)
    ensures ParseNum(field + w) == ParseNum(field)
  {
    StripIgnoresTrailing(field, w);
    SeparatorFreeAppend(field, w);
  }

  /** A field made of numeral characters is read as it stands. */
  lemma ParseNumUnpadded(s: string)
    requires forall k :: 0 <= k < |s| ==> IsNumeralChar(s[k])
    ensures ParseNum(s) == ParseNumeral(s)
  {
    if s != [] {
      assert !IsSpace(s[0]) && !IsSpace(s[|s| - 1]);
    }
    StripUnpadded(s);
    assert SeparatorFree(s);
  }

  // ---------------------------------------------------------------------------
  // The sending side: readings written with a fixed number of decimal places

  function DigitChar(d: nat): (c: char)
    requires d < 10
    ensures IsDigit(c) && DigitValue(c) == d
  {
    (('0' as int) + d) as char
  }

  /** The decimal digits of `n`, without leading zeros. */
  function ShowNat(n: nat): (s: string)
    ensures |s| > 0 && AllDigits(s)
  {
    if n < 10 then [DigitChar(n)] else ShowNat(n / 10) + [DigitChar(n % 10)]
  }

  /** The last `places` decimal digits of `n`, with leading zeros. */
  function PadDigits(n: nat, places: nat): (s: string)
    requires n < Pow10(places)
    ensures |s| == places && AllDigits(s)
  {
    if places == 0 then []
    else
      assert n / 10 < Pow10(places - 1);
      PadDigits(n / 10, places - 1) + [DigitChar(n % 10)]
  }

  /** An integer as a decimal numeral, with a '-' in front when negative. */
  function FormatInt(i: int): (s: string)
    ensures |s| > 0 && forall k :: 0 <= k < |s| ==> IsDigit(s[k]) || (k == 0 && s[k] == '-')
  {
    if i < 0 then "-" + ShowNat(-i) else ShowNat(i)
  }

  /**
   * `m / 10^places` written with `places` decimal places: the digits of `m`,
   * padded with zeros to more than `places` digits, with a point before the
   * last `places` of them.
   */
  function FixedDigits(m: nat, places: nat): (s: string)
    ensures |s| > 0 && IsDigit(s[0])
    ensures forall k :: 0 <= k < |s| ==> IsDigit(s[k]) || s[k] == '.'
  {
    PointBefore(PadDigits(m, FixedWidth(m, places)), places)
  }

  /** The digits `t` with a point before the last `k` of them. */
  function PointBefore(t: string, k: nat): (s: string)
    requires AllDigits(t) && k < |t|
    ensures |s| > 0 && IsDigit(s[0])
    ensures forall i :: 0 <= i < |s| ==> IsDigit(s[i]) || s[i] == '.'
  {
    var n := |t| - k;
    DigitsAroundText(t[..n], t[n..]);
    t[..n] + "." + t[n..]
  }

  /** The number of digits `m` is written with when it has `places` decimal places. */
  function FixedWidth(m: nat, places: nat): (n: nat)
    ensures n > places && m < Pow10(n)
  {
    var k := |ShowNat(m)|;
    ShowNatBound(m);
    if k > places then k
    else
      Pow10Monotone(k, places + 1);
      places + 1
  }

  lemma ShowNatBound(n: nat)
    ensures n < Pow10(|ShowNat(n)|)
  {
    DigitsValueShowNat(n);
  }

  lemma {:induction false} Pow10Monotone(a: nat, b: nat)
    requires a <= b
    ensures Pow10(a) <= Pow10(b)
  {
    if a < b {
      Pow10Monotone(a, b - 1);
    }
  }

  lemma DigitsAroundText(whole: string, frac: string)
    requires |whole| > 0 && AllDigits(whole) && AllDigits(frac)
    ensures var s := whole + "." + frac;
            IsDigit(s[0]) && forall k :: 0 <= k < |s| ==> IsDigit(s[k]) || s[k] == '.'
  {
    var s := whole + "." + frac;
    forall k | 0 <= k < |s| ensures IsDigit(s[k]) || s[k] == '.' {
      if k < |whole| { assert s[k] == whole[k]; }
      else if k > |whole| { assert s[k] == frac[k - |whole| - 1]; }
    }
  }

  /**
   * The reading `x / 10^places` written with `places` decimal places
   * (`'%.*f' % (places, x / 10**places)`); with no places it is `x` itself.
   */
  function FormatFixed(x: int, places: nat): (s: string)
    ensures |s| > 0 && forall k :: 0 <= k < |s| ==> IsNumeralChar(s[k])
  {
    if places == 0 then FormatInt(x)
    else if x < 0 then
      var d := FixedDigits(-x, places);
      NegatedDigits(d);
      ['-'] + d
    else
      FixedDigits(x, places)
  }

  lemma NegatedDigits(d: string)
    requires forall k :: 0 <= k < |d| ==> IsDigit(d[k]) || d[k] == '.'
    ensures forall k :: 0 <= k < |d| + 1 ==> IsNumeralChar((['-'] + d)[k])
  {
    forall k | 0 <= k < |d| + 1 ensures IsNumeralChar((['-'] + d)[k]) {
      if k > 0 { assert (['-'] + d)[k] == d[k - 1]; }
    }
  }

  /** Reading back the digits of `n` gives `n`. */
  lemma {:induction false} DigitsValueShowNat(n: nat)
    ensures DigitsValue(ShowNat(n)) == n
  {
    if n >= 10 {
      DigitsValueShowNat(n / 10);
      var s := ShowNat(n);
      assert s[..|s| - 1] == ShowNat(n / 10);
    }
  }

  /** Reading back the padded digits of `n` gives `n`. */
  lemma {:induction false} DigitsValuePadDigits(n: nat, places: nat)
    requires n < Pow10(places)
    ensures DigitsValue(PadDigits(n, places)) == n
  {
    if places > 0 {
      assert n / 10 < Pow10(places - 1);
      DigitsValuePadDigits(n / 10, places - 1);
      var s := PadDigits(n, places);
      assert s[..|s| - 1] == PadDigits(n / 10, places - 1);
    }
  }

  /** Parsing a formatted integer gives the integer back. */
  lemma ParseFormatInt(i: int)
    ensures ParseNum(FormatInt(i)) == Some(i as real)
  {
    ParseNumeralFormatInt(i);
    ParseNumUnpadded(FormatInt(i));
  }

  lemma ParseNumeralFormatInt(i: int)
    ensures ParseNumeral(FormatInt(i)) == Some(i as real)
  {
    if i < 0 {
      var u := ShowNat(-i);
      DigitsValueShowNat(-i);
      ParseNegativeDigits(u);
    } else {
      DigitsValueShowNat(i);
      ParseDigits(ShowNat(i));
    }
  }

  lemma ParseDigits(u: string)
    requires |u| > 0 && AllDigits(u)
    ensures ParseNumeral(u) == Some(DigitsValue(u) as real)
  {
    assert IsDigit(u[0]);
  }

  lemma ParseNegativeDigits(u: string)
    requires |u| > 0 && AllDigits(u)
    ensures ParseNumeral("-" + u) == Some(-(DigitsValue(u) as real))
  {
    var t := "-" + u;
    assert t[0] == '-' && t[1..] == u;
  }

  /** Parsing a reading written with `places` decimal places gives the reading back. */
  lemma ParseFormatFixed(x: int, places: nat)
    ensures ParseNum(FormatFixed(x, places)) == Some(Scaled(x, places))
  {
    if places == 0 {
      ParseFormatInt(x);
    } else {
      ParseNumUnpadded(FormatFixed(x, places));
      ParseNumeralFormatFixed(x, places);
    }
  }

  lemma ParseNumeralFormatFixed(x: int, places: nat)
    requires places > 0
    ensures ParseNumeral(FormatFixed(x, places)) == Some(Scaled(x, places))
  {
    FormatFixedSign(x, places);
    var m: nat := if x < 0 then -x else x;
    var u := FixedDigits(m, places);
    ParseFixedDigits(m, places);
    if x < 0 {
      ParseNegativeReading(x, places, u);
    } else {
      ParseUnsignedReading(x, places, u);
    }
  }

  lemma ParseUnsignedReading(x: int, places: nat, u: string)
    requires |u| > 0 && IsDigit(u[0])
    requires ParseUnsigned(u) == Some(Scaled(x, places))
    ensures ParseNumeral(u) == Some(Scaled(x, places))
  {
    ParseUnsignedAlone(u);
  }

  lemma ParseNegativeReading(x: int, places: nat, u: string)
    requires ParseUnsigned(u) == Some(Scaled(-x, places))
    ensures ParseNumeral(['-'] + u) == Some(Scaled(x, places))
  {
    ParseNegated(u, Scaled(-x, places));
    ScaledNegate(x, places);
  }

  lemma FormatFixedSign(x: int, places: nat)
    requires places > 0
    ensures FormatFixed(x, places) == if x < 0 then ['-'] + FixedDigits(-x, places) else FixedDigits(x, places)
  {
  }

  lemma ParseNegated(u: string, v: real)
    requires ParseUnsigned(u) == Some(v)
    ensures ParseNumeral(['-'] + u) == Some(-v)
  {
    ParseSigned('-', u);
  }

  /** The digits of `m / 10^places` read back as that value. */
  lemma ParseFixedDigits(m: nat, places: nat)
    ensures ParseUnsigned(FixedDigits(m, places)) == Some(Scaled(m, places))
  {
    var n := FixedWidth(m, places);
    DigitsValuePadDigits(m, n);
    ParsePointBefore(PadDigits(m, n), places);
  }

  /** Digits with a point before the last `k` of them read as their value scaled down `k` times. */
  lemma ParsePointBefore(t: string, k: nat)
    requires AllDigits(t) && k < |t|
    ensures ParseUnsigned(PointBefore(t, k)) == Some(Scaled(DigitsValue(t), k))
  {
    var n := |t| - k;
    var whole, frac := t[..n], t[n..];
    assert whole + frac == t;
    ParseFraction(whole, frac);
  }
}
