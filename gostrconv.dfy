/**
 * Go's `strconv.ParseInt(s, 10, 64)`, used to read the `:id` path parameter,
 * and `strconv.FormatInt(n, 10)`, the decimal form in which an id is written
 * back to a client.
 */
module GoStrconv {
  import opened Wrappers

  const MinInt64: int := -0x8000_0000_0000_0000
  const MaxInt64: int := 0x7FFF_FFFF_FFFF_FFFF

  predicate IsDigit(c: char) {
    '0' <= c <= '9'
  }

  predicate AllDigits(s: string) {
    forall k :: 0 <= k < |s| ==> IsDigit(s[k])
  }

  function DigitValue(c: char): (d: nat)
    requires IsDigit(c)
    ensures d < 10
  {
    c as int - '0' as int
  }

  function DigitChar(d: nat): (c: char)
    requires d < 10
    ensures IsDigit(c) && DigitValue(c) == d
  {
    ('0' as int + d) as char
  }

  /** The value of a string of decimal digits, most significant digit first. */
  function DecimalValue(digits: string): nat
    requires AllDigits(digits)
  {
    if digits == [] then 0
    else DecimalValue(digits[..|digits| - 1]) * 10 + DigitValue(digits[|digits| - 1])
  }

  /** `s` starts with a sign character. */
  predicate Signed(s: string) {
    |s| > 0 && (s[0] == '+' || s[0] == '-')
  }

  /** The text after an optional leading sign. */
  function DigitsPart(s: string): string {
    if Signed(s) then s[1..] else s
  }

  /**
   * `strconv.ParseInt(s, 10, 64)`: an optional '+' or '-', then one or more
   * decimal digits, and a value that fits in 64 bits; anything else is an error.
   */
  function ParseInt64(s: string): (r: Option<int>)
    ensures r.Some? ==> MinInt64 <= r.value <= MaxInt64
    ensures r.Some? ==> DigitsPart(s) != [] && AllDigits(DigitsPart(s))
    ensures r.Some? && r.value < 0 ==> s[0] == '-'
    ensures r.Some? && Signed(s) && s[0] == '-' ==> r.value <= 0
  {
    var digits := DigitsPart(s);
    if digits == [] || !AllDigits(digits) then None
    else
      var magnitude: int := DecimalValue(digits);
      var v := if Signed(s) && s[0] == '-' then -magnitude else magnitude;
      if MinInt64 <= v <= MaxInt64 then Some(v) else None
  }

  /** Drops leading '0's, keeping at least one digit. */
  function StripLeadingZeros(d: string): (r: string)
    ensures |r| <= |d| && (d != [] ==> r != [])
    ensures (|d| > 0 && d[0] != '0') || |d| <= 1 ==> r == d
    ensures |r| <= 1 || r[0] != '0'
  {
    if |d| > 1 && d[0] == '0' then StripLeadingZeros(d[1..]) else d
  }

  /** A leading '0' adds nothing to the value. */
  lemma {:induction false} LeadingZeroValue(d: string)
    requires AllDigits(d)
    ensures AllDigits("0" + d) && DecimalValue("0" + d) == DecimalValue(d)
  {
    var z := "0" + d;
    assert AllDigits(z) by {
      forall k | 0 <= k < |z| ensures IsDigit(z[k]) {
        if k > 0 { assert z[k] == d[k - 1]; }
      }
    }
    if d != [] {
      var init := d[..|d| - 1];
      assert z[..|z| - 1] == "0" + init;
      assert AllDigits(init) by {
        forall k | 0 <= k < |init| ensures IsDigit(init[k]) { assert init[k] == d[k]; }
      }
      LeadingZeroValue(init);
      assert z[|z| - 1] == d[|d| - 1];
    }
  }

  /** Stripping leading zeros keeps the digits and their value. */
  lemma {:induction false} StripKeepsValue(d: string)
    requires AllDigits(d)
    ensures AllDigits(StripLeadingZeros(d)) && DecimalValue(StripLeadingZeros(d)) == DecimalValue(d)
  {
    if |d| > 1 && d[0] == '0' {
      var rest := d[1..];
      assert "0" + rest == d;
      assert AllDigits(rest) by {
        forall k | 0 <= k < |rest| ensures IsDigit(rest[k]) { assert rest[k] == d[k + 1]; }
      }
      LeadingZeroValue(rest);
      StripKeepsValue(rest);
    }
  }

  /** Digits without a leading zero have a positive value, at least 10 when there are two or more. */
  lemma {:induction false} CanonicalDigitsValue(d: string)
    requires AllDigits(d) && d != [] && d[0] != '0'
    ensures DecimalValue(d) >= 1
    ensures |d| > 1 ==> DecimalValue(d) >= 10
  {
    if |d| > 1 {
      var init := d[..|d| - 1];
      assert init[0] == d[0];
      assert AllDigits(init) by {
        forall k | 0 <= k < |init| ensures IsDigit(init[k]) { assert init[k] == d[k]; }
      }
      CanonicalDigitsValue(init);
    }
  }

  /** Digits without a leading zero (or a single digit) are exactly the decimal form of their value. */
  lemma {:induction false} CanonicalDigitsFormat(d: string)
    requires AllDigits(d) && d != [] && (|d| == 1 || d[0] != '0')
    ensures FormatNat(DecimalValue(d)) == d
  {
    var n := DecimalValue(d);
    if |d| == 1 {
      assert d[..|d| - 1] == [] && DecimalValue([]) == 0;
      assert n == DecimalValue(d[..|d| - 1]) * 10 + DigitValue(d[|d| - 1]);
      assert n == DigitValue(d[0]);
      assert DigitChar(n) == d[0];
    } else {
      var init := d[..|d| - 1];
      var last := d[|d| - 1];
      assert init[0] == d[0];
      assert AllDigits(init) by {
        forall k | 0 <= k < |init| ensures IsDigit(init[k]) { assert init[k] == d[k]; }
      }
      CanonicalDigitsValue(init);
      CanonicalDigitsFormat(init);
      var m := DecimalValue(init);
      assert n == m * 10 + DigitValue(last);
      assert n / 10 == m && n % 10 == DigitValue(last);
      assert DigitChar(DigitValue(last)) == last;
      assert d == init + [last];
    }
  }

  /**
   * Every accepted id text is, after its optional sign and any leading zeros,
   * the decimal form of the magnitude of its value.
   */
  lemma ParseThenFormat(s: string)
    requires ParseInt64(s).Some?
    ensures var v := ParseInt64(s).value;
      StripLeadingZeros(DigitsPart(s)) == FormatNat(if v < 0 then -v else v)
  {
    var d := DigitsPart(s);
    var v := ParseInt64(s).value;
    StripKeepsValue(d);
    CanonicalDigitsFormat(StripLeadingZeros(d));
    assert (if v < 0 then -v else v) == DecimalValue(d);
  }

  /** The shortest decimal digits of `n`. */
  function FormatNat(n: nat): (s: string)
    ensures |s| > 0 && AllDigits(s) && DecimalValue(s) == n
    ensures |s| > 1 ==> s[0] != '0'
  {
    if n < 10 then [DigitChar(n)]
    else
      var s := FormatNat(n / 10) + [DigitChar(n % 10)];
      assert s[..|s| - 1] == FormatNat(n / 10);
      s
  }

  /** `strconv.FormatInt(n, 10)`. */
  function FormatInt(n: int): string {
    if n < 0 then "-" + FormatNat(-n) else FormatNat(n)
  }

  /** `k` zero digits in front add nothing to the value. */
  lemma {:induction false} ZerosValue(k: nat, d: string)
    requires AllDigits(d)
    ensures AllDigits(seq(k, _ => '0') + d) && DecimalValue(seq(k, _ => '0') + d) == DecimalValue(d)
  {
    if k > 0 {
      var inner := seq(k - 1, _ => '0') + d;
      assert seq(k, _ => '0') + d == "0" + inner;
      ZerosValue(k - 1, d);
      LeadingZeroValue(inner);
    } else {
      assert seq(k, _ => '0') + d == d;
    }
  }

  /**
   * Text that is not in shortest form is accepted too: a sign ('-' for a
   * negative value, none or '+' otherwise, and also '-' for zero), any number
   * of leading zeros and the digits of a 64-bit value parse to that value.
   */
  lemma ParsePadded(sign: string, zeros: nat, n: int)
    requires MinInt64 <= n <= MaxInt64
    requires if n < 0 then sign == "-" else sign == "" || sign == "+" || (n == 0 && sign == "-")
    ensures ParseInt64(sign + seq(zeros, _ => '0') + FormatNat(if n < 0 then -n else n)) == Some(n)
  {
    var m := if n < 0 then -n else n;
    var f := FormatNat(m);
    var digits := seq(zeros, _ => '0') + f;
    assert digits != [] && AllDigits(digits) && DecimalValue(digits) == m by {
      ZerosValue(zeros, f);
    }
    assert sign + seq(zeros, _ => '0') + f == sign + digits;
    ParseSignedDigits(sign, digits);
  }

  /** A sign followed by digits parses to the signed value of the digits, when it fits. */
  lemma ParseSignedDigits(sign: string, digits: string)
    requires sign == "" || sign == "+" || sign == "-"
    requires digits != [] && AllDigits(digits)
    ensures var m: int := DecimalValue(digits); var v := if sign == "-" then -m else m;
      MinInt64 <= v <= MaxInt64 ==> ParseInt64(sign + digits) == Some(v)
  {
    var s := sign + digits;
    assert DigitsPart(s) == digits && (Signed(s) && s[0] == '-' <==> sign == "-") by {
      if sign == "" {
        assert s == digits && IsDigit(digits[0]);
      } else {
        assert s[0] == sign[0] && s[1..] == digits;
      }
    }
  }

  /** Leading zeros and a sign are accepted: "007" is 7, "-05" is -5, and "+0" and "-0" are 0. */
  lemma ParsePaddedExamples()
    ensures ParseInt64("007") == Some(7) && ParseInt64("-05") == Some(-5) && ParseInt64("+0") == Some(0)
    ensures ParseInt64("-0") == Some(0)
  {
    ParsePadded("-", 0, 0);
    assert "-" + seq(0, _ => '0') + FormatNat(0) == "-0";
    ParsePadded("", 2, 7);
    ParsePadded("-", 1, -5);
    ParsePadded("+", 0, 0);
    assert "" + seq(2, _ => '0') + FormatNat(7) == "007";
    assert "-" + seq(1, _ => '0') + FormatNat(5) == "-05";
    assert "+" + seq(0, _ => '0') + FormatNat(0) == "+0";
  }

  /** Every 64-bit id written in decimal parses back to itself. */
  lemma ParseFormatRoundTrip(n: int)
    requires MinInt64 <= n <= MaxInt64
    ensures ParseInt64(FormatInt(n)) == Some(n)
  {
    var f := FormatInt(n);
    if n < 0 {
      assert f[1..] == FormatNat(-n);
    } else {
      assert IsDigit(f[0]);
    }
  }

  /** A sign alone, a blank or a letter is rejected; a '+' sign is accepted. */
  lemma ParseInt64Examples()
    ensures ParseInt64("") == None && ParseInt64("+") == None && ParseInt64("-") == None
    ensures ParseInt64(" 7") == None && ParseInt64("7a") == None
    ensures ParseInt64("+42") == Some(42) && ParseInt64("-42") == Some(-42)
  {
    assert !IsDigit(' ') && !IsDigit('a');
    assert "+42"[1..] == "42" && "-42"[1..] == "42";
    assert DecimalValue("42") == 42 by { assert "42"[..1] == "4"; }
  }
}
