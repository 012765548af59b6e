/**
 * Python 2's `float(s)` and `int(s, 16)`, as far as the option parsers use them.
 */
module Numbers {
  import opened Results
  import opened Strings

  function Pow10(n: nat): (r: nat)
    ensures r >= 1
  {
    if n == 0 then 1 else 10 * Pow10(n - 1)
  }

  /** The index of the first `c` in `s`, or `|s|` when there is none. */
  function IndexOf(s: string, c: char): (k: nat)
    ensures k <= |s| && c !in s[..k]
    ensures k < |s| ==> s[k] == c
  {
    if s == [] then 0
    else if s[0] == c then 0
    else
      var k := 1 + IndexOf(s[1..], c);
      assert s[..k] == [s[0]] + s[1..][..k - 1];
      k
  }

  /** The index of the first exponent marker `e` or `E`, or `|s|`. */
  function ExponentMark(s: string): (k: nat)
    ensures k <= |s|
    ensures forall i | 0 <= i < k :: s[i] != 'e' && s[i] != 'E'
    ensures k < |s| ==> s[k] == 'e' || s[k] == 'E'
  {
    if s == [] then 0
    else if s[0] == 'e' || s[0] == 'E' then 0
    else 1 + ExponentMark(s[1..])
  }

  /** Splits off an optional leading `+` or `-`; the flag says whether it was `-`. */
  function SplitSign(s: string): (r: (bool, string))
    ensures r.1 == s || (|s| >= 1 && (s[0] == '+' || s[0] == '-') && r.1 == s[1..])
    ensures r.0 <==> |s| >= 1 && s[0] == '-'
  {
    if |s| >= 1 && (s[0] == '+' || s[0] == '-') then (s[0] == '-', s[1..]) else (false, s)
  }

  /** Digits with at most one decimal point and at least one digit: `12`, `1.5`, `.5`, `1.`. */
  function ParseMantissa(m: string): (r: Option<real>)
    ensures r.Some? ==> r.value >= 0.0
  {
    var dot := IndexOf(m, '.');
    Decimal(m[..dot], if dot < |m| then m[dot + 1..] else [])
  }

  /** The value of `whole.frac` when both are digit strings and not both empty. */
  function Decimal(whole: string, frac: string): (r: Option<real>)
    ensures r.Some? ==> r.value >= 0.0
  {
    if AllDigits(whole) && AllDigits(frac) && |whole| + |frac| > 0 then
      Some(DecimalValue(whole, frac))
    else None
  }

  function DecimalValue(whole: string, frac: string): (v: real)
    requires AllDigits(whole) && AllDigits(frac)
    ensures v >= 0.0
  {
    DigitsValue(whole) as real + DigitsValue(frac) as real / Pow10(|frac|) as real
  }

  /** An optionally signed, non-empty run of digits. */
  function ParseExponent(e: string): Option<int> {
    var (neg, digits) := SplitSign(e);
    if digits != [] && AllDigits(digits) then
      Some(if neg then -(DigitsValue(digits) as int) else DigitsValue(digits))
    else None
  }

  function Scale10(m: real, e: int): real {
    if e >= 0 then m * Pow10(e) as real else m / Pow10(-e) as real
  }

  /**
   * Python's `float(s)` for decimal spellings: surrounding whitespace, an
   * optional sign, a mantissa and an optional exponent.
   */
  function ParseFloat(s: string): Option<real> {
    var (neg, body) := SplitSign(Strip(s));
    match ParseUnsigned(body)
    case None => None
    case Some(v) => Some(if neg then -v else v)
  }

  /** A mantissa followed by an optional exponent, no sign in front. */
  function ParseUnsigned(body: string): Option<real> {
    var k := ExponentMark(body);
    var mantissa := ParseMantissa(body[..k]);
    var exponent := if k < |body| then ParseExponent(body[k + 1..]) else Some(0);
    if mantissa.None? || exponent.None? then None
    else Some(Scale10(mantissa.value, exponent.value))
  }

  /** Whatever `float()` accepts contains at least one digit. */
  lemma ParseFloatNeedsDigit(s: string)
    requires ParseFloat(s).Some?
    ensures exists i | 0 <= i < |s| :: IsDigit(s[i])
  {
    var t := Strip(s);
    var body := SplitSign(t).1;
    assert ParseUnsigned(body).Some?;
    var p := UnsignedHasDigit(body);
    var q := SignedHasDigit(t, p);
    var l := LStrip(s);
    assert t == RStrip(l) == l[..|t|];
    assert l == s[|s| - |l|..];
    assert IsDigit(s[|s| - |l| + q]);
  }

  lemma SignedHasDigit(t: string, p: nat) returns (q: nat)
    requires p < |SplitSign(t).1| && IsDigit(SplitSign(t).1[p])
    ensures q < |t| && IsDigit(t[q])
  {
    q := if SplitSign(t).1 == t then p else p + 1;
  }

  lemma UnsignedHasDigit(body: string) returns (p: nat)
    requires ParseUnsigned(body).Some?
    ensures p < |body| && IsDigit(body[p])
  {
    var k := ExponentMark(body);
    var m := body[..k];
    assert ParseMantissa(m).Some?;
    var dot := IndexOf(m, '.');
    if dot > 0 {
      assert IsDigit(m[..dot][0]);
      p := 0;
    } else {
      var frac := if dot < |m| then m[dot + 1..] else [];
      assert |frac| > 0;
      assert IsDigit(frac[0]);
      p := dot + 1;
    }
  }

  /** Without an exponent marker the whole body is the mantissa. */
  lemma UnsignedWithoutExponent(body: string)
    requires forall i | 0 <= i < |body| :: body[i] != 'e' && body[i] != 'E'
    ensures ParseUnsigned(body) == ParseMantissa(body)
  {
    var k := ExponentMark(body);
    assert k == |body|;
    assert body[..k] == body;
    var m := ParseMantissa(body);
    if m.Some? {
      assert Scale10(m.value, 0) == m.value * 1 as real;
    }
  }

  /** A run of digits is a mantissa without a fraction. */
  lemma MantissaDigits(s: string)
    requires AllDigits(s) && s != []
    ensures ParseMantissa(s) == Some(DigitsValue(s) as real)
  {
    var dot := IndexOf(s, '.');
    assert dot < |s| ==> IsDigit(s[dot]);
    assert s[..dot] == s;
    assert ParseMantissa(s) == Decimal(s, []);
    WholeDecimal(s);
  }

  /** No fractional digits add nothing. */
  lemma WholeDecimal(s: string)
    requires AllDigits(s)
    ensures DecimalValue(s, []) == DigitsValue(s) as real
  {
    assert DigitsValue([]) == 0 && Pow10(0) == 1;
    assert 0 as real / 1 as real == 0.0;
  }

  /** A string of digits parses as the number it denotes. */
  lemma ParseFloatDigits(s: string)
    requires s != [] && AllDigits(s)
    ensures ParseFloat(s) == Some(DigitsValue(s) as real)
  {
    StripClean(s);
    assert SplitSign(s) == (false, s);
    UnsignedWithoutExponent(s);
    MantissaDigits(s);
  }

  /** `str(n)` read back by `float()` is `n` again. */
  lemma ParseFloatNat(n: nat)
    ensures ParseFloat(NatToString(n)) == Some(n as real)
  {
    ParseFloatDigits(NatToString(n));
  }

  /** `whole.frac` with digit strings parses as the decimal fraction it denotes. */
  lemma ParseFloatDecimal(whole: string, frac: string)
    requires AllDigits(whole) && AllDigits(frac) && |whole| + |frac| > 0
    ensures ParseFloat(whole + "." + frac) == Some(DecimalValue(whole, frac))
  {
    var s := whole + "." + frac;
    assert s[0] == '.' || IsDigit(s[0]);
    assert s[|s| - 1] == '.' || IsDigit(s[|s| - 1]);
    StripClean(s);
    assert SplitSign(s) == (false, s);
    forall i | 0 <= i < |s|
      ensures s[i] != 'e' && s[i] != 'E'
    {
      assert s[i] == '.' || IsDigit(s[i]);
    }
    UnsignedWithoutExponent(s);
    MantissaDecimal(whole, frac);
  }

  lemma MantissaDecimal(whole: string, frac: string)
    requires AllDigits(whole)
    ensures ParseMantissa(whole + "." + frac) == Decimal(whole, frac)
  {
    var s := whole + "." + frac;
    forall i | 0 <= i < |whole|
      ensures s[i] != '.'
    {
      assert s[i] == whole[i];
    }
    IndexOfAt(s, '.', |whole|);
    assert s[..|whole|] == whole;
    assert s[|whole| + 1..] == frac;
  }

  lemma {:induction false} IndexOfAt(s: string, c: char, k: nat)
    requires k < |s| && s[k] == c
    requires forall i | 0 <= i < k :: s[i] != c
    ensures IndexOf(s, c) == k
  {
    if k > 0 {
      IndexOfAt(s[1..], c, k - 1);
    }
  }

  predicate IsHexDigit(c: char) {
    IsDigit(c) || 'a' <= c <= 'f' || 'A' <= c <= 'F'
  }

  predicate AllHex(s: string) {
    forall i | 0 <= i < |s| :: IsHexDigit(s[i])
  }

  function HexDigitValue(c: char): (v: nat)
    requires IsHexDigit(c)
    ensures v < 16
  {
    if IsDigit(c) then DigitValue(c)
    else if 'a' <= c <= 'f' then (c as int) - ('a' as int) + 10
    else (c as int) - ('A' as int) + 10
  }

  function HexValue(s: string): nat
    requires AllHex(s)
  {
    if s == [] then 0 else HexValue(s[..|s| - 1]) * 16 + HexDigitValue(s[|s| - 1])
  }

  /**
   * Python 2's `int(s, 16)` on the at most two-character slices `parse_color`
   * passes it: whitespace around, an optional sign (whitespace may follow it),
   * then hexadecimal digits. A `0x` prefix cannot fit in two characters
   * together with a digit, so it is not accepted here.
   */
  function ParseHexSlice(s: string): (r: Option<int>)
    ensures s != [] && AllHex(s) ==> r == Some(HexValue(s))
    ensures |s| <= 2 && r.Some? ==> -15 <= r.value <= 255
    ensures s == [] ==> r == None
  {
    HexStringIsClean(s);
    SignedHex(Strip(s))
  }

  /** `int(t, 16)` once the surrounding whitespace is gone: an optional sign, whitespace, digits. */
  function SignedHex(t: string): (r: Option<int>)
    ensures |t| <= 2 && r.Some? ==> -15 <= r.value <= 255
    ensures t == [] ==> r == None
  {
    var (neg, body) := SplitSign(t);
    var digits := LStrip(body);
    if digits != [] && AllHex(digits) then
      var v := HexValue(digits);
      assert |t| <= 2 ==> v <= 255 && (neg ==> v <= 15) by {
        if |t| <= 2 {
          HexValueShort(digits);
        }
      }
      Some(if neg then -(v as int) else v)
    else None
  }

  lemma HexStringIsClean(s: string)
    ensures s != [] && AllHex(s) ==> Strip(s) == s && SplitSign(s) == (false, s) && LStrip(s) == s
  {
    if s != [] && AllHex(s) {
      assert IsHexDigit(s[0]) && IsHexDigit(s[|s| - 1]);
      StripClean(s);
    }
  }

  /**
   * The same conversion spelled out for the strings of at most two
   * characters it is applied to: two digits, one digit, or one digit with a
   * sign or a whitespace character before it (or whitespace after it).
   */
  function ParseHexPair(s: string): (r: Option<int>)
    requires |s| <= 2
    ensures s != [] && AllHex(s) ==> r == Some(HexValue(s))
    ensures r.Some? ==> -15 <= r.value <= 255
  {
    if |s| == 1 then
      assert s[..0] == [];
      if IsHexDigit(s[0]) then Some(HexDigitValue(s[0])) else None
    else if |s| == 2 then
      if IsHexDigit(s[0]) && IsHexDigit(s[1]) then
        HexValueTwo(s);
        Some(16 * HexDigitValue(s[0]) + HexDigitValue(s[1]))
      else if IsHexDigit(s[1]) && (s[0] == '+' || IsSpace(s[0])) then Some(HexDigitValue(s[1]))
      else if IsHexDigit(s[1]) && s[0] == '-' then Some(-(HexDigitValue(s[1]) as int))
      else if IsHexDigit(s[0]) && IsSpace(s[1]) then Some(HexDigitValue(s[0]))
      else None
    else None
  }

  /** On the strings it is defined for, the spelled-out conversion agrees with `int(s, 16)`. */
  lemma ParseHexPairAgrees(s: string)
    requires |s| <= 2
    ensures ParseHexPair(s) == ParseHexSlice(s)
  {
    HexStringIsClean(s);
    StripShort(s);
    PairOfStripped(s);
    SignedHexShort(Strip(s));
  }

  /** Whitespace around the digit does not change the spelled-out conversion. */
  lemma PairOfStripped(s: string)
    requires |s| <= 2
    ensures |Strip(s)| <= 2 && ParseHexPair(Strip(s)) == ParseHexPair(s)
  {
    StripShort(s);
    if |s| == 2 {
      if IsSpace(s[0]) && IsSpace(s[1]) {
        assert Strip(s) == [];
      } else if IsSpace(s[0]) {
        assert Strip(s) == [s[1]];
        assert ParseHexPair(s) == (if IsHexDigit(s[1]) then Some(HexDigitValue(s[1])) else None);
      } else if IsSpace(s[1]) {
        assert Strip(s) == [s[0]];
        assert ParseHexPair(s) == (if IsHexDigit(s[0]) then Some(HexDigitValue(s[0])) else None);
      }
    }
  }

  /** Without surrounding whitespace, the sign-and-digits reading agrees with the spelled-out one. */
  lemma SignedHexShort(t: string)
    requires |t| <= 2 && (t == [] || (!IsSpace(t[0]) && !IsSpace(t[|t| - 1])))
    ensures SignedHex(t) == ParseHexPair(t)
  {
    if |t| == 1 && (t[0] == '+' || t[0] == '-') {
      assert SplitSign(t).1 == [];
    } else if |t| == 2 && (t[0] == '+' || t[0] == '-') {
      SignedDigit(t);
    } else if t != [] {
      assert SplitSign(t) == (false, t);
      assert LStrip(t) == t;
      if |t| == 2 && AllHex(t) {
        assert HexValue(t[..1]) == HexDigitValue(t[0]) by { assert t[..1][..0] == [] && t[..1][0] == t[0]; }
      }
    }
  }

  lemma SignedDigit(t: string)
    requires |t| == 2 && (t[0] == '+' || t[0] == '-') && !IsSpace(t[1])
    ensures SignedHex(t) == ParseHexPair(t)
  {
    var body := t[1..];
    assert body == [t[1]];
    assert SplitSign(t) == (t[0] == '-', body);
    assert LStrip(body) == body;
    if IsHexDigit(t[1]) {
      assert HexValue(body) == HexDigitValue(t[1]) by { assert body[..0] == []; }
    }
  }

  /** `strip()` on at most two characters, case by case. */
  lemma StripShort(s: string)
    requires |s| <= 2
    ensures |s| == 1 ==> Strip(s) == (if IsSpace(s[0]) then [] else s)
    ensures |s| == 2 && IsSpace(s[0]) && IsSpace(s[1]) ==> Strip(s) == []
    ensures |s| == 2 && IsSpace(s[0]) && !IsSpace(s[1]) ==> Strip(s) == [s[1]]
    ensures |s| == 2 && !IsSpace(s[0]) && IsSpace(s[1]) ==> Strip(s) == [s[0]]
    ensures |s| == 2 && !IsSpace(s[0]) && !IsSpace(s[1]) ==> Strip(s) == s
  {
    if |s| == 1 {
      StripOne(s);
    } else if |s| == 2 {
      if IsSpace(s[0]) {
        StripLeadingSpace(s);
      } else if IsSpace(s[1]) {
        StripTrailingSpace(s);
      } else {
        StripClean(s);
      }
    }
  }

  lemma StripLeadingSpace(s: string)
    requires |s| == 2 && IsSpace(s[0])
    ensures Strip(s) == (if IsSpace(s[1]) then [] else [s[1]])
  {
    var u := s[1..];
    assert u == [s[1]];
    assert Strip(s) == Strip(u) by {
      assert LStrip(s) == LStrip(u);
    }
    StripOne(u);
  }

  lemma StripTrailingSpace(s: string)
    requires |s| == 2 && !IsSpace(s[0]) && IsSpace(s[1])
    ensures Strip(s) == [s[0]]
  {
    assert LStrip(s) == s;
    assert s[..1] == [s[0]];
    assert RStrip(s) == RStrip(s[..1]);
    StripOne(s[..1]);
  }

  lemma StripOne(s: string)
    requires |s| == 1
    ensures Strip(s) == (if IsSpace(s[0]) then [] else s)
    ensures LStrip(s) == Strip(s) && RStrip(s) == Strip(s)
  {
    if IsSpace(s[0]) {
      assert s[1..] == [] && s[..0] == [];
      assert LStrip(s) == [];
      assert RStrip(s) == [];
      assert Strip(s) == RStrip([]);
    } else {
      assert LStrip(s) == s;
      assert RStrip(s) == s;
    }
  }

  /** Two hexadecimal digits, most significant first. */
  lemma HexValueTwo(s: string)
    requires |s| == 2 && AllHex(s)
    ensures HexValue(s) == 16 * HexDigitValue(s[0]) + HexDigitValue(s[1])
  {
    assert HexValue(s[..1]) == HexDigitValue(s[0]) by { assert s[..1][..0] == [] && s[..1][0] == s[0]; }
  }

  function Pow16(n: nat): nat {
    if n == 0 then 1 else 16 * Pow16(n - 1)
  }

  /** One hexadecimal digit is at most 15, two are at most 255. */
  lemma HexValueShort(s: string)
    requires AllHex(s) && |s| <= 2
    ensures HexValue(s) <= 255
    ensures |s| <= 1 ==> HexValue(s) <= 15
  {
    HexValueBound(s);
    assert Pow16(0) == 1 && Pow16(1) == 16 && Pow16(2) == 256;
  }

  lemma {:induction false} HexValueBound(s: string)
    ensures AllHex(s) ==> HexValue(s) < Pow16(|s|)
  {
    if s != [] && AllHex(s) {
      HexValueBound(s[..|s| - 1]);
    }
  }
}
