/**
 * JavaScript's conversion of a string to a number, as the relational
 * comparison `password <= 4` performs it (ECMA-262, section 7.1.4.1.1,
 * StringToNumber, and the StringNumericLiteral grammar of section 7.1.4.1),
 * and the comparison itself (section 7.2.13, IsLessThan).
 *
 * After stripping `\s` characters at both ends, the empty string is 0; a
 * numeral is an optional sign followed by `Infinity` or by decimal digits
 * with an optional fraction and exponent, or an unsigned `0x`, `0o` or `0b`
 * integer; anything else is NaN.
 *
 * The value is kept exact (a `real`), not rounded to binary64.
 */
module JsNumber {
  import opened Sequences
  import opened JsText

  /** A JavaScript number as far as ordering is concerned (-0 and +0 are
      both `Finite(0.0)`). */
  datatype Number = NaN | Infinity(negative: bool) | Finite(value: real)

  /** `c` is a digit in base `radix` (2, 8, 10 or 16). */
  predicate IsRadixDigit(c: char, radix: nat)
  {
    if radix == 16 then IsDecimalDigit(c) || 'a' <= c <= 'f' || 'A' <= c <= 'F'
    else '0' <= c && (c as int) < ('0' as int) + radix && radix <= 10
  }

  predicate AllDigits(s: string, radix: nat)
  {
    forall i :: 0 <= i < |s| ==> IsRadixDigit(s[i], radix)
  }

  function DigitValue(c: char): nat
  {
    if IsDecimalDigit(c) then c as int - '0' as int
    else if 'a' <= c <= 'f' then c as int - 'a' as int + 10
    else if 'A' <= c <= 'F' then c as int - 'A' as int + 10
    else 0
  }

  /** The value of a digit string in base `radix`, most significant first. */
  function DigitsValue(s: string, radix: nat): nat
  {
    if s == [] then 0
    else DigitsValue(s[..|s| - 1], radix) * radix + DigitValue(s[|s| - 1])
  }

  /** `m` times ten to the power `e`, one factor of ten at a time. */
  function Scale(m: real, e: int): real
    decreases if e >= 0 then e else -e
  {
    if e == 0 then m
    else if e > 0 then Scale(m * 10.0, e - 1)
    else Scale(m / 10.0, e + 1)
  }

  predicate IsExponentIndicator(c: char)
  {
    c == 'e' || c == 'E'
  }

  /** The position of the first exponent indicator, or |b| if none. */
  function ExponentStart(b: string): (k: nat)
    ensures k <= |b|
    ensures forall i :: 0 <= i < k ==> !IsExponentIndicator(b[i])
    ensures k < |b| ==> IsExponentIndicator(b[k])
    decreases |b|
  {
    if b == [] || IsExponentIndicator(b[0]) then 0
    else 1 + ExponentStart(b[1..])
  }

  /** The value of the mantissa `whole.frac`: the fraction's digits count
      in tenths, hundredths and so on. */
  function FractionValue(whole: string, frac: string): real
  {
    DigitsValue(whole, 10) as real + Scale(DigitsValue(frac, 10) as real, -|frac|)
  }

  /** The part before the exponent: `digits`, `digits.`, `digits.digits` or
      `.digits`. */
  function MantissaValue(m: string): Option<real>
  {
    var parts := Split(m, '.');
    if |parts| == 1 then
      if parts[0] != [] && AllDigits(parts[0], 10) then Some(DigitsValue(parts[0], 10) as real)
      else None
    else if |parts| == 2 && AllDigits(parts[0], 10) && AllDigits(parts[1], 10) &&
            parts[0] + parts[1] != [] then
      Some(FractionValue(parts[0], parts[1]))
    else None
  }

  /** The exponent after `e` or `E`: optionally signed decimal digits. */
  function ExponentValue(e: string): Option<int>
  {
    if e != [] && (e[0] == '+' || e[0] == '-') then
      if e[1..] != [] && AllDigits(e[1..], 10) then
        var v: int := DigitsValue(e[1..], 10);
        Some(if e[0] == '-' then -v else v)
      else None
    else if e != [] && AllDigits(e, 10) then Some(DigitsValue(e, 10))
    else None
  }

  /** StrUnsignedDecimalLiteral. */
  function UnsignedDecimal(b: string): Number
  {
    if b == "Infinity" then Infinity(false)
    else
      var k := ExponentStart(b);
      var m := MantissaValue(b[..k]);
      var e := if k == |b| then Some(0) else ExponentValue(b[k + 1..]);
      if m.Some? && e.Some? then Finite(Scale(m.value, e.value)) else NaN
  }

  /** NonDecimalIntegerLiteral: `0x`, `0o` or `0b` and at least one digit. */
  function NonDecimalInteger(t: string): Option<nat>
  {
    if |t| >= 3 && t[0] == '0' && t[1] in "xXoObB" then
      var radix := if t[1] in "xX" then 16 else if t[1] in "oO" then 8 else 2;
      if AllDigits(t[2..], radix) then Some(DigitsValue(t[2..], radix)) else None
    else None
  }

  function Negate(x: Number): Number
  {
    match x
    case NaN => NaN
    case Infinity(negative) => Infinity(!negative)
    case Finite(v) => Finite(-v)
  }

  /** StringNumericLiteral, once the surrounding `\s` is gone: empty is 0,
      then a non-decimal integer, a signed or an unsigned decimal literal;
      anything else is NaN. */
  function NumeralValue(t: string): Number
  {
    if t == [] then Finite(0.0)
    else match NonDecimalInteger(t)
      case Some(v) => Finite(v as real)
      case None =>
        if t[0] == '+' then UnsignedDecimal(t[1..])
        else if t[0] == '-' then Negate(UnsignedDecimal(t[1..]))
        else UnsignedDecimal(t)
  }

  /** `Number(s)`, the conversion the comparison applies to a string. */
  function StringToNumber(s: string): (r: Number)
    ensures AllSpace(s) ==> r == Finite(0.0)
  {
    NumeralValue(Trim(s))
  }

  /** `x <= y` for a number `x` and a finite `y`: every comparison with NaN
      is false. */
  function LessOrEqual(x: Number, y: real): (r: bool)
    ensures x.NaN? ==> !r
  {
    match x
    case NaN => false
    case Infinity(negative) => negative
    case Finite(v) => v <= y
  }

  // ---------------------------------------------------------------------
  // Properties of the conversion.

  /** The decimal numeral of a natural number, without leading zeros. */
  function DecimalString(n: nat): (d: string)
    ensures d != [] && AllDigits(d, 10)
    ensures d[0] == '0' ==> n == 0
  {
    if n < 10 then [('0' as int + n) as char]
    else DecimalString(n / 10) + [('0' as int + n % 10) as char]
  }

  lemma {:induction false} DecimalStringValue(n: nat)
    ensures DigitsValue(DecimalString(n), 10) == n
  {
    if n >= 10 {
      DecimalStringValue(n / 10);
      var d := DecimalString(n);
      assert d[..|d| - 1] == DecimalString(n / 10);
    }
  }

  /** A plain run of decimal digits reads as its value. */
  lemma UnsignedDigits(d: string)
    requires d != [] && AllDigits(d, 10)
    ensures UnsignedDecimal(d) == Finite(DigitsValue(d, 10) as real)
  {
    assert d != "Infinity" by { assert d[0] != 'I'; }
    assert ExponentStart(d) == |d| by {
      assert forall i :: 0 <= i < |d| ==> !IsExponentIndicator(d[i]);
    }
    assert d[..|d|] == d;
    assert MantissaValue(d) == Some(DigitsValue(d, 10) as real) by {
      assert forall i :: 0 <= i < |d| ==> d[i] != '.';
      SplitNoSeparator(d, '.');
    }
    assert Scale(DigitsValue(d, 10) as real, 0) == DigitsValue(d, 10) as real;
  }

  /** A run of decimal digits converts to its value; leading zeros are
      ignored, not read as an octal prefix. */
  lemma DigitsConvert(d: string)
    requires d != [] && AllDigits(d, 10)
    ensures StringToNumber(d) == Finite(DigitsValue(d, 10) as real)
  {
    assert forall i :: 0 <= i < |d| ==> !IsSpace(d[i]);
    TrimNoSpace(d);
    assert NonDecimalInteger(d).None? by {
      if |d| >= 3 && d[0] == '0' { assert IsDecimalDigit(d[1]); }
    }
    assert d[0] != '+' && d[0] != '-';
    UnsignedDigits(d);
  }

  /** Converting the decimal numeral of `n` gives `n`. */
  lemma DecimalRoundTrip(n: nat)
    ensures StringToNumber(DecimalString(n)) == Finite(n as real)
  {
    DecimalStringValue(n);
    DigitsConvert(DecimalString(n));
  }

  /** Appending a digit multiplies by the radix and adds the digit. */
  lemma DigitsValueSnoc(d: string, c: char, radix: nat)
    ensures DigitsValue(d + [c], radix) == DigitsValue(d, radix) * radix + DigitValue(c)
  {
    assert (d + [c])[..|d|] == d;
  }

  /** `"010"` is ten, not octal eight. */
  lemma LeadingZeroSample(ten: string)
    requires ten == "010"
    ensures StringToNumber(ten) == Finite(10.0)
  {
    var digits := [] + ['0'] + ['1'] + ['0'];
    assert ten == digits;
    DigitsConvert(digits);
    TenValue(digits);
  }

  lemma TenValue(digits: string)
    requires digits == [] + ['0'] + ['1'] + ['0']
    ensures DigitsValue(digits, 10) == 10
  {
    DigitsValueSnoc([], '0', 10);
    DigitsValueSnoc([] + ['0'], '1', 10);
    DigitsValueSnoc([] + ['0'] + ['1'], '0', 10);
  }

  /** `"00003"` is three. */
  lemma LeadingZerosSample(three: string)
    requires three == "00003"
    ensures StringToNumber(three) == Finite(3.0)
  {
    var digits := [] + ['0'] + ['0'] + ['0'] + ['0'] + ['3'];
    assert three == digits;
    DigitsConvert(digits);
    ThreeValue(digits);
  }

  lemma ThreeValue(digits: string)
    requires digits == [] + ['0'] + ['0'] + ['0'] + ['0'] + ['3']
    ensures DigitsValue(digits, 10) == 3
  {
    var z := [] + ['0'];
    DigitsValueSnoc([], '0', 10);
    DigitsValueSnoc(z, '0', 10);
    DigitsValueSnoc(z + ['0'], '0', 10);
    DigitsValueSnoc(z + ['0'] + ['0'], '0', 10);
    DigitsValueSnoc(z + ['0'] + ['0'] + ['0'], '3', 10);
  }

  /** The conversion sees only the trimmed text. */
  lemma ConvertsTrimmed(s: string)
    ensures StringToNumber(s) == StringToNumber(Trim(s))
  {
    TrimIdempotent(s);
  }

  /** `" 3 "` is three: the surrounding `\s` is ignored. */
  lemma PaddedSample(padded: string)
    requires padded == " 3 "
    ensures StringToNumber(padded) == Finite(3.0)
  {
    ConvertsTrimmed(padded);
    TrimSample(padded);
    assert Trim(padded) == DecimalString(3);
    DecimalRoundTrip(3);
  }

  /** A sign applies to the unsigned literal after it. */
  lemma SignedConvert(t: string)
    requires |t| >= 2 && (t[0] == '-' || t[0] == '+')
    requires forall i :: 0 <= i < |t| ==> !IsSpace(t[i])
    ensures StringToNumber(t) == if t[0] == '-' then Negate(UnsignedDecimal(t[1..]))
                                 else UnsignedDecimal(t[1..])
  {
    TrimNoSpace(t);
  }

  /** A sign followed by decimal digits converts to the signed value. */
  lemma SignedDigitsConvert(sign: char, d: string)
    requires sign == '-' || sign == '+'
    requires d != [] && AllDigits(d, 10)
    ensures StringToNumber([sign] + d) ==
            Finite(if sign == '-' then -(DigitsValue(d, 10) as real) else DigitsValue(d, 10) as real)
  {
    var t := [sign] + d;
    assert t[1..] == d;
    SignedHasNoSpace(sign, d);
    SignedConvert(t);
    UnsignedDigits(d);
  }

  lemma SignedHasNoSpace(sign: char, d: string)
    requires sign == '-' || sign == '+'
    requires AllDigits(d, 10)
    ensures forall i :: 0 <= i < |[sign] + d| ==> !IsSpace(([sign] + d)[i])
  {
    forall i | 0 <= i < |[sign] + d| ensures !IsSpace(([sign] + d)[i]) {
      if i > 0 { assert ([sign] + d)[i] == d[i - 1]; }
    }
  }

  /** `"-1"` is minus one. */
  lemma NegativeSample(minusOne: string)
    requires minusOne == "-1"
    ensures StringToNumber(minusOne) == Finite(-1.0)
  {
    var one := [] + ['1'];
    assert minusOne == ['-'] + one;
    SignedDigitsConvert('-', one);
    assert DigitsValue(one, 10) == 1 by { DigitsValueSnoc([], '1', 10); }
  }

  /** `"+7"` is seven. */
  lemma PositiveSample(seven: string)
    requires seven == "+7"
    ensures StringToNumber(seven) == Finite(7.0)
  {
    var d := [] + ['7'];
    assert seven == ['+'] + d;
    SignedDigitsConvert('+', d);
    assert DigitsValue(d, 10) == 7 by { DigitsValueSnoc([], '7', 10); }
  }

  /** Text with no `\s`, no sign and no `0x`/`0o`/`0b` prefix converts as an
      unsigned decimal literal. */
  lemma PlainConvert(t: string)
    requires t != [] && t[0] != '+' && t[0] != '-'
    requires forall i :: 0 <= i < |t| ==> !IsSpace(t[i])
    requires NonDecimalInteger(t).None?
    ensures StringToNumber(t) == UnsignedDecimal(t)
  {
    TrimNoSpace(t);
  }

  /** Digits, a dot and digits read as the whole part plus the fraction. */
  lemma UnsignedFraction(a: string, b: string)
    requires a != [] && b != [] && AllDigits(a, 10) && AllDigits(b, 10)
    ensures UnsignedDecimal(a + ['.'] + b) ==
            Finite(FractionValue(a, b))
  {
    var m := a + ['.'] + b;
    assert m != "Infinity" by { assert m[0] != 'I'; }
    assert forall i :: 0 <= i < |m| ==> !IsExponentIndicator(m[i]) by {
      forall i | 0 <= i < |m| ensures !IsExponentIndicator(m[i]) {
        if i > |a| { assert m[i] == b[i - |a| - 1]; }
      }
    }
    assert ExponentStart(m) == |m|;
    assert m[..|m|] == m;
    assert '.' !in a by { assert forall i :: 0 <= i < |a| ==> a[i] != '.'; }
    assert '.' !in b by { assert forall i :: 0 <= i < |b| ==> b[i] != '.'; }
    SplitAround(a, '.', b);
    SplitNoSeparator(a, '.');
    SplitNoSeparator(b, '.');
    assert Split(m, '.') == [a, b];
    var v := FractionValue(a, b);
    assert MantissaValue(m) == Some(v);
    assert Scale(v, 0) == v;
  }

  /** Digits, `e` and digits read as the mantissa times ten to the exponent. */
  lemma UnsignedExponent(a: string, e: string)
    requires a != [] && e != [] && AllDigits(a, 10) && AllDigits(e, 10)
    ensures UnsignedDecimal(a + ['e'] + e) ==
            Finite(Scale(DigitsValue(a, 10) as real, DigitsValue(e, 10)))
  {
    var m := a + ['e'] + e;
    assert m != "Infinity" by { assert m[0] != 'I'; }
    assert ExponentStart(m) == |a| by {
      assert forall i :: 0 <= i < |a| ==> m[i] == a[i];
      assert IsExponentIndicator(m[|a|]);
    }
    assert m[..|a|] == a && m[|a| + 1..] == e;
    assert '.' !in a by { assert forall i :: 0 <= i < |a| ==> a[i] != '.'; }
    SplitNoSeparator(a, '.');
    var mv := DigitsValue(a, 10) as real;
    assert MantissaValue(a) == Some(mv);
    assert e[0] != '+' && e[0] != '-';
    var ev := DigitsValue(e, 10);
    assert ExponentValue(e) == Some(ev);
    assert UnsignedDecimal(m) == Finite(Scale(mv, ev));
  }

  /** Digits, a dot and digits convert to the whole part plus the fraction. */
  lemma FractionConvert(a: string, b: string)
    requires a != [] && b != [] && AllDigits(a, 10) && AllDigits(b, 10)
    ensures StringToNumber(a + ['.'] + b) == Finite(FractionValue(a, b))
  {
    var t := a + ['.'] + b;
    assert t[0] == a[0] && IsDecimalDigit(t[0]);
    assert forall i :: 0 <= i < |t| ==> !IsSpace(t[i]) by {
      forall i | 0 <= i < |t| ensures !IsSpace(t[i]) {
        if i > |a| { assert t[i] == b[i - |a| - 1]; }
      }
    }
    assert NonDecimalInteger(t).None? by {
      if |t| >= 3 && t[0] == '0' {
        if |a| == 1 { assert t[1] == '.'; } else { assert t[1] == a[1]; }
      }
    }
    PlainConvert(t);
    UnsignedFraction(a, b);
  }

  /** Digits, `e` and digits convert to the mantissa times ten to the
      exponent. */
  lemma ExponentConvert(a: string, e: string)
    requires a != [] && e != [] && AllDigits(a, 10) && AllDigits(e, 10)
    ensures StringToNumber(a + ['e'] + e) == Finite(Scale(DigitsValue(a, 10) as real, DigitsValue(e, 10)))
  {
    var t := a + ['e'] + e;
    assert t[0] == a[0] && IsDecimalDigit(t[0]);
    assert forall i :: 0 <= i < |t| ==> !IsSpace(t[i]) by {
      forall i | 0 <= i < |t| ensures !IsSpace(t[i]) {
        if i > |a| { assert t[i] == e[i - |a| - 1]; }
      }
    }
    assert NonDecimalInteger(t).None? by {
      if |t| >= 3 && t[0] == '0' {
        if |a| == 1 { assert t[1] == 'e'; } else { assert t[1] == a[1]; }
      }
    }
    PlainConvert(t);
    UnsignedExponent(a, e);
  }

  /** `"4.5"` is four and a half. */
  lemma FractionSample(half: string)
    requires half == "4.5"
    ensures StringToNumber(half) == Finite(4.5)
  {
    var four, five := [] + ['4'], [] + ['5'];
    assert half == four + ['.'] + five;
    FractionConvert(four, five);
    FourAndAHalf(four, five);
  }

  lemma FourAndAHalf(four: string, five: string)
    requires four == [] + ['4'] && five == [] + ['5']
    ensures FractionValue(four, five) == 4.5
  {
    DigitsValueSnoc([], '4', 10);
    DigitsValueSnoc([], '5', 10);
    assert Scale(5.0, -1) == Scale(0.5, 0);
  }

  /** `"1e1"` is ten. */
  lemma ExponentSample(ten: string)
    requires ten == "1e1"
    ensures StringToNumber(ten) == Finite(10.0)
  {
    var one := [] + ['1'];
    assert ten == one + ['e'] + one;
    ExponentConvert(one, one);
    assert Scale(DigitsValue(one, 10) as real, DigitsValue(one, 10)) == 10.0 by {
      DigitsValueSnoc([], '1', 10);
      assert Scale(1.0, 1) == Scale(10.0, 0);
    }
  }

  /** A `0x`, `0o` or `0b` integer converts to its value. */
  lemma NonDecimalConvert(t: string)
    requires NonDecimalInteger(t).Some?
    requires forall i :: 0 <= i < |t| ==> !IsSpace(t[i])
    ensures StringToNumber(t) == Finite(NonDecimalInteger(t).value as real)
  {
    TrimNoSpace(t);
  }

  /** `"0x1f"` is thirty-one. */
  lemma HexSample(hex: string)
    requires hex == "0x1f"
    ensures StringToNumber(hex) == Finite(31.0)
  {
    var digits := [] + ['1'] + ['f'];
    assert hex == ['0', 'x'] + digits;
    HexValue(hex, digits);
    assert forall i :: 0 <= i < |hex| ==> !IsSpace(hex[i]);
    NonDecimalConvert(hex);
  }

  lemma HexValue(hex: string, digits: string)
    requires digits == [] + ['1'] + ['f'] && hex == ['0', 'x'] + digits
    ensures NonDecimalInteger(hex) == Some(31)
  {
    assert hex[2..] == digits;
    DigitsValueSnoc([], '1', 16);
    DigitsValueSnoc([] + ['1'], 'f', 16);
  }

  /** A mantissa that reads as a value holds a decimal digit. */
  lemma MantissaHasDigit(m: string)
    requires MantissaValue(m).Some?
    ensures exists i :: 0 <= i < |m| && IsDecimalDigit(m[i])
  {
    var parts := Split(m, '.');
    JoinSplit(m, '.');
    if parts[0] != [] {
      if |parts| == 1 {
        assert m == parts[0];
      } else {
        assert m == parts[0] + ['.'] + Join(parts[1..], '.');
      }
      assert IsDecimalDigit(m[0]);
    } else {
      assert |parts| == 2 && parts[1] != [];
      assert m == [] + ['.'] + parts[1];
      assert IsDecimalDigit(m[1]);
    }
  }

  /** Without a digit or an `I`, no unsigned literal reads as a number. */
  lemma UnsignedNeedsDigit(b: string)
    requires forall i :: 0 <= i < |b| ==> !IsDecimalDigit(b[i]) && b[i] != 'I'
    ensures UnsignedDecimal(b) == NaN
  {
    assert b != "Infinity" by { if |b| > 0 { assert b[0] != 'I'; } }
    var m := b[..ExponentStart(b)];
    if MantissaValue(m).Some? {
      MantissaHasDigit(m);
    }
  }

  /** A string that is not blank and holds neither a decimal digit nor the
      letter `I` converts to NaN: every numeral has a digit or spells
      `Infinity`. */
  lemma NoDigitIsNaN(s: string)
    requires !AllSpace(s)
    requires forall i :: 0 <= i < |s| ==> !IsDecimalDigit(s[i]) && s[i] != 'I'
    ensures StringToNumber(s) == NaN
  {
    var t := Trim(s);
    assert forall i :: 0 <= i < |t| ==> !IsDecimalDigit(t[i]) && t[i] != 'I';
    assert t[0] != '0';
    UnsignedNeedsDigit(t);
    UnsignedNeedsDigit(t[1..]);
  }
}
