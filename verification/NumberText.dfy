/**
  Numbers as text: unsigned integers as they are written and read, and the throughputs of
  the health reports, written to four decimals and read in every spelling of a float.
*/
module NumberText {
  import opened ByteStrings

  const MAX_U64: nat := 0xFFFF_FFFF_FFFF_FFFF

  type U64 = n: nat | n <= MAX_U64

  // ---------------------------------------------------------------- integers

  function Digit(d: nat): char
    requires d < 10
  {
    '0' + d as char
  }

  predicate IsDigit(c: char) {
    '0' <= c <= '9'
  }

  predicate AllDigits(text: string) {
    forall i :: 0 <= i < |text| ==> IsDigit(text[i])
  }

  function Format(n: nat): (text: string)
    ensures text != [] && AllDigits(text)
  {
    if n < 10 then [Digit(n)] else Format(n / 10) + [Digit(n % 10)]
  }

  function DigitsValue(text: string): nat
    requires AllDigits(text)
  {
    if text == [] then 0 else DigitsValue(text[..|text| - 1]) * 10 + (text[|text| - 1] as nat - '0' as nat)
  }

  /** An optional plus sign and at least one digit, in range. */
  function ParseU64(text: string): Option<U64> {
    var digits := if text != [] && text[0] == '+' then text[1..] else text;
    if digits != [] && AllDigits(digits) && DigitsValue(digits) <= MAX_U64 then Some(DigitsValue(digits)) else None
  }

  lemma {:induction false} FormatValue(n: nat)
    ensures DigitsValue(Format(n)) == n
  {
    if n >= 10 {
      FormatValue(n / 10);
      assert Format(n)[..|Format(n)| - 1] == Format(n / 10);
    }
  }

  lemma U64RoundTrip(n: U64)
    ensures ParseU64(Format(n)) == Some(n)
  {
    FormatValue(n);
    assert IsDigit(Format(n)[0]);
  }

  /** Numbers beyond 64 bits are refused, and so is anything but digits after an optional plus sign. */
  lemma OtherTextIsNoU64(n: nat, text: string, i: nat)
    ensures n > MAX_U64 ==> ParseU64(Format(n)) == None
    ensures i < |text| && !IsDigit(text[i]) && !(i == 0 && text[0] == '+') ==> ParseU64(text) == None
    ensures ParseU64("") == None && ParseU64("+") == None
  {
    FormatValue(n);
    assert IsDigit(Format(n)[0]);
    hide Format, DigitsValue;
    if i < |text| && !IsDigit(text[i]) && !(i == 0 && text[0] == '+') {
      if text[0] == '+' {
        assert text[1..][i - 1] == text[i];
      }
    }
  }

  function Padded(n: nat, width: nat): (text: string)
    ensures |text| == width && AllDigits(text)
  {
    if width == 0 then [] else Padded(n / 10, width - 1) + [Digit(n % 10)]
  }

  function Pow10(width: nat): (p: nat)
    ensures p > 0
  {
    if width == 0 then 1 else 10 * Pow10(width - 1)
  }

  lemma {:induction false} PaddedValue(n: nat, width: nat)
    requires n < Pow10(width)
    ensures DigitsValue(Padded(n, width)) == n
  {
    if width != 0 {
      PaddedValue(n / 10, width - 1);
      assert Padded(n, width)[..width - 1] == Padded(n / 10, width - 1);
    }
  }

  lemma NotADigit(text: string, c: char)
    requires AllDigits(text) && !IsDigit(c)
    ensures c !in text
  {
  }

  /** Where a character first occurs, or the length. */
  function IndexOf(text: string, c: char): (i: nat)
    ensures i <= |text| && c !in text[..i] && (i < |text| ==> text[i] == c)
  {
    if text == [] || text[0] == c then 0 else
    var rest := IndexOf(text[1..], c);
    assert text[..rest + 1] == [text[0]] + text[1..][..rest];
    rest + 1
  }

  lemma FirstIsUnique(text: string, c: char, i: nat, j: nat)
    requires i <= j <= |text| && c !in text[..j]
    requires i < |text| ==> text[i] == c
    ensures i == j
  {
    assert forall k :: 0 <= k < j ==> text[k] == text[..j][k];
  }

  lemma FirstAfter(front: string, c: char, rest: string)
    requires c !in front
    ensures var text := front + [c] + rest;
      IndexOf(text, c) == |front| && text[..|front|] == front && text[|front| + 1..] == rest
  {
    var text := front + [c] + rest;
    assert text[..|front|] == front;
    if IndexOf(text, c) <= |front| {
      FirstIsUnique(text, c, IndexOf(text, c), |front|);
    } else {
      FirstIsUnique(text, c, |front|, IndexOf(text, c));
    }
  }

  lemma AbsentIndex(text: string, c: char)
    requires c !in text
    ensures IndexOf(text, c) == |text|
  {
    assert text[..|text|] == text;
    FirstIsUnique(text, c, IndexOf(text, c), |text|);
  }

  // ---------------------------------------------------------------- throughput

  /** A floating-point value as a real number; binary rounding and the sign of zero are not modelled. */
  datatype Float = Number(value: real) | Infinity(negative: bool) | NotANumber

  function Lower(text: string): (lower: string)
    ensures |lower| == |text|
  {
    seq(|text|, (i: nat) requires i < |text| =>
      if 'A' <= text[i] <= 'Z' then (text[i] as int - 'A' as int + 'a' as int) as char else text[i])
  }

  predicate Signed(text: string) {
    text != [] && (text[0] == '+' || text[0] == '-')
  }

  function Unsigned(text: string): string {
    if Signed(text) then text[1..] else text
  }

  predicate Negative(text: string) {
    text != [] && text[0] == '-'
  }

  function Power(e: int): real {
    if e >= 0 then Pow10(e) as real else 1.0 / Pow10(-e) as real
  }

  function TimesPower(m: real, e: int): real {
    m * Power(e)
  }

  /** An optional sign and at least one digit. */
  function ParseExponent(text: string): Option<int> {
    var digits := Unsigned(text);
    if digits == [] || !AllDigits(digits) then None else
    var n: int := DigitsValue(digits);
    Some(if Negative(text) then -n else n)
  }

  /** Digits with at most one point among or beside them, and at least one digit. */
  function ParseMantissa(text: string): Option<real> {
    var dot := IndexOf(text, '.');
    var whole, fraction := text[..dot], if dot == |text| then [] else text[dot + 1..];
    if !AllDigits(whole) || !AllDigits(fraction) || (whole == [] && fraction == []) then None
    else Some(DigitsValue(whole) as real + DigitsValue(fraction) as real * Power(-|fraction|))
  }

  /** A mantissa, and perhaps an exponent. */
  function ParseUnsigned(text: string): Option<real> {
    var e := IndexOf(Lower(text), 'e');
    match ParseMantissa(text[..e])
    case None => None
    case Some(m) =>
      if e == |text| then Some(m) else
      match ParseExponent(text[e + 1..])
      case None => None
      case Some(n) => Some(TimesPower(m, n))
  }

  /** Every spelling of a float the standard library reads: words in any case, or a decimal number. */
  function ParseFloat(text: string): Option<Float> {
    var word := Lower(Unsigned(text));
    if word == "inf" || word == "infinity" then Some(Infinity(Negative(text)))
    else if word == "nan" then Some(NotANumber)
    else
      match ParseUnsigned(Unsigned(text))
      case None => None
      case Some(v) => Some(Number(if Negative(text) then -v else v))
  }

  const DECIMALS := 4
  const SCALE := 10000

  predicate IsWhole(v: real) {
    v.Floor as real == v
  }

  /** The nearest number of ten-thousandths, the even one of two as near. */
  function TenThousandths(v: real): (n: nat)
    requires v >= 0.0
    ensures -0.5 <= n as real - v * SCALE as real <= 0.5
    ensures IsWhole(v * SCALE as real) ==> n as real == v * SCALE as real
  {
    var scaled := v * SCALE as real;
    var below: int := scaled.Floor;
    var over := scaled - below as real;
    if over > 0.5 || (over == 0.5 && below % 2 == 1) then below + 1 else below
  }

  /** A fixed-point number with four decimals. */
  function FormatFixed(n: nat): string {
    Format(n / SCALE) + "." + Padded(n % SCALE, DECIMALS)
  }

  /** Four decimals, as the report is written. */
  function FormatFloat(x: Float): string {
    match x
    case NotANumber => "NaN"
    case Infinity(negative) => if negative then "-inf" else "inf"
    case Number(v) => if v < 0.0 then "-" + FormatFixed(TenThousandths(-v)) else FormatFixed(TenThousandths(v))
  }

  /** What is left of a throughput in the report. */
  function Rounded(x: Float): Float {
    match x
    case Number(v) =>
      if v < 0.0 then Number(-(TenThousandths(-v) as real / SCALE as real))
      else Number(TenThousandths(v) as real / SCALE as real)
    case _ => x
  }

  /** A whole number of ten-thousandths, or not a finite number at all. */
  predicate FourDecimals(x: Float) {
    x.Number? ==> IsWhole(x.value * SCALE as real)
  }

  lemma WholeFromInt(v: real, k: int)
    requires v == k as real
    ensures IsWhole(v)
  {
  }

  lemma WholeNegated(v: real)
    requires IsWhole(v)
    ensures IsWhole(-v)
  {
    var k := v.Floor;
    assert v == k as real;
    assert -v == (-k) as real;
    hide IsWhole;
    WholeFromInt(-v, -k);
  }

  lemma WholeEitherWay(v: real)
    ensures IsWhole(v) <==> IsWhole(-v)
  {
    hide IsWhole;
    if IsWhole(v) {
      WholeNegated(v);
    }
    if IsWhole(-v) {
      WholeNegated(-v);
    }
  }

  lemma RoundsToItselfIff(v: real)
    requires v >= 0.0
    ensures TenThousandths(v) as real / SCALE as real == v <==> IsWhole(v * SCALE as real)
  {
    var n, scaled := TenThousandths(v), v * SCALE as real;
    hide TenThousandths, IsWhole;
    if n as real == scaled {
      WholeFromInt(scaled, n);
    }
  }

  lemma RoundedIff(x: Float)
    ensures Rounded(x) == x <==> FourDecimals(x)
  {
    hide TenThousandths, IsWhole;
    if x.Number? {
      var v := x.value;
      if v < 0.0 {
        RoundsToItselfIff(-v);
        assert (-v) * SCALE as real == -(v * SCALE as real);
        WholeEitherWay(v * SCALE as real);
      } else {
        RoundsToItselfIff(v);
      }
    }
  }

  lemma FixedShape(n: nat)
    ensures var text, whole, fraction := FormatFixed(n), Format(n / SCALE), Padded(n % SCALE, DECIMALS);
      && IndexOf(text, '.') == |whole| < |text| && text[..|whole|] == whole && text[|whole| + 1..] == fraction
  {
    var whole, fraction := Format(n / SCALE), Padded(n % SCALE, DECIMALS);
    NotADigit(whole, '.');
    FirstAfter(whole, '.', fraction);
  }

  lemma ScaleIsPower()
    ensures Pow10(DECIMALS) == SCALE && Power(-DECIMALS) == 1.0 / SCALE as real
  {
    assert Pow10(1) == 10 && Pow10(2) == 100 && Pow10(3) == 1000;
  }

  lemma MantissaReadsBack(n: nat)
    ensures ParseMantissa(FormatFixed(n)) == Some(n as real / SCALE as real)
  {
    var whole, fraction := Format(n / SCALE), Padded(n % SCALE, DECIMALS);
    FixedShape(n);
    FormatValue(n / SCALE);
    ScaleIsPower();
    PaddedValue(n % SCALE, DECIMALS);
    hide Format, Padded, DigitsValue, Pow10, Power, FormatFixed;
    assert n == n / SCALE * SCALE + n % SCALE;
  }

  lemma FixedHasOnly(n: nat, c: char)
    requires !IsDigit(c) && c != '.'
    ensures c !in FormatFixed(n)
  {
    NotADigit(Format(n / SCALE), c);
    NotADigit(Padded(n % SCALE, DECIMALS), c);
  }

  lemma LowerKeeps(text: string)
    requires forall i :: 0 <= i < |text| ==> !('A' <= text[i] <= 'Z')
    ensures Lower(text) == text
  {
  }

  lemma FixedIsLower(n: nat)
    ensures Lower(FormatFixed(n)) == FormatFixed(n)
    ensures FormatFixed(n) != [] && IsDigit(FormatFixed(n)[0])
  {
    var text := FormatFixed(n);
    forall i | 0 <= i < |text|
      ensures !('A' <= text[i] <= 'Z')
    {
      if 'A' <= text[i] <= 'Z' {
        FixedHasOnly(n, text[i]);
      }
    }
    LowerKeeps(text);
    assert text[0] == Format(n / SCALE)[0];
  }

  lemma UnsignedReadsBack(n: nat)
    ensures ParseUnsigned(FormatFixed(n)) == Some(n as real / SCALE as real)
  {
    hide ParseMantissa, FormatFixed, Lower;
    var text := FormatFixed(n);
    FixedIsLower(n);
    FixedHasOnly(n, 'e');
    AbsentIndex(text, 'e');
    assert text[..|text|] == text;
    MantissaReadsBack(n);
  }

  lemma NumberReadsBack(n: nat, negative: bool)
    ensures var v := n as real / SCALE as real;
      ParseFloat((if negative then "-" else "") + FormatFixed(n)) == Some(Number(if negative then -v else v))
  {
    hide ParseUnsigned, FormatFixed, Lower;
    var text := FormatFixed(n);
    FixedIsLower(n);
    UnsignedReadsBack(n);
    DigitsAreNoWord(text);
    assert ("-" + text)[1..] == text && "" + text == text;
  }

  lemma WordsReadBack()
    ensures ParseFloat("NaN") == Some(NotANumber)
    ensures ParseFloat("inf") == Some(Infinity(false)) && ParseFloat("-inf") == Some(Infinity(true))
  {
    hide ParseUnsigned;
    assert Lower("NaN") == "nan" && Lower("inf") == "inf" && "-inf"[1..] == "inf";
  }

  /** What is read back of a written throughput is its rounding to four decimals. */
  lemma FloatReadsBack(x: Float)
    ensures ParseFloat(FormatFloat(x)) == Some(Rounded(x))
  {
    hide ParseFloat, FormatFixed, TenThousandths;
    WordsReadBack();
    if x.Number? {
      var v := x.value;
      var n := TenThousandths(if v < 0.0 then -v else v);
      NumberReadsBack(n, v < 0.0);
      assert "" + FormatFixed(n) == FormatFixed(n);
    }
  }

  lemma DigitsAreNoWord(text: string)
    requires text != [] && IsDigit(text[0])
    ensures text != "inf" && text != "infinity" && text != "nan" && !Signed(text)
  {
  }

  lemma FloatIsPlain(x: Float, c: char)
    requires !IsDigit(c) && c != '.' && c != '-' && !('a' <= c <= 'z') && !('A' <= c <= 'Z')
    ensures c !in FormatFloat(x)
  {
    if x.Number? {
      FixedHasOnly(TenThousandths(if x.value < 0.0 then -x.value else x.value), c);
    }
  }

  // ---------------------------------------------------------------- other spellings

  function ExponentText(n: int): string {
    if n < 0 then "-" + Format(-n) else Format(n)
  }

  lemma ExponentReads(n: int)
    ensures ParseExponent(ExponentText(n)) == Some(n)
  {
    hide DigitsValue;
    if n < 0 {
      FormatValue(-n);
      assert ("-" + Format(-n))[1..] == Format(-n);
    } else {
      FormatValue(n);
      assert IsDigit(Format(n)[0]);
    }
    hide Format;
  }

  lemma LowerJoins(a: string, b: string)
    ensures Lower(a + b) == Lower(a) + Lower(b)
  {
  }

  /** An exponent, after an e of either case, scales what the mantissa spells by that power of ten. */
  lemma ExponentScales(mantissa: string, n: int, capital: bool)
    requires 'e' !in Lower(mantissa) && ParseMantissa(mantissa).Some?
    ensures ParseUnsigned(mantissa + (if capital then "E" else "e") + ExponentText(n)) ==
            Some(TimesPower(ParseMantissa(mantissa).value, n))
  {
    hide ParseMantissa, ParseExponent, ParseUnsigned, TimesPower, Lower, ExponentText;
    var e, rest := if capital then "E" else "e", ExponentText(n);
    var text := mantissa + e + rest;
    ExponentReads(n);
    LowerJoins(mantissa + e, rest);
    LowerJoins(mantissa, e);
    LowerOfE(capital);
    FirstAfter(Lower(mantissa), 'e', Lower(rest));
    assert Lower(text) == Lower(mantissa) + ['e'] + Lower(rest);
    assert IndexOf(Lower(text), 'e') == |mantissa| < |text|;
    assert text[..|mantissa|] == mantissa && text[|mantissa| + 1..] == rest;
    WithExponent(text, |mantissa|, n);
  }

  lemma WithExponent(text: string, i: nat, n: int)
    requires i < |text| && i == IndexOf(Lower(text), 'e')
    requires ParseMantissa(text[..i]).Some? && ParseExponent(text[i + 1..]) == Some(n)
    ensures ParseUnsigned(text) == Some(TimesPower(ParseMantissa(text[..i]).value, n))
  {
    hide ParseMantissa, ParseExponent, TimesPower;
  }

  lemma LowerOfE(capital: bool)
    ensures Lower(if capital then "E" else "e") == "e"
  {
    assert Lower("E") == "e" && Lower("e") == "e";
  }
}
