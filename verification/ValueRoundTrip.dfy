/** What can be read back from a printed number. */
module ValueRoundTrip {
  import opened Machine
  import opened MathLib
  import opened HexString
  import opened ValueToString

  // ---------------------------------------------------------------- numerals

  /** d is how v is written with digits below the base: no zero in front, but for zero itself. */
  ghost predicate IsNumeral(d: seq<int>, v: nat, base: nat) {
    && |d| >= 1 && (|d| > 1 ==> d[0] != 0) && (forall i :: 0 <= i < |d| ==> 0 <= d[i] < base)
    && NumeralValue(d, base) == v
  }

  lemma {:induction false} HexDigitsAreNumeral(v: nat)
    ensures IsNumeral(HexDigitsOf(v), v, 16)
  {
    var d := HexDigitsOf(v);
    if v < 16 {
      assert d[..0] == [];
    } else {
      HexDigitsAreNumeral(v / 16);
      assert d[..|d| - 1] == HexDigitsOf(v / 16);
      assert |d| == 2 ==> d[0] == v / 16;
    }
  }

  lemma {:induction false} DecimalDigitsAreNumeral(v: nat)
    ensures IsNumeral(DecimalDigitsOf(v), v, 10)
  {
    var d := DecimalDigitsOf(v);
    if v < 10 {
      assert d[..0] == [];
    } else {
      DecimalDigitsAreNumeral(v / 10);
      assert d[..|d| - 1] == DecimalDigitsOf(v / 10);
      assert |d| == 2 ==> d[0] == v / 10;
    }
  }

  // ---------------------------------------------------------------- hexadecimal values

  function Pow16(n: nat): (p: int)
    ensures p >= 1
  {
    if n == 0 then 1 else 16 * Pow16(n - 1)
  }

  lemma {:induction false} HexValueBound(d: seq<Nibble>)
    ensures 0 <= HexValue(d) < Pow16(|d|)
  {
    if d != [] {
      HexValueBound(d[..|d| - 1]);
    }
  }

  lemma SixteenTimes(h: int, p: int)
    ensures 16 * (h * p) == h * (16 * p)
  {
  }

  lemma {:induction false} HexValueOfConcatenation(a: seq<Nibble>, b: seq<Nibble>)
    ensures HexValue(a + b) == HexValue(a) * Pow16(|b|) + HexValue(b)
    decreases |b|
  {
    if b == [] {
      assert a + b == a;
    } else {
      var shorter, last := b[..|b| - 1], b[|b| - 1];
      assert (a + b)[..|a + b| - 1] == a + shorter && (a + b)[|a + b| - 1] == last;
      HexValueOfConcatenation(a, shorter);
      assert HexValue(a + b) == 16 * HexValue(a + shorter) + last;
      SixteenTimes(HexValue(a), Pow16(|shorter|));
    }
  }

  lemma HexDigitsValue(v: nat)
    ensures HexValue(HexDigitsOf(v)) == v
  {
    HexDigitsAreNumeral(v);
  }

  ghost function Zeros(n: nat): (d: seq<Nibble>)
    ensures |d| == n
  {
    seq(n, _ => 0)
  }

  lemma {:induction false} ZerosHaveNoValue(n: nat)
    ensures HexValue(Zeros(n)) == 0
  {
    if n > 0 {
      ZerosHaveNoValue(n - 1);
      assert Zeros(n)[..n - 1] == Zeros(n - 1);
    }
  }

  /** Cutting digits to the last w keeps the value modulo 16^w. */
  lemma LastDigitsValue(d: seq<Nibble>, w: nat)
    requires w <= |d|
    ensures HexValue(d[|d| - w..]) == HexValue(d) % Pow16(w)
  {
    var high, low := d[..|d| - w], d[|d| - w..];
    assert d == high + low;
    HexValueOfConcatenation(high, low);
    HexValueBound(low);
    QuotientIsUnique(HexValue(d), Pow16(w), HexValue(high), HexValue(low));
  }

  // ---------------------------------------------------------------- printed, then parsed

  /** The one case in which the text does not start with a digit. */
  ghost predicate BlankPadded(value: uint64, flags: UINTN, width: nat) {
    !HasFlag(flags, LEFT_JUSTIFY) && !HasFlag(flags, PREFIX_ZERO) && |HexDigitsOf(value)| < Clamped(width)
  }

  /** The digits that are printed when there is no blank padding. */
  ghost function PrintedDigits(value: uint64, flags: UINTN, width: nat): seq<Nibble> {
    var d, w := HexDigitsOf(value), Clamped(width);
    if 0 < w < |d| then d[|d| - w..]
    else if HasFlag(flags, LEFT_JUSTIFY) || w <= |d| then d
    else Zeros(w - |d|) + d
  }

  lemma PrintedText(value: uint64, flags: UINTN, width: nat)
    requires !BlankPadded(value, flags, width)
    ensures HexStr(value, flags, width) == Chars(PrintedDigits(value, flags, width))
  {
    var d, w := HexDigitsOf(value), Clamped(width);
    if !HasFlag(flags, LEFT_JUSTIFY) && |d| < w {
      var n := w - |d|;
      assert NibbleToHexChar(0) == CHAR_0;
      assert Chars(Zeros(n) + d) == Repeated(CHAR_0, n) + Chars(d);
    }
  }

  /** A width that fits the digits loses nothing: the number is below the modulus, and leading zeros
      do not change it. */
  lemma EnoughWidthLosesNothing(value: uint64, w: nat)
    requires |HexDigitsOf(value)| <= w
    ensures value % Pow16(w) == value
    ensures HexValue(Zeros(w - |HexDigitsOf(value)|) + HexDigitsOf(value)) == value
  {
    HexDigitsValue(value);
    var n := w - |HexDigitsOf(value)|;
    ZerosHaveNoValue(n);
    HexValueOfConcatenation(Zeros(n), HexDigitsOf(value));
    HexValueBound(Zeros(n) + HexDigitsOf(value));
    QuotientIsUnique(value, Pow16(w), 0, value);
  }

  lemma PrintedValue(value: uint64, flags: UINTN, width: nat)
    ensures
      var w := Clamped(width);
      HexValue(PrintedDigits(value, flags, width)) == if w == 0 then value else value % Pow16(w)
  {
    var n, w := |HexDigitsOf(value)|, Clamped(width);
    HexDigitsValue(value);
    if 0 < w < n {
      LastDigitsValue(HexDigitsOf(value), w);
    } else if w > 0 {
      EnoughWidthLosesNothing(value, w);
    }
  }

  /** Printing a value and converting the text back gives a buffer with the value modulo 16^w, where w
      is the width cut to 29; a width of zero or one that fits the digits loses nothing. */
  lemma HexRoundTrip(value: uint64, flags: UINTN, width: nat, m: seq<CHAR16>, r: seq<CHAR16>)
    requires !BlankPadded(value, flags, width)
    requires |HexStr(value, flags, width)| < |m| && r == TextAtStart(m, HexStr(value, flags, width))
    ensures
      var n, w := |HexStr(value, flags, width)|, Clamped(width);
      && IsRun(r, 0, n)
      && LittleEndianValue(Bytes(Digits(r[0..0 + n]))) == if w == 0 then value else value % Pow16(w)
  {
    var t, d := HexStr(value, flags, width), PrintedDigits(value, flags, width);
    PrintedText(value, flags, width);
    DigitsOfChars(d);
    assert r[0..0 + |t|] == t && r[0 + |t|] == 0;
    BytesKeepValue(d);
    PrintedValue(value, flags, width);
  }

  /** Blank padding makes the conversion stop before the first digit. */
  lemma BlankPaddingHidesTheValue(value: uint64, flags: UINTN, width: nat, m: seq<CHAR16>, r: seq<CHAR16>)
    requires BlankPadded(value, flags, width)
    requires |HexStr(value, flags, width)| < |m| && r == TextAtStart(m, HexStr(value, flags, width))
    ensures IsRun(r, 0, 0)
  {
    assert HexStr(value, flags, width)[0] == BLANK;
    assert r[0] == BLANK && r[0..0 + 0] == [];
  }

  // ---------------------------------------------------------------- decimal values

  ghost function DecimalValue(d: seq<int>): int {
    NumeralValue(d, 10)
  }

  predicate IsDecimalDigit(c: int) {
    CHAR_0 <= c <= CHAR_9
  }

  /** The decimal digits of a text, everything else skipped. */
  ghost function DigitsIn(t: seq<int>): seq<int> {
    if t == [] then []
    else if IsDecimalDigit(t[0]) then [t[0] - CHAR_0] + DigitsIn(t[1..])
    else DigitsIn(t[1..])
  }

  /** The number a reader takes a text for: padding and commas skipped, a minus sign respected. */
  ghost function ReadDecimal(t: seq<int>): int {
    if MINUS in t then -DecimalValue(DigitsIn(t)) else DecimalValue(DigitsIn(t))
  }

  ghost predicate AreDecimal(d: seq<int>) {
    forall i :: 0 <= i < |d| ==> 0 <= d[i] < 10
  }

  lemma DecimalDigitsValue(v: nat)
    ensures DecimalValue(DecimalDigitsOf(v)) == v && AreDecimal(DecimalDigitsOf(v))
  {
    DecimalDigitsAreNumeral(v);
  }

  lemma DigitsBehind(c: int, t: seq<int>)
    ensures DigitsIn([c] + t) == (if IsDecimalDigit(c) then [c - CHAR_0] else []) + DigitsIn(t)
    ensures MINUS in [c] + t <==> c == MINUS || MINUS in t
  {
    assert ([c] + t)[0] == c && ([c] + t)[1..] == t;
  }

  lemma DigitAndComma(x: int, comma: seq<int>, t: seq<int>)
    requires 0 <= x < 10 && (comma == [] || comma == [COMMA])
    ensures DigitsIn([CHAR_0 + x] + (comma + t)) == [x] + DigitsIn(t)
    ensures MINUS in [CHAR_0 + x] + (comma + t) <==> MINUS in t
  {
    DigitsBehind(CHAR_0 + x, comma + t);
    if comma == [] {
      assert comma + t == t;
    } else {
      DigitsBehind(COMMA, t);
      assert [] + DigitsIn(t) == DigitsIn(t);
    }
  }

  lemma {:induction false} DigitsOfDecimalText(d: seq<int>, commas: bool)
    requires AreDecimal(d)
    ensures DigitsIn(DecimalText(d, commas)) == d && MINUS !in DecimalText(d, commas)
  {
    if d != [] {
      DigitsOfDecimalText(d[1..], commas);
      DigitAndComma(d[0], CommaBefore(|d| - 1, commas), DecimalText(d[1..], commas));
      assert [d[0]] + d[1..] == d;
    }
  }

  lemma {:induction false} DigitsAfterBlanks(n: nat, t: seq<int>)
    ensures DigitsIn(Repeated(BLANK, n) + t) == DigitsIn(t)
  {
    var padded := Repeated(BLANK, n) + t;
    if n == 0 {
      assert padded == t;
    } else {
      DigitsAfterBlanks(n - 1, t);
      assert padded[1..] == Repeated(BLANK, n - 1) + t;
    }
  }

  lemma {:induction false} ValueAfterZero(d: seq<int>)
    ensures DecimalValue([0] + d) == DecimalValue(d)
  {
    if d == [] {
      assert ([0] + d)[..0] == [];
    } else {
      ValueAfterZero(d[..|d| - 1]);
      assert ([0] + d)[..|d|] == [0] + d[..|d| - 1];
    }
  }

  lemma {:induction false} ValueAfterZeros(n: nat, t: seq<int>)
    ensures DecimalValue(DigitsIn(Repeated(CHAR_0, n) + t)) == DecimalValue(DigitsIn(t))
  {
    var padded := Repeated(CHAR_0, n) + t;
    if n == 0 {
      assert padded == t;
    } else {
      ValueAfterZeros(n - 1, t);
      assert padded[1..] == Repeated(CHAR_0, n - 1) + t;
      ValueAfterZero(DigitsIn(padded[1..]));
    }
  }

  lemma ReadSigned(sign: seq<int>, t: seq<int>, d: seq<int>)
    requires (sign == [] || sign == [MINUS]) && DigitsIn(t) == d && MINUS !in t
    ensures ReadDecimal(sign + t) == if sign == [] then DecimalValue(d) else -DecimalValue(d)
  {
    if sign == [] {
      assert sign + t == t;
    } else {
      assert (sign + t)[0] == MINUS && (sign + t)[1..] == t;
    }
  }

  /** A text that is not cut reads as what was there before padding. */
  lemma ReadFitted(core: seq<int>, prefix: int, left: bool, w: nat)
    requires prefix == BLANK || prefix == CHAR_0
    requires w == 0 || |core| <= w
    ensures ReadDecimal(Fitted(core, prefix, left, w)) == ReadDecimal(core)
  {
    if !left && |core| < w {
      DigitsAfterBlanks(w - |core|, core);
      ValueAfterZeros(w - |core|, core);
      assert MINUS in Repeated(prefix, w - |core|) + core <==> MINUS in core;
    }
  }

  lemma SignedTextValue(value: int64, commas: bool)
    ensures
      var v := Magnitude(value) % TWO_TO_32;
      ReadDecimal(SignedText(value, commas)) == if value < 0 then -v else v
  {
    var d := DecimalDigitsOf(Magnitude(value) % TWO_TO_32);
    DecimalDigitsValue(Magnitude(value) % TWO_TO_32);
    DigitsOfDecimalText(d, commas);
    ReadSigned(if value < 0 then [MINUS] else [], DecimalText(d, commas), d);
  }

  /** A text that is not cut reads as the value with its absolute value taken modulo 2^32, and so as
      the value itself exactly when that lies strictly between -2^32 and 2^32. */
  lemma DecimalRoundTrip(value: int64, flags: UINTN, width: nat)
    requires Clamped(width) == 0 || |SignedText(value, HasFlag(flags, COMMA_TYPE))| <= Clamped(width)
    ensures
      var read := ReadDecimal(DecimalStr(value, flags, width));
      && read == (if value < 0 then -(-(value as int) % 0x1_0000_0000) else value % 0x1_0000_0000)
      && (read == value <==> -0x1_0000_0000 < value < 0x1_0000_0000)
  {
    ReadFitted(SignedText(value, HasFlag(flags, COMMA_TYPE)),
               if HasFlag(flags, PREFIX_ZERO) && value >= 0 then CHAR_0 else BLANK,
               HasFlag(flags, LEFT_JUSTIFY), Clamped(width));
    SignedTextValue(value, HasFlag(flags, COMMA_TYPE));
    assert Magnitude(value) == if value < 0 then -(value as int) else value;
  }

  lemma NoOtherSign(value: int64, commas: bool)
    ensures MINUS !in DecimalText(DecimalDigitsOf(Magnitude(value) % TWO_TO_32), commas)
  {
    DecimalDigitsValue(Magnitude(value) % TWO_TO_32);
    DigitsOfDecimalText(DecimalDigitsOf(Magnitude(value) % TWO_TO_32), commas);
  }

  /** t is the last w characters of a text, and has no sign. */
  ghost predicate IsEndWithoutSign(t: seq<int>, text: seq<int>, w: nat) {
    w <= |text| && t == text[|text| - w..] && MINUS !in t
  }

  lemma FittedCuts(sign: seq<int>, t: seq<int>, prefix: int, left: bool, w: nat)
    requires |sign| <= 1 && MINUS !in t && 0 < w < |sign + t|
    ensures IsEndWithoutSign(Fitted(sign + t, prefix, left, w), sign + t, w)
  {
    assert (sign + t)[|sign + t| - w..] == t[|t| - w..];
  }

  /** A text that is cut keeps the last characters, so the sign is the first thing to go. */
  lemma CutKeepsTheEnd(value: int64, flags: UINTN, width: nat)
    requires 0 < Clamped(width) < |SignedText(value, HasFlag(flags, COMMA_TYPE))|
    ensures IsEndWithoutSign(DecimalStr(value, flags, width), SignedText(value, HasFlag(flags, COMMA_TYPE)),
                             Clamped(width))
  {
    var commas := HasFlag(flags, COMMA_TYPE);
    NoOtherSign(value, commas);
    FittedCuts(if value < 0 then [MINUS] else [], DecimalText(DecimalDigitsOf(Magnitude(value) % TWO_TO_32), commas),
               if HasFlag(flags, PREFIX_ZERO) && value >= 0 then CHAR_0 else BLANK, HasFlag(flags, LEFT_JUSTIFY),
               Clamped(width));
  }

  ghost predicate CommasAtFourths(t: seq<int>) {
    forall i :: 0 <= i < |t| ==> (t[i] == COMMA <==> (|t| - 1 - i) % 4 == 3)
  }

  lemma InFrontOf(c: int, t: seq<int>, a: nat, b: nat)
    requires CommasAtFourths(t) && |t| == 4 * a + b && b <= 3 && (c == COMMA <==> b == 3)
    ensures CommasAtFourths([c] + t)
  {
    var longer := [c] + t;
    forall i | 0 <= i < |longer| ensures longer[i] == COMMA <==> (|longer| - 1 - i) % 4 == 3 {
      if i > 0 {
        assert longer[i] == t[i - 1] && |longer| - 1 - i == |t| - 1 - (i - 1);
      }
    }
  }

  /** With commas, the characters at positions 3, 7, 11, ... from the right are commas and no others. */
  lemma {:induction false} CommasEveryThreeDigits(d: seq<int>, a: nat, b: nat)
    requires AreDecimal(d) && |d| == 3 * a + b && 1 <= b <= 3
    ensures |DecimalText(d, true)| == 4 * a + b
    ensures CommasAtFourths(DecimalText(d, true))
    decreases |d|
  {
    var c, rest, comma := CHAR_0 + d[0], DecimalText(d[1..], true), CommaBefore(|d| - 1, true);
    assert DecimalText(d, true) == [c] + (comma + rest);
    ThreeDividesIsRemainder(|d| - 1);
    if |d| == 1 {
      assert DecimalText(d, true) == [c];
    } else if b > 1 {
      CommasEveryThreeDigits(d[1..], a, b - 1);
      assert DecimalText(d, true) == [c] + rest;
      InFrontOf(c, rest, a, b - 1);
    } else {
      CommasEveryThreeDigits(d[1..], a - 1, 3);
      assert DecimalText(d, true) == [c] + ([COMMA] + rest);
      InFrontOf(COMMA, rest, a - 1, 3);
      InFrontOf(c, [COMMA] + rest, a, 0);
    }
  }
}
