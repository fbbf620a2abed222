/** What a printed number looks like, character by character: padding, width, sign and commas, with the
    flag bits and the characters written as numbers. */
module ValueLayout {
  import opened Machine
  import opened MathLib
  import opened Strings
  import opened HexString
  import opened ValueToString
  import opened ValueRoundTrip

  // ---------------------------------------------------------------- numerals

  lemma {:induction false} NumeralIsPositive(d: seq<int>, base: nat)
    requires base >= 2 && |d| >= 1 && d[0] > 0 && forall i :: 0 <= i < |d| ==> 0 <= d[i] < base
    ensures NumeralValue(d, base) > 0
  {
    if |d| > 1 {
      NumeralIsPositive(d[..|d| - 1], base);
    } else {
      assert d[..0] == [];
    }
  }

  /** There is only one. */
  lemma {:induction false} NumeralIsUnique(c: seq<int>, d: seq<int>, v: nat, base: nat)
    requires base >= 2 && IsNumeral(c, v, base) && IsNumeral(d, v, base)
    ensures c == d
    decreases |c|
  {
    var c', d' := c[..|c| - 1], d[..|d| - 1];
    assert c == c' + [c[|c| - 1]] && d == d' + [d[|d| - 1]];
    QuotientIsUnique(v, base, NumeralValue(c', base), c[|c| - 1]);
    QuotientIsUnique(v, base, NumeralValue(d', base), d[|d| - 1]);
    if c' != [] && d' != [] {
      NumeralIsUnique(c', d', NumeralValue(c', base), base);
    } else if c' != [] {
      NumeralIsPositive(c', base);
    } else if d' != [] {
      NumeralIsPositive(d', base);
    }
  }

  // ---------------------------------------------------------------- width and padding

  /** t is the text laid out in w characters: the last w of a longer one, and a shorter one behind
      padding, or as it is when w is zero or it stands on the left. */
  ghost predicate LaidOut(t: seq<int>, text: seq<int>, pad: int, left: bool, w: nat) {
    if 0 < w < |text| then
      |t| == w && forall i :: 0 <= i < w ==> t[i] == text[|text| - w + i]
    else if left || w <= |text| then
      t == text
    else
      |t| == w && forall i :: 0 <= i < w ==> t[i] == if i < w - |text| then pad else text[i - (w - |text|)]
  }

  lemma FittedIsLaidOut(text: seq<int>, pad: int, left: bool, w: nat)
    ensures LaidOut(Fitted(text, pad, left, w), text, pad, left, w)
  {
  }

  // ---------------------------------------------------------------- hexadecimal

  ghost function HexCells(d: seq<Nibble>): (t: seq<int>)
    ensures |t| == |d|
  {
    seq(|d|, i requires 0 <= i < |d| => UPPER_DIGITS[d[i]])
  }

  lemma HexCellsArePrinted(d: seq<Nibble>)
    ensures UpperHex(d) == HexCells(d)
  {
    forall i | 0 <= i < |d| ensures UpperHex(d)[i] == HexCells(d)[i] {
      NibbleIsTableEntry(d[i]);
    }
  }

  /** Bit 0x01 puts the text on the left, bit 0x20 pads with zeros, and no text is wider than 29. */
  lemma HexLayout(value: uint64, flags: UINTN, width: nat, d: seq<Nibble>)
    requires IsNumeral(d, value, 16)
    ensures LaidOut(HexStr(value, flags, width), HexCells(d), if flags / 0x20 % 2 == 1 then 0x30 else 0x20,
                    flags % 2 == 1, if width > 29 then 29 else width)
  {
    HexDigitsAreNumeral(value);
    NumeralIsUnique(d, HexDigitsOf(value), value, 16);
    HexCellsArePrinted(d);
    FittedIsLaidOut(HexCells(d), if flags / 0x20 % 2 == 1 then 0x30 else 0x20, flags % 2 == 1,
                    if width > 29 then 29 else width);
    assert HasFlag(flags, LEFT_JUSTIFY) == (flags % 2 == 1);
  }

  // ---------------------------------------------------------------- decimal

  /** How many characters n digits take. */
  ghost function CellCount(n: nat, commas: bool): nat
    requires n >= 1
  {
    if commas then n + (n - 1) / 3 else n
  }

  /** The j-th character from the right: with commas, every fourth place holds one. */
  ghost function CellFromRight(d: seq<int>, commas: bool, j: nat): int
    requires |d| >= 1 && j < CellCount(|d|, commas)
  {
    if commas && j % 4 == 3 then 0x2C else 0x30 + d[|d| - 1 - (if commas then j - j / 4 else j)]
  }

  /** The characters of a numeral. */
  ghost function DecimalCells(d: seq<int>, commas: bool): (t: seq<int>)
    requires |d| >= 1
    ensures |t| == CellCount(|d|, commas)
  {
    var n := CellCount(|d|, commas);
    seq(n, i requires 0 <= i < n => CellFromRight(d, commas, n - 1 - i))
  }

  lemma CountInFront(n: nat, commas: bool)
    requires n > 1
    ensures CellCount(n, commas) == CellCount(n - 1, commas) + (if commas && (n - 1) % 3 == 0 then 2 else 1)
  {
  }

  /** One more digit in front leaves the characters behind it alone. */
  lemma CellBehind(d: seq<int>, commas: bool, j: nat)
    requires |d| > 1 && j < CellCount(|d| - 1, commas)
    ensures j < CellCount(|d|, commas) && CellFromRight(d, commas, j) == CellFromRight(d[1..], commas, j)
  {
    CountInFront(|d|, commas);
  }

  lemma CellsOfDigitAndComma(d: seq<int>, commas: bool)
    requires |d| > 1
    ensures CellFromRight(d, commas, CellCount(|d|, commas) - 1) == 0x30 + d[0]
    ensures commas && (|d| - 1) % 3 == 0 ==>
      CellCount(|d| - 1, commas) < CellCount(|d|, commas)
      && CellFromRight(d, commas, CellCount(|d| - 1, commas)) == 0x2C
  {
    CountInFront(|d|, commas);
  }

  lemma CellsInFront(d: seq<int>, commas: bool, comma: seq<int>)
    requires |d| > 1 && comma == (if commas && (|d| - 1) % 3 == 0 then [0x2C] else [])
    ensures DecimalCells(d, commas) == [0x30 + d[0]] + (comma + DecimalCells(d[1..], commas))
  {
    var n, k := CellCount(|d|, commas), CellCount(|d| - 1, commas);
    var t, u := DecimalCells(d, commas), [0x30 + d[0]] + (comma + DecimalCells(d[1..], commas));
    CountInFront(|d|, commas);
    CellsOfDigitAndComma(d, commas);
    forall i | 0 <= i < n ensures t[i] == u[i] {
      if i >= n - k {
        CellBehind(d, commas, n - 1 - i);
        assert u[i] == DecimalCells(d[1..], commas)[i - (n - k)];
      }
    }
  }

  lemma {:induction false} DecimalTextIsCells(d: seq<int>, commas: bool)
    requires |d| >= 1
    ensures DecimalText(d, commas) == DecimalCells(d, commas)
  {
    ThreeDividesIsRemainder(|d| - 1);
    if |d| > 1 {
      DecimalTextIsCells(d[1..], commas);
      CellsInFront(d, commas, CommaBefore(|d| - 1, commas));
    } else {
      assert CellFromRight(d, commas, 0) == 0x30 + d[0];
      assert DecimalCells(d, commas) == [0x30 + d[0]] && DecimalText(d[1..], commas) == [];
    }
  }

  /** Sign and digits of a number. */
  ghost function SignedCells(negative: bool, d: seq<int>, commas: bool): seq<int>
    requires |d| >= 1
  {
    (if negative then [0x2D] else []) + DecimalCells(d, commas)
  }

  lemma SignedTextIsCells(value: int64, commas: bool, d: seq<int>)
    requires d == DecimalDigitsOf((if value < 0 then -(value as int) else value) % 0x1_0000_0000)
    ensures SignedText(value, commas) == SignedCells(value < 0, d, commas)
  {
    DecimalTextIsCells(d, commas);
  }

  lemma DecimalStrIsFitted(value: int64, flags: UINTN, width: nat)
    ensures DecimalStr(value, flags, width)
         == Fitted(SignedText(value, flags / 0x08 % 2 == 1),
                   if flags / 0x20 % 2 == 1 && value >= 0 then 0x30 else 0x20, flags % 2 == 1,
                   if width > 29 then 29 else width)
  {
    assert HasFlag(flags, LEFT_JUSTIFY) == (flags % 2 == 1);
  }

  /** Only the low 32 bits of the absolute value are printed. Bit 0x08 asks for commas, and a negative
      number is never padded with zeros. */
  lemma DecimalLayout(value: int64, flags: UINTN, width: nat, d: seq<int>)
    requires IsNumeral(d, (if value < 0 then -(value as int) else value) % 0x1_0000_0000, 10)
    ensures LaidOut(DecimalStr(value, flags, width), SignedCells(value < 0, d, flags / 0x08 % 2 == 1),
                    if flags / 0x20 % 2 == 1 && value >= 0 then 0x30 else 0x20, flags % 2 == 1,
                    if width > 29 then 29 else width)
  {
    var shown := (if value < 0 then -(value as int) else value) % 0x1_0000_0000;
    DecimalDigitsAreNumeral(shown);
    NumeralIsUnique(d, DecimalDigitsOf(shown), shown, 10);
    SignedTextIsCells(value, flags / 0x08 % 2 == 1, d);
    DecimalStrIsFitted(value, flags, width);
    FittedIsLaidOut(SignedText(value, flags / 0x08 % 2 == 1),
                    if flags / 0x20 % 2 == 1 && value >= 0 then 0x30 else 0x20,
                    flags % 2 == 1, if width > 29 then 29 else width);
  }

  lemma CellsArePlain(d: seq<int>, commas: bool)
    requires |d| >= 1 && forall i :: 0 <= i < |d| ==> 0 <= d[i] < 10
    ensures 0 !in DecimalCells(d, commas) && 0x2D !in DecimalCells(d, commas)
    ensures !commas ==> 0x2C !in DecimalCells(d, commas)
  {
    var n, t := CellCount(|d|, commas), DecimalCells(d, commas);
    forall i | 0 <= i < n ensures (commas && t[i] == 0x2C) || 0x30 <= t[i] < 0x3A {
      assert t[i] == CellFromRight(d, commas, n - 1 - i);
    }
  }

  lemma NothingNewLaidOut(t: seq<int>, text: seq<int>, pad: int, left: bool, w: nat, c: int)
    requires LaidOut(t, text, pad, left, w) && c !in text && c != pad
    ensures c !in t
  {
  }

  lemma OnlyPaddingInFront(t: seq<int>, negative: bool, cells: seq<int>, pad: int, left: bool, w: nat, i: nat, j: nat)
    requires LaidOut(t, (if negative then [0x2D] else []) + cells, pad, left, w)
    requires 0x2D !in cells && pad != 0x2D && i < j < |t| && t[j] == 0x2D
    ensures negative && t[i] == pad
  {
  }

  /** Without bit 0x08 there are no commas, and only blanks stand in front of a minus sign. */
  lemma NoCommasAndOnlyBlanksInFront(value: int64, flags: UINTN, width: nat)
    ensures
      var t := DecimalStr(value, flags, width);
      && (flags / 0x08 % 2 == 0 ==> 0x2C !in t)
      && forall i, j :: 0 <= i < j < |t| && t[j] == 0x2D ==> t[i] == 0x20
  {
    var d := DecimalDigitsOf((if value < 0 then -(value as int) else value) % 0x1_0000_0000);
    var t, commas, left := DecimalStr(value, flags, width), flags / 0x08 % 2 == 1, flags % 2 == 1;
    var pad, w := if flags / 0x20 % 2 == 1 && value >= 0 then 0x30 else 0x20, if width > 29 then 29 else width;
    DecimalDigitsAreNumeral((if value < 0 then -(value as int) else value) % 0x1_0000_0000);
    DecimalLayout(value, flags, width, d);
    CellsArePlain(d, commas);
    if !commas {
      NothingNewLaidOut(t, SignedCells(value < 0, d, commas), pad, left, w, 0x2C);
    }
    forall i, j | 0 <= i < j < |t| && t[j] == 0x2D ensures t[i] == 0x20 {
      OnlyPaddingInFront(t, value < 0, DecimalCells(d, commas), pad, left, w, i, j);
    }
  }

  // ---------------------------------------------------------------- the buffer

  lemma TextAtStartIsString(m: seq<int>, t: seq<int>)
    requires 0 !in t && |t| < |m|
    ensures Terminated(TextAtStart(m, t), 0) && Text(TextAtStart(m, t), 0) == t
  {
    TextIs(TextAtStart(m, t), 0, t);
  }

  /** What either routine leaves in the buffer is a string, and that string is the printed text. */
  lemma BufferHoldsHexText(m: seq<int>, value: uint64, flags: UINTN, width: nat)
    requires |HexStr(value, flags, width)| < |m|
    ensures
      var r := TextAtStart(m, HexStr(value, flags, width));
      Terminated(r, 0) && Text(r, 0) == HexStr(value, flags, width)
  {
    var d := HexDigitsOf(value);
    HexDigitsAreNumeral(value);
    HexLayout(value, flags, width, d);
    NothingNewLaidOut(HexStr(value, flags, width), HexCells(d), if flags / 0x20 % 2 == 1 then 0x30 else 0x20,
                      flags % 2 == 1, if width > 29 then 29 else width, 0);
    TextAtStartIsString(m, HexStr(value, flags, width));
  }

  lemma BufferHoldsDecimalText(m: seq<int>, value: int64, flags: UINTN, width: nat)
    requires |DecimalStr(value, flags, width)| < |m|
    ensures
      var r := TextAtStart(m, DecimalStr(value, flags, width));
      Terminated(r, 0) && Text(r, 0) == DecimalStr(value, flags, width)
  {
    var shown, commas := (if value < 0 then -(value as int) else value) % 0x1_0000_0000, flags / 0x08 % 2 == 1;
    var d := DecimalDigitsOf(shown);
    DecimalDigitsAreNumeral(shown);
    DecimalLayout(value, flags, width, d);
    CellsArePlain(d, commas);
    NothingNewLaidOut(DecimalStr(value, flags, width), SignedCells(value < 0, d, commas),
                      if flags / 0x20 % 2 == 1 && value >= 0 then 0x30 else 0x20, flags % 2 == 1,
                      if width > 29 then 29 else width, 0);
    TextAtStartIsString(m, DecimalStr(value, flags, width));
  }
}
