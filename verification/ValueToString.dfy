/** Printing a number into a character buffer: the text is built backwards in a temporary buffer,
    padded, cut to the width and reversed. */
module ValueToString {
  import opened Machine
  import opened MathLib
  import opened HexString

  const CHARACTER_NUMBER_FOR_VALUE := 30
  const LEFT_JUSTIFY := 0x01
  const COMMA_TYPE := 0x08
  const PREFIX_ZERO := 0x20

  const BLANK := 0x20
  const COMMA := 0x2C
  const MINUS := 0x2D

  predicate HasFlag(flags: UINTN, bit: nat)
    requires bit != 0
  {
    flags / bit % 2 == 1
  }

  function Clamped(width: nat): (w: nat)
    ensures w <= CHARACTER_NUMBER_FOR_VALUE - 1
  {
    if width > CHARACTER_NUMBER_FOR_VALUE - 1 then CHARACTER_NUMBER_FOR_VALUE - 1 else width
  }

  // ---------------------------------------------------------------- what the text is

  /** The digits of a number, most significant first, without leading zeros. */
  ghost function HexDigitsOf(v: nat): (d: seq<Nibble>)
    ensures |d| >= 1
  {
    if v < 16 then [v] else HexDigitsOf(v / 16) + [v % 16]
  }

  ghost function DecimalDigitsOf(v: nat): (d: seq<int>)
    ensures |d| >= 1
  {
    if v < 10 then [v] else DecimalDigitsOf(v / 10) + [v % 10]
  }

  ghost predicate ThreeDivides(n: nat) {
    n == 0 || (n >= 3 && ThreeDivides(n - 3))
  }

  ghost function CommaBefore(n: nat, commas: bool): seq<int> {
    if commas && n > 0 && ThreeDivides(n) then [COMMA] else []
  }

  /** Decimal digits as characters; with commas, one stands wherever a positive multiple of three
      digits follows. */
  ghost function DecimalText(d: seq<int>, commas: bool): (t: seq<int>)
    ensures |d| <= |t| <= 2 * |d|
  {
    if d == [] then [] else [CHAR_0 + d[0]] + (CommaBefore(|d| - 1, commas) + DecimalText(d[1..], commas))
  }

  lemma {:induction false} ThreeDividesIsRemainder(n: nat)
    ensures ThreeDivides(n) <==> n % 3 == 0
  {
    if n >= 3 {
      ThreeDividesIsRemainder(n - 3);
    }
  }

  ghost function Repeated(c: int, n: nat): (t: seq<int>)
    ensures |t| == n
  {
    seq(n, _ => c)
  }

  ghost function Padded(core: seq<int>, prefix: int, left: bool, width: nat): (t: seq<int>) {
    if left || |core| >= width then core else Repeated(prefix, width - |core|) + core
  }

  ghost function LastOf(t: seq<int>, width: nat): seq<int> {
    if width > 0 && |t| > width then t[|t| - width..] else t
  }

  /** A narrow width keeps the last characters; a wide one pads in front, unless left-justified. */
  ghost function Fitted(core: seq<int>, prefix: int, left: bool, width: nat): (t: seq<int>) {
    LastOf(Padded(core, prefix, left, width), width)
  }

  ghost function UpperHex(d: seq<Nibble>): (t: seq<int>)
    ensures |t| == |d| && t == Chars(d)
  {
    seq(|d|, i requires 0 <= i < |d| => NibbleToHexChar(d[i]))
  }

  ghost function HexStr(value: uint64, flags: UINTN, width: nat): seq<int> {
    Fitted(UpperHex(HexDigitsOf(value)), if HasFlag(flags, PREFIX_ZERO) then CHAR_0 else BLANK,
           HasFlag(flags, LEFT_JUSTIFY), Clamped(width))
  }

  function Magnitude(value: int64): uint64 {
    if value < 0 then -(value as int) else value as int
  }

  /** Sign and digits; only the low 32 bits of the magnitude are printed. */
  ghost function SignedText(value: int64, commas: bool): seq<int> {
    (if value < 0 then [MINUS] else []) + DecimalText(DecimalDigitsOf(Magnitude(value) % TWO_TO_32), commas)
  }

  /** Zeros never pad a negative number. */
  ghost function DecimalStr(value: int64, flags: UINTN, width: nat): seq<int> {
    Fitted(SignedText(value, HasFlag(flags, COMMA_TYPE)),
           if HasFlag(flags, PREFIX_ZERO) && value >= 0 then CHAR_0 else BLANK,
           HasFlag(flags, LEFT_JUSTIFY), Clamped(width))
  }

  // ---------------------------------------------------------------- the common ending

  ghost function Reversed(s: seq<int>): (r: seq<int>)
    ensures |r| == |s|
  {
    seq(|s|, i requires 0 <= i < |s| => s[|s| - 1 - i])
  }

  lemma ReversedInFront(c: int, s: seq<int>)
    ensures Reversed([c] + s) == Reversed(s) + [c]
  {
  }

  /** Appends one character to the temporary buffer, which puts it in front of the text. */
  method Push(tempBuffer: array<CHAR16>, count: nat, c: CHAR16, ghost text: seq<int>)
    requires count == |text| < tempBuffer.Length && tempBuffer[..count] == Reversed(text)
    modifies tempBuffer
    ensures tempBuffer[..count + 1] == Reversed([c] + text)
  {
    ReversedInFront(c, text);
    tempBuffer[count] := c;
  }

  lemma ReversedPrefix(s: seq<int>, n: nat)
    requires n <= |s|
    ensures Reversed(s)[..n] == Reversed(s[|s| - n..])
  {
  }

  /** The characters t and a terminator at the start of memory m. */
  ghost function TextAtStart(m: seq<int>, t: seq<int>): (r: seq<int>)
    requires |t| < |m|
    ensures |r| == |m|
  {
    t + [0] + m[|t| + 1..]
  }

  ghost function Poured(m: seq<int>, t: seq<int>, k: nat): (r: seq<int>)
    requires k <= |t| <= |m|
    ensures |r| == |m|
  {
    t[..k] + m[k..]
  }

  lemma PourOneMore(m: seq<int>, t: seq<int>, k: nat)
    requires k < |t| <= |m|
    ensures Poured(m, t, k)[k := t[k]] == Poured(m, t, k + 1)
  {
  }

  lemma TerminatePoured(m: seq<int>, t: seq<int>)
    requires |t| < |m|
    ensures Poured(m, t, |t|)[|t| := 0] == TextAtStart(m, t)
  {
  }

  /** Both routines end in these two loops: pad, then cut to the width and reverse into the buffer. */
  method PadTemp(tempBuffer: array<CHAR16>, count: nat, prefix: CHAR16, left: bool, width: nat, ghost core: seq<int>)
    returns (tempStr: nat)
    requires tempBuffer.Length == CHARACTER_NUMBER_FOR_VALUE > width
    requires |core| == count <= tempBuffer.Length && tempBuffer[..count] == Reversed(core)
    modifies tempBuffer
    ensures tempStr == |Padded(core, prefix, left, width)| <= tempBuffer.Length
    ensures tempBuffer[..tempStr] == Reversed(Padded(core, prefix, left, width))
  {
    ghost var text := core;
    tempStr := count;
    var index := count;
    if !left {
      while index < width
        invariant index == tempStr == |text| && count <= index && (index <= width || index == count)
        invariant text == Repeated(prefix, index - count) + core
        invariant tempBuffer[..index] == Reversed(text)
      {
        assert [prefix] + text == Repeated(prefix, index + 1 - count) + core;
        Push(tempBuffer, tempStr, prefix, text);
        text := [prefix] + text;
        tempStr, index := tempStr + 1, index + 1;
      }
    }
    assert text == Padded(core, prefix, left, width);
  }

  method CutAndReverse(Buffer: array<CHAR16>, tempBuffer: array<CHAR16>, count: nat, width: nat, ghost text: seq<int>)
    returns (index: nat)
    requires Buffer != tempBuffer && |LastOf(text, width)| < Buffer.Length
    requires count == |text| <= tempBuffer.Length && tempBuffer[..count] == Reversed(text)
    modifies Buffer
    ensures index == |LastOf(text, width)|
    ensures Buffer[..] == TextAtStart(old(Buffer[..]), LastOf(text, width))
  {
    ghost var m, temp, kept := Buffer[..], tempBuffer[..], LastOf(text, width);
    var tempStr := count;
    if width > 0 && tempStr > width {
      ReversedPrefix(text, width);
      assert temp[..width] == temp[..count][..width];
      tempStr := width;
    }
    assert |kept| == tempStr && temp[..|kept|] == Reversed(kept);
    index := 0;
    while tempStr != 0
      invariant 0 <= tempStr && index + tempStr == |kept| && tempBuffer[..] == temp
      invariant Buffer[..] == Poured(m, kept, index)
    {
      tempStr := tempStr - 1;
      PourOneMore(m, kept, index);
      assert tempBuffer[tempStr] == temp[..|kept|][tempStr] == kept[index];
      Buffer[index] := tempBuffer[tempStr];
      index := index + 1;
    }
    TerminatePoured(m, kept);
    Buffer[index] := 0;
  }

  // ---------------------------------------------------------------- hexadecimal

  lemma {:induction false} HexDigitCount(v: nat, n: nat)
    requires n >= 1 && v < Pow2(4 * n)
    ensures |HexDigitsOf(v)| <= n
    decreases n
  {
    if v >= 16 {
      assert Pow2(4 * n) == 16 * Pow2(4 * (n - 1)) by {
        assert Pow2(4 * n) == 2 * Pow2(4 * n - 1) == 4 * Pow2(4 * n - 2) == 8 * Pow2(4 * n - 3);
      }
      assert n > 1;
      HexDigitCount(v / 16, n - 1);
    }
  }

  lemma ShiftByFour(v: uint64)
    ensures RShiftU64(v, 4) == v / 16
  {
    assert Pow2(4) == 16;
  }

  /** Each shift moves the last digit over to the printed ones. */
  lemma {:induction false} LastHexDigit(v: nat, low: seq<Nibble>)
    ensures HexDigitsOf(v) + low == (if v / 16 == 0 then [] else HexDigitsOf(v / 16)) + ([v % 16] + low)
    ensures UpperHex([v % 16] + low) == [NibbleToHexChar(v % 16)] + UpperHex(low)
  {
    if v >= 16 {
      assert HexDigitsOf(v / 16) + [v % 16] + low == HexDigitsOf(v / 16) + ([v % 16] + low);
    }
  }

  /** The digit loop: it ends, and has filled at most sixteen cells from the last digit back. */
  method HexToTemp(tempBuffer: array<CHAR16>, Value: uint64) returns (count: nat)
    requires tempBuffer.Length == CHARACTER_NUMBER_FOR_VALUE
    modifies tempBuffer
    ensures count == |UpperHex(HexDigitsOf(Value))| <= 16
    ensures tempBuffer[..count] == Reversed(UpperHex(HexDigitsOf(Value)))
  {
    Pow2Of64();
    HexDigitCount(Value, 16);
    var value, done := Value, false;
    count := 0;
    ghost var low: seq<Nibble> := [];
    while !done
      invariant count == |low| && HexDigitsOf(Value) == (if done then [] else HexDigitsOf(value)) + low
      invariant count <= 16 && tempBuffer[..count] == Reversed(UpperHex(low))
      decreases !done, value
    {
      var index: Nibble := value % 16;
      LastHexDigit(value, low);
      ShiftByFour(value);
      Push(tempBuffer, count, NibbleToHexChar(index), UpperHex(low));
      value := RShiftU64(value, 4);
      count := count + 1;
      low := [index] + low;
      done := value == 0;
    }
    assert HexDigitsOf(Value) == low;
  }

  method EfiValueToHexStr(Buffer: array<CHAR16>, Value: uint64, Flags: UINTN, Width: UINTN) returns (printed: nat)
    requires |HexStr(Value, Flags, Width)| < Buffer.Length
    modifies Buffer
    ensures printed == |HexStr(Value, Flags, Width)|
    ensures Buffer[..] == TextAtStart(old(Buffer[..]), HexStr(Value, Flags, Width))
  {
    var tempBuffer := new CHAR16[CHARACTER_NUMBER_FOR_VALUE];
    var width := Width;
    if width > CHARACTER_NUMBER_FOR_VALUE - 1 {
      width := CHARACTER_NUMBER_FOR_VALUE - 1;
    }
    var count := HexToTemp(tempBuffer, Value);
    var prefix := if HasFlag(Flags, PREFIX_ZERO) then CHAR_0 else BLANK;
    ghost var core := UpperHex(HexDigitsOf(Value));
    var tempStr := PadTemp(tempBuffer, count, prefix, HasFlag(Flags, LEFT_JUSTIFY), width, core);
    printed := CutAndReverse(Buffer, tempBuffer, tempStr, width,
                             Padded(core, prefix, HasFlag(Flags, LEFT_JUSTIFY), width));
  }

  // ---------------------------------------------------------------- decimal

  function Pow10(n: nat): nat {
    if n == 0 then 1 else 10 * Pow10(n - 1)
  }

  lemma {:induction false} Pow10Digits(v: nat, n: nat, bound: nat)
    requires n >= 1 && v < bound && bound <= Pow10(n)
    ensures |DecimalDigitsOf(v)| <= n
    decreases n
  {
    if v >= 10 && n > 1 {
      Pow10Digits(v / 10, n - 1, Pow10(n - 1));
    }
  }

  lemma TenDigitsAreEnough(v: uint32)
    ensures |DecimalDigitsOf(v)| <= 10
  {
    assert Pow10(5) == 100_000;
    assert Pow10(10) == 10_000_000_000;
    Pow10Digits(v, 10, TWO_TO_32);
  }

  /** One more digit in front, behind the comma that the routine has put there already if need be. */
  lemma {:induction false} DigitInFront(x: int, d: seq<int>, longer: seq<int>, commas: bool)
    requires longer == [x] + d
    ensures DecimalText(longer, commas) == [CHAR_0 + x] + (CommaBefore(|d|, commas) + DecimalText(d, commas))
  {
    assert longer[1..] == d && |longer| - 1 == |d|;
    assert CHAR_0 + longer[0] == CHAR_0 + x;
    assert DecimalText(longer[1..], commas) == DecimalText(d, commas);
    assert CommaBefore(|longer| - 1, commas) == CommaBefore(|d|, commas);
  }

  /** The text in the temporary buffer once the digits `low` are printed: a comma is in place already
      if another digit will follow it. */
  ghost function TextSoFar(low: seq<int>, more: bool, commas: bool): seq<int> {
    (if more then CommaBefore(|low|, commas) else []) + DecimalText(low, commas)
  }

  /** The printing half of the digit loop's body. */
  method PushDigit(tempBuffer: array<CHAR16>, position: nat, digit: nat, valueCharNum: nat, more: bool, commas: bool,
                   ghost low: seq<int>)
    returns (count: nat)
    requires digit < 10 && valueCharNum == |low| + 1
    requires position == |TextSoFar(low, true, commas)| && position + 2 <= tempBuffer.Length
    requires tempBuffer[..position] == Reversed(TextSoFar(low, true, commas))
    modifies tempBuffer
    ensures count == |TextSoFar([digit] + low, more, commas)| <= tempBuffer.Length
    ensures tempBuffer[..count] == Reversed(TextSoFar([digit] + low, more, commas))
  {
    ghost var text := TextSoFar(low, true, commas);
    DigitInFront(digit, low, [digit] + low, commas);
    ThreeDividesIsRemainder(valueCharNum);
    Push(tempBuffer, position, CHAR_0 + digit, text);
    count := position + 1;
    text := [CHAR_0 + digit] + text;
    if commas {
      if valueCharNum % 3 == 0 && more {
        Push(tempBuffer, count, COMMA, text);
        count := count + 1;
        text := [COMMA] + text;
      }
    }
    assert text == TextSoFar([digit] + low, more, commas);
  }

  lemma BelowModulus(v: uint32)
    ensures v % TWO_TO_32 == v
  {
  }

  /** Each division moves one digit over to the digits that are printed. */
  lemma LastDigit(v: nat, quotient: nat, remainder: nat, low: seq<int>)
    requires v == quotient * 10 + remainder && remainder < 10
    ensures DecimalDigitsOf(v) + low == (if quotient == 0 then [] else DecimalDigitsOf(quotient)) + ([remainder] + low)
  {
    QuotientIsUnique(v, 10, quotient, remainder);
    var high := if quotient == 0 then [] else DecimalDigitsOf(quotient);
    assert DecimalDigitsOf(v) == high + [remainder];
    assert high + [remainder] + low == high + ([remainder] + low);
  }

  method DecimalToTemp(tempBuffer: array<CHAR16>, Value: uint64, commas: bool) returns (count: nat)
    requires tempBuffer.Length == CHARACTER_NUMBER_FOR_VALUE
    modifies tempBuffer
    ensures count == |DecimalText(DecimalDigitsOf(Value % TWO_TO_32), commas)| <= 20
    ensures tempBuffer[..count] == Reversed(DecimalText(DecimalDigitsOf(Value % TWO_TO_32), commas))
  {
    ghost var all := DecimalDigitsOf(Value % TWO_TO_32);
    TenDigitsAreEnough(Value % TWO_TO_32);
    var value: uint64, valueCharNum, more := Value, 0, true;
    count := 0;
    ghost var low: seq<int>, rest: nat := [], Value % TWO_TO_32;
    while more
      invariant valueCharNum == |low| && rest == value % TWO_TO_32
      invariant all == (if more then DecimalDigitsOf(rest) else []) + low
      invariant count == |TextSoFar(low, more, commas)| && tempBuffer[..count] == Reversed(TextSoFar(low, more, commas))
      decreases if more then rest + 1 else 0
    {
      var remainder;
      value, remainder := DivU64x32(value, 10);
      LastDigit(rest, value, remainder, low);
      assert |low| < 10;
      valueCharNum := valueCharNum + 1;
      more := value != 0;
      count := PushDigit(tempBuffer, count, remainder, valueCharNum, more, commas, low);
      low := [remainder] + low;
      BelowModulus(value);
      rest := value;
    }
    assert all == low && TextSoFar(low, false, commas) == DecimalText(low, commas);
  }

  method EfiValueToString(Buffer: array<CHAR16>, Value: int64, Flags: UINTN, Width: UINTN) returns (printed: nat)
    requires |DecimalStr(Value, Flags, Width)| < Buffer.Length
    modifies Buffer
    ensures printed == |DecimalStr(Value, Flags, Width)|
    ensures Buffer[..] == TextAtStart(old(Buffer[..]), DecimalStr(Value, Flags, Width))
  {
    var tempBuffer := new CHAR16[CHARACTER_NUMBER_FOR_VALUE];
    var width := Width;
    if width > CHARACTER_NUMBER_FOR_VALUE - 1 {
      width := CHARACTER_NUMBER_FOR_VALUE - 1;
    }
    var valueIsNegative := Value < 0;
    var count := DecimalToTemp(tempBuffer, Magnitude(Value), HasFlag(Flags, COMMA_TYPE));
    ghost var text := DecimalText(DecimalDigitsOf(Magnitude(Value) % TWO_TO_32), HasFlag(Flags, COMMA_TYPE));
    if valueIsNegative {
      Push(tempBuffer, count, MINUS, text);
      count := count + 1;
      text := [MINUS] + text;
    }
    var prefix := if HasFlag(Flags, PREFIX_ZERO) && !valueIsNegative then CHAR_0 else BLANK;
    assert text == SignedText(Value, HasFlag(Flags, COMMA_TYPE));
    var tempStr := PadTemp(tempBuffer, count, prefix, HasFlag(Flags, LEFT_JUSTIFY), width, text);
    printed := CutAndReverse(Buffer, tempBuffer, tempStr, width,
                             Padded(text, prefix, HasFlag(Flags, LEFT_JUSTIFY), width));
  }
}
