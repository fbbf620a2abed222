/** Binary buffers as hexadecimal text: digits run from the most significant, bytes from the least. */
module HexString {
  import opened Machine
  import opened Strings

  datatype Option<+T> = None | Some(value: T)

  type Nibble = x: int | 0 <= x < 16

  // ---------------------------------------------------------------- digits

  // the characters 0, 9, A, F, a and f
  const CHAR_0 := 0x30
  const CHAR_9 := 0x39
  const CHAR_UPPER_A := 0x41
  const CHAR_UPPER_F := 0x46
  const CHAR_LOWER_A := 0x61
  const CHAR_LOWER_F := 0x66

  /** The value of a hexadecimal digit in either case, or -1 for any other character. */
  function HexDigit(c: int): (d: int)
    ensures -1 <= d < 16
  {
    if CHAR_0 <= c <= CHAR_9 then c - CHAR_0
    else if CHAR_UPPER_A <= c <= CHAR_UPPER_F then c - CHAR_UPPER_A + 0x0A
    else if CHAR_LOWER_A <= c <= CHAR_LOWER_F then c - CHAR_LOWER_A + 0x0A
    else -1
  }

  /** Only the low half of the byte is printed. */
  function NibbleToHexChar(b: uint8): (c: CHAR16)
    ensures HexDigit(c) == b % 16
  {
    var nibble := b % 16;
    if nibble <= 9 then nibble + CHAR_0 else nibble - 0xA + CHAR_UPPER_A
  }

  // the characters of the sixteen digits, in both cases
  const UPPER_DIGITS: seq<CHAR16> := [
    0x30, 0x31, 0x32, 0x33, 0x34, 0x35, 0x36, 0x37, 0x38, 0x39, 0x41, 0x42, 0x43, 0x44, 0x45, 0x46]
  const LOWER_DIGITS: seq<CHAR16> := [
    0x30, 0x31, 0x32, 0x33, 0x34, 0x35, 0x36, 0x37, 0x38, 0x39, 0x61, 0x62, 0x63, 0x64, 0x65, 0x66]

  /** The digit characters are the 22 of the two tables and no others, and the value of one is its place. */
  lemma HexDigitIsPlace(c: int, d: Nibble)
    ensures HexDigit(c) == d <==> c == UPPER_DIGITS[d] || c == LOWER_DIGITS[d]
    ensures HexDigit(c) < 0 <==> c !in UPPER_DIGITS && c !in LOWER_DIGITS
  {
    assert HexDigit(c) >= 0 ==> c == UPPER_DIGITS[HexDigit(c)] || c == LOWER_DIGITS[HexDigit(c)];
  }

  /** What is printed for a nibble is its entry in the upper-case table. */
  lemma NibbleIsTableEntry(d: Nibble)
    ensures NibbleToHexChar(d) == UPPER_DIGITS[d]
  {
  }

  function UpperCase(c: int): int {
    if CHAR_LOWER_A <= c <= CHAR_LOWER_F then c - CHAR_LOWER_A + CHAR_UPPER_A else c
  }

  /** Printing the digit that a character denotes gives that character in upper case. */
  lemma NibbleOfDigit(c: int)
    requires HexDigit(c) >= 0
    ensures NibbleToHexChar(HexDigit(c)) == UpperCase(c)
  {
  }

  ghost predicate AllHex(t: seq<int>) {
    forall i :: 0 <= i < |t| ==> HexDigit(t[i]) >= 0
  }

  ghost function Digits(t: seq<int>): (d: seq<Nibble>)
    requires AllHex(t)
    ensures |d| == |t|
  {
    seq(|t|, i requires 0 <= i < |t| => HexDigit(t[i]))
  }

  ghost function Chars(d: seq<Nibble>): (t: seq<int>)
    ensures |t| == |d|
  {
    seq(|d|, i requires 0 <= i < |d| => NibbleToHexChar(d[i]))
  }

  lemma DigitsOfChars(d: seq<Nibble>)
    ensures AllHex(Chars(d)) && Digits(Chars(d)) == d
  {
    assert forall i :: 0 <= i < |d| ==> HexDigit(Chars(d)[i]) == d[i];
  }

  ghost function UpperText(t: seq<int>): (r: seq<int>)
    ensures |r| == |t|
  {
    seq(|t|, i requires 0 <= i < |t| => UpperCase(t[i]))
  }

  lemma CharsOfDigits(t: seq<int>)
    requires AllHex(t)
    ensures Chars(Digits(t)) == UpperText(t)
  {
    forall i | 0 <= i < |t| ensures Chars(Digits(t))[i] == UpperText(t)[i] {
      NibbleOfDigit(t[i]);
    }
  }

  /** The n characters at p are the hexadecimal digits that a conversion starting there consumes. */
  ghost predicate IsRun(m: seq<int>, p: nat, n: nat) {
    p + n < |m| && HexDigit(m[p + n]) < 0 && AllHex(m[p..p + n])
  }

  /** In a zero-terminated string the digits end at the terminator at the latest. */
  lemma {:induction false} StringHasRun(m: seq<int>, p: nat) returns (n: nat)
    requires Terminated(m, p)
    ensures IsRun(m, p, n) && n <= StrLen(m, p)
    decreases |m| - p
  {
    StrLenNext(m, p);
    if HexDigit(m[p]) < 0 {
      n := 0;
    } else {
      n := StringHasRun(m, p + 1);
      assert m[p..p + n + 1] == [m[p]] + m[p + 1..p + 1 + n];
      n := n + 1;
    }
  }

  // ---------------------------------------------------------------- bytes of a digit sequence

  function Byte(hi: Nibble, lo: Nibble): uint8 {
    lo + 16 * hi
  }

  lemma NibblesOfByte(hi: Nibble, lo: Nibble)
    ensures Byte(hi, lo) / 16 == hi && Byte(hi, lo) % 16 == lo
  {
  }

  /** The number written by the digits d, most significant first, as bytes, least significant first. */
  ghost function Bytes(d: seq<Nibble>): (b: seq<uint8>)
    ensures |d| == 2 * |b| || |d| == 2 * |b| - 1
  {
    if |d| == 0 then [] else if |d| == 1 then [Byte(0, d[0])]
    else [Byte(d[|d| - 2], d[|d| - 1])] + Bytes(d[..|d| - 2])
  }

  /** The number that digits in the given base write, most significant first. */
  ghost function NumeralValue(d: seq<int>, base: nat): int {
    if d == [] then 0 else base * NumeralValue(d[..|d| - 1], base) + d[|d| - 1]
  }

  ghost function HexValue(d: seq<int>): int {
    NumeralValue(d, 16)
  }

  function LittleEndianValue(b: seq<int>): int {
    if b == [] then 0 else b[0] + 0x100 * LittleEndianValue(b[1..])
  }

  lemma BytesOfTwoMore(d: seq<Nibble>, hi: Nibble, lo: Nibble)
    ensures Bytes(d + [hi, lo]) == [Byte(hi, lo)] + Bytes(d)
  {
    assert (d + [hi, lo])[..|d|] == d;
  }

  /** The buffer, read from its low end, has the value of the digits read from their high end. */
  lemma {:induction false} BytesKeepValue(d: seq<Nibble>)
    ensures LittleEndianValue(Bytes(d)) == HexValue(d)
    decreases |d|
  {
    if |d| == 1 {
      assert d[..0] == [] && HexValue(d) == 16 * HexValue([]) + d[0];
      assert Bytes(d)[1..] == [];
    } else if |d| >= 2 {
      var shorter, front := d[..|d| - 2], d[..|d| - 1];
      assert front[..|d| - 2] == shorter;
      assert HexValue(d) == 16 * HexValue(front) + d[|d| - 1];
      assert HexValue(front) == 16 * HexValue(shorter) + d[|d| - 2];
      BytesKeepValue(shorter);
      assert Bytes(d)[1..] == Bytes(shorter);
    }
  }

  /** One more significant digit opens a new byte. */
  lemma {:induction false} BytesOfEvenAndOne(x: Nibble, d: seq<Nibble>)
    requires |d| == 2 * |Bytes(d)|
    ensures Bytes([x] + d) == Bytes(d) + [Byte(0, x)]
    decreases |d|
  {
    if |d| >= 2 {
      var shorter := d[..|d| - 2];
      assert ([x] + d)[..|d| - 1] == [x] + shorter;
      BytesOfEvenAndOne(x, shorter);
    }
  }

  /** Or it fills the high half of the last byte. */
  lemma {:induction false} BytesOfOddAndOne(x: Nibble, d: seq<Nibble>)
    requires |d| == 2 * |Bytes(d)| - 1
    ensures
      var b, last := Bytes(d), |Bytes(d)| - 1;
      last >= 0 && b[last] < 16 && Bytes([x] + d) == b[..last] + [Byte(x, b[last])]
    decreases |d|
  {
    if |d| == 1 {
      assert Bytes([x] + d) == [Byte(x, d[0])] + Bytes(([x] + d)[..0]);
    } else {
      var shorter, v := d[..|d| - 2], Byte(d[|d| - 2], d[|d| - 1]);
      assert ([x] + d)[..|d| - 1] == [x] + shorter;
      BytesOfOddAndOne(x, shorter);
      var b := Bytes(shorter);
      assert Bytes(d) == [v] + b && Bytes([x] + d) == [v] + Bytes([x] + shorter);
      assert ([v] + b)[..|b|] == [v] + b[..|b| - 1];
    }
  }

  /** A buffer after the bytes b have been stored at its low end. */
  ghost function Filled(m: seq<uint8>, b: seq<uint8>): (r: seq<uint8>)
    requires |b| <= |m|
    ensures |r| == |m|
  {
    b + m[|b|..]
  }

  lemma FillNewByte(m: seq<uint8>, b: seq<uint8>, v: uint8)
    requires |b| < |m|
    ensures Filled(m, b)[|b| := v] == Filled(m, b + [v])
  {
  }

  lemma FillLastByte(m: seq<uint8>, b: seq<uint8>, v: uint8)
    requires 0 < |b| <= |m|
    ensures Filled(m, b)[|b| - 1] == b[|b| - 1]
    ensures Filled(m, b)[|b| - 1 := v] == Filled(m, b[..|b| - 1] + [v])
  {
  }

  /** The h-th byte is opened by a digit of even index and completed by the next one. */
  lemma StoreEven(m: seq<uint8>, x: Nibble, low: seq<Nibble>, h: nat)
    requires |low| == 2 * h && h < |m|
    ensures |Bytes(low)| == h && Filled(m, Bytes([x] + low)) == Filled(m, Bytes(low))[h := x]
  {
    BytesOfEvenAndOne(x, low);
    FillNewByte(m, Bytes(low), Byte(0, x));
  }

  lemma StoreOdd(m: seq<uint8>, x: Nibble, low: seq<Nibble>, h: nat)
    requires |low| == 2 * h + 1 && h < |m|
    ensures |Bytes(low)| == h + 1 && Filled(m, Bytes(low))[h] < 16
    ensures Filled(m, Bytes([x] + low)) == Filled(m, Bytes(low))[h := Byte(x, Filled(m, Bytes(low))[h])]
  {
    BytesOfOddAndOne(x, low);
    FillLastByte(m, Bytes(low), Byte(x, Bytes(low)[h]));
  }

  // ---------------------------------------------------------------- text to buffer

  /** The counting loop in front of the conversion. */
  method CountDigits(Str: array<CHAR16>, str: nat, ghost n: nat) returns (hexCnt: nat)
    requires IsRun(Str[..], str, n)
    ensures hexCnt == n
  {
    var idx := 0;
    hexCnt := 0;
    ghost var run: seq<int> := Str[..][str..str + n];
    while HexDigit(Str[str + idx]) >= 0
      invariant 0 <= idx == hexCnt <= n
      decreases n - idx
    {
      assert idx < n;
      idx, hexCnt := idx + 1, hexCnt + 1;
    }
    assert forall i :: 0 <= i < n ==> run[i] == Str[str + i];
  }

  /** The body of the conversion loop. */
  method StoreNibble(Buf: array<uint8>, idx: nat, digit: Nibble, ghost m: seq<uint8>, ghost low: seq<Nibble>)
    requires |low| == idx && idx / 2 < |m| && Buf[..] == Filled(m, Bytes(low))
    modifies Buf
    ensures Buf[..] == Filled(m, Bytes([digit] + low))
  {
    var byte: uint8;
    if idx % 2 == 0 {
      StoreEven(m, digit, low, idx / 2);
      byte := digit;
    } else {
      StoreOdd(m, digit, low, idx / 2);
      byte := Buf[idx / 2];
      byte := byte % 16;
      byte := byte + digit * 16;
    }
    Buf[idx / 2] := byte;
  }

  /** The conversion loop: from the last digit back, into the buffer from its low end. */
  method ConvertDigits(Buf: array<uint8>, Str: array<CHAR16>, str: nat, hexCnt: nat, ghost d: seq<Nibble>)
    requires |d| == hexCnt && str + hexCnt <= Str.Length && (hexCnt + 1) / 2 <= Buf.Length
    requires forall i :: 0 <= i < hexCnt ==> HexDigit(Str[str + i]) == d[i]
    modifies Buf
    ensures |Bytes(d)| == (hexCnt + 1) / 2
    ensures Buf[..] == Filled(old(Buf[..]), Bytes(d))
  {
    ghost var m := Buf[..];
    var idx := 0;
    ghost var low: seq<Nibble> := [];
    while idx < hexCnt
      invariant 0 <= idx <= hexCnt && |low| == idx && low == d[hexCnt - idx..]
      invariant Buf[..] == Filled(m, Bytes(low))
    {
      assert HexDigit(Str[str + (hexCnt - 1 - idx)]) == d[hexCnt - 1 - idx];
      var digit: Nibble := HexDigit(Str[str + hexCnt - 1 - idx]);
      StoreNibble(Buf, idx, digit, m, low);
      low := [digit] + low;
      idx := idx + 1;
    }
    assert low == d;
  }

  /** A string without digits leaves the buffer and ConvertedStrLen alone; a buffer that is too small
      is left alone too, and the caller learns the size to retry with. */
  method HexStringToBuf(Buf: array<uint8>, Len: nat, Str: array<CHAR16>, str: nat, ghost n: nat)
    returns (status: Status, len: nat, convertedStrLen: Option<nat>)
    requires Len <= Buf.Length && IsRun(Str[..], str, n)
    modifies Buf
    ensures n == 0 ==> status == Success && len == 0
    ensures n != 0 ==> len == (n + 1) / 2 && (status == BufferTooSmall <==> len > Len)
    ensures n == 0 || status == BufferTooSmall ==> Buf[..] == old(Buf[..]) && convertedStrLen == None
    ensures n != 0 && status == Success ==>
      var b := Bytes(Digits(Str[..][str..str + n]));
      |b| == len && Buf[..] == Filled(old(Buf[..]), b) && convertedStrLen == Some(n)
  {
    ghost var m, run: seq<int> := Buf[..], Str[..][str..str + n];
    var hexCnt := CountDigits(Str, str, n);
    assert Buf[..] == m;
    if hexCnt == 0 {
      return Success, 0, None;
    }
    var bufferLength := (hexCnt + 1) / 2;
    if bufferLength > Len {
      return BufferTooSmall, bufferLength, None;
    }
    len := bufferLength;
    assert forall i :: 0 <= i < n ==> run[i] == Str[str + i];
    ConvertDigits(Buf, Str, str, hexCnt, Digits(run));
    status, convertedStrLen := Success, Some(hexCnt);
  }

  // ---------------------------------------------------------------- buffer to text

  /** The digits of a buffer: two a byte, the last byte first. */
  ghost function Nibbles(b: seq<uint8>): (d: seq<Nibble>)
    ensures |d| == 2 * |b|
  {
    if b == [] then [] else Nibbles(b[1..]) + [b[0] / 16, b[0] % 16]
  }

  ghost function HexText(b: seq<uint8>): (t: seq<int>)
    ensures |t| == 2 * |b|
  {
    Chars(Nibbles(b))
  }

  /** The size test of the routine, with the wrap-around of 32-bit unsigned words. */
  predicate SaysTooSmall(hexStringBufferLength: UINTN, len: UINTN) {
    ToUint32(len * 2) > ToUint32(hexStringBufferLength - 1)
  }

  /** Read as a number of characters, which is how the code computes, the size is tested right exactly
      when it is not zero (zero minus one is the largest word) and doubling the buffer length did not
      wrap, or wrapped to something still too large. */
  lemma SizeTestInCharacters(hexStringBufferLength: UINTN, len: UINTN)
    ensures (SaysTooSmall(hexStringBufferLength, len) <==> hexStringBufferLength < 2 * len + 1)
      <==> hexStringBufferLength != 0 && (len < 0x8000_0000 || hexStringBufferLength <= 2 * len - TWO_TO_32)
  {
  }

  const SIZEOF_CHAR16 := 2

  /** The bytes that the text of a buffer takes, its terminator included. */
  function BytesNeeded(len: nat): nat {
    SIZEOF_CHAR16 * (2 * len + 1)
  }

  /** Read as a number of bytes, which is how it is documented, a size passes the test although the text
      does not fit: zero, and everything from the character count up to twice that. Beyond 2^31 bytes
      the doubled length has wrapped, and no size is enough. */
  predicate AcceptedTooSmall(n: UINTN, len: UINTN) {
    n == 0 || (if len < 0x8000_0000 then 2 * len + 1 <= n < 4 * len + 2 else 2 * len - TWO_TO_32 + 1 <= n)
  }

  lemma SizeTestInBytes(n: UINTN, len: UINTN)
    ensures !SaysTooSmall(n, len) && n < BytesNeeded(len) <==> AcceptedTooSmall(n, len)
    ensures SaysTooSmall(n, len) ==> n < BytesNeeded(len)
  {
  }

  /** One byte, and three bytes for its text of three characters: the test passes. */
  lemma ThreeBytesPassForOneByte()
    ensures !SaysTooSmall(3, 1) && BytesNeeded(1) == 6
  {
  }

  /** A retry with the size handed back always passes the test, and is never enough in bytes. */
  lemma RetryPassesAndOverruns(len: UINTN)
    ensures
      var retry := ToUint32(ToUint32(len * 2) + 1);
      !SaysTooSmall(retry, len) && retry < BytesNeeded(len)
  {
  }

  lemma {:induction false} NibblesOfOneByteMore(b: seq<uint8>, k: nat)
    requires k < |b|
    ensures Nibbles(b[..k + 1]) == [b[k] / 16, b[k] % 16] + Nibbles(b[..k])
  {
    if k == 0 {
      assert b[..1][1..] == [];
    } else {
      NibblesOfOneByteMore(b[1..], k - 1);
      assert b[..k + 1][1..] == b[1..][..k] && b[..k][1..] == b[1..][..k - 1];
    }
  }

  lemma CharsOfTwoMore(x: Nibble, y: Nibble, d: seq<Nibble>)
    ensures Chars([x, y] + d) == [NibbleToHexChar(x), NibbleToHexChar(y)] + Chars(d)
  {
  }

  lemma TextOfOneByteMore(b: seq<uint8>, k: nat)
    requires k < |b|
    ensures HexText(b[..k + 1]) == [NibbleToHexChar(b[k] / 16), NibbleToHexChar(b[k])] + HexText(b[..k])
  {
    NibblesOfOneByteMore(b, k);
    CharsOfTwoMore(b[k] / 16, b[k] % 16, Nibbles(b[..k]));
  }

  /** Memory m with the text t ending at position end, and a terminator there. */
  ghost function TextEndingAt(m: seq<int>, end: nat, t: seq<int>): (r: seq<int>)
    requires |t| <= end < |m|
    ensures |r| == |m|
  {
    m[..end - |t|] + t + [0] + m[end + 1..]
  }

  /** Writing the text of b at the start of memory changes no cell that reaches beyond the first n bytes. */
  ghost predicate StaysInBytes(m: seq<int>, b: seq<uint8>, n: nat)
    requires 2 * |b| < |m|
  {
    forall i :: 0 <= i < |m| && n < SIZEOF_CHAR16 * (i + 1) ==> TextEndingAt(m, 2 * |b|, HexText(b))[i] == m[i]
  }

  lemma TextStaysInBytesExactly(size: nat, b: seq<uint8>, n: nat)
    requires 2 * |b| < size
    ensures (forall m: seq<int> :: |m| == size ==> StaysInBytes(m, b, n)) <==> n >= BytesNeeded(|b|)
  {
    if n < BytesNeeded(|b|) {
      var m: seq<int> := seq(size, _ => 1);
      assert TextEndingAt(m, 2 * |b|, HexText(b))[2 * |b|] == 0 != m[2 * |b|];
      assert !StaysInBytes(m, b, n);
    }
  }

  /** A call that is accepted with a documented size of n bytes writes beyond them, for some contents of
      memory, exactly for the sizes that AcceptedTooSmall lists. */
  lemma AcceptedCallOverrunsExactly(size: nat, b: seq<uint8>, n: UINTN)
    requires 2 * |b| < size && |b| < TWO_TO_32
    ensures !SaysTooSmall(n, |b|) && (exists m: seq<int> :: |m| == size && !StaysInBytes(m, b, n))
      <==> AcceptedTooSmall(n, |b|)
  {
    SizeTestInBytes(n, |b|);
    TextStaysInBytesExactly(size, b, n);
  }

  lemma TwoMoreInFront(m: seq<int>, end: nat, t: seq<int>, x: int, y: int)
    requires |t| + 2 <= end < |m|
    ensures TextEndingAt(m, end, t)[end - |t| - 1 := y][end - |t| - 2 := x] == TextEndingAt(m, end, [x, y] + t)
  {
  }

  /** What one round of the printing loop stores. */
  lemma OneByteInFront(m: seq<int>, end: nat, b: seq<uint8>, k: nat)
    requires k < |b| && 2 * |b| <= end < |m|
    ensures
      var text := TextEndingAt(m, end, HexText(b[..k]));
      text[end - 1 - k * 2 := NibbleToHexChar(b[k])][end - 2 - k * 2 := NibbleToHexChar(b[k] / 16)]
        == TextEndingAt(m, end, HexText(b[..k + 1]))
  {
    TextOfOneByteMore(b, k);
    TwoMoreInFront(m, end, HexText(b[..k]), NibbleToHexChar(b[k] / 16), NibbleToHexChar(b[k]));
  }

  /** The writing half of the routine: the terminator, then the digits from the last one back. */
  method WriteDigits(Str: array<CHAR16>, strLen: nat, Buf: array<uint8>, Len: nat)
    requires Len <= Buf.Length && strLen == 2 * Len < Str.Length
    modifies Str
    ensures Str[..] == TextEndingAt(old(Str[..]), strLen, HexText(Buf[..Len]))
  {
    ghost var m, b := Str[..], Buf[..Len];
    Str[strLen] := 0;
    var idx := 0;
    while idx < Len
      invariant 0 <= idx <= Len
      invariant Str[..] == TextEndingAt(m, strLen, HexText(b[..idx]))
    {
      OneByteInFront(m, strLen, b, idx);
      var byte := Buf[idx];
      Str[strLen - 1 - idx * 2] := NibbleToHexChar(byte);
      Str[strLen - 2 - idx * 2] := NibbleToHexChar(byte / 16);
      idx := idx + 1;
    }
    assert b[..Len] == b;
  }

  method BufToHexString(Str: array<CHAR16>, HexStringBufferLength: UINTN, Buf: array<uint8>, Len: UINTN)
    returns (status: Status, hexStringBufferLength: UINTN)
    requires Len <= Buf.Length && Str.Length <= 0x8000_0000
    requires !SaysTooSmall(HexStringBufferLength, Len) ==> 2 * Len < Str.Length
    modifies Str
    ensures status == BufferTooSmall <==> SaysTooSmall(HexStringBufferLength, Len)
    ensures status == BufferTooSmall ==>
      Str[..] == old(Str[..]) && hexStringBufferLength == ToUint32(ToUint32(2 * Len) + 1)
    ensures status == Success ==> hexStringBufferLength == 2 * Len + 1
    ensures status == Success ==> Str[..] == TextEndingAt(old(Str[..]), 2 * Len, HexText(Buf[..Len]))
  {
    var strLen := ToUint32(Len * 2);
    if SaysTooSmall(HexStringBufferLength, Len) {
      return BufferTooSmall, ToUint32(strLen + 1);
    }
    hexStringBufferLength := strLen + 1;
    assert strLen == 2 * Len;
    WriteDigits(Str, strLen, Buf, Len);
    status := Success;
  }

  lemma TextAndTerminator(m: seq<int>, t: seq<int>)
    requires |t| < |m|
    ensures TextEndingAt(m, |t|, t)[..|t| + 1] == t + [0]
  {
  }

  // ---------------------------------------------------------------- round trips

  lemma {:induction false} BytesOfNibbles(b: seq<uint8>)
    ensures Bytes(Nibbles(b)) == b
  {
    if b != [] {
      BytesOfNibbles(b[1..]);
      BytesOfTwoMore(Nibbles(b[1..]), b[0] / 16, b[0] % 16);
      assert Byte(b[0] / 16, b[0] % 16) == b[0];
      assert [b[0]] + b[1..] == b;
    }
  }

  ghost function LeadingZero(odd: bool): seq<Nibble> {
    if odd then [0] else []
  }

  lemma NibblesOfOneMore(hi: Nibble, lo: Nibble, b: seq<uint8>)
    ensures Nibbles([Byte(hi, lo)] + b) == Nibbles(b) + [hi, lo]
  {
    NibblesOfByte(hi, lo);
    assert ([Byte(hi, lo)] + b)[1..] == b;
  }

  lemma LastTwo(d: seq<Nibble>)
    requires |d| >= 2
    ensures d == d[..|d| - 2] + [d[|d| - 2], d[|d| - 1]]
  {
  }

  lemma Regrouped(a: seq<int>, b: seq<int>, c: seq<int>)
    ensures (a + b) + c == a + (b + c)
  {
  }

  lemma {:induction false} NibblesOfBytes(d: seq<Nibble>, h: nat, odd: bool)
    requires |d| == 2 * h + (if odd then 1 else 0)
    ensures Nibbles(Bytes(d)) == LeadingZero(odd) + d
    decreases h
  {
    if h == 0 {
      if odd {
        NibblesOfOneMore(0, d[0], []);
        assert Bytes(d) == [Byte(0, d[0])] + [] && d == [d[0]];
      }
    } else {
      var shorter: seq<Nibble>, hi, lo := d[..|d| - 2], d[|d| - 2], d[|d| - 1];
      NibblesOfOneMore(hi, lo, Bytes(shorter));
      NibblesOfBytes(shorter, h - 1, odd);
      LastTwo(d);
      Regrouped(LeadingZero(odd), shorter, [hi, lo]);
    }
  }

  /** Memory that holds the text of a buffer holds one run of digits there, and a conversion from it
      gives the buffer back. */
  lemma ParsingUndoesPrinting(m: seq<int>, b: seq<uint8>, r: seq<int>)
    requires 2 * |b| < |m| && r == TextEndingAt(m, 2 * |b|, HexText(b))
    ensures IsRun(r, 0, 2 * |b|) && Bytes(Digits(r[0..0 + 2 * |b|])) == b
  {
    assert r[0..0 + 2 * |b|] == HexText(b) && r[0 + 2 * |b|] == 0;
    DigitsOfChars(Nibbles(b));
    BytesOfNibbles(b);
  }

  /** Printing what has been parsed gives the upper-cased digits, with one leading zero when their
      number is odd. */
  lemma PrintingUndoesParsing(t: seq<int>)
    requires AllHex(t)
    ensures HexText(Bytes(Digits(t))) == (if |t| % 2 == 1 then [CHAR_0] else []) + UpperText(t)
  {
    var odd := |t| % 2 == 1;
    NibblesOfBytes(Digits(t), |t| / 2, odd);
    CharsOfDigits(t);
    assert Chars(LeadingZero(odd) + Digits(t)) == Chars(LeadingZero(odd)) + Chars(Digits(t));
  }
}
