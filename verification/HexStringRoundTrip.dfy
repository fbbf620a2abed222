/** Printing and converting back, one routine after the other on the same arrays. */
module HexStringRoundTrip {
  import opened Machine
  import opened HexString
  import opened ValueToString
  import opened ValueRoundTrip

  /** A buffer that was printed is converted back. */
  method PrintAndConvert(Str: array<CHAR16>, HexStringBufferLength: UINTN, Buf: array<uint8>, Len: UINTN,
                         Out: array<uint8>)
    returns (status: Status, len: nat)
    requires Len <= Buf.Length && Len <= Out.Length && 2 * Len < Str.Length <= 0x8000_0000
    requires !SaysTooSmall(HexStringBufferLength, Len)
    modifies Str, Out
    ensures status == Success && len == Len && Out[..Len] == old(Buf[..Len])
  {
    ghost var m, b := Str[..], Buf[..Len];
    var _, _ := BufToHexString(Str, HexStringBufferLength, Buf, Len);
    ParsingUndoesPrinting(m, b, Str[..]);
    var converted;
    status, len, converted := HexStringToBuf(Out, Out.Length, Str, 0, 2 * Len);
  }

  /** With room enough, all digits are converted. */
  method ConvertAll(Str: array<CHAR16>, str: nat, ghost digits: seq<int>, Buf: array<uint8>) returns (len: nat)
    requires IsRun(Str[..], str, |digits|) && Str[..][str..str + |digits|] == digits
    requires (|digits| + 1) / 2 <= Buf.Length
    modifies Buf
    ensures len == (|digits| + 1) / 2 && Buf[..len] == Bytes(Digits(digits))
  {
    var status, converted;
    status, len, converted := HexStringToBuf(Buf, Buf.Length, Str, str, |digits|);
  }

  /** With room enough, all bytes are printed. */
  method PrintAll(Str: array<CHAR16>, Buf: array<uint8>, Len: UINTN) returns (length: UINTN)
    requires Len <= Buf.Length && 2 * Len < Str.Length <= 0x8000_0000
    modifies Str
    ensures length == 2 * Len + 1 && Str[..length] == HexText(Buf[..Len]) + [0]
  {
    TextAndTerminator(Str[..], HexText(Buf[..Len]));
    var status;
    status, length := BufToHexString(Str, Str.Length, Buf, Len);
  }

  /** Digits that were converted are printed again, in upper case and filled up to whole bytes. */
  method ConvertAndPrint(Str: array<CHAR16>, str: nat, ghost digits: seq<int>, Buf: array<uint8>, Out: array<CHAR16>)
    returns (length: UINTN)
    requires IsRun(Str[..], str, |digits|) && Str[..][str..str + |digits|] == digits
    requires (|digits| + 1) / 2 <= Buf.Length && 2 * ((|digits| + 1) / 2) < Out.Length <= 0x8000_0000
    modifies Buf, Out
    ensures length == 2 * ((|digits| + 1) / 2) + 1 <= Out.Length
    ensures Out[..length] == (if |digits| % 2 == 1 then [CHAR_0] else []) + UpperText(digits) + [0]
  {
    var len := ConvertAll(Str, str, digits, Buf);
    PrintingUndoesParsing(digits);
    length := PrintAll(Out, Buf, len);
  }

  /** A number that was printed without blank padding is converted to a buffer that holds it, or its
      remainder when the width cut it. */
  method PrintAndConvertValue(Str: array<CHAR16>, Value: uint64, Flags: UINTN, Width: UINTN, Out: array<uint8>)
    returns (len: nat)
    requires |HexStr(Value, Flags, Width)| < Str.Length && |HexStr(Value, Flags, Width)| <= 2 * Out.Length
    requires !BlankPadded(Value, Flags, Width)
    modifies Str, Out
    ensures len == (|HexStr(Value, Flags, Width)| + 1) / 2 <= Out.Length
    ensures LittleEndianValue(Out[..len]) == if Width == 0 then Value else Value % Pow16(Clamped(Width))
  {
    ghost var m, n := Str[..], |HexStr(Value, Flags, Width)|;
    var _ := EfiValueToHexStr(Str, Value, Flags, Width);
    HexRoundTrip(Value, Flags, Width, m, Str[..]);
    var status, converted;
    status, len, converted := HexStringToBuf(Out, Out.Length, Str, 0, n);
  }
}
