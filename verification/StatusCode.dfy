/** Status-code records: packed into a byte buffer by the reporting side, taken apart by offsets on
    the other. Everything lives in one byte memory; a pointer is an offset into it. */
module StatusCode {
  import opened Machine
  import opened Memory
  import opened Strings
  import opened AsciiStrings
  import opened HexString

  // sizes of the packed structures, in bytes
  const HEADER_SIZE := 20
  const DEBUG_INFO_SIZE := 4
  const ASSERT_DATA_SIZE := 32
  const GUID_SIZE := 16
  const DATA_MAX_SIZE := 200
  const ARGUMENTS := 12

  // offsets from the start of a record
  const TYPE_OFFSET := 4
  const ERROR_LEVEL_OFFSET := 20
  const ARGUMENT_OFFSET := 24
  const FORMAT_OFFSET := 120
  const LINE_NUMBER_OFFSET := 40
  const FILE_NAME_OFFSET := 52

  /** How much of a format string fits: the maximal size without header, level, arguments and terminator. */
  const FORMAT_MAX := 79

  const DEBUG_GUID: seq<uint8> := [
    0x46, 0x92, 0x4E, 0x9A, 0x53, 0xD5, 0xD5, 0x11, 0x87, 0xE2, 0x00, 0x06, 0x29, 0x45, 0xC3, 0xB9]

  const ASSERT_GUID: seq<uint8> := [
    0x95, 0x15, 0x57, 0xDA, 0x99, 0x4D, 0x7C, 0x48, 0x82, 0x7C, 0x26, 0x22, 0x67, 0x7D, 0x33, 0x07]

  // ---------------------------------------------------------------- words as bytes

  function LittleEndian(v: nat, n: nat): (b: seq<uint8>)
    ensures |b| == n
  {
    if n == 0 then [] else [v % 0x100] + LittleEndian(v / 0x100, n - 1)
  }

  function Pow256(n: nat): nat {
    if n == 0 then 1 else 0x100 * Pow256(n - 1)
  }

  lemma {:induction false} LittleEndianRoundTrip(v: nat, n: nat)
    requires v < Pow256(n)
    ensures LittleEndianValue(LittleEndian(v, n)) == v
  {
    if n > 0 {
      LittleEndianRoundTrip(v / 0x100, n - 1);
      assert LittleEndian(v, n)[1..] == LittleEndian(v / 0x100, n - 1);
    }
  }

  lemma WordRoundTrips(v: nat)
    ensures v < TWO_TO_32 ==> LittleEndianValue(LittleEndian(v, 4)) == v
    ensures v < TWO_TO_64 ==> LittleEndianValue(LittleEndian(v, 8)) == v
  {
    assert Pow256(2) == 0x1_0000;
    assert Pow256(4) == TWO_TO_32;
    assert Pow256(6) == 0x1_0000 * TWO_TO_32;
    assert Pow256(8) == TWO_TO_64;
    if v < TWO_TO_32 { LittleEndianRoundTrip(v, 4); }
    if v < TWO_TO_64 { LittleEndianRoundTrip(v, 8); }
  }

  // ---------------------------------------------------------------- the contents of a record

  ghost function HeaderBytes(dataSize: uint16, guid: seq<int>): (b: seq<int>)
    requires |guid| == GUID_SIZE
    ensures |b| == HEADER_SIZE
  {
    LittleEndian(HEADER_SIZE, 2) + LittleEndian((dataSize - HEADER_SIZE) % 0x1_0000, 2) + guid
  }

  ghost function ArgumentBytes(args: seq<uint64>, k: nat): (b: seq<int>)
    requires k <= |args|
    ensures |b| == 8 * k
  {
    if k == 0 then [] else ArgumentBytes(args, k - 1) + LittleEndian(args[k - 1], 8)
  }

  /** The part of fixed size. */
  ghost function DebugPrefix(guid: seq<int>, dataSize: uint16, errorLevel: nat, args: seq<uint64>): (b: seq<int>)
    requires ARGUMENTS <= |args| && |guid| == GUID_SIZE
    ensures |b| == FORMAT_OFFSET
  {
    HeaderBytes(dataSize, guid) + LittleEndian(ToUint32(errorLevel), 4) + ArgumentBytes(args, ARGUMENTS)
  }

  /** The format is cut to what fits. */
  ghost function Cut(format: seq<int>): (f: seq<int>)
    ensures |f| <= FORMAT_MAX
  {
    if |format| > FORMAT_MAX then format[..FORMAT_MAX] else format
  }

  /** A format of which the record keeps the given text: all of it exactly when it fits with its
      terminator, otherwise as much as fills the record. */
  ghost predicate IsWhatFits(text: seq<int>, format: seq<int>) {
    && text <= format
    && (text == format <==> FORMAT_OFFSET + |format| + 1 <= DATA_MAX_SIZE)
    && (text != format ==> FORMAT_OFFSET + |text| + 1 == DATA_MAX_SIZE)
  }

  lemma CutIsWhatFits(format: seq<int>)
    ensures IsWhatFits(Cut(format), format)
  {
  }

  /** A whole debug record. */
  ghost function DebugRecord(guid: seq<int>, dataSize: uint16, errorLevel: nat, args: seq<uint64>,
                             format: seq<int>): (b: seq<int>)
    requires ARGUMENTS <= |args| && |guid| == GUID_SIZE
    ensures |b| == FORMAT_OFFSET + |Cut(format)| + 1 <= DATA_MAX_SIZE
  {
    DebugPrefix(guid, dataSize, errorLevel, args) + (Cut(format) + [0])
  }

  // ---------------------------------------------------------------- bytes in memory

  ghost predicate Apart(p: nat, n: nat, q: nat, k: nat) {
    p + n <= q || q + k <= p
  }

  /** The type identifier guid is stored at g. */
  ghost predicate HoldsGuid(m: seq<int>, g: nat, guid: seq<int>) {
    |guid| == GUID_SIZE && g + GUID_SIZE <= |m| && m[g..g + GUID_SIZE] == guid
  }

  lemma PlacedTwice(m: seq<int>, p: nat, a: seq<int>, b: seq<int>)
    ensures Placed(Placed(m, p, a), p + |a|, b) == Placed(m, p, a + b)
  {
  }

  lemma MovedIsPlacedBytes(m: seq<int>, dst: nat, src: nat, n: nat)
    requires dst + n <= |m| && src + n <= |m|
    ensures Moved(m, dst, src, n) == Placed(m, dst, m[src..src + n])
  {
  }

  lemma BytesElsewhere(m: seq<int>, p: nat, s: seq<int>, q: nat, n: nat)
    requires q + n <= |m| && Apart(q, n, p, |s|)
    ensures Placed(m, p, s)[q..q + n] == m[q..q + n]
  {
  }

  lemma BytesWithin(m: seq<int>, p: nat, s: seq<int>, i: nat, n: nat)
    requires p + |s| <= |m| && i + n <= |s|
    ensures Placed(m, p, s)[p + i..p + i + n] == s[i..i + n]
  {
  }

  lemma SliceOfSlice(s: seq<int>, a: nat, b: nat, i: nat, n: nat)
    requires a + i + n <= b <= |s|
    ensures s[a..b][i..i + n] == s[a + i..a + i + n]
  {
    var whole, part := s[a..b], s[a + i..a + i + n];
    forall j | 0 <= j < n ensures whole[i..i + n][j] == part[j] {
    }
  }

  /** Writing elsewhere does not change a string. */
  lemma StringElsewhere(m: seq<int>, p: nat, s: seq<int>, q: nat)
    requires Terminated(m, q) && Apart(q, StrLen(m, q) + 1, p, |s|)
    ensures Terminated(Placed(m, p, s), q) && Text(Placed(m, p, s), q) == Text(m, q)
    ensures StrLen(Placed(m, p, s), q) == StrLen(m, q)
  {
    TextIs(Placed(m, p, s), q, Text(m, q));
  }

  /** A typed store through a pointer. */
  method StoreWord(mem: array<uint8>, p: nat, v: nat, n: nat)
    requires p + n <= mem.Length
    modifies mem
    ensures mem[..] == Placed(old(mem[..]), p, LittleEndian(v, n))
  {
    var b := LittleEndian(v, n);
    forall i | 0 <= i < n {
      mem[p + i] := b[i];
    }
  }

  // ---------------------------------------------------------------- the header

  /** Memory after the two sizes and then the type at g have been written to p, wherever g is. */
  ghost function HeaderWritten(m: seq<int>, p: nat, dataSize: uint16, g: nat): (r: seq<int>)
    requires p + HEADER_SIZE <= |m| && g + GUID_SIZE <= |m|
    ensures |r| == |m|
  {
    var sized := Placed(m, p, LittleEndian(HEADER_SIZE, 2));
    Moved(Placed(sized, p + 2, LittleEndian((dataSize - HEADER_SIZE) % 0x1_0000, 2)), p + TYPE_OFFSET, g, GUID_SIZE)
  }

  /** A type that lies elsewhere is copied faithfully. */
  lemma HeaderInPlace(m: seq<int>, p: nat, dataSize: uint16, g: nat, guid: seq<int>)
    requires p + HEADER_SIZE <= |m| && HoldsGuid(m, g, guid) && Apart(g, GUID_SIZE, p, HEADER_SIZE)
    ensures HeaderWritten(m, p, dataSize, g) == Placed(m, p, HeaderBytes(dataSize, guid))
  {
    var a, b := LittleEndian(HEADER_SIZE, 2), LittleEndian((dataSize - HEADER_SIZE) % 0x1_0000, 2);
    PlacedTwice(m, p, a, b);
    var sized := Placed(m, p, a + b);
    BytesElsewhere(m, p, a + b, g, GUID_SIZE);
    MovedIsPlacedBytes(sized, p + TYPE_OFFSET, g, GUID_SIZE);
    PlacedTwice(m, p, a + b, guid);
  }

  method EfiConstructStatusCodeData(mem: array<uint8>, DataSize: uint16, TypeGuid: nat, Data: nat)
    returns (past: nat)
    requires Data + HEADER_SIZE <= mem.Length && TypeGuid + GUID_SIZE <= mem.Length
    modifies mem
    ensures past == Data + HEADER_SIZE
    ensures mem[..] == HeaderWritten(old(mem[..]), Data, DataSize, TypeGuid)
  {
    StoreWord(mem, Data, HEADER_SIZE, 2);
    StoreWord(mem, Data + 2, (DataSize as int - HEADER_SIZE) % 0x1_0000, 2);
    EfiCommonLibCopyMem(mem, Data + TYPE_OFFSET, TypeGuid, GUID_SIZE);
    past := Data + HEADER_SIZE;
  }

  // ---------------------------------------------------------------- writing a debug record

  // where the parts of a record at p start
  function ErrorLevelAt(p: nat): nat { p + ERROR_LEVEL_OFFSET }
  function ArgumentsAt(p: nat): nat { p + ARGUMENT_OFFSET }
  function FormatAt(p: nat): nat { p + FORMAT_OFFSET }

  /** Memory after header, error level and arguments have been written. */
  ghost function FixedPartWritten(m: seq<int>, p: nat, dataSize: uint16, g: nat, errorLevel: nat, args: seq<uint64>)
    : (r: seq<int>)
    requires p + FORMAT_OFFSET <= |m| && g + GUID_SIZE <= |m| && ARGUMENTS <= |args|
    ensures |r| == |m|
  {
    var levelled := Placed(HeaderWritten(m, p, dataSize, g), ErrorLevelAt(p), LittleEndian(ToUint32(errorLevel), 4));
    Placed(levelled, ArgumentsAt(p), ArgumentBytes(args, ARGUMENTS))
  }

  lemma FixedPartInPlace(m: seq<int>, p: nat, dataSize: uint16, g: nat, errorLevel: nat, args: seq<uint64>,
                         guid: seq<int>)
    requires p + FORMAT_OFFSET <= |m| && ARGUMENTS <= |args|
    requires HoldsGuid(m, g, guid) && Apart(g, GUID_SIZE, p, HEADER_SIZE)
    ensures FixedPartWritten(m, p, dataSize, g, errorLevel, args)
         == Placed(m, p, DebugPrefix(guid, dataSize, errorLevel, args))
  {
    var header, level := HeaderBytes(dataSize, guid), LittleEndian(ToUint32(errorLevel), 4);
    HeaderInPlace(m, p, dataSize, g, guid);
    PlacedTwice(m, p, header, level);
    PlacedTwice(m, p, header + level, ArgumentBytes(args, ARGUMENTS));
  }

  /** The mini argument stack: twelve 64-bit words. */
  method StoreArguments(mem: array<uint8>, Ptr: nat, Marker: seq<uint64>) returns (ptr: nat)
    requires ARGUMENTS <= |Marker| && Ptr + 8 * ARGUMENTS <= mem.Length
    modifies mem
    ensures ptr == Ptr + 8 * ARGUMENTS
    ensures mem[..] == Placed(old(mem[..]), Ptr, ArgumentBytes(Marker, ARGUMENTS))
  {
    ghost var m := mem[..];
    var index := 0;
    ptr := Ptr;
    while index < ARGUMENTS
      invariant 0 <= index <= ARGUMENTS && ptr == Ptr + 8 * index
      invariant mem[..] == Placed(m, Ptr, ArgumentBytes(Marker, index))
    {
      PlacedTwice(m, Ptr, ArgumentBytes(Marker, index), LittleEndian(Marker[index], 8));
      StoreWord(mem, ptr, Marker[index], 8);
      index, ptr := index + 1, ptr + 8;
    }
  }

  /** Header, error level and arguments. */
  method StoreFixedPart(mem: array<uint8>, ErrorLevel: UINTN, Marker: seq<uint64>, DataSize: uint16, Buffer: nat,
                        debugGuid: nat)
    returns (ptr: nat)
    requires Buffer + FORMAT_OFFSET <= mem.Length && debugGuid + GUID_SIZE <= mem.Length && ARGUMENTS <= |Marker|
    modifies mem
    ensures ptr == FormatAt(Buffer)
    ensures mem[..] == FixedPartWritten(old(mem[..]), Buffer, DataSize, debugGuid, ErrorLevel, Marker)
  {
    var efiDebug := EfiConstructStatusCodeData(mem, DataSize, debugGuid, Buffer);
    assert efiDebug == ErrorLevelAt(Buffer) && efiDebug + DEBUG_INFO_SIZE == ArgumentsAt(Buffer);
    StoreWord(mem, efiDebug, ToUint32(ErrorLevel), 4);
    ptr := StoreArguments(mem, efiDebug + DEBUG_INFO_SIZE, Marker);
  }

  /** Memory after the format at f, cut to what fits, and its terminator have been written to p. */
  ghost function FormatWritten(m: seq<int>, p: nat, f: nat): (r: seq<int>)
    requires Terminated(m, f)
    ensures |r| == |m|
  {
    Placed(m, p, Cut(Text(m, f)) + [0])
  }

  lemma FormatSteps(m: seq<int>, p: nat, f: nat, n: nat)
    requires Terminated(m, f) && n == |Cut(Text(m, f))| && p + n < |m|
    ensures n == (if StrLen(m, f) > FORMAT_MAX then FORMAT_MAX else StrLen(m, f)) && f + n <= |m|
    ensures Moved(m, p, f, n)[p + n := 0] == FormatWritten(m, p, f)
  {
    assert m[f..f + n] == Cut(Text(m, f));
    MovedIsPlacedBytes(m, p, f, n);
    PlacedTwice(m, p, Cut(Text(m, f)), [0]);
  }

  method AppendFormat(mem: array<uint8>, ptr: nat, Format: nat)
    requires Terminated(mem[..], Format) && ptr + |Cut(Text(mem[..], Format))| < mem.Length
    modifies mem
    ensures mem[..] == FormatWritten(old(mem[..]), ptr, Format)
  {
    ghost var m: seq<int> := mem[..];
    FormatSteps(m, ptr, Format, |Cut(Text(m, Format))|);
    var formatStrLen := EfiAsciiStrLen(mem, Format);
    assert mem[..] == m;
    var remainingStrLen := DATA_MAX_SIZE - HEADER_SIZE - DEBUG_INFO_SIZE - 12 * 8 - 1;
    if formatStrLen > remainingStrLen {
      formatStrLen := remainingStrLen;
    }
    EfiCommonLibCopyMem(mem, ptr, Format, formatStrLen);
    mem[ptr + formatStrLen] := 0;
  }

  /** The format is a string when it is read, and what fits of it has room. */
  ghost predicate DebugWritable(m: seq<int>, p: nat, dataSize: uint16, g: nat, errorLevel: nat, args: seq<uint64>,
                                f: nat)
  {
    && p + FORMAT_OFFSET <= |m| && g + GUID_SIZE <= |m| && ARGUMENTS <= |args|
    && var fixed := FixedPartWritten(m, p, dataSize, g, errorLevel, args);
    && Terminated(fixed, f) && FormatAt(p) + |Cut(Text(fixed, f))| < |m|
  }

  /** Memory after the whole record has been written, wherever type and format are. */
  ghost function DebugWritten(m: seq<int>, p: nat, dataSize: uint16, g: nat, errorLevel: nat, args: seq<uint64>,
                              f: nat): (r: seq<int>)
    requires DebugWritable(m, p, dataSize, g, errorLevel, args, f)
    ensures |r| == |m|
  {
    FormatWritten(FixedPartWritten(m, p, dataSize, g, errorLevel, args), FormatAt(p), f)
  }

  method EfiDebugVPrintWorker(mem: array<uint8>, ErrorLevel: UINTN, Format: nat, Marker: seq<uint64>,
                              BufferSize: UINTN, Buffer: nat, debugGuid: nat)
    returns (status: Status)
    requires DebugWritable(mem[..], Buffer, BufferSize % 0x1_0000, debugGuid, ErrorLevel, Marker, Format)
    modifies mem
    ensures status == Success
    ensures mem[..] ==
      DebugWritten(old(mem[..]), Buffer, BufferSize % 0x1_0000, debugGuid, ErrorLevel, Marker, Format)
  {
    var ptr := StoreFixedPart(mem, ErrorLevel, Marker, BufferSize % 0x1_0000, Buffer, debugGuid);
    AppendFormat(mem, ptr, Format);
    status := Success;
  }

  /** A type and a format outside the buffer end up in one record, and all else stays. */
  lemma DebugRecordInPlace(m: seq<int>, p: nat, dataSize: uint16, g: nat, errorLevel: nat, args: seq<uint64>, f: nat,
                           guid: seq<int>)
    requires ARGUMENTS <= |args| && HoldsGuid(m, g, guid) && Apart(g, GUID_SIZE, p, HEADER_SIZE)
    requires Terminated(m, f) && Apart(f, StrLen(m, f) + 1, p, FORMAT_OFFSET)
    requires p + |DebugRecord(guid, dataSize, errorLevel, args, Text(m, f))| <= |m|
    ensures DebugWritable(m, p, dataSize, g, errorLevel, args, f)
    ensures DebugWritten(m, p, dataSize, g, errorLevel, args, f)
         == Placed(m, p, DebugRecord(guid, dataSize, errorLevel, args, Text(m, f)))
  {
    var prefix := DebugPrefix(guid, dataSize, errorLevel, args);
    FixedPartInPlace(m, p, dataSize, g, errorLevel, args, guid);
    StringElsewhere(m, p, prefix, f);
    PlacedTwice(m, p, prefix, Cut(Text(m, f)) + [0]);
  }

  // ---------------------------------------------------------------- extracting a debug record

  method EfiCompareGuid(mem: array<uint8>, Guid1: nat, Guid2: nat) returns (same: bool)
    requires Guid1 + GUID_SIZE <= mem.Length && Guid2 + GUID_SIZE <= mem.Length
    ensures same <==> mem[..][Guid1..Guid1 + GUID_SIZE] == mem[..][Guid2..Guid2 + GUID_SIZE]
  {
    ghost var g1, g2 := mem[..][Guid1..Guid1 + GUID_SIZE], mem[..][Guid2..Guid2 + GUID_SIZE];
    var index := 0;
    while index < 16
      invariant 0 <= index <= 16 && g1[..index] == g2[..index]
    {
      assert g1[index] == mem[Guid1 + index] && g2[index] == mem[Guid2 + index];
      if mem[Guid1 + index] != mem[Guid2 + index] {
        return false;
      }
      assert g1[..index + 1] == g1[..index] + [g1[index]] && g2[..index + 1] == g2[..index] + [g2[index]];
      index := index + 1;
    }
    assert g1[..16] == g1 && g2[..16] == g2;
    same := true;
  }

  /** The 32-bit word stored at p. */
  function WordAt(m: seq<int>, p: nat): int
    requires p + 4 <= |m|
  {
    LittleEndianValue(m[p..p + 4])
  }

  /** The i-th 64-bit argument behind a marker. */
  ghost function ArgumentRead(m: seq<int>, marker: nat, i: nat): int
    requires marker + 8 * i + 8 <= |m|
  {
    LittleEndianValue(m[marker + 8 * i..marker + 8 * i + 8])
  }

  /** The record at p carries the given type. */
  ghost predicate HasType(m: seq<int>, p: nat, guid: seq<int>)
    requires p + HEADER_SIZE <= |m|
  {
    m[p + TYPE_OFFSET..p + TYPE_OFFSET + GUID_SIZE] == guid
  }

  /** A null pointer or a record of another type yields nothing. */
  method ReportStatusCodeExtractDebugInfo(mem: array<uint8>, Data: Option<nat>, debugGuid: nat)
    returns (found: bool, errorLevel: int, marker: nat, format: nat)
    requires debugGuid + GUID_SIZE <= mem.Length
    requires Data.Some? ==> ArgumentsAt(Data.value) <= mem.Length
    ensures found <==> (Data.Some? && HasType(mem[..], Data.value, mem[..][debugGuid..debugGuid + GUID_SIZE]))
    ensures found ==> errorLevel == WordAt(mem[..], ErrorLevelAt(Data.value))
    ensures found ==> marker == ArgumentsAt(Data.value) && format == FormatAt(Data.value)
  {
    found, errorLevel, marker, format := false, 0, 0, 0;
    if Data == None {
      return;
    }
    var same := EfiCompareGuid(mem, Data.value + TYPE_OFFSET, debugGuid);
    if !same {
      return;
    }
    var debugInfo := Data.value + HEADER_SIZE;
    errorLevel := WordAt(mem[..], debugInfo);
    marker := debugInfo + DEBUG_INFO_SIZE;
    format := marker + 8 * 12;
    found := true;
  }

  lemma {:induction false} ArgumentAt(args: seq<uint64>, k: nat, i: nat)
    requires i < k <= |args|
    ensures ArgumentBytes(args, k)[8 * i..8 * i + 8] == LittleEndian(args[i], 8)
    decreases k
  {
    if i + 1 < k {
      ArgumentAt(args, k - 1, i);
      assert ArgumentBytes(args, k)[8 * i..8 * i + 8] == ArgumentBytes(args, k - 1)[8 * i..8 * i + 8];
    }
  }

  lemma {:induction false} DebugRecordParts(guid: seq<int>, dataSize: uint16, errorLevel: UINTN, args: seq<uint64>,
                                            format: seq<int>)
    requires ARGUMENTS <= |args| && |guid| == GUID_SIZE
    ensures
      var record := DebugRecord(guid, dataSize, errorLevel, args, format);
      && record[TYPE_OFFSET..TYPE_OFFSET + GUID_SIZE] == guid
      && record[ERROR_LEVEL_OFFSET..ERROR_LEVEL_OFFSET + 4] == LittleEndian(ToUint32(errorLevel), 4)
      && record[ARGUMENT_OFFSET..FORMAT_OFFSET] == ArgumentBytes(args, ARGUMENTS)
      && record[FORMAT_OFFSET..] == Cut(format) + [0]
  {
  }

  lemma WordRead(m: seq<int>, p: nat, v: uint32)
    requires p + 4 <= |m| && m[p..p + 4] == LittleEndian(v, 4)
    ensures WordAt(m, p) == v
  {
    WordRoundTrips(v);
  }

  lemma DebugHeadRoundTrip(m: seq<int>, buffer: nat, record: seq<int>, guid: seq<int>, errorLevel: UINTN)
    requires |guid| == GUID_SIZE && FORMAT_OFFSET <= |record| && buffer + |record| <= |m|
    requires record[TYPE_OFFSET..TYPE_OFFSET + GUID_SIZE] == guid
    requires record[ERROR_LEVEL_OFFSET..ERROR_LEVEL_OFFSET + 4] == LittleEndian(errorLevel, 4)
    ensures HasType(Placed(m, buffer, record), buffer, guid)
    ensures WordAt(Placed(m, buffer, record), ErrorLevelAt(buffer)) == errorLevel
  {
    BytesWithin(m, buffer, record, TYPE_OFFSET, GUID_SIZE);
    BytesWithin(m, buffer, record, ERROR_LEVEL_OFFSET, 4);
    WordRead(Placed(m, buffer, record), ErrorLevelAt(buffer), errorLevel);
  }

  lemma LongWordRead(m: seq<int>, p: nat, v: uint64)
    requires p + 8 <= |m| && m[p..p + 8] == LittleEndian(v, 8)
    ensures LittleEndianValue(m[p..p + 8]) == v
  {
    WordRoundTrips(v);
  }

  /** The i-th of the words stored from p on. */
  lemma {:induction false} ArgumentStored(m: seq<int>, p: nat, args: seq<uint64>, i: nat)
    requires i < ARGUMENTS <= |args| && p + 8 * ARGUMENTS <= |m|
    requires m[p..p + 8 * ARGUMENTS] == ArgumentBytes(args, ARGUMENTS)
    ensures m[p + 8 * i..p + 8 * i + 8] == LittleEndian(args[i], 8)
  {
    ArgumentAt(args, ARGUMENTS, i);
    SliceOfSlice(m, p, p + 8 * ARGUMENTS, 8 * i, 8);
  }

  lemma {:induction false} DebugArgumentRoundTrip(m: seq<int>, buffer: nat, record: seq<int>, args: seq<uint64>,
                                                  i: nat)
    requires i < ARGUMENTS <= |args| && FORMAT_OFFSET <= |record| && buffer + |record| <= |m|
    requires record[ARGUMENT_OFFSET..FORMAT_OFFSET] == ArgumentBytes(args, ARGUMENTS)
    ensures ArgumentRead(Placed(m, buffer, record), ArgumentsAt(buffer), i) == args[i]
  {
    var r, p := Placed(m, buffer, record), ArgumentsAt(buffer);
    BytesWithin(m, buffer, record, ARGUMENT_OFFSET, 8 * ARGUMENTS);
    ArgumentStored(r, p, args, i);
    LongWordRead(r, p + 8 * i, args[i]);
  }

  lemma DebugFormatRoundTrip(m: seq<int>, buffer: nat, record: seq<int>, text: seq<int>)
    requires FORMAT_OFFSET <= |record| && buffer + |record| <= |m|
    requires record[FORMAT_OFFSET..] == text + [0] && 0 !in text
    ensures Terminated(Placed(m, buffer, record), FormatAt(buffer))
    ensures Text(Placed(m, buffer, record), FormatAt(buffer)) == text
  {
    var r, tail := Placed(m, buffer, record), record[FORMAT_OFFSET..];
    forall i | 0 <= i < |tail| ensures r[FormatAt(buffer) + i] == tail[i] {
      assert tail[i] == record[FORMAT_OFFSET + i];
    }
    assert tail[|text|] == 0;
    TextIs(r, FormatAt(buffer), text);
  }

  /** What can be read from memory that holds a record of these parts. */
  lemma DebugPartsRoundTrip(m: seq<int>, buffer: nat, record: seq<int>, guid: seq<int>, errorLevel: UINTN,
                            args: seq<uint64>, text: seq<int>)
    requires ARGUMENTS <= |args| && 0 !in text && |guid| == GUID_SIZE
    requires FORMAT_OFFSET <= |record| && buffer + |record| <= |m|
    requires record[TYPE_OFFSET..TYPE_OFFSET + GUID_SIZE] == guid
    requires record[ERROR_LEVEL_OFFSET..ERROR_LEVEL_OFFSET + 4] == LittleEndian(errorLevel, 4)
    requires record[ARGUMENT_OFFSET..FORMAT_OFFSET] == ArgumentBytes(args, ARGUMENTS)
    requires record[FORMAT_OFFSET..] == text + [0]
    ensures
      var r := Placed(m, buffer, record);
      && HasType(r, buffer, guid) && WordAt(r, ErrorLevelAt(buffer)) == errorLevel
      && (forall i :: 0 <= i < ARGUMENTS ==> ArgumentRead(r, ArgumentsAt(buffer), i) == args[i])
      && Terminated(r, FormatAt(buffer)) && Text(r, FormatAt(buffer)) == text
  {
    DebugHeadRoundTrip(m, buffer, record, guid, errorLevel);
    forall i | 0 <= i < ARGUMENTS
      ensures ArgumentRead(Placed(m, buffer, record), ArgumentsAt(buffer), i) == args[i]
    {
      DebugArgumentRoundTrip(m, buffer, record, args, i);
    }
    DebugFormatRoundTrip(m, buffer, record, text);
  }

  /** A debug record that has been written is recognised, and gives back the error level, the twelve
      argument words and the format cut to what fits. */
  lemma DebugRoundTrip(m: seq<int>, buffer: nat, guid: seq<int>, dataSize: uint16, errorLevel: UINTN,
                       args: seq<uint64>, format: seq<int>, r: seq<int>)
    requires ARGUMENTS <= |args| && 0 !in format && |guid| == GUID_SIZE
    requires buffer + |DebugRecord(guid, dataSize, errorLevel, args, format)| <= |m|
    requires r == Placed(m, buffer, DebugRecord(guid, dataSize, errorLevel, args, format))
    ensures HasType(r, buffer, guid)
    ensures WordAt(r, ErrorLevelAt(buffer)) == errorLevel
    ensures forall i :: 0 <= i < ARGUMENTS ==> ArgumentRead(r, ArgumentsAt(buffer), i) == args[i]
    ensures Terminated(r, FormatAt(buffer)) && Text(r, FormatAt(buffer)) == Cut(format)
  {
    DebugRecordParts(guid, dataSize, errorLevel, args, format);
    DebugPartsRoundTrip(m, buffer, DebugRecord(guid, dataSize, errorLevel, args, format), guid, errorLevel, args,
                        Cut(format));
  }

  // ---------------------------------------------------------------- writing an assertion record

  /** The size the routine computes: it counts neither terminator. */
  function TotalSize(fileLength: nat, descriptionLength: nat): UINTN {
    ToUint32(HEADER_SIZE + ASSERT_DATA_SIZE + fileLength + descriptionLength)
  }

  /** The size the record has, both terminators included. */
  function RecordSize(fileLength: nat, descriptionLength: nat): nat {
    FILE_NAME_OFFSET + fileLength + 1 + descriptionLength + 1
  }

  function AssertDataSize(totalSize: UINTN): uint16 {
    (totalSize - HEADER_SIZE) % 0x1_0000
  }

  /** Where the file name of a record at p starts. */
  function FileNameAt(p: nat): nat {
    p + FILE_NAME_OFFSET
  }

  function LineNumberAt(p: nat): nat {
    p + LINE_NUMBER_OFFSET
  }

  /** Memory after header and line number have been written. */
  ghost function HeadWritten(m: seq<int>, p: nat, size: uint16, g: nat, line: uint32): (r: seq<int>)
    requires p + FILE_NAME_OFFSET <= |m| && g + GUID_SIZE <= |m|
    ensures |r| == |m|
  {
    Placed(HeaderWritten(m, p, size, g), LineNumberAt(p), LittleEndian(line, 4))
  }

  /** An unbounded copy of the string at src to dst ends, and stays in memory. */
  ghost predicate Copies(m: seq<int>, dst: nat, src: nat) {
    Terminated(m, src) && CopyEnds(m, dst, src) && dst + StrLen(m, src) < |m|
  }

  ghost function CopyWritten(m: seq<int>, dst: nat, src: nat): (r: seq<int>)
    requires Terminated(m, src)
    ensures |r| == |m|
  {
    Placed(m, dst, Text(m, src) + [0])
  }

  /** Both copies end and stay in memory, one right behind the other. */
  ghost predicate TwoCopies(m: seq<int>, p: nat, file: nat, description: nat) {
    Copies(m, p, file) && Copies(CopyWritten(m, p, file), p + StrLen(m, file) + 1, description)
  }

  ghost function TwoCopiesWritten(m: seq<int>, p: nat, file: nat, description: nat): (r: seq<int>)
    requires TwoCopies(m, p, file, description)
    ensures |r| == |m|
  {
    CopyWritten(CopyWritten(m, p, file), p + StrLen(m, file) + 1, description)
  }

  /** The file name and, right behind its terminator, the description. */
  method AppendTwoStrings(mem: array<uint8>, p: nat, Filename: nat, Description: nat)
    requires TwoCopies(mem[..], p, Filename, Description)
    modifies mem
    ensures mem[..] == TwoCopiesWritten(old(mem[..]), p, Filename, Description)
  {
    var endOfStr := EfiAsciiStrCpy(mem, p, Filename);
    var _ := EfiAsciiStrCpy(mem, endOfStr, Description);
  }

  /** Everything written lies in memory, and the strings are strings when they are read. */
  ghost predicate AssertWritable(m: seq<int>, p: nat, size: uint16, g: nat, line: uint32, file: nat,
                                 description: nat)
  {
    && p + FILE_NAME_OFFSET <= |m| && g + GUID_SIZE <= |m|
    && TwoCopies(HeadWritten(m, p, size, g, line), FileNameAt(p), file, description)
  }

  /** Memory after the whole record has been written, wherever type and strings are. */
  ghost function AssertWritten(m: seq<int>, p: nat, size: uint16, g: nat, line: uint32, file: nat, description: nat)
    : (r: seq<int>)
    requires AssertWritable(m, p, size, g, line, file, description)
    ensures |r| == |m|
  {
    TwoCopiesWritten(HeadWritten(m, p, size, g, line), FileNameAt(p), file, description)
  }

  /** The writing half of the routine. */
  method StoreAssertRecord(mem: array<uint8>, Filename: nat, LineNumber: int, Description: nat, size: uint16,
                           Buffer: nat, assertGuid: nat)
    requires AssertWritable(mem[..], Buffer, size, assertGuid, ToUint32(LineNumber), Filename, Description)
    modifies mem
    ensures mem[..] ==
      AssertWritten(old(mem[..]), Buffer, size, assertGuid, ToUint32(LineNumber), Filename, Description)
  {
    var assertData := EfiConstructStatusCodeData(mem, size, assertGuid, Buffer);
    assert assertData + 20 == LineNumberAt(Buffer) && assertData + ASSERT_DATA_SIZE == FileNameAt(Buffer);
    StoreWord(mem, assertData + 20, ToUint32(LineNumber), 4);
    AppendTwoStrings(mem, assertData + ASSERT_DATA_SIZE, Filename, Description);
  }

  /** The size the routine computes for two strings in memory. */
  ghost function TotalSizeOf(m: seq<int>, file: nat, description: nat): UINTN
    requires Terminated(m, file) && Terminated(m, description)
  {
    TotalSize(StrLen(m, file), StrLen(m, description))
  }

  method EfiDebugAssertWorker(mem: array<uint8>, Filename: nat, LineNumber: int, Description: nat, BufferSize: UINTN,
                              Buffer: nat, assertGuid: nat)
    returns (status: Status)
    requires -0x8000_0000 <= LineNumber < 0x8000_0000
    requires Terminated(mem[..], Filename) && Terminated(mem[..], Description)
    requires TotalSizeOf(mem[..], Filename, Description) <= BufferSize ==>
      AssertWritable(mem[..], Buffer, AssertDataSize(TotalSizeOf(mem[..], Filename, Description)), assertGuid,
                     ToUint32(LineNumber), Filename, Description)
    modifies mem
    ensures status == BufferTooSmall <==> old(TotalSizeOf(mem[..], Filename, Description)) > BufferSize
    ensures status == BufferTooSmall ==> mem[..] == old(mem[..])
    ensures status == Success ==>
      mem[..] == AssertWritten(old(mem[..]), Buffer, AssertDataSize(old(TotalSizeOf(mem[..], Filename, Description))),
                               assertGuid, ToUint32(LineNumber), Filename, Description)
  {
    ghost var m := mem[..];
    var length1 := EfiAsciiStrLen(mem, Filename);
    var length2 := EfiAsciiStrLen(mem, Description);
    assert mem[..] == m;
    var totalSize := TotalSize(length1, length2);
    if totalSize > BufferSize {
      return BufferTooSmall;
    }
    StoreAssertRecord(mem, Filename, LineNumber, Description, AssertDataSize(totalSize), Buffer, assertGuid);
    status := Success;
  }

  // ---------------------------------------------------------------- an assertion record

  ghost function TwoStrings(file: seq<int>, description: seq<int>): (b: seq<int>)
    ensures |b| == |file| + |description| + 2
  {
    file + [0] + (description + [0])
  }

  ghost function AssertHead(m: seq<int>, p: nat, guid: seq<int>, size: uint16, line: uint32): (r: seq<int>)
    requires |guid| == GUID_SIZE
    ensures |r| == |m|
  {
    Placed(Placed(m, p, HeaderBytes(size, guid)), LineNumberAt(p), LittleEndian(line, 4))
  }

  /** Memory with an assertion record at p. Between the header, the line number and the strings the
      record has fields that are not written. */
  ghost function AssertRecord(m: seq<int>, p: nat, guid: seq<int>, size: uint16, line: uint32, file: seq<int>,
                              description: seq<int>): (r: seq<int>)
    requires |guid| == GUID_SIZE
    ensures |r| == |m|
  {
    Placed(AssertHead(m, p, guid, size, line), FileNameAt(p), TwoStrings(file, description))
  }

  /** Both strings, their terminators included, fit at p in memory, and do not overlap that place. */
  ghost predicate StringsFit(m: seq<int>, file: nat, description: nat, p: nat) {
    && Terminated(m, file) && Terminated(m, description)
    && var n := StrLen(m, file) + StrLen(m, description) + 2;
    && p + n <= |m| && Apart(file, StrLen(m, file) + 1, p, n) && Apart(description, StrLen(m, description) + 1, p, n)
  }

  /** Strings that lie elsewhere are copied as they were. */
  lemma TwoStringsInPlace(m: seq<int>, p: nat, file: nat, description: nat)
    requires StringsFit(m, file, description, p)
    ensures TwoCopies(m, p, file, description)
    ensures TwoCopiesWritten(m, p, file, description)
         == Placed(m, p, TwoStrings(Text(m, file), Text(m, description)))
  {
    StringElsewhere(m, p, Text(m, file) + [0], description);
    PlacedTwice(m, p, Text(m, file) + [0], Text(m, description) + [0]);
  }

  /** The record, terminators included, lies in memory, away from the strings and the type it is made of. */
  ghost predicate AssertFits(m: seq<int>, file: nat, description: nat, p: nat, g: nat)
    requires Terminated(m, file) && Terminated(m, description)
  {
    var n := RecordSize(StrLen(m, file), StrLen(m, description));
    && p + n <= |m| && Apart(g, GUID_SIZE, p, n)
    && Apart(file, StrLen(m, file) + 1, p, n) && Apart(description, StrLen(m, description) + 1, p, n)
  }

  lemma HeadKeepsStrings(m: seq<int>, file: nat, description: nat, p: nat, g: nat, guid: seq<int>,
                         size: uint16, line: uint32)
    requires |guid| == GUID_SIZE && Terminated(m, file) && Terminated(m, description)
    requires AssertFits(m, file, description, p, g)
    ensures
      var r := AssertHead(m, p, guid, size, line);
      && StringsFit(r, file, description, FileNameAt(p))
      && Text(r, file) == Text(m, file) && Text(r, description) == Text(m, description)
  {
    var header, number := HeaderBytes(size, guid), LittleEndian(line, 4);
    var m1 := Placed(m, p, header);
    StringElsewhere(m, p, header, file);
    StringElsewhere(m, p, header, description);
    StringElsewhere(m1, LineNumberAt(p), number, file);
    StringElsewhere(m1, LineNumberAt(p), number, description);
  }

  /** Strings and a type outside the record end up in it, and all else stays. */
  lemma AssertRecordInPlace(m: seq<int>, p: nat, size: uint16, g: nat, line: uint32, file: nat, description: nat,
                            guid: seq<int>)
    requires HoldsGuid(m, g, guid) && Terminated(m, file) && Terminated(m, description)
    requires AssertFits(m, file, description, p, g)
    ensures AssertWritable(m, p, size, g, line, file, description)
    ensures AssertWritten(m, p, size, g, line, file, description)
         == AssertRecord(m, p, guid, size, line, Text(m, file), Text(m, description))
  {
    HeaderInPlace(m, p, size, g, guid);
    HeadKeepsStrings(m, file, description, p, g, guid, size, line);
    TwoStringsInPlace(AssertHead(m, p, guid, size, line), FileNameAt(p), file, description);
  }

  /** The size test counts neither terminator. It passes for a buffer that the record overruns exactly
      when one or two bytes are missing, or, once the sum of the lengths has wrapped around, always. */
  lemma SizeTestMissesTheTerminators(bufferSize: UINTN, fileLength: nat, descriptionLength: nat)
    ensures
      var n := FILE_NAME_OFFSET + fileLength + descriptionLength;
      (TotalSize(fileLength, descriptionLength) <= bufferSize < RecordSize(fileLength, descriptionLength))
      <==> (if n < TWO_TO_32 then bufferSize == n || bufferSize == n + 1 else n % TWO_TO_32 <= bufferSize)
  {
  }

  /** Writing the record changes nothing outside the n bytes at p. */
  ghost predicate StaysInside(m: seq<int>, p: nat, guid: seq<int>, size: uint16, line: uint32, file: seq<int>,
                              description: seq<int>, n: nat)
    requires |guid| == GUID_SIZE
  {
    forall i :: 0 <= i < |m| && !(p <= i < p + n) ==>
      AssertRecord(m, p, guid, size, line, file, description)[i] == m[i]
  }

  /** The record stays inside a buffer of n bytes, whatever memory holds, exactly when n covers both
      terminators. */
  lemma RecordStaysInsideExactly(length: nat, p: nat, guid: seq<int>, size: uint16, line: uint32,
                                 file: seq<int>, description: seq<int>, n: nat)
    requires |guid| == GUID_SIZE && p + RecordSize(|file|, |description|) <= length
    ensures (forall m: seq<int> :: |m| == length ==> StaysInside(m, p, guid, size, line, file, description, n))
      <==> n >= RecordSize(|file|, |description|)
  {
    if n < RecordSize(|file|, |description|) {
      var m: seq<int> := seq(length, _ => 1);
      var last := p + RecordSize(|file|, |description|) - 1;
      var strings := TwoStrings(file, description);
      assert strings[|strings| - 1] == 0;
      assert AssertRecord(m, p, guid, size, line, file, description)[last] == 0;
      assert !StaysInside(m, p, guid, size, line, file, description, n);
    }
  }

  // ---------------------------------------------------------------- extracting an assertion record

  const EFI_ERROR_CODE := 0x02
  const EFI_ERROR_UNRECOVERED := 0x9000_0000
  const EFI_SW_EC_ILLEGAL_SOFTWARE_STATE := 0x07

  /** The low byte, the high byte in place, and the low half of a word. */
  function CodeTypeOf(codeType: uint32): int { codeType % 0x100 }
  function SeverityOf(codeType: uint32): int { codeType - codeType % 0x100_0000 }
  function OperationOf(value: uint32): int { value % 0x1_0000 }

  /** The status codes of an assertion: type 2 and severity 9 in the code type, whatever the 16 bits
      between, and operation 7 in the value, whatever its class. */
  ghost predicate IsAssertionType(codeType: uint32, between: nat) {
    between < 0x1_0000 && codeType == 0x9000_0000 + 0x100 * between + 2
  }

  ghost predicate IsAssertionValue(value: uint32, kind: nat) {
    kind < 0x1_0000 && value == 0x1_0000 * kind + 7
  }

  ghost predicate ReportsAssertion(codeType: uint32, value: uint32) {
    (exists between :: IsAssertionType(codeType, between)) && exists kind :: IsAssertionValue(value, kind)
  }

  /** The masks single out exactly these. */
  lemma MasksFindAssertions(codeType: uint32, value: uint32)
    ensures CodeTypeOf(codeType) == EFI_ERROR_CODE && SeverityOf(codeType) == EFI_ERROR_UNRECOVERED
      <==> exists between :: IsAssertionType(codeType, between)
    ensures OperationOf(value) == EFI_SW_EC_ILLEGAL_SOFTWARE_STATE <==> exists kind :: IsAssertionValue(value, kind)
  {
    if CodeTypeOf(codeType) == EFI_ERROR_CODE && SeverityOf(codeType) == EFI_ERROR_UNRECOVERED {
      assert IsAssertionType(codeType, codeType / 0x100 % 0x1_0000);
    }
    if OperationOf(value) == EFI_SW_EC_ILLEGAL_SOFTWARE_STATE {
      assert IsAssertionValue(value, value / 0x1_0000);
    }
  }

  /** The record type is not looked at, only the status code. */
  method ReportStatusCodeExtractAssertInfo(mem: array<uint8>, CodeType: uint32, Value: uint32, Data: Option<nat>)
    returns (found: bool, filename: nat, description: nat, lineNumber: int)
    requires Data.Some? && ReportsAssertion(CodeType, Value) ==>
      FileNameAt(Data.value) <= mem.Length && Terminated(mem[..], FileNameAt(Data.value))
    ensures found <==> (Data.Some? && ReportsAssertion(CodeType, Value))
    ensures found ==> filename == FileNameAt(Data.value)
    ensures found ==> description == EndOf(mem[..], filename) + 1
    ensures found ==> lineNumber == WordAt(mem[..], LineNumberAt(Data.value))
  {
    MasksFindAssertions(CodeType, Value);
    found, filename, description, lineNumber := false, 0, 0, 0;
    if CodeTypeOf(CodeType) == EFI_ERROR_CODE && SeverityOf(CodeType) == EFI_ERROR_UNRECOVERED {
      if OperationOf(Value) == EFI_SW_EC_ILLEGAL_SOFTWARE_STATE && Data != None {
        var assertData := Data.value + HEADER_SIZE;
        filename := assertData + ASSERT_DATA_SIZE;
        var length := EfiAsciiStrLen(mem, filename);
        description := filename + length + 1;
        lineNumber := WordAt(mem[..], assertData + 20);
        found := true;
      }
    }
  }

  lemma TwoStringsRead(m: seq<int>, p: nat, file: seq<int>, description: seq<int>)
    requires 0 !in file && 0 !in description && p + |file| + |description| + 2 <= |m|
    ensures
      var r := Placed(m, p, TwoStrings(file, description));
      && Terminated(r, p) && Text(r, p) == file && EndOf(r, p) == p + |file|
      && Terminated(r, EndOf(r, p) + 1) && Text(r, EndOf(r, p) + 1) == description
  {
    var r, q := Placed(m, p, TwoStrings(file, description)), p + |file| + 1;
    TextIs(r, p, file);
    TextIs(r, q, description);
  }

  /** What has been packed is found again at the places the extractor computes: the line number, the
      file name, and the description right behind the file name's terminator. */
  lemma AssertRoundTrip(m: seq<int>, p: nat, guid: seq<int>, size: uint16, line: uint32,
                        file: seq<int>, description: seq<int>, r: seq<int>)
    requires |guid| == GUID_SIZE && 0 !in file && 0 !in description
    requires p + RecordSize(|file|, |description|) <= |m|
    requires r == AssertRecord(m, p, guid, size, line, file, description)
    ensures HasType(r, p, guid)
    ensures WordAt(r, LineNumberAt(p)) == line
    ensures Terminated(r, FileNameAt(p)) && Text(r, FileNameAt(p)) == file
    ensures Terminated(r, EndOf(r, FileNameAt(p)) + 1)
    ensures Text(r, EndOf(r, FileNameAt(p)) + 1) == description
  {
    var header, number, strings := HeaderBytes(size, guid), LittleEndian(line, 4), TwoStrings(file, description);
    var m1 := Placed(m, p, header);
    var head := Placed(m1, LineNumberAt(p), number);
    assert header[TYPE_OFFSET..TYPE_OFFSET + GUID_SIZE] == guid;
    BytesWithin(m, p, header, TYPE_OFFSET, GUID_SIZE);
    BytesElsewhere(m1, LineNumberAt(p), number, p + TYPE_OFFSET, GUID_SIZE);
    BytesElsewhere(head, FileNameAt(p), strings, p + TYPE_OFFSET, GUID_SIZE);
    assert head[LineNumberAt(p)..LineNumberAt(p) + 4] == number;
    BytesElsewhere(head, FileNameAt(p), strings, LineNumberAt(p), 4);
    WordRead(r, LineNumberAt(p), line);
    TwoStringsRead(head, FileNameAt(p), file, description);
  }

  /** An assertion record is never taken for a debug record. */
  lemma AssertRecordIsNoDebugRecord(m: seq<int>, p: nat, size: uint16, line: uint32, file: seq<int>,
                                    description: seq<int>)
    requires 0 !in file && 0 !in description && p + RecordSize(|file|, |description|) <= |m|
    ensures !HasType(AssertRecord(m, p, ASSERT_GUID, size, line, file, description), p, DEBUG_GUID)
  {
    AssertRoundTrip(m, p, ASSERT_GUID, size, line, file, description,
                    AssertRecord(m, p, ASSERT_GUID, size, line, file, description));
    assert ASSERT_GUID[0] != DEBUG_GUID[0];
  }
}
