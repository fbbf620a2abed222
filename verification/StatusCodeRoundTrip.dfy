/** A status-code reporter followed by the extractor, on the same memory. */
module StatusCodeRoundTrip {
  import opened Machine
  import opened Memory
  import opened Strings
  import opened HexString
  import opened StatusCode
  import opened StatusCodeLayout

  /** What was extracted is what was reported, the format cut to what fits. */
  ghost predicate GivesBack(m: seq<int>, level: int, marker: nat, format: nat, errorLevel: int, args: seq<uint64>,
                            text: seq<int>)
    requires ARGUMENTS <= |args|
  {
    && level == errorLevel
    && marker + 8 * ARGUMENTS <= |m| && (forall i :: 0 <= i < ARGUMENTS ==> ArgumentRead(m, marker, i) == args[i])
    && Terminated(m, format) && Text(m, format) == Cut(text) && IsWhatFits(Text(m, format), text)
  }

  lemma DebugReadBack(m: seq<int>, buffer: nat, guid: seq<int>, dataSize: uint16, errorLevel: UINTN,
                      args: seq<uint64>, format: seq<int>, g: nat, r: seq<int>)
    requires ARGUMENTS <= |args| && 0 !in format
    requires HoldsGuid(m, g, guid) && Apart(g, GUID_SIZE, buffer, DATA_MAX_SIZE)
    requires buffer + |DebugRecord(guid, dataSize, errorLevel, args, format)| <= |m|
    requires r == Placed(m, buffer, DebugRecord(guid, dataSize, errorLevel, args, format))
    ensures HoldsGuid(r, g, guid) && HasType(r, buffer, guid)
    ensures GivesBack(r, WordAt(r, ErrorLevelAt(buffer)), ArgumentsAt(buffer), FormatAt(buffer),
                      errorLevel, args, format)
  {
    DebugRoundTrip(m, buffer, guid, dataSize, errorLevel, args, format, r);
    CutIsWhatFits(format);
    BytesElsewhere(m, buffer, DebugRecord(guid, dataSize, errorLevel, args, format), g, GUID_SIZE);
  }

  /** A debug message that was reported is extracted again, whatever memory held. */
  method ReportAndExtractDebug(mem: array<uint8>, ErrorLevel: UINTN, Format: nat, Marker: seq<uint64>,
                               BufferSize: UINTN, Buffer: nat, debugGuid: nat, ghost guid: seq<int>)
    returns (found: bool, errorLevel: int, marker: nat, format: nat)
    requires ARGUMENTS <= |Marker| && Terminated(mem[..], Format)
    requires HoldsGuid(mem[..], debugGuid, guid)
    requires
      Buffer + |DebugRecord(guid, BufferSize % 0x1_0000, ErrorLevel, Marker, Text(mem[..], Format))| <= mem.Length
    requires Apart(debugGuid, GUID_SIZE, Buffer, DATA_MAX_SIZE)
    requires Apart(Format, StrLen(mem[..], Format) + 1, Buffer, FORMAT_OFFSET)
    modifies mem
    ensures found && GivesBack(mem[..], errorLevel, marker, format, ErrorLevel, Marker, old(Text(mem[..], Format)))
    ensures DebugLayout(mem[..], Buffer, BufferSize, guid, ErrorLevel, Marker, old(Text(mem[..], Format)))
  {
    ghost var m, text := mem[..], Text(mem[..], Format);
    DebugRecordInPlace(m, Buffer, BufferSize % 0x1_0000, debugGuid, ErrorLevel, Marker, Format, guid);
    var _ := EfiDebugVPrintWorker(mem, ErrorLevel, Format, Marker, BufferSize, Buffer, debugGuid);
    ghost var r := mem[..];
    DebugRecordLayout(m, Buffer, BufferSize, guid, ErrorLevel, Marker, text);
    DebugReadBack(m, Buffer, guid, BufferSize % 0x1_0000, ErrorLevel, Marker, text, debugGuid, r);
    found, errorLevel, marker, format := ReportStatusCodeExtractDebugInfo(mem, Some(Buffer), debugGuid);
    assert mem[..] == r;
  }

  /** The two strings and the number are found where the pointers say. */
  ghost predicate Recovers(m: seq<int>, filename: nat, description: nat, number: int, file: seq<int>, text: seq<int>,
                           line: int)
  {
    && Terminated(m, filename) && Text(m, filename) == file
    && Terminated(m, description) && Text(m, description) == text
    && number == line
  }

  /** The places that the extractor computes lead to the strings and the number. */
  ghost predicate Recorded(m: seq<int>, p: nat, file: seq<int>, text: seq<int>, line: int) {
    && FileNameAt(p) <= |m| && Terminated(m, FileNameAt(p))
    && Recovers(m, FileNameAt(p), EndOf(m, FileNameAt(p)) + 1, WordAt(m, LineNumberAt(p)), file, text, line)
  }

  /** The record of an assertion is in place, and the extractor will find it. */
  ghost predicate AssertStored(m: seq<int>, p: nat, guid: seq<int>, line: int, file: seq<int>, text: seq<int>) {
    Recorded(m, p, file, text, ToUint32(line)) && AssertLayout(m, p, guid, line, file, text)
  }

  lemma AssertReadBack(m: seq<int>, p: nat, guid: seq<int>, line: int, file: seq<int>, text: seq<int>, size: uint16,
                       r: seq<int>)
    requires |guid| == GUID_SIZE && 0 !in file && 0 !in text && p + RecordSize(|file|, |text|) <= |m|
    requires -0x8000_0000 <= line < 0x8000_0000 && size == AssertDataSize(TotalSize(|file|, |text|))
    requires r == AssertRecord(m, p, guid, size, ToUint32(line), file, text)
    ensures AssertStored(r, p, guid, line, file, text)
  {
    AssertRoundTrip(m, p, guid, size, ToUint32(line), file, text, r);
    AssertRecordLayout(m, p, guid, line, file, text, size);
  }

  method ReportAssert(mem: array<uint8>, Filename: nat, LineNumber: int, Description: nat, BufferSize: UINTN,
                      Buffer: nat, assertGuid: nat, ghost guid: seq<int>, ghost m: seq<int>, ghost file: seq<int>,
                      ghost text: seq<int>)
    requires -0x8000_0000 <= LineNumber < 0x8000_0000
    requires mem[..] == m && Terminated(m, Filename) && Terminated(m, Description) && HoldsGuid(m, assertGuid, guid)
    requires Text(m, Filename) == file && Text(m, Description) == text
    requires TotalSize(|file|, |text|) <= BufferSize
    requires AssertFits(m, Filename, Description, Buffer, assertGuid)
    modifies mem
    ensures AssertStored(mem[..], Buffer, guid, LineNumber, file, text)
  {
    ghost var size := AssertDataSize(TotalSize(|file|, |text|));
    AssertRecordInPlace(m, Buffer, size, assertGuid, ToUint32(LineNumber), Filename, Description, guid);
    var _ := EfiDebugAssertWorker(mem, Filename, LineNumber, Description, BufferSize, Buffer, assertGuid);
    AssertReadBack(m, Buffer, guid, LineNumber, file, text, size, mem[..]);
  }

  /** What the drivers report is an assertion. */
  lemma DriverCodesAreAssertions(codeType: uint32, value: uint32)
    ensures codeType == 0x9000_0002 && value % 0x1_0000 == 7 ==> ReportsAssertion(codeType, value)
  {
    assert codeType == 0x9000_0002 ==> IsAssertionType(codeType, 0);
    assert value % 0x1_0000 == 7 ==> IsAssertionValue(value, value / 0x1_0000);
  }

  method ExtractAssert(mem: array<uint8>, CodeType: uint32, Value: uint32, p: nat, ghost r: seq<int>,
                       ghost guid: seq<int>, ghost file: seq<int>, ghost text: seq<int>, ghost line: int)
    returns (found: bool, filename: nat, description: nat, lineNumber: int)
    requires mem[..] == r && AssertStored(r, p, guid, line, file, text) && -0x8000_0000 <= line < 0x8000_0000
    ensures mem[..] == r
    ensures found <==> ReportsAssertion(CodeType, Value)
    ensures found ==> Recovers(r, filename, description, lineNumber, file, text,
                               if line < 0 then line + 0x1_0000_0000 else line)
  {
    found, filename, description, lineNumber := ReportStatusCodeExtractAssertInfo(mem, CodeType, Value, Some(p));
    assert mem[..] == r;
  }

  /** An assertion that the reporter has accepted is extracted again, if the status code reports one, as
      that of the drivers does for every class of software. */
  method ReportAndExtractAssert(mem: array<uint8>, Filename: nat, LineNumber: int, Description: nat, BufferSize: UINTN,
                                Buffer: nat, assertGuid: nat, CodeType: uint32, Value: uint32, ghost guid: seq<int>,
                                ghost m: seq<int>, ghost file: seq<int>, ghost text: seq<int>)
    returns (found: bool, filename: nat, description: nat, lineNumber: int)
    requires -0x8000_0000 <= LineNumber < 0x8000_0000
    requires mem[..] == m && Terminated(m, Filename) && Terminated(m, Description) && HoldsGuid(m, assertGuid, guid)
    requires Text(m, Filename) == file && Text(m, Description) == text
    requires TotalSize(|file|, |text|) <= BufferSize
    requires AssertFits(m, Filename, Description, Buffer, assertGuid)
    modifies mem
    ensures found <==> ReportsAssertion(CodeType, Value)
    ensures CodeType == 0x9000_0002 && Value % 0x1_0000 == 7 ==> found
    ensures found ==> Recovers(mem[..], filename, description, lineNumber, file, text,
                               if LineNumber < 0 then LineNumber + 0x1_0000_0000 else LineNumber)
    ensures AssertStored(mem[..], Buffer, guid, LineNumber, file, text)
  {
    ReportAssert(mem, Filename, LineNumber, Description, BufferSize, Buffer, assertGuid, guid, m, file, text);
    ghost var r := mem[..];
    DriverCodesAreAssertions(CodeType, Value);
    found, filename, description, lineNumber :=
      ExtractAssert(mem, CodeType, Value, Buffer, r, guid, file, text, LineNumber);
  }
}
