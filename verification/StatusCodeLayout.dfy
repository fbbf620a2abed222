/** Where the bytes of a status-code record are, with every offset and size written as a number. */
module StatusCodeLayout {
  import opened Machine
  import opened MathLib
  import opened Memory
  import opened Strings
  import opened HexString
  import opened StatusCode

  // ---------------------------------------------------------------- words, byte by byte

  ghost function Halfword(m: seq<int>, p: nat): int
    requires p + 2 <= |m|
  {
    m[p] + 0x100 * m[p + 1]
  }

  ghost function Fullword(m: seq<int>, p: nat): int
    requires p + 4 <= |m|
  {
    Halfword(m, p) + 0x1_0000 * Halfword(m, p + 2)
  }

  ghost function Longword(m: seq<int>, p: nat): int
    requires p + 8 <= |m|
  {
    Fullword(m, p) + 0x1_0000_0000 * Fullword(m, p + 4)
  }

  lemma LowHalfword(m: seq<int>, p: nat, n: nat)
    requires n >= 2 && p + n <= |m|
    ensures LittleEndianValue(m[p..p + n]) == Halfword(m, p) + 0x1_0000 * LittleEndianValue(m[p + 2..p + n])
  {
    var b := m[p..p + n];
    assert b[1..][1..] == m[p + 2..p + n];
    assert LittleEndianValue(b) == b[0] + 0x100 * LittleEndianValue(b[1..]);
    assert LittleEndianValue(b[1..]) == b[1] + 0x100 * LittleEndianValue(m[p + 2..p + n]);
  }

  lemma HalfwordStored(m: seq<int>, p: nat, v: uint16)
    requires p + 2 <= |m| && m[p..p + 2] == LittleEndian(v, 2)
    ensures Halfword(m, p) == v
  {
    assert Pow256(2) == 0x1_0000;
    LittleEndianRoundTrip(v, 2);
    LowHalfword(m, p, 2);
    assert m[p + 2..p + 2] == [];
  }

  lemma FullwordStored(m: seq<int>, p: nat, v: uint32)
    requires p + 4 <= |m| && m[p..p + 4] == LittleEndian(v, 4)
    ensures Fullword(m, p) == v
  {
    WordRoundTrips(v);
    LowHalfword(m, p, 4);
    LowHalfword(m, p + 2, 2);
    assert m[p + 4..p + 4] == [];
  }

  lemma LongwordStored(m: seq<int>, p: nat, v: uint64)
    requires p + 8 <= |m| && m[p..p + 8] == LittleEndian(v, 8)
    ensures Longword(m, p) == v
  {
    WordRoundTrips(v);
    LowHalfword(m, p, 8);
    LowHalfword(m, p + 2, 6);
    LowHalfword(m, p + 4, 4);
    LowHalfword(m, p + 6, 2);
    assert m[p + 8..p + 8] == [];
  }

  // ---------------------------------------------------------------- a debug record

  /** Twelve 64-bit words. */
  ghost predicate LongwordsAt(m: seq<int>, p: nat, args: seq<uint64>)
    requires 12 <= |args|
  {
    p + 96 <= |m| && forall i :: 0 <= i < 12 ==> Longword(m, p + 8 * i) == args[i]
  }

  /** The characters s and a terminator. */
  ghost predicate StringAt(m: seq<int>, p: nat, s: seq<int>) {
    p + |s| < |m| && m[p..p + |s|] == s && m[p + |s|] == 0
  }

  /** The record that a debug message leaves at p. The size that the caller gives, less the header, is
      the only trace of it. */
  ghost predicate DebugLayout(m: seq<int>, p: nat, bufferSize: UINTN, guid: seq<int>, level: int, args: seq<uint64>,
                              format: seq<int>)
    requires 12 <= |args|
  {
    && p + 121 <= |m|
    && Halfword(m, p) == 20 && Halfword(m, p + 2) == (bufferSize - 20) % 0x1_0000
    && m[p + 4..p + 20] == guid
    && Fullword(m, p + 20) == level
    && LongwordsAt(m, p + 24, args)
    && StringAt(m, p + 120, if |format| <= 79 then format else format[..79])
  }

  lemma HeaderLayout(m: seq<int>, p: nat, dataSize: uint16, guid: seq<int>)
    requires |guid| == 16 && p + 20 <= |m| && m[p..p + 20] == HeaderBytes(dataSize, guid)
    ensures Halfword(m, p) == 20 && Halfword(m, p + 2) == (dataSize - 20) % 0x1_0000 && m[p + 4..p + 20] == guid
  {
    var header, size := m[p..p + 20], (dataSize - 20) % 0x1_0000;
    assert header == LittleEndian(20, 2) + LittleEndian(size, 2) + guid;
    SliceOfSlice(m, p, p + 20, 0, 2);
    SliceOfSlice(m, p, p + 20, 2, 2);
    SliceOfSlice(m, p, p + 20, 4, 16);
    assert header[0..0 + 2] == LittleEndian(20, 2) && header[2..2 + 2] == LittleEndian(size, 2);
    assert header[4..4 + 16] == guid;
    HalfwordStored(m, p, 20);
    HalfwordStored(m, p + 2, size);
  }

  lemma {:induction false} DebugRecordSlices(guid: seq<int>, dataSize: uint16, level: UINTN, args: seq<uint64>,
                                             format: seq<int>)
    requires 12 <= |args| && |guid| == 16
    ensures
      var record := DebugRecord(guid, dataSize, level, args, format);
      && |record| == 121 + |Cut(format)|
      && record[0..20] == HeaderBytes(dataSize, guid) && record[20..24] == LittleEndian(level, 4)
      && record[24..120] == ArgumentBytes(args, 12) && record[120..] == Cut(format) + [0]
  {
  }

  lemma ArgumentsLayout(m: seq<int>, p: nat, args: seq<uint64>)
    requires 12 <= |args| && p + 96 <= |m| && m[p..p + 96] == ArgumentBytes(args, 12)
    ensures LongwordsAt(m, p, args)
  {
    forall i | 0 <= i < 12 ensures Longword(m, p + 8 * i) == args[i] {
      ArgumentStored(m, p, args, i);
      LongwordStored(m, p + 8 * i, args[i]);
    }
  }

  lemma StringStored(m: seq<int>, p: nat, s: seq<int>)
    requires p + |s| < |m| && m[p..p + (|s| + 1)] == s + [0]
    ensures StringAt(m, p, s)
  {
    var b := m[p..p + (|s| + 1)];
    assert m[p..p + |s|] == b[..|s|] && b[|s|] == m[p + |s|];
  }

  lemma SubtractThenCut(n: int)
    ensures (n % 0x1_0000 - 20) % 0x1_0000 == (n - 20) % 0x1_0000
  {
  }

  lemma DebugHeadLayout(m: seq<int>, p: nat, record: seq<int>, bufferSize: UINTN, guid: seq<int>, level: UINTN)
    requires |guid| == 16 && |record| >= 24 && p + |record| <= |m|
    requires record[0..20] == HeaderBytes(bufferSize % 0x1_0000, guid) && record[20..24] == LittleEndian(level, 4)
    ensures
      var r := Placed(m, p, record);
      && Halfword(r, p) == 20 && Halfword(r, p + 2) == (bufferSize - 20) % 0x1_0000
      && r[p + 4..p + 20] == guid && Fullword(r, p + 20) == level
  {
    BytesWithin(m, p, record, 0, 20);
    BytesWithin(m, p, record, 20, 4);
    HeaderLayout(Placed(m, p, record), p, bufferSize % 0x1_0000, guid);
    FullwordStored(Placed(m, p, record), p + 20, level);
    SubtractThenCut(bufferSize);
  }

  lemma {:induction false} DebugTailLayout(m: seq<int>, p: nat, record: seq<int>, args: seq<uint64>, text: seq<int>)
    requires 12 <= |args| && |record| == 121 + |text| && p + |record| <= |m|
    requires record[24..120] == ArgumentBytes(args, 12) && record[120..] == text + [0]
    ensures LongwordsAt(Placed(m, p, record), p + 24, args) && StringAt(Placed(m, p, record), p + 120, text)
  {
    BytesWithin(m, p, record, 24, 96);
    BytesWithin(m, p, record, 120, |text| + 1);
    ArgumentsLayout(Placed(m, p, record), p + 24, args);
    StringStored(Placed(m, p, record), p + 120, text);
  }

  lemma DebugRecordLayout(m: seq<int>, p: nat, bufferSize: UINTN, guid: seq<int>, level: UINTN, args: seq<uint64>,
                          format: seq<int>)
    requires 12 <= |args| && |guid| == 16
    requires p + |DebugRecord(guid, bufferSize % 0x1_0000, level, args, format)| <= |m|
    ensures DebugLayout(Placed(m, p, DebugRecord(guid, bufferSize % 0x1_0000, level, args, format)),
                        p, bufferSize, guid, level, args, format)
  {
    DebugRecordSlices(guid, bufferSize % 0x1_0000, level, args, format);
    DebugHeadLayout(m, p, DebugRecord(guid, bufferSize % 0x1_0000, level, args, format), bufferSize, guid, level);
    DebugTailLayout(m, p, DebugRecord(guid, bufferSize % 0x1_0000, level, args, format), args, Cut(format));
  }

  // ---------------------------------------------------------------- an assertion record

  /** The record that an assertion leaves at p. Bytes 20 to 39 and 44 to 51 are not written. */
  ghost predicate AssertLayout(m: seq<int>, p: nat, guid: seq<int>, line: int, file: seq<int>, description: seq<int>) {
    && p + 54 + |file| + |description| <= |m|
    && Halfword(m, p) == 20 && Halfword(m, p + 2) == (|file| + |description| + 12) % 0x1_0000
    && m[p + 4..p + 20] == guid
    && Fullword(m, p + 40) == (if line < 0 then line + 0x1_0000_0000 else line)
    && StringAt(m, p + 52, file) && StringAt(m, p + 53 + |file|, description)
  }

  lemma TwoStringsLayout(m: seq<int>, p: nat, file: seq<int>, description: seq<int>)
    requires p + |file| + |description| + 2 <= |m|
    ensures
      var r := Placed(m, p, TwoStrings(file, description));
      StringAt(r, p, file) && StringAt(r, p + 1 + |file|, description)
  {
    var strings := TwoStrings(file, description);
    BytesWithin(m, p, strings, 0, |file|);
    BytesWithin(m, p, strings, |file| + 1, |description|);
    assert strings[0..|file|] == file;
    assert strings[|file| + 1..|file| + 1 + |description|] == description;
  }

  /** The two subtractions of the header, and the cuts to 16 bits. */
  lemma SizeField(size: uint16, fileLength: nat, descriptionLength: nat)
    requires size == AssertDataSize(TotalSize(fileLength, descriptionLength))
    ensures (size - 20) % 0x1_0000 == (fileLength + descriptionLength + 12) % 0x1_0000
  {
    var n := fileLength + descriptionLength + 52;
    var total, q := n % 0x1_0000_0000, n / 0x1_0000_0000;
    var u, w := (total - 20) / 0x1_0000, (size - 20) / 0x1_0000;
    assert n == q * 0x1_0000_0000 + total && total - 20 == u * 0x1_0000 + size;
    QuotientIsUnique(n - 40, 0x1_0000, q * 0x1_0000 + u + w, (size - 20) % 0x1_0000);
  }

  /** Header, a word at 40 and bytes from 52 on, written one after the other. */
  lemma AssertPartsLayout(m: seq<int>, p: nat, header: seq<int>, number: seq<int>, strings: seq<int>)
    requires |header| == 20 && |number| == 4 && p + 52 + |strings| <= |m|
    ensures
      var r := Placed(Placed(Placed(m, p, header), p + 40, number), p + 52, strings);
      r[p..p + 20] == header && r[p + 40..p + 40 + 4] == number
  {
  }

  lemma AssertStepsLayout(m: seq<int>, p: nat, guid: seq<int>, line: int, file: seq<int>, description: seq<int>,
                          size: uint16, r: seq<int>)
    requires |guid| == 16 && -0x8000_0000 <= line < 0x8000_0000
    requires p + 54 + |file| + |description| <= |m|
    requires (size - 20) % 0x1_0000 == (|file| + |description| + 12) % 0x1_0000
    requires r == Placed(Placed(Placed(m, p, HeaderBytes(size, guid)), p + 40, LittleEndian(ToUint32(line), 4)),
                         p + 52, TwoStrings(file, description))
    ensures AssertLayout(r, p, guid, line, file, description)
  {
    var header, number := HeaderBytes(size, guid), LittleEndian(ToUint32(line), 4);
    AssertPartsLayout(m, p, header, number, TwoStrings(file, description));
    HeaderLayout(r, p, size, guid);
    FullwordStored(r, p + 40, ToUint32(line));
    TwoStringsLayout(Placed(Placed(m, p, header), p + 40, number), p + 52, file, description);
  }

  lemma AssertRecordLayout(m: seq<int>, p: nat, guid: seq<int>, line: int, file: seq<int>, description: seq<int>,
                           size: uint16)
    requires |guid| == 16 && -0x8000_0000 <= line < 0x8000_0000
    requires p + 54 + |file| + |description| <= |m|
    requires size == AssertDataSize(TotalSize(|file|, |description|))
    ensures AssertLayout(AssertRecord(m, p, guid, size, ToUint32(line), file, description),
                         p, guid, line, file, description)
  {
    SizeField(size, |file|, |description|);
    AssertStepsLayout(m, p, guid, line, file, description, size,
                      AssertRecord(m, p, guid, size, ToUint32(line), file, description));
  }
}
