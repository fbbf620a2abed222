# Verification of the Tiano common library

A model of the routines in `Foundation/Library/EfiCommonLib` and of the compiler's `memcpy`, with
proofs of what their callers rely on. `dafny verify dfyconfig.toml` checks everything.

The target is the 32-bit little-endian one (`Foundation/Include/Mips32/EfiBind.h`): `UINTN` has 32
bits, `CHAR8` and `CHAR16` are unsigned.

| module | source |
|---|---|
| `Machine` | integer widths, status codes |
| `LinkedList` | `LinkedList.c`: circular doubly linked lists with the head inside the ring |
| `MathLib` | `Math.c`: division and logarithms on 64-bit words |
| `Memory`, `CompareMem` | `EfiCopyMem.c`, `EfiCompareMem.c` and `memcpy.c` |
| `Strings`, `AsciiStrings`, `StringCompare`, `StringSearch`, `StringTrim`, `StringConvert`, `HexString`, `HexStringRoundTrip` | `String.c` |
| `ValueToString`, `ValueRoundTrip`, `ValueLayout` | `ValueToString.c` |
| `StatusCode`, `StatusCodeLayout`, `StatusCodeRoundTrip` | `ReportStatusCode.c` and `EfiCompareGuid.c` |

How the source appears:

- A list entry is a class with the two link fields. The caller's view of all lists that are alive is
  a ghost map from heads to sequences; `WellFormed` says that the links in memory (the ghost set
  `arena`) are exactly these rings. Each operation is proved against a function on that map, so an
  operation that touched another ring, or lost an entry, would fail its contract.
- Wherever buffers may overlap, memory is one array and a pointer is an offset into it. A contract
  gives the whole memory afterwards as a function of the memory before.
- Long routines are split into one method per phase (skip, shift, cut; digits, padding, reversal;
  head, arguments, strings), called in the order of the source. Each ends in the state named in its
  contract, and the row cites the lines it covers. Where the padding and reversal code occurs twice
  (`EfiValueToHexStr`, `EfiValueToString`), one pair of methods stands for both.
- `ValueLayout` and `StatusCodeLayout` describe printed numbers and records a second time, character by
  character and byte by byte, with flag bits, offsets and characters written as numbers; nothing there
  rests on the helper functions that routines and contracts share.
- Ghost parameters (`lists`, `arena`, the digit count `n`, ...) tell a contract what
  the caller already knows and do not exist at run time.

Where the code and its comments differ, the model follows the code, and a lemma says exactly when the
comment is met:

- `SwapListEntries` exchanges its two entries only when they are neighbours, and destroys the list when
  they are neighbours in the other order (`SwapExchangesExactlyNeighbours`, `SwapBreaksNeighbours`).
- `DivU64x32` divides only the low 32 bits (`QuotientIsRightExactlyBelow32Bits`), and so
  `EfiValueToString` prints magnitudes modulo 2^32 (`DecimalRoundTrip`). For the smallest `INT64` the
  negation is taken to wrap around, as on the target; the magnitude is then 2^63.
- `GetPowerOfTwo` may return its operand, although the comment says "less than" (`LargestPowerOfTwo`).
- `BufToHexString` documents a length in bytes, and counts characters; its test also accepts a length
  of zero. `SizeTestInBytes` and `AcceptedCallOverrunsExactly` list exactly the documented sizes that
  are accepted and too small; the size handed back for a retry is always one of them
  (`RetryPassesAndOverruns`).
- `EfiDebugAssertWorker` counts neither string terminator (`SizeTestMissesTheTerminators`).
- `EfiStrCpy` does not end when the destination lies inside the source string
  (`OverlappingCopyNeverEnds`); its contract therefore excludes that.

## Model

| member | source | states |
|---|---|---|
| `LinkedList.InitializeListHead` | Foundation/Library/EfiCommonLib/LinkedList.c:49-52 | the head becomes the head of an empty list; every other live list, and the memory of every other entry, is as it was |
| `LinkedList.IsListEmpty` | Foundation/Library/EfiCommonLib/LinkedList.c:77-79 | true exactly when the list of that head has no element |
| `LinkedList.RemoveEntryList` | Foundation/Library/EfiCommonLib/LinkedList.c:103-116 | without being told the list: memory holds the same lists with the entry taken out of whichever list it was in; one forward link and one back link change, in its two neighbours |
| `LinkedList.InsertTailList` | Foundation/Library/EfiCommonLib/LinkedList.c:142-152 | the entry becomes the last element of that list, all other lists stay; which link fields change |
| `LinkedList.InsertHeadList` | Foundation/Library/EfiCommonLib/LinkedList.c:179-189 | the entry becomes the first element of that list, all other lists stay; which link fields change |
| `LinkedList.SwapListEntries` | Foundation/Library/EfiCommonLib/LinkedList.c:215-231 | the six updates leave lists with the same heads in memory, any lists at all, if and only if the two entries differ and Entry2 is not directly in front of Entry1 already, in one list or across two; then Entry2 has moved in front of Entry1, otherwise Entry2 is left linked to itself; at most three forward and three back links change |
| `LinkedList.SwapMeaning` | Foundation/Library/EfiCommonLib/LinkedList.c:215-231 | the same if-and-only-if on link values, for every aliasing of the entries and their neighbours |
| `LinkedList.SwapKeepsRings` | Foundation/Library/EfiCommonLib/LinkedList.c:215-231 | in the permitted cases the rewritten links are again disjoint rings, with Entry2 in front of Entry1 |
| `LinkedList.SwapBreaksNeighbours` | Foundation/Library/EfiCommonLib/LinkedList.c:225-230 | with Entry2 directly in front of Entry1, Entry2 ends up linked to itself, and no lists whatever with the head of its list are consistent with the links |
| `LinkedList.MovedNowhere` | Foundation/Library/EfiCommonLib/LinkedList.c:200-208 | in that case the documented result would be the lists as they were |
| `LinkedList.SwapBreaksSelf` | Foundation/Library/EfiCommonLib/LinkedList.c:225-230 | swapping an entry with itself leaves it linked to itself, and no lists whatever with the head of its list are consistent with the links |
| `LinkedList.SwapOnSequence` | Foundation/Library/EfiCommonLib/LinkedList.c:200-208 | for positions i < j the new sequence is s[..i] + [s[j]] + s[i..j] + s[j+1..] |
| `LinkedList.SwapExchangesExactlyNeighbours` | Foundation/Library/EfiCommonLib/LinkedList.c:200-208 | the documented exchange of two elements happens if and only if they are neighbours; otherwise Entry2 only moves |
| `LinkedList.SwapMovesOnlyEntry2` | Foundation/Library/EfiCommonLib/LinkedList.c:200-208 | apart from Entry2 every list reads as before, and Entry2 is still in a list |
| `LinkedList.UnlinkAt` | Foundation/Library/EfiCommonLib/LinkedList.c:107-110 | two link updates around position k take that element out of one ring and keep every other ring |
| `LinkedList.LinkAt` | Foundation/Library/EfiCommonLib/LinkedList.c:147-151 | four link updates put a fresh entry at position k of one ring and keep every other ring |
| `LinkedList.ResetHead` | Foundation/Library/EfiCommonLib/LinkedList.c:50-51 | a head pointed at itself is an empty ring and no other ring notices |
| `LinkedList.RemovedAt` | Foundation/Library/EfiCommonLib/LinkedList.c:103-116 | removal by entry changes the one sequence that holds it, at the one position |
| `LinkedList.RemoveUndoesInsert` | Foundation/Library/EfiCommonLib/LinkedList.c:103-189 | removing a fresh entry after inserting it anywhere gives back all lists |
| `LinkedList.GetFirstNode` | Foundation/Library/EfiCommonLib/LinkedList.c:258-260 | the first element, or the head when the list is empty |
| `LinkedList.GetNextNode` | Foundation/Library/EfiCommonLib/LinkedList.c:289-294 | the next element, the head behind the last one, and the head behind the head |
| `LinkedList.NullIsPastTheEnd` | Foundation/Library/EfiCommonLib/LinkedList.c:304-306 | on the walk over a list, the node is "null" exactly behind the last element |
| `LinkedList.IsNodeAtEnd` | Foundation/Library/EfiCommonLib/LinkedList.c:351-356 | true exactly for the last element; false for the head, also of an empty list |
| `LinkedList.Walk` | Foundation/Library/EfiCommonLib/LinkedList.c:234-356 | the walk from GetFirstNode with GetNextNode until IsNull ends, meets every element once and in order, and IsNodeAtEnd holds at the last one met only |
| `LinkedList.LinksDetermineLists` | Foundation/Library/EfiCommonLib/LinkedList.c:35-37 | memory holds at most one collection of lists with given heads |
| `LinkedList.RingFollowsLinks` | Foundation/Library/EfiCommonLib/LinkedList.c:234-294 | two rings with the same head and the same forward links meet the same entries |
| `LinkedList.NoListsAtDeadEnd` | Foundation/Library/EfiCommonLib/LinkedList.c:225-230 | when the walk from a head reaches an entry that its successor does not link back to, no lists with that head are in memory |
| `LinkedList.Step` | Foundation/Library/EfiCommonLib/LinkedList.c:49-231 | each permitted operation keeps all rings well formed and refines its meaning on sequences |
| `LinkedList.Run` | Foundation/Library/EfiCommonLib/LinkedList.c:49-231 | after every finite permitted run over any number of heads, memory holds exactly the lists that the run yields on plain sequences |
| `MathLib.RShiftU64` | Foundation/Library/EfiCommonLib/Math.c:101-103 | the shifted word is the operand rounded down to a multiple of 2^count |
| `MathLib.DivU64x32` | Foundation/Library/EfiCommonLib/Math.c:130-138 | quotient and remainder of the dividend modulo 2^32 |
| `MathLib.QuotientIsRightExactlyBelow32Bits` | Foundation/Library/EfiCommonLib/Math.c:115-137 | the documented 64-bit quotient comes out if and only if the dividend is below 2^32 |
| `MathLib.Log2` | Foundation/Library/EfiCommonLib/Math.c:160-174 | the position of the highest bit set, 0xFF for zero |
| `MathLib.HighestBitIsUnique` | Foundation/Library/EfiCommonLib/Math.c:148-151 | only one position satisfies 2^r <= operand < 2^(r+1) |
| `MathLib.GetPowerOfTwo` | Foundation/Library/EfiCommonLib/Math.c:197-218 | two to the logarithm of the operand, zero for zero; no shift leaves 64 bits |
| `MathLib.LargestPowerOfTwo` | Foundation/Library/EfiCommonLib/Math.c:184-194 | a power of two is at most the operand if and only if it is at most the result; the documented "less than" is met if and only if the operand is no power of two |
| `Memory.EfiCommonLibCopyMem` | Foundation/Library/EfiCommonLib/EfiCopyMem.c:52-69 | every destination byte is the old source byte and every other byte is unchanged, for every overlap, in both loop directions |
| `Memory.memcpy` | Foundation/Library/CompilerStub/memcpy.c:36-45 | the exact memory for every overlap: byte i of the destination is the old source byte at i modulo (Dest - Src) when Src < Dest; returns Dest |
| `Memory.SmearOneMore` | Foundation/Library/CompilerStub/memcpy.c:40-42 | one more byte of a forward copy, read from memory as the copy has left it |
| `Memory.MemcpyAgreesExactlyWithoutForwardOverlap` | Foundation/Library/CompilerStub/memcpy.c:40-42 | memcpy and EfiCommonLibCopyMem leave the same memory, whatever it held, if and only if Dest <= Src or the ranges do not overlap |
| `CompareMem.EfiCompareMem` | Foundation/Library/EfiCommonLib/EfiCompareMem.c:52-77 | with or without the word loop the result is the difference of the first two differing bytes, zero if there are none; the length never drops below zero |
| `CompareMem.WordsDiffer` | Foundation/Library/EfiCommonLib/EfiCompareMem.c:60-62 | a word comparison decides about four bytes |
| `CompareMem.WordEqualIsFourBytesEqual` | Foundation/Library/EfiCommonLib/EfiCompareMem.c:60-62 | two words are equal if and only if their four bytes are |
| `CompareMem.DifferenceFromIsDifference` | Foundation/Library/EfiCommonLib/EfiCompareMem.c:69-76 | the value read off memory is a function of the two byte sequences alone |
| `CompareMem.ZeroExactlyWhenEqual` | Foundation/Library/EfiCommonLib/EfiCompareMem.c:37-49 | zero if and only if all bytes agree |
| `CompareMem.Antisymmetric` | Foundation/Library/EfiCommonLib/EfiCompareMem.c:69-76 | exchanging the buffers negates the result |
| `CompareMem.Transitive` | Foundation/Library/EfiCommonLib/EfiCompareMem.c:69-76 | the sign is transitive, for either signedness of char |
| `CompareMem.SignIsUnsignedOrderExactlyOnSameTopBit` | Foundation/Library/EfiCommonLib/EfiCompareMem.c:70 | read as signed bytes, the sign is the unsigned order if and only if the first differing bytes have the same top bit |
| `CompareMem.ValueAtFirstDifference` | Foundation/Library/EfiCommonLib/EfiCompareMem.c:70 | the result is the difference of the first two differing bytes, each read as an unsigned number or as an eight-bit two's complement |
| `Strings.EfiStrLen` | Foundation/Library/EfiCommonLib/String.c:103-108 | the number of characters in front of the first zero |
| `Strings.EfiStrCpy` | Foundation/Library/EfiCommonLib/String.c:44-49 | source and terminator arrive at the destination, also overlapping from above; all else unchanged |
| `Strings.CopiedText` | Foundation/Library/EfiCommonLib/String.c:34-38 | the destination then denotes the source string |
| `Strings.OverlappingCopyNeverEnds` | Foundation/Library/EfiCommonLib/String.c:45-47 | with the destination inside the source string no number of steps of the loop ever reaches a terminator |
| `Strings.EfiStrCat` | Foundation/Library/EfiCommonLib/String.c:225-227 | the source is copied to the terminator of the destination; all else unchanged |
| `Strings.AppendedText` | Foundation/Library/EfiCommonLib/String.c:215-219 | the destination then denotes the concatenation |
| `Strings.EfiStrnCpy` | Foundation/Library/EfiCommonLib/String.c:70-84 | the exact memory: at most Length characters, zeros up to Length, nothing else, for every overlap and also when SrcLen exceeds Length |
| `Strings.BoundedCopyCells` | Foundation/Library/EfiCommonLib/String.c:76-83 | cell by cell, whenever the copy does not run into its own output |
| `Strings.EfiStrnCat` | Foundation/Library/EfiCommonLib/String.c:248-250 | the bounded copy at the terminator of the destination |
| `Strings.BoundedAppendOfShort` | Foundation/Library/EfiCommonLib/String.c:248-250 | a source shorter than Length gives the concatenation, terminated and zero-padded through Length |
| `Strings.BoundedAppendOfLong` | Foundation/Library/EfiCommonLib/String.c:248-250 | any other source gives exactly Length characters, no terminator, and nothing behind them changes |
| `Strings.AnyZeroTerminates` | Foundation/Library/EfiCommonLib/String.c:106 | a pointer denotes a string as soon as any zero follows it |
| `AsciiStrings.EfiAsciiStrLen` | Foundation/Library/EfiCommonLib/String.c:269-274 | the number of characters in front of the first zero |
| `AsciiStrings.EfiAsciiStrCpy` | Foundation/Library/EfiCommonLib/String.c:295-301 | the string and its terminator are placed at the destination; returns the position just past the terminator |
| `StringCompare.EfiStrCmp` | Foundation/Library/EfiCommonLib/String.c:154-165 | the difference of the first two differing characters of the two strings |
| `StringCompare.CompareAtIsCompare` | Foundation/Library/EfiCommonLib/String.c:154-165 | which is a function of the two texts alone |
| `StringCompare.SignIsLexicographic` | Foundation/Library/EfiCommonLib/String.c:149-151 | negative if and only if the first string is a proper prefix of the second or has the smaller character at the first difference |
| `StringCompare.ValueWhereTheyPart` | Foundation/Library/EfiCommonLib/String.c:164 | the value is the difference of the first two differing characters, the end of a string counting as zero |
| `StringCompare.ZeroExactlyWhenEqual` | Foundation/Library/EfiCommonLib/String.c:149-151 | zero if and only if the strings are equal |
| `StringCompare.Antisymmetric` | Foundation/Library/EfiCommonLib/String.c:154-165 | exchanging the strings negates the result |
| `StringCompare.Transitive` | Foundation/Library/EfiCommonLib/String.c:154-165 | the order is transitive |
| `StringCompare.EfiStrnCmp` | Foundation/Library/EfiCommonLib/String.c:195-205 | the bounded loop, for strings that may lack a terminator within Length |
| `StringCompare.BoundedCompareCutsBoth` | Foundation/Library/EfiCommonLib/String.c:176-192 | it equals the unbounded comparison of both strings cut to Length |
| `StringCompare.CutTextIsPrefix` | Foundation/Library/EfiCommonLib/String.c:176-192 | the cut of a terminated string is its prefix of at most Length characters |
| `StringSearch.EfiStrStr` | Foundation/Library/EfiCommonLib/String.c:766-784 | ends, and returns the first position where the pattern occurs, or NULL exactly when it occurs nowhere; the empty pattern occurs at the start |
| `StringSearch.OccurrenceInText` | Foundation/Library/EfiCommonLib/String.c:763-764 | occurrence in memory is: the pattern is a prefix of the rest of the text |
| `StringTrim.EfiStrTrim` | Foundation/Library/EfiCommonLib/String.c:709-746 | the string at str becomes the trimmed string, in place, terminated, with nothing outside the old string changed |
| `StringTrim.SkipLeading` | Foundation/Library/EfiCommonLib/String.c:720-722 | finds the first character that is not CharC, or the terminator |
| `StringTrim.TrimLeading` | Foundation/Library/EfiCommonLib/String.c:724-737 | the first phase removes exactly the leading characters, shifting or not |
| `StringTrim.TrimTrailing` | Foundation/Library/EfiCommonLib/String.c:740-745 | the second phase removes exactly the trailing characters |
| `StringTrim.CoreIsTrim` | Foundation/Library/EfiCommonLib/String.c:698-703 | any stretch with only CharC around it and none at its two ends is the trimmed string: it is unique |
| `StringTrim.TrimIsLongest` | Foundation/Library/EfiCommonLib/String.c:698-703 | every stretch whose end characters differ from CharC lies inside the trimmed string |
| `StringTrim.TrimIsIdempotent` | Foundation/Library/EfiCommonLib/String.c:698-703 | trimming again changes nothing |
| `StringConvert.EfiAsciiStrToUnicodeStr` | Foundation/Library/EfiCommonLib/String.c:846-858 | every character and the terminator arrive; returns the start of the destination |
| `StringConvert.EfiUnicodeStrToAsciiStr` | Foundation/Library/EfiCommonLib/String.c:882-894 | the low bytes of every character and the terminator arrive; returns the start of the destination |
| `StringConvert.WidenedText` | Foundation/Library/EfiCommonLib/String.c:835-836 | widening keeps every string |
| `StringConvert.NarrowedText` | Foundation/Library/EfiCommonLib/String.c:871-872 | narrowing keeps the string if and only if every character is below 256 |
| `StringConvert.NarrowedCell` | Foundation/Library/EfiCommonLib/String.c:888 | a character keeps its low byte and loses its high byte |
| `StringConvert.NarrowedTextEnds` | Foundation/Library/EfiCommonLib/String.c:887-891 | what can be read afterwards ends at the first character whose low byte is zero |
| `StringConvert.AsciiRoundTrip` | Foundation/Library/EfiCommonLib/String.c:846-894 | narrowing undoes widening for every string |
| `HexString.HexDigitIsPlace` | Foundation/Library/EfiCommonLib/String.c:501-518 | the digit characters are the 22 of the two tables and no others, and the value of one is its place in its table |
| `HexString.NibbleIsTableEntry` | Foundation/Library/EfiCommonLib/ValueToString.c:26-27 | the character printed for a nibble is its entry in the table of upper-case digits |
| `HexString.NibbleToHexChar` | Foundation/Library/EfiCommonLib/String.c:536-543 | the character whose digit value is the low nibble |
| `HexString.NibbleOfDigit` | Foundation/Library/EfiCommonLib/String.c:501-543 | printing the value of a digit character gives it in upper case |
| `HexString.HexStringToBuf` | Foundation/Library/EfiCommonLib/String.c:574-629 | the bytes of the digit prefix at the low end of the buffer, all else unchanged; no digits: success with length zero; too small: nothing written, and the size to retry with |
| `HexString.CountDigits` | Foundation/Library/EfiCommonLib/String.c:584 | counts the digits in front of the first other character |
| `HexString.StoreNibble` | Foundation/Library/EfiCommonLib/String.c:613-621 | one more digit, into the low or the high half of its byte |
| `HexString.ConvertDigits` | Foundation/Library/EfiCommonLib/String.c:605-622 | the conversion loop ends with the bytes of all digits at the low end of the buffer, and nothing else changed |
| `HexString.StringHasRun` | Foundation/Library/EfiCommonLib/String.c:584 | in a terminated string the digit prefix ends at the terminator at the latest |
| `HexString.BytesKeepValue` | Foundation/Library/EfiCommonLib/String.c:605-622 | the buffer read little-endian has the value of the digits read from the most significant one, for odd and even counts |
| `HexString.BufToHexString` | Foundation/Library/EfiCommonLib/String.c:657-687 | on success two digits a byte, the last byte first, with a terminator, and nothing else changed; on refusal nothing written, and the size to retry with |
| `HexString.WriteDigits` | Foundation/Library/EfiCommonLib/String.c:677-684 | the terminator and the digits, from the last one back |
| `HexString.SizeTestInBytes` | Foundation/Library/EfiCommonLib/String.c:645-671 | the size is documented in bytes: the test accepts a size although the text does not fit if and only if it is zero, or from 2 * Len + 1 up to 4 * Len + 1, or (Len at least 2^31) at least the wrapped character count; it never refuses a size that is enough |
| `HexString.ThreeBytesPassForOneByte` | Foundation/Library/EfiCommonLib/String.c:645-671 | an input that shows it: three bytes are accepted for the six that one byte takes |
| `HexString.AcceptedCallOverrunsExactly` | Foundation/Library/EfiCommonLib/String.c:667-684 | for every buffer, the call is accepted and writes beyond the given bytes, for some contents of memory, if and only if the size is one of these |
| `HexString.TextStaysInBytesExactly` | Foundation/Library/EfiCommonLib/String.c:677-684 | printing stays inside n bytes, whatever memory holds, if and only if n is at least twice the characters including the terminator |
| `HexString.SizeTestInCharacters` | Foundation/Library/EfiCommonLib/String.c:667-671 | read as a number of characters, the test is right if and only if the size is not zero and 2 * Len does not wrap into range |
| `HexString.RetryPassesAndOverruns` | Foundation/Library/EfiCommonLib/String.c:667-671 | a retry with the size handed back is never refused, and in bytes that size is never enough |
| `HexString.BytesOfNibbles` | Foundation/Library/EfiCommonLib/String.c:605-684 | the bytes of the digits of a buffer are the buffer |
| `HexString.NibblesOfBytes` | Foundation/Library/EfiCommonLib/String.c:605-684 | the digits of the bytes of a digit sequence are that sequence, with a zero in front if its length is odd |
| `HexString.ParsingUndoesPrinting` | Foundation/Library/EfiCommonLib/String.c:545-687 | HexStringToBuf after BufToHexString is the identity on every buffer |
| `HexString.PrintingUndoesParsing` | Foundation/Library/EfiCommonLib/String.c:545-687 | BufToHexString after HexStringToBuf gives the digit prefix in upper case, with one leading 0 when the count is odd |
| `ValueToString.EfiValueToHexStr` | Foundation/Library/EfiCommonLib/ValueToString.c:57-112 | the buffer starts with the text HexStr and a terminator, nothing behind it changes, and its length is returned; the temporary buffer is never overrun |
| `ValueLayout.HexLayout` | Foundation/Library/EfiCommonLib/ValueToString.c:72-111 | that text, character by character: the upper-case digits of the one numeral of Value without leading zeros; with w the width or 29 at most, the last w of more than w digits; otherwise, unless w is zero or bit 0x01 is set, exactly w characters with zeros in front if bit 0x20 is set and blanks if not |
| `ValueLayout.BufferHoldsHexText` | Foundation/Library/EfiCommonLib/ValueToString.c:104-111 | the buffer then holds a string, and it is that text |
| `ValueToString.EfiValueToString` | Foundation/Library/EfiCommonLib/ValueToString.c:143-214 | the same for the text DecimalStr |
| `ValueLayout.DecimalLayout` | Foundation/Library/EfiCommonLib/ValueToString.c:154-213 | that text, character by character: a minus sign if the value is negative, and the digits of the one numeral of the absolute value modulo 2^32, with a comma at every fourth place from the right if bit 0x08 is set; cut and padded like a hexadecimal text, but never with zeros when negative |
| `ValueLayout.NoCommasAndOnlyBlanksInFront` | Foundation/Library/EfiCommonLib/ValueToString.c:174-198 | without bit 0x08 there are no commas, and only blanks stand in front of a minus sign |
| `ValueLayout.BufferHoldsDecimalText` | Foundation/Library/EfiCommonLib/ValueToString.c:206-213 | the buffer then holds a string, and it is that text |
| `ValueLayout.NumeralIsUnique` | Foundation/Library/EfiCommonLib/ValueToString.c:169-180 | a number has only one numeral without leading zeros, in any base |
| `ValueToString.HexToTemp` | Foundation/Library/EfiCommonLib/ValueToString.c:78-83 | the digit loop ends after at most sixteen digits, least significant first |
| `ValueToString.LastHexDigit` | Foundation/Library/EfiCommonLib/ValueToString.c:79-81 | each shift moves the last digit of the number over to the printed ones |
| `ValueToString.PadTemp` | Foundation/Library/EfiCommonLib/ValueToString.c:91-96 | the padding loop, on the reversed text |
| `ValueToString.CutAndReverse` | Foundation/Library/EfiCommonLib/ValueToString.c:101-111 | cutting the reversed text and reversing it keeps the last Width characters |
| `ValueToString.PushDigit` | Foundation/Library/EfiCommonLib/ValueToString.c:171-179 | one digit, and the comma when a multiple of three digits is out and more follow |
| `ValueToString.DecimalToTemp` | Foundation/Library/EfiCommonLib/ValueToString.c:169-180 | the digit loop ends after at most ten digits and prints the low 32 bits of the magnitude |
| `ValueToString.LastDigit` | Foundation/Library/EfiCommonLib/ValueToString.c:170-173 | each division moves the last digit of the number over to the printed ones |
| `ValueRoundTrip.HexRoundTrip` | Foundation/Library/EfiCommonLib/ValueToString.c:65-111 | what EfiValueToHexStr prints without blank padding, HexStringToBuf converts to a buffer with little-endian value Value mod 16^Width, or Value when Width is zero, for every 64-bit value and clamped width |
| `HexStringRoundTrip.PrintAndConvertValue` | Foundation/Library/EfiCommonLib/ValueToString.c:57-112 | the two routines one after the other on the same array: the buffer holds Value, or Value mod 16^Width |
| `HexStringRoundTrip.PrintAndConvert` | Foundation/Library/EfiCommonLib/String.c:574-687 | BufToHexString and then HexStringToBuf give the buffer back |
| `HexStringRoundTrip.ConvertAndPrint` | Foundation/Library/EfiCommonLib/String.c:574-687 | HexStringToBuf and then BufToHexString give the digits in upper case, with one leading 0 when their count is odd, and a terminator |
| `ValueRoundTrip.EnoughWidthLosesNothing` | Foundation/Library/EfiCommonLib/ValueToString.c:101-103 | a width of at least the digit count keeps Value itself |
| `ValueRoundTrip.LastDigitsValue` | Foundation/Library/EfiCommonLib/ValueToString.c:101-103 | cutting digits to the last w is taking the value modulo 16^w |
| `ValueRoundTrip.BlankPaddingHidesTheValue` | Foundation/Library/EfiCommonLib/ValueToString.c:85-96 | with blank padding the conversion stops before the first digit: the condition in HexRoundTrip is needed |
| `ValueRoundTrip.DecimalRoundTrip` | Foundation/Library/EfiCommonLib/ValueToString.c:143-214 | an uncut text, read without padding and commas, is the sign with the absolute value modulo 2^32, and is Value itself if and only if Value lies strictly between -2^32 and 2^32 |
| `ValueRoundTrip.CutKeepsTheEnd` | Foundation/Library/EfiCommonLib/ValueToString.c:203-205 | a narrower width keeps exactly the last Width characters, and the sign is lost |
| `ValueRoundTrip.CommasEveryThreeDigits` | Foundation/Library/EfiCommonLib/ValueToString.c:174-179 | with commas, the characters at positions 3, 7, 11, ... from the right are commas and no others are; the length |
| `StatusCode.EfiConstructStatusCodeData` | Foundation/Library/EfiCommonLib/ReportStatusCode.c:51-57 | memory after the header size, the data size (minus the header, modulo 2^16) and then the type have been written, wherever the type lies; returns the position behind the header |
| `StatusCode.HeaderInPlace` | Foundation/Library/EfiCommonLib/ReportStatusCode.c:52-54 | a type that lies outside the header is copied faithfully, and nothing outside the header changes |
| `StatusCode.EfiDebugVPrintWorker` | Foundation/Library/EfiCommonLib/ReportStatusCode.c:98-148 | memory after header, level modulo 2^32, twelve argument words, the format cut to what fits, and a terminator have been written in this order, wherever type and format lie |
| `StatusCode.DebugRecordInPlace` | Foundation/Library/EfiCommonLib/ReportStatusCode.c:113-145 | a type outside the header and a format outside the fixed part end up in one record at Buffer, and nothing else changes |
| `StatusCode.DebugRecord` | Foundation/Library/EfiCommonLib/ReportStatusCode.c:136-145 | the record never exceeds the maximal 200 bytes, whatever the format |
| `StatusCode.CutIsWhatFits` | Foundation/Library/EfiCommonLib/ReportStatusCode.c:136-143 | the record keeps the whole format if and only if it fits into 200 bytes with its terminator; otherwise it keeps a prefix that fills the 200 bytes |
| `StatusCode.StoreArguments` | Foundation/Library/EfiCommonLib/ReportStatusCode.c:128-130 | twelve 64-bit words in order |
| `StatusCode.StoreFixedPart` | Foundation/Library/EfiCommonLib/ReportStatusCode.c:113-130 | header, error level and arguments, in this order |
| `StatusCode.FixedPartInPlace` | Foundation/Library/EfiCommonLib/ReportStatusCode.c:113-130 | they make up the first 120 bytes, and nothing else changes |
| `StatusCode.AppendFormat` | Foundation/Library/EfiCommonLib/ReportStatusCode.c:136-145 | the cut format and its terminator at the given place, for every overlap of the two |
| `StatusCode.EfiCompareGuid` | Foundation/Library/EfiCommonLib/EfiCompareGuid.c:47-59 | true exactly when all sixteen bytes agree |
| `StatusCode.ReportStatusCodeExtractDebugInfo` | Foundation/Library/EfiCommonLib/ReportStatusCode.c:319-338 | succeeds if and only if there is a record and its type is the debug type; the level, and where arguments and format are |
| `StatusCode.DebugRoundTrip` | Foundation/Library/EfiCommonLib/ReportStatusCode.c:113-147 | every written debug record is recognised and gives back the error level, the same twelve words and the format cut to the remaining length |
| `StatusCode.WordRoundTrips` | Foundation/Library/EfiCommonLib/ReportStatusCode.c:122-129 | a stored 32-bit or 64-bit word reads back as itself |
| `StatusCode.EfiDebugAssertWorker` | Foundation/Library/EfiCommonLib/ReportStatusCode.c:190-229 | refused if and only if the computed size exceeds the given one, with nothing written; otherwise memory after header, line number, file name and description have been written in this order, wherever type and strings lie |
| `StatusCode.AssertRecordInPlace` | Foundation/Library/EfiCommonLib/ReportStatusCode.c:207-227 | a type and strings outside the record end up in it as they were, the fields that are not written stay, and nothing else changes |
| `StatusCode.AppendTwoStrings` | Foundation/Library/EfiCommonLib/ReportStatusCode.c:222-227 | the file name and, right behind its terminator, the description as it then is |
| `StatusCode.TwoStringsInPlace` | Foundation/Library/EfiCommonLib/ReportStatusCode.c:222-227 | strings that lie elsewhere are copied as they were |
| `StatusCode.SizeTestMissesTheTerminators` | Foundation/Library/EfiCommonLib/ReportStatusCode.c:198-202 | the size test counts neither terminator: it accepts a buffer that is too small if and only if exactly one or two bytes are missing, or the sum of the lengths has wrapped around and the size reaches what is left of it |
| `StatusCode.RecordStaysInsideExactly` | Foundation/Library/EfiCommonLib/ReportStatusCode.c:217-227 | writing the record stays inside n bytes, whatever memory holds, if and only if n covers both terminators |
| `StatusCode.ReportStatusCodeExtractAssertInfo` | Foundation/Library/EfiCommonLib/ReportStatusCode.c:264-289 | succeeds if and only if there is a record, the code type is 0x90000002 but for the 16 bits in the middle, and the value is 7 but for its upper half (the record type is not looked at); where file name, description and line number are found |
| `StatusCode.MasksFindAssertions` | Foundation/Library/EfiCommonLib/ReportStatusCode.c:267-274 | the three masks single out exactly these words |
| `StatusCode.AssertRoundTrip` | Foundation/Library/EfiCommonLib/ReportStatusCode.c:191-288 | the extractor finds exactly the line number, file name and description that were packed |
| `StatusCodeRoundTrip.ReportAndExtractDebug` | Foundation/Library/EfiCommonLib/ReportStatusCode.c:98-338 | the two routines one after the other on the same memory: the message is always found, level and twelve words are those reported, the format is whole if it fits and fills the record if not; and every byte of the record is where DebugLayout says |
| `StatusCodeRoundTrip.DebugReadBack` | Foundation/Library/EfiCommonLib/ReportStatusCode.c:113-337 | the type in memory is still there after the record is written, and the places the extractor computes lead to what was reported |
| `StatusCodeRoundTrip.ReportAndExtractAssert` | Foundation/Library/EfiCommonLib/ReportStatusCode.c:190-289 | the same for an accepted assertion: found if and only if the status code reports one, as the code 0x90000002 with any value ending in 7 does; then with its file name, its description and its line number as an unsigned word |
| `StatusCodeLayout.DebugRecordLayout` | Foundation/Library/EfiCommonLib/ReportStatusCode.c:51-145 | with all offsets as numbers: 20 and the given size less 20 in the first two halfwords, the type at 4, the level at 20, the words at 24 and the format, cut to 79 characters, at 120 |
| `StatusCodeLayout.AssertRecordLayout` | Foundation/Library/EfiCommonLib/ReportStatusCode.c:51-227 | with all offsets as numbers: 20 and the sum of the lengths plus 12 in the first two halfwords, the type at 4, the line number at 40, the file name at 52 and the description behind its terminator |
| `StatusCodeLayout.SizeField` | Foundation/Library/EfiCommonLib/ReportStatusCode.c:53-209 | the size field holds the sum of the lengths plus 12 modulo 2^16, also when the total has wrapped around |
| `StatusCodeLayout.LongwordStored` | Foundation/Library/EfiCommonLib/ReportStatusCode.c:129 | a stored 64-bit word, byte by byte |
| `StatusCodeRoundTrip.AssertReadBack` | Foundation/Library/EfiCommonLib/ReportStatusCode.c:217-284 | the description is found behind the terminator of the file name |
| `StatusCode.AssertRecordIsNoDebugRecord` | Foundation/Library/EfiCommonLib/ReportStatusCode.c:322-324 | an assertion record is never taken for a debug record |

## Left out

- Debug builds overwrite the two links of a removed entry with a bad-pointer pattern (`LinkedList.c:112-115`); this configuration is not modelled.
- The CHAR8 forms of the compare, search, bounded-copy and append routines: the same text as the CHAR16 forms, on cells that are unsigned too. Only the two that status-code records use are repeated.
- `EfiStrSize`, `EfiAsciiStrSize`, `LShiftU64`, `MultU64x32`, `EfiSetMem`, `EfiZeroMem`, `memset`: one expression or one store loop each.
- `Misc.c` and `PostCode.c` (port and PCI access through services that are not shown) and `CustomizedDecompress.c` (always unsupported).
- Protocol, GUID and device headers: layouts without behaviour.
- Pointers are offsets and lengths are bounded by the memory they lie in, so pointer arithmetic does not wrap around and no memory is larger than the address space; `volatile` and typed access to misaligned words are not modelled. Where an unsigned computation on lengths can wrap (`BufToHexString`, `EfiDebugAssertWorker`) it does in the model.
- The variable arguments of `EfiDebugVPrintWorker` are a sequence of at least twelve words, and the `VA_LIST` handed back is the offset of the first.
- MathLib.DivU64x32: the remainder is always handed back; the source skips storing it when the caller passes a null pointer. A zero divisor is excluded.
- HexString.HexStringToBuf: the output parameter for the number of converted characters is always there, and None says that it is not written; the caller's `Buf` has at least the announced length.
- HexString.BufToHexString: `Str` is the memory from the string on. It must have a cell for every character of an accepted call, whatever size was announced (a store behind the end of memory has no meaning here), so an accepted length of 2^31 bytes or more cannot occur. AcceptedCallOverrunsExactly says which announced sizes are overrun.
- StatusCode.EfiDebugVPrintWorker: `BufferSize` only enters the header, as in the source; the record must lie in memory, and the format must still be a string when it is read.
- StatusCode.EfiDebugAssertWorker: the record must lie in memory, and both copies must end; whether it stays inside the announced buffer is what RecordStaysInsideExactly says.
- StatusCode.EfiConstructStatusCodeData: its comment, its two callers and the code do not agree on whether the size includes the header; the model keeps the code's double subtraction (StatusCodeLayout.SizeField says what it comes to), and no extractor reads the field.
- ValueToString.EfiValueToString: reading a printed number back is a definition of this model (skip padding and commas, respect a minus sign); the repository has no decimal parser.
