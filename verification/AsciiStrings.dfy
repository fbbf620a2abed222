/** The CHAR8 string routines that status-code records are built with. */
module AsciiStrings {
  import opened Machine
  import opened Memory
  import opened Strings

  method EfiAsciiStrLen(mem: array<CHAR8>, String: nat) returns (length: nat)
    requires Terminated(mem[..], String)
    ensures length == StrLen(mem[..], String)
  {
    var ptr := String;
    length := 0;
    while mem[ptr] != 0
      invariant ptr == String + length && length <= StrLen(mem[..], String)
      decreases StrLen(mem[..], String) - length
    {
      ptr, length := ptr + 1, length + 1;
    }
  }

  lemma StringCopiedIsPlaced(m: seq<int>, dst: nat, src: nat)
    requires Terminated(m, src) && dst + StrLen(m, src) < |m|
    ensures StringCopied(m, dst, src) == Placed(m, dst, Text(m, src) + [0])
  {
  }

  /** The copying loop and the terminator behind it. */
  method CopyLoop(mem: array<CHAR8>, Destination: nat, Source: nat, ghost m: seq<int>, ghost n: nat)
    returns (destination: nat)
    requires mem[..] == m && IsString(m, Source, n) && Destination + n < mem.Length
    requires Destination <= Source || Source + n < Destination
    modifies mem
    ensures destination == Destination + n
    ensures mem[..] == Moved(m, Destination, Source, n + 1)
  {
    ghost var k := 0;
    var source := Source;
    destination := Destination;
    while mem[source] != 0
      invariant 0 <= k <= n && destination == Destination + k && source == Source + k
      invariant mem[..] == Moved(m, Destination, Source, k)
      decreases n - k
    {
      CopyStep(m, Destination, Source, n, k, mem[..], destination, source);
      mem[destination] := mem[source];
      destination, source := destination + 1, source + 1;
      k := k + 1;
    }
    CopyStep(m, Destination, Source, n, k, mem[..], destination, source);
    mem[destination] := 0;
  }

  /** Returns the position just past the terminator it has written. */
  method EfiAsciiStrCpy(mem: array<CHAR8>, Destination: nat, Source: nat) returns (end: nat)
    requires Terminated(mem[..], Source) && CopyEnds(mem[..], Destination, Source)
    requires Destination + StrLen(mem[..], Source) < mem.Length
    modifies mem
    ensures end == Destination + old(StrLen(mem[..], Source)) + 1
    ensures mem[..] == Placed(old(mem[..]), Destination, old(Text(mem[..], Source)) + [0])
  {
    StringCopiedIsPlaced(mem[..], Destination, Source);
    end := CopyLoop(mem, Destination, Source, mem[..], StrLen(mem[..], Source));
    end := end + 1;
  }
}
