/** Widening and narrowing the characters of a string. */
module StringConvert {
  import opened Machine
  import opened Memory
  import opened Strings

  ghost function Narrowed(s: seq<int>): (r: seq<int>)
    ensures |r| == |s|
  {
    seq(|s|, i requires 0 <= i < |s| => s[i] % 0x100)
  }

  lemma PlaceOneMore(m: seq<int>, dst: nat, s: seq<int>, k: nat)
    requires k < |s| && dst + k < |m|
    ensures Placed(m, dst, s[..k])[dst + k := s[k]] == Placed(m, dst, s[..k + 1])
  {
  }

  method EfiAsciiStrToUnicodeStr(Source: array<CHAR8>, src: nat, Destination: array<CHAR16>, dst: nat)
    returns (returnValue: nat)
    requires Terminated(Source[..], src) && dst + StrLen(Source[..], src) < Destination.Length
    modifies Destination
    ensures returnValue == dst
    ensures Destination[..] == Placed(old(Destination[..]), dst, Text(Source[..], src) + [0])
  {
    ghost var m, written := Destination[..], Text(Source[..], src) + [0];
    ghost var k, end := 0, EndOf(Source[..], src);
    ghost var cells: seq<int> := Source[..];
    var source, destination := src, dst;
    while Source[source] != 0
      invariant 0 <= k && source == src + k <= end && destination == dst + k
      invariant Destination[..] == Placed(m, dst, written[..k])
      decreases end - source
    {
      assert source < end && written[k] == cells[source];
      PlaceOneMore(m, dst, written, k);
      Destination[destination] := Source[source];
      destination, source := destination + 1, source + 1;
      k := k + 1;
    }
    assert source == end;
    PlaceOneMore(m, dst, written, k);
    Destination[destination] := 0;
    assert written[..k + 1] == written;
    returnValue := dst;
  }

  method EfiUnicodeStrToAsciiStr(Source: array<CHAR16>, src: nat, Destination: array<CHAR8>, dst: nat)
    returns (returnValue: nat)
    requires Terminated(Source[..], src) && dst + StrLen(Source[..], src) < Destination.Length
    modifies Destination
    ensures returnValue == dst
    ensures Destination[..] == Placed(old(Destination[..]), dst, Narrowed(Text(Source[..], src)) + [0])
  {
    ghost var m, written := Destination[..], Narrowed(Text(Source[..], src)) + [0];
    ghost var k, end := 0, EndOf(Source[..], src);
    ghost var cells: seq<int> := Source[..];
    var source, destination := src, dst;
    while Source[source] != 0
      invariant 0 <= k && source == src + k <= end && destination == dst + k
      invariant Destination[..] == Placed(m, dst, written[..k])
      decreases end - source
    {
      assert source < end && written[k] == cells[source] % 0x100;
      PlaceOneMore(m, dst, written, k);
      Destination[destination] := Source[source] % 0x100;
      destination, source := destination + 1, source + 1;
      k := k + 1;
    }
    assert source == end;
    PlaceOneMore(m, dst, written, k);
    Destination[destination] := 0;
    assert written[..k + 1] == written;
    returnValue := dst;
  }

  /** Widening keeps the string, whatever it is. */
  lemma WidenedText(m: seq<int>, dst: nat, t: seq<int>)
    requires 0 !in t && dst + |t| < |m|
    ensures Terminated(Placed(m, dst, t + [0]), dst) && Text(Placed(m, dst, t + [0]), dst) == t
  {
    TextIs(Placed(m, dst, t + [0]), dst, t);
  }

  /** Narrowing keeps the string exactly when every character fits in a byte; otherwise some
      character changes or becomes a terminator. */
  lemma NarrowedText(m: seq<int>, dst: nat, t: seq<CHAR16>)
    requires 0 !in t && dst + |t| < |m|
    ensures Terminated(Placed(m, dst, Narrowed(t) + [0]), dst)
    ensures Text(Placed(m, dst, Narrowed(t) + [0]), dst) == t <==> forall i :: 0 <= i < |t| ==> t[i] < 0x100
  {
    var r := Placed(m, dst, Narrowed(t) + [0]);
    AnyZeroTerminates(r, dst, dst + |t|);
    if forall i :: 0 <= i < |t| ==> t[i] < 0x100 {
      assert Narrowed(t) == t;
      TextIs(r, dst, t);
    } else {
      var i :| 0 <= i < |t| && t[i] >= 0x100;
      assert r[dst + i] == Narrowed(t)[i] != t[i];
    }
  }

  /** A character keeps its low byte and loses its high byte. */
  lemma NarrowedCell(t: seq<int>, i: nat, high: nat, low: uint8)
    requires i < |t| && t[i] == 0x100 * high + low
    ensures Narrowed(t)[i] == low
  {
  }

  /** What can be read afterwards ends at the first character whose low byte is zero. */
  lemma NarrowedTextEnds(m: seq<int>, dst: nat, t: seq<CHAR16>, k: nat)
    requires dst + |t| < |m| && k <= |t| && (k < |t| ==> t[k] % 0x100 == 0)
    requires forall i :: 0 <= i < k ==> t[i] % 0x100 != 0
    ensures
      var r := Placed(m, dst, Narrowed(t) + [0]);
      Terminated(r, dst) && Text(r, dst) == Narrowed(t)[..k]
  {
    TextIs(Placed(m, dst, Narrowed(t) + [0]), dst, Narrowed(t)[..k]);
  }

  /** Widening and then narrowing gives back every ASCII string. */
  lemma AsciiRoundTrip(wide: seq<int>, narrow: seq<int>, p: nat, q: nat, t: seq<CHAR8>)
    requires 0 !in t && p + |t| < |wide| && q + |t| < |narrow|
    ensures
      var w := Placed(wide, p, t + [0]);
      && Terminated(w, p)
      && var n := Placed(narrow, q, Narrowed(Text(w, p)) + [0]);
      && Terminated(n, q) && Text(n, q) == t
  {
    WidenedText(wide, p, t);
    NarrowedText(narrow, q, t);
  }
}
