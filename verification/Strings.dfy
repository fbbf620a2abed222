/** Zero-terminated strings in memory: measuring, copying and appending.

    Memory is one array of cells and a pointer is an offset into it, so a source and a destination
    may overlap. The routines on CHAR8 and on CHAR16 have the same text; both cell types are unsigned. */
module Strings {
  import opened Machine
  import opened Memory

  /** The n cells at p are the characters of a string: a zero follows, and none is among them. */
  ghost predicate IsString(m: seq<int>, p: nat, n: nat) {
    p + n < |m| && m[p + n] == 0 && forall i :: p <= i < p + n ==> m[i] != 0
  }

  ghost predicate Terminated(m: seq<int>, p: nat) {
    exists n: nat :: IsString(m, p, n)
  }

  lemma {:induction false} AnyZeroTerminates(m: seq<int>, p: nat, i: nat)
    requires p <= i < |m| && m[i] == 0
    ensures Terminated(m, p)
    decreases i - p
  {
    if m[p] == 0 {
      assert IsString(m, p, 0);
    } else {
      AnyZeroTerminates(m, p + 1, i);
      var n: nat :| IsString(m, p + 1, n);
      assert IsString(m, p, n + 1);
    }
  }

  lemma LengthIsUnique(m: seq<int>, p: nat, n: nat, n': nat)
    requires IsString(m, p, n) && IsString(m, p, n')
    ensures n == n'
  {
  }

  /** The number of cells in front of the first zero at or after p. */
  ghost function StrLen(m: seq<int>, p: nat): (n: nat)
    requires Terminated(m, p)
    ensures IsString(m, p, n)
  {
    var n: nat :| IsString(m, p, n);
    n
  }

  /** The string that a pointer denotes. */
  ghost function Text(m: seq<int>, p: nat): (s: seq<int>)
    requires Terminated(m, p)
    ensures 0 !in s
  {
    m[p..p + StrLen(m, p)]
  }

  /** One character on, the string is one shorter. */
  lemma StrLenNext(m: seq<int>, p: nat)
    requires Terminated(m, p)
    ensures StrLen(m, p) == 0 <==> m[p] == 0
    ensures m[p] != 0 ==> Terminated(m, p + 1) && StrLen(m, p) == StrLen(m, p + 1) + 1
    ensures m[p] != 0 ==> Text(m, p) == [m[p]] + Text(m, p + 1)
  {
    var n := StrLen(m, p);
    if n != 0 {
      assert IsString(m, p + 1, n - 1);
      LengthIsUnique(m, p + 1, n - 1, StrLen(m, p + 1));
    }
  }

  /** The position of that zero. */
  ghost function EndOf(m: seq<int>, p: nat): nat
    requires Terminated(m, p)
  {
    p + StrLen(m, p)
  }

  /** A pointer into a string denotes the rest of it. */
  lemma RestOfString(m: seq<int>, p: nat, q: nat)
    requires Terminated(m, p) && p <= q <= EndOf(m, p)
    ensures Terminated(m, q) && EndOf(m, q) == EndOf(m, p)
  {
    var n := EndOf(m, p) - q;
    assert IsString(m, q, n);
    LengthIsUnique(m, q, n, StrLen(m, q));
  }

  lemma TextIs(m: seq<int>, p: nat, s: seq<int>)
    requires p + |s| < |m| && m[p + |s|] == 0 && 0 !in s
    requires forall i :: 0 <= i < |s| ==> m[p + i] == s[i]
    ensures Terminated(m, p) && StrLen(m, p) == |s| && Text(m, p) == s
  {
    forall i | p <= i < p + |s| ensures m[i] != 0 {
      assert m[p + (i - p)] == s[i - p];
    }
    assert IsString(m, p, |s|);
    LengthIsUnique(m, p, |s|, StrLen(m, p));
  }

  method EfiStrLen(mem: array<CHAR16>, String: nat) returns (length: nat)
    requires Terminated(mem[..], String)
    ensures length == StrLen(mem[..], String)
  {
    var ptr := String;
    length := 0;
    while mem[ptr] != 0
      invariant ptr == String + length && length <= StrLen(mem[..], String)
      decreases StrLen(mem[..], String) - length
    {
      ptr, length := ptr + 1, length + 1;
    }
  }

  // ---------------------------------------------------------------- unbounded copy

  /** A destination inside the source string would destroy the terminator before it is read. */
  ghost predicate CopyEnds(m: seq<int>, dst: nat, src: nat)
    requires Terminated(m, src)
  {
    dst <= src || src + StrLen(m, src) < dst
  }

  /** Memory after the string at src and its terminator have been put at dst. */
  ghost function StringCopied(m: seq<int>, dst: nat, src: nat): (r: seq<int>)
    requires Terminated(m, src) && dst + StrLen(m, src) < |m|
    ensures |r| == |m|
  {
    Moved(m, dst, src, StrLen(m, src) + 1)
  }

  /** One more cell of the copying loop, now at d and s: it still reads what was there at first, so it
      meets the terminator after n cells. */
  lemma CopyStep(m: seq<int>, dst: nat, src: nat, n: nat, k: nat, now: seq<int>, d: nat, s: nat)
    requires IsString(m, src, n) && (dst <= src || src + n < dst) && dst + n < |m| && k <= n
    requires now == Moved(m, dst, src, k) && d == dst + k && s == src + k
    ensures now[s] == 0 <==> k == n
    ensures now[d := now[s]] == Moved(m, dst, src, k + 1)
  {
    MovedAhead(m, dst, src, k);
    MoveOneMore(m, dst, src, k);
  }

  method EfiStrCpy(mem: array<CHAR16>, Destination: nat, Source: nat)
    requires Terminated(mem[..], Source) && CopyEnds(mem[..], Destination, Source)
    requires Destination + StrLen(mem[..], Source) < mem.Length
    modifies mem
    ensures mem[..] == StringCopied(old(mem[..]), Destination, Source)
  {
    ghost var m, n := mem[..], StrLen(mem[..], Source);
    ghost var k := 0;
    var destination, source := Destination, Source;
    while mem[source] != 0
      invariant 0 <= k <= n && destination == Destination + k && source == Source + k
      invariant mem[..] == Moved(m, Destination, Source, k)
      decreases n - k
    {
      CopyStep(m, Destination, Source, n, k, mem[..], destination, source);
      mem[destination] := mem[source];
      destination, source := destination + 1, source + 1;
      k := k + 1;
    }
    CopyStep(m, Destination, Source, n, k, mem[..], destination, source);
    mem[destination] := 0;
  }

  /** Why CopyEnds is needed: with it violated, whatever number k of cells has been copied, the next
      cell to be read is no terminator. */
  lemma OverlappingCopyNeverEnds(m: seq<int>, dst: nat, src: nat, k: nat)
    requires Terminated(m, src) && !CopyEnds(m, dst, src) && dst + k <= |m|
    ensures Smeared(m, dst, src, k)[src + k] != 0
  {
    SmearedAhead(m, dst, src, k);
    RemainderIsSmall(k, dst - src);
  }

  lemma CopiedText(m: seq<int>, dst: nat, src: nat)
    requires Terminated(m, src) && dst + StrLen(m, src) < |m|
    ensures Terminated(StringCopied(m, dst, src), dst)
    ensures Text(StringCopied(m, dst, src), dst) == Text(m, src)
  {
    TextIs(StringCopied(m, dst, src), dst, Text(m, src));
  }

  method EfiStrCat(mem: array<CHAR16>, Destination: nat, Source: nat)
    requires Terminated(mem[..], Destination) && Terminated(mem[..], Source)
    requires CopyEnds(mem[..], EndOf(mem[..], Destination), Source)
    requires EndOf(mem[..], Destination) + StrLen(mem[..], Source) < mem.Length
    modifies mem
    ensures mem[..] == StringCopied(old(mem[..]), old(EndOf(mem[..], Destination)), Source)
  {
    ghost var m, end := mem[..], EndOf(mem[..], Destination);
    var n := EfiStrLen(mem, Destination);
    assert mem[..] == m;
    assert Destination + n == end;
    EfiStrCpy(mem, Destination + n, Source);
  }

  lemma AppendedText(m: seq<int>, dst: nat, src: nat)
    requires Terminated(m, dst) && Terminated(m, src) && EndOf(m, dst) + StrLen(m, src) < |m|
    ensures Terminated(StringCopied(m, EndOf(m, dst), src), dst)
    ensures Text(StringCopied(m, EndOf(m, dst), src), dst) == Text(m, dst) + Text(m, src)
  {
    TextIs(StringCopied(m, EndOf(m, dst), src), dst, Text(m, dst) + Text(m, src));
  }

  // ---------------------------------------------------------------- bounded copy

  ghost function Min(a: nat, b: nat): nat {
    if a <= b then a else b
  }

  ghost function ZeroFilled(m: seq<int>, from: nat, to: nat): (r: seq<int>)
    ensures |r| == |m|
  {
    seq(|m|, i requires 0 <= i < |m| => if from <= i < to then 0 else m[i])
  }

  /** Memory after at most n cells of the string at src have been copied to dst, and the rest of
      the n cells cleared. */
  ghost function BoundedCopy(m: seq<int>, dst: nat, src: nat, n: nat): (r: seq<int>)
    requires Terminated(m, src) && dst + n <= |m|
    ensures |r| == |m|
  {
    var k := StrLen(m, src);
    ZeroFilled(Smeared(m, dst, src, Min(n, k)), dst + k, dst + n)
  }

  lemma ZeroFillOneMore(m: seq<int>, from: nat, to: nat)
    requires from <= to < |m|
    ensures ZeroFilled(m, from, to)[to := 0] == ZeroFilled(m, from, to + 1)
  {
  }

  method EfiStrnCpy(mem: array<CHAR16>, Dst: nat, Src: nat, Length: nat)
    requires Terminated(mem[..], Src) && Dst + Length <= mem.Length
    modifies mem
    ensures mem[..] == BoundedCopy(old(mem[..]), Dst, Src, Length)
  {
    ghost var m := mem[..];
    var srcLen := EfiStrLen(mem, Src);
    assert mem[..] == m;
    var index := 0;
    while index < Length && index < srcLen
      invariant 0 <= index <= Length && index <= srcLen
      invariant mem[..] == Smeared(m, Dst, Src, index)
    {
      SmearOneMore(m, Dst, Src, index);
      mem[Dst + index] := mem[Src + index];
      index := index + 1;
    }
    ghost var copied := mem[..];
    index := srcLen;
    while index < Length
      invariant srcLen <= index && (index <= Length || index == srcLen)
      invariant mem[..] == ZeroFilled(copied, Dst + srcLen, Dst + index)
    {
      ZeroFillOneMore(copied, Dst + srcLen, Dst + index);
      mem[Dst + index] := 0;
      index := index + 1;
    }
  }

  lemma BoundedCopyCells(m: seq<int>, dst: nat, src: nat, n: nat)
    requires Terminated(m, src) && dst + n <= |m|
    requires dst <= src || src + Min(n, StrLen(m, src)) <= dst
    ensures
      var k, r := StrLen(m, src), BoundedCopy(m, dst, src, n);
      && (forall i :: dst <= i < dst + Min(n, k) ==> r[i] == m[src + (i - dst)])
      && (forall i :: dst + k <= i < dst + n ==> r[i] == 0)
      && (forall i :: 0 <= i < |m| && !(dst <= i < dst + n) ==> r[i] == m[i])
  {
    SmearedIsMoved(m, dst, src, Min(n, StrLen(m, src)));
  }

  method EfiStrnCat(mem: array<CHAR16>, Dest: nat, Src: nat, Length: nat)
    requires Terminated(mem[..], Dest) && Terminated(mem[..], Src)
    requires EndOf(mem[..], Dest) + Length <= mem.Length
    modifies mem
    ensures mem[..] == BoundedCopy(old(mem[..]), old(EndOf(mem[..], Dest)), Src, Length)
  {
    ghost var m, end := mem[..], EndOf(mem[..], Dest);
    var n := EfiStrLen(mem, Dest);
    assert mem[..] == m;
    assert Dest + n == end;
    EfiStrnCpy(mem, Dest + n, Src, Length);
  }

  /** Appending at most n characters. A source shorter than n gives the concatenation, zero-padded
      through n cells. */
  lemma BoundedAppendOfShort(m: seq<int>, dst: nat, src: nat, n: nat)
    requires Terminated(m, dst) && Terminated(m, src) && StrLen(m, src) < n && EndOf(m, dst) + n <= |m|
    requires EndOf(m, dst) <= src || EndOf(m, src) <= EndOf(m, dst)
    ensures
      var end, k := EndOf(m, dst), StrLen(m, src);
      var r := BoundedCopy(m, end, src, n);
      && Terminated(r, dst) && Text(r, dst) == Text(m, dst) + Text(m, src)
      && (forall i :: end + k <= i < end + n ==> r[i] == 0)
      && (forall i :: 0 <= i < |m| && !(end <= i < end + n) ==> r[i] == m[i])
  {
    var end := EndOf(m, dst);
    BoundedCopyCells(m, end, src, n);
    TextIs(BoundedCopy(m, end, src, n), dst, Text(m, dst) + Text(m, src));
  }

  /** Any other source gives exactly n of its characters and no terminator. */
  lemma BoundedAppendOfLong(m: seq<int>, dst: nat, src: nat, n: nat)
    requires Terminated(m, dst) && Terminated(m, src) && StrLen(m, src) >= n && EndOf(m, dst) + n <= |m|
    requires EndOf(m, dst) <= src || src + n <= EndOf(m, dst)
    ensures
      var end := EndOf(m, dst);
      var r := BoundedCopy(m, end, src, n);
      && (forall i :: end <= i < end + n ==> r[i] == m[src + (i - end)] && r[i] != 0)
      && (forall i :: 0 <= i < |m| && !(end <= i < end + n) ==> r[i] == m[i])
  {
    var end := EndOf(m, dst);
    BoundedCopyCells(m, end, src, n);
  }
}
