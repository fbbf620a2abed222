/** Moving bytes inside one address space. Pointers are offsets into the array `mem`. */
module Memory {
  import opened Machine
  import MathLib

  /** Memory m after the n cells at src have been moved to dst, whatever the overlap. */
  ghost function Moved(m: seq<int>, dst: nat, src: nat, n: nat): (r: seq<int>)
    requires dst + n <= |m| && src + n <= |m|
    ensures |r| == |m|
  {
    seq(|m|, i requires 0 <= i < |m| => if dst <= i < dst + n then m[src + (i - dst)] else m[i])
  }

  /** Memory m with the cells s written at p. */
  ghost function Placed(m: seq<int>, p: nat, s: seq<int>): (r: seq<int>)
    ensures |r| == |m|
  {
    seq(|m|, i requires 0 <= i < |m| => if p <= i < p + |s| then s[i - p] else m[i])
  }

  lemma RemainderStep(i: nat, d: nat)
    requires d > 0 && i >= d
    ensures (i - d) % d == i % d
  {
    var q, r := (i - d) / d, (i - d) % d;
    assert i == (q + 1) * d + r;
    MathLib.QuotientIsUnique(i, d, q + 1, r);
  }

  ghost function Remainder(i: nat, d: nat): (r: nat)
    requires d > 0
    ensures r == i % d && r <= i && (i < d ==> r == i)
    ensures i >= d ==> r == Remainder(i - d, d)
  {
    if i < d then i else assert (i - d) % d == i % d by { RemainderStep(i, d); } Remainder(i - d, d)
  }

  ghost function SmearSource(dst: nat, src: nat, i: nat): (j: nat)
    ensures src <= j <= src + i
    ensures dst <= src || i < dst - src ==> j == src + i
  {
    if src < dst then src + Remainder(i, dst - src) else src + i
  }

  /** Memory m after a cell-by-cell forward copy: when the destination starts inside the source,
      the first dst - src cells repeat. */
  ghost function Smeared(m: seq<int>, dst: nat, src: nat, n: nat): (r: seq<int>)
    requires dst + n <= |m| && src + n <= |m|
    ensures |r| == |m|
  {
    seq(|m|, i requires 0 <= i < |m| =>
      if dst <= i < dst + n then m[SmearSource(dst, src, i - dst)] else m[i])
  }

  /** A forward copy that has not run into its own output reads the original cell next. */
  lemma MovedAhead(m: seq<int>, dst: nat, src: nat, k: nat)
    requires dst + k <= |m| && src + k < |m|
    requires dst <= src || src + k < dst
    ensures Moved(m, dst, src, k)[src + k] == m[src + k]
  {
  }

  lemma MoveOneMore(m: seq<int>, dst: nat, src: nat, k: nat)
    requires dst + k < |m| && src + k < |m|
    ensures Moved(m, dst, src, k)[dst + k := m[src + k]] == Moved(m, dst, src, k + 1)
  {
  }

  /** Where the forward copy finds its k-th cell: untouched, or d cells back in its own output. */
  lemma SmearSourceStep(dst: nat, src: nat, k: nat)
    ensures src < dst && k >= dst - src ==> SmearSource(dst, src, k) == SmearSource(dst, src, k - (dst - src))
  {
  }

  lemma SmearedAhead(m: seq<int>, dst: nat, src: nat, k: nat)
    requires dst + k <= |m| && src + k < |m|
    ensures Smeared(m, dst, src, k)[src + k] == m[SmearSource(dst, src, k)]
  {
    SmearSourceStep(dst, src, k);
  }

  /** One more cell of a forward copy: it is read from memory as the copy has left it so far. */
  lemma SmearOneMore(m: seq<int>, dst: nat, src: nat, k: nat)
    requires dst + k < |m| && src + k < |m|
    ensures Smeared(m, dst, src, k)[dst + k := Smeared(m, dst, src, k)[src + k]] == Smeared(m, dst, src, k + 1)
  {
    SmearedAhead(m, dst, src, k);
    var now, next := Smeared(m, dst, src, k), Smeared(m, dst, src, k + 1);
    forall i | 0 <= i < |m| ensures now[dst + k := now[src + k]][i] == next[i] {
    }
  }

  lemma {:induction false} RemainderIsSmall(i: nat, d: nat)
    requires d > 0
    ensures Remainder(i, d) < d
  {
    if i >= d {
      RemainderIsSmall(i - d, d);
    }
  }

  /** Copies backward when the source lies below the destination, forward otherwise. */
  method EfiCommonLibCopyMem(mem: array<uint8>, Destination: nat, Source: nat, Length: nat)
    requires Destination + Length <= mem.Length && Source + Length <= mem.Length
    modifies mem
    ensures mem[..] == Moved(old(mem[..]), Destination, Source, Length)
  {
    ghost var m := mem[..];
    var length := Length;
    if Source < Destination {
      var destination8: int := Destination + Length - 1;
      var source8: int := Source + Length - 1;
      while length != 0
        invariant 0 <= length <= Length
        invariant destination8 == Destination + length - 1 && source8 == Source + length - 1
        invariant forall i :: 0 <= i < mem.Length && !(Destination + length <= i < Destination + Length) ==>
          mem[i] == m[i]
        invariant forall i :: Destination + length <= i < Destination + Length ==>
          mem[i] == m[Source + (i - Destination)]
      {
        mem[destination8] := mem[source8];
        destination8, source8, length := destination8 - 1, source8 - 1, length - 1;
      }
    } else {
      var destination8, source8 := Destination, Source;
      while length != 0
        invariant 0 <= length <= Length
        invariant destination8 == Destination + Length - length && source8 == Source + Length - length
        invariant forall i :: 0 <= i < mem.Length && !(Destination <= i < destination8) ==> mem[i] == m[i]
        invariant forall i :: Destination <= i < destination8 ==> mem[i] == m[Source + (i - Destination)]
      {
        mem[destination8] := mem[source8];
        destination8, source8, length := destination8 + 1, source8 + 1, length - 1;
      }
    }
  }

  /** Always copies forward. */
  method memcpy(mem: array<uint8>, Dest: nat, Src: nat, Count: nat) returns (dest: nat)
    requires Dest + Count <= mem.Length && Src + Count <= mem.Length
    modifies mem
    ensures dest == Dest
    ensures mem[..] == Smeared(old(mem[..]), Dest, Src, Count)
  {
    ghost var m := mem[..];
    ghost var k := 0;
    var ptr, source, count := Dest, Src, Count;
    while count > 0
      invariant k + count == Count && ptr == Dest + k && source == Src + k
      invariant mem[..] == Smeared(m, Dest, Src, k)
    {
      SmearOneMore(m, Dest, Src, k);
      mem[ptr] := mem[source];
      count, source, ptr := count - 1, source + 1, ptr + 1;
      k := k + 1;
    }
    dest := Dest;
  }

  lemma SmearedIsMoved(m: seq<int>, dst: nat, src: nat, n: nat)
    requires dst + n <= |m| && src + n <= |m|
    requires dst <= src || src + n <= dst
    ensures Smeared(m, dst, src, n) == Moved(m, dst, src, n)
  {
    forall i | 0 <= i < |m| ensures Smeared(m, dst, src, n)[i] == Moved(m, dst, src, n)[i] {
      if dst <= i < dst + n {
        assert SmearSource(dst, src, i - dst) == src + (i - dst);
      }
    }
  }

  /** The two copies leave the same memory, whatever it held, exactly when the forward copy does not
      run into its own output. */
  lemma MemcpyAgreesExactlyWithoutForwardOverlap(size: nat, dst: nat, src: nat, n: nat)
    requires dst + n <= size && src + n <= size
    ensures (forall m: seq<uint8> :: |m| == size ==> Smeared(m, dst, src, n) == Moved(m, dst, src, n))
      <==> dst <= src || src + n <= dst
  {
    if dst <= src || src + n <= dst {
      forall m: seq<uint8> | |m| == size ensures Smeared(m, dst, src, n) == Moved(m, dst, src, n) {
        SmearedIsMoved(m, dst, src, n);
      }
    } else {
      var m: seq<uint8> := seq(size, i => if i == src then 1 else 0);
      var d := dst - src;
      assert Moved(m, dst, src, n)[dst + d] == m[dst] == 0;
      assert SmearSource(dst, src, d) == src;
      assert Smeared(m, dst, src, n)[dst + d] == m[src] == 1;
    }
  }
}
