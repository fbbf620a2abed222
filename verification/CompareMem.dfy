/** Comparing two byte ranges, a word at a time when everything is aligned. */
module CompareMem {
  import opened Machine

  /** A byte read as INT8, which is plain `char`: whether that is signed is up to the compiler. */
  function AsInt8(b: uint8, charIsSigned: bool): int {
    if charIsSigned && b >= 0x80 then b - 0x100 else b
  }

  /** The first non-zero difference of corresponding bytes, or zero. */
  function Difference(a: seq<uint8>, b: seq<uint8>, charIsSigned: bool): int
    requires |a| == |b|
  {
    if a == [] then 0
    else if a[0] != b[0] then AsInt8(a[0], charIsSigned) - AsInt8(b[0], charIsSigned)
    else Difference(a[1..], b[1..], charIsSigned)
  }

  function FourBytes(b0: int, b1: int, b2: int, b3: int): int {
    b0 + 0x100 * b1 + 0x1_0000 * b2 + 0x100_0000 * b3
  }

  /** The word stored at offset p, low byte first. */
  function Word(m: seq<uint8>, p: nat): (w: uint32)
    requires p + 4 <= |m|
  {
    FourBytes(m[p], m[p + 1], m[p + 2], m[p + 3])
  }

  ghost predicate SameFourBytes(m: seq<uint8>, p: nat, q: nat)
    requires p + 4 <= |m| && q + 4 <= |m|
  {
    m[p] == m[q] && m[p + 1] == m[q + 1] && m[p + 2] == m[q + 2] && m[p + 3] == m[q + 3]
  }

  lemma BytesAreUnique(a0: uint8, a1: uint8, a2: uint8, a3: uint8, b0: uint8, b1: uint8, b2: uint8, b3: uint8)
    ensures FourBytes(a0, a1, a2, a3) == FourBytes(b0, b1, b2, b3) <==> a0 == b0 && a1 == b1 && a2 == b2 && a3 == b3
  {
    var a, b := a1 + 0x100 * a2 + 0x1_0000 * a3, b1 + 0x100 * b2 + 0x1_0000 * b3;
    assert FourBytes(a0, a1, a2, a3) == a0 + 0x100 * a && FourBytes(b0, b1, b2, b3) == b0 + 0x100 * b;
    assert a0 + 0x100 * a == b0 + 0x100 * b ==> a == b;
    var a', b' := a2 + 0x100 * a3, b2 + 0x100 * b3;
    assert a1 + 0x100 * a' == b1 + 0x100 * b' ==> a' == b';
  }

  lemma WordEqualIsFourBytesEqual(m: seq<uint8>, p: nat, q: nat)
    requires p + 4 <= |m| && q + 4 <= |m|
    ensures Word(m, p) == Word(m, q) <==> SameFourBytes(m, p, q)
  {
    BytesAreUnique(m[p], m[p + 1], m[p + 2], m[p + 3], m[q], m[q + 1], m[q + 2], m[q + 3]);
  }

  /** The difference of the n bytes at p and at q, from the k-th byte on. */
  ghost function DifferenceFrom(m: seq<uint8>, p: nat, q: nat, k: nat, n: nat, charIsSigned: bool): int
    requires k <= n && p + n <= |m| && q + n <= |m|
    decreases n - k
  {
    if k == n then 0
    else
      var d := AsInt8(m[p + k], charIsSigned) - AsInt8(m[q + k], charIsSigned);
      if d != 0 then d else DifferenceFrom(m, p, q, k + 1, n, charIsSigned)
  }

  lemma {:induction false} DifferenceFromIsDifference(m: seq<uint8>, p: nat, q: nat, k: nat, n: nat, charIsSigned: bool)
    requires k <= n && p + n <= |m| && q + n <= |m|
    ensures DifferenceFrom(m, p, q, k, n, charIsSigned) == Difference(m[p + k..p + n], m[q + k..q + n], charIsSigned)
    decreases n - k
  {
    if k < n {
      DifferenceFromIsDifference(m, p, q, k + 1, n, charIsSigned);
      assert m[p + k..p + n][1..] == m[p + k + 1..p + n] && m[q + k..q + n][1..] == m[q + k + 1..q + n];
    }
  }

  /** One word comparison decides about four bytes. */
  method WordsDiffer(mem: array<uint8>, p: nat, q: nat) returns (differ: bool)
    requires p + 4 <= mem.Length && q + 4 <= mem.Length
    ensures differ <==> !SameFourBytes(mem[..], p, q)
  {
    WordEqualIsFourBytesEqual(mem[..], p, q);
    differ := Word(mem[..], p) != Word(mem[..], q);
  }

  lemma SkipFourBytes(m: seq<uint8>, p: nat, q: nat, k: nat, n: nat, charIsSigned: bool)
    requires k + 4 <= n && p + n <= |m| && q + n <= |m| && SameFourBytes(m, p + k, q + k)
    ensures DifferenceFrom(m, p, q, k, n, charIsSigned) == DifferenceFrom(m, p, q, k + 4, n, charIsSigned)
  {
    assert DifferenceFrom(m, p, q, k + 1, n, charIsSigned) == DifferenceFrom(m, p, q, k + 3, n, charIsSigned);
  }

  method EfiCompareMem(mem: array<uint8>, MemOne: nat, MemTwo: nat, Length: nat, charIsSigned: bool)
    returns (result: int)
    requires MemOne + Length <= mem.Length && MemTwo + Length <= mem.Length
    ensures result == DifferenceFrom(mem[..], MemOne, MemTwo, 0, Length, charIsSigned)
  {
    ghost var m := mem[..];
    ghost var k := 0;
    ghost var expected := DifferenceFrom(m, MemOne, MemTwo, 0, Length, charIsSigned);
    var memOne, memTwo, length := MemOne, MemTwo, Length;
    if MemOne % 4 == 0 && MemTwo % 4 == 0 && Length % 4 == 0 {
      ghost var words: nat := Length / 4;
      while length > 0
        invariant length == 4 * words && k + length == Length
        invariant memOne == MemOne + k && memTwo == MemTwo + k
        invariant DifferenceFrom(m, MemOne, MemTwo, k, Length, charIsSigned) == expected
      {
        var differ := WordsDiffer(mem, memOne, memTwo);
        if differ {
          break;
        }
        SkipFourBytes(m, MemOne, MemTwo, k, Length, charIsSigned);
        length, memOne, memTwo := length - 4, memOne + 4, memTwo + 4;
        words, k := words - 1, k + 4;
      }
    }
    while length > 0
      invariant k + length == Length && memOne == MemOne + k && memTwo == MemTwo + k
      invariant DifferenceFrom(m, MemOne, MemTwo, k, Length, charIsSigned) == expected
    {
      result := AsInt8(mem[memOne], charIsSigned) - AsInt8(mem[memTwo], charIsSigned);
      if result != 0 {
        return;
      }
      length, memOne, memTwo := length - 1, memOne + 1, memTwo + 1;
      k := k + 1;
    }
    result := 0;
  }

  // ---------------------------------------------------------------- what the result tells

  lemma {:induction false} ZeroExactlyWhenEqual(a: seq<uint8>, b: seq<uint8>, charIsSigned: bool)
    requires |a| == |b|
    ensures Difference(a, b, charIsSigned) == 0 <==> a == b
  {
    if a != [] && a[0] == b[0] {
      ZeroExactlyWhenEqual(a[1..], b[1..], charIsSigned);
      assert a == [a[0]] + a[1..] && b == [b[0]] + b[1..];
    }
  }

  lemma {:induction false} Antisymmetric(a: seq<uint8>, b: seq<uint8>, charIsSigned: bool)
    requires |a| == |b|
    ensures Difference(b, a, charIsSigned) == -Difference(a, b, charIsSigned)
  {
    if a != [] && a[0] == b[0] {
      Antisymmetric(a[1..], b[1..], charIsSigned);
    }
  }

  lemma {:induction false} Transitive(a: seq<uint8>, b: seq<uint8>, c: seq<uint8>, charIsSigned: bool)
    requires |a| == |b| == |c|
    requires Difference(a, b, charIsSigned) <= 0 && Difference(b, c, charIsSigned) <= 0
    ensures Difference(a, c, charIsSigned) <= 0
  {
    if a != [] && a[0] == b[0] == c[0] {
      Transitive(a[1..], b[1..], c[1..], charIsSigned);
    }
  }

  /** i is the first position where a and b differ. */
  ghost predicate FirstDifferenceAt(a: seq<uint8>, b: seq<uint8>, i: nat)
    requires |a| == |b|
  {
    i < |a| && a[..i] == b[..i] && a[i] != b[i]
  }

  lemma {:induction false} SkipEqualPrefix(a: seq<uint8>, b: seq<uint8>, k: nat, charIsSigned: bool)
    requires |a| == |b| && k <= |a| && a[..k] == b[..k]
    ensures Difference(a, b, charIsSigned) == Difference(a[k..], b[k..], charIsSigned)
  {
    if k > 0 {
      assert a[0] == a[..k][0] && b[0] == b[..k][0];
      assert a[1..][..k - 1] == a[..k][1..] && b[1..][..k - 1] == b[..k][1..];
      SkipEqualPrefix(a[1..], b[1..], k - 1, charIsSigned);
      assert a[1..][k - 1..] == a[k..] && b[1..][k - 1..] == b[k..];
    }
  }

  /** The sign matches the order of unsigned bytes under a signed `char` exactly when the first two
      differing bytes have the same top bit. */
  lemma SignIsUnsignedOrderExactlyOnSameTopBit(a: seq<uint8>, b: seq<uint8>, i: nat)
    requires |a| == |b| && FirstDifferenceAt(a, b, i)
    ensures (Difference(a, b, true) < 0 <==> a[i] < b[i]) <==> (a[i] < 0x80 <==> b[i] < 0x80)
    ensures Difference(a, b, false) < 0 <==> a[i] < b[i]
  {
    SkipEqualPrefix(a, b, i, true);
    SkipEqualPrefix(a, b, i, false);
  }

  /** The value itself is the difference of the first two differing bytes, each read as an unsigned
      number or as an eight-bit two's complement. */
  lemma ValueAtFirstDifference(a: seq<uint8>, b: seq<uint8>, i: nat)
    requires |a| == |b| && FirstDifferenceAt(a, b, i)
    ensures
      var x: int, y: int := a[i], b[i];
      && Difference(a, b, false) == x - y
      && Difference(a, b, true) == (if x < 128 then x else x - 256) - (if y < 128 then y else y - 256)
  {
    SkipEqualPrefix(a, b, i, true);
    SkipEqualPrefix(a, b, i, false);
  }
}
