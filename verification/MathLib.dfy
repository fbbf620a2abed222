/** Shifts, division and logarithms on 64-bit words. */
module MathLib {
  import opened Machine

  function Pow2(n: nat): (p: int)
    ensures p >= 1
  {
    if n == 0 then 1 else 2 * Pow2(n - 1)
  }

  lemma {:induction false} Pow2Sum(m: nat, n: nat)
    ensures Pow2(m + n) == Pow2(m) * Pow2(n)
  {
    if m > 0 {
      Pow2Sum(m - 1, n);
      assert 2 * Pow2(m - 1) * Pow2(n) == 2 * (Pow2(m - 1) * Pow2(n));
    }
  }

  lemma Pow2Of64()
    ensures Pow2(64) == TWO_TO_64
  {
    assert Pow2(8) == 0x100;
    Pow2Sum(8, 8);
    Pow2Sum(16, 16);
    Pow2Sum(32, 32);
  }

  lemma {:induction false} Pow2Monotonic(m: nat, n: nat)
    requires m < n
    ensures 2 * Pow2(m) <= Pow2(n)
  {
    if m + 1 < n {
      Pow2Monotonic(m, n - 1);
    }
  }

  lemma DivisionBounds(a: nat, d: int)
    requires d >= 1
    ensures 0 <= a / d <= a && a / d * d <= a < (a / d + 1) * d
  {
    assert a == a / d * d + a % d;
  }

  /** A right shift of an unsigned word drops its low bits. */
  function RShiftU64(operand: uint64, count: nat): (r: uint64)
    requires count < 64
    ensures r * Pow2(count) <= operand < (r + 1) * Pow2(count)
  {
    var p := Pow2(count);
    var r := operand / p;
    DivisionBounds(operand, p);
    r
  }

  // ---------------------------------------------------------------- division

  /** Only the low 32 bits of the dividend are divided. */
  method DivU64x32(Dividend: uint64, Divisor: uint32) returns (quotient: uint64, remainder: uint32)
    requires Divisor != 0
    ensures quotient * Divisor + remainder == Dividend % TWO_TO_32
    ensures remainder < Divisor
    ensures quotient < TWO_TO_32
  {
    var dividend32 := ToUint32(Dividend);
    DivisionBounds(dividend32, Divisor);
    remainder := dividend32 % Divisor;
    quotient := dividend32 / Divisor;
  }

  lemma TimesAtLeastOne(k: int, d: int)
    requires k >= 1 && d >= 0
    ensures k * d >= d
  {
  }

  lemma QuotientIsUnique(a: int, d: int, q: int, r: int)
    requires d >= 1 && a == q * d + r && 0 <= r < d
    ensures q == a / d && r == a % d
  {
    var q', r' := a / d, a % d;
    assert a == q' * d + r';
    assert (q - q') * d == q * d - q' * d;
    if q > q' {
      TimesAtLeastOne(q - q', d);
    } else if q < q' {
      assert (q' - q) * d == q' * d - q * d;
      TimesAtLeastOne(q' - q, d);
    }
  }

  /** The quotient promised for the 64-bit dividend comes out exactly when the dividend fits in 32 bits. */
  lemma QuotientIsRightExactlyBelow32Bits(dividend: uint64, divisor: uint32, quotient: int, remainder: int)
    requires divisor != 0
    requires quotient * divisor + remainder == dividend % TWO_TO_32 && 0 <= remainder < divisor
    ensures quotient == dividend / divisor <==> dividend < TWO_TO_32
  {
    QuotientIsUnique(dividend % TWO_TO_32, divisor, quotient, remainder);
    if dividend >= TWO_TO_32 {
      var full, rest := dividend / divisor, dividend % divisor;
      assert full * divisor + rest == dividend;
      assert dividend >= dividend % TWO_TO_32 + TWO_TO_32;
      assert full * divisor > quotient * divisor;
    }
  }

  // ---------------------------------------------------------------- logarithm

  /** n is the position of the highest bit set in x. */
  ghost predicate HighestBit(x: int, n: nat) {
    Pow2(n) <= x < Pow2(n + 1)
  }

  lemma HighestBitIsUnique(x: int, m: nat, n: nat)
    requires HighestBit(x, m) && HighestBit(x, n)
    ensures m == n
  {
    if m < n {
      Pow2Monotonic(m, n);
    } else if n < m {
      Pow2Monotonic(n, m);
    }
  }

  /** The number of halvings that take x to 1. */
  ghost function Halvings(x: int): (n: nat)
    requires x >= 1
    ensures HighestBit(x, n)
  {
    if x == 1 then 0 else 1 + Halvings(x / 2)
  }

  lemma HalvingsBelow64(x: uint64)
    requires x >= 1
    ensures Halvings(x) < 64
  {
    if Halvings(x) >= 64 {
      Pow2Of64();
      if Halvings(x) > 64 {
        Pow2Monotonic(64, Halvings(x));
      }
    }
  }

  /** Zero has no logarithm; the routine answers 0xFF. */
  method Log2(Operand: uint64) returns (r: uint8)
    ensures Operand == 0 ==> r == 0xFF
    ensures Operand != 0 ==> r < 64 && HighestBit(Operand, r)
  {
    if Operand == 0 {
      return 0xFF;
    }
    HalvingsBelow64(Operand);
    var operand, bitpos := Operand, 0;
    while operand != 0
      invariant 0 <= operand
      invariant operand != 0 ==> Halvings(Operand) == bitpos + Halvings(operand)
      invariant operand == 0 ==> bitpos == Halvings(Operand) + 1
      decreases operand
    {
      operand := operand / 2;
      bitpos := bitpos + 1;
    }
    r := bitpos - 1;
  }

  lemma Pow2Below64(n: nat)
    requires n < 64
    ensures Pow2(n) < TWO_TO_64
  {
    Pow2Monotonic(n, 64);
    Pow2Of64();
  }

  method GetPowerOfTwo(Operand: uint64) returns (power: uint64)
    ensures Operand == 0 ==> power == 0
    ensures Operand != 0 ==> power == Pow2(Halvings(Operand))
  {
    if Operand == 0 {
      return 0;
    }
    HalvingsBelow64(Operand);
    var operand, bitpos := Operand, 0;
    while operand != 0
      invariant 0 <= operand
      invariant operand != 0 ==> Halvings(Operand) == bitpos + Halvings(operand)
      invariant operand == 0 ==> bitpos == Halvings(Operand) + 1
      decreases operand
    {
      operand := operand / 2;
      bitpos := bitpos + 1;
    }
    operand := 1;
    bitpos := bitpos - 1;
    ghost var shifts := 0;
    while bitpos != 0
      invariant 0 <= bitpos && shifts + bitpos == Halvings(Operand)
      invariant operand == Pow2(shifts)
      decreases bitpos
    {
      shifts := shifts + 1;
      Pow2Below64(shifts);
      operand := operand * 2 % TWO_TO_64;
      bitpos := bitpos - 1;
    }
    power := operand;
  }

  /** The result is the largest power of two not above the operand. The routine's comment asks for
      one strictly below it; that is met exactly when the operand is not itself a power of two. */
  lemma LargestPowerOfTwo(operand: uint64, k: nat)
    requires operand >= 1
    ensures Pow2(k) <= operand <==> k <= Halvings(operand)
    ensures Pow2(Halvings(operand)) < operand <==> forall n: nat :: Pow2(n) != operand
  {
    var top := Halvings(operand);
    if k > top {
      if k > top + 1 { Pow2Monotonic(top + 1, k); }
    } else if k < top {
      Pow2Monotonic(k, top);
    }
    if Pow2(top) < operand {
      forall n: nat ensures Pow2(n) != operand {
        if n > top + 1 { Pow2Monotonic(top + 1, n); }
        if n < top { Pow2Monotonic(n, top); }
      }
    }
  }
}
