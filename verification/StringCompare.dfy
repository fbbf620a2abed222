/** The lexicographic order on zero-terminated strings, unbounded and bounded. */
module StringCompare {
  import opened Machine
  import opened Strings

  /** What the compare loop computes on two character sequences, a missing character counting as zero. */
  function Compare(s: seq<int>, t: seq<int>): int {
    if s == [] then (if t == [] then 0 else -t[0])
    else if t == [] then s[0]
    else if s[0] != t[0] then s[0] - t[0]
    else Compare(s[1..], t[1..])
  }

  ghost predicate Characters(s: seq<int>) {
    forall i :: 0 <= i < |s| ==> s[i] > 0
  }

  // ---------------------------------------------------------------- the order

  /** s comes before t: they agree up to position k, and there s ends or has the smaller character. */
  ghost predicate Before(s: seq<int>, t: seq<int>, k: nat) {
    k <= |s| && k < |t| && s[..k] == t[..k] && (k == |s| || s[k] < t[k])
  }

  lemma {:induction false} BeforeIsNegative(s: seq<int>, t: seq<int>, k: nat)
    requires Characters(s) && Characters(t) && Before(s, t, k)
    ensures Compare(s, t) < 0
  {
    if k > 0 {
      assert s[0] == s[..k][0] == t[..k][0] == t[0];
      assert s[1..][..k - 1] == s[..k][1..] && t[1..][..k - 1] == t[..k][1..];
      BeforeIsNegative(s[1..], t[1..], k - 1);
    }
  }

  lemma {:induction false} NegativeIsBefore(s: seq<int>, t: seq<int>) returns (k: nat)
    requires Characters(s) && Characters(t) && Compare(s, t) < 0
    ensures Before(s, t, k)
  {
    if s == [] || s[0] != t[0] {
      k := 0;
    } else {
      k := NegativeIsBefore(s[1..], t[1..]);
      k := k + 1;
      assert s[..k] == [s[0]] + s[1..][..k - 1] && t[..k] == [t[0]] + t[1..][..k - 1];
    }
  }

  /** The sign is the lexicographic order. */
  lemma SignIsLexicographic(s: seq<int>, t: seq<int>)
    requires Characters(s) && Characters(t)
    ensures Compare(s, t) < 0 <==> exists k :: Before(s, t, k)
  {
    if Compare(s, t) < 0 {
      var k := NegativeIsBefore(s, t);
    } else if exists k :: Before(s, t, k) {
      var k :| Before(s, t, k);
      BeforeIsNegative(s, t, k);
    }
  }

  lemma {:induction false} ZeroExactlyWhenEqual(s: seq<int>, t: seq<int>)
    requires Characters(s) && Characters(t)
    ensures Compare(s, t) == 0 <==> s == t
  {
    if s != [] && t != [] && s[0] == t[0] {
      ZeroExactlyWhenEqual(s[1..], t[1..]);
      assert s == [s[0]] + s[1..] && t == [t[0]] + t[1..];
    }
  }

  lemma {:induction false} Antisymmetric(s: seq<int>, t: seq<int>)
    ensures Compare(t, s) == -Compare(s, t)
  {
    if s != [] && t != [] && s[0] == t[0] {
      Antisymmetric(s[1..], t[1..]);
    }
  }

  lemma {:induction false} Transitive(s: seq<int>, t: seq<int>, u: seq<int>)
    requires Characters(s) && Characters(t) && Characters(u)
    requires Compare(s, t) <= 0 && Compare(t, u) <= 0
    ensures Compare(s, u) <= 0
  {
    if s != [] && t != [] && u != [] && s[0] == t[0] == u[0] {
      Transitive(s[1..], t[1..], u[1..]);
    }
  }

  /** s and t agree up to position k, and differ there, or one of them ends. */
  ghost predicate PartAt(s: seq<int>, t: seq<int>, k: nat) {
    && k <= |s| && k <= |t| && s[..k] == t[..k]
    && (if k < |s| && k < |t| then s[k] != t[k] else k < |s| || k < |t|)
  }

  /** The value is the difference of the first two differing characters, an end counting as zero. */
  lemma {:induction false} ValueWhereTheyPart(s: seq<int>, t: seq<int>, k: nat)
    requires Characters(s) && Characters(t) && PartAt(s, t, k)
    ensures Compare(s, t) == (if k < |s| then s[k] else 0) - (if k < |t| then t[k] else 0)
  {
    if k > 0 {
      assert s[0] == s[..k][0] == t[..k][0] == t[0];
      assert s[1..][..k - 1] == s[..k][1..] && t[1..][..k - 1] == t[..k][1..];
      ValueWhereTheyPart(s[1..], t[1..], k - 1);
    }
  }

  // ---------------------------------------------------------------- the two loops

  /** The comparison of the strings at p and q, read off memory. */
  ghost function CompareAt(m: seq<int>, p: nat, q: nat): int
    requires Terminated(m, p) && Terminated(m, q)
    decreases |m| - p
  {
    if m[p] == 0 || m[p] != m[q] then m[p] - m[q]
    else
      StrLenNext(m, p);
      StrLenNext(m, q);
      CompareAt(m, p + 1, q + 1)
  }

  lemma {:induction false} CompareAtIsCompare(m: seq<int>, p: nat, q: nat)
    requires Terminated(m, p) && Terminated(m, q)
    ensures CompareAt(m, p, q) == Compare(Text(m, p), Text(m, q))
    decreases |m| - p
  {
    StrLenNext(m, p);
    StrLenNext(m, q);
    if m[p] != 0 && m[p] == m[q] {
      CompareAtIsCompare(m, p + 1, q + 1);
    }
  }

  method EfiStrCmp(mem: array<CHAR16>, String: nat, String2: nat) returns (result: int)
    requires Terminated(mem[..], String) && Terminated(mem[..], String2)
    ensures result == CompareAt(mem[..], String, String2)
  {
    var p: nat, q: nat := String, String2;
    while mem[p] != 0
      invariant String <= p && Terminated(mem[..], p) && Terminated(mem[..], q)
      invariant CompareAt(mem[..], p, q) == CompareAt(mem[..], String, String2)
      decreases mem.Length - p
    {
      if mem[p] != mem[q] {
        break;
      }
      StrLenNext(mem[..], p);
      StrLenNext(mem[..], q);
      p, q := p + 1, q + 1;
    }
    result := mem[p] as int - mem[q] as int;
  }

  lemma StillReadable(m: seq<int>, p: nat, n: nat)
    requires n > 0 && (Terminated(m, p) || p + n <= |m|) && m[p] != 0
    ensures Terminated(m, p + 1) || p + 1 + (n - 1) <= |m|
    ensures Terminated(m, p) ==> Terminated(m, p + 1)
  {
    if Terminated(m, p) {
      StrLenNext(m, p);
    }
  }

  /** The cells at p up to the first zero, but no more than n of them. */
  ghost function CutText(m: seq<int>, p: nat, n: nat): (s: seq<int>)
    requires Terminated(m, p) || p + n <= |m|
    decreases n
  {
    if n == 0 || m[p] == 0 then []
    else
      StillReadable(m, p, n);
      [m[p]] + CutText(m, p + 1, n - 1)
  }

  lemma {:induction false} CutTextIsPrefix(m: seq<int>, p: nat, n: nat)
    requires Terminated(m, p)
    ensures CutText(m, p, n) == Text(m, p)[..Min(n, StrLen(m, p))]
    decreases n
  {
    StrLenNext(m, p);
    if n > 0 && m[p] != 0 {
      CutTextIsPrefix(m, p + 1, n - 1);
    }
  }

  ghost function CompareAtMost(m: seq<int>, p: nat, q: nat, n: nat): int
    requires Terminated(m, p) || p + n <= |m|
    requires Terminated(m, q) || q + n <= |m|
    decreases n
  {
    if n == 0 then 0
    else if m[p] == 0 || m[p] != m[q] then m[p] - m[q]
    else
      StillReadable(m, p, n);
      StillReadable(m, q, n);
      CompareAtMost(m, p + 1, q + 1, n - 1)
  }

  /** The bounded comparison is the unbounded one on both strings cut to n characters. */
  lemma {:induction false} BoundedCompareCutsBoth(m: seq<int>, p: nat, q: nat, n: nat)
    requires Terminated(m, p) || p + n <= |m|
    requires Terminated(m, q) || q + n <= |m|
    ensures CompareAtMost(m, p, q, n) == Compare(CutText(m, p, n), CutText(m, q, n))
    decreases n
  {
    if n > 0 && m[p] != 0 && m[p] == m[q] {
      StillReadable(m, p, n);
      StillReadable(m, q, n);
      BoundedCompareCutsBoth(m, p + 1, q + 1, n - 1);
    }
  }

  /** The loop looks at *String before it looks at Length, so one cell more than Length must be
      readable when the first string has no terminator in range. */
  method EfiStrnCmp(mem: array<CHAR16>, String: nat, String2: nat, Length: nat) returns (result: int)
    requires Terminated(mem[..], String) || String + Length < mem.Length
    requires Terminated(mem[..], String2) || String2 + Length <= mem.Length
    ensures result == CompareAtMost(mem[..], String, String2, Length)
  {
    var p: nat, q: nat, length: nat := String, String2, Length;
    while mem[p] != 0 && length != 0
      invariant Terminated(mem[..], p) || p + length < mem.Length
      invariant Terminated(mem[..], q) || q + length <= mem.Length
      invariant CompareAtMost(mem[..], p, q, length) == CompareAtMost(mem[..], String, String2, Length)
      decreases length
    {
      if mem[p] != mem[q] {
        break;
      }
      StillReadable(mem[..], p, length);
      StillReadable(mem[..], q, length);
      p, q, length := p + 1, q + 1, length - 1;
    }
    result := if length > 0 then mem[p] as int - mem[q] as int else 0;
  }
}
