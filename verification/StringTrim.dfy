/** Removing a character from both ends of a string, in place. */
module StringTrim {
  import opened Machine
  import opened Memory
  import opened Strings

  function TrimLeft(s: seq<int>, c: int): seq<int> {
    if s != [] && s[0] == c then TrimLeft(s[1..], c) else s
  }

  function TrimRight(s: seq<int>, c: int): seq<int> {
    if s != [] && s[|s| - 1] == c then TrimRight(s[..|s| - 1], c) else s
  }

  function Trim(s: seq<int>, c: int): seq<int> {
    TrimRight(TrimLeft(s, c), c)
  }

  // ---------------------------------------------------------------- what trimming means

  /** s[i..j] is s without the c's at its ends. */
  ghost predicate IsCore(s: seq<int>, c: int, i: nat, j: nat) {
    && i <= j <= |s|
    && (forall x :: 0 <= x < i || j <= x < |s| ==> s[x] == c)
    && (i < j ==> s[i] != c && s[j - 1] != c)
  }

  lemma {:induction false} TrimLeftSkips(s: seq<int>, c: int, i: nat)
    requires i <= |s| && (forall x :: 0 <= x < i ==> s[x] == c) && (i < |s| ==> s[i] != c)
    ensures TrimLeft(s, c) == s[i..]
  {
    if i > 0 {
      TrimLeftSkips(s[1..], c, i - 1);
    }
  }

  lemma {:induction false} TrimRightSkips(s: seq<int>, c: int, j: nat)
    requires j <= |s| && (forall x :: j <= x < |s| ==> s[x] == c) && (j > 0 ==> s[j - 1] != c)
    ensures TrimRight(s, c) == s[..j]
    decreases |s|
  {
    if j < |s| {
      TrimRightSkips(s[..|s| - 1], c, j);
      assert s[..|s| - 1][..j] == s[..j];
    } else {
      assert s[..j] == s;
    }
  }

  lemma {:induction false} TrimLeftOfConstant(s: seq<int>, c: int)
    requires forall x :: 0 <= x < |s| ==> s[x] == c
    ensures TrimLeft(s, c) == []
  {
    if s != [] {
      TrimLeftOfConstant(s[1..], c);
    }
  }

  /** Whatever core is found, it is the trimmed string: there is only one. */
  lemma CoreIsTrim(s: seq<int>, c: int, i: nat, j: nat)
    requires IsCore(s, c, i, j)
    ensures Trim(s, c) == s[i..j]
  {
    if i < j {
      TrimLeftSkips(s, c, i);
      TrimRightSkips(s[i..], c, j - i);
      assert s[i..][..j - i] == s[i..j];
    } else {
      TrimLeftOfConstant(s, c);
    }
  }

  lemma {:induction false} FindCore(s: seq<int>, c: int) returns (i: nat, j: nat)
    ensures IsCore(s, c, i, j)
  {
    if s == [] {
      i, j := 0, 0;
    } else if s[0] == c {
      i, j := FindCore(s[1..], c);
      i, j := i + 1, j + 1;
      assert forall x :: 0 < x < |s| ==> s[x] == s[1..][x - 1];
    } else if s[|s| - 1] == c {
      i, j := FindCore(s[..|s| - 1], c);
    } else {
      i, j := 0, |s|;
    }
  }

  /** Every stretch of s whose two end characters differ from c lies inside the trimmed string, so
      that one is the longest. */
  lemma TrimIsLongest(s: seq<int>, c: int, a: nat, b: nat) returns (k: nat)
    requires a < b <= |s| && s[a] != c && s[b - 1] != c
    ensures k + (b - a) <= |Trim(s, c)|
    ensures Trim(s, c)[k..k + (b - a)] == s[a..b]
  {
    var i, j := FindCore(s, c);
    CoreIsTrim(s, c, i, j);
    assert i <= a && b <= j;
    k := a - i;
    assert forall x :: 0 <= x < b - a ==> Trim(s, c)[k..k + (b - a)][x] == s[a..b][x];
  }

  lemma TrimIsIdempotent(s: seq<int>, c: int)
    ensures Trim(Trim(s, c), c) == Trim(s, c)
  {
    var i, j := FindCore(s, c);
    CoreIsTrim(s, c, i, j);
    var t := Trim(s, c);
    CoreIsTrim(t, c, 0, |t|);
  }

  // ---------------------------------------------------------------- the routine

  /** Dropping i leading c's and shifting the rest of the string down over them. */
  lemma ShiftedText(m: seq<int>, p: nat, c: int, i: nat)
    requires Terminated(m, p) && i <= StrLen(m, p)
    requires (forall x :: p <= x < p + i ==> m[x] == c) && (m[p + i] != c || i == StrLen(m, p))
    ensures
      var r := Moved(m, p, p + i, StrLen(m, p) - i + 1);
      && Terminated(m, p + i) && r == StringCopied(m, p, p + i)
      && Terminated(r, p) && StrLen(r, p) == StrLen(m, p) - i
      && Text(r, p) == TrimLeft(Text(m, p), c)
      && (i == 0 ==> r == m)
  {
    RestOfString(m, p, p + i);
    var text := Text(m, p);
    forall x | 0 <= x < i ensures text[x] == c {
      assert text[x] == m[p + x];
    }
    TrimLeftSkips(text, c, i);
    TextIs(Moved(m, p, p + i, StrLen(m, p) - i + 1), p, text[i..]);
    assert i == 0 ==> Moved(m, p, p, StrLen(m, p) + 1) == m;
  }

  /** Cutting the string in front of its trailing c's. */
  lemma ShortenedText(m: seq<int>, p: nat, c: int, j: nat)
    requires Terminated(m, p) && j <= StrLen(m, p)
    requires (forall x :: p + j <= x < EndOf(m, p) ==> m[x] == c) && (j > 0 ==> m[p + j - 1] != c)
    ensures Terminated(m[p + j := 0], p) && Text(m[p + j := 0], p) == TrimRight(Text(m, p), c)
  {
    var text := Text(m, p);
    forall x | j <= x < |text| ensures text[x] == c {
      assert text[x] == m[p + x];
    }
    TrimRightSkips(text, c, j);
    TextIs(m[p + j := 0], p, text[..j]);
  }

  method SkipLeading(mem: array<CHAR16>, str: nat, CharC: CHAR16) returns (p1: nat)
    requires Terminated(mem[..], str)
    ensures str <= p1 <= EndOf(mem[..], str)
    ensures forall x :: str <= x < p1 ==> mem[..][x] == CharC
    ensures mem[..][p1] != CharC || p1 == EndOf(mem[..], str)
  {
    ghost var end := EndOf(mem[..], str);
    p1 := str;
    while mem[p1] != 0 && mem[p1] == CharC
      invariant str <= p1 <= end && forall x :: str <= x < p1 ==> mem[..][x] == CharC
      decreases end - p1
    {
      p1 := p1 + 1;
    }
  }

  /** Phase one: skip the leading characters, then shift the rest of the string down, in place. */
  method TrimLeading(mem: array<CHAR16>, str: nat, CharC: CHAR16)
    requires Terminated(mem[..], str)
    modifies mem
    ensures Terminated(mem[..], str) && StrLen(mem[..], str) <= old(StrLen(mem[..], str))
    ensures Text(mem[..], str) == TrimLeft(old(Text(mem[..], str)), CharC)
    ensures forall x :: 0 <= x < str || old(EndOf(mem[..], str)) < x < mem.Length ==> mem[x] == old(mem[x])
  {
    ghost var m, end := mem[..], EndOf(mem[..], str);
    var p1 := SkipLeading(mem, str, CharC);
    assert mem[..] == m;
    ShiftedText(m, str, CharC, p1 - str);
    var p2 := str;
    if p2 == p1 {
      while mem[p1] != 0
        invariant p1 <= end
        decreases end - p1
      {
        p2, p1 := p2 + 1, p1 + 1;
      }
    } else {
      // the copy loop of EfiStrCpy, statement for statement
      EfiStrCpy(mem, p2, p1);
    }
  }

  /** Phase two: cut the string in front of its trailing characters. */
  method TrimTrailing(mem: array<CHAR16>, str: nat, CharC: CHAR16)
    requires Terminated(mem[..], str)
    modifies mem
    ensures Terminated(mem[..], str)
    ensures Text(mem[..], str) == TrimRight(old(Text(mem[..], str)), CharC)
    ensures forall x :: 0 <= x < str || old(EndOf(mem[..], str)) < x < mem.Length ==> mem[x] == old(mem[x])
  {
    ghost var m := mem[..];
    var n := EfiStrLen(mem, str);
    assert mem[..] == m;
    var p1: int := str + n - 1;
    while p1 >= str && mem[p1] == CharC
      invariant str - 1 <= p1 < str + n
      invariant forall x :: p1 < x < str + n ==> m[x] == CharC
    {
      p1 := p1 - 1;
    }
    n := EfiStrLen(mem, str);
    assert mem[..] == m;
    ShortenedText(m, str, CharC, p1 + 1 - str);
    if p1 != str + n - 1 {
      mem[p1 + 1] := 0;
    } else {
      assert m[p1 + 1 := 0] == m;
    }
  }

  method EfiStrTrim(mem: array<CHAR16>, str: nat, CharC: CHAR16)
    requires Terminated(mem[..], str)
    modifies mem
    ensures Terminated(mem[..], str)
    ensures Text(mem[..], str) == Trim(old(Text(mem[..], str)), CharC)
    ensures forall x :: 0 <= x < str || old(EndOf(mem[..], str)) < x < mem.Length ==> mem[x] == old(mem[x])
  {
    if mem[str] == 0 {
      StrLenNext(mem[..], str);
      return;
    }
    TrimLeading(mem, str, CharC);
    TrimTrailing(mem, str, CharC);
  }
}
