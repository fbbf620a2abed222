/** Finding the first occurrence of one string in another. */
module StringSearch {
  import opened Machine
  import opened Strings

  datatype Pointer = Null | At(offset: nat)

  /** The k cells at x are the k cells at q. */
  ghost predicate Matches(m: seq<int>, x: nat, q: nat, k: nat)
    requires x + k <= |m| && q + k <= |m|
  {
    forall i :: q <= i < q + k ==> m[x + (i - q)] == m[i]
  }

  /** The string at q occurs at position x, before cell `end`. */
  ghost predicate OccursAt(m: seq<int>, x: nat, end: nat, q: nat)
    requires Terminated(m, q) && end <= |m|
  {
    x + StrLen(m, q) <= end && Matches(m, x, q, StrLen(m, q))
  }

  /** r points to the first occurrence, or is Null because there is none. */
  ghost predicate IsFirstOccurrence(m: seq<int>, p: nat, q: nat, r: Pointer)
    requires Terminated(m, p) && Terminated(m, q)
  {
    match r
    case At(x) =>
      p <= x && OccursAt(m, x, EndOf(m, p), q) && forall y :: p <= y < x ==> !OccursAt(m, y, EndOf(m, p), q)
    case Null =>
      forall y :: p <= y ==> !OccursAt(m, y, EndOf(m, p), q)
  }

  lemma OccurrenceInText(m: seq<int>, p: nat, q: nat, x: nat)
    requires Terminated(m, p) && Terminated(m, q) && p <= x
    ensures OccursAt(m, x, EndOf(m, p), q)
      <==> x <= EndOf(m, p) && Text(m, q) <= Text(m, p)[x - p..]
  {
    if x <= EndOf(m, p) {
      var rest, pattern := Text(m, p)[x - p..], Text(m, q);
      assert rest == m[x..EndOf(m, p)];
      if OccursAt(m, x, EndOf(m, p), q) {
        forall i | 0 <= i < |pattern| ensures pattern[i] == rest[i] {
          assert m[x + (q + i - q)] == m[q + i];
        }
      }
      if pattern <= rest {
        forall i | q <= i < q + |pattern| ensures m[x + (i - q)] == m[i] {
          assert pattern[i - q] == rest[i - q];
        }
      }
    }
  }

  lemma Mismatch(m: seq<int>, x: nat, end: nat, q: nat, k: nat)
    requires Terminated(m, q) && k < StrLen(m, q) && x + k < end <= |m| && m[x + k] != m[q + k]
    ensures !OccursAt(m, x, end, q)
  {
    assert m[x + (q + k - q)] != m[q + k];
  }

  /** After a mismatch the search steps back, to one past where it last started. */
  method EfiStrStr(mem: array<CHAR16>, String: nat, StrCharSet: nat) returns (result: Pointer)
    requires Terminated(mem[..], String) && Terminated(mem[..], StrCharSet)
    ensures IsFirstOccurrence(mem[..], String, StrCharSet, result)
  {
    ghost var m := mem[..];
    ghost var end, subLen := EndOf(m, String), StrLen(m, StrCharSet);
    ghost var k := 0;
    var string', strCharSet := String, StrCharSet;
    var src, sub := String, StrCharSet;
    while mem[string'] != 0 && mem[strCharSet] != 0
      invariant String <= src && string' == src + k <= end && strCharSet == sub + k && 0 <= k <= subLen
      invariant Matches(m, src, sub, k)
      invariant forall y :: String <= y < src ==> !OccursAt(m, y, end, sub)
      decreases end - src, subLen - k
    {
      var differ := mem[string'] != mem[strCharSet];
      string', strCharSet := string' + 1, strCharSet + 1;
      if differ {
        Mismatch(m, src, end, sub, k);
        src := src + 1;
        string', strCharSet := src, sub;
        k := 0;
      } else {
        k := k + 1;
      }
    }
    if mem[strCharSet] == 0 {
      result := At(src);
    } else {
      result := Null;
    }
  }
}
