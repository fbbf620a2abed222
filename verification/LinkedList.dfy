/** Circular doubly linked lists with the head embedded in the ring.

    A head and an element have the same type, and only the caller knows which entries are
    heads. The caller's view of all the lists that are alive at once is a value of type
    `Lists`: each head mapped to its elements in order. `WellFormed` ties that value to the
    links in memory, and every operation is proved against a function on that value.
 */
module LinkedList {

  class ListEntry {
    var ForwardLink: ListEntry?
    var BackLink: ListEntry?
  }

  type Lists = map<ListEntry, seq<ListEntry>>

  // ---------------------------------------------------------------- the abstract lists

  ghost function Nodes(lists: Lists): set<ListEntry> {
    set h, x | h in lists && x in [h] + lists[h] :: x
  }

  ghost predicate NoDuplicates(s: seq<ListEntry>) {
    forall i, j :: 0 <= i < j < |s| ==> s[i] != s[j]
  }

  /** No entry occurs twice: not within one ring, not in two rings. */
  ghost predicate Separate(lists: Lists) {
    && (forall h :: h in lists ==> NoDuplicates([h] + lists[h]))
    && (forall h, k, x :: h in lists && k in lists && x in [h] + lists[h] && x in [k] + lists[k] ==> h == k)
  }

  ghost predicate IsElement(lists: Lists, e: ListEntry) {
    exists h :: h in lists && e in lists[h]
  }

  ghost function Without(s: seq<ListEntry>, e: ListEntry): (r: seq<ListEntry>)
    ensures e !in s ==> r == s
  {
    if s == [] then [] else if s[0] == e then s[1..] else [s[0]] + Without(s[1..], e)
  }

  /** s with e placed directly in front of x; s itself when x does not occur in it. */
  ghost function PlacedBefore(s: seq<ListEntry>, x: ListEntry, e: ListEntry): (r: seq<ListEntry>)
    ensures x !in s ==> r == s
  {
    if s == [] then [] else if s[0] == x then [e] + s else [s[0]] + PlacedBefore(s[1..], x, e)
  }

  ghost function Removed(lists: Lists, e: ListEntry): Lists {
    map h | h in lists :: Without(lists[h], e)
  }

  ghost function PlacedIn(lists: Lists, e1: ListEntry, e2: ListEntry): Lists {
    map h | h in lists :: PlacedBefore(lists[h], e1, e2)
  }

  ghost function MovedBefore(lists: Lists, e1: ListEntry, e2: ListEntry): Lists {
    PlacedIn(Removed(lists, e2), e1, e2)
  }

  ghost predicate DirectlyBefore(lists: Lists, a: ListEntry, b: ListEntry) {
    exists h, k :: h in lists && 0 <= k < |lists[h]| - 1 && lists[h][k] == a && lists[h][k + 1] == b
  }

  ghost function InsertAt(s: seq<ListEntry>, k: nat, e: ListEntry): seq<ListEntry>
    requires k <= |s|
  {
    s[..k] + [e] + s[k..]
  }

  ghost function CutAt(s: seq<ListEntry>, k: nat): seq<ListEntry>
    requires k < |s|
  {
    s[..k] + s[k + 1..]
  }

  // ---------------------------------------------------------------- the links in memory

  /** A snapshot of the two link fields of some entries. */
  datatype Links = Links(fwd: map<ListEntry, ListEntry?>, back: map<ListEntry, ListEntry?>)

  ghost function LinksOf(nodes: set<ListEntry>): Links
    reads nodes
  {
    Links(map x | x in nodes :: x.ForwardLink, map x | x in nodes :: x.BackLink)
  }

  lemma SnapshotIs(nodes: set<ListEntry>, links: Links)
    requires links.fwd.Keys == nodes == links.back.Keys
    requires forall x :: x in nodes ==> x.ForwardLink == links.fwd[x]
    requires forall x :: x in nodes ==> x.BackLink == links.back[x]
    ensures LinksOf(nodes) == links
  {
    assert LinksOf(nodes).fwd == links.fwd;
    assert LinksOf(nodes).back == links.back;
  }

  ghost function Succ(i: nat, n: nat): nat
    requires i < n
  {
    if i + 1 == n then 0 else i + 1
  }

  ghost predicate Joined(a: ListEntry, b: ListEntry, links: Links) {
    a in links.fwd && links.fwd[a] == b && b in links.back && links.back[b] == a
  }

  /** Forward and back links are inverse and form one cycle through the entries of r in order. */
  ghost predicate Linked(r: seq<ListEntry>, links: Links) {
    forall i :: 0 <= i < |r| ==> Joined(r[i], r[Succ(i, |r|)], links)
  }

  ghost predicate Consistent(lists: Lists, links: Links) {
    && Separate(lists)
    && (forall h :: h in lists ==> Linked([h] + lists[h], links))
  }

  /** The memory `arena` holds exactly the given lists: every ring is one cycle in the given
      order, and all of its entries lie in the arena. */
  ghost predicate WellFormed(lists: Lists, arena: set<ListEntry>)
    reads arena
  {
    Nodes(lists) <= arena && Consistent(lists, LinksOf(arena))
  }

  // ---------------------------------------------------------------- facts about positions

  lemma {:induction false} WithoutAt(s: seq<ListEntry>, k: nat)
    requires k < |s| && NoDuplicates(s)
    ensures Without(s, s[k]) == CutAt(s, k)
  {
    if k > 0 {
      assert s[0] != s[k];
      WithoutAt(s[1..], k - 1);
      assert s[..k] + s[k + 1..] == [s[0]] + (s[1..][..k - 1] + s[1..][k..]);
    }
  }

  lemma {:induction false} PlacedBeforeAt(s: seq<ListEntry>, k: nat, e: ListEntry)
    requires k < |s| && NoDuplicates(s)
    ensures PlacedBefore(s, s[k], e) == InsertAt(s, k, e)
  {
    if k > 0 {
      assert s[0] != s[k];
      PlacedBeforeAt(s[1..], k - 1, e);
      assert s[..k] + [e] + s[k..] == [s[0]] + (s[1..][..k - 1] + [e] + s[1..][k - 1..]);
    } else {
      assert s[..k] + [e] + s[k..] == [e] + s;
    }
  }

  lemma TailNoDuplicates(lists: Lists, h: ListEntry)
    requires Separate(lists) && h in lists
    ensures NoDuplicates(lists[h]) && h !in lists[h]
  {
    var r := [h] + lists[h];
    forall i, j | 0 <= i < j < |lists[h]| ensures lists[h][i] != lists[h][j] {
      assert r[i + 1] != r[j + 1];
    }
    forall i | 0 <= i < |lists[h]| ensures lists[h][i] != h {
      assert r[0] != r[i + 1];
    }
  }

  lemma InOneRing(lists: Lists, h: ListEntry, g: ListEntry, x: ListEntry)
    requires Separate(lists) && h in lists && g in lists && g != h && x in [h] + lists[h]
    ensures x !in [g] + lists[g]
  {
  }

  lemma RemovedAt(lists: Lists, h: ListEntry, k: nat)
    requires Separate(lists) && h in lists && k < |lists[h]|
    ensures Removed(lists, lists[h][k]) == lists[h := CutAt(lists[h], k)]
  {
    TailNoDuplicates(lists, h);
    WithoutAt(lists[h], k);
    var e := lists[h][k];
    assert e in [h] + lists[h];
    forall g | g in lists && g != h ensures Without(lists[g], e) == lists[g] {
      InOneRing(lists, h, g, e);
      assert forall x :: x in lists[g] ==> x in [g] + lists[g];
    }
  }

  // ---------------------------------------------------------------- changing one ring

  /** The entry in front of position k of a list, and the one at or behind it. */
  ghost function PrevAt(h: ListEntry, s: seq<ListEntry>, k: nat): ListEntry
    requires k <= |s|
  {
    if k == 0 then h else s[k - 1]
  }

  ghost function EntryAt(h: ListEntry, s: seq<ListEntry>, k: nat): ListEntry
    requires k <= |s|
  {
    if k == |s| then h else s[k]
  }

  ghost function Unlinked(links: Links, prev: ListEntry, next: ListEntry): Links {
    Links(links.fwd[prev := next], links.back[next := prev])
  }

  ghost function LinkedIn(links: Links, prev: ListEntry, e: ListEntry, next: ListEntry): Links {
    Links(links.fwd[e := next][prev := e], links.back[e := prev][next := e])
  }

  lemma UnlinkRing(h: ListEntry, s: seq<ListEntry>, k: nat, links: Links)
    requires Linked([h] + s, links) && NoDuplicates([h] + s) && k < |s|
    ensures Linked([h] + CutAt(s, k), Unlinked(links, PrevAt(h, s, k), EntryAt(h, s, k + 1)))
  {
    var r, q, n := [h] + s, [h] + CutAt(s, k), |s|;
    var prev, next := PrevAt(h, s, k), EntryAt(h, s, k + 1);
    assert prev == r[k] && next == r[Succ(k + 1, n + 1)];
    forall i | 0 <= i < n ensures Joined(q[i], q[Succ(i, n)], Unlinked(links, prev, next)) {
      if i == k {
        assert q[i] == prev && q[Succ(i, n)] == next;
      } else {
        var j := if i < k then i else i + 1;
        assert q[i] == r[j] && q[Succ(i, n)] == r[Succ(j, n + 1)];
        assert Joined(r[j], r[Succ(j, n + 1)], links);
      }
    }
  }

  lemma LinkRing(h: ListEntry, s: seq<ListEntry>, k: nat, e: ListEntry, links: Links)
    requires Linked([h] + s, links) && NoDuplicates([h] + s) && k <= |s| && e !in [h] + s
    ensures Linked([h] + InsertAt(s, k, e), LinkedIn(links, PrevAt(h, s, k), e, EntryAt(h, s, k)))
  {
    var r, q, n := [h] + s, [h] + InsertAt(s, k, e), |s| + 2;
    var prev, next := PrevAt(h, s, k), EntryAt(h, s, k);
    assert prev == r[k] && next == r[Succ(k, n - 1)];
    forall i | 0 <= i < n ensures Joined(q[i], q[Succ(i, n)], LinkedIn(links, prev, e, next)) {
      if i == k {
        assert q[i] == prev && q[Succ(i, n)] == e;
      } else if i == k + 1 {
        assert q[i] == e && q[Succ(i, n)] == next;
      } else {
        var j := if i < k then i else i - 1;
        assert q[i] == r[j] && q[Succ(i, n)] == r[Succ(j, n - 1)];
        assert Joined(r[j], r[Succ(j, n - 1)], links);
      }
    }
  }

  lemma SeparateWithout(lists: Lists, h: ListEntry, k: nat)
    requires Separate(lists) && h in lists && k < |lists[h]|
    ensures Separate(lists[h := CutAt(lists[h], k)])
    ensures Nodes(lists[h := CutAt(lists[h], k)]) <= Nodes(lists)
  {
    var s := lists[h];
    assert [h] + CutAt(s, k) == ([h] + s)[..k + 1] + ([h] + s)[k + 2..];
    assert forall x :: x in [h] + CutAt(s, k) ==> x in [h] + s;
  }

  lemma SeparateWith(lists: Lists, h: ListEntry, k: nat, e: ListEntry)
    requires Separate(lists) && h in lists && k <= |lists[h]| && e !in Nodes(lists)
    ensures Separate(lists[h := InsertAt(lists[h], k, e)])
    ensures Nodes(lists[h := InsertAt(lists[h], k, e)]) <= Nodes(lists) + {e}
  {
    var s := lists[h];
    var r := [h] + s;
    assert e !in r;
    assert [h] + InsertAt(s, k, e) == r[..k + 1] + [e] + r[k + 1..];
    assert forall x :: x in [h] + InsertAt(s, k, e) ==> x in r || x == e;
  }

  /** Rewriting the two links around position k of one list takes that entry out of that list
      and leaves every other list as it was. */
  lemma UnlinkAt(lists: Lists, h: ListEntry, k: nat, links: Links)
    requires Consistent(lists, links) && h in lists && k < |lists[h]|
    ensures Consistent(lists[h := CutAt(lists[h], k)],
                       Unlinked(links, PrevAt(h, lists[h], k), EntryAt(h, lists[h], k + 1)))
    ensures Nodes(lists[h := CutAt(lists[h], k)]) <= Nodes(lists)
  {
    var s := lists[h];
    SeparateWithout(lists, h, k);
    UnlinkRing(h, s, k, links);
    var prev, next := PrevAt(h, s, k), EntryAt(h, s, k + 1);
    forall g | g in lists && g != h ensures Linked([g] + lists[g], Unlinked(links, prev, next)) {
      assert prev in [h] + s && next in [h] + s;
      InOneRing(lists, h, g, prev);
      InOneRing(lists, h, g, next);
    }
  }

  /** Rewriting four links places a fresh entry e at position k of one list. */
  lemma LinkAt(lists: Lists, h: ListEntry, k: nat, e: ListEntry, links: Links)
    requires Consistent(lists, links) && h in lists && k <= |lists[h]| && e !in Nodes(lists)
    ensures Consistent(lists[h := InsertAt(lists[h], k, e)],
                       LinkedIn(links, PrevAt(h, lists[h], k), e, EntryAt(h, lists[h], k)))
    ensures Nodes(lists[h := InsertAt(lists[h], k, e)]) <= Nodes(lists) + {e}
  {
    var s := lists[h];
    SeparateWith(lists, h, k, e);
    assert e !in [h] + s;
    LinkRing(h, s, k, e, links);
    var prev, next := PrevAt(h, s, k), EntryAt(h, s, k);
    forall g | g in lists && g != h ensures Linked([g] + lists[g], LinkedIn(links, prev, e, next)) {
      assert prev in [h] + s && next in [h] + s && e !in [g] + lists[g];
      InOneRing(lists, h, g, prev);
      InOneRing(lists, h, g, next);
    }
  }

  /** What well-formed links say around position k of one list. */
  lemma LinksAround(lists: Lists, h: ListEntry, k: nat, links: Links)
    requires Consistent(lists, links) && h in lists && k <= |lists[h]|
    ensures Joined(PrevAt(h, lists[h], k), EntryAt(h, lists[h], k), links)
    ensures PrevAt(h, lists[h], k) in Nodes(lists) && EntryAt(h, lists[h], k) in Nodes(lists)
  {
    var s, r := lists[h], [h] + lists[h];
    assert Joined(r[k], r[Succ(k, |r|)], links);
    assert r[k] == PrevAt(h, s, k) && r[Succ(k, |r|)] == EntryAt(h, s, k);
    assert r[k] in r && r[Succ(k, |r|)] in r;
  }

  /** Where an element is, and what its own two links say. */
  lemma Locate(lists: Lists, e: ListEntry, links: Links) returns (h: ListEntry, k: nat)
    requires Consistent(lists, links) && IsElement(lists, e)
    ensures h in lists && k < |lists[h]| && lists[h][k] == e
    ensures Joined(PrevAt(h, lists[h], k), e, links) && Joined(e, EntryAt(h, lists[h], k + 1), links)
    ensures {PrevAt(h, lists[h], k), e, EntryAt(h, lists[h], k + 1)} <= Nodes(lists)
  {
    h :| h in lists && e in lists[h];
    k :| 0 <= k < |lists[h]| && lists[h][k] == e;
    LinksAround(lists, h, k, links);
    LinksAround(lists, h, k + 1, links);
  }

  ghost predicate HasNeighbours(e: ListEntry, links: Links) {
    && e in links.fwd && links.fwd[e] != null && links.fwd[e] in links.back
    && e in links.back && links.back[e] != null && links.back[e] in links.fwd
  }

  lemma ElementHasNeighbours(lists: Lists, e: ListEntry, links: Links)
    requires Consistent(lists, links) && IsElement(lists, e)
    ensures HasNeighbours(e, links)
  {
    var h, k := Locate(lists, e, links);
  }

  lemma PlacedInAt(lists: Lists, h: ListEntry, k: nat, e: ListEntry)
    requires Separate(lists) && h in lists && k < |lists[h]|
    ensures PlacedIn(lists, lists[h][k], e) == lists[h := InsertAt(lists[h], k, e)]
  {
    TailNoDuplicates(lists, h);
    PlacedBeforeAt(lists[h], k, e);
    var x := lists[h][k];
    assert x in [h] + lists[h];
    forall g | g in lists && g != h ensures PlacedBefore(lists[g], x, e) == lists[g] {
      InOneRing(lists, h, g, x);
      assert forall y :: y in lists[g] ==> y in [g] + lists[g];
    }
  }

  /** Pointing a head at itself empties its list; the other lists do not notice. */
  lemma ResetHead(lists: Lists, h: ListEntry, links: Links)
    requires Consistent(lists, links) && !IsElement(lists, h)
    ensures Consistent(lists[h := []], Links(links.fwd[h := h], links.back[h := h]))
  {
    var lists', links' := lists[h := []], Links(links.fwd[h := h], links.back[h := h]);
    assert forall g :: g in lists && g != h ==> h !in lists[g];
    forall g | g in lists && g != h ensures Linked([g] + lists[g], links') {
      var r := [g] + lists[g];
      forall i | 0 <= i < |r| ensures Joined(r[i], r[Succ(i, |r|)], links') {
        assert r[i] in r && r[Succ(i, |r|)] in r;
        assert Joined(r[i], r[Succ(i, |r|)], links);
      }
    }
  }

  // ---------------------------------------------------------------- links determine the lists

  /** The first k entries of r have the same forward link in both snapshots. */
  ghost predicate SameForward(r: seq<ListEntry>, k: nat, links: Links, links': Links)
    requires k <= |r|
  {
    forall i :: 0 <= i < k && r[i] in links.fwd ==> r[i] in links'.fwd && links'.fwd[r[i]] == links.fwd[r[i]]
  }

  /** Two rings that start at the same head and find the same links behind their first k entries meet
      the same k + 1 entries. */
  lemma {:induction false} RingFollowsLinks(h: ListEntry, s: seq<ListEntry>, t: seq<ListEntry>, k: nat,
                                            links: Links, links': Links)
    requires NoDuplicates([h] + s) && Linked([h] + s, links) && Linked([h] + t, links') && k <= |s|
    requires SameForward([h] + s, k, links, links')
    ensures k <= |t| && ([h] + t)[..k + 1] == ([h] + s)[..k + 1]
  {
    var r, q := [h] + s, [h] + t;
    if k > 0 {
      RingFollowsLinks(h, s, t, k - 1, links, links');
      assert q[k - 1] == q[..k][k - 1] == r[..k][k - 1] == r[k - 1];
      assert Joined(r[k - 1], r[Succ(k - 1, |r|)], links);
      assert Joined(q[k - 1], q[Succ(k - 1, |q|)], links');
      assert r[k] != r[0];
      assert q[..k + 1] == q[..k] + [q[k]] && r[..k + 1] == r[..k] + [r[k]];
    }
  }

  /** Memory holds at most one collection of lists with given heads. */
  lemma LinksDetermineLists(lists: Lists, lists': Lists, links: Links)
    requires Consistent(lists, links) && Consistent(lists', links) && lists.Keys == lists'.Keys
    ensures lists == lists'
  {
    forall h | h in lists ensures lists[h] == lists'[h] {
      var r, q := [h] + lists[h], [h] + lists'[h];
      RingFollowsLinks(h, lists[h], lists'[h], |lists[h]|, links, links);
      RingFollowsLinks(h, lists'[h], lists[h], |lists'[h]|, links, links);
      assert r[..|r|] == r && q[..|q|] == q;
      assert r[1..] == lists[h] && q[1..] == lists'[h];
    }
  }

  /** No entry follows a in a well-formed ring. */
  ghost predicate DeadEnd(a: ListEntry, links: Links) {
    a in links.fwd && links.fwd[a] != null && links.fwd[a] in links.back ==> links.back[links.fwd[a]] != a
  }

  lemma NoDeadEnd(h: ListEntry, s: seq<ListEntry>, t: seq<ListEntry>, k: nat, links: Links, links': Links)
    requires NoDuplicates([h] + s) && Linked([h] + s, links) && Linked([h] + t, links') && k <= |s|
    requires SameForward([h] + s, k, links, links')
    ensures !DeadEnd(([h] + s)[k], links')
  {
    var r, q := [h] + s, [h] + t;
    RingFollowsLinks(h, s, t, k, links, links');
    assert q[k] == q[..k + 1][k] == r[..k + 1][k] == r[k];
    assert Joined(q[k], q[Succ(k, |q|)], links');
  }

  /** When the walk from a head runs into a dead end, no lists with that head are in memory. */
  lemma NoListsAtDeadEnd(lists: Lists, links: Links, h: ListEntry, k: nat, broken: Links)
    requires Consistent(lists, links) && h in lists && k <= |lists[h]|
    requires SameForward([h] + lists[h], k, links, broken) && DeadEnd(PrevAt(h, lists[h], k), broken)
    ensures forall other: Lists :: h in other ==> !Consistent(other, broken)
  {
    assert PrevAt(h, lists[h], k) == ([h] + lists[h])[k];
    forall other: Lists | h in other ensures !Consistent(other, broken) {
      if Consistent(other, broken) {
        NoDeadEnd(h, lists[h], other[h], k, links, broken);
      }
    }
  }

  // ---------------------------------------------------------------- swapping

  /** The six link updates of a swap, in their order. */
  ghost function SwappedLinks(links: Links, e1: ListEntry, e2: ListEntry,
                              back1: ListEntry, back2: ListEntry, forward2: ListEntry): Links
  {
    LinkedIn(Unlinked(links, back2, forward2), back1, e2, e1)
  }

  lemma CutKeepsOthers(lists: Lists, h: ListEntry, k: nat, x: ListEntry)
    requires Separate(lists) && h in lists && k < |lists[h]|
    requires IsElement(lists, x) && x != lists[h][k]
    ensures IsElement(lists[h := CutAt(lists[h], k)], x)
    ensures lists[h][k] !in Nodes(lists[h := CutAt(lists[h], k)])
  {
    var g :| g in lists && x in lists[g];
    var s, e := lists[h], lists[h][k];
    assert x in lists[h := CutAt(s, k)][g];
    TailNoDuplicates(lists, h);
    assert e in [h] + s;
    forall g | g in lists && g != h ensures e !in [g] + lists[g] {
      InOneRing(lists, h, g, e);
    }
    assert e !in [h] + CutAt(s, k);
  }

  lemma HeadIsNoElement(lists: Lists, h: ListEntry)
    requires Separate(lists) && h in lists
    ensures !IsElement(lists, h)
  {
    forall g | g in lists ensures h !in lists[g] {
      if g == h {
        TailNoDuplicates(lists, h);
      } else {
        InOneRing(lists, h, g, h);
        assert forall x :: x in lists[g] ==> x in [g] + lists[g];
      }
    }
  }

  lemma NotNext(lists: Lists, h: ListEntry, k: nat, e1: ListEntry)
    requires Separate(lists) && h in lists && k < |lists[h]| && IsElement(lists, e1)
    requires !DirectlyBefore(lists, lists[h][k], e1)
    ensures e1 != EntryAt(h, lists[h], k + 1)
  {
    HeadIsNoElement(lists, h);
  }

  lemma SwapKeepsRings(lists: Lists, links: Links, h: ListEntry, k: nat, e1: ListEntry, back1: ListEntry)
    requires Consistent(lists, links) && h in lists && k < |lists[h]|
    requires IsElement(lists, e1) && e1 != lists[h][k] && e1 != EntryAt(h, lists[h], k + 1)
    requires Joined(back1, e1, links)
    ensures
      var e2, lists' := lists[h][k], MovedBefore(lists, e1, lists[h][k]);
      && Consistent(lists', SwappedLinks(links, e1, e2, back1, PrevAt(h, lists[h], k), EntryAt(h, lists[h], k + 1)))
      && Nodes(lists') <= Nodes(lists)
  {
    var e2, prev, next := lists[h][k], PrevAt(h, lists[h], k), EntryAt(h, lists[h], k + 1);
    var lists1, links1 := lists[h := CutAt(lists[h], k)], Unlinked(links, prev, next);
    UnlinkAt(lists, h, k, links);
    RemovedAt(lists, h, k);
    CutKeepsOthers(lists, h, k, e1);
    var h1, k1 := Locate(lists1, e1, links1);
    LinkAt(lists1, h1, k1, e2, links1);
    PlacedInAt(lists1, h1, k1, e2);
    assert e2 in [h] + lists[h];
    assert Nodes(lists1) + {e2} <= Nodes(lists);
  }

  lemma MovedNowhere(lists: Lists, h: ListEntry, k: nat)
    requires Separate(lists) && h in lists && k + 1 < |lists[h]|
    ensures MovedBefore(lists, lists[h][k + 1], lists[h][k]) == lists
  {
    var s, e2 := lists[h], lists[h][k];
    RemovedAt(lists, h, k);
    SeparateWithout(lists, h, k);
    PlacedInAt(Removed(lists, e2), h, k, e2);
    assert InsertAt(CutAt(s, k), k, e2) == s;
  }

  ghost predicate SelfLinked(e: ListEntry, links: Links) {
    e in links.fwd && links.fwd[e] == e && e in links.back && links.back[e] == e
  }

  /** With Entry2 already directly in front of Entry1, Entry2 ends up pointing at itself, and the head
      of its list no longer heads any list at all. */
  lemma SwapBreaksNeighbours(lists: Lists, links: Links, h: ListEntry, k: nat)
    requires Consistent(lists, links) && h in lists && k + 1 < |lists[h]|
    ensures
      var e1, e2 := lists[h][k + 1], lists[h][k];
      var broken := SwappedLinks(links, e1, e2, e2, PrevAt(h, lists[h], k), e1);
      && SelfLinked(e2, broken)
      && forall other: Lists :: h in other ==> !Consistent(other, broken)
  {
    var r, e1, e2 := [h] + lists[h], lists[h][k + 1], lists[h][k];
    var broken := SwappedLinks(links, e1, e2, e2, PrevAt(h, lists[h], k), e1);
    assert r[k] == PrevAt(h, lists[h], k) && r[k + 1] == e2 && r[k + 2] == e1;
    NoListsAtDeadEnd(lists, links, h, k, broken);
  }

  /** So it does when an entry is swapped with itself. */
  lemma SwapBreaksSelf(lists: Lists, links: Links, h: ListEntry, k: nat)
    requires Consistent(lists, links) && h in lists && k < |lists[h]|
    ensures
      var e, prev := lists[h][k], PrevAt(h, lists[h], k);
      var broken := SwappedLinks(links, e, e, prev, prev, EntryAt(h, lists[h], k + 1));
      && SelfLinked(e, broken)
      && forall other: Lists :: h in other ==> !Consistent(other, broken)
  {
    var r, e, prev := [h] + lists[h], lists[h][k], PrevAt(h, lists[h], k);
    var broken := SwappedLinks(links, e, e, prev, prev, EntryAt(h, lists[h], k + 1));
    assert r[k] == prev && r[k + 1] == e;
    NoListsAtDeadEnd(lists, links, h, k, broken);
  }

  /** The callers that the routine serves: Entry2 is another element, and not in front of Entry1 yet. */
  ghost predicate MaySwap(lists: Lists, e1: ListEntry, e2: ListEntry) {
    e1 != e2 && !DirectlyBefore(lists, e2, e1)
  }

  /** The rewritten links are lists with the same heads, whatever lists, exactly for those callers; then
      they are the lists with Entry2 moved. */
  lemma SwapMeaning(lists: Lists, links: Links, e1: ListEntry, e2: ListEntry)
    requires Consistent(lists, links) && IsElement(lists, e1) && IsElement(lists, e2)
    requires HasNeighbours(e1, links) && HasNeighbours(e2, links)
    ensures
      var links' := SwappedLinks(links, e1, e2, links.back[e1], links.back[e2], links.fwd[e2]);
      && ((exists other: Lists :: other.Keys == lists.Keys && Consistent(other, links')) <==> MaySwap(lists, e1, e2))
      && (MaySwap(lists, e1, e2) ==>
            Consistent(MovedBefore(lists, e1, e2), links') && Nodes(MovedBefore(lists, e1, e2)) <= Nodes(lists))
      && (!MaySwap(lists, e1, e2) ==> SelfLinked(e2, links'))
  {
    var h1, k1 := Locate(lists, e1, links);
    var h, k := Locate(lists, e2, links);
    if e1 == e2 {
      SwapBreaksSelf(lists, links, h, k);
    } else if DirectlyBefore(lists, e2, e1) {
      var g, i :| g in lists && 0 <= i < |lists[g]| - 1 && lists[g][i] == e2 && lists[g][i + 1] == e1;
      SwapBreaksNeighbours(lists, links, g, i);
      LinksAround(lists, g, i, links);
      LinksAround(lists, g, i + 1, links);
    } else {
      NotNext(lists, h, k, e1);
      SwapKeepsRings(lists, links, h, k, e1, links.back[e1]);
      assert MovedBefore(lists, e1, e2).Keys == lists.Keys;
    }
  }

  // ---------------------------------------------------------------- the operations

  method InitializeListHead(List: ListEntry, ghost lists: Lists, ghost arena: set<ListEntry>)
    requires WellFormed(lists, arena) && List in arena && !IsElement(lists, List)
    modifies List
    ensures WellFormed(lists[List := []], arena)
  {
    ghost var before := LinksOf(arena);
    List.ForwardLink := List;
    List.BackLink := List;
    SnapshotIs(arena, Links(before.fwd[List := List], before.back[List := List]));
    ResetHead(lists, List, before);
  }

  method IsListEmpty(List: ListEntry, ghost lists: Lists, ghost arena: set<ListEntry>) returns (empty: bool)
    requires WellFormed(lists, arena) && List in lists
    ensures empty <==> lists[List] == []
  {
    LinksAround(lists, List, 0, LinksOf(arena));
    TailNoDuplicates(lists, List);
    empty := List.ForwardLink == List;
  }

  /** The head is not an argument: only the two neighbours are written, wherever they are. */
  method RemoveEntryList(Entry: ListEntry, ghost lists: Lists, ghost arena: set<ListEntry>)
    requires WellFormed(lists, arena) && IsElement(lists, Entry)
    modifies arena
    ensures WellFormed(Removed(lists, Entry), arena)
    ensures forall x :: x in arena && x != old(Entry.BackLink) ==> x.ForwardLink == old(x.ForwardLink)
    ensures forall x :: x in arena && x != old(Entry.ForwardLink) ==> x.BackLink == old(x.BackLink)
  {
    ghost var before := LinksOf(arena);
    ghost var h, k := Locate(lists, Entry, before);

    var forwardLink := Entry.ForwardLink;
    var backLink := Entry.BackLink;
    backLink.ForwardLink := forwardLink;
    forwardLink.BackLink := backLink;

    SnapshotIs(arena, Unlinked(before, backLink, forwardLink));
    UnlinkAt(lists, h, k, before);
    RemovedAt(lists, h, k);
  }

  method InsertTailList(ListHead: ListEntry, Entry: ListEntry, ghost lists: Lists, ghost arena: set<ListEntry>)
    requires WellFormed(lists, arena) && ListHead in lists && Entry in arena - Nodes(lists)
    modifies arena
    ensures WellFormed(lists[ListHead := lists[ListHead] + [Entry]], arena)
    ensures forall x :: x in arena && x != Entry && x != old(ListHead.BackLink) ==> x.ForwardLink == old(x.ForwardLink)
    ensures forall x :: x in arena && x != Entry && x != ListHead ==> x.BackLink == old(x.BackLink)
  {
    ghost var k := |lists[ListHead]|;
    ghost var before := LinksOf(arena);
    LinksAround(lists, ListHead, k, before);

    var backLink := ListHead.BackLink;
    Entry.ForwardLink := ListHead;
    Entry.BackLink := backLink;
    backLink.ForwardLink := Entry;
    ListHead.BackLink := Entry;

    SnapshotIs(arena, LinkedIn(before, backLink, Entry, ListHead));
    LinkAt(lists, ListHead, k, Entry, before);
    assert InsertAt(lists[ListHead], k, Entry) == lists[ListHead] + [Entry];
  }

  method InsertHeadList(ListHead: ListEntry, Entry: ListEntry, ghost lists: Lists, ghost arena: set<ListEntry>)
    requires WellFormed(lists, arena) && ListHead in lists && Entry in arena - Nodes(lists)
    modifies arena
    ensures WellFormed(lists[ListHead := [Entry] + lists[ListHead]], arena)
    ensures forall x :: x in arena && x != Entry && x != ListHead ==> x.ForwardLink == old(x.ForwardLink)
    ensures forall x :: x in arena && x != Entry && x != old(ListHead.ForwardLink) ==> x.BackLink == old(x.BackLink)
  {
    ghost var before := LinksOf(arena);
    LinksAround(lists, ListHead, 0, before);

    var forwardLink := ListHead.ForwardLink;
    Entry.ForwardLink := forwardLink;
    Entry.BackLink := ListHead;
    forwardLink.BackLink := Entry;
    ListHead.ForwardLink := Entry;

    SnapshotIs(arena, LinkedIn(before, ListHead, Entry, forwardLink));
    LinkAt(lists, ListHead, 0, Entry, before);
    assert InsertAt(lists[ListHead], 0, Entry) == [Entry] + lists[ListHead];
  }

  lemma ForwardAfterSwap(arena: set<ListEntry>, fwd: map<ListEntry, ListEntry?>, e1: ListEntry, e2: ListEntry,
                         back1: ListEntry, back2: ListEntry, forward2: ListEntry)
    requires fwd.Keys == arena && e2 in arena && back1 in arena && back2 in arena
    requires forall x :: x in arena ==>
      (x.ForwardLink == if x == back1 then e2 else if x == e2 then e1 else if x == back2 then forward2 else fwd[x])
    ensures LinksOf(arena).fwd == fwd[back2 := forward2][e2 := e1][back1 := e2]
  {
  }

  lemma BackAfterSwap(arena: set<ListEntry>, back: map<ListEntry, ListEntry?>, e1: ListEntry, e2: ListEntry,
                      back1: ListEntry, back2: ListEntry, forward2: ListEntry)
    requires back.Keys == arena && e1 in arena && e2 in arena && forward2 in arena
    requires forall x :: x in arena ==>
      (x.BackLink == if x == e1 then e2 else if x == e2 then back1 else if x == forward2 then back2 else back[x])
    ensures LinksOf(arena).back == back[forward2 := back2][e2 := back1][e1 := e2]
  {
  }

  /** What SwapMeaning says about memory that holds the rewritten links. */
  lemma SwapOutcome(lists: Lists, before: Links, e1: ListEntry, e2: ListEntry, arena: set<ListEntry>)
    requires Consistent(lists, before) && IsElement(lists, e1) && IsElement(lists, e2) && Nodes(lists) <= arena
    requires HasNeighbours(e1, before) && HasNeighbours(e2, before)
    requires LinksOf(arena) == SwappedLinks(before, e1, e2, before.back[e1], before.back[e2], before.fwd[e2])
    ensures (exists other: Lists :: other.Keys == lists.Keys && WellFormed(other, arena)) <==> MaySwap(lists, e1, e2)
    ensures MaySwap(lists, e1, e2) ==> WellFormed(MovedBefore(lists, e1, e2), arena)
    ensures !MaySwap(lists, e1, e2) ==> SelfLinked(e2, LinksOf(arena))
  {
    SwapMeaning(lists, before, e1, e2);
    if MaySwap(lists, e1, e2) {
      assert MovedBefore(lists, e1, e2).Keys == lists.Keys;
    } else {
      forall other: Lists | other.Keys == lists.Keys ensures !WellFormed(other, arena) {
        assert !Consistent(other, LinksOf(arena));
      }
    }
  }

  /** Six link updates. They leave lists with the same heads, any lists, exactly when the two entries
      differ and Entry2 is not in front of Entry1 already; then Entry2 has moved there. Otherwise
      Entry2 is left linked to itself. */
  method SwapListEntries(Entry1: ListEntry, Entry2: ListEntry, ghost lists: Lists, ghost arena: set<ListEntry>)
    requires WellFormed(lists, arena) && IsElement(lists, Entry1) && IsElement(lists, Entry2)
    modifies arena
    ensures (exists other: Lists :: other.Keys == lists.Keys && WellFormed(other, arena))
      <==> MaySwap(lists, Entry1, Entry2)
    ensures MaySwap(lists, Entry1, Entry2) ==> WellFormed(MovedBefore(lists, Entry1, Entry2), arena)
    ensures !MaySwap(lists, Entry1, Entry2) ==> Entry2.ForwardLink == Entry2 == Entry2.BackLink
    ensures forall x :: x in arena && x != Entry2 && x != old(Entry1.BackLink) && x != old(Entry2.BackLink) ==>
      x.ForwardLink == old(x.ForwardLink)
    ensures forall x :: x in arena && x != Entry1 && x != Entry2 && x != old(Entry2.ForwardLink) ==>
      x.BackLink == old(x.BackLink)
  {
    ghost var before := LinksOf(arena);
    ElementHasNeighbours(lists, Entry1, before);
    ElementHasNeighbours(lists, Entry2, before);

    var entry2ForwardLink := Entry2.ForwardLink;
    var entry2BackLink := Entry2.BackLink;
    var entry1ForwardLink := Entry1.ForwardLink;
    var entry1BackLink := Entry1.BackLink;
    entry2BackLink.ForwardLink := entry2ForwardLink;
    entry2ForwardLink.BackLink := entry2BackLink;
    Entry2.ForwardLink := Entry1;
    Entry2.BackLink := entry1BackLink;
    entry1BackLink.ForwardLink := Entry2;
    Entry1.BackLink := Entry2;

    ForwardAfterSwap(arena, before.fwd, Entry1, Entry2, entry1BackLink, entry2BackLink, entry2ForwardLink);
    BackAfterSwap(arena, before.back, Entry1, Entry2, entry1BackLink, entry2BackLink, entry2ForwardLink);
    SwapOutcome(lists, before, Entry1, Entry2, arena);
  }

  // ---------------------------------------------------------------- walking

  method GetFirstNode(List: ListEntry, ghost lists: Lists, ghost arena: set<ListEntry>) returns (node: ListEntry)
    requires WellFormed(lists, arena) && List in lists
    ensures node == EntryAt(List, lists[List], 0)
  {
    LinksAround(lists, List, 0, LinksOf(arena));
    node := List.ForwardLink;
  }

  /** Behind the last element comes the head, and behind the head comes the head. */
  method GetNextNode(List: ListEntry, Node: ListEntry, ghost k: nat, ghost lists: Lists, ghost arena: set<ListEntry>)
    returns (node: ListEntry)
    requires WellFormed(lists, arena) && List in lists
    requires k <= |lists[List]| && Node == EntryAt(List, lists[List], k)
    ensures node == if k < |lists[List]| then EntryAt(List, lists[List], k + 1) else List
  {
    if Node == List {
      HeadIsNoElement(lists, List);
      return List;
    }
    LinksAround(lists, List, k + 1, LinksOf(arena));
    node := Node.ForwardLink;
  }

  /** "Null" is the place behind the last element, which is where the walk over a list ends. */
  lemma NullIsPastTheEnd(lists: Lists, h: ListEntry, k: nat)
    requires Separate(lists) && h in lists && k <= |lists[h]|
    ensures EntryAt(h, lists[h], k) == h <==> k == |lists[h]|
  {
    HeadIsNoElement(lists, h);
  }

  method IsNull(List: ListEntry, Node: ListEntry) returns (b: bool)
    ensures b <==> Node == List
  {
    b := Node == List;
  }

  method IsNodeAtEnd(List: ListEntry, Node: ListEntry, ghost lists: Lists, ghost arena: set<ListEntry>)
    returns (b: bool)
    requires WellFormed(lists, arena) && List in lists
    ensures b <==> lists[List] != [] && Node == lists[List][|lists[List]| - 1]
  {
    LinksAround(lists, List, |lists[List]|, LinksOf(arena));
    HeadIsNoElement(lists, List);
    var isNull := IsNull(List, Node);
    if isNull {
      return false;
    }
    b := List.BackLink == Node;
  }

  /** The loop every client of the list writes: it ends, and it meets each element once, in order;
      IsNodeAtEnd holds at the last element met and at no other. */
  method Walk(List: ListEntry, ghost lists: Lists, ghost arena: set<ListEntry>)
    returns (visited: seq<ListEntry>, atEnd: seq<bool>)
    requires WellFormed(lists, arena) && List in lists
    ensures visited == lists[List] && |atEnd| == |visited|
    ensures forall i :: 0 <= i < |visited| ==> (atEnd[i] <==> i == |visited| - 1)
  {
    ghost var s := lists[List];
    TailNoDuplicates(lists, List);
    visited, atEnd := [], [];
    var node := GetFirstNode(List, lists, arena);
    var done := IsNull(List, node);
    NullIsPastTheEnd(lists, List, 0);
    while !done
      invariant |visited| == |atEnd| <= |s| && visited == s[..|visited|]
      invariant node == EntryAt(List, s, |visited|)
      invariant done <==> |visited| == |s|
      invariant forall i :: 0 <= i < |visited| ==> (atEnd[i] <==> i == |s| - 1)
      decreases |s| - |visited|
    {
      var last := IsNodeAtEnd(List, node, lists, arena);
      ghost var k := |visited|;
      visited, atEnd := visited + [node], atEnd + [last];
      node := GetNextNode(List, node, k, lists, arena);
      done := IsNull(List, node);
      NullIsPastTheEnd(lists, List, k + 1);
    }
  }

  // ---------------------------------------------------------------- whole runs

  datatype Operation =
    | Initialize(list: ListEntry)
    | InsertHead(list: ListEntry, entry: ListEntry)
    | InsertTail(list: ListEntry, entry: ListEntry)
    | Remove(entry: ListEntry)
    | Swap(entry1: ListEntry, entry2: ListEntry)

  /** What a caller has to respect before each call. */
  ghost predicate Legal(lists: Lists, op: Operation, arena: set<ListEntry>) {
    match op
    case Initialize(h) => h in arena && !IsElement(lists, h)
    case InsertHead(h, e) => h in lists && e in arena - Nodes(lists)
    case InsertTail(h, e) => h in lists && e in arena - Nodes(lists)
    case Remove(e) => IsElement(lists, e)
    case Swap(e1, e2) =>
      IsElement(lists, e1) && IsElement(lists, e2) && MaySwap(lists, e1, e2)
  }

  ghost function Apply(lists: Lists, op: Operation, arena: set<ListEntry>): Lists
    requires Legal(lists, op, arena)
  {
    match op
    case Initialize(h) => lists[h := []]
    case InsertHead(h, e) => lists[h := [e] + lists[h]]
    case InsertTail(h, e) => lists[h := lists[h] + [e]]
    case Remove(e) => Removed(lists, e)
    case Swap(e1, e2) => MovedBefore(lists, e1, e2)
  }

  ghost predicate LegalRun(lists: Lists, ops: seq<Operation>, arena: set<ListEntry>)
    decreases |ops|
  {
    ops == [] || (Legal(lists, ops[0], arena) && LegalRun(Apply(lists, ops[0], arena), ops[1..], arena))
  }

  ghost function ApplyAll(lists: Lists, ops: seq<Operation>, arena: set<ListEntry>): Lists
    requires LegalRun(lists, ops, arena)
    decreases |ops|
  {
    if ops == [] then lists else ApplyAll(Apply(lists, ops[0], arena), ops[1..], arena)
  }

  method Step(op: Operation, ghost lists: Lists, ghost arena: set<ListEntry>)
    requires WellFormed(lists, arena) && Legal(lists, op, arena)
    modifies arena
    ensures WellFormed(Apply(lists, op, arena), arena)
  {
    match op
    case Initialize(h) => InitializeListHead(h, lists, arena);
    case InsertHead(h, e) => InsertHeadList(h, e, lists, arena);
    case InsertTail(h, e) => InsertTailList(h, e, lists, arena);
    case Remove(e) => RemoveEntryList(e, lists, arena);
    case Swap(e1, e2) => SwapListEntries(e1, e2, lists, arena);
  }

  /** After any finite legal run, over any number of heads, memory holds exactly the lists that
      the same run yields on plain sequences. */
  method Run(ops: seq<Operation>, ghost lists: Lists, ghost arena: set<ListEntry>)
    requires WellFormed(lists, arena) && LegalRun(lists, ops, arena)
    modifies arena
    ensures WellFormed(ApplyAll(lists, ops, arena), arena)
  {
    ghost var now := lists;
    var i := 0;
    while i < |ops|
      invariant 0 <= i <= |ops| && WellFormed(now, arena) && LegalRun(now, ops[i..], arena)
      invariant ApplyAll(now, ops[i..], arena) == ApplyAll(lists, ops, arena)
    {
      assert ops[i..][0] == ops[i] && ops[i..][1..] == ops[i + 1..];
      Step(ops[i], now, arena);
      now := Apply(now, ops[i], arena);
      i := i + 1;
    }
  }

  // ---------------------------------------------------------------- what the operations mean for sequences

  /** Swapping the elements at i < j takes s[j] out and puts it in front of s[i]. */
  lemma SwapOnSequence(lists: Lists, h: ListEntry, i: nat, j: nat)
    requires Separate(lists) && h in lists && i < j < |lists[h]|
    ensures
      var s := lists[h];
      MovedBefore(lists, s[i], s[j]) == lists[h := s[..i] + [s[j]] + s[i..j] + s[j + 1..]]
  {
    var s := lists[h];
    RemovedAt(lists, h, j);
    SeparateWithout(lists, h, j);
    PlacedInAt(Removed(lists, s[j]), h, i, s[j]);
    assert CutAt(s, j)[i] == s[i];
    assert InsertAt(CutAt(s, j), i, s[j]) == s[..i] + [s[j]] + s[i..j] + s[j + 1..];
  }

  /** The routine is called Swap, but it exchanges the two elements only when they are neighbours. */
  lemma SwapExchangesExactlyNeighbours(lists: Lists, h: ListEntry, i: nat, j: nat)
    requires Separate(lists) && h in lists && i < j < |lists[h]|
    ensures
      var s := lists[h];
      MovedBefore(lists, s[i], s[j])[h] == s[i := s[j]][j := s[i]] <==> j == i + 1
  {
    var s := lists[h];
    SwapOnSequence(lists, h, i, j);
    TailNoDuplicates(lists, h);
    var moved, exchanged := s[..i] + [s[j]] + s[i..j] + s[j + 1..], s[i := s[j]][j := s[i]];
    if j == i + 1 {
      assert moved == exchanged;
    } else {
      assert moved[i + 1] == s[i] && exchanged[i + 1] == s[i + 1];
    }
  }

  lemma RemoveUndoesInsert(lists: Lists, h: ListEntry, k: nat, e: ListEntry)
    requires Separate(lists) && h in lists && k <= |lists[h]| && e !in Nodes(lists)
    ensures Removed(lists[h := InsertAt(lists[h], k, e)], e) == lists
  {
    SeparateWith(lists, h, k, e);
    RemovedAt(lists[h := InsertAt(lists[h], k, e)], h, k);
    assert CutAt(InsertAt(lists[h], k, e), k) == lists[h];
  }

  /** A swap moves Entry2 and nothing else: without Entry2, all lists read as before. */
  lemma SwapMovesOnlyEntry2(lists: Lists, e1: ListEntry, e2: ListEntry)
    requires Separate(lists) && IsElement(lists, e1) && IsElement(lists, e2) && e1 != e2
    ensures Removed(MovedBefore(lists, e1, e2), e2) == Removed(lists, e2)
    ensures IsElement(MovedBefore(lists, e1, e2), e2)
  {
    var h :| h in lists && e2 in lists[h];
    var k :| 0 <= k < |lists[h]| && lists[h][k] == e2;
    RemovedAt(lists, h, k);
    SeparateWithout(lists, h, k);
    CutKeepsOthers(lists, h, k, e1);
    var lists1 := Removed(lists, e2);
    var h1 :| h1 in lists1 && e1 in lists1[h1];
    var k1 :| 0 <= k1 < |lists1[h1]| && lists1[h1][k1] == e1;
    PlacedInAt(lists1, h1, k1, e2);
    RemoveUndoesInsert(lists1, h1, k1, e2);
    assert InsertAt(lists1[h1], k1, e2)[k1] == e2;
  }
}
