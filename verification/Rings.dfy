/** The intrusive circular doubly linked list of list.h, over heap nodes.

    A ring is a head node together with the sequence of its entries.  A `Web` records
    every ring: which entries hang off which head, which head owns a node, and what
    the next and prev fields of every node hold.  The lemmas about webs are free of
    the heap; class `Lists` keeps a web in step with the real fields.
 */
module Rings {
  import opened Sequences

  class ListHead {
    var next: ListHead?
    var prev: ListHead?

    /** list_head_init: a fresh node linked to itself. */
    constructor ()
      ensures next == this && prev == this
    {
      next := this;
      prev := this;
    }
  }

  type Links = map<ListHead, ListHead>

  datatype Web = Web(rings: map<ListHead, seq<ListHead>>, owner: Links, next: Links, prev: Links)

  /** The node at cyclic position i of the ring of h, for -1 <= i <= |s|. */
  ghost function At(h: ListHead, s: seq<ListHead>, i: int): ListHead {
    if 0 <= i < |s| then s[i] else h
  }

  ghost predicate Points(m: Links, x: ListHead, y: ListHead) {
    x in m && m[x] == y
  }

  ghost predicate Forward(next: Links, h: ListHead, s: seq<ListHead>) {
    forall i :: -1 <= i < |s| ==> Points(next, At(h, s, i), At(h, s, i + 1))
  }

  ghost predicate Backward(prev: Links, h: ListHead, s: seq<ListHead>) {
    forall i :: 0 <= i <= |s| ==> Points(prev, At(h, s, i), At(h, s, i - 1))
  }

  /** The links make h + s one cycle of distinct nodes. */
  ghost predicate Ring(next: Links, prev: Links, h: ListHead, s: seq<ListHead>) {
    h !in s && Distinct(s) && Forward(next, h, s) && Backward(prev, h, s)
  }

  /** Ownership: every node of a web belongs to exactly one ring. */
  ghost predicate Owned(rings: map<ListHead, seq<ListHead>>, owner: Links) {
    && (forall h :: h in rings ==> Points(owner, h, h))
    && (forall h, x :: h in rings && x in rings[h] ==> Points(owner, x, h))
    && (forall x :: x in owner ==> owner[x] in rings && (x == owner[x] || x in rings[owner[x]]))
  }

  ghost predicate WellFormed(w: Web) {
    && Owned(w.rings, w.owner)
    && w.next.Keys == w.owner.Keys && w.prev.Keys == w.owner.Keys
    && forall h :: h in w.rings ==> Ring(w.next, w.prev, h, w.rings[h])
  }

  // ----- pointer surgery on links -----

  /** Linking n between two neighbours inserts it into the sequence. */
  lemma InsertRing(next: Links, prev: Links, h: ListHead, s: seq<ListHead>, k: nat, n: ListHead)
    requires Ring(next, prev, h, s) && k <= |s| && n != h && n !in s
    ensures var (p, x) := (At(h, s, k - 1), At(h, s, k));
      Ring(next[n := x][p := n], prev[x := n][n := p], h, s[..k] + [n] + s[k..])
  {
    var (p, x, t) := (At(h, s, k - 1), At(h, s, k), s[..k] + [n] + s[k..]);
    var (next', prev') := (next[n := x][p := n], prev[x := n][n := p]);
    forall i | -1 <= i < |t| ensures Points(next', At(h, t, i), At(h, t, i + 1)) {
      assert i < k ==> Points(next, At(h, s, i), At(h, s, i + 1));
      assert i > k ==> Points(next, At(h, s, i - 1), At(h, s, i));
    }
    forall i | 0 <= i <= |t| ensures Points(prev', At(h, t, i), At(h, t, i - 1)) {
      assert i <= k ==> Points(prev, At(h, s, i), At(h, s, i - 1));
      assert i > k + 1 ==> Points(prev, At(h, s, i - 1), At(h, s, i - 2));
    }
  }

  /** Joining the neighbours of an entry removes it from the sequence. */
  lemma RemoveRing(next: Links, prev: Links, h: ListHead, s: seq<ListHead>, k: nat)
    requires Ring(next, prev, h, s) && k < |s|
    ensures var (p, x) := (At(h, s, k - 1), At(h, s, k + 1));
      && Points(prev, s[k], p) && Points(next, s[k], x)
      && Ring(next[p := x], prev[x := p], h, s[..k] + s[k + 1..])
  {
    var (p, x, t) := (At(h, s, k - 1), At(h, s, k + 1), s[..k] + s[k + 1..]);
    assert Points(prev, At(h, s, k), p) && Points(next, At(h, s, k), x);
    forall i | -1 <= i < |t| ensures Points(next[p := x], At(h, t, i), At(h, t, i + 1)) {
      assert i < k ==> Points(next, At(h, s, i), At(h, s, i + 1));
      assert i >= k ==> Points(next, At(h, s, i + 1), At(h, s, i + 2));
    }
    forall i | 0 <= i <= |t| ensures Points(prev[x := p], At(h, t, i), At(h, t, i - 1)) {
      assert i < k ==> Points(prev, At(h, s, i), At(h, s, i - 1));
      assert i >= k ==> Points(prev, At(h, s, i + 1), At(h, s, i));
    }
  }

  /** A ring whose nodes keep their links is still that ring. */
  lemma SameRing(next: Links, prev: Links, next': Links, prev': Links, h: ListHead, s: seq<ListHead>)
    requires Ring(next, prev, h, s)
    requires forall x :: x == h || x in s ==> x in next' && x in prev'
    requires forall x :: (x == h || x in s) && x in next ==> next'[x] == next[x]
    requires forall x :: (x == h || x in s) && x in prev ==> prev'[x] == prev[x]
    ensures Ring(next', prev', h, s)
  {
    forall i | -1 <= i < |s| ensures Points(next', At(h, s, i), At(h, s, i + 1)) {
      assert Points(next, At(h, s, i), At(h, s, i + 1));
    }
    forall i | 0 <= i <= |s| ensures Points(prev', At(h, s, i), At(h, s, i - 1)) {
      assert Points(prev, At(h, s, i), At(h, s, i - 1));
    }
  }

  // ----- what each operation does to a web -----

  /** Entry n enters the ring of head at position k. */
  ghost function Insert(w: Web, head: ListHead, k: nat, n: ListHead): Web
    requires head in w.rings && k <= |w.rings[head]|
  {
    var s := w.rings[head];
    var (p, x) := (At(head, s, k - 1), At(head, s, k));
    Web(w.rings[head := s[..k] + [n] + s[k..]], w.owner[n := head], w.next[n := x][p := n], w.prev[x := n][n := p])
  }

  /** Entry x leaves its ring and the web. */
  ghost function Delete(w: Web, x: ListHead): Web
    requires WellFormed(w) && Entry(w, x)
  {
    var h := w.owner[x];
    Web(w.rings[h := Without(w.rings[h], x)], w.owner - {x}, w.next[w.prev[x] := w.next[x]] - {x}, w.prev[w.next[x] := w.prev[x]] - {x})
  }

  /** The entries of list move in front of those of head; list is left empty. */
  ghost function Splice(w: Web, list: ListHead, head: ListHead): Web
    requires list in w.rings && head in w.rings
    requires list in w.next && list in w.prev && head in w.next
  {
    var (s, t) := (w.rings[list], w.rings[head]);
    if s == [] then w else
    var (first, last, at) := (w.next[list], w.prev[list], w.next[head]);
    Web(w.rings[head := s + t][list := []],
        map x | x in w.owner :: if x in s then head else w.owner[x],
        w.next[head := first][last := at][list := list],
        w.prev[first := head][at := last][list := list])
  }

  ghost predicate Entry(w: Web, x: ListHead) {
    x in w.owner && w.owner[x] != x
  }

  lemma EmptyRing(next: Links, prev: Links, h: ListHead)
    requires Points(next, h, h) && Points(prev, h, h)
    ensures Ring(next, prev, h, [])
  {
  }

  lemma HeadOutside(w: Web, h: ListHead)
    requires WellFormed(w) && h in w.rings
    ensures h !in w.rings[h] && Distinct(w.rings[h])
  {
  }

  lemma NodesOwned(w: Web, h: ListHead, i: int)
    requires WellFormed(w) && h in w.rings
    ensures Points(w.owner, At(h, w.rings[h], i), h)
  {
  }

  ghost function Initialised(w: Web, h: ListHead): Web {
    Web(w.rings[h := []], w.owner[h := h], w.next[h := h], w.prev[h := h])
  }

  lemma InitOk(w: Web, h: ListHead)
    requires WellFormed(w) && h !in w.owner
    ensures WellFormed(Initialised(w, h))
  {
    var w' := Initialised(w, h);
    EmptyRing(w'.next, w'.prev, h);
    forall g | g in w.rings ensures Ring(w'.next, w'.prev, g, w.rings[g]) {
      SameRing(w.next, w.prev, w'.next, w'.prev, g, w.rings[g]);
    }
  }

  /** The neighbours of a head are its first and last entries. */
  lemma HeadLinks(w: Web, head: ListHead)
    requires WellFormed(w) && head in w.rings
    ensures Points(w.owner, head, head)
    ensures Points(w.next, head, At(head, w.rings[head], 0)) && At(head, w.rings[head], 0) in w.owner
    ensures Points(w.prev, head, At(head, w.rings[head], |w.rings[head]| - 1)) && At(head, w.rings[head], |w.rings[head]| - 1) in w.owner
  {
    var s := w.rings[head];
    assert Points(w.next, At(head, s, -1), At(head, s, 0)) && Points(w.prev, At(head, s, |s|), At(head, s, |s| - 1));
    NodesOwned(w, head, 0);
    NodesOwned(w, head, |s| - 1);
  }

  lemma InsertFields(w: Web, head: ListHead, k: nat, n: ListHead)
    requires WellFormed(w) && head in w.rings && k <= |w.rings[head]|
    ensures Insert(w, head, k, n).next == w.next[n := At(head, w.rings[head], k)][At(head, w.rings[head], k - 1) := n]
    ensures Insert(w, head, k, n).prev == w.prev[At(head, w.rings[head], k) := n][n := At(head, w.rings[head], k - 1)]
    ensures Insert(w, head, k, n).owner == w.owner[n := head]
  {
  }

  lemma InsertOwned(w: Web, head: ListHead, k: nat, n: ListHead)
    requires WellFormed(w) && head in w.rings && k <= |w.rings[head]| && n !in w.owner
    ensures Owned(Insert(w, head, k, n).rings, Insert(w, head, k, n).owner)
  {
    assert forall x :: x in Insert(w, head, k, n).rings[head] <==> x == n || x in w.rings[head];
  }

  lemma InsertOk(w: Web, head: ListHead, k: nat, n: ListHead)
    requires WellFormed(w) && head in w.rings && k <= |w.rings[head]| && n !in w.owner
    ensures WellFormed(Insert(w, head, k, n))
  {
    var (s, w') := (w.rings[head], Insert(w, head, k, n));
    InsertOwned(w, head, k, n);
    NodesOwned(w, head, k - 1);
    NodesOwned(w, head, k);
    InsertRing(w.next, w.prev, head, s, k, n);
    forall h | h in w'.rings && h != head ensures Ring(w'.next, w'.prev, h, w'.rings[h]) {
      SameRing(w.next, w.prev, w'.next, w'.prev, h, w.rings[h]);
    }
  }

  lemma DeleteOwned(w: Web, x: ListHead)
    requires WellFormed(w) && Entry(w, x)
    ensures Owned(Delete(w, x).rings, Delete(w, x).owner)
  {
    OwnedWithout(w.rings, w.owner, x);
  }

  lemma OwnedWithout(rings: map<ListHead, seq<ListHead>>, owner: Links, x: ListHead)
    requires Owned(rings, owner) && x in owner && owner[x] != x
    ensures Owned(rings[owner[x] := Without(rings[owner[x]], x)], owner - {x})
  {
    var (h, rings', owner') := (owner[x], rings[owner[x] := Without(rings[owner[x]], x)], owner - {x});
    WithoutMembers(rings[h], x);
    forall g, y | g in rings' && y in rings'[g] ensures Points(owner', y, g) {
      if g == h {
        assert y in rings[h] && y != x;
      } else {
        assert y in rings[g];
      }
      assert Points(owner, y, g);
    }
  }

  lemma DeleteRing(w: Web, x: ListHead)
    requires WellFormed(w) && Entry(w, x)
    ensures Entry(w, w.prev[x]) || w.prev[x] == w.owner[x]
    ensures w.prev[x] in w.owner && w.owner[w.prev[x]] == w.owner[x] && w.prev[x] != x
    ensures w.next[x] in w.owner && w.owner[w.next[x]] == w.owner[x] && w.next[x] != x
    ensures Ring(w.next[w.prev[x] := w.next[x]], w.prev[w.next[x] := w.prev[x]], w.owner[x], Without(w.rings[w.owner[x]], x))
  {
    var h := w.owner[x];
    var s := w.rings[h];
    var k :| 0 <= k < |s| && s[k] == x;
    WithoutAt(s, k);
    RemoveRing(w.next, w.prev, h, s, k);
    NodesOwned(w, h, k - 1);
    NodesOwned(w, h, k + 1);
  }

  lemma DeleteOk(w: Web, x: ListHead)
    requires WellFormed(w) && Entry(w, x)
    ensures WellFormed(Delete(w, x))
  {
    hide Forward, Backward, Distinct, At;
    var (h, w') := (w.owner[x], Delete(w, x));
    var (next, prev) := (w.next[w.prev[x] := w.next[x]], w.prev[w.next[x] := w.prev[x]]);
    DeleteOwned(w, x);
    DeleteRing(w, x);
    WithoutMembers(w.rings[h], x);
    SameRing(next, prev, w'.next, w'.prev, h, w'.rings[h]);
    forall g | g in w'.rings && g != h ensures Ring(w'.next, w'.prev, g, w'.rings[g]) {
      SameRing(w.next, w.prev, w'.next, w'.prev, g, w.rings[g]);
    }
  }

  lemma SpliceForward(next: Links, list: ListHead, s: seq<ListHead>, head: ListHead, t: seq<ListHead>)
    requires Forward(next, list, s) && Forward(next, head, t) && s != [] && list != head && Distinct(s)
    requires head !in s && list !in s && list !in t && head !in t && forall x :: x in s ==> x !in t
    ensures Forward(next[head := s[0]][s[|s| - 1] := At(head, t, 0)][list := list], head, s + t)
  {
    var (u, m, at) := (s + t, |s|, At(head, t, 0));
    var next' := next[head := s[0]][s[m - 1] := at][list := list];
    forall i | -1 <= i < |u| ensures Points(next', At(head, u, i), At(head, u, i + 1)) {
      if 0 <= i < m - 1 {
        assert Points(next, At(list, s, i), At(list, s, i + 1));
      } else if i >= m {
        assert u[i] in t;
        assert Points(next, At(head, t, i - m), At(head, t, i - m + 1));
      }
    }
  }

  lemma SpliceBackward(prev: Links, list: ListHead, s: seq<ListHead>, head: ListHead, t: seq<ListHead>)
    requires Backward(prev, list, s) && Backward(prev, head, t) && s != [] && list != head
    requires Distinct(s) && Distinct(t)
    requires head !in s && list !in s && list !in t && head !in t && forall x :: x in s ==> x !in t
    ensures Backward(prev[s[0] := head][At(head, t, 0) := s[|s| - 1]][list := list], head, s + t)
  {
    var (u, m, at) := (s + t, |s|, At(head, t, 0));
    var prev' := prev[s[0] := head][at := s[m - 1]][list := list];
    assert s[0] in s && (t != [] ==> t[0] in t);
    forall i | 0 <= i <= |u| ensures Points(prev', At(head, u, i), At(head, u, i - 1)) {
      if 0 < i < m {
        assert s[i] in s;
        assert Points(prev, At(list, s, i), At(list, s, i - 1));
      } else if i > m {
        assert i < |u| ==> u[i] in t;
        assert Points(prev, At(head, t, i - m), At(head, t, i - m - 1));
      }
    }
  }

  lemma SpliceOwned(rings: map<ListHead, seq<ListHead>>, owner: Links, list: ListHead, head: ListHead)
    requires Owned(rings, owner) && list in rings && head in rings && list != head
    requires list !in rings[list]
    ensures Owned(rings[head := rings[list] + rings[head]][list := []],
                  map x | x in owner :: if x in rings[list] then head else owner[x])
  {
    assert forall x :: x in rings[list] + rings[head] <==> x in rings[list] || x in rings[head];
  }

  lemma SpliceEnds(w: Web, list: ListHead, head: ListHead)
    requires WellFormed(w) && list in w.rings && head in w.rings && w.rings[list] != []
    ensures w.next[list] == w.rings[list][0] && w.prev[list] == w.rings[list][|w.rings[list]| - 1]
    ensures w.next[head] == At(head, w.rings[head], 0)
    ensures Splice(w, list, head).next.Keys == w.next.Keys && Splice(w, list, head).prev.Keys == w.prev.Keys
  {
    var (s, t) := (w.rings[list], w.rings[head]);
    assert Points(w.next, At(list, s, -1), At(list, s, 0));
    assert Points(w.prev, At(list, s, |s|), At(list, s, |s| - 1));
    assert Points(w.next, At(head, t, -1), At(head, t, 0));
    NodesOwned(w, list, 0);
    NodesOwned(w, list, |s| - 1);
    NodesOwned(w, head, 0);
  }

  lemma SpliceHeads(w: Web, list: ListHead, head: ListHead)
    requires WellFormed(w) && list in w.rings && head in w.rings
    ensures list in w.owner && head in w.owner && w.next.Keys == w.owner.Keys && w.prev.Keys == w.owner.Keys
    ensures w.next[list] in w.owner && w.prev[list] in w.owner && w.next[head] in w.owner
  {
    HeadLinks(w, list);
    HeadLinks(w, head);
  }

  lemma SpliceFields(w: Web, list: ListHead, head: ListHead)
    requires WellFormed(w) && list in w.rings && head in w.rings && list != head
    requires list in w.next && list in w.prev && head in w.next
    ensures Splice(w, list, head).rings == w.rings[head := w.rings[list] + w.rings[head]][list := []]
    ensures Splice(w, list, head).owner.Keys == w.owner.Keys
    ensures w.rings[list] == [] ==> Splice(w, list, head) == w
    ensures w.rings[list] != [] ==>
      && Splice(w, list, head).next == w.next[head := w.next[list]][w.prev[list] := w.next[head]][list := list]
      && Splice(w, list, head).prev == w.prev[w.next[list] := head][w.next[head] := w.prev[list]][list := list]
  {
    if w.rings[list] == [] {
      assert [] + w.rings[head] == w.rings[head];
      assert w.rings[head := w.rings[head]][list := []] == w.rings;
    }
  }

  lemma SpliceNodes(w: Web, list: ListHead, head: ListHead)
    requires WellFormed(w) && list in w.rings && head in w.rings && list != head && w.rings[list] != []
    ensures w.next[list] in w.owner && w.prev[list] in w.owner && w.next[head] in w.owner
    ensures w.next[list] != list && w.prev[list] != list && w.next[head] != list
    ensures w.next[list] != head && w.prev[list] != head
    ensures w.next[list] != w.next[head]
  {
    SpliceEnds(w, list, head);
    HeadOutside(w, list);
    Apart(w.rings, w.owner, list, head);
    NodesOwned(w, list, 0);
    NodesOwned(w, list, |w.rings[list]| - 1);
    NodesOwned(w, head, 0);
  }

  lemma SpliceHeadRing(next: Links, prev: Links, list: ListHead, s: seq<ListHead>, head: ListHead, t: seq<ListHead>)
    requires Ring(next, prev, list, s) && Ring(next, prev, head, t) && s != [] && list != head
    requires head !in s && list !in t && forall x :: x in s ==> x !in t
    ensures Ring(next[head := s[0]][s[|s| - 1] := At(head, t, 0)][list := list],
                 prev[s[0] := head][At(head, t, 0) := s[|s| - 1]][list := list], head, s + t)
  {
    SpliceForward(next, list, s, head, t);
    SpliceBackward(prev, list, s, head, t);
    assert forall i :: 0 <= i < |s| ==> s[i] in s;
  }

  lemma SpliceOtherRing(w: Web, list: ListHead, head: ListHead, g: ListHead)
    requires WellFormed(w) && list in w.rings && head in w.rings && list != head && w.rings[list] != []
    requires g in w.rings && g != list && g != head
    ensures Ring(Splice(w, list, head).next, Splice(w, list, head).prev, g, w.rings[g])
  {
    SpliceEnds(w, list, head);
    NodesOwned(w, list, 0);
    NodesOwned(w, list, |w.rings[list]| - 1);
    NodesOwned(w, head, 0);
    SameRing(w.next, w.prev, Splice(w, list, head).next, Splice(w, list, head).prev, g, w.rings[g]);
  }

  lemma Apart(rings: map<ListHead, seq<ListHead>>, owner: Links, list: ListHead, head: ListHead)
    requires Owned(rings, owner) && list in rings && head in rings && list != head
    ensures head !in rings[list] && list !in rings[head]
    ensures forall x :: x in rings[list] ==> x !in rings[head]
  {
    assert Points(owner, head, head) && Points(owner, list, list);
    assert forall x :: x in rings[list] ==> Points(owner, x, list);
    assert forall x :: x in rings[head] ==> Points(owner, x, head);
  }

  lemma SpliceRings(w: Web, list: ListHead, head: ListHead, g: ListHead)
    requires WellFormed(w) && list in w.rings && head in w.rings && list != head && w.rings[list] != [] && g in w.rings
    ensures var w' := Splice(w, list, head); Ring(w'.next, w'.prev, g, w'.rings[g])
  {
    hide Forward, Backward, Distinct;
    if g == head {
      Apart(w.rings, w.owner, list, head);
      SpliceEnds(w, list, head);
      SpliceHeadRing(w.next, w.prev, list, w.rings[list], head, w.rings[head]);
    } else if g == list {
      SpliceEnds(w, list, head);
      EmptyRing(Splice(w, list, head).next, Splice(w, list, head).prev, list);
    } else {
      SpliceOtherRing(w, list, head, g);
    }
  }

  lemma SpliceOk(w: Web, list: ListHead, head: ListHead)
    requires WellFormed(w) && list in w.rings && head in w.rings && list != head
    ensures WellFormed(Splice(w, list, head))
  {
    hide Ring, Owned, Distinct, At;
    if w.rings[list] != [] {
      HeadOutside(w, list);
      SpliceOwned(w.rings, w.owner, list, head);
      SpliceEnds(w, list, head);
      forall g | g in w.rings
        ensures var w' := Splice(w, list, head); Ring(w'.next, w'.prev, g, w'.rings[g])
      {
        SpliceRings(w, list, head, g);
      }
    }
  }

  // ----- the operations of list.h -----

  class Lists {
    ghost var web: Web

    ghost predicate Valid()
      reads this, web.next.Keys, web.prev.Keys
    {
      && WellFormed(web)
      && (forall x :: x in web.next ==> x.next == web.next[x])
      && (forall x :: x in web.prev ==> x.prev == web.prev[x])
    }

    constructor ()
      ensures Valid() && web == Web(map[], map[], map[], map[])
    {
      web := Web(map[], map[], map[], map[]);
    }

    /** init_list_head on a node outside every ring. */
    method Init(h: ListHead)
      requires Valid() && h !in web.owner
      modifies this, h
      ensures Valid()
      ensures web.rings == old(web.rings)[h := []] && web.owner == old(web.owner)[h := h]
    {
      hide WellFormed, Owned, Ring;
      InitOk(web, h);
      ghost var (w, next, prev) := (Initialised(web, h), web.next, web.prev);
      ghost var ns := StoreNext(h, h, next);
      ghost var ps := StorePrev(h, h, prev);
      web := w;
    }

    /** One pointer store, recorded in the map that mirrors the field. */
    static method StoreNext(x: ListHead, y: ListHead, ghost m: Links) returns (ghost m': Links)
      requires forall z :: z in m ==> z.next == m[z]
      modifies x`next
      ensures m' == m[x := y] && forall z :: z in m' ==> z.next == m'[z]
    {
      x.next := y;
      m' := m[x := y];
    }

    static method StorePrev(x: ListHead, y: ListHead, ghost m: Links) returns (ghost m': Links)
      requires forall z :: z in m ==> z.prev == m[z]
      modifies x`prev
      ensures m' == m[x := y] && forall z :: z in m' ==> z.prev == m'[z]
    {
      x.prev := y;
      m' := m[x := y];
    }

    /** __list_add: links n between two neighbours. */
    static method LinkBetween(n: ListHead, p: ListHead, x: ListHead, ghost next: Links, ghost prev: Links)
      requires forall z :: z in next ==> z.next == next[z]
      requires forall z :: z in prev ==> z.prev == prev[z]
      modifies n`next, n`prev, p`next, x`prev
      ensures var ns := next[n := x][p := n]; forall z :: z in ns ==> z.next == ns[z]
      ensures var ps := prev[x := n][n := p]; forall z :: z in ps ==> z.prev == ps[z]
    {
      ghost var ps := StorePrev(x, n, prev);
      ghost var ns := StoreNext(n, x, next);
      ps := StorePrev(n, p, ps);
      ns := StoreNext(p, n, ns);
    }

    /** __list_del: makes two nodes neighbours. */
    static method Join(p: ListHead, x: ListHead, ghost next: Links, ghost prev: Links)
      requires forall z :: z in next ==> z.next == next[z]
      requires forall z :: z in prev ==> z.prev == prev[z]
      modifies p`next, x`prev
      ensures var ns := next[p := x]; forall z :: z in ns ==> z.next == ns[z]
      ensures var ps := prev[x := p]; forall z :: z in ps ==> z.prev == ps[z]
    {
      ghost var ps := StorePrev(x, p, prev);
      ghost var ns := StoreNext(p, x, next);
    }

    /** Between: __list_add between the neighbours of position k, recorded in the web. */
    method Between(n: ListHead, p: ListHead, x: ListHead, ghost head: ListHead, ghost k: nat)
      requires Valid() && head in web.rings && k <= |web.rings[head]| && n !in web.owner
      requires p == At(head, web.rings[head], k - 1) && x == At(head, web.rings[head], k)
      modifies this, web.owner.Keys, n
      ensures Valid() && web == Insert(old(web), head, k, n)
    {
      hide Owned, Ring, Insert;
      InsertOk(web, head, k, n);
      InsertFields(web, head, k, n);
      NodesOwned(web, head, k - 1);
      NodesOwned(web, head, k);
      LinkBetween(n, p, x, web.next, web.prev);
      web := Insert(web, head, k, n);
    }

    method ListAdd(n: ListHead, head: ListHead)
      requires Valid() && head in web.rings && n !in web.owner
      modifies this, web.owner.Keys, n
      ensures Valid() && web.owner == old(web.owner)[n := head]
      ensures web.rings == old(web.rings)[head := [n] + old(web.rings[head])]
    {
      hide WellFormed, Owned, Ring;
      HeadLinks(web, head);
      assert web.rings[head][..0] + [n] + web.rings[head][0..] == [n] + web.rings[head];
      Between(n, head, head.next, head, 0);
    }

    method ListAddTail(n: ListHead, head: ListHead)
      requires Valid() && head in web.rings && n !in web.owner
      modifies this, web.owner.Keys, n
      ensures Valid() && web.owner == old(web.owner)[n := head]
      ensures web.rings == old(web.rings)[head := old(web.rings[head]) + [n]]
    {
      hide WellFormed, Owned, Ring;
      HeadLinks(web, head);
      ghost var s := web.rings[head];
      assert s[..|s|] + [n] + s[|s|..] == s + [n];
      Between(n, head.prev, head, head, |s|);
    }

    /** __list_del of an entry, recorded in the web; the entry's own fields stay. */
    method Unlink(x: ListHead)
      requires Valid() && Entry(web, x)
      modifies this, web.owner.Keys
      ensures Valid() && web == Delete(old(web), x)
    {
      hide Owned, Ring;
      DeleteOk(web, x);
      DeleteRing(web, x);
      Join(x.prev, x.next, web.next, web.prev);
      web := Delete(web, x);
    }

    method ListDel(x: ListHead)
      requires Valid() && Entry(web, x)
      modifies this, web.owner.Keys
      ensures Valid() && web.owner == old(web.owner) - {x} && x.next == null && x.prev == null
      ensures web.rings == old(web.rings)[old(web.owner[x]) := Without(old(web.rings[web.owner[x]]), x)]
    {
      hide WellFormed, Owned, Ring;
      Unlink(x);
      x.next := null;
      x.prev := null;
    }

    method ListDelInit(x: ListHead)
      requires Valid() && Entry(web, x)
      modifies this, web.owner.Keys
      ensures Valid() && web.owner == old(web.owner)[x := x]
      ensures web.rings == old(web.rings)[old(web.owner[x]) := Without(old(web.rings[web.owner[x]]), x)][x := []]
    {
      hide WellFormed, Owned, Ring;
      Unlink(x);
      Init(x);
    }

    method ListMove(x: ListHead, head: ListHead)
      requires Valid() && Entry(web, x) && head in web.rings
      modifies this, web.owner.Keys
      ensures Valid() && web.owner == old(web.owner)[x := head]
      ensures var cut := old(web.rings)[old(web.owner[x]) := Without(old(web.rings[web.owner[x]]), x)];
        web.rings == cut[head := [x] + cut[head]]
    {
      hide WellFormed, Owned, Ring;
      Unlink(x);
      ListAdd(x, head);
    }

    method ListMoveTail(x: ListHead, head: ListHead)
      requires Valid() && Entry(web, x) && head in web.rings
      modifies this, web.owner.Keys
      ensures Valid() && web.owner == old(web.owner)[x := head]
      ensures var cut := old(web.rings)[old(web.owner[x]) := Without(old(web.rings[web.owner[x]]), x)];
        web.rings == cut[head := cut[head] + [x]]
    {
      hide WellFormed, Owned, Ring;
      Unlink(x);
      ListAddTail(x, head);
    }

    method ListEmpty(head: ListHead) returns (empty: bool)
      requires Valid() && head in web.rings
      ensures empty <==> web.rings[head] == []
    {
      HeadLinks(web, head);
      HeadOutside(web, head);
      empty := head.next == head;
    }

    /** __list_splice followed by init_list_head of the emptied list. */
    static method Chain(list: ListHead, head: ListHead, ghost w: Web)
      requires list in w.owner && head in w.owner && w.next.Keys == w.owner.Keys && w.prev.Keys == w.owner.Keys
      requires w.next[list] in w.owner && w.prev[list] in w.owner && w.next[head] in w.owner
      requires forall x :: x in w.next ==> x.next == w.next[x]
      requires forall x :: x in w.prev ==> x.prev == w.prev[x]
      requires list != head && w.next[list] != list && w.prev[list] != list && w.next[head] != list
      requires w.next[list] != w.next[head] && w.prev[list] != head
      modifies w.owner.Keys
      ensures var ns := w.next[head := w.next[list]][w.prev[list] := w.next[head]][list := list];
        forall x :: x in ns ==> x.next == ns[x]
      ensures var ps := w.prev[w.next[list] := head][w.next[head] := w.prev[list]][list := list];
        forall x :: x in ps ==> x.prev == ps[x]
    {
      var first, last, at := list.next, list.prev, head.next;
      ghost var ps := StorePrev(first, head, w.prev);
      ghost var ns := StoreNext(head, first, w.next);
      ns := StoreNext(last, at, ns);
      ps := StorePrev(at, last, ps);
      ns := StoreNext(list, list, ns);
      ps := StorePrev(list, list, ps);
    }

    method ListSpliceInit(list: ListHead, head: ListHead)
      requires Valid() && list in web.rings && head in web.rings && list != head
      modifies this, web.owner.Keys
      ensures Valid() && web.owner.Keys == old(web.owner.Keys)
      ensures web.rings == old(web.rings)[head := old(web.rings[list] + web.rings[head])][list := []]
    {
      hide WellFormed, Owned, Ring, At, Points, Splice, Distinct;
      SpliceHeads(web, list, head);
      SpliceFields(web, list, head);
      SpliceOk(web, list, head);
      var empty := ListEmpty(list);
      if !empty {
        SpliceNodes(web, list, head);
        Chain(list, head, web);
        web := Splice(web, list, head);
      }
    }

    /** list_for_each: visits the entries in order and stops at the head. */
    method ForEach(head: ListHead) returns (visited: seq<ListHead>)
      requires Valid() && head in web.rings
      ensures visited == web.rings[head]
    {
      visited := [];
      ghost var s := web.rings[head];
      HeadLinks(web, head);
      var pos: ListHead := head.next;
      while pos != head
        invariant |visited| <= |s| && visited == s[..|visited|]
        invariant pos == At(head, s, |visited|)
        decreases |s| - |visited|
      {
        HeadOutside(web, head);
        assert Points(web.next, At(head, s, |visited|), At(head, s, |visited| + 1));
        visited := visited + [pos];
        pos := pos.next;
      }
      HeadOutside(web, head);
    }

    /** list_for_each_prev: visits the entries backwards. */
    method ForEachPrev(head: ListHead) returns (visited: seq<ListHead>)
      requires Valid() && head in web.rings
      ensures |visited| == |web.rings[head]|
      ensures forall i :: 0 <= i < |visited| ==> visited[i] == web.rings[head][|visited| - 1 - i]
    {
      visited := [];
      ghost var s := web.rings[head];
      HeadLinks(web, head);
      var pos: ListHead := head.prev;
      while pos != head
        invariant |visited| <= |s| && pos == At(head, s, |s| - 1 - |visited|)
        invariant forall i :: 0 <= i < |visited| ==> visited[i] == s[|s| - 1 - i]
        decreases |s| - |visited|
      {
        HeadOutside(web, head);
        assert Points(web.prev, At(head, s, |s| - 1 - |visited|), At(head, s, |s| - 2 - |visited|));
        visited := visited + [pos];
        pos := pos.prev;
      }
      HeadOutside(web, head);
    }

    /** One round of a safe traversal: the body may delete the entry x. */
    method Visit(x: ListHead, doomed: bool, ghost head: ListHead, ghost kept: seq<ListHead>, ghost rest: seq<ListHead>)
      requires Valid() && Entry(web, x) && web.owner[x] == head && head in web.rings
      requires web.rings[head] == kept + [x] + rest
      modifies this, web.owner.Keys
      ensures Valid() && web.owner.Keys <= old(web.owner.Keys)
      ensures web.rings == old(web.rings)[head := kept + (if doomed then [] else [x]) + rest]
    {
      hide WellFormed, Owned, Ring, Points;
      if doomed {
        WithoutMiddle(web, head, kept, x, rest);
        ListDel(x);
        assert kept + [] + rest == kept + rest;
      }
    }

    /** list_for_each_safe with a body that may delete the current entry. */
    method ForEachSafe(head: ListHead, doomed: ListHead -> bool) returns (visited: seq<ListHead>)
      requires Valid() && head in web.rings
      modifies this, web.owner.Keys
      ensures Valid() && visited == old(web.rings[head])
      ensures web.rings == old(web.rings)[head := Survivors(old(web.rings[head]), doomed)]
    {
      hide Valid, WellFormed, Owned, Ring, Midway, Survivors;
      visited := [];
      ghost var s, rs, i := web.rings[head], web.rings, 0;
      MidStart(head, doomed);
      var pos: ListHead := head.next;
      var n: ListHead := pos.next;
      while pos != head
        invariant Valid() && web.owner.Keys <= old(web.owner.Keys)
        invariant 0 <= i <= |s| && Midway(web, head, rs, s, i, doomed) && visited == s[..i]
        invariant pos == At(head, s, i) && (i < |s| ==> n == At(head, s, i + 1))
        decreases |s| - i
      {
        ghost var w := web;
        MidCurrent(web, head, rs, s, i, doomed);
        Visit(pos, doomed(pos), head, Survivors(s[..i], doomed), s[i + 1..]);
        visited := visited + [pos];
        pos := n;
        i := i + 1;
        ValidIsWellFormed();
        MidAdvance(w, web, head, rs, s, i, doomed);
        MidNext(head, rs, s, i, doomed);
        n := pos.next;
      }
      MidEnd(web, head, rs, s, i, doomed);
    }

    lemma ValidIsWellFormed()
      requires Valid()
      ensures WellFormed(web)
    {
    }

    lemma MidStart(head: ListHead, doomed: ListHead -> bool)
      requires Valid() && head in web.rings
      ensures Midway(web, head, web.rings, web.rings[head], 0, doomed)
      ensures head.next != null && head.next == At(head, web.rings[head], 0) && head.next.next != null
      ensures web.rings[head] != [] ==> head.next.next == At(head, web.rings[head], 1)
    {
      var s := web.rings[head];
      HeadLinks(web, head);
      NodesOwned(web, head, 1);
      assert s != [] ==> Points(web.next, At(head, s, 0), At(head, s, 1));
      assert Survivors(s[..0], doomed) + s[0..] == s;
    }

    lemma MidNext(head: ListHead, rs: map<ListHead, seq<ListHead>>, s: seq<ListHead>, i: nat, doomed: ListHead -> bool)
      requires Valid() && i <= |s| && Midway(web, head, rs, s, i, doomed)
      ensures At(head, s, i).next != null
      ensures i < |s| ==> At(head, s, i).next == At(head, s, i + 1)
    {
      var (r, k) := (web.rings[head], |Survivors(s[..i], doomed)|);
      NodesOwned(web, head, k);
      assert i < |s| ==> Points(web.next, At(head, r, k), At(head, r, k + 1));
    }
  }

  /** Entries of s before position i have been visited; those after it are still to come. */
  ghost predicate Midway(w: Web, head: ListHead, rs: map<ListHead, seq<ListHead>>, s: seq<ListHead>, i: nat, doomed: ListHead -> bool) {
    && WellFormed(w) && head in rs && i <= |s| && head !in s
    && w.rings == rs[head := Survivors(s[..i], doomed) + s[i..]]
  }

  ghost function Survivors(s: seq<ListHead>, doomed: ListHead -> bool): seq<ListHead> {
    if s == [] then [] else (if doomed(s[0]) then [] else [s[0]]) + Survivors(s[1..], doomed)
  }

  lemma {:induction false} SurvivorsSnoc(s: seq<ListHead>, x: ListHead, doomed: ListHead -> bool)
    ensures Survivors(s + [x], doomed) == Survivors(s, doomed) + if doomed(x) then [] else [x]
  {
    if s != [] {
      assert (s + [x])[1..] == s[1..] + [x];
      SurvivorsSnoc(s[1..], x, doomed);
    }
  }

  lemma WithoutMiddle(w: Web, head: ListHead, kept: seq<ListHead>, x: ListHead, rest: seq<ListHead>)
    requires WellFormed(w) && head in w.rings && w.rings[head] == kept + [x] + rest
    ensures Without(w.rings[head], x) == kept + rest
  {
    var r := w.rings[head];
    HeadOutside(w, head);
    assert r[|kept|] == x;
    WithoutAt(r, |kept|);
    assert r[..|kept|] + r[|kept| + 1..] == kept + rest;
  }

  lemma MidCurrent(w: Web, head: ListHead, rs: map<ListHead, seq<ListHead>>, s: seq<ListHead>, i: nat, doomed: ListHead -> bool)
    requires Midway(w, head, rs, s, i, doomed) && At(head, s, i) != head
    ensures i < |s| && Entry(w, s[i]) && head in w.rings && w.owner[s[i]] == head
    ensures w.rings[head] == Survivors(s[..i], doomed) + [s[i]] + s[i + 1..]
    ensures s[..i + 1] == s[..i] + [s[i]]
  {
    assert w.rings[head][|Survivors(s[..i], doomed)|] == s[i] && s[i] in w.rings[head];
  }

  lemma Overwrite(m: map<ListHead, seq<ListHead>>, h: ListHead, a: seq<ListHead>, b: seq<ListHead>)
    ensures m[h := a][h := b] == m[h := b]
  {
  }

  lemma MidAdvance(w: Web, w': Web, head: ListHead, rs: map<ListHead, seq<ListHead>>, s: seq<ListHead>, i: nat, doomed: ListHead -> bool)
    requires 0 < i <= |s| && Midway(w, head, rs, s, i - 1, doomed) && WellFormed(w')
    requires w'.rings == w.rings[head := Survivors(s[..i - 1], doomed) + (if doomed(s[i - 1]) then [] else [s[i - 1]]) + s[i..]]
    ensures Midway(w', head, rs, s, i, doomed)
  {
    hide WellFormed, Survivors;
    assert s[..i] == s[..i - 1] + [s[i - 1]];
    SurvivorsSnoc(s[..i - 1], s[i - 1], doomed);
    Overwrite(rs, head, Survivors(s[..i - 1], doomed) + s[i - 1..], Survivors(s[..i], doomed) + s[i..]);
  }

  lemma MidEnd(w: Web, head: ListHead, rs: map<ListHead, seq<ListHead>>, s: seq<ListHead>, i: nat, doomed: ListHead -> bool)
    requires Midway(w, head, rs, s, i, doomed) && At(head, s, i) == head
    ensures i == |s| && s[..i] == s && w.rings == rs[head := Survivors(s, doomed)]
  {
    assert forall k :: 0 <= k < |s| ==> s[k] in s;
    assert s[..|s|] == s && Survivors(s, doomed) + s[|s|..] == Survivors(s, doomed);
  }
}
