/** _talloc_realloc moves a block: every link to the old address must come to name the new one. */
module ForestRename {
  import opened Forest
  import opened TallocLinks

  function To(a: Ptr, b: Ptr, x: Ptr): Ptr {
    if x == a then b else x
  }

  function Replace(s: seq<Ptr>, a: Ptr, b: Ptr): (r: seq<Ptr>)
    ensures |r| == |s| && forall i :: 0 <= i < |s| ==> r[i] == To(a, b, s[i])
    ensures forall x :: x in s ==> To(a, b, x) in r
    ensures forall y :: y in r ==> y == b || y in s
    ensures b in r ==> b in s || a in s
    ensures a != b ==> a !in r
    ensures a !in s ==> r == s
  {
    if s == [] then [] else
      var t := Replace(s[1..], a, b);
      assert s == [s[0]] + s[1..];
      assert forall y :: y in [To(a, b, s[0])] + t <==> y == To(a, b, s[0]) || y in t;
      [To(a, b, s[0])] + t
  }

  lemma {:induction false} ReplaceNoDup(s: seq<Ptr>, a: Ptr, b: Ptr)
    requires NoDup(s) && b !in s
    ensures NoDup(Replace(s, a, b))
  {
    if s != [] {
      ReplaceNoDup(s[1..], a, b);
      var r := Replace(s, a, b);
      assert r[1..] == Replace(s[1..], a, b);
    }
  }

  // the forest after the chunk at a has moved to b and now holds `size` bytes
  function Rename(f: Forest, a: Ptr, b: Ptr, size: nat): Forest
    requires a in f
  {
    map y | y in f.Keys - {a} + {b} ::
      var n := if y == b then f[a].(size := size) else f[y];
      n.(up := To(a, b, n.up), kids := Replace(n.kids, a, b))
  }

  lemma RenameInv(f: Forest, rank: map<Ptr, nat>, a: Ptr, b: Ptr, size: nat)
    requires Inv(f, rank) && a in f && f[a].refs == [] && f[a].role.Plain? && b != 0 && b !in f
    ensures a in rank && Inv(Rename(f, a, b, size), rank[b := rank[a]])
  {
    assert RankAt(f, rank, a);
    var g := Rename(f, a, b, size);
    var r := rank[b := rank[a]];
    forall y | y in g ensures TreeAt(g, y) && RefAt(g, y) && RankAt(g, r, y) {
      RenameTree(f, a, b, size, y);
      RenameRef(f, a, b, size, y);
      RenameRank(f, rank, a, b, size, y);
    }
  }

  // children keep naming their parent under its new name
  lemma RenameKids(f: Forest, a: Ptr, b: Ptr, size: nat, y: Ptr)
    requires WF(f) && a in f && b != 0 && b !in f && y in Rename(f, a, b, size)
    ensures var g := Rename(f, a, b, size);
      NoDup(g[y].kids) && forall c :: c in g[y].kids ==> c in g && g[c].up == y
  {
    var g := Rename(f, a, b, size);
    var x := if y == b then a else y;
    assert TreeAt(f, x);
    ReplaceNoDup(f[x].kids, a, b);
    forall c | c in g[y].kids ensures c in g && g[c].up == y {
      if c == b { assert a in f[x].kids; }
    }
  }

  lemma RenameTree(f: Forest, a: Ptr, b: Ptr, size: nat, y: Ptr)
    requires WF(f) && a in f && b != 0 && b !in f && y in Rename(f, a, b, size)
    ensures TreeAt(Rename(f, a, b, size), y)
  {
    RenameKids(f, a, b, size, y);
    var x := if y == b then a else y;
    assert TreeAt(f, x);
    if f[x].up != 0 { assert TreeAt(f, f[x].up); }
  }

  lemma RenameRef(f: Forest, a: Ptr, b: Ptr, size: nat, y: Ptr)
    requires WF(f) && a in f && f[a].refs == [] && f[a].role.Plain? && b != 0 && b !in f && y in Rename(f, a, b, size)
    ensures RefAt(Rename(f, a, b, size), y)
  {
    var g := Rename(f, a, b, size);
    var x := if y == b then a else y;
    assert RefAt(f, x);
    forall h | h in g[y].refs ensures h in g && g[h].role == Handle(y) { }
    if f[x].role.Handle? { assert RefAt(f, f[x].role.target); }
  }

  lemma RenameRank(f: Forest, rank: map<Ptr, nat>, a: Ptr, b: Ptr, size: nat, y: Ptr)
    requires Inv(f, rank) && a in f && a in rank && f[a].refs == [] && b != 0 && b !in f && y in Rename(f, a, b, size)
    ensures RankAt(Rename(f, a, b, size), rank[b := rank[a]], y)
  {
    var x := if y == b then a else y;
    assert RankAt(f, rank, x) && RefAt(f, x) && TreeAt(f, x);
  }

  // ---------------------------------------------------------------- the moved block in memory

  // every link that named a names b
  function Renamed(c: Chunk, a: Ptr, b: Ptr): Chunk {
    c.(next := To(a, b, c.next), prev := To(a, b, c.prev), parent := To(a, b, c.parent), child := To(a, b, c.child))
  }

  ghost predicate IsMove(mem: Memory, now: Memory, a: Ptr, b: Ptr, size: nat) {
    && a in mem && now.Keys == mem.Keys - {a} + {b}
    && now[b] == Renamed(mem[a], a, b).(size := size)
    && forall x {:trigger now[x]} :: x in mem && x != a ==> now[x] == Renamed(mem[x], a, b)
  }

  lemma MoveKids(mem: Memory, now: Memory, a: Ptr, b: Ptr, size: nat, q: Ptr, t: seq<Ptr>)
    requires IsMove(mem, now, a, b, size) && b !in mem && a != 0 && KidLinks(mem, q, t) && q != 0
    ensures KidLinks(now, To(a, b, q), Replace(t, a, b))
  {
    var u := Replace(t, a, b);
    forall j | 0 <= j < |u| ensures KidAt(now, To(a, b, q), u, j) {
      assert KidAt(mem, q, t, j);
      if t[j] != a { assert now[t[j]] == Renamed(mem[t[j]], a, b); }
      assert At(u, j + 1) == To(a, b, At(t, j + 1)) && At(u, j - 1) == To(a, b, At(t, j - 1));
    }
    if q != a { assert now[q] == Renamed(mem[q], a, b); }
    assert At(u, 0) == To(a, b, At(t, 0));
  }

  lemma MoveRefs(mem: Memory, now: Memory, a: Ptr, b: Ptr, size: nat, q: Ptr, t: seq<Ptr>)
    requires IsMove(mem, now, a, b, size) && b !in mem && RefLinks(mem, q, t) && a !in t
    ensures RefLinks(now, To(a, b, q), t)
  {
    forall j | 0 <= j < |t| ensures RefLinkAt(now, t, j) {
      assert RefLinkAt(mem, t, j) && t[j] in t;
      assert now[t[j]] == Renamed(mem[t[j]], a, b);
    }
    if q != a { assert now[q] == Renamed(mem[q], a, b); }
  }

  /** After the move every link that named the old block names the new one, and the memory
      represents the renamed forest. */
  lemma MoveRep(mem: Memory, now: Memory, f: Forest, a: Ptr, b: Ptr, size: nat)
    requires WF(f) && Rep(mem, f, 0) && a in f && f[a].refs == [] && f[a].role.Plain? && b != 0 && b !in f
    requires IsMove(mem, now, a, b, size)
    ensures Rep(now, Rename(f, a, b, size), 0)
  {
    var g := Rename(f, a, b, size);
    forall y | y in g ensures RepAt(now, g, 0, y) {
      var x := if y == b then a else y;
      assert RepAt(mem, f, 0, x) && RefAt(f, x);
      MoveKids(mem, now, a, b, size, x, f[x].kids);
      MoveRefs(mem, now, a, b, size, x, f[x].refs);
      if x != a { assert now[x] == Renamed(mem[x], a, b); }
    }
  }

  // ---------------------------------------------------------------- a block that stays

  lemma RenameInPlace(f: Forest, rank: map<Ptr, nat>, a: Ptr, size: nat)
    requires Inv(f, rank) && a in f
    ensures Rename(f, a, a, size) == f[a := f[a].(size := size)]
    ensures Inv(f[a := f[a].(size := size)], rank)
  {
    RenameSame(f, a, size);
    ResizeInv(f, rank, a, size);
  }

  lemma ResizeInv(f: Forest, rank: map<Ptr, nat>, a: Ptr, size: nat)
    requires Inv(f, rank) && a in f
    ensures Inv(f[a := f[a].(size := size)], rank)
  {
    var g := f[a := f[a].(size := size)];
    forall x | x in g ensures TreeAt(g, x) && RefAt(g, x) && RankAt(g, rank, x) {
      assert TreeAt(f, x) && RefAt(f, x) && RankAt(f, rank, x);
    }
  }

  lemma RenameSame(f: Forest, a: Ptr, size: nat)
    requires a in f
    ensures Rename(f, a, a, size) == f[a := f[a].(size := size)]
  {
    var r, g := Rename(f, a, a, size), f[a := f[a].(size := size)];
    assert r.Keys == g.Keys;
    forall x | x in g ensures r[x] == g[x] {
      var n := g[x];
      ReplaceSelf(n.kids, a);
      assert r[x] == n.(up := To(a, a, n.up), kids := n.kids);
    }
  }

  lemma ReplaceSelf(s: seq<Ptr>, a: Ptr)
    ensures Replace(s, a, a) == s
  {
  }

  // ---------------------------------------------------------------- who links to a block

  // Where the links of the neighbours of a point, so that renaming them renames all.
  predicate LinksTo(mem: Memory, x: Ptr, a: Ptr)
    requires x in mem && a in mem
  {
    && (mem[x].next == a <==> x == mem[a].prev)
    && (mem[x].prev == a <==> x == mem[a].next)
    && (mem[x].child == a <==> x == mem[a].parent)
    && (mem[x].parent == a <==> x == mem[a].child)
  }

  predicate Neighbour(mem: Memory, a: Ptr, x: Ptr) {
    x != a && (x == 0 || x in mem)
  }

  // x after the pointer updates of a moving realloc; tc is the block that moved to b
  predicate RelinkAt(c: Chunk, d: Chunk, x: Ptr, tc: Chunk, b: Ptr) {
    && SameElse(c, d)
    && d.child == (if x == tc.parent then b else c.child)
    && d.parent == (if x == tc.child then b else c.parent)
    && d.next == (if x == tc.prev then b else c.next)
    && d.prev == (if x == tc.next then b else c.prev)
  }

  predicate FamilyAt(c: Chunk, d: Chunk, x: Ptr, parent: Ptr, child: Ptr, b: Ptr) {
    && SameElse(c, d) && d.next == c.next && d.prev == c.prev
    && d.child == (if x == parent then b else c.child)
    && d.parent == (if x == child then b else c.parent)
  }

  predicate SiblingAt(c: Chunk, d: Chunk, x: Ptr, prev: Ptr, next: Ptr, b: Ptr) {
    && SameElse(c, d) && d.child == c.child && d.parent == c.parent
    && d.next == (if x == prev then b else c.next)
    && d.prev == (if x == next then b else c.prev)
  }

  ghost predicate IsRelinked(mem: Memory, now: Memory, a: Ptr, b: Ptr, size: nat) {
    && a in mem && now.Keys == mem.Keys - {a} + {b}
    && now[b] == mem[a].(size := size)
    && forall x {:trigger now[x]} :: x in mem && x != a ==> RelinkAt(mem[x], now[x], x, mem[a], b)
  }

  // the four steps of RelinkBlock put together
  lemma Relinked(m0: Memory, m1: Memory, m2: Memory, m3: Memory, m4: Memory, a: Ptr, b: Ptr, size: nat)
    requires a in m0 && 0 !in m0 && b != 0 && (b !in m0 || b == a) && m1 == (m0 - {a})[b := m0[a]]
    requires m2.Keys == m1.Keys && forall x {:trigger m2[x]} :: x in m1 ==>
      FamilyAt(m1[x], m2[x], x, m0[a].parent, m0[a].child, b)
    requires m3.Keys == m2.Keys && forall x {:trigger m3[x]} :: x in m2 ==>
      SiblingAt(m2[x], m3[x], x, m0[a].prev, m0[a].next, b)
    requires m4 == m3[b := m3[b].(size := size)]
    requires Neighbour(m0, a, m0[a].parent) && Neighbour(m0, a, m0[a].child)
    requires Neighbour(m0, a, m0[a].prev) && Neighbour(m0, a, m0[a].next)
    ensures IsRelinked(m0, m4, a, b, size)
  {
    assert m1.Keys == m0.Keys - {a} + {b};
    assert m4.Keys == m3.Keys;
    assert FamilyAt(m1[b], m2[b], b, m0[a].parent, m0[a].child, b)
      && SiblingAt(m2[b], m3[b], b, m0[a].prev, m0[a].next, b);
    forall x | x in m0 && x != a ensures RelinkAt(m0[x], m4[x], x, m0[a], b) {
      assert FamilyAt(m1[x], m2[x], x, m0[a].parent, m0[a].child, b)
        && SiblingAt(m2[x], m3[x], x, m0[a].prev, m0[a].next, b);
    }
  }

  lemma RelinkMoves(mem: Memory, now: Memory, a: Ptr, b: Ptr, size: nat)
    requires a in mem && (forall x :: x in mem ==> LinksTo(mem, x, a)) && IsRelinked(mem, now, a, b, size)
    requires Neighbour(mem, a, mem[a].parent) && Neighbour(mem, a, mem[a].child)
    requires Neighbour(mem, a, mem[a].prev) && Neighbour(mem, a, mem[a].next)
    ensures b == a ==> now == mem[a := mem[a].(size := size)]
    ensures b != a ==> IsMove(mem, now, a, b, size)
  {
    assert LinksTo(mem, a, a);
    forall x | x in mem && x != a ensures now[x] == Renamed(mem[x], a, b) {
      assert LinksTo(mem, x, a) && RelinkAt(mem[x], now[x], x, mem[a], b);
    }
  }

  lemma OnlyNeighbours(mem: Memory, f: Forest, rank: map<Ptr, nat>, a: Ptr, x: Ptr)
    requires Inv(f, rank) && Rep(mem, f, 0) && a in f && x in f
    ensures LinksTo(mem, x, a)
  {
    SiblingLinks(mem, f, rank, a, x);
    ChildLinks(mem, f, rank, a, x);
    ChildLinks(mem, f, rank, x, a);
  }

  lemma ChildLinks(mem: Memory, f: Forest, rank: map<Ptr, nat>, a: Ptr, x: Ptr)
    requires Inv(f, rank) && Rep(mem, f, 0) && a in f && x in f
    ensures mem[x].child == a <==> x == mem[a].parent
  {
    assert RepAt(mem, f, 0, x) && RepAt(mem, f, 0, a) && TreeAt(f, x) && TreeAt(f, a);
    if mem[x].child == a {
      assert f[x].kids != [] && f[x].kids[0] == a;
      assert KidAt(mem, x, f[x].kids, 0);
    }
    if x == mem[a].parent {
      var i := KidPlace(mem, f, rank, a);
      assert KidAt(mem, f[a].up, f[f[a].up].kids, i);
    }
  }

  lemma SiblingLinks(mem: Memory, f: Forest, rank: map<Ptr, nat>, a: Ptr, x: Ptr)
    requires Inv(f, rank) && Rep(mem, f, 0) && a in f && x in f
    ensures mem[x].next == a <==> x == mem[a].prev
    ensures mem[x].prev == a <==> x == mem[a].next
  {
    NextPrev(mem, f, rank, a, x);
    NextPrev(mem, f, rank, x, a);
  }

  lemma NextPrev(mem: Memory, f: Forest, rank: map<Ptr, nat>, a: Ptr, x: Ptr)
    requires Inv(f, rank) && Rep(mem, f, 0) && a in f && x in f
    ensures mem[x].next == a <==> x == mem[a].prev
  {
    assert RepAt(mem, f, 0, x) && RepAt(mem, f, 0, a);
    if mem[x].next == a {
      var i := KidPlace(mem, f, rank, x);
      var s := f[f[x].up].kids;
      assert KidAt(mem, f[x].up, s, i);
      assert KidAt(mem, f[x].up, s, i + 1);
    }
    if x == mem[a].prev {
      var i := KidPlace(mem, f, rank, a);
      var s := f[f[a].up].kids;
      assert KidAt(mem, f[a].up, s, i);
      assert KidAt(mem, f[a].up, s, i - 1);
    }
  }
}
