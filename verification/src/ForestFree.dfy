/** talloc_free and talloc_free_children on the abstract forest. */
module ForestFree {
  import opened Forest

  predicate Refuses(d: Dtor) {
    d.InProgress? || (d.User? && !d.accepts)
  }

  // Who takes over the child c of p when freeing c has failed: the holder of the first
  // reference to c, else the parent of p, else nobody.
  function NewOwner(f: Forest, p: Ptr, c: Ptr): Ptr
    requires WF(f) && p in f && c in f
  {
    if f[c].refs == [] then f[p].up
    else
      assert RefAt(f, c);
      var x := f[f[c].refs[0]].up;
      if x == 0 then f[p].up else x
  }

  // What freeing leaves alone: nothing appears, and survivors keep their identity.
  ghost predicate Shrinks(f: Forest, g: Forest) {
    && g.Keys <= f.Keys
    && forall x :: x in g ==>
         && g[x].role == f[x].role && g[x].dtor == f[x].dtor && g[x].size == f[x].size
         && (f[x].refs == [] ==> g[x].refs == [])
         && (f[x].role.Handle? ==> g[x].up == f[x].up)
  }

  // Only handles and chunks ranked at most `top` have disappeared.
  ghost predicate LostBelow(f: Forest, g: Forest, rank: map<Ptr, nat>, top: int) {
    forall x :: x in f && x !in g ==> f[x].role.Handle? || (x in rank && rank[x] <= top)
  }

  ghost function Free(f: Forest, rank: map<Ptr, nat>, p: Ptr): (r: (Forest, bool))
    requires Inv(f, rank) && p in f
    ensures Inv(r.0, rank)
    ensures Shrinks(f, r.0)
    ensures r.1 ==> p !in r.0
    ensures !r.1 ==> p in r.0
    ensures !r.1 ==> r.0 == if f[p].refs != [] then DropHead(f, p) else f
    ensures r.1 <==> f[p].refs == [] && !Refuses(f[p].dtor)
    ensures p in rank && LostBelow(f, r.0, rank, rank[p])
    decreases |f|, if p in rank then rank[p] else 0, |f[p].kids|, 2
  {
    assert RankAt(f, rank, p);
    if f[p].refs != [] then
      DropHeadInv(f, rank, p);
      DropHeadShrinks(f, p);
      (DropHead(f, p), false)
    else if Refuses(f[p].dtor) then (f, false)
    else
      var f1 := Disarm(f, p);
      DisarmInv(f, rank, p);
      var f2 := FreeKids(f1, rank, p);
      FreedChunk(f, f2, rank, p);
      (Delete(f2, p), true)
  }

  // once its destructor has run and its children are gone, the chunk can be deleted
  lemma FreedChunk(f: Forest, g: Forest, rank: map<Ptr, nat>, p: Ptr)
    requires Inv(f, rank) && p in f && f[p].refs == [] && p in rank
    requires Inv(g, rank) && p in g && g[p].kids == [] && Shrinks(Disarm(f, p), g)
    requires LostBelow(Disarm(f, p), g, rank, rank[p] as int - 1)
    ensures TreeAt(g, p) && p !in Delete(g, p)
    ensures Inv(Delete(g, p), rank) && Shrinks(f, Delete(g, p)) && LostBelow(f, Delete(g, p), rank, rank[p])
  {
    DisarmInv(f, rank, p);
    DeleteInv(g, rank, p);
    DeleteShrinks(g, p);
  }

  // the destructor has run: a handle leaves its target's list, a chunk loses its destructor
  function Disarm(f: Forest, p: Ptr): Forest
    requires WF(f) && p in f
  {
    assert RefAt(f, p);
    if f[p].role.Handle? then DropRef(f, p, NoDtor) else SetDtor(f, p, NoDtor)
  }

  // One turn of the loop of talloc_free_children: the first child of p is freed, or, when
  // that fails, handed to its new owner.
  ghost function Visit(f: Forest, rank: map<Ptr, nat>, p: Ptr): (r: Forest)
    requires Inv(f, rank) && p in f && f[p].refs == [] && f[p].role.Plain? && f[p].kids != []
    ensures Inv(r, rank) && Shrinks(f, r) && p in r && r[p].refs == [] && r[p].role.Plain?
    ensures p in rank && LostBelow(f, r, rank, rank[p] as int - 1)
    ensures |r| < |f| || (|r| == |f| && |r[p].kids| < |f[p].kids|)
    decreases |f|, if p in rank then rank[p] else 0, |f[p].kids|, 0
  {
    FirstKid(f, rank, p);
    var c := f[p].kids[0];
    var (f1, freed) := Free(f, rank, c);
    if freed then
      StrictlyFewer(f1, f, c);
      f1
    else
      AdoptInv(f, f1, rank, p, c);
      Steal(f1, NewOwner(f, p, c), c)
  }

  ghost function FreeKids(f: Forest, rank: map<Ptr, nat>, p: Ptr): (r: Forest)
    requires Inv(f, rank) && p in f && f[p].refs == [] && f[p].role.Plain?
    ensures Inv(r, rank) && Shrinks(f, r)
    ensures p in r && r[p].kids == []
    ensures p in rank && LostBelow(f, r, rank, rank[p] as int - 1)
    decreases |f|, if p in rank then rank[p] else 0, |f[p].kids|, 1
  {
    assert RankAt(f, rank, p);
    if f[p].kids == [] then f else FreeKids(Visit(f, rank, p), rank, p)
  }

  lemma FirstKid(f: Forest, rank: map<Ptr, nat>, p: Ptr)
    requires Inv(f, rank) && p in f && f[p].kids != []
    ensures var c := f[p].kids[0];
      && p in rank && c in f && c in rank && f[c].up == p && p != 0 && rank[c] < rank[p]
      && c in f[p].kids && f[p].role.Plain?
  {
    assert TreeAt(f, p) && RefAt(f, p) && RankAt(f, rank, p);
    assert RankAt(f, rank, f[p].kids[0]);
  }

  lemma StrictlyFewer(g: Forest, f: Forest, c: Ptr)
    requires g.Keys <= f.Keys && c in f && c !in g
    ensures |g| < |f|
  {
    assert g.Keys <= f.Keys - {c};
    SubsetSize(g.Keys, f.Keys - {c});
    assert |g.Keys| == |g| && |f.Keys| == |f|;
  }

  lemma SubsetSize(a: set<Ptr>, b: set<Ptr>)
    requires a <= b
    ensures |a| <= |b|
  {
    if a != {} {
      var x :| x in a;
      SubsetSize(a - {x}, b - {x});
    }
  }

  // Dropping the first reference to p changes two lists only.
  lemma DropHeadEffect(f: Forest, p: Ptr)
    requires WF(f) && p in f && f[p].refs != []
    ensures var h := f[p].refs[0];
      && h in f && f[h].role == Handle(p)
      && DropHead(f, p).Keys == f.Keys - {h}
      && (forall x :: x in f && x != h ==>
            DropHead(f, p)[x] == f[x].(kids := if x == f[h].up then Without(f[x].kids, h) else f[x].kids,
                                       refs := if x == p then f[x].refs[1..] else f[x].refs))
  {
    assert RefAt(f, p) && RefAt(f, f[p].refs[0]) && TreeAt(f, f[p].refs[0]);
  }

  lemma DropHeadShrinks(f: Forest, p: Ptr)
    requires WF(f) && p in f && f[p].refs != []
    ensures Shrinks(f, DropHead(f, p))
  {
    DropHeadEffect(f, p);
  }

  lemma DeleteShrinks(f: Forest, p: Ptr)
    requires WF(f) && p in f
    ensures TreeAt(f, p) && Shrinks(f, Delete(f, p))
  {
    assert TreeAt(f, p);
  }

  lemma DisarmInv(f: Forest, rank: map<Ptr, nat>, p: Ptr)
    requires Inv(f, rank) && p in f && f[p].refs == []
    ensures Inv(Disarm(f, p), rank)
    ensures Disarm(f, p).Keys == f.Keys
    ensures Disarm(f, p)[p] == f[p].(role := Plain, dtor := NoDtor)
    ensures forall x :: x in f && x != p ==> Disarm(f, p)[x] == f[x].(refs := Disarm(f, p)[x].refs)
    ensures forall x :: x in f && f[x].refs == [] ==> Disarm(f, p)[x].refs == []
  {
    assert RefAt(f, p);
    if f[p].role.Handle? {
      DropRefInv(f, rank, p, NoDtor);
      assert f[p].role.target != p by { assert RankAt(f, rank, p); }
    } else {
      SetDtorInv(f, rank, p, NoDtor);
    }
  }

  lemma SetDtorInv(f: Forest, rank: map<Ptr, nat>, p: Ptr, d: Dtor)
    requires Inv(f, rank) && p in f && f[p].role.Plain? && d != RefDtor
    ensures Inv(SetDtor(f, p, d), rank)
  {
    var g := SetDtor(f, p, d);
    forall x | x in g ensures TreeAt(g, x) && RankAt(g, rank, x) {
      assert TreeAt(f, x) && RankAt(f, rank, x);
    }
    forall x | x in g ensures RefAt(g, x) {
      assert RefAt(f, x);
    }
  }

  // The new owner of a child that could not be freed is alive, ordinary, and ranks above it.
  lemma NewOwnerOK(f: Forest, rank: map<Ptr, nat>, p: Ptr, c: Ptr)
    requires Inv(f, rank) && p in f && c in f && f[c].up == p && f[p].role.Plain?
    ensures var np := NewOwner(f, p, c);
      np == 0 || (np in f && np != c && f[np].role.Plain? && np in rank && c in rank && rank[np] > rank[c])
    ensures f[c].refs == [] ==> NewOwner(f, p, c) != p
  {
    assert RankAt(f, rank, c) && RankAt(f, rank, p) && TreeAt(f, p) && RefAt(f, c);
    if f[c].refs != [] {
      var h := f[c].refs[0];
      assert RankAt(f, rank, h) && TreeAt(f, h);
      if f[h].up != 0 {
        assert RefAt(f, f[h].up);
      }
    }
    if f[p].up != 0 {
      assert RefAt(f, f[p].up);
    }
  }

  lemma FailedFree(f: Forest, g: Forest, rank: map<Ptr, nat>, p: Ptr, c: Ptr)
    requires Inv(f, rank) && p in f && c in f && f[c].up == p && f[p].role.Plain?
    requires g == if f[c].refs != [] then DropHead(f, c) else f
    ensures Inv(g, rank) && Shrinks(f, g)
    ensures forall x :: x in f && f[x].role.Plain? ==> x in g && g[x].up == f[x].up
    ensures f[c].refs != [] ==> |g| < |f|
  {
    if f[c].refs != [] {
      DropHeadInv(f, rank, c);
      DropHeadShrinks(f, c);
      DropHeadEffect(f, c);
      StrictlyFewer(g, f, f[c].refs[0]);
    }
  }

  lemma AdoptInv(f: Forest, g: Forest, rank: map<Ptr, nat>, p: Ptr, c: Ptr)
    requires Inv(f, rank) && p in f && c in f && f[c].up == p && f[p].role.Plain? && c in f[p].kids
    requires f[c].refs != [] || Refuses(f[c].dtor)
    requires g == if f[c].refs != [] then DropHead(f, c) else f
    ensures var np := NewOwner(f, p, c);
      c in g && TreeAt(g, c) && (np != 0 ==> np in g)
    ensures var s := Steal(g, NewOwner(f, p, c), c);
      && Inv(s, rank) && Shrinks(f, s) && p in s && s[p].refs == g[p].refs
      && s.Keys == g.Keys
      && (f[c].refs == [] ==> |s| == |f| && |s[p].kids| < |f[p].kids|)
      && (f[c].refs != [] ==> |s| < |f|)
  {
    var np := NewOwner(f, p, c);
    assert f[c].role.Plain? by { assert RefAt(f, c); }
    NewOwnerOK(f, rank, p, c);
    FailedFree(f, g, rank, p, c);
    StealInv(g, rank, np, c);
    StealSame(g, np, c);
    var s := Steal(g, np, c);
    assert |s.Keys| == |s| && |g.Keys| == |g|;
  }

  lemma StealSame(g: Forest, np: Ptr, c: Ptr)
    requires c in g && (g[c].up != 0 ==> g[c].up in g) && (np != 0 ==> np in g)
    ensures var s := Steal(g, np, c);
      && s.Keys == g.Keys
      && (forall x :: x in g ==> s[x] == g[x].(up := s[x].up, kids := s[x].kids))
      && (forall x :: x in g && x != c ==> s[x].up == g[x].up)
      && (np != c ==> s[c].up == np)
  {
  }
}
