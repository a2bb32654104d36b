/** Exactly which chunks freeing destroys. */
module ForestExact {
  import opened Forest
  import opened ForestFree
  import opened ForestSafety

  // ---------------------------------------------------------------- chunks that must die

  // Live members of `doomed` are owned and referenced from `doomed` only, but for the owner
  // of `top`, and none refuses to be freed.
  ghost predicate Doomed(f: Forest, doomed: set<Ptr>, top: Ptr) {
    && 0 !in doomed
    && forall x :: x in doomed && x in f ==>
         && f[x].role.Plain? && !Refuses(f[x].dtor)
         && (x != top ==> f[x].up in doomed)
         && (forall h :: h in f[x].refs && h in f ==> f[h].up in doomed)
  }

  // Shrinking reference lists and removing chunks keeps a set doomed.
  lemma DoomedShrinks(f: Forest, g: Forest, doomed: set<Ptr>, top: Ptr)
    requires WF(f) && Doomed(f, doomed, top) && g.Keys <= f.Keys
    requires forall x :: x in doomed && x in g ==>
      && g[x].role.Plain? && !Refuses(g[x].dtor) && g[x].up == f[x].up
      && forall h :: h in g[x].refs ==> h in f[x].refs
    requires forall h :: h in g && f[h].role.Handle? ==> g[h].up == f[h].up
    ensures Doomed(g, doomed, top)
  {
    forall x | x in doomed && x in g ensures RefAt(f, x) { }
  }

  lemma DropHeadDooms(f: Forest, p: Ptr, doomed: set<Ptr>, top: Ptr)
    requires WF(f) && p in f && f[p].refs != [] && Doomed(f, doomed, top)
    ensures Doomed(DropHead(f, p), doomed, top)
  {
    DropHeadEffect(f, p);
    DoomedShrinks(f, DropHead(f, p), doomed, top);
  }

  lemma DisarmDooms(f: Forest, rank: map<Ptr, nat>, p: Ptr, doomed: set<Ptr>, top: Ptr)
    requires Inv(f, rank) && p in f && f[p].refs == [] && Doomed(f, doomed, top)
    ensures Doomed(Disarm(f, p), doomed, top)
  {
    assert RefAt(f, p);
    DisarmInv(f, rank, p);
    DoomedShrinks(f, Disarm(f, p), doomed, top);
  }

  lemma DeleteDooms(f: Forest, p: Ptr, doomed: set<Ptr>, top: Ptr)
    requires WF(f) && p in f && Doomed(f, doomed, top)
    ensures TreeAt(f, p) && Doomed(Delete(f, p), doomed, top)
  {
    assert TreeAt(f, p);
    DoomedShrinks(f, Delete(f, p), doomed, top);
  }

  // A doomed child that loses a reference passes to the holder, which is doomed too.
  lemma AdoptDooms(f: Forest, rank: map<Ptr, nat>, p: Ptr, c: Ptr, doomed: set<Ptr>, top: Ptr)
    requires Inv(f, rank) && p in f && c in f && f[c].up == p && f[p].role.Plain?
    requires f[c].refs != [] && Doomed(f, doomed, top)
    ensures var g := DropHead(f, c); var np := NewOwner(f, p, c);
      && c in g && (g[c].up != 0 ==> g[c].up in g) && (np != 0 ==> np in g)
      && Doomed(Steal(g, np, c), doomed, top)
  {
    AdoptEffect(f, rank, p, c);
    var s := Steal(DropHead(f, c), NewOwner(f, p, c), c);
    assert RefAt(f, c);
    forall x | x in doomed && x in s
      ensures (x != top ==> s[x].up in doomed) && forall h :: h in s[x].refs && h in s ==> s[h].up in doomed
    {
      assert RefAt(f, x);
    }
  }

  lemma RefusalDooms(f: Forest, np: Ptr, c: Ptr, doomed: set<Ptr>, top: Ptr)
    requires WF(f) && c in f && (f[c].up != 0 ==> f[c].up in f) && (np != 0 ==> np in f)
    requires Refuses(f[c].dtor) && Doomed(f, doomed, top)
    ensures Doomed(Steal(f, np, c), doomed, top)
  {
    StealSame(f, np, c);
    assert f[c].role.Plain? by { assert RefAt(f, c); }
    DoomedShrinks(f, Steal(f, np, c), doomed, top);
  }

  lemma FreeDooms(f: Forest, rank: map<Ptr, nat>, p: Ptr, doomed: set<Ptr>, top: Ptr)
    requires Inv(f, rank) && p in f && Doomed(f, doomed, top)
    ensures Doomed(Free(f, rank, p).0, doomed, top)
    decreases |f|, if p in rank then rank[p] else 0, |f[p].kids|, 2
  {
    if f[p].refs != [] {
      DropHeadDooms(f, p, doomed, top);
    } else if !Refuses(f[p].dtor) {
      var f1 := Disarm(f, p);
      DisarmInv(f, rank, p);
      DisarmDooms(f, rank, p, doomed, top);
      FreeKidsDooms(f1, rank, p, doomed, top);
      DeleteDooms(FreeKids(f1, rank, p), p, doomed, top);
    }
  }

  lemma VisitDooms(f: Forest, rank: map<Ptr, nat>, p: Ptr, doomed: set<Ptr>, top: Ptr)
    requires Inv(f, rank) && p in f && f[p].refs == [] && f[p].role.Plain? && f[p].kids != []
    requires Doomed(f, doomed, top)
    ensures Doomed(Visit(f, rank, p), doomed, top)
    decreases |f|, if p in rank then rank[p] else 0, |f[p].kids|, 0
  {
    FirstKid(f, rank, p);
    var c := f[p].kids[0];
    var (f1, freed) := Free(f, rank, c);
    if freed {
      FreeDooms(f, rank, c, doomed, top);
    } else {
      AdoptInv(f, f1, rank, p, c);
      if f[c].refs != [] {
        AdoptDooms(f, rank, p, c, doomed, top);
      } else {
        RefusalDooms(f, NewOwner(f, p, c), c, doomed, top);
      }
    }
  }

  lemma FreeKidsDooms(f: Forest, rank: map<Ptr, nat>, p: Ptr, doomed: set<Ptr>, top: Ptr)
    requires Inv(f, rank) && p in f && f[p].refs == [] && f[p].role.Plain? && Doomed(f, doomed, top)
    ensures Doomed(FreeKids(f, rank, p), doomed, top)
    decreases |f|, if p in rank then rank[p] else 0, |f[p].kids|, 1
  {
    assert RankAt(f, rank, p);
    if f[p].kids != [] {
      VisitDooms(f, rank, p, doomed, top);
      FreeKidsDooms(Visit(f, rank, p), rank, p, doomed, top);
    }
  }

  // ---------------------------------------------------------------- climbing to ever higher owners

  lemma SmallerSet(a: set<Ptr>, b: set<Ptr>)
    requires a <= b && a != b
    ensures |a| < |b|
  {
    var x :| x in b && x !in a;
    SubsetSize(a, b - {x});
  }

  ghost function Higher(rank: map<Ptr, nat>, x: Ptr): set<Ptr> {
    set y | y in rank && x in rank && rank[y] > rank[x]
  }

  ghost function Above(rank: map<Ptr, nat>, x: Ptr): nat {
    |Higher(rank, x)|
  }

  lemma AboveLess(rank: map<Ptr, nat>, x: Ptr, y: Ptr)
    requires x in rank && y in rank && rank[y] > rank[x]
    ensures Above(rank, y) < Above(rank, x)
  {
    assert y in Higher(rank, x) && y !in Higher(rank, y);
    SmallerSet(Higher(rank, y), Higher(rank, x));
  }

  // No member of a doomed set outlives its top.
  lemma DoomedGone(f: Forest, rank: map<Ptr, nat>, doomed: set<Ptr>, top: Ptr, x: Ptr)
    requires Inv(f, rank) && Doomed(f, doomed, top) && top !in f && x in doomed
    ensures x !in f
    decreases Above(rank, x)
  {
    if x in f {
      assert RankAt(f, rank, x) && TreeAt(f, x);
      var u := f[x].up;
      assert RankAt(f, rank, u);
      AboveLess(rank, x, u);
      DoomedGone(f, rank, doomed, top, u);
    }
  }

  // The chunk x is owned, by parenthood or by reference, through a chain of owners that
  // starts at a chunk without parent and never passes p.
  ghost predicate Spared(f: Forest, rank: map<Ptr, nat>, p: Ptr, x: Ptr)
    requires Inv(f, rank)
    decreases Above(rank, x)
  {
    x in f && x != p && f[x].role.Plain? &&
    (f[x].up == 0
     || (assert RankAt(f, rank, x) && TreeAt(f, x) && RankAt(f, rank, f[x].up);
         AboveLess(rank, x, f[x].up);
         Spared(f, rank, p, f[x].up))
     || exists h :: h in f[x].refs && SparedHolder(f, rank, p, x, h))
  }

  // the context that holds h, a reference to x, is spared
  ghost predicate SparedHolder(f: Forest, rank: map<Ptr, nat>, p: Ptr, x: Ptr, h: Ptr)
    requires Inv(f, rank) && x in f && h in f[x].refs
    decreases Above(rank, x), 0
  {
    assert RefAt(f, x) && RankAt(f, rank, h) && TreeAt(f, h);
    f[h].up != 0 &&
    (assert RankAt(f, rank, f[h].up);
     AboveLess(rank, x, f[h].up);
     Spared(f, rank, p, f[h].up))
  }
}
