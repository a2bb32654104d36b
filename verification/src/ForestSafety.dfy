/** What freeing may destroy, and what it must destroy. */
module ForestSafety {
  import opened Forest
  import opened ForestFree

  // ---------------------------------------------------------------- chunks that must survive

  ghost predicate ReferencedFrom(f: Forest, keep: set<Ptr>, x: Ptr)
    requires x in f
  {
    exists h :: h in f[x].refs && h in f && f[h].up in keep
  }

  // x is owned from `keep`
  ghost predicate Anchored(f: Forest, keep: set<Ptr>, x: Ptr)
    requires x in f
  {
    f[x].up in keep || ReferencedFrom(f, keep, x)
  }

  ghost predicate Settled(f: Forest, keep: set<Ptr>, x: Ptr)
    requires x in f
  {
    f[x].up == 0 || f[x].up in keep
  }

  // Everything in `keep` is owned by nobody, owned from `keep`, or referenced from `keep`;
  // the handles in `held` are owned from `keep` and refer to settled chunks of `keep`; and the
  // chunks in `owned` do have an owner in `keep`.
  ghost predicate Kept(f: Forest, keep: set<Ptr>, held: set<Ptr>, owned: set<Ptr>) {
    && (forall x :: x in keep ==>
          x in f && f[x].role.Plain? && (Settled(f, keep, x) || ReferencedFrom(f, keep, x)))
    && (forall h :: h in held ==>
          && h in f && f[h].role.Handle? && Settled(f, keep, h)
          && f[h].role.target in keep && f[h].role.target in f && Settled(f, keep, f[h].role.target))
    && (forall x :: x in owned ==> x in keep && x in f && Anchored(f, keep, x))
  }

  lemma DropHeadKeeps(f: Forest, p: Ptr, keep: set<Ptr>, held: set<Ptr>, owned: set<Ptr>)
    requires WF(f) && p in f && f[p].refs != [] && p !in keep
    requires Kept(f, keep, held, owned)
    ensures Kept(DropHead(f, p), keep, held, owned)
  {
    DropHeadEffect(f, p);
    forall x | x in keep ensures RefAt(f, x) { }
    KeptStays(f, DropHead(f, p), keep, held, owned);
  }

  // Losing its first reference and passing to the holder leaves all other owners as they were.
  lemma AdoptEffect(f: Forest, rank: map<Ptr, nat>, p: Ptr, c: Ptr)
    requires Inv(f, rank) && p in f && c in f && f[c].up == p && f[p].role.Plain? && f[c].refs != []
    ensures var g := DropHead(f, c); var np := NewOwner(f, p, c); var h := f[c].refs[0];
      && h in f && f[h].role == Handle(c)
      && c in g && (g[c].up != 0 ==> g[c].up in g) && (np != 0 ==> np in g)
      && Steal(g, np, c).Keys == f.Keys - {h}
    ensures var s := Steal(DropHead(f, c), NewOwner(f, p, c), c);
      forall x :: x in s ==>
        && s[x].role == f[x].role && s[x].dtor == f[x].dtor
        && s[x].refs == (if x == c then f[x].refs[1..] else f[x].refs)
        && s[x].up == if x == c then NewOwner(f, p, c) else f[x].up
  {
    DropHeadEffect(f, c);
    NewOwnerOK(f, rank, p, c);
    FailedFree(f, DropHead(f, c), rank, p, c);
    assert f[c].role.Plain? by { assert RefAt(f, c); }
    StealSame(DropHead(f, c), NewOwner(f, p, c), c);
  }

  // A kept child of a dying chunk passes to an owner that keeps it.
  lemma AdoptKept(f: Forest, rank: map<Ptr, nat>, p: Ptr, c: Ptr, keep: set<Ptr>, held: set<Ptr>, owned: set<Ptr>)
    requires Inv(f, rank) && p in f && c in f && f[c].up == p && p != 0 && f[p].role.Plain?
    requires p !in keep && c in keep && Kept(f, keep, held, owned)
    ensures f[c].refs != []
    ensures var g := DropHead(f, c); var np := NewOwner(f, p, c);
      c in g && (g[c].up != 0 ==> g[c].up in g) && (np != 0 ==> np in g) && Kept(Steal(g, np, c), keep, held, owned)
  {
    assert ReferencedFrom(f, keep, c);
    AdoptEffect(f, rank, p, c);
    AdoptedKept(f, Steal(DropHead(f, c), NewOwner(f, p, c), c), NewOwner(f, p, c), c, keep, held, owned);
  }

  // s is f after the first reference to c has gone and c has passed to np, the holder if it is kept
  ghost predicate Adopted(f: Forest, s: Forest, np: Ptr, c: Ptr, keep: set<Ptr>) {
    && c in f && f[c].refs != [] && f[c].refs[0] in f && f[f[c].refs[0]].role == Handle(c)
    && (f[f[c].refs[0]].up in keep ==> np == f[f[c].refs[0]].up)
    && s.Keys == f.Keys - {f[c].refs[0]}
    && forall x :: x in s ==>
         && s[x].role == f[x].role
         && s[x].refs == (if x == c then f[x].refs[1..] else f[x].refs)
         && s[x].up == if x == c then np else f[x].up
  }

  // the reference that goes is replaced by parenthood
  lemma AdoptedRef(f: Forest, s: Forest, np: Ptr, c: Ptr, keep: set<Ptr>, x: Ptr)
    requires WF(f) && Adopted(f, s, np, c, keep) && x in f && f[x].role.Plain? && ReferencedFrom(f, keep, x)
    ensures x in s && if x == c then Anchored(s, keep, x) else ReferencedFrom(s, keep, x)
  {
    var h :| h in f[x].refs && h in f && f[h].up in keep;
    assert RefAt(f, x) && RefAt(f, c);
    if h != f[c].refs[0] {
      assert h in s[x].refs && s[h].up in keep;
    }
  }

  lemma AdoptedChunk(f: Forest, s: Forest, np: Ptr, c: Ptr, keep: set<Ptr>, x: Ptr)
    requires WF(f) && Adopted(f, s, np, c, keep) && !Settled(f, keep, c) && x in f && f[x].role.Plain?
    requires Settled(f, keep, x) || ReferencedFrom(f, keep, x)
    ensures x in s && s[x].role.Plain? && (Settled(s, keep, x) || ReferencedFrom(s, keep, x))
    ensures Anchored(f, keep, x) ==> Anchored(s, keep, x)
  {
    if ReferencedFrom(f, keep, x) { AdoptedRef(f, s, np, c, keep, x); }
  }

  // the handle that goes refers to c, which is not settled
  lemma AdoptedHandle(f: Forest, s: Forest, np: Ptr, c: Ptr, keep: set<Ptr>, h: Ptr)
    requires WF(f) && Adopted(f, s, np, c, keep) && !Settled(f, keep, c)
    requires h in f && f[h].role.Handle? && f[h].role.target in f && f[f[h].role.target].role.Plain?
    requires Settled(f, keep, h) && Settled(f, keep, f[h].role.target)
    ensures h in s && s[h].role == f[h].role && Settled(s, keep, h)
    ensures f[h].role.target in s && Settled(s, keep, f[h].role.target)
  {
    assert RefAt(f, c);
  }

  lemma AdoptedKept(f: Forest, s: Forest, np: Ptr, c: Ptr, keep: set<Ptr>, held: set<Ptr>, owned: set<Ptr>)
    requires WF(f) && Adopted(f, s, np, c, keep) && Kept(f, keep, held, owned) && !Settled(f, keep, c)
    ensures Kept(s, keep, held, owned)
  {
    forall x | x in keep
      ensures x in s && s[x].role.Plain? && (Settled(s, keep, x) || ReferencedFrom(s, keep, x))
      ensures Anchored(f, keep, x) ==> Anchored(s, keep, x)
    {
      AdoptedChunk(f, s, np, c, keep, x);
    }
    forall h | h in held
      ensures h in s && s[h].role == f[h].role && Settled(s, keep, h)
      ensures f[h].role.target in s && Settled(s, keep, f[h].role.target)
    {
      AdoptedHandle(f, s, np, c, keep, h);
    }
  }

  // Moving a chunk that is not kept changes no owner of a kept one.
  lemma StealKeeps(f: Forest, np: Ptr, c: Ptr, keep: set<Ptr>, held: set<Ptr>, owned: set<Ptr>)
    requires WF(f) && c in f && (f[c].up != 0 ==> f[c].up in f) && (np != 0 ==> np in f)
    requires c !in keep && f[c].role.Plain? && Kept(f, keep, held, owned)
    ensures Kept(Steal(f, np, c), keep, held, owned)
  {
    StealSame(f, np, c);
    forall x | x in keep ensures RefAt(f, x) { }
    KeptStays(f, Steal(f, np, c), keep, held, owned);
  }

  // Kept depends only on the role and owner of kept chunks and on references from kept holders.
  lemma KeptStays(f: Forest, g: Forest, keep: set<Ptr>, held: set<Ptr>, owned: set<Ptr>)
    requires WF(f) && Kept(f, keep, held, owned)
    requires forall x :: x in f && (x in keep || x in held) ==> x in g && g[x].role == f[x].role && g[x].up == f[x].up
    requires forall x, h :: x in keep && h in f[x].refs && h in f && f[h].up in keep ==>
      h in g[x].refs && h in g && g[h].up == f[h].up
    ensures Kept(g, keep, held, owned)
  {
    forall x | x in keep && ReferencedFrom(f, keep, x)
      ensures x in g && ReferencedFrom(g, keep, x)
    {
      var h :| h in f[x].refs && h in f && f[h].up in keep;
      assert RefAt(f, x);
      assert h in g[x].refs && g[h].up in keep;
    }
  }

  lemma FreeKeeps(f: Forest, rank: map<Ptr, nat>, p: Ptr, keep: set<Ptr>, held: set<Ptr>, owned: set<Ptr>)
    requires Inv(f, rank) && p in f && p !in keep && p !in held
    requires f[p].role.Handle? ==> f[p].up !in keep
    requires Kept(f, keep, held, owned)
    ensures Kept(Free(f, rank, p).0, keep, held, owned)
    decreases |f|, if p in rank then rank[p] else 0, |f[p].kids|, 2
  {
    assert RankAt(f, rank, p) && RefAt(f, p);
    if f[p].refs != [] {
      DropHeadKeeps(f, p, keep, held, owned);
    } else if !Refuses(f[p].dtor) {
      var f1 := Disarm(f, p);
      DisarmInv(f, rank, p);
      DisarmKeeps(f, rank, p, keep, held, owned);
      FreeKidsKeeps(f1, rank, p, keep, held, owned);
      var f2 := FreeKids(f1, rank, p);
      DeleteKeeps(f2, rank, p, keep, held, owned);
    }
  }

  lemma DisarmKeeps(f: Forest, rank: map<Ptr, nat>, p: Ptr, keep: set<Ptr>, held: set<Ptr>, owned: set<Ptr>)
    requires Inv(f, rank) && p in f && p !in keep && p !in held && f[p].refs == []
    requires f[p].role.Handle? ==> f[p].up !in keep
    requires Kept(f, keep, held, owned)
    ensures Kept(Disarm(f, p), keep, held, owned)
  {
    assert RefAt(f, p);
    DisarmInv(f, rank, p);
    KeptStays(f, Disarm(f, p), keep, held, owned);
  }

  lemma DeleteKeeps(f: Forest, rank: map<Ptr, nat>, p: Ptr, keep: set<Ptr>, held: set<Ptr>, owned: set<Ptr>)
    requires Inv(f, rank) && p in f && p !in keep && p !in held && f[p].role.Plain?
    requires Kept(f, keep, held, owned)
    ensures TreeAt(f, p) && Kept(Delete(f, p), keep, held, owned)
  {
    assert TreeAt(f, p);
    forall x | x in keep ensures p !in f[x].refs { assert RefAt(f, x); }
    KeptStays(f, Delete(f, p), keep, held, owned);
  }

  lemma VisitKeeps(f: Forest, rank: map<Ptr, nat>, p: Ptr, keep: set<Ptr>, held: set<Ptr>, owned: set<Ptr>)
    requires Inv(f, rank) && p in f && p !in keep && f[p].refs == [] && f[p].role.Plain? && f[p].kids != []
    requires Kept(f, keep, held, owned)
    ensures Kept(Visit(f, rank, p), keep, held, owned)
    decreases |f|, if p in rank then rank[p] else 0, |f[p].kids|, 0
  {
    FirstKid(f, rank, p);
    var c := f[p].kids[0];
    if c in keep {
      AdoptKept(f, rank, p, c, keep, held, owned);
    } else {
      FreeKeeps(f, rank, c, keep, held, owned);
      var (f1, freed) := Free(f, rank, c);
      if !freed {
        assert f[c].role.Plain? by { assert RefAt(f, c); }
        AdoptInv(f, f1, rank, p, c);
        StealKeeps(f1, NewOwner(f, p, c), c, keep, held, owned);
      }
    }
  }

  lemma FreeKidsKeeps(f: Forest, rank: map<Ptr, nat>, p: Ptr, keep: set<Ptr>, held: set<Ptr>, owned: set<Ptr>)
    requires Inv(f, rank) && p in f && p !in keep && f[p].refs == [] && f[p].role.Plain?
    requires Kept(f, keep, held, owned)
    ensures Kept(FreeKids(f, rank, p), keep, held, owned)
    decreases |f|, if p in rank then rank[p] else 0, |f[p].kids|, 1
  {
    assert RankAt(f, rank, p);
    if f[p].kids != [] {
      VisitKeeps(f, rank, p, keep, held, owned);
      FreeKidsKeeps(Visit(f, rank, p), rank, p, keep, held, owned);
    }
  }
}
