/** The laws of talloc_free: what it spares, who owns that afterwards, and what it destroys. */
module ForestTheorems {
  import opened Forest
  import opened ForestFree
  import opened ForestSafety
  import opened ForestExact

  // x is p or lies below it in the tree of parents
  ghost predicate Below(f: Forest, rank: map<Ptr, nat>, p: Ptr, x: Ptr)
    requires Inv(f, rank)
    decreases Above(rank, x)
  {
    x in f &&
    (x == p ||
     (f[x].up != 0 &&
      (assert RankAt(f, rank, x) && TreeAt(f, x) && RankAt(f, rank, f[x].up);
       AboveLess(rank, x, f[x].up);
       Below(f, rank, p, f[x].up))))
  }

  lemma {:induction false} BelowRank(f: Forest, rank: map<Ptr, nat>, p: Ptr, x: Ptr)
    requires Inv(f, rank) && Below(f, rank, p, x)
    ensures p in f && p in rank && x in rank && rank[x] <= rank[p]
    ensures x != p ==> rank[x] < rank[p]
    decreases Above(rank, x)
  {
    assert RankAt(f, rank, x) && TreeAt(f, x);
    if x != p {
      assert RankAt(f, rank, f[x].up);
      AboveLess(rank, x, f[x].up);
      BelowRank(f, rank, p, f[x].up);
    }
  }

  lemma OwnerPlain(f: Forest, x: Ptr)
    requires WF(f) && x in f && f[x].up != 0
    ensures f[x].up in f && f[f[x].up].role.Plain?
  {
    assert TreeAt(f, x) && RefAt(f, f[x].up);
  }

  // ---------------------------------------------------------------- what is spared

  lemma {:induction false} OutsideSpared(f: Forest, rank: map<Ptr, nat>, p: Ptr, x: Ptr)
    requires Inv(f, rank) && x in f && f[x].role.Plain? && !Below(f, rank, p, x)
    ensures Spared(f, rank, p, x)
    decreases Above(rank, x)
  {
    if f[x].up != 0 {
      assert RankAt(f, rank, x) && TreeAt(f, x) && RankAt(f, rank, f[x].up);
      AboveLess(rank, x, f[x].up);
      OwnerPlain(f, x);
      OutsideSpared(f, rank, p, f[x].up);
    }
  }

  ghost function SparedSet(f: Forest, rank: map<Ptr, nat>, p: Ptr): set<Ptr>
    requires Inv(f, rank)
  {
    set x | x in f && Spared(f, rank, p, x)
  }

  // the spared chunks that have an owner at all
  ghost function SparedOwned(f: Forest, rank: map<Ptr, nat>, p: Ptr): set<Ptr>
    requires Inv(f, rank)
  {
    set x | x in f && Spared(f, rank, p, x) && f[x].up != 0
  }

  lemma SparedKept(f: Forest, rank: map<Ptr, nat>, p: Ptr)
    requires Inv(f, rank)
    ensures Kept(f, SparedSet(f, rank, p), {}, SparedOwned(f, rank, p))
  {
    var keep := SparedSet(f, rank, p);
    forall x | x in keep
      ensures if f[x].up == 0 then Settled(f, keep, x) else Anchored(f, keep, x)
    {
      assert RefAt(f, x);
      if f[x].up != 0 && !Spared(f, rank, p, f[x].up) {
        var h :| h in f[x].refs && SparedHolder(f, rank, p, x, h);
        assert h in f && Spared(f, rank, p, f[h].up);
        assert f[h].up in keep;
      }
    }
  }

  lemma SparedSurvives(f: Forest, rank: map<Ptr, nat>, p: Ptr)
    requires Inv(f, rank) && p in f && f[p].role.Plain?
    ensures Kept(Free(f, rank, p).0, SparedSet(f, rank, p), {}, SparedOwned(f, rank, p))
  {
    SparedKept(f, rank, p);
    FreeKeeps(f, rank, p, SparedSet(f, rank, p), {}, SparedOwned(f, rank, p));
  }

  // the context o owns x, as its parent or by a reference
  ghost predicate OwnedBy(f: Forest, x: Ptr, o: Ptr)
    requires x in f
  {
    o != 0 && o in f && (f[x].up == o || exists h :: h in f[x].refs && h in f && f[h].up == o)
  }

  lemma AnchoredOwner(f: Forest, rank: map<Ptr, nat>, keep: set<Ptr>, x: Ptr) returns (o: Ptr)
    requires Inv(f, rank) && x in f && Anchored(f, keep, x) && forall y :: y in keep ==> y in f
    ensures o in keep && OwnedBy(f, x, o) && o in rank && x in rank && rank[x] < rank[o]
  {
    assert RankAt(f, rank, x) && RefAt(f, x);
    if f[x].up in keep {
      o := f[x].up;
    } else {
      var h :| h in f[x].refs && h in f && f[h].up in keep;
      assert RankAt(f, rank, h);
      o := f[h].up;
    }
  }

  // the ordinary chunks outside p's subtree
  ghost function Outside(f: Forest, rank: map<Ptr, nat>, p: Ptr): set<Ptr>
    requires Inv(f, rank)
  {
    set x | x in f && f[x].role.Plain? && !Below(f, rank, p, x)
  }

  // the ordinary chunks of c's subtree
  ghost function Inside(f: Forest, rank: map<Ptr, nat>, c: Ptr): set<Ptr>
    requires Inv(f, rank)
  {
    set x | x in f && f[x].role.Plain? && Below(f, rank, c, x)
  }

  // c has a reference from a context outside p's subtree
  ghost predicate HeldOutside(f: Forest, rank: map<Ptr, nat>, p: Ptr, c: Ptr)
    requires Inv(f, rank) && c in f
  {
    exists h :: h in f[c].refs && h in f && f[h].up != 0 && !Below(f, rank, p, f[h].up)
  }

  // x has an owner outside p's subtree
  ghost predicate OwnedOutside(f: Forest, rank: map<Ptr, nat>, p: Ptr, g: Forest, x: Ptr)
    requires Inv(f, rank) && x in g
  {
    exists o :: OwnedBy(g, x, o) && o in f && !Below(f, rank, p, o)
  }

  // x has an owner outside p's subtree or in c's
  ghost predicate OwnedBesides(f: Forest, rank: map<Ptr, nat>, p: Ptr, c: Ptr, g: Forest, x: Ptr)
    requires Inv(f, rank) && x in g
  {
    exists o :: OwnedBy(g, x, o) && o in f && (!Below(f, rank, p, o) || Below(f, rank, c, o))
  }

  lemma BesidesKept(f: Forest, rank: map<Ptr, nat>, p: Ptr, c: Ptr)
    requires Inv(f, rank) && c in f && HeldOutside(f, rank, p, c)
    ensures Kept(f, Outside(f, rank, p) + Inside(f, rank, c), {}, Inside(f, rank, c))
  {
    var keep := Outside(f, rank, p) + Inside(f, rank, c);
    forall x | x in keep
      ensures if x in Inside(f, rank, c) then Anchored(f, keep, x) else Settled(f, keep, x)
    {
      assert TreeAt(f, x);
      if f[x].up != 0 { OwnerPlain(f, x); }
      if x == c {
        var h :| h in f[c].refs && h in f && f[h].up != 0 && !Below(f, rank, p, f[h].up);
        OwnerPlain(f, h);
        assert ReferencedFrom(f, keep, c);
      }
    }
  }

  lemma BesidesSurvive(f: Forest, rank: map<Ptr, nat>, p: Ptr, c: Ptr)
    requires Inv(f, rank) && p in f && f[p].role.Plain?
    requires c in f && c != p && Below(f, rank, p, c) && HeldOutside(f, rank, p, c)
    ensures Kept(Free(f, rank, p).0, Outside(f, rank, p) + Inside(f, rank, c), {}, Inside(f, rank, c))
  {
    BelowRank(f, rank, p, c);
    if Below(f, rank, c, p) { BelowRank(f, rank, c, p); }
    BesidesKept(f, rank, p, c);
    FreeKeeps(f, rank, p, Outside(f, rank, p) + Inside(f, rank, c), {}, Inside(f, rank, c));
  }

  /** Freeing never destroys a chunk that is still owned from elsewhere, whatever destructors
      refuse and frees fail: all ordinary chunks outside p's subtree survive; a chunk below p that
      is referenced from a context outside survives and ends up owned, as a child or by reference,
      by a context outside; and all ordinary chunks below it survive under owners in its subtree
      or outside p's. */
  lemma FreeSpares(f: Forest, rank: map<Ptr, nat>, p: Ptr, c: Ptr)
    requires Inv(f, rank) && p in f && f[p].role.Plain?
    requires c in f && c != p && Below(f, rank, p, c) && HeldOutside(f, rank, p, c)
    ensures var g := Free(f, rank, p).0; c in g && OwnedOutside(f, rank, p, g, c)
    ensures var g := Free(f, rank, p).0; forall d :: d in f && Below(f, rank, c, d) && f[d].role.Plain? ==>
      d in g && OwnedBesides(f, rank, p, c, g, d)
    ensures forall x :: x in f && f[x].role.Plain? && !Below(f, rank, p, x) ==> x in Free(f, rank, p).0
  {
    var g := Free(f, rank, p).0;
    var keep := Outside(f, rank, p) + Inside(f, rank, c);
    BesidesSurvive(f, rank, p, c);
    assert f[c].role.Plain? by { assert RefAt(f, c); }
    assert c in Inside(f, rank, c);
    forall d | d in Inside(f, rank, c) ensures OwnedBesides(f, rank, p, c, g, d) {
      var o := AnchoredOwner(g, rank, keep, d);
    }
    var o := AnchoredOwner(g, rank, keep, c);
    if Below(f, rank, c, o) { BelowRank(f, rank, c, o); }
    assert forall x :: x in f && f[x].role.Plain? && !Below(f, rank, p, x) ==> x in keep;
  }

  // ---------------------------------------------------------------- what is destroyed

  // Nothing that is about to die refuses, or is referenced from the NULL context.
  ghost predicate Unresisting(f: Forest, rank: map<Ptr, nat>, p: Ptr)
    requires Inv(f, rank)
  {
    forall x :: x in f && f[x].role.Plain? && !Spared(f, rank, p, x) ==>
      !Refuses(f[x].dtor) && forall h :: h in f[x].refs && h in f ==> f[h].up != 0
  }

  ghost function UnsparedSet(f: Forest, rank: map<Ptr, nat>, p: Ptr): set<Ptr>
    requires Inv(f, rank)
  {
    set x | x in f && f[x].role.Plain? && !Spared(f, rank, p, x)
  }

  lemma UnsparedDoomed(f: Forest, rank: map<Ptr, nat>, p: Ptr)
    requires Inv(f, rank) && p in f && f[p].refs == [] && Unresisting(f, rank, p)
    ensures Doomed(f, UnsparedSet(f, rank, p), p)
  {
    var doomed := UnsparedSet(f, rank, p);
    forall x | x in doomed && x != p
      ensures f[x].up in doomed && forall h :: h in f[x].refs && h in f ==> f[h].up in doomed
    {
      assert TreeAt(f, x) && RefAt(f, x);
      OwnerPlain(f, x);
      forall h | h in f[x].refs && h in f ensures f[h].up in doomed {
        OwnerPlain(f, h);
        assert !SparedHolder(f, rank, p, x, h);
      }
    }
  }

  /** When nothing resists, freeing an unreferenced chunk succeeds and destroys exactly the
      chunks that are not owned from elsewhere; every survivor that had a parent ends up owned
      by a survivor, as a child or by reference, and nothing is left under a destroyed parent. */
  lemma FreeExact(f: Forest, rank: map<Ptr, nat>, p: Ptr)
    requires Inv(f, rank) && p in f && f[p].role.Plain? && f[p].refs == [] && Unresisting(f, rank, p)
    ensures Free(f, rank, p).1
    ensures forall x :: x in f && f[x].role.Plain? ==> (x in Free(f, rank, p).0 <==> Spared(f, rank, p, x))
    ensures var g := Free(f, rank, p).0;
      forall x :: x in g && g[x].role.Plain? ==> g[x].up == 0 || Spared(f, rank, p, g[x].up)
    ensures forall x :: x in f && f[x].up != 0 && Spared(f, rank, p, x) ==>
      x in Free(f, rank, p).0 && OwnedBySpared(f, rank, p, Free(f, rank, p).0, x)
  {
    var g := Free(f, rank, p).0;
    var doomed := UnsparedSet(f, rank, p);
    assert p in doomed;
    UnsparedDoomed(f, rank, p);
    FreeDooms(f, rank, p, doomed, p);
    SparedSurvives(f, rank, p);
    forall x | x in f && f[x].role.Plain?
      ensures x in g <==> Spared(f, rank, p, x)
    {
      if Spared(f, rank, p, x) {
        assert x in SparedSet(f, rank, p);
      } else {
        DoomedGone(g, rank, doomed, p, x);
      }
    }
    forall x | x in g && g[x].role.Plain? && g[x].up != 0
      ensures Spared(f, rank, p, g[x].up)
    {
      OwnerPlain(g, x);
    }
    forall x | x in SparedOwned(f, rank, p)
      ensures OwnedBySpared(f, rank, p, g, x)
    {
      var o := AnchoredOwner(g, rank, SparedSet(f, rank, p), x);
    }
  }

  ghost predicate OwnedBySpared(f: Forest, rank: map<Ptr, nat>, p: Ptr, g: Forest, x: Ptr)
    requires Inv(f, rank) && x in g
  {
    exists o :: OwnedBy(g, x, o) && Spared(f, rank, p, o)
  }

  // No chunk of p's subtree is referenced from outside the subtree, and none refuses.
  ghost predicate SelfContained(f: Forest, rank: map<Ptr, nat>, p: Ptr)
    requires Inv(f, rank)
  {
    forall x :: x in f && Below(f, rank, p, x) && f[x].role.Plain? ==>
      !Refuses(f[x].dtor) && forall h :: h in f[x].refs ==> Below(f, rank, p, h)
  }

  lemma {:induction false} InsideNotSpared(f: Forest, rank: map<Ptr, nat>, p: Ptr, x: Ptr)
    requires Inv(f, rank) && SelfContained(f, rank, p) && Below(f, rank, p, x) && p in f && f[p].role.Plain?
    ensures !Spared(f, rank, p, x)
    decreases Above(rank, x)
  {
    if x != p && f[x].role.Plain? {
      assert RankAt(f, rank, x) && TreeAt(f, x) && RefAt(f, x) && RankAt(f, rank, f[x].up);
      AboveLess(rank, x, f[x].up);
      InsideNotSpared(f, rank, p, f[x].up);
      forall h | h in f[x].refs
        ensures !SparedHolder(f, rank, p, x, h)
      {
        assert Below(f, rank, p, h) && RankAt(f, rank, h) && TreeAt(f, h);
        if f[h].up != 0 {
          assert RankAt(f, rank, f[h].up);
          AboveLess(rank, x, f[h].up);
          InsideNotSpared(f, rank, p, f[h].up);
        }
      }
    }
  }

  /** With no outside reference and no refusing destructor, freeing destroys exactly the
      subtree of p, handles included, and nothing else. */
  lemma FreeSubtree(f: Forest, rank: map<Ptr, nat>, p: Ptr)
    requires Inv(f, rank) && p in f && f[p].role.Plain? && f[p].refs == [] && SelfContained(f, rank, p)
    ensures Free(f, rank, p).1
    ensures forall x :: x in f ==> (x in Free(f, rank, p).0 <==> !Below(f, rank, p, x))
  {
    var g := Free(f, rank, p).0;
    forall x | x in f && f[x].role.Plain?
      ensures Spared(f, rank, p, x) <==> !Below(f, rank, p, x)
    {
      if Below(f, rank, p, x) { InsideNotSpared(f, rank, p, x); } else { OutsideSpared(f, rank, p, x); }
    }
    forall x, h | x in f && Below(f, rank, p, x) && f[x].role.Plain? && h in f[x].refs && h in f
      ensures f[h].up != 0
    {
      assert Below(f, rank, p, h) && RefAt(f, x);
    }
    FreeExact(f, rank, p);
    var keep := SparedSet(f, rank, p);
    var held := OutsideHandles(f, rank, p);
    OutsideHandlesHeld(f, rank, p);
    FreeKeeps(f, rank, p, keep, held, {});
    forall h | h in f && f[h].role.Handle?
      ensures h in g <==> !Below(f, rank, p, h)
    {
      if Below(f, rank, p, h) {
        assert f[h].up != 0;
        OwnerPlain(f, h);
        assert h in g ==> TreeAt(g, h);
      } else {
        assert h in held;
      }
    }
  }

  ghost function OutsideHandles(f: Forest, rank: map<Ptr, nat>, p: Ptr): set<Ptr>
    requires Inv(f, rank)
  {
    set h | h in f && f[h].role.Handle? && !Below(f, rank, p, h)
  }

  lemma OutsideHandlesHeld(f: Forest, rank: map<Ptr, nat>, p: Ptr)
    requires Inv(f, rank) && p in f && f[p].role.Plain? && SelfContained(f, rank, p)
    ensures Kept(f, SparedSet(f, rank, p), OutsideHandles(f, rank, p), {})
  {
    var keep := SparedSet(f, rank, p);
    SparedKept(f, rank, p);
    forall h | h in f && f[h].role.Handle? && !Below(f, rank, p, h)
      ensures Settled(f, keep, h) && f[h].role.target in f && f[h].role.target in keep
        && Settled(f, keep, f[h].role.target)
    {
      assert RefAt(f, h) && TreeAt(f, h);
      if f[h].up != 0 {
        OwnerPlain(f, h);
        OutsideSpared(f, rank, p, f[h].up);
      }
      var t := f[h].role.target;
      assert RefAt(f, t) && TreeAt(f, t);
      OutsideSpared(f, rank, p, t);
      if f[t].up != 0 {
        OwnerPlain(f, t);
        OutsideSpared(f, rank, p, f[t].up);
      }
    }
  }
}
