/** What stealing and a moving realloc do to the totals of a forest. */
module ForestMoves {
  import opened Forest
  import opened ForestFree
  import opened ForestExact
  import opened ForestGrowth
  import opened ForestRename
  import opened ForestTheorems
  import opened ForestTotals

  // ---------------------------------------------------------------- rankings do not matter

  lemma {:induction false} BelowRankings(f: Forest, r: map<Ptr, nat>, s: map<Ptr, nat>, p: Ptr, x: Ptr)
    requires Inv(f, r) && Inv(f, s)
    ensures Below(f, r, p, x) <==> Below(f, s, p, x)
    decreases Above(r, x)
  {
    if x in f && x != p && f[x].up != 0 {
      assert RankAt(f, r, x) && TreeAt(f, x) && RankAt(f, r, f[x].up);
      AboveLess(r, x, f[x].up);
      BelowRankings(f, r, s, p, f[x].up);
    }
  }

  lemma TotalRankings(f: Forest, r: map<Ptr, nat>, s: map<Ptr, nat>, m: Measure, x: Ptr)
    requires Inv(f, r) && Inv(f, s) && x in f
    ensures Total(f, s, m, x) == Total(f, r, m, x)
  {
    TotalSame(f, r, f, s, m, x);
  }

  // ---------------------------------------------------------------- stealing

  // a ranking of the forest after c has moved to np
  ghost function RankAfter(f: Forest, r: map<Ptr, nat>, np: Ptr, c: Ptr): map<Ptr, nat>
    requires Inv(f, r) && c in f
  {
    if np == 0 then r else Raise(f, r, np, c)
  }

  /** talloc_steal conserves totals, for every new parent that the chunk does not own: what c and
      its subtree weigh leaves the old ancestors of c and reaches the new parent and its ancestors;
      a common ancestor is left as it was. */
  lemma StealTotal(f: Forest, r: map<Ptr, nat>, np: Ptr, c: Ptr, m: Measure, x: Ptr)
    requires Inv(f, r) && c in f && x in f && np != c
    requires np != 0 ==> np in f && f[np].role.Plain? && !Reaches(f, c, np)
    ensures TreeAt(f, c) && Inv(Steal(f, np, c), RankAfter(f, r, np, c))
    ensures Total(Steal(f, np, c), RankAfter(f, r, np, c), m, x) + If(x != c && Below(f, r, x, c), Total(f, r, m, c))
         == Total(f, r, m, x) + If(np != 0 && Below(f, r, x, np), Total(f, r, m, c))
  {
    var s := RankAfter(f, r, np, c);
    if np != 0 { RaiseInv(f, r, np, c); }
    RankedStealTotal(f, s, np, c, m, x);
    TotalRankings(f, r, s, m, c);
    TotalRankings(f, r, s, m, x);
    BelowRankings(f, r, s, x, c);
    BelowRankings(f, r, s, x, np);
  }

  // ---------------------------------------------------------------- resizing

  function Resized(f: Forest, a: Ptr, size: nat): Forest
    requires a in f
  {
    f[a := f[a].(size := size)]
  }

  lemma {:induction false} ResizeTotal(f: Forest, r: map<Ptr, nat>, a: Ptr, size: nat, m: Measure, x: Ptr)
    requires Inv(f, r) && a in f && x in f && Inv(Resized(f, a, size), r)
    ensures Total(Resized(f, a, size), r, m, x) + If(m.Bytes? && Below(f, r, x, a), f[a].size)
         == Total(f, r, m, x) + If(m.Bytes? && Below(f, r, x, a), size)
    decreases if x in r then r[x] else 0, |f[x].kids|, 1
  {
    var g := Resized(f, a, size);
    KidsBelow(f, r, x);
    KidsBelow(g, r, x);
    assert TreeAt(f, x);
    ResizeTotalSeq(f, r, a, size, m, x, f[x].kids, r[x]);
    if x == a {
      forall k | k in f[x].kids ensures !Below(f, r, k, a) {
        assert RankAt(f, r, k);
        if Below(f, r, k, a) { BelowRank(f, r, k, a); }
      }
    } else if Below(f, r, x, a) {
      var k := Branch(f, r, x, a);
    } else {
      forall k | k in f[x].kids ensures !Below(f, r, k, a) {
        if Below(f, r, k, a) { StepBelow(f, r, x, k); BelowTrans(f, r, x, k, a); }
      }
    }
  }

  lemma {:induction false} ResizeTotalSeq(f: Forest, r: map<Ptr, nat>, a: Ptr, size: nat, m: Measure, x: Ptr,
                                          ks: seq<Ptr>, top: nat)
    requires Inv(f, r) && a in f && Inv(Resized(f, a, size), r) && x != 0
    requires Siblings(f, r, ks, top) && NoDup(ks) && forall k :: k in ks ==> f[k].up == x
    ensures Siblings(Resized(f, a, size), r, ks, top)
    ensures var on := exists k :: k in ks && Below(f, r, k, a);
      TotalSeq(Resized(f, a, size), r, m, ks, top) + If(m.Bytes? && on, f[a].size)
      == TotalSeq(f, r, m, ks, top) + If(m.Bytes? && on, size)
    decreases top, |ks|, 0
  {
    if ks != [] {
      assert ks == [ks[0]] + ks[1..];
      ResizeTotal(f, r, a, size, m, ks[0]);
      ResizeTotalSeq(f, r, a, size, m, x, ks[1..], top);
      BranchFirst(f, r, x, ks[0], ks[1..], a);
    }
  }

  // ---------------------------------------------------------------- moving

  lemma ReplaceHead(ks: seq<Ptr>, a: Ptr, b: Ptr)
    requires ks != []
    ensures var us := Replace(ks, a, b); us != [] && us[0] == To(a, b, ks[0]) && us[1..] == Replace(ks[1..], a, b)
  {
  }

  // g and s are f and r after the block at a has become the block at b
  ghost predicate Moved(f: Forest, r: map<Ptr, nat>, a: Ptr, b: Ptr, g: Forest, s: map<Ptr, nat>) {
    && Inv(f, r) && Inv(g, s) && a in f && b !in f && b != 0 && a in r
    && g == Rename(f, a, b, f[a].size) && s == r[b := r[a]]
  }

  lemma {:induction false} MoveTotal(f: Forest, r: map<Ptr, nat>, a: Ptr, b: Ptr, g: Forest, s: map<Ptr, nat>,
        m: Measure, x: Ptr)
    requires Moved(f, r, a, b, g, s) && x in f
    ensures To(a, b, x) in g && Total(g, s, m, To(a, b, x)) == Total(f, r, m, x)
    decreases if x in r then r[x] else 0, |f[x].kids|, 1
  {
    KidsBelow(f, r, x);
    KidsBelow(g, s, To(a, b, x));
    MoveTotalSeq(f, r, a, b, g, s, m, f[x].kids, r[x]);
  }

  lemma MoveSiblings(f: Forest, r: map<Ptr, nat>, a: Ptr, b: Ptr, g: Forest, s: map<Ptr, nat>, ks: seq<Ptr>, top: nat)
    requires Moved(f, r, a, b, g, s) && Siblings(f, r, ks, top)
    ensures Siblings(g, s, Replace(ks, a, b), top)
  {
    var us := Replace(ks, a, b);
    forall u | u in us ensures u in g && u in s && s[u] < top {
      var i :| 0 <= i < |us| && us[i] == u;
      assert ks[i] in ks && u == To(a, b, ks[i]);
    }
  }

  lemma {:induction false} MoveTotalSeq(f: Forest, r: map<Ptr, nat>, a: Ptr, b: Ptr, g: Forest, s: map<Ptr, nat>,
        m: Measure,
                                        ks: seq<Ptr>, top: nat)
    requires Moved(f, r, a, b, g, s) && Siblings(f, r, ks, top)
    ensures Siblings(g, s, Replace(ks, a, b), top)
    ensures TotalSeq(g, s, m, Replace(ks, a, b), top) == TotalSeq(f, r, m, ks, top)
    decreases top, |ks|, 0
  {
    MoveSiblings(f, r, a, b, g, s, ks, top);
    if ks != [] {
      MoveTotal(f, r, a, b, g, s, m, ks[0]);
      MoveTotalSeq(f, r, a, b, g, s, m, ks[1..], top);
      ReplaceHead(ks, a, b);
    }
  }

  // a ranking of the forest after the block at a has become the block at b
  ghost function RankMoved(r: map<Ptr, nat>, a: Ptr, b: Ptr): map<Ptr, nat>
    requires a in r
  {
    if a == b then r else r[b := r[a]]
  }

  /** A realloc, in place or moving, changes the bytes of the block and its ancestors by the
      difference in size, and no other total: the same chunks are below each block as before. */
  lemma ReallocTotal(f: Forest, r: map<Ptr, nat>, a: Ptr, b: Ptr, size: nat, m: Measure, x: Ptr)
    requires Inv(f, r) && a in f && f[a].refs == [] && f[a].role.Plain? && x in f
    requires b == a || (b != 0 && b !in f)
    ensures a in r && To(a, b, x) in Rename(f, a, b, size) && Inv(Rename(f, a, b, size), RankMoved(r, a, b))
    ensures Total(Rename(f, a, b, size), RankMoved(r, a, b), m, To(a, b, x))
      + If(m.Bytes? && Below(f, r, x, a), f[a].size)
         == Total(f, r, m, x) + If(m.Bytes? && Below(f, r, x, a), size)
  {
    assert RankAt(f, r, a);
    var g := Resized(f, a, size);
    ResizeInv(f, r, a, size);
    ResizeTotal(f, r, a, size, m, x);
    if a == b {
      RenameSame(f, a, size);
    } else {
      MovingTotal(f, r, a, b, size, m, x);
    }
  }

  lemma RenameResized(f: Forest, a: Ptr, b: Ptr, size: nat)
    requires a in f
    ensures Rename(Resized(f, a, size), a, b, size) == Rename(f, a, b, size)
  {
  }

  // a block that moves takes its total along
  lemma MovingTotal(f: Forest, r: map<Ptr, nat>, a: Ptr, b: Ptr, size: nat, m: Measure, x: Ptr)
    requires Inv(f, r) && a in f && f[a].refs == [] && f[a].role.Plain? && x in f && Inv(Resized(f, a, size), r)
    requires a in r && b != 0 && b !in f
    ensures To(a, b, x) in Rename(f, a, b, size) && Inv(Rename(f, a, b, size), r[b := r[a]])
    ensures Total(Rename(f, a, b, size), r[b := r[a]], m, To(a, b, x)) == Total(Resized(f, a, size), r, m, x)
  {
    var g := Resized(f, a, size);
    RenameInv(f, r, a, b, size);
    RenameResized(f, a, b, size);
    MoveTotal(g, r, a, b, Rename(f, a, b, size), r[b := r[a]], m, x);
  }
}
