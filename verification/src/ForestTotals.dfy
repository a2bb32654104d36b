/** Sizes and block counts of subtrees, and how stealing moves them. */
module ForestTotals {
  import opened Forest
  import opened ForestFree
  import opened ForestExact
  import opened ForestTheorems

  datatype Measure = Bytes | Blocks

  function Weight(m: Measure, n: Node): nat {
    if m.Bytes? then n.size else 1
  }

  ghost predicate Siblings(f: Forest, rank: map<Ptr, nat>, ks: seq<Ptr>, top: nat) {
    forall k :: k in ks ==> k in f && k in rank && rank[k] < top
  }

  // talloc_total_size / talloc_total_blocks
  ghost function Total(f: Forest, rank: map<Ptr, nat>, m: Measure, p: Ptr): nat
    requires Inv(f, rank) && p in f
    decreases if p in rank then rank[p] else 0, |f[p].kids|, 1
  {
    KidsBelow(f, rank, p);
    Weight(m, f[p]) + TotalSeq(f, rank, m, f[p].kids, rank[p])
  }

  ghost function TotalSeq(f: Forest, rank: map<Ptr, nat>, m: Measure, ks: seq<Ptr>, top: nat): nat
    requires Inv(f, rank) && Siblings(f, rank, ks, top)
    decreases top, |ks|, 0
  {
    if ks == [] then 0 else Total(f, rank, m, ks[0]) + TotalSeq(f, rank, m, ks[1..], top)
  }

  lemma KidsBelow(f: Forest, rank: map<Ptr, nat>, p: Ptr)
    requires Inv(f, rank) && p in f
    ensures p in rank && Siblings(f, rank, f[p].kids, rank[p])
  {
    assert RankAt(f, rank, p) && TreeAt(f, p);
    forall k | k in f[p].kids ensures k in f && k in rank && rank[k] < rank[p] {
      assert RankAt(f, rank, k);
    }
  }

  // Only the children, sizes and order of ranks below a chunk matter for its total.
  lemma {:induction false} TotalSame(f: Forest, r: map<Ptr, nat>, g: Forest, r': map<Ptr, nat>, m: Measure, x: Ptr)
    requires Inv(f, r) && Inv(g, r') && x in f
    requires forall y :: y in f && Below(f, r, x, y) ==> y in g && g[y].kids == f[y].kids && g[y].size == f[y].size
    ensures x in g && Total(g, r', m, x) == Total(f, r, m, x)
    decreases if x in r then r[x] else 0, |f[x].kids|, 1
  {
    KidsBelow(f, r, x);
    KidsBelow(g, r', x);
    assert Below(f, r, x, x);
    forall k, y | k in f[x].kids && y in f && Below(f, r, k, y)
      ensures Below(f, r, x, y)
    {
      assert TreeAt(f, x) && TreeAt(f, k);
      StepBelow(f, r, x, k);
      BelowTrans(f, r, x, k, y);
    }
    TotalSeqSame(f, r, g, r', m, f[x].kids, r[x], r'[x]);
  }

  lemma {:induction false} TotalSeqSame(f: Forest, r: map<Ptr, nat>, g: Forest, r': map<Ptr, nat>, m: Measure,
                                        ks: seq<Ptr>, top: nat, top': nat)
    requires Inv(f, r) && Inv(g, r') && Siblings(f, r, ks, top) && Siblings(g, r', ks, top')
    requires forall k, y :: k in ks && y in f && Below(f, r, k, y) ==>
      y in g && g[y].kids == f[y].kids && g[y].size == f[y].size
    ensures TotalSeq(g, r', m, ks, top') == TotalSeq(f, r, m, ks, top)
    decreases top, |ks|, 0
  {
    if ks != [] {
      assert ks[0] in ks;
      TotalSame(f, r, g, r', m, ks[0]);
      TotalSeqSame(f, r, g, r', m, ks[1..], top, top');
    }
  }

  // ---------------------------------------------------------------- facts about Below

  lemma StepBelow(f: Forest, r: map<Ptr, nat>, x: Ptr, k: Ptr)
    requires Inv(f, r) && x in f && k in f && f[k].up == x
    ensures Below(f, r, x, k)
  {
    assert RankAt(f, r, k) && RankAt(f, r, x);
    AboveLess(r, k, x);
    assert Below(f, r, x, x);
  }

  lemma {:induction false} BelowTrans(f: Forest, r: map<Ptr, nat>, x: Ptr, y: Ptr, z: Ptr)
    requires Inv(f, r) && Below(f, r, x, y) && Below(f, r, y, z)
    ensures Below(f, r, x, z)
    decreases Above(r, z)
  {
    if z != y {
      assert RankAt(f, r, z) && TreeAt(f, z) && RankAt(f, r, f[z].up);
      AboveLess(r, z, f[z].up);
      BelowTrans(f, r, x, y, f[z].up);
    }
  }

  // At most one child of a chunk lies on the way to y.
  lemma {:induction false} OneBranch(f: Forest, r: map<Ptr, nat>, j: Ptr, k: Ptr, y: Ptr)
    requires Inv(f, r) && Below(f, r, j, y) && Below(f, r, k, y)
    requires j in f && k in f && f[j].up == f[k].up != 0
    ensures j == k
    decreases Above(r, y)
  {
    assert RankAt(f, r, j) && RankAt(f, r, k) && RankAt(f, r, y) && TreeAt(f, y);
    if y == j && y != k {
      BelowRank(f, r, k, f[y].up);
    } else if y == k && y != j {
      BelowRank(f, r, j, f[y].up);
    } else if y != j {
      assert RankAt(f, r, f[y].up);
      AboveLess(r, y, f[y].up);
      OneBranch(f, r, j, k, f[y].up);
    }
  }

  // A chunk strictly above y has a child on the way to y.
  lemma {:induction false} Branch(f: Forest, r: map<Ptr, nat>, x: Ptr, y: Ptr) returns (k: Ptr)
    requires Inv(f, r) && Below(f, r, x, y) && x != y
    ensures x in f && k in f[x].kids && k in f && Below(f, r, k, y)
    decreases Above(r, y)
  {
    assert RankAt(f, r, y) && TreeAt(f, y) && RankAt(f, r, f[y].up);
    AboveLess(r, y, f[y].up);
    if f[y].up == x {
      k := y;
    } else {
      k := Branch(f, r, x, f[y].up);
    }
  }

  // ---------------------------------------------------------------- hooking

  function If(b: bool, n: nat): nat { if b then n else 0 }

  /** Hooking a root c under p adds c's total to p and to all its ancestors only. */
  lemma {:induction false} HookTotal(f: Forest, r: map<Ptr, nat>, p: Ptr, c: Ptr, m: Measure, x: Ptr)
    requires Inv(f, r) && p in f && c in f && f[c].up == 0 && f[p].role.Plain? && Inv(Hook(f, p, c), r)
    requires x in f && p != c && !Below(f, r, c, p)
    ensures Total(Hook(f, p, c), r, m, x) == Total(f, r, m, x) + If(Below(f, r, x, p), Total(f, r, m, c))
    decreases if x in r then r[x] else 0, |f[x].kids|, 1
  {
    var g := Hook(f, p, c);
    KidsBelow(f, r, x);
    KidsBelow(g, r, x);
    assert TreeAt(f, x);
    HookTotalSeq(f, r, p, c, m, x, f[x].kids, r[x]);
    if x == p {
      assert TreeAt(g, c) && RankAt(g, r, c) && RankAt(f, r, p);
      HookTotal(f, r, p, c, m, c);
      assert g[x].kids[1..] == f[x].kids;
      forall k | k in f[x].kids ensures !Below(f, r, k, p) {
        assert RankAt(f, r, k);
        if Below(f, r, k, p) { BelowRank(f, r, k, p); }
      }
    } else if Below(f, r, x, p) {
      var k := Branch(f, r, x, p);
    } else {
      forall k | k in f[x].kids ensures !Below(f, r, k, p) {
        if Below(f, r, k, p) { StepBelow(f, r, x, k); BelowTrans(f, r, x, k, p); }
      }
    }
  }

  lemma {:induction false} HookTotalSeq(f: Forest, r: map<Ptr, nat>, p: Ptr, c: Ptr, m: Measure, x: Ptr,
        ks: seq<Ptr>, top: nat)
    requires Inv(f, r) && p in f && c in f && f[c].up == 0 && f[p].role.Plain? && Inv(Hook(f, p, c), r)
    requires p != c && !Below(f, r, c, p) && x != 0
    requires Siblings(f, r, ks, top) && NoDup(ks) && forall k :: k in ks ==> f[k].up == x
    ensures Siblings(Hook(f, p, c), r, ks, top)
    ensures TotalSeq(Hook(f, p, c), r, m, ks, top)
      == TotalSeq(f, r, m, ks, top) + If(exists k :: k in ks && Below(f, r, k, p), Total(f, r, m, c))
    decreases top, |ks|, 0
  {
    if ks != [] {
      var k0 := ks[0];
      HookTotal(f, r, p, c, m, k0);
      HookTotalSeq(f, r, p, c, m, x, ks[1..], top);
      if Below(f, r, k0, p) {
        forall k | k in ks[1..] ensures !Below(f, r, k, p) {
          if Below(f, r, k, p) { OneBranch(f, r, k0, k, p); }
        }
        assert exists k :: k in ks && Below(f, r, k, p);
      } else {
        assert (exists k :: k in ks && Below(f, r, k, p)) <==> (exists k :: k in ks[1..] && Below(f, r, k, p));
      }
    }
  }

  // ---------------------------------------------------------------- unhooking

  lemma {:induction false} UnhookBelow(f: Forest, r: map<Ptr, nat>, c: Ptr, x: Ptr, y: Ptr)
    requires Inv(f, r) && c in f && TreeAt(f, c) && Inv(Unhook(f, c), r)
    ensures !Below(f, r, c, y) ==> (Below(Unhook(f, c), r, x, y) <==> Below(f, r, x, y))
    decreases Above(r, y)
  {
    if y in f && f[y].up != 0 {
      assert RankAt(f, r, y) && TreeAt(f, y) && RankAt(f, r, f[y].up);
      AboveLess(r, y, f[y].up);
      UnhookBelow(f, r, c, x, f[y].up);
    }
  }

  /** Taking c off its parent p subtracts c's total from p and all its ancestors only. */
  lemma {:induction false} UnhookTotal(f: Forest, r: map<Ptr, nat>, c: Ptr, m: Measure, x: Ptr)
    requires Inv(f, r) && c in f && x in f && f[c].up != 0
    requires TreeAt(f, c) && Inv(Unhook(f, c), r)
    ensures Total(f, r, m, x)
         == Total(Unhook(f, c), r, m, x) + If(Below(Unhook(f, c), r, x, f[c].up), Total(Unhook(f, c), r, m, c))
    decreases if x in r then r[x] else 0, |f[x].kids|, 1
  {
    var u := Unhook(f, c);
    var p := f[c].up;
    KidsBelow(f, r, x);
    KidsBelow(u, r, x);
    assert TreeAt(f, x) && TreeAt(u, x);
    if x != p { WithoutAbsent(f[x].kids, c); }
    UnhookTotalSeq(f, r, c, m, x, f[x].kids, r[x]);
    if x == p {
      forall k | k in u[x].kids ensures !Below(u, r, k, p) {
        assert RankAt(u, r, k);
        if Below(u, r, k, p) { BelowRank(u, r, k, p); }
      }
    } else if Below(u, r, x, p) {
      var k := Branch(u, r, x, p);
    } else {
      forall k | k in u[x].kids ensures !Below(u, r, k, p) {
        if Below(u, r, k, p) { StepBelow(u, r, x, k); BelowTrans(u, r, x, k, p); }
      }
    }
  }

  lemma {:induction false} UnhookTotalSeq(f: Forest, r: map<Ptr, nat>, c: Ptr, m: Measure, x: Ptr,
        ks: seq<Ptr>, top: nat)
    requires Inv(f, r) && c in f && f[c].up != 0 && TreeAt(f, c) && Inv(Unhook(f, c), r)
    requires x != 0 && Siblings(f, r, ks, top) && NoDup(ks) && forall k :: k in ks ==> f[k].up == x
    ensures Siblings(Unhook(f, c), r, Without(ks, c), top)
    ensures TotalSeq(f, r, m, ks, top)
         == TotalSeq(Unhook(f, c), r, m, Without(ks, c), top) + If(c in ks, Total(Unhook(f, c), r, m, c))
          + If(exists k :: k in Without(ks, c) && Below(Unhook(f, c), r, k, f[c].up), Total(Unhook(f, c), r, m, c))
    decreases top, |ks|, 0
  {
    if ks != [] {
      UnhookTotal(f, r, c, m, ks[0]);
      UnhookTotalSeq(f, r, c, m, x, ks[1..], top);
      if ks[0] == c {
        WithoutAbsent(ks[1..], c);
        assert RankAt(f, r, c);
        if Below(Unhook(f, c), r, c, f[c].up) { BelowRank(Unhook(f, c), r, c, f[c].up); }
      } else {
        BranchFirst(Unhook(f, c), r, x, ks[0], Without(ks[1..], c), f[c].up);
      }
    }
  }

  // Only one of several siblings can lie on the way to y.
  lemma BranchFirst(u: Forest, r: map<Ptr, nat>, x: Ptr, k0: Ptr, rest: seq<Ptr>, y: Ptr)
    requires Inv(u, r) && x != 0 && k0 in u && u[k0].up == x && k0 !in rest
    requires forall k :: k in rest ==> k in u && u[k].up == x
    ensures ([k0] + rest)[0] == k0 && ([k0] + rest)[1..] == rest
    ensures (exists k :: k in [k0] + rest && Below(u, r, k, y))
       <==> (Below(u, r, k0, y) || exists k :: k in rest && Below(u, r, k, y))
    ensures !(Below(u, r, k0, y) && exists k :: k in rest && Below(u, r, k, y))
  {
    assert k0 in [k0] + rest;
    forall k | k in rest && Below(u, r, k, y) && Below(u, r, k0, y) ensures false {
      OneBranch(u, r, k0, k, y);
    }
    assert forall k :: k in rest ==> k in [k0] + rest;
  }

  // ---------------------------------------------------------------- stealing

  // c itself is not above its own parent
  lemma AboveParent(f: Forest, r: map<Ptr, nat>, c: Ptr, x: Ptr)
    requires Inv(f, r) && c in f && f[c].up != 0 && TreeAt(f, c) && Inv(Unhook(f, c), r)
    ensures Below(Unhook(f, c), r, x, f[c].up) <==> x != c && Below(f, r, x, c)
    ensures !Below(f, r, c, f[c].up)
  {
    assert RankAt(f, r, c) && RankAt(f, r, f[c].up);
    AboveLess(r, c, f[c].up);
    if Below(f, r, c, f[c].up) { BelowRank(f, r, c, f[c].up); }
    UnhookBelow(f, r, c, x, f[c].up);
  }

  // stealing under a ranking that already puts the new parent above c
  lemma RankedStealTotal(f: Forest, r: map<Ptr, nat>, np: Ptr, c: Ptr, m: Measure, x: Ptr)
    requires Inv(f, r) && c in f && x in f && np != c
    requires np != 0 ==> np in f && f[np].role.Plain? && np in r && c in r && r[np] > r[c]
    ensures TreeAt(f, c) && Inv(Steal(f, np, c), r)
    ensures Total(Steal(f, np, c), r, m, x) + If(x != c && Below(f, r, x, c), Total(f, r, m, c))
         == Total(f, r, m, x) + If(np != 0 && Below(f, r, x, np), Total(f, r, m, c))
  {
    StealInv(f, r, np, c);
    UnhookInv(f, r, c);
    var u := Unhook(f, c);
    if f[c].up != 0 {
      UnhookTotal(f, r, c, m, x);
      UnhookTotal(f, r, c, m, c);
      AboveParent(f, r, c, x);
      AboveParent(f, r, c, c);
    } else if x != c && Below(f, r, x, c) {
      assert false;
    }
    if np != 0 {
      if Below(f, r, c, np) { BelowRank(f, r, c, np); }
      UnhookBelow(f, r, c, x, np);
      UnhookBelow(f, r, c, c, np);
      HookTotal(u, r, np, c, m, x);
    }
  }
}
