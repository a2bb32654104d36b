/** Growing the forest: allocation, references and moving; ownership stays acyclic
    exactly when the new owner is not itself owned by what it takes. */
module ForestGrowth {
  import opened Forest
  import opened ForestFree

  // ---------------------------------------------------------------- ownership as a graph

  // x owns y: y is a child of x, or x is a handle referring to y
  predicate Owns(f: Forest, x: Ptr, y: Ptr) {
    x in f && y in f && (f[y].up == x || f[x].role == Handle(y))
  }

  predicate Path(f: Forest, s: seq<Ptr>) {
    && |s| > 0 && s[0] in f
    && forall i :: 0 <= i < |s| - 1 ==> Owns(f, s[i], s[i + 1])
  }

  ghost predicate Reaches(f: Forest, x: Ptr, y: Ptr) {
    exists s :: Path(f, s) && s[0] == x && s[|s| - 1] == y
  }

  ghost predicate Acyclic(f: Forest) {
    forall s :: Path(f, s) && |s| > 1 ==> s[0] != s[|s| - 1]
  }

  lemma {:induction false} PathDescends(f: Forest, rank: map<Ptr, nat>, s: seq<Ptr>)
    requires Inv(f, rank) && Path(f, s)
    ensures forall i :: 0 <= i < |s| ==> s[i] in f && s[i] in rank
    ensures |s| > 1 ==> rank[s[|s| - 1]] < rank[s[0]]
  {
    assert RankAt(f, rank, s[0]);
    if |s| > 1 {
      assert Owns(f, s[0], s[1]);
      assert RankAt(f, rank, s[1]);
      forall i | 0 <= i < |s[1..]| - 1 ensures Owns(f, s[1..][i], s[1..][i + 1]) {
        assert Owns(f, s[i + 1], s[i + 2]);
      }
      PathDescends(f, rank, s[1..]);
      forall i | 0 <= i < |s| ensures s[i] in f && s[i] in rank {
        if i > 0 { assert s[i] == s[1..][i - 1]; }
      }
      assert s[1..][|s[1..]| - 1] == s[|s| - 1];
    }
  }

  /** A ranked forest has no cycle of ownership. */
  lemma RankedAcyclic(f: Forest, rank: map<Ptr, nat>)
    requires Inv(f, rank)
    ensures Acyclic(f)
  {
    forall s | Path(f, s) && |s| > 1 ensures s[0] != s[|s| - 1] {
      PathDescends(f, rank, s);
    }
  }

  lemma PathExtends(f: Forest, x: Ptr, y: Ptr, z: Ptr)
    requires Owns(f, x, y) && Reaches(f, y, z)
    ensures Reaches(f, x, z)
  {
    var s :| Path(f, s) && s[0] == y && s[|s| - 1] == z;
    var t := [x] + s;
    forall i | 0 <= i < |t| - 1 ensures Owns(f, t[i], t[i + 1]) {
      if i > 0 { assert Owns(f, s[i - 1], s[i]); }
    }
    assert Path(f, t) && t[|t| - 1] == z;
  }

  lemma ReachesSelf(f: Forest, x: Ptr)
    requires x in f
    ensures Reaches(f, x, x)
  {
    assert Path(f, [x]) && [x][|[x]| - 1] == x;
  }

  // A ranking that puts ctx, and all that owns it, above c.
  ghost function Raise(f: Forest, rank: map<Ptr, nat>, ctx: Ptr, c: Ptr): map<Ptr, nat>
    requires Inv(f, rank) && c in f
  {
    assert RankAt(f, rank, c);
    map x | x in f && RankAt(f, rank, x) :: 2 * rank[x] + if Reaches(f, x, ctx) then 2 * rank[c] + 2 else 0
  }

  lemma RaiseInv(f: Forest, rank: map<Ptr, nat>, ctx: Ptr, c: Ptr)
    requires Inv(f, rank) && c in f && ctx in f && !Reaches(f, c, ctx)
    ensures Inv(f, Raise(f, rank, ctx, c))
    ensures var r := Raise(f, rank, ctx, c);
      r.Keys == f.Keys && r[ctx] >= r[c] + 2
  {
    var r := Raise(f, rank, ctx, c);
    forall x | x in f ensures x in r {
      assert RankAt(f, rank, x);
    }
    ReachesSelf(f, ctx);
    assert RankAt(f, rank, c);
    forall x | x in f ensures RankAt(f, r, x) {
      assert RankAt(f, rank, x) && TreeAt(f, x) && RefAt(f, x);
      if f[x].up != 0 {
        assert RankAt(f, rank, f[x].up);
        if Reaches(f, x, ctx) { PathExtends(f, f[x].up, x, ctx); }
      }
      if f[x].role.Handle? {
        var t := f[x].role.target;
        assert RankAt(f, rank, t);
        if Reaches(f, t, ctx) { PathExtends(f, x, t, ctx); }
      }
    }
  }

  // ---------------------------------------------------------------- new chunks

  // _talloc: a new chunk, first child of ctx, or a root when ctx is NULL
  function AddLeaf(f: Forest, x: Ptr, ctx: Ptr, size: nat): Forest
    requires x !in f && (ctx != 0 ==> ctx in f)
  {
    var g := f[x := Node(0, [], [], Plain, size, NoDtor)];
    if ctx == 0 then g else Hook(g, ctx, x)
  }

  ghost function Lift(f: Forest, rank: map<Ptr, nat>, x: Ptr): map<Ptr, nat>
    requires Inv(f, rank) && x !in f
  {
    (map y | y in f && RankAt(f, rank, y) :: rank[y] + 1)[x := 0]
  }

  lemma AddLeafInv(f: Forest, rank: map<Ptr, nat>, x: Ptr, ctx: Ptr, size: nat)
    requires Inv(f, rank) && x !in f && x != 0
    requires ctx != 0 ==> ctx in f && f[ctx].role.Plain?
    ensures Inv(AddLeaf(f, x, ctx, size), Lift(f, rank, x))
  {
    var g := f[x := Node(0, [], [], Plain, size, NoDtor)];
    var r := Lift(f, rank, x);
    forall y | y in f ensures y in r {
      assert RankAt(f, rank, y);
    }
    forall y | y in g ensures TreeAt(g, y) && RefAt(g, y) && RankAt(g, r, y) {
      if y != x {
        assert TreeAt(f, y) && RefAt(f, y) && RankAt(f, rank, y);
      }
    }
    if ctx != 0 {
      HookInv(g, r, ctx, x);
    }
  }

  // talloc_reference: h becomes a handle below ctx that heads the reference list of p
  function MakeRef(g: Forest, h: Ptr, p: Ptr): Forest
    requires h in g && p in g && h != p
  {
    var u := g[h := g[h].(role := Handle(p), dtor := RefDtor)];
    u[p := u[p].(refs := [h] + u[p].refs)]
  }

  function AddRef(f: Forest, h: Ptr, ctx: Ptr, p: Ptr, size: nat): Forest
    requires h !in f && p in f && (ctx != 0 ==> ctx in f)
  {
    MakeRef(AddLeaf(f, h, ctx, size), h, p)
  }

  // ranks for AddRef: h sits just above p
  ghost function RefRank(f: Forest, rank: map<Ptr, nat>, h: Ptr, ctx: Ptr, p: Ptr): map<Ptr, nat>
    requires Inv(f, rank) && p in f
  {
    var r := if ctx == 0 then rank else Raise(f, rank, ctx, p);
    if p in r then r[h := r[p] + 1] else r
  }

  lemma AddRefInv(f: Forest, rank: map<Ptr, nat>, h: Ptr, ctx: Ptr, p: Ptr, size: nat)
    requires Inv(f, rank) && h !in f && h != 0 && p in f && f[p].role.Plain?
    requires ctx != 0 ==> ctx in f && f[ctx].role.Plain? && !Reaches(f, p, ctx)
    ensures Inv(AddRef(f, h, ctx, p, size), RefRank(f, rank, h, ctx, p))
  {
    if ctx != 0 { RaiseInv(f, rank, ctx, p); ReachesSelf(f, p); }
    var r0 := if ctx == 0 then rank else Raise(f, rank, ctx, p);
    var r := RefRank(f, rank, h, ctx, p);
    assert RankAt(f, r0, p);
    var g0 := f[h := Node(0, [], [], Plain, size, NoDtor)];
    forall y | y in g0 ensures TreeAt(g0, y) && RefAt(g0, y) && RankAt(g0, r, y) {
      if y != h {
        assert TreeAt(f, y) && RefAt(f, y) && RankAt(f, r0, y);
        if f[y].up != 0 { assert f[y].up in f; }
      }
    }
    if ctx != 0 { HookInv(g0, r, ctx, h); }
    var g := AddLeaf(f, h, ctx, size);
    assert Inv(g, r);
    MakeRefInv(g, r, h, p);
  }

  lemma MakeRefInv(g: Forest, r: map<Ptr, nat>, h: Ptr, p: Ptr)
    requires Inv(g, r) && h in g && p in g && h != p && g[p].role.Plain?
    requires g[h].role.Plain? && g[h].kids == [] && g[h].refs == []
    requires h in r && p in r && r[h] > r[p]
    ensures Inv(MakeRef(g, h, p), r)
  {
    var u := MakeRef(g, h, p);
    assert u[p].refs[1..] == g[p].refs;
    assert h !in g[p].refs by { assert RefAt(g, p); }
    forall y | y in u ensures TreeAt(u, y) && RankAt(u, r, y) {
      assert TreeAt(g, y) && RankAt(g, r, y);
    }
    forall y | y in u ensures RefAt(u, y) {
      assert RefAt(g, y);
    }
  }

  /** Adding a reference keeps ownership acyclic exactly when the referenced chunk does not
      already own the context. */
  lemma AddRefAcyclicIff(f: Forest, rank: map<Ptr, nat>, h: Ptr, ctx: Ptr, p: Ptr, size: nat)
    requires Inv(f, rank) && h !in f && h != 0 && p in f && f[p].role.Plain?
    requires ctx in f && f[ctx].role.Plain?
    ensures Acyclic(AddRef(f, h, ctx, p, size)) <==> !Reaches(f, p, ctx)
  {
    var g := AddRef(f, h, ctx, p, size);
    if Reaches(f, p, ctx) {
      var s :| Path(f, s) && s[0] == p && s[|s| - 1] == ctx;
      assert ctx != 0;
      var t := s + [h, p];
      PathDescends(f, rank, s);
      forall i | 0 <= i < |t| - 1 ensures Owns(g, t[i], t[i + 1]) {
        if i < |s| - 1 { assert Owns(f, s[i], s[i + 1]); }
      }
      assert Path(g, t) && t[|t| - 1] == p;
    } else {
      AddRefInv(f, rank, h, ctx, p, size);
      RankedAcyclic(g, RefRank(f, rank, h, ctx, p));
    }
  }

  /** Moving a chunk keeps ownership acyclic exactly when it does not own its new parent. */
  lemma StealAcyclic(f: Forest, rank: map<Ptr, nat>, np: Ptr, c: Ptr)
    requires Inv(f, rank) && c in f && np in f && c != np && f[np].role.Plain?
    ensures TreeAt(f, c)
    ensures Acyclic(Steal(f, np, c)) <==> !Reaches(f, c, np)
  {
    assert TreeAt(f, c);
    StealSame(f, np, c);
    var g := Steal(f, np, c);
    if Reaches(f, c, np) {
      var s :| Path(f, s) && s[0] == c && s[|s| - 1] == np;
      PathDescends(f, rank, s);
      var t := s + [c];
      forall i | 0 <= i < |t| - 1 ensures Owns(g, t[i], t[i + 1]) {
        if i < |s| - 1 {
          assert Owns(f, s[i], s[i + 1]);
          NotBackToStart(f, rank, s, i + 1);
        }
      }
      assert np != 0;
      assert Path(g, t) && t[|t| - 1] == c;
    } else {
      RaiseInv(f, rank, np, c);
      StealInv(f, Raise(f, rank, np, c), np, c);
      RankedAcyclic(g, Raise(f, rank, np, c));
    }
  }

  lemma NotBackToStart(f: Forest, rank: map<Ptr, nat>, s: seq<Ptr>, i: nat)
    requires Inv(f, rank) && Path(f, s) && 0 < i < |s|
    ensures s[i] != s[0]
  {
    var t := s[..i + 1];
    forall j | 0 <= j < |t| - 1 ensures Owns(f, t[j], t[j + 1]) {
      assert Owns(f, s[j], s[j + 1]);
    }
    PathDescends(f, rank, t);
  }

  // ---------------------------------------------------------------- giving up an owner

  // the first handle in s that is held by ctx, or NULL
  function FirstHeldBy(f: Forest, s: seq<Ptr>, ctx: Ptr): (h: Ptr)
    ensures h != 0 ==> h in s && h in f && f[h].up == ctx
    ensures h == 0 && 0 !in s ==> forall k :: k in s && k in f ==> f[k].up != ctx
  {
    if s == [] then 0
    else if s[0] in f && f[s[0]].up == ctx then s[0]
    else FirstHeldBy(f, s[1..], ctx)
  }

  // one reference, anywhere in its target's list, is given up
  function DropOne(f: Forest, h: Ptr): Forest
    requires WF(f) && h in f && f[h].role.Handle?
  {
    assert RefAt(f, h) && TreeAt(f, h);
    var g := DropRef(f, h, NoDtor);
    assert g[h].up == f[h].up;
    Delete(g, h)
  }

  // the holders of the references in s
  function Holders(f: Forest, s: seq<Ptr>): multiset<Ptr>
    requires forall h :: h in s ==> h in f
  {
    if s == [] then multiset{} else multiset{f[s[0]].up} + Holders(f, s[1..])
  }

  // every context that keeps x alive: its parent and the holders of references to it
  function Owners(f: Forest, x: Ptr): multiset<Ptr>
    requires WF(f) && x in f
  {
    assert RefAt(f, x);
    multiset{f[x].up} + Holders(f, f[x].refs)
  }

  lemma {:induction false} HoldersWithout(f: Forest, g: Forest, s: seq<Ptr>, h: Ptr)
    requires NoDup(s) && h in s && (forall k :: k in s ==> k in f)
    requires forall k :: k in s && k != h ==> k in g && g[k].up == f[k].up
    ensures forall k :: k in Without(s, h) ==> k in g
    ensures Holders(g, Without(s, h)) + multiset{f[h].up} == Holders(f, s)
  {
    if s[0] == h {
      HoldersSame(f, g, s[1..]);
    } else {
      HoldersWithout(f, g, s[1..], h);
      assert Without(s, h)[1..] == Without(s[1..], h);
    }
  }

  lemma {:induction false} HoldersSame(f: Forest, g: Forest, s: seq<Ptr>)
    requires forall k :: k in s ==> k in f && k in g && g[k].up == f[k].up
    ensures Holders(g, s) == Holders(f, s)
  {
    if s != [] { HoldersSame(f, g, s[1..]); }
  }

  // Dropping one reference changes two lists only.
  lemma DropOneEffect(f: Forest, h: Ptr)
    requires WF(f) && h in f && f[h].role.Handle?
    ensures var t := f[h].role.target;
      && t in f && t != 0 && t != h && h in f[t].refs
      && DropOne(f, h).Keys == f.Keys - {h}
      && (forall x :: x in f && x != h ==>
            DropOne(f, h)[x] == f[x].(kids := if x == f[h].up then Without(f[x].kids, h) else f[x].kids,
                                      refs := if x == t then Without(f[x].refs, h) else f[x].refs))
  {
    assert RefAt(f, h) && TreeAt(f, h);
    var g := DropRef(f, h, NoDtor);
    DropRefSame(f, h, NoDtor);
    UnhookSame(g, h);
  }

  lemma DropRefSame(f: Forest, h: Ptr, d: Dtor)
    requires h in f && f[h].role.Handle? && f[h].role.target in f && f[h].role.target != h
    ensures DropRef(f, h, d).Keys == f.Keys
    ensures DropRef(f, h, d)[h] == f[h].(role := Plain, dtor := d)
    ensures forall x :: x in f && x != h ==>
      DropRef(f, h, d)[x] == f[x].(refs := if x == f[h].role.target then Without(f[x].refs, h) else f[x].refs)
  {
  }

  lemma UnhookSame(f: Forest, c: Ptr)
    requires c in f && f[c].up != c && (f[c].up != 0 ==> f[c].up in f) && 0 !in f
    ensures Unhook(f, c).Keys == f.Keys
    ensures Unhook(f, c)[c] == f[c].(up := 0)
    ensures forall x :: x in f && x != c ==>
      Unhook(f, c)[x] == f[x].(kids := if x == f[c].up then Without(f[x].kids, c) else f[x].kids)
  {
  }

  lemma DropOneInv(f: Forest, rank: map<Ptr, nat>, h: Ptr)
    requires Inv(f, rank) && h in f && f[h].role.Handle?
    ensures Inv(DropOne(f, h), rank)
  {
    assert RefAt(f, h) && TreeAt(f, h);
    DropRefInv(f, rank, h, NoDtor);
    DeleteInv(DropRef(f, h, NoDtor), rank, h);
  }

  /** Giving up a reference takes its holder, once, out of the owners of the target, and
      leaves the owners of every other chunk alone. */
  lemma DropOneOwners(f: Forest, rank: map<Ptr, nat>, h: Ptr, x: Ptr)
    requires Inv(f, rank) && h in f && f[h].role.Handle? && x in f && x != h
    ensures Inv(DropOne(f, h), rank) && x in DropOne(f, h)
    ensures Owners(DropOne(f, h), x) + (if f[h].role.target == x then multiset{f[h].up} else multiset{}) == Owners(f, x)
  {
    DropOneInv(f, rank, h);
    DropOneEffect(f, h);
    assert RefAt(f, x);
    var g := DropOne(f, h);
    if f[h].role.target == x {
      HoldersWithout(f, g, f[x].refs, h);
    } else {
      forall k | k in f[x].refs ensures k != h { }
      HoldersSame(f, g, f[x].refs);
    }
  }

  // talloc_unlink on a chunk with references: ctx stops owning it. A reference held by ctx goes
  // if there is one; else, when ctx is the parent, the holder of the first reference takes over.
  function Disown(f: Forest, ctx: Ptr, p: Ptr): Forest
    requires WF(f) && p in f && f[p].refs != []
  {
    assert RefAt(f, p);
    var h := FirstHeldBy(f, f[p].refs, ctx);
    if h != 0 then DropOne(f, h)
    else if f[p].up != ctx then f
    else
      var h0 := f[p].refs[0];
      assert RefAt(f, h0) && TreeAt(f, h0);
      var g := DropOne(f, h0);
      if p in g && (g[p].up != 0 ==> g[p].up in g) && (f[h0].up != 0 ==> f[h0].up in g) then Steal(g, f[h0].up, p)
      else f
  }

  /** talloc_unlink takes exactly one occurrence of ctx out of the owners of p, when ctx owns p
      at all, and leaves p alive. */
  lemma DisownOwners(f: Forest, rank: map<Ptr, nat>, ctx: Ptr, p: Ptr)
    requires Inv(f, rank) && p in f && f[p].role.Plain? && f[p].refs != []
    ensures var g := Disown(f, ctx, p); Inv(g, rank) && p in g
    ensures ctx in Owners(f, p) <==> Disown(f, ctx, p) != f
    ensures ctx in Owners(f, p) ==> Owners(Disown(f, ctx, p), p) + multiset{ctx} == Owners(f, p)
  {
    assert RefAt(f, p) && TreeAt(f, p);
    var h := FirstHeldBy(f, f[p].refs, ctx);
    if h != 0 {
      assert RefAt(f, h);
      DropOneOwners(f, rank, h, p);
      DropOneEffect(f, h);
    } else {
      NotHolder(f, f[p].refs, ctx);
      if f[p].up == ctx { DisownParent(f, rank, p); }
    }
  }

  // moving p changes none of its holders
  lemma StealOwners(u: Forest, rank: map<Ptr, nat>, q: Ptr, p: Ptr)
    requires Inv(u, rank) && p in u && q != p
    requires q == 0 || (q in u && u[q].role.Plain? && q in rank && p in rank && rank[q] > rank[p])
    ensures TreeAt(u, p) && Inv(Steal(u, q, p), rank) && Steal(u, q, p).Keys == u.Keys
    ensures Owners(Steal(u, q, p), p) + multiset{u[p].up} == Owners(u, p) + multiset{q}
  {
    assert TreeAt(u, p) && RefAt(u, p);
    StealInv(u, rank, q, p);
    StealSame(u, q, p);
    HoldersSame(u, Steal(u, q, p), u[p].refs);
  }

  // the holder of the first reference, once that is given up
  lemma FirstHolder(f: Forest, rank: map<Ptr, nat>, p: Ptr, h: Ptr)
    requires Inv(f, rank) && p in f && f[p].role.Plain? && f[p].refs != [] && h == f[p].refs[0]
    ensures h in f && f[h].role.Handle? && f[h].role.target == p && h != p
    ensures var u := DropOne(f, h); var q := f[h].up;
      && p in u && h !in u && u[p].up == f[p].up && q != p
      && (q == 0 || (q in u && u[q].role.Plain? && q in rank && p in rank && rank[q] > rank[p]))
  {
    assert RefAt(f, p) && RefAt(f, h) && TreeAt(f, h) && RankAt(f, rank, h) && RankAt(f, rank, p);
    var q := f[h].up;
    if q != 0 { assert RankAt(f, rank, q) && RefAt(f, q); }
    DropOneEffect(f, h);
  }

  // The holder of the first reference becomes the parent, and that reference goes.
  lemma DisownParent(f: Forest, rank: map<Ptr, nat>, p: Ptr)
    requires Inv(f, rank) && p in f && f[p].role.Plain? && f[p].refs != []
    requires f[p].refs[0] in f && f[f[p].refs[0]].role.Handle?
    ensures var h := f[p].refs[0]; var g := DropOne(f, h); var q := f[h].up;
      && p in g && (g[p].up != 0 ==> g[p].up in g) && (q != 0 ==> q in g)
      && Inv(Steal(g, q, p), rank) && p in Steal(g, q, p) && Steal(g, q, p) != f
      && Owners(Steal(g, q, p), p) + multiset{f[p].up} == Owners(f, p)
  {
    var h := f[p].refs[0];
    var u := DropOne(f, h);
    FirstHolder(f, rank, p, h);
    DropOneOwners(f, rank, h, p);
    StealOwners(u, rank, f[h].up, p);
    assert TreeAt(u, p);
    assert h !in Steal(u, f[h].up, p) && h in f;
  }

  lemma {:induction false} NotHolder(f: Forest, s: seq<Ptr>, ctx: Ptr)
    requires forall h :: h in s ==> h in f && f[h].up != ctx
    ensures ctx !in Holders(f, s)
  {
    if s != [] { NotHolder(f, s[1..], ctx); }
  }
}
