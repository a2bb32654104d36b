/** The allocator: chunks linked by next/prev/parent/child and reference lists, in a memory
    that is updated in place. A pointer is live exactly when it is a key of the memory, so
    every dereference below is proved to hit a live chunk. Every operation is proved to
    compute its counterpart on the abstract forest. */
module Talloc {
  import opened Forest
  import opened ForestFree
  import opened ForestGrowth
  import opened ForestRename
  import opened ForestTotals
  import opened TallocLinks

  const MAX_TALLOC_SIZE: nat := 0x10000000
  const HANDLE_SIZE: nat := 12

  ghost function HandleSet(f: Forest): set<Ptr> {
    set h | h in f && f[h].role.Handle?
  }

  ghost function Handles(f: Forest): nat {
    |HandleSet(f)|
  }

  class Heap {
    var mem: Memory
    ghost var f: Forest
    ghost var rank: map<Ptr, nat>

    ghost predicate Valid()
      reads this
    {
      Inv(f, rank) && Rep(mem, f, 0)
    }

    // ---------------------------------------------------------------- reading the links

    // The links of c, as far as walking and relinking need them: c is a root with no links
    // (p is NULL), or it stands at position i of the list s of children of p.
    ghost predicate Standing(c: Ptr, p: Ptr, s: seq<Ptr>, i: nat)
      reads this
    {
      && c in mem && 0 !in mem
      && (p == 0 ==> mem[c].next == 0 && mem[c].prev == 0 && mem[c].parent == 0)
      && (p != 0 ==> Place(p, s, i, c) && KidLinks(mem, p, s))
    }

    lemma Stand(c: Ptr) returns (s: seq<Ptr>, i: nat)
      requires Valid() && c in f
      ensures Standing(c, f[c].up, s, i)
      ensures f[c].up != 0 ==> f[c].up in f && s == f[f[c].up].kids
    {
      assert RepAt(mem, f, 0, c);
      if f[c].up == 0 {
        s, i := [], 0;
      } else {
        i := KidPlace(mem, f, rank, c);
        s := f[f[c].up].kids;
      }
    }

    // The body of talloc_parent_chunk: back to the first sibling, which holds the parent.
    method WalkToParent(c: Ptr, ghost p: Ptr, ghost s: seq<Ptr>, ghost i: nat) returns (parent: Ptr)
      requires Standing(c, p, s, i)
      ensures parent == p
    {
      var tc := c;
      ghost var j: nat := i;
      if p != 0 { assert KidAt(mem, p, s, i); }
      while mem[tc].prev != 0
        invariant tc in mem
        invariant if p == 0 then tc == c else j < |s| && tc == s[j] && KidAt(mem, p, s, j)
        decreases j
      {
        assert p != 0 && j > 0;
        tc := mem[tc].prev;
        j := j - 1;
        assert KidAt(mem, p, s, j);
      }
      parent := mem[tc].parent;
    }

    // talloc_parent_chunk
    method ParentChunk(ptr: Ptr) returns (parent: Ptr)
      requires Valid() && ptr in f
      ensures parent == f[ptr].up
    {
      ghost var s, i := Stand(ptr);
      parent := WalkToParent(ptr, f[ptr].up, s, i);
    }

    // ---------------------------------------------------------------- editing sibling lists

    // The unlinking sequence of talloc_free and talloc_steal.
    method CutOut(tc: Ptr, ghost p: Ptr, ghost s: seq<Ptr>, ghost i: nat)
      requires Standing(tc, p, s, i)
      modifies this`mem
      ensures p == 0 ==> mem == old(mem)
      ensures p != 0 ==> i < |s| && IsCut(old(mem), mem, p, s, i)
    {
      if p != 0 {
        assert KidAt(mem, p, s, i);
        if i > 0 { Distinct(s, i - 1, i); assert KidAt(mem, p, s, i - 1); }
        if i + 1 < |s| { Distinct(s, i, i + 1); assert KidAt(mem, p, s, i + 1); }
        if 0 < i && i + 1 < |s| { Distinct(s, i - 1, i + 1); }
      }
      if mem[tc].parent != 0 {
        var parent := mem[tc].parent;
        mem := mem[parent := mem[parent].(child := mem[tc].next)];
        if mem[parent].child != 0 {
          mem := mem[mem[parent].child := mem[mem[parent].child].(prev := 0)];
        }
        mem := mem[tc := mem[tc].(next := 0, prev := 0)];
        if mem[parent].child != 0 {
          mem := mem[mem[parent].child := mem[mem[parent].child].(parent := mem[tc].parent)];
        }
      } else {
        if mem[tc].prev != 0 {
          mem := mem[mem[tc].prev := mem[mem[tc].prev].(next := mem[tc].next)];
        }
        if mem[tc].next != 0 {
          mem := mem[mem[tc].next := mem[mem[tc].next].(prev := mem[tc].prev)];
        }
      }
    }

    method UnlinkChild(tc: Ptr)
      requires Valid() && tc in f
      modifies this`mem, this`f
      ensures TreeAt(old(f), tc) && f == Unhook(old(f), tc)
      ensures Inv(f, rank) && Rep(mem, f, tc)
    {
      UnhookInv(f, rank, tc);
      ghost var was := mem;
      ghost var s, i := Stand(tc);
      CutOut(tc, f[tc].up, s, i);
      if f[tc].up != 0 {
        CutRep(was, mem, f, rank, i, tc);
      } else {
        forall q | q in f ensures RepAt(mem, f, tc, q) { assert RepAt(was, f, 0, q); }
      }
      f := Unhook(f, tc);
    }

    // The hooking sequence of _talloc and talloc_steal: tc becomes the first child of p.
    method LinkChild(p: Ptr, tc: Ptr)
      requires Inv(f, rank) && Rep(mem, f, tc) && p in f && tc in f && tc != p && f[tc].up == 0
      modifies this`mem, this`f
      ensures f == Hook(old(f), p, tc) && Rep(mem, f, 0)
    {
      ghost var was := mem;
      ghost var s := f[p].kids;
      assert RepAt(mem, f, tc, p) && TreeAt(f, p) && 0 !in f;
      assert tc !in s;
      if s != [] { assert KidAt(mem, p, s, 0) && s[0] in s; }
      assert p !in s by { assert RankAt(f, rank, p); }
      mem := mem[tc := mem[tc].(parent := p)];
      if mem[p].child != 0 {
        mem := mem[mem[p].child := mem[mem[p].child].(parent := 0)];
      }
      if mem[p].child == 0 {
        mem := mem[p := mem[p].(child := tc)];
        mem := mem[tc := mem[tc].(next := 0, prev := 0)];
      } else {
        mem := mem[mem[p].child := mem[mem[p].child].(prev := tc)];
        mem := mem[tc := mem[tc].(next := mem[p].child)];
        mem := mem[tc := mem[tc].(prev := 0)];
        mem := mem[p := mem[p].(child := tc)];
      }
      assert IsPush(was, mem, p, s, tc);
      PushRep(was, mem, f, rank, p, tc);
      f := Hook(f, p, tc);
    }

    // ---------------------------------------------------------------- editing reference lists

    method RefCutOut(tc2: Ptr, handle: Ptr, ghost s: seq<Ptr>, ghost i: nat)
      requires Place(tc2, s, i, handle) && RefLinks(mem, tc2, s) && 0 !in mem
      modifies this`mem
      ensures IsRefCut(old(mem), mem, tc2, s, i)
      ensures forall x :: x in mem ==> mem[x].dtor == old(mem)[x].dtor
    {
      assert RefLinkAt(mem, s, i);
      if i > 0 { Distinct(s, i - 1, i); Distinct(s, 0, i); assert RefLinkAt(mem, s, i - 1); }
      if i + 1 < |s| { Distinct(s, i, i + 1); assert RefLinkAt(mem, s, i + 1); }
      if 0 < i && i + 1 < |s| { Distinct(s, i - 1, i + 1); }
      if handle == mem[tc2].refs {
        mem := mem[tc2 := mem[tc2].(refs := mem[handle].hnext)];
        if mem[tc2].refs != 0 {
          mem := mem[mem[tc2].refs := mem[mem[tc2].refs].(hprev := 0)];
        }
      } else {
        if mem[handle].hprev != 0 {
          mem := mem[mem[handle].hprev := mem[mem[handle].hprev].(hnext := mem[handle].hnext)];
        }
        if mem[handle].hnext != 0 {
          mem := mem[mem[handle].hnext := mem[mem[handle].hnext].(hprev := mem[handle].hprev)];
        }
      }
      if handle != mem[tc2].refs {
        mem := mem[handle := mem[handle].(hnext := 0, hprev := 0)];
      }
    }

    // ---------------------------------------------------------------- freeing

    // talloc_reference_destructor. The handle's destructor field may already be marked as
    // running, in which case the handle itself is left to the caller.
    method ReferenceDestructor(ptr: Ptr)
      requires ptr in mem && ptr in f && f[ptr].role.Handle? && mem[ptr].dtor in {RefDtor, InProgress}
      requires Inv(f, rank) && mem.Keys == f.Keys && Rep(mem[ptr := mem[ptr].(dtor := RefDtor)], f, 0)
      modifies this
      ensures Valid() && rank == old(rank)
      ensures RefAt(old(f), ptr) && TreeAt(old(f), ptr)
      ensures old(mem[ptr].dtor) == InProgress ==> f == DropRef(old(f), ptr, InProgress)
      ensures old(mem[ptr].dtor) == RefDtor ==>
        var g := DropRef(old(f), ptr, NoDtor); g[ptr].up == old(f)[ptr].up && f == Delete(g, ptr)
      decreases |f|, Handles(f), 0, 0, 0
    {
      assert RefAt(f, ptr) && TreeAt(f, ptr);
      DetachHandle(ptr);
      FreeHandle(ptr);
    }

    // talloc_free on a handle that has left its target's list: nothing happens while its destructor
    // is running
    method FreeHandle(ptr: Ptr)
      requires Valid() && ptr in f && f[ptr].kids == [] && f[ptr].refs == [] && f[ptr].role.Plain?
      requires f[ptr].dtor == NoDtor || f[ptr].dtor == InProgress
      modifies this
      ensures Valid() && rank == old(rank) && TreeAt(old(f), ptr)
      ensures f == if old(f)[ptr].dtor == InProgress then old(f) else Delete(old(f), ptr)
      decreases |f|, Handles(f), (if ptr in rank then rank[ptr] else 0) + 1, |f[ptr].kids|, 4
    {
      assert TreeAt(f, ptr);
      ghost var g := f;
      var rc := TallocFree(ptr);
      if g[ptr].dtor == NoDtor { FreeDetached(g, rank, ptr); }
    }

    // The part of talloc_reference_destructor before the handle is freed.
    method DetachHandle(ptr: Ptr)
      requires ptr in mem && ptr in f && f[ptr].role.Handle? && mem[ptr].dtor in {RefDtor, InProgress}
      requires Inv(f, rank) && mem.Keys == f.Keys && Rep(mem[ptr := mem[ptr].(dtor := RefDtor)], f, 0)
      modifies this`mem, this`f
      ensures Valid() && RefAt(old(f), ptr)
      ensures f == DropRef(old(f), ptr, if old(mem[ptr].dtor) == InProgress then InProgress else NoDtor)
      ensures f.Keys == old(f.Keys) && f[ptr].kids == [] && f[ptr].refs == [] && f[ptr].role.Plain?
      ensures f[ptr].up == old(f)[ptr].up
      ensures Handles(f) < old(Handles(f))
    {
      ghost var m0 := mem[ptr := mem[ptr].(dtor := RefDtor)];
      ghost var s, i := HandlePlace(m0, f, rank, ptr);
      ghost var d := if mem[ptr].dtor == InProgress then InProgress else NoDtor;
      var tc2 := mem[ptr].hptr;
      if mem[ptr].dtor != InProgress {
        mem := mem[ptr := mem[ptr].(dtor := NoDtor)];
      }
      ghost var m1 := mem;
      RefLinksUntouched(m0, m1, tc2, s);
      RefCutOut(tc2, ptr, s, i);
      RefCutAgain(m0, m1, mem, tc2, s, i);
      RefCutRep(m0, mem, f, rank, ptr, d, i);
      DropRefInv(f, rank, ptr, d);
      FewerHandles(f, DropRef(f, ptr, d), ptr);
      f := DropRef(f, ptr, d);
    }

    // talloc_free_children
    method FreeChildren(ptr: Ptr)
      requires Valid() && ptr in f && f[ptr].refs == [] && f[ptr].role.Plain?
      modifies this
      ensures Valid() && rank == old(rank)
      ensures f == FreeKids(old(f), rank, ptr)
      decreases |f|, Handles(f), (if ptr in rank then rank[ptr] else 0) + 1, |f[ptr].kids|, 1
    {
      assert RepAt(mem, f, 0, ptr);
      while mem[ptr].child != 0
        invariant Valid() && rank == old(rank) && ptr in f && f[ptr].refs == [] && f[ptr].role.Plain?
        invariant FreeKids(f, rank, ptr) == FreeKids(old(f), rank, ptr)
        invariant |f| < |old(f)| ||
          (|f| == |old(f)| && Handles(f) == Handles(old(f)) && |f[ptr].kids| <= |old(f)[ptr].kids|)
        decreases |f|, |f[ptr].kids|
      {
        ghost var f0 := f;
        assert RepAt(mem, f, 0, ptr) && TreeAt(f, ptr);
        FirstKid(f, rank, ptr);
        FreeFirstChild(ptr);
        assert RepAt(mem, f, 0, ptr);
      }
      assert RepAt(mem, f, 0, ptr);
      assert f[ptr].kids == [] by {
        if f[ptr].kids != [] { FirstKid(f, rank, ptr); }
      }
    }

    // The body of the loop of talloc_free_children.
    method FreeFirstChild(ptr: Ptr)
      requires Valid() && ptr in f && f[ptr].refs == [] && f[ptr].role.Plain? && f[ptr].kids != []
      modifies this
      ensures Valid() && rank == old(rank)
      ensures f == Visit(old(f), rank, ptr)
      ensures |f| < |old(f)| || Handles(f) == Handles(old(f))
      decreases |f|, Handles(f), (if ptr in rank then rank[ptr] else 0) + 1, |f[ptr].kids|, 0
    {
      FirstKid(f, rank, ptr);
      assert RepAt(mem, f, 0, ptr);
      var child := mem[ptr].child;
      var new_parent := FirstHolder(child);
      ghost var f0 := f;
      var rc := TallocFree(child);
      if rc == -1 {
        Rehome(ptr, child, new_parent, f0);
      } else {
        StrictlyFewer(f, f0, child);
      }
    }

    // the context that holds the first reference to a chunk, or NULL
    method FirstHolder(child: Ptr) returns (holder: Ptr)
      requires Valid() && child in f
      ensures RefAt(f, child)
      ensures holder == if f[child].refs == [] then 0 else f[f[child].refs[0]].up
    {
      assert RepAt(mem, f, 0, child) && RefAt(f, child);
      holder := 0;
      if mem[child].refs != 0 {
        var p := ParentChunk(mem[child].refs);
        if p != 0 { holder := p; }
      }
    }

    // what talloc_free_children does with a child that could not be freed
    method Rehome(ptr: Ptr, child: Ptr, holder: Ptr, ghost f0: Forest)
      requires Valid() && Inv(f0, rank) && ptr in f0 && f0[ptr].refs == [] && f0[ptr].role.Plain?
      requires f0[ptr].kids != [] && f0[ptr].kids[0] == child && child in f0 && RefAt(f0, child)
      requires holder == if f0[child].refs == [] then 0 else f0[f0[child].refs[0]].up
      requires Free(f0, rank, child) == (f, false)
      modifies this`mem, this`f
      ensures Valid() && f == Visit(f0, rank, ptr)
      ensures |f| < |f0| || Handles(f) == Handles(f0)
    {
      FailedOwner(f0, f, rank, ptr, child);
      Rehomed(f0, f, rank, ptr, child, if holder == 0 then f[ptr].up else holder);
      Adopt(ptr, child, holder);
    }

    // a child goes to the holder, or without one to the parent of ptr
    method Adopt(ptr: Ptr, child: Ptr, holder: Ptr)
      requires Valid() && ptr in f && child in f
      requires var np := if holder == 0 then f[ptr].up else holder;
        np == 0 || (np in f && f[np].role.Plain? && np in rank && child in rank && rank[np] > rank[child])
      modifies this`mem, this`f
      ensures Valid() && TreeAt(old(f), child)
      ensures f == Steal(old(f), if holder == 0 then old(f)[ptr].up else holder, child)
    {
      var new_parent := OrParent(holder, ptr);
      MoveTo(new_parent, child);
    }

    // without a holder, the parent of ptr
    method OrParent(holder: Ptr, ptr: Ptr) returns (new_parent: Ptr)
      requires Valid() && ptr in f
      ensures new_parent == if holder == 0 then f[ptr].up else holder
    {
      new_parent := holder;
      if new_parent == 0 {
        var p := ParentChunk(ptr);
        if p != 0 { new_parent := p; }
      }
    }

    // the body of talloc_steal; the ranking still holds if the new context ranks above the chunk
    method MoveTo(new_ctx: Ptr, ptr: Ptr)
      requires Valid() && ptr in f
      requires new_ctx == 0 || new_ctx == ptr || (new_ctx in f && f[new_ctx].role.Plain?)
      modifies this`mem, this`f
      ensures TreeAt(old(f), ptr) && f == Steal(old(f), new_ctx, ptr) && Rep(mem, f, 0)
      ensures new_ctx == 0 || new_ctx == ptr || (new_ctx in rank && ptr in rank && rank[new_ctx] > rank[ptr])
        ==> Valid()
    {
      assert TreeAt(f, ptr);
      if new_ctx == 0 || new_ctx == ptr || (new_ctx in rank && ptr in rank && rank[new_ctx] > rank[ptr]) {
        StealInv(f, rank, new_ctx, ptr);
      }
      if new_ctx == 0 {
        UnlinkChild(ptr);
        ghost var m1 := mem;
        mem := mem[ptr := mem[ptr].(parent := 0, next := 0, prev := 0)];
        TidyRep(m1, mem, f, rank, ptr);
      } else if ptr != new_ctx {
        UnlinkChild(ptr);
        LinkChild(new_ctx, ptr);
      }
    }

    // The call d(ptr) in talloc_free, the destructor field being marked as running.
    method CallDestructor(d: Dtor, ptr: Ptr) returns (rc: int)
      requires ptr in mem && ptr in f && mem[ptr].dtor == InProgress && f[ptr].dtor == d && (d == RefDtor || d.User?)
      requires Inv(f, rank) && mem.Keys == f.Keys && Rep(mem[ptr := mem[ptr].(dtor := d)], f, 0)
      modifies this
      ensures rank == old(rank) && rc == if d.User? && !d.accepts then -1 else 0
      ensures rc == -1 ==> f == old(f) && mem == old(mem)
      ensures rc == 0 ==> HasRun(old(f), ptr)
      decreases |f|, Handles(f), (if ptr in rank then rank[ptr] else 0) + 1, |f[ptr].kids|, 0
    {
      assert RefAt(f, ptr);
      ghost var f0 := f;
      if d == RefDtor {
        ReferenceDestructor(ptr);
        DisarmedHandle(f0, ptr);
        FewerHandles(f0, f, ptr);
        assert RepAt(mem, f, 0, ptr);
        assert mem[ptr := mem[ptr].(dtor := f[ptr].dtor)] == mem;
        rc := 0;
      } else {
        rc := if d.accepts then 0 else -1;
      }
    }

    // ptr's destructor has run: but for its destructor field, the memory is that of f, and f that of
    // f0 once ptr is disarmed
    ghost predicate HasRun(f0: Forest, ptr: Ptr)
      requires WF(f0) && ptr in f0
      reads this
    {
      && ptr in mem && ptr in f && Rep(mem[ptr := mem[ptr].(dtor := f[ptr].dtor)], f, 0)
      && SetDtor(f, ptr, NoDtor) == Disarm(f0, ptr) && Handles(f) <= Handles(f0)
    }

    // The destructor has run and is forgotten.
    method ClearDestructor(ptr: Ptr)
      requires ptr in mem && ptr in f && Rep(mem[ptr := mem[ptr].(dtor := f[ptr].dtor)], f, 0)
      requires Inv(SetDtor(f, ptr, NoDtor), rank)
      modifies this`mem, this`f
      ensures Valid() && f == SetDtor(old(f), ptr, NoDtor) && Handles(f) == old(Handles(f))
    {
      DtorRep(mem, f, ptr, NoDtor);
      SameHandles(f, SetDtor(f, ptr, NoDtor));
      mem := mem[ptr := mem[ptr].(dtor := NoDtor)];
      f := SetDtor(f, ptr, NoDtor);
    }

    // The part of talloc_free that runs the destructor.
    method RunDestructor(ptr: Ptr) returns (refused: bool)
      requires Valid() && ptr in f && f[ptr].refs == []
      modifies this
      ensures Valid() && rank == old(rank)
      ensures refused <==> Refuses(old(f)[ptr].dtor)
      ensures f == if refused then old(f) else Disarm(old(f), ptr)
      ensures Handles(f) <= old(Handles(f))
      decreases |f|, Handles(f), (if ptr in rank then rank[ptr] else 0) + 1, |f[ptr].kids|, 1
    {
      assert RepAt(mem, f, 0, ptr) && RefAt(f, ptr);
      ghost var m0 := mem;
      DisarmInv(f, rank, ptr);
      refused := false;
      if mem[ptr].dtor != NoDtor {
        var d := mem[ptr].dtor;
        if d == InProgress { return true; }
        mem := mem[ptr := mem[ptr].(dtor := InProgress)];
        assert mem[ptr := mem[ptr].(dtor := d)] == m0;
        var rc := CallDestructor(d, ptr);
        if rc == -1 {
          mem := mem[ptr := mem[ptr].(dtor := d)];
          return true;
        }
        ClearDestructor(ptr);
      } else {
        assert f == Disarm(f, ptr);
      }
    }

    // The end of talloc_free: a chunk without children leaves the tree and the memory.
    method Release(ptr: Ptr)
      requires Valid() && ptr in f && f[ptr].kids == [] && f[ptr].refs == [] && f[ptr].role.Plain?
      modifies this`mem, this`f
      ensures TreeAt(old(f), ptr) && f == Delete(old(f), ptr) && Valid()
    {
      DeleteInv(f, rank, ptr);
      UnlinkChild(ptr);
      GoneRep(mem, f, rank, ptr);
      mem := mem - {ptr};
      f := f - {ptr};
    }

    // The first branch of talloc_free: the first reference is given up.
    method DropFirst(ptr: Ptr)
      requires Valid() && ptr in f && f[ptr].refs != []
      modifies this
      ensures Valid() && rank == old(rank) && f == DropHead(old(f), ptr)
      decreases |f|, Handles(f), 0, 1, 0
    {
      assert RepAt(mem, f, 0, ptr) && RefAt(f, ptr);
      var handle := mem[ptr].refs;
      assert RefAt(f, handle) && RepAt(mem, f, 0, handle);
      assert mem[handle := mem[handle].(dtor := RefDtor)] == mem;
      ReferenceDestructor(handle);
    }

    // talloc_free on a chunk without references
    method FreeChunk(ptr: Ptr) returns (freed: bool)
      requires Valid() && ptr in f && f[ptr].refs == []
      modifies this
      ensures Valid() && rank == old(rank) && Free(old(f), rank, ptr) == (f, freed)
      decreases |f|, Handles(f), (if ptr in rank then rank[ptr] else 0) + 1, |f[ptr].kids|, 2
    {
      assert RefAt(f, ptr);
      DisarmInv(f, rank, ptr);
      var refused := RunDestructor(ptr);
      if refused { return false; }
      FreeChildren(ptr);
      Release(ptr);
      freed := true;
    }

    // talloc_free
    method TallocFree(ptr: Ptr) returns (rc: int)
      requires Valid() && (ptr == 0 || ptr in f)
      modifies this
      ensures Valid() && rank == old(rank) && (rc == 0 || rc == -1)
      ensures ptr == 0 ==> rc == -1 && f == old(f)
      ensures ptr != 0 ==> Free(old(f), rank, ptr) == (f, rc == 0)
      decreases |f|, Handles(f), (if ptr in rank then rank[ptr] else 0) + 1, if ptr in f then |f[ptr].kids| else 0, 3
    {
      if ptr == 0 { return -1; }
      assert RepAt(mem, f, 0, ptr) && RefAt(f, ptr);
      if mem[ptr].refs != 0 {
        DropFirst(ptr);
        return -1;
      }
      var freed := FreeChunk(ptr);
      rc := if freed then 0 else -1;
    }

    // ---------------------------------------------------------------- allocation

    // an allocator without chunks
    constructor ()
      ensures Valid() && f == map[]
    {
      mem := map[];
      f := map[];
      rank := map[];
    }

    // _talloc. `block` is the block returned by malloc, NULL when it fails, and `junk` what
    // the block happens to contain.
    method Alloc(context: Ptr, size: nat, block: Ptr, junk: Chunk) returns (ptr: Ptr)
      requires Valid() && block !in mem && (context == 0 || (context in f && f[context].role.Plain?))
      modifies this
      ensures Valid()
      ensures size >= MAX_TALLOC_SIZE || block == 0 ==> ptr == 0 && f == old(f) && rank == old(rank)
      ensures size < MAX_TALLOC_SIZE && block != 0 ==>
        ptr == block && f == AddLeaf(old(f), block, context, size)
    {
      if size >= MAX_TALLOC_SIZE { return 0; }
      if block == 0 { return 0; }
      ghost var f0, m0 := f, mem;
      AddLeafInv(f, rank, block, context, size);
      ghost var g := f[block := Node(0, [], [], Plain, size, NoDtor)];
      ghost var r := Lift(f, rank, block);
      var tc := junk.(size := size, dtor := NoDtor, child := 0, refs := 0);
      LeafRep(mem, f, block, tc);
      mem := mem[block := tc];
      if context != 0 {
        LeafInv(f, rank, block, size);
        f, rank := g, r;
        LinkChild(context, block);
      } else {
        ghost var m1 := mem;
        mem := mem[block := mem[block].(parent := 0, next := 0, prev := 0)];
        TidyRep(m1, mem, g, r, block);
        f, rank := g, r;
      }
      ptr := block;
    }

    // talloc_set_destructor, for NULL or a destructor that accepts or refuses
    method SetDestructor(ptr: Ptr, destructor: Dtor)
      requires Valid() && ptr in f && f[ptr].role.Plain? && (destructor == NoDtor || destructor.User?)
      modifies this`mem, this`f
      ensures Valid() && f == SetDtor(old(f), ptr, destructor)
    {
      assert RepAt(mem, f, 0, ptr) && mem[ptr := mem[ptr].(dtor := f[ptr].dtor)] == mem;
      DtorRep(mem, f, ptr, destructor);
      mem := mem[ptr := mem[ptr].(dtor := destructor)];
      SetDtorInv(f, rank, ptr, destructor);
      f := SetDtor(f, ptr, destructor);
    }

    // talloc_reference. The program does not check whether ptr owns the context; the links are
    // right in any case, and the allocator stays valid exactly when it does not.
    method Reference(context: Ptr, ptr: Ptr, block: Ptr, junk: Chunk) returns (r: Ptr)
      requires Valid() && block !in mem && (ptr == 0 || (ptr in f && f[ptr].role.Plain?))
      requires context == 0 || (context in f && f[context].role.Plain?)
      modifies this
      ensures ptr == 0 || block == 0 ==> r == 0 && f == old(f) && Valid()
      ensures ptr != 0 && block != 0 ==>
        && r == ptr && f == AddRef(old(f), block, context, ptr, HANDLE_SIZE) && Rep(mem, f, 0)
        && (Valid() <==> context == 0 || !Reaches(old(f), ptr, context))
    {
      if ptr == 0 { return 0; }
      ghost var f0, r0 := f, rank;
      var handle := Alloc(context, HANDLE_SIZE, block, junk);
      if handle == 0 { return 0; }
      if context == 0 || !Reaches(f0, ptr, context) {
        AddRefInv(f0, r0, block, context, ptr, HANDLE_SIZE);
      } else {
        AddRefAcyclicIff(f0, r0, block, context, ptr, HANDLE_SIZE);
      }
      AttachHandle(handle, ptr, RefRank(f0, r0, block, context, ptr));
      if Inv(f, rank) { RankedAcyclic(f, rank); }
      r := mem[handle].hptr;
    }

    // The link updates at the end of talloc_reference.
    method AttachLinks(handle: Ptr, ptr: Ptr, ghost s: seq<Ptr>)
      requires handle in mem && ptr in mem && handle != ptr && 0 !in mem && handle !in s && ptr !in s
      requires RefLinks(mem, ptr, s)
      modifies this`mem
      ensures IsRefPush(old(mem), mem, ptr, s, handle) && handle in mem && mem[handle].hptr == ptr
    {
      if s != [] { assert RefLinkAt(mem, s, 0) && s[0] in s; }
      mem := mem[handle := mem[handle].(dtor := RefDtor)];
      mem := mem[handle := mem[handle].(hptr := ptr)];
      if mem[ptr].refs == 0 {
        mem := mem[ptr := mem[ptr].(refs := handle)];
        mem := mem[handle := mem[handle].(hnext := 0, hprev := 0)];
      } else {
        mem := mem[mem[ptr].refs := mem[mem[ptr].refs].(hprev := handle)];
        mem := mem[handle := mem[handle].(hnext := mem[ptr].refs)];
        mem := mem[handle := mem[handle].(hprev := 0)];
        mem := mem[ptr := mem[ptr].(refs := handle)];
      }
    }

    // The end of talloc_reference: destructor, target and place in the target's list.
    method AttachHandle(handle: Ptr, ptr: Ptr, ghost r: map<Ptr, nat>)
      requires Valid() && handle in f && ptr in f && handle != ptr && f[ptr].role.Plain?
      requires f[handle].kids == [] && f[handle].refs == [] && f[handle].role.Plain?
      modifies this
      ensures Rep(mem, f, 0) && f == MakeRef(old(f), handle, ptr) && rank == r
      ensures handle in mem && mem[handle].hptr == ptr
    {
      ghost var was := mem;
      ghost var s := f[ptr].refs;
      assert RepAt(mem, f, 0, ptr) && RefAt(f, ptr) && RepAt(mem, f, 0, handle) && 0 !in mem;
      assert handle !in s;
      AttachLinks(handle, ptr, s);
      RefPushRep(was, mem, f, rank, ptr, handle);
      f, rank := MakeRef(f, handle, ptr), r;
    }

    // ---------------------------------------------------------------- giving up an owner

    // The search loop of talloc_unreference.
    method FindHolder(context: Ptr, ptr: Ptr) returns (h: Ptr)
      requires Valid() && ptr in f
      ensures h == FirstHeldBy(f, f[ptr].refs, context)
    {
      ghost var s := f[ptr].refs;
      ghost var i: nat := 0;
      assert RepAt(mem, f, 0, ptr) && RefAt(f, ptr) && 0 !in f;
      h := mem[ptr].refs;
      while h != 0
        invariant i <= |s| && h == At(s, i)
        invariant FirstHeldBy(f, s, context) == FirstHeldBy(f, s[i..], context)
        decreases |s| - i
      {
        assert h == s[i] && h in s && RefLinkAt(mem, s, i);
        assert s[i..][0] == s[i] && s[i..][1..] == s[i + 1..];
        var p := ParentChunk(h);
        if p == context { return h; }
        h := mem[h].hnext;
        i := i + 1;
      }
      assert s[i..] == [];
    }

    // talloc_unreference
    method Unreference(context: Ptr, ptr: Ptr) returns (rc: int)
      requires Valid() && ptr in f
      modifies this
      ensures Valid() && rank == old(rank)
      ensures var h := FirstHeldBy(old(f), old(f)[ptr].refs, context);
        if h == 0 then rc == -1 && f == old(f) && mem == old(mem)
        else rc == 0 && RefAt(old(f), ptr) && h in old(f) && old(f)[h].role.Handle? && f == DropOne(old(f), h)
    {
      var h := FindHolder(context, ptr);
      if h == 0 { return -1; }
      ghost var f0 := f;
      assert RefAt(f, ptr) && RefAt(f, h) && RepAt(mem, f, 0, h);
      assert mem[h := mem[h].(dtor := RefDtor)] == mem;
      DetachHandle(h);
      ghost var g := f;
      FreeDetached(g, rank, h);
      var _ := TallocFree(h);
      rc := 0;
    }

    // talloc_unlink
    method Unlink(context: Ptr, ptr: Ptr) returns (rc: int)
      requires Valid() && (ptr == 0 || (ptr in f && f[ptr].role.Plain?))
      requires context == 0 || context in f
      modifies this
      ensures Valid() && rank == old(rank)
      ensures ptr == 0 ==> rc == -1 && f == old(f)
      ensures ptr != 0 && old(f)[ptr].refs != [] ==>
        f == Disown(old(f), context, ptr) && (rc == 0 <==> context in Owners(old(f), ptr))
      ensures ptr != 0 && old(f)[ptr].refs == [] && old(f)[ptr].up == context ==>
        Free(old(f), rank, ptr) == (f, rc == 0)
      ensures ptr != 0 && old(f)[ptr].refs == [] && old(f)[ptr].up != context ==> rc == -1 && f == old(f)
    {
      if ptr == 0 { return -1; }
      ghost var f0 := f;
      if f[ptr].refs != [] { DisownOwners(f, rank, context, ptr); }
      var u := Unreference(context, ptr);
      if u == 0 { return 0; }
      var p := ParentChunk(ptr);
      if p != context { return -1; }
      assert RepAt(mem, f, 0, ptr) && RefAt(f, ptr);
      if mem[ptr].refs == 0 {
        rc := TallocFree(ptr);
        return;
      }
      var new_parent := ParentChunk(mem[ptr].refs);
      FirstIsHeld(f, f[ptr].refs);
      DisownParent(f, rank, ptr);
      DisownRank(f, rank, ptr);
      u := Unreference(new_parent, ptr);
      MoveTo(new_parent, ptr);
      rc := 0;
    }

    // ---------------------------------------------------------------- moving

    // talloc_steal. The program does not check whether ptr owns its new parent; the links are right
    // in any case, and the allocator stays valid exactly when it does not.
    method TallocSteal(new_ctx: Ptr, ptr: Ptr) returns (r: Ptr)
      requires Valid() && (ptr == 0 || ptr in f)
      requires new_ctx == 0 || new_ctx == ptr || (new_ctx in f && f[new_ctx].role.Plain?)
      modifies this
      ensures r == ptr && (ptr == 0 ==> f == old(f) && Valid())
      ensures ptr != 0 ==>
        && TreeAt(old(f), ptr) && f == Steal(old(f), new_ctx, ptr) && Rep(mem, f, 0)
        && (Valid() <==> new_ctx == 0 || new_ctx == ptr || !Reaches(old(f), ptr, new_ctx))
    {
      if ptr == 0 { return 0; }
      ghost var f0, r0 := f, rank;
      if new_ctx != 0 && new_ctx != ptr {
        if !Reaches(f, ptr, new_ctx) {
          RaiseInv(f, rank, new_ctx, ptr);
          rank := Raise(f, rank, new_ctx, ptr);
        }
        StealAcyclic(f0, r0, new_ctx, ptr);
      }
      MoveTo(new_ctx, ptr);
      if Inv(f, rank) { RankedAcyclic(f, rank); }
      r := ptr;
    }

    // _talloc_realloc. `moved` is what realloc returns: NULL, the same block, or a new one.
    method Realloc(context: Ptr, ptr: Ptr, size: nat, moved: Ptr, junk: Chunk) returns (r: Ptr)
      requires Valid() && (ptr == 0 || (ptr in f && f[ptr].role.Plain?))
      requires ptr == 0 && 0 < size < MAX_TALLOC_SIZE ==>
        context == 0 || (context in f && f[context].role.Plain?)
      requires moved !in mem || (ptr != 0 && moved == ptr)
      modifies this
      ensures Valid()
      ensures size == 0 ==> r == 0 && (if ptr == 0 then f == old(f) else f == Free(old(f), old(rank), ptr).0)
      ensures size >= MAX_TALLOC_SIZE ==> r == 0 && f == old(f)
      ensures 0 < size < MAX_TALLOC_SIZE && ptr == 0 ==>
        r == moved && f == if moved == 0 then old(f) else AddLeaf(old(f), moved, context, size)
      ensures 0 < size < MAX_TALLOC_SIZE && ptr != 0 ==>
        if old(f)[ptr].refs != [] || moved == 0 then r == 0 && f == old(f)
        else r == moved && f == Rename(old(f), ptr, moved, size)
    {
      if size == 0 {
        var _ := TallocFree(ptr);
        return 0;
      }
      if size >= MAX_TALLOC_SIZE { return 0; }
      if ptr == 0 {
        r := Alloc(context, size, moved, junk);
        return;
      }
      assert RepAt(mem, f, 0, ptr) && RefAt(f, ptr);
      if mem[ptr].refs != 0 { assert f[ptr].refs != []; return 0; }
      if moved == 0 { return 0; }
      MoveBlock(ptr, moved, size);
      r := moved;
    }

    // The part of _talloc_realloc after realloc has succeeded.
    method MoveBlock(ptr: Ptr, new_ptr: Ptr, size: nat)
      requires Valid() && ptr in f && f[ptr].role.Plain? && f[ptr].refs == []
      requires new_ptr != 0 && (new_ptr !in mem || new_ptr == ptr)
      modifies this
      ensures Valid() && f == Rename(old(f), ptr, new_ptr, size)
    {
      ghost var m0 := mem;
      forall x | x in f ensures LinksTo(mem, x, ptr) { OnlyNeighbours(mem, f, rank, ptr, x); }
      LinksLive(mem, f, rank, ptr);
      RelinkBlock(ptr, new_ptr, size);
      RelinkMoves(m0, mem, ptr, new_ptr, size);
      if new_ptr == ptr {
        SizeRep(m0, f, ptr, size);
        RenameInPlace(f, rank, ptr, size);
        f := f[ptr := f[ptr].(size := size)];
      } else {
        MoveRep(m0, mem, f, ptr, new_ptr, size);
        RenameInv(f, rank, ptr, new_ptr, size);
        rank := rank[new_ptr := rank[ptr]];
        f := Rename(f, ptr, new_ptr, size);
      }
    }

    // The pointer updates of a moving realloc.
    method RelinkBlock(ptr: Ptr, new_ptr: Ptr, size: nat)
      requires ptr in mem && 0 !in mem && new_ptr != 0 && (new_ptr !in mem || new_ptr == ptr)
      requires Neighbour(mem, ptr, mem[ptr].parent) && Neighbour(mem, ptr, mem[ptr].child)
      requires Neighbour(mem, ptr, mem[ptr].prev) && Neighbour(mem, ptr, mem[ptr].next)
      modifies this`mem
      ensures IsRelinked(old(mem), mem, ptr, new_ptr, size)
    {
      ghost var m0 := mem;
      var tc := mem[ptr];
      mem := (mem - {ptr})[new_ptr := tc];
      ghost var m1 := mem;
      RelinkFamily(tc.parent, tc.child, new_ptr);
      ghost var m2 := mem;
      RelinkSiblings(tc.prev, tc.next, new_ptr);
      ghost var m3 := mem;
      mem := mem[new_ptr := mem[new_ptr].(size := size)];
      Relinked(m0, m1, m2, m3, mem, ptr, new_ptr, size);
    }

    method RelinkFamily(parent: Ptr, child: Ptr, new_ptr: Ptr)
      requires (parent == 0 || parent in mem) && (child == 0 || child in mem) && 0 !in mem
      modifies this`mem
      ensures mem.Keys == old(mem).Keys
      ensures forall x {:trigger mem[x]} :: x in mem ==> FamilyAt(old(mem)[x], mem[x], x, parent, child, new_ptr)
    {
      if parent != 0 { mem := mem[parent := mem[parent].(child := new_ptr)]; }
      if child != 0 { mem := mem[child := mem[child].(parent := new_ptr)]; }
    }

    method RelinkSiblings(prev: Ptr, next: Ptr, new_ptr: Ptr)
      requires (prev == 0 || prev in mem) && (next == 0 || next in mem) && 0 !in mem
      modifies this`mem
      ensures mem.Keys == old(mem).Keys
      ensures forall x {:trigger mem[x]} :: x in mem ==> SiblingAt(old(mem)[x], mem[x], x, prev, next, new_ptr)
    {
      if prev != 0 { mem := mem[prev := mem[prev].(next := new_ptr)]; }
      if next != 0 { mem := mem[next := mem[next].(prev := new_ptr)]; }
    }

    // ---------------------------------------------------------------- totals

    // talloc_total_size and talloc_total_blocks: the same recursion with a different weight
    method TotalOf(m: Measure, ptr: Ptr) returns (total: nat)
      requires Valid() && ptr in f
      ensures total == Total(f, rank, m, ptr)
      decreases if ptr in rank then rank[ptr] else 0
    {
      KidsBelow(f, rank, ptr);
      assert RepAt(mem, f, 0, ptr) && 0 !in f;
      ghost var ks := f[ptr].kids;
      ghost var top := rank[ptr];
      ghost var i: nat := 0;
      total := if m.Bytes? then mem[ptr].size else 1;
      var c := mem[ptr].child;
      while c != 0
        invariant i <= |ks| && c == At(ks, i)
        invariant Siblings(f, rank, ks[i..], top)
        invariant total + TotalSeq(f, rank, m, ks[i..], top) == Total(f, rank, m, ptr)
        decreases |ks| - i
      {
        assert c == ks[i] && c in ks && KidAt(mem, ptr, ks, i);
        assert ks[i..][0] == ks[i] && ks[i..][1..] == ks[i + 1..];
        var t := TotalOf(m, c);
        total := total + t;
        c := mem[c].next;
        i := i + 1;
      }
      assert ks[i..] == [];
    }
  }

  // in NewOwner's terms, the parent looked up after the failed free is the one from before
  lemma FailedOwner(f: Forest, g: Forest, rank: map<Ptr, nat>, p: Ptr, c: Ptr)
    requires Inv(f, rank) && p in f && f[p].kids != [] && f[p].kids[0] == c && f[p].role.Plain?
    requires c in f && Free(f, rank, c) == (g, false)
    ensures p in g && g[p].up == f[p].up
  {
    FirstKid(f, rank, p);
    FailedFree(f, g, rank, p, c);
  }

  // the child that could not be freed goes to its new owner
  lemma Rehomed(f: Forest, g: Forest, rank: map<Ptr, nat>, p: Ptr, c: Ptr, np: Ptr)
    requires Inv(f, rank) && p in f && f[p].refs == [] && f[p].role.Plain?
    requires f[p].kids != [] && f[p].kids[0] == c && c in f && Free(f, rank, c) == (g, false)
    requires np == NewOwner(f, p, c)
    ensures c in g && TreeAt(g, c)
    ensures np == 0 || (np in g && g[np].role.Plain? && np in rank && c in rank && rank[np] > rank[c])
    ensures Steal(g, np, c) == Visit(f, rank, p)
    ensures |Steal(g, np, c)| < |f| || Handles(Steal(g, np, c)) == Handles(f)
  {
    FirstKid(f, rank, p);
    FailedFree(f, g, rank, p, c);
    AdoptInv(f, g, rank, p, c);
    NewOwnerOK(f, rank, p, c);
    StealSame(g, np, c);
    if f[c].refs == [] { SameHandles(f, Steal(g, np, c)); }
  }

  lemma LeafInv(f: Forest, rank: map<Ptr, nat>, x: Ptr, size: nat)
    requires Inv(f, rank) && x !in f && x != 0
    ensures Inv(f[x := Node(0, [], [], Plain, size, NoDtor)], Lift(f, rank, x))
  {
    AddLeafInv(f, rank, x, 0, size);
  }

  lemma FirstIsHeld(f: Forest, s: seq<Ptr>)
    requires s != [] && s[0] in f
    ensures FirstHeldBy(f, s, f[s[0]].up) == s[0]
  {
  }

  lemma DisownRank(f: Forest, rank: map<Ptr, nat>, p: Ptr)
    requires Inv(f, rank) && p in f && f[p].refs != []
    ensures f[p].refs[0] in f && f[f[p].refs[0]].role.Handle? && Inv(DropOne(f, f[p].refs[0]), rank)
    ensures var h := f[p].refs[0]; var q := f[h].up; var g := DropOne(f, h);
      p in g && (q == 0 || (q in g && g[q].role.Plain? && q in rank && p in rank && rank[q] > rank[p]))
  {
    assert RefAt(f, p);
    var h := f[p].refs[0];
    assert RefAt(f, h) && TreeAt(f, h) && RankAt(f, rank, h) && RankAt(f, rank, p);
    DropOneInv(f, rank, h);
    DropOneEffect(f, h);
    if f[h].up != 0 { assert RankAt(f, rank, f[h].up) && RefAt(f, f[h].up); }
  }

  lemma LinksLive(mem: Memory, f: Forest, rank: map<Ptr, nat>, a: Ptr)
    requires Inv(f, rank) && Rep(mem, f, 0) && a in f
    ensures Neighbour(mem, a, mem[a].parent) && Neighbour(mem, a, mem[a].child)
    ensures Neighbour(mem, a, mem[a].prev) && Neighbour(mem, a, mem[a].next)
    ensures 0 !in mem
  {
    assert RepAt(mem, f, 0, a) && TreeAt(f, a) && RankAt(f, rank, a);
    OnlyNeighbours(mem, f, rank, a, a);
    if f[a].kids != [] { assert KidAt(mem, a, f[a].kids, 0); }
    if f[a].up != 0 {
      var i := KidPlace(mem, f, rank, a);
      var s := f[f[a].up].kids;
      assert KidAt(mem, f[a].up, s, i);
      if i > 0 { assert KidAt(mem, f[a].up, s, i - 1); Distinct(s, i - 1, i); }
      if i + 1 < |s| { assert KidAt(mem, f[a].up, s, i + 1); Distinct(s, i + 1, i); }
    }
  }

  predicate LiveOrNull(mem: Memory, x: Ptr) { x == 0 || x in mem }

  /** No link of a live chunk reaches a freed one, and links are mutual: a first child names its
      parent, siblings name each other, and so do the handles in the list of their target, whose
      first one the target names. */
  lemma NoDangling(mem: Memory, f: Forest, rank: map<Ptr, nat>, a: Ptr)
    requires Inv(f, rank) && Rep(mem, f, 0) && a in mem
    ensures LiveOrNull(mem, mem[a].parent) && LiveOrNull(mem, mem[a].child) && LiveOrNull(mem, mem[a].refs)
    ensures LiveOrNull(mem, mem[a].prev) && LiveOrNull(mem, mem[a].next) && 0 !in mem
    ensures mem[a].child != 0 ==> mem[mem[a].child].parent == a && mem[mem[a].child].prev == 0
    ensures mem[a].next != 0 ==> mem[mem[a].next].prev == a && mem[mem[a].next].parent == 0
    ensures mem[a].prev != 0 ==> mem[mem[a].prev].next == a && mem[a].parent == 0
    ensures f[a].role.Handle? ==> mem[a].hptr in mem && LiveOrNull(mem, mem[a].hnext) && LiveOrNull(mem, mem[a].hprev)
    ensures f[a].role.Handle? && mem[a].hnext != 0 ==>
      mem[mem[a].hnext].hprev == a && mem[mem[a].hnext].hptr == mem[a].hptr
    ensures f[a].role.Handle? ==>
      if mem[a].hprev != 0 then mem[mem[a].hprev].hnext == a else mem[mem[a].hptr].refs == a
    ensures mem[a].refs != 0 ==> mem[mem[a].refs].hptr == a && mem[mem[a].refs].hprev == 0
  {
    LinksLive(mem, f, rank, a);
    FamilyMutual(mem, f, rank, a);
    HandlesMutual(mem, f, rank, a);
  }

  lemma HandlesMutual(mem: Memory, f: Forest, rank: map<Ptr, nat>, a: Ptr)
    requires Inv(f, rank) && Rep(mem, f, 0) && a in mem
    ensures LiveOrNull(mem, mem[a].refs)
    ensures mem[a].refs != 0 ==> mem[mem[a].refs].hptr == a && mem[mem[a].refs].hprev == 0
    ensures f[a].role.Handle? ==>
      && mem[a].hptr in mem && LiveOrNull(mem, mem[a].hnext) && LiveOrNull(mem, mem[a].hprev)
      && (mem[a].hnext != 0 ==> mem[mem[a].hnext].hprev == a && mem[mem[a].hnext].hptr == mem[a].hptr)
      && (if mem[a].hprev != 0 then mem[mem[a].hprev].hnext == a else mem[mem[a].hptr].refs == a)
  {
    assert RepAt(mem, f, 0, a) && RefAt(f, a);
    if f[a].refs != [] {
      var h := f[a].refs[0];
      assert h in f[a].refs && RefLinkAt(mem, f[a].refs, 0);
      assert RefAt(f, h) && RepAt(mem, f, 0, h);
    }
    if f[a].role.Handle? {
      var t := f[a].role.target;
      assert RefAt(f, t) && RepAt(mem, f, 0, t);
      var i := Index(f[t].refs, a);
      assert RefLinkAt(mem, f[t].refs, i);
      if i > 0 { assert RefLinkAt(mem, f[t].refs, i - 1); }
      if i + 1 < |f[t].refs| {
        var n := f[t].refs[i + 1];
        assert n in f[t].refs && RefLinkAt(mem, f[t].refs, i + 1);
        assert RefAt(f, n) && RepAt(mem, f, 0, n);
      }
    }
  }

  lemma FamilyMutual(mem: Memory, f: Forest, rank: map<Ptr, nat>, a: Ptr)
    requires Inv(f, rank) && Rep(mem, f, 0) && a in mem
    ensures mem[a].child != 0 ==> mem[a].child in mem && mem[mem[a].child].parent == a && mem[mem[a].child].prev == 0
    ensures mem[a].next != 0 ==> mem[a].next in mem && mem[mem[a].next].prev == a && mem[mem[a].next].parent == 0
    ensures mem[a].prev != 0 ==> mem[a].prev in mem && mem[mem[a].prev].next == a && mem[a].parent == 0
  {
    assert RepAt(mem, f, 0, a) && TreeAt(f, a);
    if f[a].kids != [] { assert KidAt(mem, a, f[a].kids, 0); }
    if f[a].up != 0 {
      var i := KidPlace(mem, f, rank, a);
      var s := f[f[a].up].kids;
      assert KidAt(mem, f[a].up, s, i);
      if i > 0 { assert KidAt(mem, f[a].up, s, i - 1); }
      if i + 1 < |s| { assert KidAt(mem, f[a].up, s, i + 1); }
    }
  }

  lemma HandlePlace(mem: Memory, f: Forest, rank: map<Ptr, nat>, h: Ptr) returns (s: seq<Ptr>, i: nat)
    requires Inv(f, rank) && Rep(mem, f, 0) && h in f && f[h].role.Handle?
    ensures f[h].role.target in f && s == f[f[h].role.target].refs && Place(f[h].role.target, s, i, h)
    ensures RefLinks(mem, f[h].role.target, s) && mem[h].hptr == f[h].role.target
  {
    assert RefAt(f, h) && RepAt(mem, f, 0, h) && RankAt(f, rank, h);
    var t := f[h].role.target;
    assert RepAt(mem, f, 0, t) && RefAt(f, t);
    s := f[t].refs;
    i := Index(s, h);
  }

  lemma RefLinksUntouched(mem: Memory, now: Memory, q: Ptr, t: seq<Ptr>)
    requires mem.Keys == now.Keys && forall x :: x in mem ==> now[x] == mem[x].(dtor := now[x].dtor)
    requires RefLinks(mem, q, t)
    ensures RefLinks(now, q, t)
  {
    forall j | 0 <= j < |t| ensures RefLinkAt(now, t, j) {
      assert RefLinkAt(mem, t, j);
    }
  }

  lemma RefCutAgain(m0: Memory, m1: Memory, m2: Memory, p: Ptr, s: seq<Ptr>, i: nat)
    requires m1.Keys == m0.Keys && forall x :: x in m0 ==> m1[x] == m0[x].(dtor := m1[x].dtor)
    requires i < |s| && IsRefCut(m1, m2, p, s, i)
    ensures IsRefCut(m0, m2, p, s, i)
  {
    forall x | x in m0 ensures RefCutAt(m0[x], m2[x], x, p, s, i) {
      assert RefCutAt(m1[x], m2[x], x, p, s, i);
    }
  }

  // freeing a handle that has left its target's list just removes it
  lemma FreeDetached(g: Forest, rank: map<Ptr, nat>, h: Ptr)
    requires Inv(g, rank) && h in g && g[h].kids == [] && g[h].refs == [] && g[h].dtor == NoDtor
    ensures TreeAt(g, h) && Free(g, rank, h) == (Delete(g, h), true)
  {
    assert TreeAt(g, h) && RefAt(g, h);
    assert SetDtor(g, h, NoDtor) == g;
  }

  lemma DisarmedHandle(f: Forest, h: Ptr)
    requires WF(f) && h in f && f[h].role.Handle?
    ensures RefAt(f, h) && SetDtor(DropRef(f, h, InProgress), h, NoDtor) == Disarm(f, h)
    ensures DropRef(f, h, InProgress).Keys == f.Keys
    ensures forall x :: x in f && x != h ==> DropRef(f, h, InProgress)[x].role == f[x].role
    ensures DropRef(f, h, InProgress)[h].role.Plain?
  {
    assert RefAt(f, h);
  }

  lemma FewerHandles(f: Forest, g: Forest, h: Ptr)
    requires g.Keys == f.Keys && h in f && f[h].role.Handle? && g[h].role.Plain?
    requires forall x :: x in f && x != h ==> g[x].role == f[x].role
    ensures Handles(g) < Handles(f)
  {
    assert HandleSet(g) <= HandleSet(f) - {h};
    SubsetSize(HandleSet(g), HandleSet(f) - {h});
  }

  lemma SameHandles(f: Forest, g: Forest)
    requires g.Keys == f.Keys && forall x :: x in f ==> g[x].role == f[x].role
    ensures Handles(g) == Handles(f)
  {
    assert HandleSet(g) == HandleSet(f);
  }
}
