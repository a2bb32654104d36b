/** How pointer-linked chunks represent a forest, and what the list macros of talloc.c do to
    that representation. */
module TallocLinks {
  import opened Forest
  import opened ForestGrowth

  // struct talloc_chunk; the last three fields are the payload of a reference handle
  datatype Chunk = Chunk(next: Ptr, prev: Ptr, parent: Ptr, child: Ptr, refs: Ptr,
                         size: nat, dtor: Dtor,
                         hnext: Ptr, hprev: Ptr, hptr: Ptr)

  type Memory = map<Ptr, Chunk>

  // ---------------------------------------------------------------- representation

  function At(s: seq<Ptr>, i: int): (x: Ptr)
    ensures x == 0 || x in s
  {
    if 0 <= i < |s| then s[i] else 0
  }

  // the sibling links of the member of s at position i
  predicate KidAt(mem: Memory, p: Ptr, s: seq<Ptr>, i: int)
    requires 0 <= i < |s|
  {
    && s[i] in mem && mem[s[i]].next == At(s, i + 1) && mem[s[i]].prev == At(s, i - 1)
    && mem[s[i]].parent == if i == 0 then p else 0
  }

  // The children of p form a doubly linked list whose first member alone holds the parent.
  ghost predicate KidLinks(mem: Memory, p: Ptr, s: seq<Ptr>) {
    && p in mem && mem[p].child == At(s, 0)
    && forall i {:trigger KidAt(mem, p, s, i)} :: 0 <= i < |s| ==> KidAt(mem, p, s, i)
  }

  predicate RefLinkAt(mem: Memory, s: seq<Ptr>, i: int)
    requires 0 <= i < |s|
  {
    s[i] in mem && mem[s[i]].hnext == At(s, i + 1) && mem[s[i]].hprev == At(s, i - 1)
  }

  // The handles on p form a doubly linked list.
  ghost predicate RefLinks(mem: Memory, p: Ptr, s: seq<Ptr>) {
    && p in mem && mem[p].refs == At(s, 0)
    && forall i {:trigger RefLinkAt(mem, s, i)} :: 0 <= i < |s| ==> RefLinkAt(mem, s, i)
  }

  // The links of `loose`, a chunk off every list, are not constrained.
  ghost predicate RepAt(mem: Memory, f: Forest, loose: Ptr, p: Ptr)
    requires p in f
  {
    && KidLinks(mem, p, f[p].kids)
    && RefLinks(mem, p, f[p].refs)
    && (f[p].up == 0 && p != loose ==> mem[p].next == 0 && mem[p].prev == 0 && mem[p].parent == 0)
    && mem[p].size == f[p].size && mem[p].dtor == f[p].dtor
    && (f[p].role.Handle? ==> mem[p].hptr == f[p].role.target)
  }

  ghost predicate Rep(mem: Memory, f: Forest, loose: Ptr) {
    mem.Keys == f.Keys && forall p {:trigger RepAt(mem, f, loose, p)} :: p in f ==> RepAt(mem, f, loose, p)
  }

  // ---------------------------------------------------------------- places in sibling lists

  function Index(s: seq<Ptr>, x: Ptr): (i: nat)
    requires x in s
    ensures i < |s| && s[i] == x
  {
    if s[0] == x then 0 else 1 + Index(s[1..], x)
  }

  // s lists pairwise different chunks, not p itself, and c is at position i
  ghost predicate Place(p: Ptr, s: seq<Ptr>, i: nat, c: Ptr) {
    && p != 0 && 0 !in s && p !in s && NoDup(s)
    && i < |s| && s[i] == c
  }

  lemma KidPlace(mem: Memory, f: Forest, rank: map<Ptr, nat>, c: Ptr) returns (i: nat)
    requires Inv(f, rank) && Rep(mem, f, 0) && c in f && f[c].up != 0
    ensures f[c].up in f && Place(f[c].up, f[f[c].up].kids, i, c) && KidLinks(mem, f[c].up, f[f[c].up].kids)
  {
    var p := f[c].up;
    assert TreeAt(f, c) && RepAt(mem, f, 0, p) && TreeAt(f, p) && RankAt(f, rank, p);
    i := Index(f[p].kids, c);
  }

  lemma Distinct(s: seq<Ptr>, i: nat, j: nat)
    requires NoDup(s) && i < |s| && j < |s| && i != j
    ensures s[i] != s[j]
  {
    if i < j { NoDupDistinct(s, i, j); } else { NoDupDistinct(s, j, i); }
  }

  // the fields that no sibling list uses
  predicate SameElse(a: Chunk, b: Chunk) {
    && a.refs == b.refs && a.size == b.size && a.dtor == b.dtor
    && a.hnext == b.hnext && a.hprev == b.hprev && a.hptr == b.hptr
  }

  // x after the member at position i has been cut out of the list s of children of p;
  // the links of that member itself are left open
  predicate CutAt(a: Chunk, b: Chunk, x: Ptr, p: Ptr, s: seq<Ptr>, i: nat)
    requires i < |s|
  {
    && SameElse(a, b)
    && b.child == (if x == p && i == 0 then At(s, 1) else a.child)
    && (x != s[i] ==>
          && b.next == (if x == At(s, i - 1) then At(s, i + 1) else a.next)
          && b.prev == (if x == At(s, i + 1) then At(s, i - 1) else a.prev)
          && b.parent == (if x == At(s, i + 1) && i == 0 then p else a.parent))
  }

  ghost predicate IsCut(mem: Memory, now: Memory, p: Ptr, s: seq<Ptr>, i: nat)
    requires i < |s|
  {
    mem.Keys == now.Keys && forall x {:trigger now[x]} :: x in mem ==> CutAt(mem[x], now[x], x, p, s, i)
  }

  lemma CutSelf(mem: Memory, now: Memory, p: Ptr, s: seq<Ptr>, i: nat, c: Ptr)
    requires Place(p, s, i, c) && KidLinks(mem, p, s) && IsCut(mem, now, p, s, i)
    ensures KidLinks(now, p, Without(s, c))
  {
    WithoutAt(s, c, i);
    var t := s[..i] + s[i + 1..];
    assert KidAt(mem, p, s, i);
    forall j | 0 <= j < |t| ensures KidAt(now, p, t, j) {
      CutMember(mem, now, p, s, i, c, j);
    }
  }

  lemma CutMember(mem: Memory, now: Memory, p: Ptr, s: seq<Ptr>, i: nat, c: Ptr, j: nat)
    requires Place(p, s, i, c) && KidLinks(mem, p, s) && IsCut(mem, now, p, s, i) && j < |s| - 1
    ensures KidAt(now, p, s[..i] + s[i + 1..], j)
  {
    var t := s[..i] + s[i + 1..];
    var k := if j < i then j else j + 1;
    assert t[j] == s[k] && KidAt(mem, p, s, k);
    Distinct(s, k, i);
    if 0 <= i - 1 && k != i - 1 { Distinct(s, k, i - 1); }
    if i + 1 < |s| && k != i + 1 { Distinct(s, k, i + 1); }
    assert CutAt(mem[s[k]], now[s[k]], s[k], p, s, i);
  }

  lemma CutOther(mem: Memory, now: Memory, p: Ptr, s: seq<Ptr>, i: nat, q: Ptr, t: seq<Ptr>)
    requires i < |s| && IsCut(mem, now, p, s, i)
    requires KidLinks(mem, q, t) && q != p && 0 !in t && forall y :: y in t ==> y !in s
    ensures KidLinks(now, q, t)
  {
    assert CutAt(mem[q], now[q], q, p, s, i);
    forall j | 0 <= j < |t| ensures KidAt(now, q, t, j) {
      assert KidAt(mem, q, t, j) && t[j] in t;
      assert CutAt(mem[t[j]], now[t[j]], t[j], p, s, i);
    }
  }

  // Lists of references are untouched by work on sibling links.
  lemma RefsUntouched(mem: Memory, now: Memory, q: Ptr, t: seq<Ptr>)
    requires mem.Keys <= now.Keys && forall x {:trigger now[x]} :: x in mem ==> SameElse(mem[x], now[x])
    requires RefLinks(mem, q, t)
    ensures RefLinks(now, q, t)
  {
    forall j | 0 <= j < |t| ensures RefLinkAt(now, t, j) {
      assert RefLinkAt(mem, t, j);
    }
  }

  lemma CutRep(mem: Memory, now: Memory, f: Forest, rank: map<Ptr, nat>, i: nat, c: Ptr)
    requires Inv(f, rank) && Rep(mem, f, 0) && c in f && f[c].up != 0 && f[c].up in f
    requires Place(f[c].up, f[f[c].up].kids, i, c) && IsCut(mem, now, f[c].up, f[f[c].up].kids, i)
    ensures Rep(now, Unhook(f, c), c)
  {
    var g := Unhook(f, c);
    forall q | q in g ensures RepAt(now, g, c, q) {
      CutRepAt(mem, now, f, rank, i, c, q);
    }
  }

  lemma CutRepAt(mem: Memory, now: Memory, f: Forest, rank: map<Ptr, nat>, i: nat, c: Ptr, q: Ptr)
    requires Inv(f, rank) && Rep(mem, f, 0) && c in f && f[c].up != 0 && f[c].up in f && q in f
    requires Place(f[c].up, f[f[c].up].kids, i, c) && IsCut(mem, now, f[c].up, f[f[c].up].kids, i)
    ensures RepAt(now, Unhook(f, c), c, q)
  {
    var p := f[c].up;
    var s := f[p].kids;
    assert RepAt(mem, f, 0, p) && RepAt(mem, f, 0, q) && TreeAt(f, p) && TreeAt(f, q);
    assert CutAt(mem[q], now[q], q, p, s, i);
    RefsUntouched(mem, now, q, f[q].refs);
    if q == p {
      CutSelf(mem, now, p, s, i, c);
    } else {
      CutOther(mem, now, p, s, i, q, f[q].kids);
    }
    if f[q].up == 0 { assert q !in s; }
  }

  // ---------------------------------------------------------------- hooking a chunk

  // x after the chunk c, off every list, has become the first child of p
  predicate PushAt(a: Chunk, b: Chunk, x: Ptr, p: Ptr, s: seq<Ptr>, c: Ptr) {
    && SameElse(a, b)
    && b.child == (if x == p then c else a.child)
    && b.next == (if x == c then At(s, 0) else a.next)
    && b.prev == (if x == c then 0 else if x == At(s, 0) then c else a.prev)
    && b.parent == (if x == c then p else if x == At(s, 0) then 0 else a.parent)
  }

  ghost predicate IsPush(mem: Memory, now: Memory, p: Ptr, s: seq<Ptr>, c: Ptr) {
    mem.Keys == now.Keys && forall x {:trigger now[x]} :: x in mem ==> PushAt(mem[x], now[x], x, p, s, c)
  }

  lemma PushSelf(mem: Memory, now: Memory, p: Ptr, s: seq<Ptr>, c: Ptr)
    requires KidLinks(mem, p, s) && IsPush(mem, now, p, s, c)
    requires c in mem && c != 0 && p != 0 && c != p && c !in s && p !in s && 0 !in s && NoDup(s)
    ensures KidLinks(now, p, [c] + s)
  {
    var t := [c] + s;
    assert PushAt(mem[p], now[p], p, p, s, c);
    forall j | 0 <= j < |t| ensures KidAt(now, p, t, j) {
      if j > 0 {
        assert KidAt(mem, p, s, j - 1) && t[j] == s[j - 1] && s[j - 1] in s;
        if j > 1 { Distinct(s, 0, j - 1); }
      }
      assert PushAt(mem[t[j]], now[t[j]], t[j], p, s, c);
    }
  }

  lemma PushOther(mem: Memory, now: Memory, p: Ptr, s: seq<Ptr>, c: Ptr, q: Ptr, t: seq<Ptr>)
    requires IsPush(mem, now, p, s, c)
    requires KidLinks(mem, q, t) && q != p && 0 !in t && c !in t && forall y :: y in t ==> y !in s
    ensures KidLinks(now, q, t)
  {
    assert PushAt(mem[q], now[q], q, p, s, c);
    forall j | 0 <= j < |t| ensures KidAt(now, q, t, j) {
      assert KidAt(mem, q, t, j) && t[j] in t;
      assert PushAt(mem[t[j]], now[t[j]], t[j], p, s, c);
    }
  }

  lemma PushRep(mem: Memory, now: Memory, f: Forest, rank: map<Ptr, nat>, p: Ptr, c: Ptr)
    requires Inv(f, rank) && Rep(mem, f, c) && c in f && p in f && c != p && f[c].up == 0
    requires IsPush(mem, now, p, f[p].kids, c)
    ensures Rep(now, Hook(f, p, c), 0)
  {
    var g := Hook(f, p, c);
    forall q | q in g ensures RepAt(now, g, 0, q) {
      PushRepAt(mem, now, f, rank, p, c, q);
    }
  }

  lemma PushRepAt(mem: Memory, now: Memory, f: Forest, rank: map<Ptr, nat>, p: Ptr, c: Ptr, q: Ptr)
    requires Inv(f, rank) && Rep(mem, f, c) && c in f && p in f && c != p && f[c].up == 0 && q in f
    requires IsPush(mem, now, p, f[p].kids, c)
    ensures RepAt(now, Hook(f, p, c), 0, q)
  {
    var s := f[p].kids;
    assert RepAt(mem, f, c, p) && RepAt(mem, f, c, q) && TreeAt(f, p) && TreeAt(f, q) && RankAt(f, rank, p);
    assert PushAt(mem[q], now[q], q, p, s, c);
    RefsUntouched(mem, now, q, f[q].refs);
    if q == p {
      PushSelf(mem, now, p, s, c);
    } else {
      PushOther(mem, now, p, s, c, q, f[q].kids);
    }
    if f[q].up == 0 { assert q !in s; }
  }

  // ---------------------------------------------------------------- reference lists

  // the fields that no reference list uses, but the destructor
  predicate SameTree(a: Chunk, b: Chunk) {
    && a.next == b.next && a.prev == b.prev && a.parent == b.parent && a.child == b.child
    && a.size == b.size && a.hptr == b.hptr
  }

  lemma KidsUntouched(mem: Memory, now: Memory, q: Ptr, t: seq<Ptr>)
    requires mem.Keys <= now.Keys && forall x {:trigger now[x]} :: x in mem ==> SameTree(mem[x], now[x])
    requires KidLinks(mem, q, t)
    ensures KidLinks(now, q, t)
  {
    forall j | 0 <= j < |t| ensures KidAt(now, q, t, j) {
      assert KidAt(mem, q, t, j);
    }
  }

  // x after the handle at position i has been taken off the list s of references to p
  predicate RefCutAt(a: Chunk, b: Chunk, x: Ptr, p: Ptr, s: seq<Ptr>, i: nat)
    requires i < |s|
  {
    && SameTree(a, b)
    && b.refs == (if x == p && i == 0 then At(s, 1) else a.refs)
    && (x != s[i] ==>
          && b.hnext == (if x == At(s, i - 1) then At(s, i + 1) else a.hnext)
          && b.hprev == (if x == At(s, i + 1) then At(s, i - 1) else a.hprev))
  }

  ghost predicate IsRefCut(mem: Memory, now: Memory, p: Ptr, s: seq<Ptr>, i: nat)
    requires i < |s|
  {
    mem.Keys == now.Keys && forall x {:trigger now[x]} :: x in mem ==> RefCutAt(mem[x], now[x], x, p, s, i)
  }

  lemma RefCutSelf(mem: Memory, now: Memory, p: Ptr, s: seq<Ptr>, i: nat, c: Ptr)
    requires Place(p, s, i, c) && RefLinks(mem, p, s) && IsRefCut(mem, now, p, s, i)
    ensures RefLinks(now, p, Without(s, c))
  {
    WithoutAt(s, c, i);
    var t := s[..i] + s[i + 1..];
    assert RefCutAt(mem[p], now[p], p, p, s, i);
    forall j | 0 <= j < |t| ensures RefLinkAt(now, t, j) {
      RefCutMember(mem, now, p, s, i, c, j);
    }
  }

  lemma RefCutMember(mem: Memory, now: Memory, p: Ptr, s: seq<Ptr>, i: nat, c: Ptr, j: nat)
    requires Place(p, s, i, c) && RefLinks(mem, p, s) && IsRefCut(mem, now, p, s, i) && j < |s| - 1
    ensures RefLinkAt(now, s[..i] + s[i + 1..], j)
  {
    var t := s[..i] + s[i + 1..];
    var k := if j < i then j else j + 1;
    assert t[j] == s[k] && RefLinkAt(mem, s, k);
    Distinct(s, k, i);
    if 0 <= i - 1 && k != i - 1 { Distinct(s, k, i - 1); }
    if i + 1 < |s| && k != i + 1 { Distinct(s, k, i + 1); }
    assert RefCutAt(mem[s[k]], now[s[k]], s[k], p, s, i);
  }

  lemma RefCutOther(mem: Memory, now: Memory, p: Ptr, s: seq<Ptr>, i: nat, q: Ptr, t: seq<Ptr>)
    requires i < |s| && IsRefCut(mem, now, p, s, i)
    requires RefLinks(mem, q, t) && q != p && 0 !in t && forall y :: y in t ==> y !in s
    ensures RefLinks(now, q, t)
  {
    assert RefCutAt(mem[q], now[q], q, p, s, i);
    forall j | 0 <= j < |t| ensures RefLinkAt(now, t, j) {
      assert RefLinkAt(mem, t, j) && t[j] in t;
      assert RefCutAt(mem[t[j]], now[t[j]], t[j], p, s, i);
    }
  }

  lemma RefCutRep(mem: Memory, now: Memory, f: Forest, rank: map<Ptr, nat>, h: Ptr, d: Dtor, i: nat)
    requires Inv(f, rank) && Rep(mem, f, 0) && h in f && f[h].role.Handle? && f[h].role.target in f
    requires Place(f[h].role.target, f[f[h].role.target].refs, i, h)
    requires IsRefCut(mem, now, f[h].role.target, f[f[h].role.target].refs, i)
    requires forall x :: x in mem ==> now[x].dtor == if x == h then d else mem[x].dtor
    ensures Rep(now, DropRef(f, h, d), 0)
  {
    var p := f[h].role.target;
    var s := f[p].refs;
    var g := DropRef(f, h, d);
    assert RepAt(mem, f, 0, p) && RefAt(f, p);
    forall q | q in g ensures RepAt(now, g, 0, q) {
      assert RepAt(mem, f, 0, q) && RefAt(f, q);
      assert RefCutAt(mem[q], now[q], q, p, s, i);
      KidsUntouched(mem, now, q, f[q].kids);
      if q == p {
        RefCutSelf(mem, now, p, s, i, h);
      } else {
        RefCutOther(mem, now, p, s, i, q, f[q].refs);
      }
    }
  }

  // x after the handle c has been put at the head of the list s of references to p
  predicate RefPushAt(a: Chunk, b: Chunk, x: Ptr, p: Ptr, s: seq<Ptr>, c: Ptr) {
    && a.next == b.next && a.prev == b.prev && a.parent == b.parent && a.child == b.child && a.size == b.size
    && b.refs == (if x == p then c else a.refs)
    && b.hnext == (if x == c then At(s, 0) else a.hnext)
    && b.hprev == (if x == c then 0 else if x == At(s, 0) then c else a.hprev)
    && b.hptr == (if x == c then p else a.hptr)
    && b.dtor == (if x == c then RefDtor else a.dtor)
  }

  ghost predicate IsRefPush(mem: Memory, now: Memory, p: Ptr, s: seq<Ptr>, c: Ptr) {
    mem.Keys == now.Keys && forall x {:trigger now[x]} :: x in mem ==> RefPushAt(mem[x], now[x], x, p, s, c)
  }

  lemma RefPushLinks(mem: Memory, now: Memory, p: Ptr, s: seq<Ptr>, c: Ptr, q: Ptr, t: seq<Ptr>)
    requires IsRefPush(mem, now, p, s, c) && c in mem && c != 0
    requires RefLinks(mem, q, t) && 0 !in t && 0 !in s && c !in t && NoDup(t)
    requires if q == p then t == s else forall y :: y in t ==> y !in s
    ensures RefLinks(now, q, if q == p then [c] + t else t)
  {
    var u := if q == p then [c] + t else t;
    var o := |u| - |t|;
    assert RefPushAt(mem[q], now[q], q, p, s, c);
    forall j | 0 <= j < |u| ensures RefLinkAt(now, u, j) {
      if j >= o {
        assert RefLinkAt(mem, t, j - o) && u[j] == t[j - o] && t[j - o] in t;
        if j > o { Distinct(t, 0, j - o); }
      }
      assert RefPushAt(mem[u[j]], now[u[j]], u[j], p, s, c);
    }
  }

  lemma RefPushRep(mem: Memory, now: Memory, f: Forest, rank: map<Ptr, nat>, p: Ptr, h: Ptr)
    requires Inv(f, rank) && Rep(mem, f, 0) && h in f && p in f && h != p
    requires f[h].role.Plain? && f[h].kids == [] && f[h].refs == []
    requires IsRefPush(mem, now, p, f[p].refs, h)
    ensures Rep(now, MakeRef(f, h, p), 0)
  {
    var g := MakeRef(f, h, p);
    assert RepAt(mem, f, 0, p) && RefAt(f, p);
    forall q | q in g ensures RepAt(now, g, 0, q) {
      assert RepAt(mem, f, 0, q) && RefAt(f, q);
      assert RefPushAt(mem[q], now[q], q, p, f[p].refs, h);
      KidsSame(mem, now, q, f[q].kids);
      RefPushLinks(mem, now, p, f[p].refs, h, q, f[q].refs);
    }
  }

  lemma KidsSame(mem: Memory, now: Memory, q: Ptr, t: seq<Ptr>)
    requires mem.Keys <= now.Keys
    requires forall x {:trigger now[x]} :: x in mem ==>
      && mem[x].next == now[x].next && mem[x].prev == now[x].prev
      && mem[x].parent == now[x].parent && mem[x].child == now[x].child
    requires KidLinks(mem, q, t)
    ensures KidLinks(now, q, t)
  {
    forall j | 0 <= j < |t| ensures KidAt(now, q, t, j) {
      assert KidAt(mem, q, t, j);
    }
  }

  // ---------------------------------------------------------------- leaving the memory

  lemma GoneRep(mem: Memory, f: Forest, rank: map<Ptr, nat>, c: Ptr)
    requires Inv(f, rank) && Rep(mem, f, c) && c in f && f[c].up == 0 && f[c].kids == []
      && f[c].refs == [] && f[c].role.Plain?
    ensures Rep(mem - {c}, f - {c}, 0)
  {
    var now := mem - {c};
    var g := f - {c};
    forall q | q in g ensures RepAt(now, g, 0, q) {
      assert RepAt(mem, f, c, q) && TreeAt(f, q) && RefAt(f, q);
      forall j | 0 <= j < |f[q].kids| ensures KidAt(now, q, f[q].kids, j) {
        assert KidAt(mem, q, f[q].kids, j) && f[q].kids[j] in f[q].kids;
      }
      forall j | 0 <= j < |f[q].refs| ensures RefLinkAt(now, f[q].refs, j) {
        assert RefLinkAt(mem, f[q].refs, j) && f[q].refs[j] in f[q].refs;
      }
    }
  }

  lemma DtorRep(mem: Memory, f: Forest, c: Ptr, d: Dtor)
    requires c in mem && c in f && mem.Keys == f.Keys
    requires Rep(mem[c := mem[c].(dtor := f[c].dtor)], f, 0)
    ensures Rep(mem[c := mem[c].(dtor := d)], SetDtor(f, c, d), 0)
  {
    var m0 := mem[c := mem[c].(dtor := f[c].dtor)];
    var now := mem[c := mem[c].(dtor := d)];
    var g := SetDtor(f, c, d);
    forall q | q in g ensures RepAt(now, g, 0, q) {
      assert RepAt(m0, f, 0, q);
      KidsSame(m0, now, q, f[q].kids);
      forall j | 0 <= j < |f[q].refs| ensures RefLinkAt(now, f[q].refs, j) {
        assert RefLinkAt(m0, f[q].refs, j);
      }
    }
  }

  // Clearing the links of a chunk that is off every list completes its move to the roots.
  lemma TidyRep(mem: Memory, now: Memory, f: Forest, rank: map<Ptr, nat>, c: Ptr)
    requires Inv(f, rank) && Rep(mem, f, c) && c in f && f[c].up == 0
    requires now == mem[c := mem[c].(parent := 0, next := 0, prev := 0)]
    ensures Rep(now, f, 0)
  {
    forall q | q in f ensures RepAt(now, f, 0, q) {
      assert RepAt(mem, f, c, q) && TreeAt(f, q);
      RefsUntouched(mem, now, q, f[q].refs);
      forall j | 0 <= j < |f[q].kids| ensures KidAt(now, q, f[q].kids, j) {
        assert KidAt(mem, q, f[q].kids, j) && f[q].kids[j] in f[q].kids;
      }
    }
  }

  // A new chunk without children or references enters the memory off every list.
  lemma LeafRep(mem: Memory, f: Forest, x: Ptr, c: Chunk)
    requires WF(f) && Rep(mem, f, 0) && x !in f && c.child == 0 && c.refs == 0 && c.dtor == NoDtor
    ensures Rep(mem[x := c], f[x := Node(0, [], [], Plain, c.size, NoDtor)], x)
  {
    var now := mem[x := c];
    var g := f[x := Node(0, [], [], Plain, c.size, NoDtor)];
    forall q | q in g ensures RepAt(now, g, x, q) {
      if q != x {
        assert RepAt(mem, f, 0, q) && TreeAt(f, q) && RefAt(f, q);
        RefsUntouched(mem, now, q, f[q].refs);
        forall j | 0 <= j < |f[q].kids| ensures KidAt(now, q, f[q].kids, j) {
          assert KidAt(mem, q, f[q].kids, j);
        }
      }
    }
  }

  lemma SizeRep(mem: Memory, f: Forest, x: Ptr, size: nat)
    requires Rep(mem, f, 0) && x in f
    ensures x in mem && Rep(mem[x := mem[x].(size := size)], f[x := f[x].(size := size)], 0)
  {
    var now := mem[x := mem[x].(size := size)];
    var g := f[x := f[x].(size := size)];
    forall q | q in g ensures RepAt(now, g, 0, q) {
      assert RepAt(mem, f, 0, q);
      KidsSame(mem, now, q, f[q].kids);
      forall j | 0 <= j < |f[q].refs| ensures RefLinkAt(now, f[q].refs, j) {
        assert RefLinkAt(mem, f[q].refs, j);
      }
    }
  }
}
