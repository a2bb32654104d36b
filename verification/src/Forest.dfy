/** The abstract state of the hierarchical allocator: an ordered forest of chunks whose
    nodes may carry secondary references, together with the operations of talloc.c on it.
    The concrete, pointer-linked memory in `Talloc` is proved to represent such a forest. */
module Forest {

  // A pointer; 0 is NULL.
  type Ptr = nat

  // `InProgress` is the value -1 that marks a destructor which is running.
  datatype Dtor = NoDtor | RefDtor | User(accepts: bool) | InProgress

  // A reference handle is itself a chunk, a child of the context that holds the reference.
  datatype Role = Plain | Handle(target: Ptr)

  datatype Node = Node(up: Ptr, kids: seq<Ptr>, refs: seq<Ptr>, role: Role, size: nat, dtor: Dtor)

  type Forest = map<Ptr, Node>

  // ---------------------------------------------------------------- sequences without repetition

  predicate NoDup(s: seq<Ptr>) {
    s != [] ==> s[0] !in s[1..] && NoDup(s[1..])
  }

  // s with its element x taken out
  function Without(s: seq<Ptr>, x: Ptr): (r: seq<Ptr>)
    ensures x in s ==> |r| == |s| - 1
    ensures forall y :: y in r ==> y in s
    ensures forall y :: y in s && y != x ==> y in r
    ensures NoDup(s) ==> NoDup(r) && x !in r
  {
    if s == [] then []
    else if s[0] == x then s[1..]
    else
      var r := [s[0]] + Without(s[1..], x);
      assert r[1..] == Without(s[1..], x);
      r
  }

  lemma {:induction false} NoDupDistinct(s: seq<Ptr>, i: nat, j: nat)
    requires NoDup(s) && i < j < |s|
    ensures s[i] != s[j]
  {
    if i > 0 {
      NoDupDistinct(s[1..], i - 1, j - 1);
    } else {
      assert s[j] == s[1..][j - 1];
    }
  }

  lemma {:induction false} WithoutAt(s: seq<Ptr>, x: Ptr, i: nat)
    requires NoDup(s) && i < |s| && s[i] == x
    ensures Without(s, x) == s[..i] + s[i + 1..]
  {
    if i > 0 {
      NoDupDistinct(s, 0, i);
      WithoutAt(s[1..], x, i - 1);
      assert s[1..][..i - 1] == s[1..i] && [s[0]] + s[1..i] == s[..i];
      assert s[1..][i..] == s[i + 1..];
    }
  }

  lemma {:induction false} WithoutAbsent(s: seq<Ptr>, x: Ptr)
    requires x !in s
    ensures Without(s, x) == s
  {
    if s != [] { WithoutAbsent(s[1..], x); }
  }

  // ---------------------------------------------------------------- well-formedness

  // Every chunk is listed exactly once by its owner, and lists only chunks it owns.
  ghost predicate TreeAt(f: Forest, p: Ptr)
    requires p in f
  {
    && NoDup(f[p].kids)
    && (forall c :: c in f[p].kids ==> c in f && f[c].up == p)
    && (f[p].up != 0 ==> f[p].up in f && p in f[f[p].up].kids)
  }

  // Every handle sits exactly once on its target's list, and those lists hold nothing else.
  ghost predicate RefAt(f: Forest, p: Ptr)
    requires p in f
  {
    && NoDup(f[p].refs)
    && (forall h :: h in f[p].refs ==> h in f && f[h].role == Handle(p))
    && (f[p].role.Handle? ==>
          && f[p].role.target in f && p in f[f[p].role.target].refs
          && f[p].kids == [] && f[p].refs == [])
    && (f[p].role.Handle? <==> f[p].dtor == RefDtor)
  }

  ghost predicate WF(f: Forest) {
    && 0 !in f
    && (forall p {:trigger TreeAt(f, p)} :: p in f ==> TreeAt(f, p))
    && (forall p {:trigger RefAt(f, p)} :: p in f ==> RefAt(f, p))
  }

  // An owner ranks above what it owns, a handle above the chunk it refers to.
  ghost predicate RankAt(f: Forest, rank: map<Ptr, nat>, p: Ptr)
    requires p in f
  {
    && p in rank
    && (f[p].up != 0 ==> f[p].up in rank && rank[f[p].up] > rank[p])
    && (f[p].role.Handle? ==> f[p].role.target in rank && rank[p] > rank[f[p].role.target])
  }

  ghost predicate Ranked(f: Forest, rank: map<Ptr, nat>) {
    forall p {:trigger RankAt(f, rank, p)} :: p in f ==> RankAt(f, rank, p)
  }

  ghost predicate Inv(f: Forest, rank: map<Ptr, nat>) {
    WF(f) && Ranked(f, rank)
  }

  // ---------------------------------------------------------------- elementary operations

  function Unhook(f: Forest, c: Ptr): Forest
    requires c in f && (f[c].up != 0 ==> f[c].up in f)
  {
    var p := f[c].up;
    if p == 0 then f
    else
      var g := f[p := f[p].(kids := Without(f[p].kids, c))];
      g[c := g[c].(up := 0)]
  }

  function Hook(f: Forest, p: Ptr, c: Ptr): Forest
    requires c in f && p in f
  {
    var g := f[c := f[c].(up := p)];
    g[p := g[p].(kids := [c] + g[p].kids)]
  }

  // talloc_steal: c becomes the first child of np, or a root when np is NULL
  function Steal(f: Forest, np: Ptr, c: Ptr): Forest
    requires c in f && (f[c].up != 0 ==> f[c].up in f) && (np != 0 ==> np in f)
  {
    if np == c then f
    else if np == 0 then Unhook(f, c)
    else Hook(Unhook(f, c), np, c)
  }

  function Delete(f: Forest, c: Ptr): Forest
    requires c in f && (f[c].up != 0 ==> f[c].up in f)
  {
    Unhook(f, c) - {c}
  }

  // the handle h is taken off its target's list and becomes an ordinary chunk
  function DropRef(f: Forest, h: Ptr, d: Dtor): Forest
    requires h in f && f[h].role.Handle? && f[h].role.target in f
  {
    var t := f[h].role.target;
    var g := f[t := f[t].(refs := Without(f[t].refs, h))];
    g[h := g[h].(role := Plain, dtor := d)]
  }

  function SetDtor(f: Forest, p: Ptr, d: Dtor): Forest
    requires p in f
  {
    f[p := f[p].(dtor := d)]
  }

  // the first reference to p is given up
  function DropHead(f: Forest, p: Ptr): Forest
    requires WF(f) && p in f && f[p].refs != []
  {
    var h := f[p].refs[0];
    assert RefAt(f, p) && RefAt(f, h) && TreeAt(f, h);
    var g := DropRef(f, h, NoDtor);
    assert g[h].up == f[h].up;
    Delete(g, h)
  }

  lemma UnhookTree(f: Forest, c: Ptr)
    requires WF(f) && c in f
    ensures TreeAt(f, c)
    ensures forall x :: x in Unhook(f, c) ==> TreeAt(Unhook(f, c), x)
  {
    assert TreeAt(f, c);
    var p := f[c].up;
    var g := Unhook(f, c);
    forall x | x in g ensures TreeAt(g, x) {
      assert TreeAt(f, x);
      if p != 0 && x == p { assert c !in g[p].kids; }
    }
  }

  lemma UnhookRefs(f: Forest, c: Ptr)
    requires WF(f) && c in f
    ensures TreeAt(f, c)
    ensures forall x :: x in Unhook(f, c) ==> RefAt(Unhook(f, c), x)
  {
    assert TreeAt(f, c);
    assert f[c].up != 0 ==> f[f[c].up].role.Plain? by {
      if f[c].up != 0 { assert RefAt(f, f[c].up); }
    }
    var g := Unhook(f, c);
    forall x | x in g ensures RefAt(g, x) {
      assert RefAt(f, x);
    }
  }

  lemma UnhookRank(f: Forest, rank: map<Ptr, nat>, c: Ptr)
    requires Ranked(f, rank) && c in f && (f[c].up != 0 ==> f[c].up in f)
    ensures Ranked(Unhook(f, c), rank)
  {
    var g := Unhook(f, c);
    forall x | x in g ensures RankAt(g, rank, x) {
      assert RankAt(f, rank, x);
    }
  }

  lemma UnhookInv(f: Forest, rank: map<Ptr, nat>, c: Ptr)
    requires Inv(f, rank) && c in f
    ensures TreeAt(f, c)
    ensures Inv(Unhook(f, c), rank)
  {
    UnhookTree(f, c);
    UnhookRefs(f, c);
    UnhookRank(f, rank, c);
  }

  lemma HookInv(f: Forest, rank: map<Ptr, nat>, p: Ptr, c: Ptr)
    requires Inv(f, rank) && c in f && p in f && f[c].up == 0
    requires f[p].role.Plain? && p in rank && c in rank && rank[p] > rank[c]
    ensures Inv(Hook(f, p, c), rank)
  {
    var g := Hook(f, p, c);
    assert g[p].kids[1..] == f[p].kids;
    forall x | x in g ensures TreeAt(g, x) {
      assert TreeAt(f, x);
      assert x == p ==> c !in f[p].kids;
    }
    forall x | x in g ensures RefAt(g, x) && RankAt(g, rank, x) {
      assert RefAt(f, x) && RankAt(f, rank, x);
    }
  }

  lemma StealInv(f: Forest, rank: map<Ptr, nat>, np: Ptr, c: Ptr)
    requires Inv(f, rank) && c in f
    requires np == 0 || np == c || (np in f && f[np].role.Plain? && np in rank && c in rank && rank[np] > rank[c])
    ensures TreeAt(f, c)
    ensures Inv(Steal(f, np, c), rank)
  {
    UnhookInv(f, rank, c);
    if np != c && np != 0 {
      HookInv(Unhook(f, c), rank, np, c);
    }
  }

  lemma DeleteInv(f: Forest, rank: map<Ptr, nat>, c: Ptr)
    requires Inv(f, rank) && c in f
    requires f[c].kids == [] && f[c].refs == [] && f[c].role.Plain?
    ensures TreeAt(f, c)
    ensures Inv(Delete(f, c), rank)
  {
    UnhookInv(f, rank, c);
    var u := Unhook(f, c);
    var g := Delete(f, c);
    forall x | x in g ensures TreeAt(g, x) {
      assert TreeAt(u, x);
      assert c in f[x].kids ==> f[c].up == x by { assert TreeAt(f, x); }
    }
    forall x | x in g ensures RefAt(g, x) && RankAt(g, rank, x) {
      assert RefAt(u, x) && RankAt(u, rank, x);
      assert u[c].role.Plain?;
    }
  }

  lemma DropRefTree(f: Forest, rank: map<Ptr, nat>, h: Ptr, d: Dtor, x: Ptr)
    requires Inv(f, rank) && h in f && f[h].role.Handle? && f[h].role.target in f && x in f
    ensures var g := DropRef(f, h, d); x in g && TreeAt(g, x) && RankAt(g, rank, x)
  {
    assert TreeAt(f, x) && RankAt(f, rank, x);
  }

  lemma DropRefRef(f: Forest, rank: map<Ptr, nat>, h: Ptr, d: Dtor, x: Ptr)
    requires Inv(f, rank) && h in f && f[h].role.Handle? && d != RefDtor && f[h].role.target in f && x in f
    requires RefAt(f, h) && RefAt(f, f[h].role.target) && h != f[h].role.target
    ensures var g := DropRef(f, h, d); x in g && RefAt(g, x)
  {
    assert RefAt(f, x);
  }

  lemma DropRefInv(f: Forest, rank: map<Ptr, nat>, h: Ptr, d: Dtor)
    requires Inv(f, rank) && h in f && f[h].role.Handle? && d != RefDtor
    ensures RefAt(f, h)
    ensures Inv(DropRef(f, h, d), rank)
    ensures DropRef(f, h, d)[h].kids == [] && DropRef(f, h, d)[h].refs == []
  {
    assert RefAt(f, h) && RefAt(f, f[h].role.target) && RankAt(f, rank, h);
    var g := DropRef(f, h, d);
    forall x | x in g ensures TreeAt(g, x) && RankAt(g, rank, x) && RefAt(g, x) {
      DropRefTree(f, rank, h, d, x);
      DropRefRef(f, rank, h, d, x);
    }
  }

  lemma DropHeadInv(f: Forest, rank: map<Ptr, nat>, p: Ptr)
    requires Inv(f, rank) && p in f && f[p].refs != []
    ensures Inv(DropHead(f, p), rank)
    ensures DropHead(f, p).Keys == f.Keys - {f[p].refs[0]}
    ensures f[p].refs[0] in f && f[f[p].refs[0]].role == Handle(p) && f[p].refs[0] != p
  {
    assert RefAt(f, p);
    var h := f[p].refs[0];
    assert RefAt(f, h) && TreeAt(f, h) && RankAt(f, rank, h);
    DropRefInv(f, rank, h, NoDtor);
    DeleteInv(DropRef(f, h, NoDtor), rank, h);
  }
}
