/** The filters as the library stacks them: dejitter reads variance, which reads pthres. */
module TouchChain {
  import opened Common
  import opened TouchSamples
  import P = Pthres
  import V = Variance
  import D = Dejitter

  // what an application reads for the raw samples, through fresh filters
  function Chain(l: P.Limits, vdelta: int, last: Sample, noise: Sample, ddelta: int, raw: seq<Sample>): seq<Sample> {
    D.Stream([], V.Stream(vdelta, V.State(false, false, false, false, last, noise), P.Filter(l, P.START, raw)), ddelta)
  }

  /** Whatever the screen delivers, an application sees a press first and never two releases in
      a row, and exactly the releases that the pressure filter found. */
  lemma ChainShaped(l: P.Limits, vdelta: int, last: Sample, noise: Sample, ddelta: int, raw: seq<Sample>)
    requires l.pmin >= 1
    ensures var out := Chain(l, vdelta, last, noise, ddelta, raw);
      Shaped(false, out) && Releases(out) == Releases(P.Filter(l, P.START, raw))
  {
    var clean := P.Filter(l, P.START, raw);
    P.FilterCleans(l, P.START, raw);
    P.CleanShaped(l, P.START, clean);
    var st := V.State(false, false, false, false, last, noise);
    V.StreamShaped(vdelta, st, clean, false);
    V.StreamReleases(vdelta, st, clean);
    D.StreamKeepsShape([], V.Stream(vdelta, st, clean), ddelta, false);
  }

  lemma {:induction false} LaterStart(t: int, u: int, s: seq<Sample>)
    requires t <= u && Since(u, s)
    ensures Since(t, s)
  {
  }

  lemma {:induction false} FilterOrdered(l: P.Limits, pen: P.Pen, s: seq<Sample>, t: int)
    requires Since(t, s)
    ensures Since(t, P.Filter(l, pen, s))
    decreases |s|
  {
    if s != [] {
      var next := P.After(l, pen, s[0]);
      var rest := P.Filter(l, next, s[1..]);
      FilterOrdered(l, next, s[1..], s[0].tv);
      var k := P.Kept(l, pen, s[0]);
      if k.Some? { assert ([k.value] + rest)[1..] == rest; } else { LaterStart(t, s[0].tv, rest); }
    }
  }

  lemma {:induction false} DejitterOrdered(w: seq<D.Hist>, s: seq<Sample>, delta: int, t: int)
    requires |w| <= D.NR_SAMPHISTLEN && Since(t, s)
    ensures Since(t, D.Stream(w, s, delta))
    decreases |s|
  {
    if s != [] {
      var w' := D.Window(w, s[0], delta);
      var o := D.Smoothed(w', s[0]);
      var rest := D.Stream(w', s[1..], delta);
      DejitterOrdered(w', s[1..], delta, s[0].tv);
      assert ([o] + rest)[1..] == rest;
    }
  }

  /** Samples come out in the order of time in which they went in. */
  lemma ChainOrdered(l: P.Limits, vdelta: int, last: Sample, noise: Sample, ddelta: int, raw: seq<Sample>, t: int)
    requires l.pmin >= 1 && Since(t, raw)
    ensures Since(t, Chain(l, vdelta, last, noise, ddelta, raw))
  {
    var clean := P.Filter(l, P.START, raw);
    P.FilterCleans(l, P.START, raw);
    P.CleanShaped(l, P.START, clean);
    FilterOrdered(l, P.START, raw, t);
    var st := V.State(false, false, false, false, last, noise);
    V.StreamOrdered(vdelta, st, clean, t, t);
    DejitterOrdered([], V.Stream(vdelta, st, clean), ddelta, t);
  }

  // the three filters, with what they remember and the raw samples still to come
  class Stack {
    const below: P.Layer
    const v: V.Variance
    const d: D.Dejitter

    // ts_load_builtins: fresh filters above a source
    constructor (l: P.Limits, vlimit: int, last: Sample, noise: Sample, dlimit: int, raw: seq<Sample>)
      ensures Valid() && fresh(Parts()) && below.raw == raw && !v.Memory().submitNoise
      ensures Ahead() == Chain(l, Sqr(vlimit), last, noise, Sqr(dlimit), raw)
    {
      below := new P.Layer(l, raw);
      v := new V.Variance(vlimit, last, noise);
      d := new D.Dejitter(dlimit);
    }

    ghost function Parts(): set<object> {
      {below, below.filter, below.buf, v, d, d.hist}
    }

    ghost predicate Valid()
      reads v, d
    {
      d.Valid() && V.Fine(v.Memory()) && below.buf.Length == 1
    }

    // what reads will still return
    ghost function Ahead(): seq<Sample>
      requires Valid()
      reads below, below.filter, v, d, d.hist
    {
      D.Stream(d.Memory(), V.Stream(v.delta, v.Memory(), below.Ahead()), d.delta)
    }

    /** One read through all three filters returns the next samples of one stream, however many
        are asked for. It may return short with more to come, but then it has used up raw samples. */
    method Read(samp: array<Sample>, nr: nat) returns (count: nat)
      requires Valid() && nr <= samp.Length && samp != below.buf
      modifies Parts(), samp
      ensures Valid() && count <= nr && |below.raw| <= |old(below.raw)|
      ensures count < nr ==> !v.submitNoise && (below.raw == [] || |below.raw| < |old(below.raw)|)
      ensures count > 0 ==> |below.raw| < |old(below.raw)| || (old(v.submitNoise) && !v.submitNoise)
      ensures samp[..count] + Ahead() == old(Ahead())
    {
      ghost var w := d.Memory();
      count := v.Read(samp, nr, below);
      ghost var got := samp[..count];
      D.StreamConcat(w, got, V.Stream(v.delta, v.Memory(), below.Ahead()), d.delta);
      var n := d.Read(samp, count);
    }
  }

  /** A program that reads until nothing is left gets exactly the output of the chain, whatever
      the length of its reads. */
  method ReadAll(l: P.Limits, vlimit: int, last: Sample, noise: Sample, dlimit: int, raw: seq<Sample>, nr: nat)
    returns (out: seq<Sample>)
    requires nr >= 1
    ensures out == Chain(l, Sqr(vlimit), last, noise, Sqr(dlimit), raw)
  {
    var s := new Stack(l, vlimit, last, noise, dlimit, raw);
    var samp := new Sample[nr](_ => Sample(0, 0, 0, 0));
    ghost var all := s.Ahead();
    out := [];
    while s.below.raw != [] || s.v.submitNoise
      invariant s.Valid() && fresh(s.Parts()) && fresh(samp) && samp != s.below.buf
      invariant out + s.Ahead() == all
      decreases |s.below.raw|, if s.v.submitNoise then 1 else 0
    {
      ghost var left := s.Ahead();
      var count := s.Read(samp, nr);
      Regroup(out, samp[..count], s.Ahead());
      out := out + samp[..count];
    }
    assert s.below.Ahead() == [] && s.Ahead() == [];
  }
}
