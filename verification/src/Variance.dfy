/** The variance filter of the touch screen library: it holds a sample back until it knows
    whether the next one is an outlier. */
module Variance {
  import opened Common
  import opened TouchSamples
  import Pthres

  // struct tslib_variance, with its four flags
  datatype State = State(penDown: bool, lastValid: bool, noiseValid: bool, submitNoise: bool,
        last: Sample, noise: Sample)

  function Dist(a: Sample, b: Sample): int { Sqr(a.x - b.x) + Sqr(a.y - b.y) }

  // what the loop does with one sample: the new state, and the sample put out, if any
  function Body(delta: int, st: State, cur: Sample): (State, Option<Sample>) {
    if !IsPress(cur) then
      var flushed := if st.penDown then st.(submitNoise := true, noise := cur) else st;
      (flushed.(penDown := false, noiseValid := false, lastValid := false, last := cur), Some(st.last))
    else if !st.lastValid then (st.(penDown := true, lastValid := true, last := cur), None)
    else if Dist(cur, st.last) > delta then
      if st.noiseValid then
        (st.(penDown := true, noiseValid := false, submitNoise := true, last := st.noise, noise := cur), Some(st.noise))
      else (st.(penDown := true, noiseValid := true, noise := cur), None)
    else (st.(penDown := true, noiseValid := false, last := cur), Some(st.last))
  }

  // a sample is submitted again only once: the second time round nothing is
  predicate Fine(st: State) {
    st.submitNoise ==> !st.noiseValid && (IsPress(st.noise) || !st.penDown)
  }

  predicate Waits(st: State, input: seq<Sample>) { !st.submitNoise && input == [] }

  // one round of the loop, unless it would have to wait for a sample
  function Round(delta: int, st: State, input: seq<Sample>): (r: (State, Option<Sample>))
    requires Fine(st) && !Waits(st, input)
    ensures Fine(r.0) && (st.submitNoise ==> !r.0.submitNoise)
  {
    if st.submitNoise then Body(delta, st.(submitNoise := false), st.noise) else Body(delta, st, input[0])
  }

  function Unread(st: State, input: seq<Sample>): seq<Sample>
    requires !Waits(st, input)
  {
    if st.submitNoise then input else input[1..]
  }

  function Emit(o: Option<Sample>, s: seq<Sample>): seq<Sample> {
    if o.Some? then [o.value] + s else s
  }

  // what is put out until the filter waits for a sample that is not there
  function Stream(delta: int, st: State, input: seq<Sample>): seq<Sample>
    requires Fine(st)
    decreases |input|, if st.submitNoise then 1 else 0
  {
    if Waits(st, input) then []
    else
      var (st', o) := Round(delta, st, input);
      Emit(o, Stream(delta, st', Unread(st, input)))
  }

  function End(delta: int, st: State, input: seq<Sample>): (r: State)
    requires Fine(st)
    ensures Fine(r) && !r.submitNoise
    decreases |input|, if st.submitNoise then 1 else 0
  {
    if Waits(st, input) then st else End(delta, Round(delta, st, input).0, Unread(st, input))
  }

  lemma {:induction false} StreamConcat(delta: int, st: State, a: seq<Sample>, b: seq<Sample>)
    requires Fine(st)
    ensures Stream(delta, st, a + b) == Stream(delta, st, a) + Stream(delta, End(delta, st, a), b)
    ensures End(delta, st, a + b) == End(delta, End(delta, st, a), b)
    decreases |a|, if st.submitNoise then 1 else 0
  {
    if Waits(st, a) {
      assert a + b == b;
    } else {
      assert !Waits(st, a + b) && Unread(st, a + b) == Unread(st, a) + b;
      assert Round(delta, st, a + b) == Round(delta, st, a);
      StreamConcat(delta, Round(delta, st, a).0, Unread(st, a), b);
    }
  }

  // ---------------------------------------------------------------- shaped input

  // the states that occur on shaped input: a pen that is down has a last sample, noise is a
  // press after it, and what is submitted is a press that moved on or the release just read
  predicate Inv(st: State) {
    && (st.penDown <==> st.lastValid)
    && (st.penDown ==> IsPress(st.last))
    && (st.noiseValid ==> st.penDown && IsPress(st.noise) && !st.submitNoise)
    && (st.submitNoise ==> if IsPress(st.noise) then st.penDown else !st.penDown && st.last == st.noise)
  }

  // a release has been read and its press put out
  predicate Lifting(st: State) { st.submitNoise && !IsPress(st.noise) }

  // the pen as the samples still to be put out will leave it, and as read so far
  lemma RoundInv(delta: int, st: State, input: seq<Sample>)
    requires Inv(st) && !Waits(st, input) && Shaped(st.penDown, input)
    ensures var (st', o) := Round(delta, st, input);
      && Inv(st') && Shaped(st'.penDown, Unread(st, input))
      && (Lifting(st) ==> !Lifting(st') && o == Some(st.noise))
      && (!Lifting(st) && Lifting(st') ==> o.Some? && IsPress(o.value) && !IsPress(input[0]) && st'.noise == input[0])
      && (!Lifting(st) && !Lifting(st') ==> (o.Some? ==> IsPress(o.value)) && (st.submitNoise || IsPress(input[0])))
  {
  }

  /** The output has the shape of the input. */
  lemma {:induction false} StreamShaped(delta: int, st: State, input: seq<Sample>, down: bool)
    requires Inv(st) && Shaped(st.penDown, input) && (Lifting(st) ==> down)
    ensures Shaped(down, Stream(delta, st, input))
    decreases |input|, if st.submitNoise then 1 else 0
  {
    if !Waits(st, input) {
      RoundInv(delta, st, input);
      var (st', o) := Round(delta, st, input);
      var rest := Stream(delta, st', Unread(st, input));
      StreamShaped(delta, st', Unread(st, input), if o.Some? then IsPress(o.value) else down);
      if o.Some? { assert ([o.value] + rest)[1..] == rest; }
    }
  }

  /** No release is lost or put out twice. */
  lemma {:induction false} StreamReleases(delta: int, st: State, input: seq<Sample>)
    requires Inv(st) && Shaped(st.penDown, input)
    ensures Releases(Stream(delta, st, input)) == (if Lifting(st) then [st.noise.tv] else []) + Releases(input)
    decreases |input|, if st.submitNoise then 1 else 0
  {
    if !Waits(st, input) {
      RoundInv(delta, st, input);
      var (st', o) := Round(delta, st, input);
      var rest := Stream(delta, st', Unread(st, input));
      StreamReleases(delta, st', Unread(st, input));
      if o.Some? { assert ([o.value] + rest)[1..] == rest; }
    }
  }

  /** A release comes out at once, after the press held back: nothing more has to be read, and
      the filter starts over. */
  lemma ReleaseFlushes(delta: int, st: State, release: Sample)
    requires Inv(st) && st.penDown && !st.submitNoise && !IsPress(release)
    ensures Stream(delta, st, [release]) == [st.last, release]
    ensures var e := End(delta, st, [release]); !e.penDown && !e.lastValid && !e.noiseValid && !e.submitNoise
  {
    var (st1, o1) := Round(delta, st, [release]);
    var (st2, o2) := Round(delta, st1, []);
    assert o1 == Some(st.last) && o2 == Some(release);
    assert Waits(st2, []);
    assert Stream(delta, st1, []) == Emit(o2, Stream(delta, st2, []));
    assert [release][1..] == [] && End(delta, st2, []) == st2;
    assert End(delta, st1, []) == End(delta, st2, []);
  }

  // ---------------------------------------------------------------- outliers

  // two states that differ in a noise that is no longer valid
  predicate SameButNoise(a: State, b: State) {
    !a.noiseValid && !a.submitNoise && a.(noise := b.noise) == b
  }

  lemma {:induction false} NoiseForgotten(delta: int, a: State, b: State, input: seq<Sample>)
    requires SameButNoise(a, b)
    ensures Stream(delta, a, input) == Stream(delta, b, input)
    decreases |input|
  {
    if input != [] {
      var (a', o) := Round(delta, a, input);
      var (b', p) := Round(delta, b, input);
      assert o == p && (a' == b' || SameButNoise(a', b'));
      if a' != b' { NoiseForgotten(delta, a', b', input[1..]); }
    }
  }

  /** A lone outlier leaves no trace: the stream is as if it had not been read. */
  lemma OutlierErased(delta: int, st: State, outlier: Sample, next: Sample, rest: seq<Sample>)
    requires Fine(st) && st.penDown && st.lastValid && !st.noiseValid && !st.submitNoise
    requires IsPress(outlier) && Dist(outlier, st.last) > delta && IsPress(next) && Dist(next, st.last) <= delta
    ensures Stream(delta, st, [outlier, next] + rest) == Stream(delta, st, [next] + rest)
  {
    var input := [outlier, next] + rest;
    assert input[1..] == [next] + rest && ([next] + rest)[1..] == rest;
    var (st1, o1) := Round(delta, st, input);
    var (st2, o2) := Round(delta, st1, [next] + rest);
    var (st3, o3) := Round(delta, st, [next] + rest);
    assert o1 == None && o2 == o3 == Some(st.last);
    NoiseForgotten(delta, st2, st3, rest);
  }

  // ---------------------------------------------------------------- samples and times

  // what the filter still holds and may put out
  predicate Holds(st: State, s: Sample) {
    (st.lastValid && s == st.last) || ((st.noiseValid || st.submitNoise) && s == st.noise)
  }

  /** Every sample put out is one that was read. */
  lemma {:induction false} StreamFromInput(delta: int, st: State, input: seq<Sample>, s: Sample)
    requires Inv(st) && Shaped(st.penDown, input) && s in Stream(delta, st, input)
    ensures s in input || Holds(st, s)
    decreases |input|, if st.submitNoise then 1 else 0
  {
    if !Waits(st, input) {
      RoundInv(delta, st, input);
      var (st', o) := Round(delta, st, input);
      assert !st.submitNoise ==> input[0] in input;
      if o != Some(s) {
        StreamFromInput(delta, st', Unread(st, input), s);
      }
    }
  }

  // the times of what is held: nothing put out later is before `first`, nothing held after `now`
  predicate Timely(st: State, first: int, now: int) {
    && first <= now
    && (st.lastValid ==> first <= st.last.tv <= now)
    && (st.noiseValid || st.submitNoise ==> first <= st.noise.tv <= now)
    && (st.lastValid && (st.noiseValid || st.submitNoise) ==> st.last.tv <= st.noise.tv)
  }

  /** The output is in the order of time of the input. */
  lemma {:induction false} StreamOrdered(delta: int, st: State, input: seq<Sample>, first: int, now: int)
    requires Inv(st) && Shaped(st.penDown, input) && Timely(st, first, now) && Since(now, input)
    ensures Since(first, Stream(delta, st, input))
    decreases |input|, if st.submitNoise then 1 else 0
  {
    if !Waits(st, input) {
      RoundInv(delta, st, input);
      var (st', o) := Round(delta, st, input);
      var now' := if st.submitNoise then now else input[0].tv;
      var first' := if o.Some? then o.value.tv else first;
      assert first <= first' && Timely(st', first', now');
      StreamOrdered(delta, st', Unread(st, input), first', now');
      var rest := Stream(delta, st', Unread(st, input));
      if o.Some? { assert ([o.value] + rest)[1..] == rest; }
    }
  }

  // ---------------------------------------------------------------- the loop

  class Variance {
    const delta: int
    var penDown: bool
    var lastValid: bool
    var noiseValid: bool
    var submitNoise: bool
    var last: Sample
    var noise: Sample

    function Memory(): State
      reads this
    {
      State(penDown, lastValid, noiseValid, submitNoise, last, noise)
    }

    // mod_init_variance; the two samples are whatever malloc returned
    constructor (limit: int, last: Sample, noise: Sample)
      ensures delta == Sqr(limit) && Memory() == State(false, false, false, false, last, noise)
    {
      delta := Sqr(limit);
      penDown, lastValid, noiseValid, submitNoise := false, false, false, false;
      this.last := last;
      this.noise := noise;
    }

    // the body of the loop of variance_read, once it has a sample
    method Process(samp: array<Sample>, count: nat, cur: Sample) returns (n: nat)
      requires count < samp.Length
      modifies this, samp
      ensures Memory() == Body(delta, old(Memory()), cur).0 && samp[..count] == old(samp[..count])
      ensures var o := Body(delta, old(Memory()), cur).1;
        n == (if o.Some? then count + 1 else count) && (o.Some? ==> samp[count] == o.value)
    {
      n := count;
      if cur.pressure == 0 {
        if penDown {
          submitNoise := true;
          noise := cur;
        }
        penDown, noiseValid, lastValid := false, false, false;
      } else {
        penDown := true;
        if !lastValid {
          last := cur;
          lastValid := true;
          return;
        }
        if penDown {
          var dist := Sqr(cur.x - last.x) + Sqr(cur.y - last.y);
          if dist > delta {
            if noiseValid {
              last := noise;
              samp[n] := last;
              n := n + 1;
              noiseValid, submitNoise := false, true;
            } else {
              noiseValid := true;
            }
            noise := cur;
            return;
          } else {
            noiseValid := false;
          }
        }
      }
      samp[n] := last;
      n := n + 1;
      last := cur;
    }

    /** variance_read returns the next samples of the stream, up to nr of them: cutting a read in
        two does not change what is read. It stops short when the layer below answers nothing;
        then it holds nothing to submit, and either no raw sample is left or some have been used
        up. */
    method Read(samp: array<Sample>, nr: nat, next: Pthres.Layer) returns (count: nat)
      requires nr <= samp.Length && Fine(Memory()) && next.buf.Length == 1 && samp != next.buf
      modifies this, samp, next, next.filter, next.buf
      ensures Fine(Memory()) && count <= nr && |next.raw| <= |old(next.raw)|
      ensures count < nr ==> !submitNoise && (next.raw == [] || |next.raw| < |old(next.raw)|)
      ensures count > 0 ==> |next.raw| < |old(next.raw)| || (old(submitNoise) && !submitNoise)
      ensures samp[..count] + Stream(delta, Memory(), next.Ahead()) == Stream(delta, old(Memory()), old(next.Ahead()))
    {
      count := 0;
      ghost var all := Stream(delta, Memory(), next.Ahead());
      assert samp[..0] + all == all;
      while count < nr
        invariant count <= nr && Fine(Memory()) && |next.raw| <= |old(next.raw)|
        invariant |next.raw| < |old(next.raw)| || (submitNoise ==> old(submitNoise) && count == 0)
        invariant |next.raw| < |old(next.raw)| || count == 0 || old(submitNoise)
        invariant samp[..count] + Stream(delta, Memory(), next.Ahead()) == all
        decreases |next.raw|, if submitNoise then 1 else 0
      {
        var cur;
        ghost var st, input, done := Memory(), next.Ahead(), samp[..count];
        if submitNoise {
          cur := noise;
          submitNoise := false;
        } else {
          var o := next.ReadOne();
          if o == None { return; }
          cur := o.value;
        }
        ghost var (st', out) := Round(delta, st, input);
        StepOut(done, out, Stream(delta, st', Unread(st, input)));
        count := Process(samp, count, cur);
        assert Memory() == st' && next.Ahead() == Unread(st, input);
        assert samp[..count] == done + (if out.Some? then [out.value] else []);
      }
    }
  }

  lemma StepOut(done: seq<Sample>, out: Option<Sample>, rest: seq<Sample>)
    ensures done + Emit(out, rest) == done + (if out.Some? then [out.value] else []) + rest
  {
  }
}
