/** The pressure threshold filter of the touch screen library. */
module Pthres {
  import opened Common
  import opened TouchSamples

  datatype Limits = Limits(pmin: nat, pmax: nat)

  // the filter's memory: whether the pen is down, and where it was last pressed
  datatype Pen = Pen(down: bool, x: int, y: int)

  const START := Pen(false, 0, 0)

  // what becomes of one sample: it is kept, perhaps changed, or dropped
  function Kept(l: Limits, pen: Pen, s: Sample): Option<Sample> {
    if s.pressure < l.pmin then
      if pen.down then Some(s.(x := pen.x, y := pen.y, pressure := 0)) else None
    else if s.pressure > l.pmax then None
    else Some(s)
  }

  function After(l: Limits, pen: Pen, s: Sample): Pen {
    if s.pressure < l.pmin then pen.(down := false)
    else if s.pressure > l.pmax then pen
    else Pen(true, s.x, s.y)
  }

  function Filter(l: Limits, pen: Pen, s: seq<Sample>): seq<Sample>
    decreases |s|
  {
    if s == [] then []
    else
      var rest := Filter(l, After(l, pen, s[0]), s[1..]);
      match Kept(l, pen, s[0])
      case None => rest
      case Some(t) => [t] + rest
  }

  function PenAfter(l: Limits, pen: Pen, s: seq<Sample>): Pen
    decreases |s|
  {
    if s == [] then pen else PenAfter(l, After(l, pen, s[0]), s[1..])
  }

  /** It does not matter how a stream is cut into reads. */
  lemma {:induction false} FilterConcat(l: Limits, pen: Pen, a: seq<Sample>, b: seq<Sample>)
    ensures PenAfter(l, pen, a + b) == PenAfter(l, PenAfter(l, pen, a), b)
    ensures Filter(l, pen, a + b) == Filter(l, pen, a) + Filter(l, PenAfter(l, pen, a), b)
    decreases |a|
  {
    if a == [] {
      assert a + b == b;
    } else {
      assert (a + b)[0] == a[0] && (a + b)[1..] == a[1..] + b;
      FilterConcat(l, After(l, pen, a[0]), a[1..], b);
    }
  }

  // what the filter promises: presses within the limits, and a release only after a press, with
  // pressure 0 and where that press was
  predicate Clean(l: Limits, pen: Pen, s: seq<Sample>)
    decreases |s|
  {
    s == [] ||
    (&& (if IsPress(s[0]) then l.pmin <= s[0].pressure <= l.pmax else pen.down && (s[0].x, s[0].y) == (pen.x, pen.y))
     && Clean(l, Pen(IsPress(s[0]), s[0].x, s[0].y), s[1..]))
  }

  /** Sample by sample: a press is within the limits, and a release follows a press in the same
      place. */
  lemma {:induction false} CleanAt(l: Limits, pen: Pen, s: seq<Sample>, i: nat)
    requires Clean(l, pen, s) && i < |s|
    ensures IsPress(s[i]) ==> l.pmin <= s[i].pressure <= l.pmax
    ensures !IsPress(s[i]) ==> (i == 0 && pen.down) || (i > 0 && IsPress(s[i - 1]))
    ensures !IsPress(s[i]) ==> (s[i].x, s[i].y) == if i == 0 then (pen.x, pen.y) else (s[i - 1].x, s[i - 1].y)
    decreases |s|
  {
    if i > 0 { CleanAt(l, Pen(IsPress(s[0]), s[0].x, s[0].y), s[1..], i - 1); }
  }

  lemma {:induction false} CleanShaped(l: Limits, pen: Pen, s: seq<Sample>)
    requires Clean(l, pen, s)
    ensures Shaped(pen.down, s)
    decreases |s|
  {
    if s != [] { CleanShaped(l, Pen(IsPress(s[0]), s[0].x, s[0].y), s[1..]); }
  }

  /** Whatever is read, the output is clean. */
  lemma {:induction false} FilterCleans(l: Limits, pen: Pen, s: seq<Sample>)
    requires l.pmin >= 1
    ensures Clean(l, pen, Filter(l, pen, s))
    decreases |s|
  {
    if s != [] {
      var next := After(l, pen, s[0]);
      var rest := Filter(l, next, s[1..]);
      FilterCleans(l, next, s[1..]);
      var t := Kept(l, pen, s[0]);
      if t.Some? {
        assert ([t.value] + rest)[1..] == rest;
      }
    }
  }

  /** A clean stream passes unchanged, and no other one does. */
  lemma {:induction false} CleanIffUnchanged(l: Limits, pen: Pen, s: seq<Sample>)
    requires l.pmin >= 1
    ensures Clean(l, pen, s) <==> Filter(l, pen, s) == s
    decreases |s|
  {
    FilterCleans(l, pen, s);
    if s != [] && Clean(l, pen, s) {
      CleanIffUnchanged(l, After(l, pen, s[0]), s[1..]);
      assert Kept(l, pen, s[0]) == Some(s[0]);
      assert [s[0]] + s[1..] == s;
    }
  }

  // struct tslib_pthres, with the static variables of its read function
  class Filtering {
    const l: Limits
    var press: bool
    var xsave: int
    var ysave: int

    constructor (l: Limits)
      ensures this.l == l && Memory() == START
    {
      this.l := l;
      press, xsave, ysave := false, 0, 0;
    }

    function Memory(): Pen
      reads this
    {
      Pen(press, xsave, ysave)
    }

    // one sample is removed at k, and those up to ret move down
    method Remove(samp: array<Sample>, k: nat, ret: nat)
      requires k < ret <= samp.Length
      modifies samp
      ensures samp[..k] == old(samp[..k]) && forall j :: k <= j < ret - 1 ==> samp[j] == old(samp[j + 1])
    {
      forall j | k <= j < ret - 1 { samp[j] := samp[j + 1]; }
    }

    /** pthres_read after reading ret samples from the filter below: it deletes in place and
        leaves exactly the filtered samples in front. */
    method Read(samp: array<Sample>, ret: int) returns (n: int)
      requires ret <= samp.Length
      modifies this, samp
      ensures ret < 0 ==> n == ret && Memory() == old(Memory()) && samp[..] == old(samp[..])
      ensures ret >= 0 ==> 0 <= n <= ret
      ensures ret >= 0 ==> samp[..n] == Filter(l, old(Memory()), old(samp[..ret]))
      ensures ret >= 0 ==> Memory() == PenAfter(l, old(Memory()), old(samp[..ret]))
    {
      if ret < 0 { return ret; }
      ghost var input := samp[..ret];
      ghost var pen := Memory();
      ghost var rest := input;
      n := 0;
      var i := 0;
      assert samp[..n] + Filter(l, pen, input) == Filter(l, pen, input);
      while i < ret
        invariant 0 <= n <= i <= ret && |rest| == ret - i
        invariant forall j :: 0 <= j < |rest| ==> samp[n + j] == rest[j]
        invariant samp[..n] + Filter(l, Memory(), rest) == Filter(l, pen, input)
        invariant PenAfter(l, Memory(), rest) == PenAfter(l, pen, input)
        decreases ret - i
      {
        var s := samp[n];
        assert s == rest[0];
        ghost var memory, done := Memory(), samp[..n];
        if s.pressure < l.pmin {
          if press {
            press := false;
            samp[n] := s.(pressure := 0, x := xsave, y := ysave);
          } else {
            var left := ret - n - 1;
            if left > 0 {
              Remove(samp, n, ret);
              rest := rest[1..];
              i := i + 1;
              continue;
            }
            LastDropped(l, Memory(), rest);
            break;
          }
        } else {
          if s.pressure > l.pmax {
            var left := ret - n - 1;
            if left > 0 {
              Remove(samp, n, ret);
              rest := rest[1..];
              i := i + 1;
              continue;
            }
            LastDropped(l, Memory(), rest);
            break;
          }
          press := true;
          xsave := s.x;
          ysave := s.y;
        }
        KeptFirst(l, memory, rest, done);
        assert samp[..n + 1] == done + [Kept(l, memory, s).value];
        rest := rest[1..];
        n := n + 1;
        i := i + 1;
      }
    }
  }

  lemma LastDropped(l: Limits, pen: Pen, rest: seq<Sample>)
    requires |rest| == 1 && Kept(l, pen, rest[0]) == None && After(l, pen, rest[0]) == pen
    ensures Filter(l, pen, rest) == [] && PenAfter(l, pen, rest) == pen
  {
  }

  lemma KeptFirst(l: Limits, pen: Pen, rest: seq<Sample>, done: seq<Sample>)
    requires rest != [] && Kept(l, pen, rest[0]).Some?
    ensures done + Filter(l, pen, rest)
      == done + [Kept(l, pen, rest[0]).value] + Filter(l, After(l, pen, rest[0]), rest[1..])
  {
  }

  /** The filter above the source of raw samples, as the layer that the next filter reads one
      sample at a time. A sample that is dropped makes such a read answer nothing, although more
      may follow. */
  class Layer {
    const filter: Filtering
    const buf: array<Sample>
    // the samples that the source will still return
    var raw: seq<Sample>

    constructor (l: Limits, raw: seq<Sample>)
      ensures this.raw == raw && filter.l == l && filter.Memory() == START && buf.Length == 1
      ensures fresh(filter) && fresh(buf)
    {
      filter := new Filtering(l);
      buf := new Sample[1](_ => Sample(0, 0, 0, 0));
      this.raw := raw;
    }

    // the samples that reads will still return
    function Ahead(): seq<Sample>
      reads this, filter
    {
      Filter(filter.l, filter.Memory(), raw)
    }

    method ReadOne() returns (o: Option<Sample>)
      requires buf.Length == 1
      modifies this, filter, buf
      ensures old(raw) == [] ==> o == None && raw == [] && Ahead() == []
      ensures old(raw) != [] ==> raw == old(raw)[1..] && o == Kept(filter.l, old(filter.Memory()), old(raw)[0])
      ensures old(Ahead()) == if o.Some? then [o.value] + Ahead() else Ahead()
    {
      if raw == [] { return None; }
      ghost var pen, all := filter.Memory(), raw;
      buf[0] := raw[0];
      raw := raw[1..];
      assert buf[..1] == [all[0]];
      var n := filter.Read(buf, 1);
      OneSample(filter.l, pen, all[0]);
      o := if n == 0 then None else Some(buf[0]);
    }
  }

  lemma OneSample(l: Limits, pen: Pen, s: Sample)
    ensures PenAfter(l, pen, [s]) == After(l, pen, s)
    ensures Filter(l, pen, [s]) == if Kept(l, pen, s).Some? then [Kept(l, pen, s).value] else []
  {
    assert [s][1..] == [];
    assert PenAfter(l, After(l, pen, s), []) == After(l, pen, s) && Filter(l, After(l, pen, s), []) == [];
  }
}
