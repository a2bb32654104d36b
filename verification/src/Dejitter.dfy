/** The dejitter filter of the touch screen library: a weighted average over the last samples. */
module Dejitter {
  import opened Common
  import opened TouchSamples

  const NR_SAMPHISTLEN: nat := 4

  // struct ts_hist
  datatype Hist = Hist(x: int, y: int, p: nat)

  // the weights for 2, 3 and 4 samples, newest first
  const WEIGHT: seq<seq<int>> := [[5, 3, 0, 0], [8, 5, 3, 0], [6, 4, 3, 3]]
  // the power of two that each row adds up to
  const SHIFT: seq<int> := [3, 4, 4]

  function Entry(s: Sample): Hist { Hist(s.x, s.y, s.pressure) }

  function Far(a: Hist, b: Hist, delta: int): bool { Sqr(a.x - b.x) + Sqr(a.y - b.y) > delta }

  function Least(a: int, b: int): int { if a < b then a else b }

  // the history after a sample, newest first: at most four, none from before a release or a jump
  function Window(w: seq<Hist>, s: Sample, delta: int): (r: seq<Hist>) {
    if !IsPress(s) then []
    else if w != [] && Far(Entry(s), w[0], delta) then [Entry(s)]
    else [Entry(s)] + w[..Least(|w|, NR_SAMPHISTLEN - 1)]
  }

  // a weighted sum over a window
  function Sum(v: seq<int>, weights: seq<int>): int
    requires |v| <= |weights|
    decreases |v|
  {
    if v == [] then 0 else Sum(v[..|v| - 1], weights) + v[|v| - 1] * weights[|v| - 1]
  }

  function Pow2(k: nat): int { if k == 3 then 8 else 16 }

  function Xs(w: seq<Hist>): seq<int> { seq(|w|, i requires 0 <= i < |w| => w[i].x) }
  function Ys(w: seq<Hist>): seq<int> { seq(|w|, i requires 0 <= i < |w| => w[i].y) }
  function Ps(w: seq<Hist>): seq<int> { seq(|w|, i requires 0 <= i < |w| => w[i].p) }

  // the average of one coordinate; the shift rounds down
  function Average(v: seq<int>): int
    requires 2 <= |v| <= NR_SAMPHISTLEN
  {
    Sum(v, WEIGHT[|v| - 2]) / Pow2(SHIFT[|v| - 2])
  }

  predicate Between(lo: int, v: seq<int>, hi: int) {
    forall i :: 0 <= i < |v| ==> lo <= v[i] <= hi
  }

  // the sums, written out
  lemma Sums(v: seq<int>)
    requires 2 <= |v| <= NR_SAMPHISTLEN
    ensures |v| == 2 ==> Average(v) == (5 * v[0] + 3 * v[1]) / 8
    ensures |v| == 3 ==> Average(v) == (8 * v[0] + 5 * v[1] + 3 * v[2]) / 16
    ensures |v| == 4 ==> Average(v) == (6 * v[0] + 4 * v[1] + 3 * v[2] + 3 * v[3]) / 16
  {
    var weights := WEIGHT[|v| - 2];
    assert Sum(v[..0], weights) == 0;
    assert v[..1][..0] == v[..0] && v[..2][..1] == v[..1];
    assert Sum(v[..2], weights) == v[0] * weights[0] + v[1] * weights[1];
    if |v| == 2 {
      assert v[..2] == v;
    } else {
      assert v[..3][..2] == v[..2];
      assert Sum(v[..3], weights) == Sum(v[..2], weights) + v[2] * weights[2];
      if |v| == 3 { assert v[..3] == v; } else { assert v[..4] == v && v[..4][..3] == v[..3]; }
    }
  }

  /** An average lies between the least and the greatest of the values. */
  lemma AverageBetween(v: seq<int>, lo: int, hi: int)
    requires 2 <= |v| <= NR_SAMPHISTLEN && Between(lo, v, hi)
    ensures lo <= Average(v) <= hi
  {
    Sums(v);
  }

  // no two neighbours are further apart than d
  predicate Steady(v: seq<int>, d: int) {
    forall i :: 0 <= i < |v| - 1 ==> -d <= v[i] - v[i + 1] <= d
  }

  /** An average lags the newest value by at most (19d + 15) / 16. */
  lemma AverageLag(v: seq<int>, d: int)
    requires 2 <= |v| <= NR_SAMPHISTLEN && d >= 0 && Steady(v, d)
    ensures var lag := (19 * d + 15) / 16; -lag <= Average(v) - v[0] <= lag
  {
    Sums(v);
    assert -d <= v[0] - v[1] <= d;
    if |v| > 2 { assert -d <= v[1] - v[2] <= d; }
    if |v| > 3 { assert -d <= v[2] - v[3] <= d; }
  }

  // a history: at most four presses, neighbours no further apart than the limit
  predicate History(w: seq<Hist>, delta: int) {
    && |w| <= NR_SAMPHISTLEN
    && (forall i :: 0 <= i < |w| ==> w[i].p > 0)
    && (forall i :: 0 <= i < |w| - 1 ==> !Far(w[i], w[i + 1], delta))
  }

  lemma WindowHistory(w: seq<Hist>, s: Sample, delta: int)
    requires History(w, delta)
    ensures History(Window(w, s, delta), delta)
  {
    var r := Window(w, s, delta);
    forall i | 0 <= i < |r| - 1 ensures !Far(r[i], r[i + 1], delta) {
      if i > 0 { assert r[i] == w[i - 1] && r[i + 1] == w[i]; } else { assert r[1] == w[0]; }
    }
  }

  lemma SquareBound(x: int, y: int, d: int)
    requires d >= 0 && Sqr(x) + Sqr(y) <= Sqr(d)
    ensures -d <= x <= d && -d <= y <= d
  {
    SquareNat(x);
    SquareNat(y);
    if x > d || x < -d { Larger(if x > d then x else -x, d); }
    if y > d || y < -d { Larger(if y > d then y else -y, d); }
    assert Sqr(-x) == Sqr(x) && Sqr(-y) == Sqr(y);
  }

  lemma SquareNat(x: int)
    ensures Sqr(x) >= 0
  {
  }

  lemma Larger(x: int, d: int)
    requires x > d >= 0
    ensures Sqr(x) > Sqr(d)
  {
    var e := x - d;
    assert Sqr(x) == Sqr(d) + 2 * (d * e) + e * e;
    Product(d, e);
    Product(e, e);
  }

  lemma Product(x: int, y: int)
    requires x >= 0 && y > 0
    ensures x * y >= 0 && (x > 0 ==> x * y > 0)
  {
  }

  lemma HistorySteady(w: seq<Hist>, d: int)
    requires d >= 0 && History(w, Sqr(d))
    ensures Steady(Xs(w), d) && Steady(Ys(w), d)
  {
    forall i | 0 <= i < |w| - 1
      ensures -d <= Xs(w)[i] - Xs(w)[i + 1] <= d && -d <= Ys(w)[i] - Ys(w)[i + 1] <= d
    {
      assert !Far(w[i], w[i + 1], Sqr(d));
      SquareBound(w[i].x - w[i + 1].x, w[i].y - w[i + 1].y, d);
    }
  }

  // the sample put out when w is the history after s was read
  function Smoothed(w: seq<Hist>, s: Sample): Sample
    requires |w| <= NR_SAMPHISTLEN
  {
    if |w| < 2 then s else Sample(Average(Xs(w)), Average(Ys(w)), NonNegative(Average(Ps(w))), s.tv)
  }

  function NonNegative(x: int): nat { if x < 0 then 0 else x }

  // every coordinate and pressure of a history lies between those of two samples
  predicate Box(lo: Sample, w: seq<Hist>, hi: Sample) {
    Between(lo.x, Xs(w), hi.x) && Between(lo.y, Ys(w), hi.y) && Between(lo.pressure, Ps(w), hi.pressure)
  }

  /** What comes out lies between the least and the greatest of the history in coordinates and
      pressure, and a press stays a press. */
  lemma SmoothedWithin(w: seq<Hist>, s: Sample, delta: int, lo: Sample, hi: Sample)
    requires History(w, delta) && IsPress(s) && Box(lo, Window(w, s, delta), hi)
    ensures var o := Smoothed(Window(w, s, delta), s);
      lo.x <= o.x <= hi.x && lo.y <= o.y <= hi.y && lo.pressure <= o.pressure <= hi.pressure
        && IsPress(o) && o.tv == s.tv
  {
    var r := Window(w, s, delta);
    WindowHistory(w, s, delta);
    assert r[0] == Entry(s) && Xs(r)[0] == s.x && Ys(r)[0] == s.y && Ps(r)[0] == s.pressure;
    if |r| >= 2 {
      AverageBetween(Xs(r), lo.x, hi.x);
      AverageBetween(Ys(r), lo.y, hi.y);
      AverageBetween(Ps(r), lo.pressure, hi.pressure);
      Sums(Ps(r));
      assert forall i :: 0 <= i < |r| ==> Ps(r)[i] >= 1;
    }
  }

  /** With the limit d configured, what comes out lags the sample read by at most
      (19d + 15) / 16 on each axis. */
  lemma SmoothedLag(w: seq<Hist>, s: Sample, d: int)
    requires d >= 0 && History(w, Sqr(d))
    ensures var o := Smoothed(Window(w, s, Sqr(d)), s); var lag := (19 * d + 15) / 16;
      -lag <= o.x - s.x <= lag && -lag <= o.y - s.y <= lag
  {
    var r := Window(w, s, Sqr(d));
    WindowHistory(w, s, Sqr(d));
    if |r| >= 2 {
      HistorySteady(r, d);
      assert r[0] == Entry(s) && Xs(r)[0] == s.x && Ys(r)[0] == s.y;
      AverageLag(Xs(r), d);
      AverageLag(Ys(r), d);
    }
  }

  // ---------------------------------------------------------------- streams

  function Stream(w: seq<Hist>, s: seq<Sample>, delta: int): (r: seq<Sample>)
    requires |w| <= NR_SAMPHISTLEN
    ensures |r| == |s|
    decreases |s|
  {
    if s == [] then []
    else
      var w' := Window(w, s[0], delta);
      [Smoothed(w', s[0])] + Stream(w', s[1..], delta)
  }

  /** Every sample put out lags the one read by at most (19d + 15) / 16 on each axis, for streams of
      any length, whatever was read before. */
  lemma {:induction false} StreamLag(w: seq<Hist>, s: seq<Sample>, d: int, i: nat)
    requires d >= 0 && History(w, Sqr(d)) && i < |s|
    ensures var o := Stream(w, s, Sqr(d))[i]; var lag := (19 * d + 15) / 16;
      -lag <= o.x - s[i].x <= lag && -lag <= o.y - s[i].y <= lag
    decreases |s|
  {
    if i == 0 {
      SmoothedLag(w, s[0], d);
    } else {
      WindowHistory(w, s[0], Sqr(d));
      StreamLag(Window(w, s[0], Sqr(d)), s[1..], d, i - 1);
    }
  }

  function WindowAfter(w: seq<Hist>, s: seq<Sample>, delta: int): (r: seq<Hist>)
    requires |w| <= NR_SAMPHISTLEN
    ensures |r| <= NR_SAMPHISTLEN
    decreases |s|
  {
    if s == [] then w else WindowAfter(Window(w, s[0], delta), s[1..], delta)
  }

  // presses from one sample on, none far from the one before it
  predicate Stroke(s: seq<Sample>, delta: int, from: nat) {
    (forall i :: from <= i < |s| ==> IsPress(s[i]))
    && forall i :: from < i < |s| ==> !Far(Entry(s[i]), Entry(s[i - 1]), delta)
  }

  // where a stroke begins: after a release or a jump, or at the start with nothing near before it
  predicate Begins(w: seq<Hist>, s: seq<Sample>, delta: int, from: nat)
    requires from < |s|
  {
    if from == 0 then w == [] || Far(Entry(s[0]), w[0], delta)
    else !IsPress(s[from - 1]) || Far(Entry(s[from]), Entry(s[from - 1]), delta)
  }

  // the entries of the samples from one on, newest first, at most as many as fit
  predicate Lately(w: seq<Hist>, s: seq<Sample>, from: nat)
    requires from < |s|
  {
    |w| == Least(|s| - from, NR_SAMPHISTLEN) && forall i :: 0 <= i < |w| ==> w[i] == Entry(s[|s| - 1 - i])
  }

  /** The history is made of the last samples since the last release or jump, newest first. */
  lemma {:induction false} WindowIsLast(w: seq<Hist>, s: seq<Sample>, delta: int, from: nat)
    requires |w| <= NR_SAMPHISTLEN && from < |s| && Stroke(s, delta, from) && Begins(w, s, delta, from)
    ensures Lately(WindowAfter(w, s, delta), s, from)
    decreases |s|
  {
    var front := s[..|s| - 1];
    var last := s[|s| - 1];
    WindowAfterLast(w, front, last, delta);
    assert front + [last] == s;
    if from == |s| - 1 {
      FirstEntry(w, front, last, delta);
    } else {
      StrokeFront(s, delta, from);
      WindowIsLast(w, front, delta, from);
      OneMore(WindowAfter(w, front, delta), front, last, delta, from);
    }
  }

  lemma StrokeFront(s: seq<Sample>, delta: int, from: nat)
    requires s != [] && Stroke(s, delta, from)
    ensures Stroke(s[..|s| - 1], delta, from)
  {
    var front := s[..|s| - 1];
    forall i | from < i < |front|
      ensures !Far(Entry(front[i]), Entry(front[i - 1]), delta)
    {
      assert front[i] == s[i] && front[i - 1] == s[i - 1];
    }
  }

  lemma FirstEntry(w: seq<Hist>, s: seq<Sample>, last: Sample, delta: int)
    requires |w| <= NR_SAMPHISTLEN && IsPress(last) && Begins(w, s + [last], delta, |s|)
    ensures Window(WindowAfter(w, s, delta), last, delta) == [Entry(last)]
  {
    if s != [] {
      WindowHead(w, s, delta);
    }
  }

  // a press that is not far from the newest entry becomes the newest itself
  lemma OneMore(w: seq<Hist>, s: seq<Sample>, last: Sample, delta: int, from: nat)
    requires from < |s| && IsPress(last) && !Far(Entry(last), Entry(s[|s| - 1]), delta)
    requires Lately(w, s, from)
    ensures Lately(Window(w, last, delta), s + [last], from)
  {
    assert w[0] == Entry(s[|s| - 1]);
  }

  lemma {:induction false} WindowAfterLast(w: seq<Hist>, s: seq<Sample>, last: Sample, delta: int)
    requires |w| <= NR_SAMPHISTLEN
    ensures WindowAfter(w, s + [last], delta) == Window(WindowAfter(w, s, delta), last, delta)
    decreases |s|
  {
    if s == [] {
      assert s + [last] == [last];
      assert WindowAfter(Window(w, last, delta), [], delta) == Window(w, last, delta);
    } else {
      assert (s + [last])[0] == s[0] && (s + [last])[1..] == s[1..] + [last];
      WindowAfterLast(Window(w, s[0], delta), s[1..], last, delta);
    }
  }

  // the history starts with the last sample, or is empty after a release
  lemma WindowHead(w: seq<Hist>, s: seq<Sample>, delta: int)
    requires |w| <= NR_SAMPHISTLEN && s != []
    ensures var r := WindowAfter(w, s, delta);
      if IsPress(s[|s| - 1]) then r != [] && r[0] == Entry(s[|s| - 1]) else r == []
  {
    var front := s[..|s| - 1];
    assert front + [s[|s| - 1]] == s;
    WindowAfterLast(w, front, s[|s| - 1], delta);
  }

  lemma {:induction false} StreamConcat(w: seq<Hist>, a: seq<Sample>, b: seq<Sample>, delta: int)
    requires |w| <= NR_SAMPHISTLEN
    ensures Stream(w, a + b, delta) == Stream(w, a, delta) + Stream(WindowAfter(w, a, delta), b, delta)
    ensures WindowAfter(w, a + b, delta) == WindowAfter(WindowAfter(w, a, delta), b, delta)
    decreases |a|
  {
    if a == [] {
      assert a + b == b;
    } else {
      assert (a + b)[0] == a[0] && (a + b)[1..] == a[1..] + b;
      StreamConcat(Window(w, a[0], delta), a[1..], b, delta);
    }
  }

  /** One sample comes out for each one read; presses stay presses and releases releases, with
      their times. */
  lemma {:induction false} StreamKeepsShape(w: seq<Hist>, s: seq<Sample>, delta: int, down: bool)
    requires History(w, delta)
    ensures Shaped(down, Stream(w, s, delta)) <==> Shaped(down, s)
    ensures Releases(Stream(w, s, delta)) == Releases(s)
    decreases |s|
  {
    if s != [] {
      var w' := Window(w, s[0], delta);
      WindowHistory(w, s[0], delta);
      var o := Smoothed(w', s[0]);
      var rest := Stream(w', s[1..], delta);
      assert ([o] + rest)[1..] == rest;
      if IsPress(s[0]) { PressStays(w, s[0], delta); }
      StreamKeepsShape(w', s[1..], delta, IsPress(s[0]));
    }
  }

  lemma PressStays(w: seq<Hist>, s: Sample, delta: int)
    requires History(w, delta) && IsPress(s)
    ensures var o := Smoothed(Window(w, s, delta), s); IsPress(o) && o.tv == s.tv
  {
    var r := Window(w, s, delta);
    WindowHistory(w, s, delta);
    if |r| >= 2 {
      Sums(Ps(r));
      assert forall i :: 0 <= i < |r| ==> Ps(r)[i] >= 1;
    }
  }

  // a pen that moves along at the limit
  function Moving(d: int, n: nat): seq<Sample> {
    seq(n, i => Sample(i * d, 0, 1, i))
  }

  // its history, newest first
  function Trace(d: int, n: nat): seq<Hist>
    requires n <= NR_SAMPHISTLEN
  {
    seq(n, i requires 0 <= i < n => Hist((n - 1 - i) * d, 0, 1))
  }

  lemma TraceGrows(d: int, n: nat)
    requires n < NR_SAMPHISTLEN
    ensures Window(Trace(d, n), Sample(n * d, 0, 1, n), Sqr(d)) == Trace(d, n + 1)
  {
    if n > 0 { assert n * d - (n - 1) * d == d; }
  }

  lemma {:induction false} MovingHistory(d: int, n: nat)
    requires n <= NR_SAMPHISTLEN
    ensures WindowAfter([], Moving(d, n), Sqr(d)) == Trace(d, n)
  {
    if n > 0 {
      MovingHistory(d, n - 1);
      assert Moving(d, n) == Moving(d, n - 1) + [Sample((n - 1) * d, 0, 1, n - 1)];
      WindowAfterLast([], Moving(d, n - 1), Sample((n - 1) * d, 0, 1, n - 1), Sqr(d));
      TraceGrows(d, n - 1);
    }
  }

  /** The bound is met: the fourth sample of a pen that moves at the limit comes out that far
      behind. */
  lemma LagMet(d: int)
    requires d >= 0
    ensures Stream([], Moving(d, 4), Sqr(d))[3].x == Moving(d, 4)[3].x - (19 * d + 15) / 16
  {
    var s := Moving(d, 4);
    assert s == Moving(d, 3) + [s[3]];
    StreamConcat([], Moving(d, 3), [s[3]], Sqr(d));
    MovingHistory(d, 3);
    TraceGrows(d, 3);
    var w := Trace(d, 4);
    assert Stream(Trace(d, 3), [s[3]], Sqr(d))[0] == Smoothed(w, s[3]);
    Sums(Xs(w));
    assert Xs(w) == [3 * d, 2 * d, d, 0];
  }

  // ---------------------------------------------------------------- the ring

  // the n entries of a ring from `at` backwards
  function Backwards(ring: seq<Hist>, at: nat, n: nat): (w: seq<Hist>)
    requires |ring| == NR_SAMPHISTLEN && at < NR_SAMPHISTLEN && n <= NR_SAMPHISTLEN
    ensures |w| == n
  {
    seq(n, i requires 0 <= i < n => ring[(at + NR_SAMPHISTLEN - i) % NR_SAMPHISTLEN])
  }

  // writing an entry at head makes it the newest, and drops what it overwrites
  lemma RingWrite(ring: seq<Hist>, head: nat, n: nat, h: Hist)
    requires |ring| == NR_SAMPHISTLEN && head < NR_SAMPHISTLEN && n <= NR_SAMPHISTLEN
    ensures var w := Backwards(ring, (head + 3) % NR_SAMPHISTLEN, n); var m := Least(n + 1, NR_SAMPHISTLEN);
      Backwards(ring[head := h], head, m) == [h] + w[..m - 1]
  {
  }

  // struct tslib_dejitter
  class Dejitter {
    const delta: int
    const hist: array<Hist>
    var nr: nat
    var head: nat

    predicate Valid()
      reads this
    {
      hist.Length == NR_SAMPHISTLEN && nr <= NR_SAMPHISTLEN && head < NR_SAMPHISTLEN
    }

    // the history in the ring, newest first; head is where the next entry goes
    ghost function Memory(): (w: seq<Hist>)
      requires Valid()
      reads this, hist
    {
      Backwards(hist[..], (head + 3) % NR_SAMPHISTLEN, nr)
    }

    // mod_init_dejitter
    constructor (limit: int)
      ensures Valid() && fresh(hist) && Memory() == [] && delta == Sqr(limit)
    {
      delta := Sqr(limit);
      hist := new Hist[NR_SAMPHISTLEN](_ => Hist(0, 0, 0));
      nr, head := 0, 0;
    }

    // average, with the newest entry in head: a weighted sum around the ring
    method Averaged(s: Sample) returns (o: Sample)
      requires Valid() && 2 <= nr
      ensures o == Smoothed(Backwards(hist[..], head, nr), s)
    {
      ghost var w := Backwards(hist[..], head, nr);
      ghost var xs, ys, ps := Xs(w), Ys(w), Ps(w);
      var weights := WEIGHT[nr - 2];
      var sn, i := head, 0;
      var x, y, p := 0, 0, 0;
      while i < nr
        invariant 0 <= i <= nr && sn == (head + NR_SAMPHISTLEN - i) % NR_SAMPHISTLEN
        invariant x == Sum(xs[..i], weights) && y == Sum(ys[..i], weights) && p == Sum(ps[..i], weights)
      {
        assert hist[sn] == w[i] == Hist(xs[i], ys[i], ps[i]);
        SumMore(xs, weights, i);
        SumMore(ys, weights, i);
        SumMore(ps, weights, i);
        x := x + hist[sn].x * weights[i];
        y := y + hist[sn].y * weights[i];
        p := p + hist[sn].p * weights[i];
        RingBack(head, sn, i);
        sn := (sn + NR_SAMPHISTLEN - 1) % NR_SAMPHISTLEN;
        i := i + 1;
      }
      assert xs[..i] == xs && ys[..i] == ys && ps[..i] == ps;
      var unit := Pow2(SHIFT[nr - 2]);
      o := Sample(x / unit, y / unit, NonNegative(p / unit), s.tv);
    }

    // if the pen moves too fast, the history is forgotten
    method Forget(s: Sample)
      requires Valid()
      modifies this`nr
      ensures Valid() && Memory() ==
        if old(nr) != 0 && Far(Entry(s), old(Memory())[0], delta) then [] else old(Memory())
    {
      if nr != 0 {
        var prev := (head + NR_SAMPHISTLEN - 1) % NR_SAMPHISTLEN;
        assert Memory()[0] == hist[prev];
        if Sqr(s.x - hist[prev].x) + Sqr(s.y - hist[prev].y) > delta { nr := 0; }
      }
    }

    // the entry goes to head, where it is the newest
    method Push(h: Hist)
      requires Valid()
      modifies this`nr, hist
      ensures Valid() && nr == Least(old(nr) + 1, NR_SAMPHISTLEN)
      ensures Backwards(hist[..], head, nr) == [h] + old(Memory())[..nr - 1]
    {
      RingWrite(hist[..], head, nr, h);
      ghost var ring := hist[..];
      hist[head] := h;
      assert hist[..] == ring[head := h];
      if nr < NR_SAMPHISTLEN { nr := nr + 1; }
    }

    // the body of the loop of dejitter_read
    method Process(s: Sample) returns (o: Sample)
      requires Valid()
      modifies this, hist
      ensures Valid() && Memory() == Window(old(Memory()), s, delta) && o == Smoothed(Memory(), s)
    {
      if s.pressure == 0 {
        nr := 0;
        return s;
      }
      ghost var w := Memory();
      Forget(s);
      ghost var v := Memory();
      Push(Hist(s.x, s.y, s.pressure));
      ghost var r := Backwards(hist[..], head, nr);
      Pushed(w, v, r, s, delta);
      if nr == 1 {
        o := s;
      } else {
        o := Averaged(s);
      }
      Advance();
    }

    // the next entry goes behind the newest
    method Advance()
      requires Valid()
      modifies this`head
      ensures Valid() && Memory() == Backwards(hist[..], old(head), nr)
    {
      RingNext(head);
      head := (head + 1) % NR_SAMPHISTLEN;
    }

    /** dejitter_read after reading ret samples from the filter below: it smooths in place. */
    method Read(samp: array<Sample>, ret: int) returns (count: nat)
      requires Valid() && ret <= samp.Length
      modifies this, hist, samp
      ensures Valid() && count == if ret < 0 then 0 else ret
      ensures samp[..count] == Stream(old(Memory()), old(samp[..count]), delta)
      ensures Memory() == WindowAfter(old(Memory()), old(samp[..count]), delta)
    {
      count := 0;
      ghost var input := samp[..if ret < 0 then 0 else ret];
      ghost var w := Memory();
      ghost var rest := input;
      assert samp[..0] + Stream(w, input, delta) == Stream(w, input, delta);
      while count < ret
        invariant Valid() && count <= |input| && samp[count..|input|] == rest
        invariant samp[..count] + Stream(Memory(), rest, delta) == Stream(w, input, delta)
        invariant WindowAfter(Memory(), rest, delta) == WindowAfter(w, input, delta)
      {
        ghost var done := samp[..count];
        StreamStep(done, Memory(), rest, delta);
        var o := Process(samp[count]);
        samp[count] := o;
        count := count + 1;
        rest := rest[1..];
        assert samp[..count] == done + [o];
      }
      assert rest == [];
    }
  }

  lemma StreamStep(done: seq<Sample>, w: seq<Hist>, rest: seq<Sample>, delta: int)
    requires |w| <= NR_SAMPHISTLEN && rest != []
    ensures var w' := Window(w, rest[0], delta);
      && done + Stream(w, rest, delta) == done + [Smoothed(w', rest[0])] + Stream(w', rest[1..], delta)
      && WindowAfter(w, rest, delta) == WindowAfter(w', rest[1..], delta)
  {
  }

  // forgetting and pushing make the next window
  lemma Pushed(w: seq<Hist>, v: seq<Hist>, r: seq<Hist>, s: Sample, delta: int)
    requires IsPress(s) && |w| <= NR_SAMPHISTLEN
    requires v == if |w| != 0 && Far(Entry(s), w[0], delta) then [] else w
    requires |r| == Least(|v| + 1, NR_SAMPHISTLEN) && r == [Entry(s)] + v[..|r| - 1]
    ensures r == Window(w, s, delta)
  {
  }

  lemma RingNext(head: nat)
    requires head < NR_SAMPHISTLEN
    ensures ((head + 1) % NR_SAMPHISTLEN + 3) % NR_SAMPHISTLEN == head
  {
  }

  lemma RingBack(head: nat, sn: nat, i: nat)
    requires head < NR_SAMPHISTLEN && i < NR_SAMPHISTLEN && sn == (head + NR_SAMPHISTLEN - i) % NR_SAMPHISTLEN
    ensures (sn + NR_SAMPHISTLEN - 1) % NR_SAMPHISTLEN == (head + NR_SAMPHISTLEN - (i + 1)) % NR_SAMPHISTLEN
  {
  }

  lemma SumMore(v: seq<int>, weights: seq<int>, i: nat)
    requires i < |v| <= |weights|
    ensures Sum(v[..i + 1], weights) == Sum(v[..i], weights) + v[i] * weights[i]
  {
    assert v[..i + 1][..i] == v[..i];
  }
}
