/** What a program does to the buttons of a screen, and what they come to: where they are, how they
    look, which are shown, enabled and pressed, and which one is remembered as pressed. */
module Panels {
  import opened Common
  import opened Damage

  datatype Sample = Sample(x: int, y: int, pressure: bool)

  // a button but for its flag
  datatype Face = Face(look: Look, draws: bool, show: bool, sensitive: bool)

  // the buttons from the bottom up, and the one remembered as pressed
  datatype Panel = Panel(faces: seq<Face>, depressed: Option<nat>)

  const BLANK := Panel([], None)

  // the views that a repaint goes by
  function Drawn(fs: seq<Face>): (ws: seq<View>)
    ensures |ws| == |fs|
  {
    seq(|fs|, i requires 0 <= i < |fs| => View(fs[i].look, fs[i].draws, fs[i].show, false))
  }

  predicate InRange(s: Panel) { s.depressed.Some? ==> s.depressed.value < |s.faces| }

  // ---------------------------------------------------------------- samples

  function Activate(w: Face, active: bool): Face { w.(look := w.look.(active := active)) }

  // the button reacts to a sample at this point
  predicate Takes(w: Face, e: Option<Sample>) {
    w.show && w.sensitive && e.Some? && Has(w.look.rect, e.value.x, e.value.y)
  }

  // button_handle but for the click callback; without a sample the button is only released
  function Handled(w: Face, e: Option<Sample>): Face {
    if !w.show || !w.sensitive then w else Activate(w, Takes(w, e) && e.value.pressure)
  }

  predicate Clicks(w: Face, e: Sample) { Takes(w, Some(e)) && !e.pressure && w.look.active }

  // the loop of oltk_feed over the first n buttons, from the top down, up to a click callback;
  // and how many buttons are left when one takes the sample
  function Offered(fs: seq<Face>, n: nat, e: Sample): (r: (seq<Face>, nat))
    requires n <= |fs|
    ensures |r.0| == |fs| && r.1 <= n
    decreases n
  {
    if n == 0 then (fs, 0)
    else
      var gs := fs[n - 1 := Handled(fs[n - 1], Some(e))];
      if Takes(fs[n - 1], Some(e)) then (gs, n) else Offered(gs, n - 1, e)
  }

  // the button remembered as pressed is released, unless it is k
  function Released(s: Panel, k: nat): (fs: seq<Face>)
    requires InRange(s)
    ensures |fs| == |s.faces|
  {
    if s.depressed.Some? && s.depressed.value != k
    then s.faces[s.depressed.value := Handled(s.faces[s.depressed.value], None)]
    else s.faces
  }

  // the rest of oltk_feed for the button k that took the sample
  function Took(s: Panel, k: nat): (t: Panel)
    requires InRange(s) && k < |s.faces|
    ensures InRange(t) && |t.faces| == |s.faces|
  {
    Panel(Released(s, k), if Released(s, k)[k].look.active then Some(k) else None)
  }

  // the rest of oltk_feed, when n buttons are left
  function Ended(s: Panel, n: nat): (t: Panel)
    requires InRange(s) && n <= |s.faces|
    ensures InRange(t) && |t.faces| == |s.faces|
  {
    if n == 0 then s.(depressed := None) else Took(s, n - 1)
  }

  // ---------------------------------------------------------------- operations

  // what a program does to a screen; the click callback of a touched button does more of it
  datatype Op =
    | Add(rect: Rect, style: int, draws: bool)
    | Show(button: nat, show: bool)
    | Rename(button: nat, name: string)
    | Enable(button: nat, sensitive: bool)
    | Touch(e: Sample, callback: seq<Op>)
    | Repair

  function After(s: Panel, op: Op): (t: Panel)
    requires InRange(s)
    ensures InRange(t) && |t.faces| >= |s.faces|
    decreases op
  {
    match op
    case Add(rect, style, draws) =>
      s.(faces := s.faces + [Face(Look(rect, style, false, ""), draws, false, true)])
    case Show(k, show) => if k < |s.faces| then s.(faces := s.faces[k := s.faces[k].(show := show)]) else s
    case Rename(k, name) =>
      if k < |s.faces|
      then s.(faces := s.faces[k := s.faces[k].(look := s.faces[k].look.(caption := name))])
      else s
    case Enable(k, b) => if k < |s.faces| then s.(faces := s.faces[k := s.faces[k].(sensitive := b)]) else s
    case Touch(e, callback) => Ended(Returned(s, e, callback), Offered(s.faces, |s.faces|, e).1)
    case Repair => s
  }

  // the screen after a sample, when the click callback has returned, if there was a click
  function Returned(s: Panel, e: Sample, callback: seq<Op>): (t: Panel)
    requires InRange(s)
    ensures InRange(t) && |t.faces| >= |s.faces|
    decreases callback, 1
  {
    var (fs, n) := Offered(s.faces, |s.faces|, e);
    var mid := s.(faces := fs);
    if n > 0 && Clicks(s.faces[n - 1], e) then AfterAll(mid, callback) else mid
  }

  function AfterAll(s: Panel, ops: seq<Op>): (t: Panel)
    requires InRange(s)
    ensures InRange(t) && |t.faces| >= |s.faces|
    decreases ops, 0
  {
    if ops == [] then s else AfterAll(After(s, ops[0]), ops[1..])
  }

  // ---------------------------------------------------------------- who takes a sample

  // button k takes the sample, and none of those between it and the first n does
  predicate TopTaker(fs: seq<Face>, n: nat, k: nat, e: Sample)
    requires n <= |fs|
  {
    k < n && Takes(fs[k], Some(e)) && forall j :: k < j < n ==> !Takes(fs[j], Some(e))
  }

  /** The loop stops at the topmost button that takes the sample, and until then changes the
      buttons that it passes, and no others. */
  lemma {:induction false} OfferedIs(fs: seq<Face>, n: nat, e: Sample)
    requires n <= |fs|
    ensures var (gs, m) := Offered(fs, n, e);
      && (if m > 0 then TopTaker(fs, n, m - 1, e) else forall j :: 0 <= j < n ==> !Takes(fs[j], Some(e)))
      && forall j :: 0 <= j < |fs| ==> gs[j] == if m - 1 <= j < n then Handled(fs[j], Some(e)) else fs[j]
    decreases n
  {
    if n > 0 {
      var gs := fs[n - 1 := Handled(fs[n - 1], Some(e))];
      if !Takes(fs[n - 1], Some(e)) {
        OfferedIs(gs, n - 1, e);
        assert forall j :: 0 <= j < n - 1 ==> gs[j] == fs[j];
      }
    }
  }

  // gs is fs after the buttons above the first n have not taken the sample
  predicate Passed(fs: seq<Face>, gs: seq<Face>, n: nat, e: Sample)
    requires n <= |fs| == |gs|
  {
    && (forall j :: 0 <= j < n ==> gs[j] == fs[j])
    && forall j :: n <= j < |fs| ==> !Takes(fs[j], Some(e)) && gs[j] == Handled(fs[j], Some(e))
  }

  lemma PassedTaken(fs: seq<Face>, gs: seq<Face>, n: nat, e: Sample)
    requires |gs| == |fs| && n > 0 && TopTaker(fs, |fs|, n - 1, e)
    requires forall j :: 0 <= j < |fs| ==> gs[j] == if j < n - 1 then fs[j] else Handled(fs[j], Some(e))
    ensures Offered(fs, |fs|, e) == (gs, n)
  {
    OfferedIs(fs, |fs|, e);
    assert Offered(fs, |fs|, e).1 == n;
    assert Offered(fs, |fs|, e).0 == gs;
  }

  lemma PassedAll(fs: seq<Face>, gs: seq<Face>, e: Sample)
    requires |fs| == |gs| && Passed(fs, gs, 0, e)
    ensures Offered(fs, |fs|, e) == (gs, 0)
  {
    OfferedIs(fs, |fs|, e);
    assert Offered(fs, |fs|, e).1 == 0;
    assert Offered(fs, |fs|, e).0 == gs;
  }

  // the buttons once button k has been pressed
  function PressedFaces(s: Panel, k: nat): seq<Face> {
    seq(|s.faces|, j requires 0 <= j < |s.faces| =>
      if j == k then Activate(s.faces[j], true)
      else if j > k || s.depressed == Some(j) then Handled(s.faces[j], None)
      else s.faces[j])
  }

  /** A press goes to the topmost button that takes it, which is remembered; those above it and the
      one remembered before are released if they are shown and enabled; nothing else changes. */
  lemma PressTaken(s: Panel, e: Sample, callback: seq<Op>, k: nat)
    requires InRange(s) && e.pressure && TopTaker(s.faces, |s.faces|, k, e)
    ensures After(s, Touch(e, callback)) == Panel(PressedFaces(s, k), Some(k))
  {
    var n := |s.faces|;
    PressOffered(s.faces, e, k);
    var t := Took(s.(faces := Offered(s.faces, n, e).0), k);
    assert t.faces == PressedFaces(s, k);
    assert Returned(s, e, callback) == s.(faces := Offered(s.faces, n, e).0);
  }

  lemma PressOffered(fs: seq<Face>, e: Sample, k: nat)
    requires e.pressure && TopTaker(fs, |fs|, k, e)
    ensures var (gs, n) := Offered(fs, |fs|, e);
      n == k + 1 && forall j :: 0 <= j < |fs| ==>
        gs[j] == if j == k then Activate(fs[j], true) else if j > k then Handled(fs[j], None) else fs[j]
  {
    OfferedIs(fs, |fs|, e);
  }

  // the buttons once button k has taken a release, before any click callback
  function ReleasedFaces(fs: seq<Face>, k: nat): seq<Face> {
    seq(|fs|, j requires 0 <= j < |fs| => if j >= k then Handled(fs[j], None) else fs[j])
  }

  lemma ReleaseOffered(fs: seq<Face>, e: Sample, k: nat)
    requires !e.pressure && TopTaker(fs, |fs|, k, e)
    ensures Offered(fs, |fs|, e) == (ReleasedFaces(fs, k), k + 1)
  {
    OfferedIs(fs, |fs|, e);
    assert Offered(fs, |fs|, e).1 == k + 1;
    assert Offered(fs, |fs|, e).0 == ReleasedFaces(fs, k);
  }

  /** A release goes to the topmost button that takes it, too; its click callback is called exactly
      when it was pressed; and no button is remembered afterwards unless the callback has pressed
      that one again. */
  lemma ReleaseTaken(s: Panel, e: Sample, callback: seq<Op>, k: nat)
    requires InRange(s) && !e.pressure && TopTaker(s.faces, |s.faces|, k, e)
    ensures var mid := s.(faces := ReleasedFaces(s.faces, k));
      var r := if s.faces[k].look.active then AfterAll(mid, callback) else mid;
      && InRange(r) && k < |r.faces|
      && After(s, Touch(e, callback)) == Panel(Released(r, k), if r.faces[k].look.active then Some(k) else None)
  {
    ReleaseOffered(s.faces, e, k);
    var mid := s.(faces := ReleasedFaces(s.faces, k));
    assert Returned(s, e, callback) == if s.faces[k].look.active then AfterAll(mid, callback) else mid;
  }

  // ---------------------------------------------------------------- which button is pressed

  // users see this button pressed
  predicate Pressed(w: Face) { w.show && w.sensitive && w.look.active }

  // a button that users see pressed is the one remembered
  predicate Tracked(s: Panel) {
    forall j :: 0 <= j < |s.faces| && Pressed(s.faces[j]) ==> s.depressed == Some(j)
  }

  predicate OnlyPressed(s: Panel, k: nat) {
    forall j :: 0 <= j < |s.faces| && Pressed(s.faces[j]) ==> j == k || s.depressed == Some(j)
  }

  lemma TookTrackedIff(s: Panel, k: nat)
    requires InRange(s) && k < |s.faces|
    ensures Tracked(Took(s, k)) <==> OnlyPressed(s, k)
  {
    var t := Took(s, k);
    forall j | 0 <= j < |s.faces|
      ensures Pressed(t.faces[j]) <==> Pressed(s.faces[j]) && (j == k || s.depressed != Some(j))
    {
    }
    if OnlyPressed(s, k) {
      assert forall j :: 0 <= j < |t.faces| && Pressed(t.faces[j]) ==> j == k;
    } else {
      var j :| 0 <= j < |s.faces| && Pressed(s.faces[j]) && j != k && s.depressed != Some(j);
      assert Pressed(t.faces[j]);
    }
  }

  // the loop leaves no button pressed but the one that takes the sample and the one remembered
  lemma OfferedOnly(s: Panel, e: Sample)
    requires Tracked(s)
    ensures var (fs, n) := Offered(s.faces, |s.faces|, e);
      if n == 0 then forall j :: 0 <= j < |fs| ==> !Pressed(fs[j]) else OnlyPressed(s.(faces := fs), n - 1)
  {
    OfferedIs(s.faces, |s.faces|, e);
  }

  /** After a sample at most one button is seen pressed, and it is the one remembered: always when
      none takes the sample, always when there is no click, and after a click exactly when the
      callback leaves no other button pressed. */
  lemma TouchTrackedIff(s: Panel, e: Sample, callback: seq<Op>)
    requires InRange(s) && Tracked(s)
    ensures var (fs, n) := Offered(s.faces, |s.faces|, e);
      Tracked(After(s, Touch(e, callback))) <==>
        n == 0 || !Clicks(s.faces[n - 1], e) || OnlyPressed(Returned(s, e, callback), n - 1)
  {
    OfferedOnly(s, e);
    var n := Offered(s.faces, |s.faces|, e).1;
    if n > 0 { TookTrackedIff(Returned(s, e, callback), n - 1); }
  }
}
