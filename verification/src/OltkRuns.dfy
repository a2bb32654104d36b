/** Whole runs of the toolkit: any changes, and then a redraw. */
module OltkRuns {
  import opened Common
  import opened Damage
  import opened Oltk
  import opened Panels

  predicate Allowed(op: Op) {
    match op
    case Add(rect, _, _) => Placed(rect)
    case Touch(_, callback) => AllAllowed(callback)
    case _ => true
  }

  predicate AllAllowed(ops: seq<Op>) {
    forall i :: 0 <= i < |ops| ==> Allowed(ops[i])
  }

  // ---------------------------------------------------------------- single operations

  method DoAdd(o: Oltk, rect: Rect, style: int, draws: bool)
    requires o.Valid() && o.Sound() && Placed(rect)
    modifies o`zbuttons
    ensures o.Valid() && o.Sound() && |o.zbuttons| == |old(o.zbuttons)| + 1 && old(o.zbuttons) < o.zbuttons
    ensures fresh(o.zbuttons[|old(o.zbuttons)|])
    ensures o.AsPanel() == After(old(o.AsPanel()), Add(rect, style, draws))
  {
    ghost var fs := o.Faces();
    ghost var k := if o.depressed == null then 0 else o.IndexOf(o.depressed);
    var b := o.ButtonAdd(rect, style, draws);
    assert o.Faces() == fs + [b.AsFace()];
    assert o.depressed != null ==> o.zbuttons[k] == o.depressed;
  }

  method DoShow(o: Oltk, k: nat, show: bool)
    requires o.Valid() && o.Sound()
    modifies o`invalid, o.zbuttons
    ensures o.Valid() && o.Sound() && o.AsPanel() == After(old(o.AsPanel()), Show(k, show))
  {
    if k < |o.zbuttons| {
      o.ButtonShow(o.zbuttons[k], show);
      o.OneFace(k);
    }
  }

  method DoRename(o: Oltk, k: nat, name: string)
    requires o.Valid() && o.Sound()
    modifies o.zbuttons
    ensures o.Valid() && o.Sound() && o.AsPanel() == After(old(o.AsPanel()), Rename(k, name))
  {
    if k < |o.zbuttons| {
      o.ButtonSetName(o.zbuttons[k], name);
      o.OneFace(k);
    }
  }

  method DoEnable(o: Oltk, k: nat, sensitive: bool)
    requires o.Valid() && o.Sound()
    modifies o.zbuttons
    ensures o.Valid() && o.Sound() && o.AsPanel() == After(old(o.AsPanel()), Enable(k, sensitive))
  {
    if k < |o.zbuttons| {
      o.ButtonSensitive(o.zbuttons[k], sensitive);
      o.OneFace(k);
    }
  }

  method DoRepair(o: Oltk)
    requires o.Valid() && o.Sound()
    modifies o`invalid, o.fb, o.zbuttons
    ensures o.Valid() && o.Sound() && o.Shown() && o.AsPanel() == old(o.AsPanel())
  {
    ghost var ws, fs := o.Views(), o.Faces();
    var updated := o.Redraw();
    forall i | 0 <= i < |fs| ensures o.Faces()[i] == fs[i] {
      assert o.zbuttons[i].Seen() == ws[i].(update := false);
    }
    assert o.Faces() == fs;
  }

  // ---------------------------------------------------------------- runs

  // the buttons that a screen had are still there, and all others are new
  twostate predicate Grown(o: Oltk)
    reads o
  {
    && |old(o.zbuttons)| <= |o.zbuttons|
    && forall i :: 0 <= i < |o.zbuttons| ==>
         if i < |old(o.zbuttons)| then o.zbuttons[i] == old(o.zbuttons)[i] else fresh(o.zbuttons[i])
  }

  method Perform(o: Oltk, op: Op)
    requires o.Valid() && o.Sound() && Allowed(op)
    modifies o, o.fb, o.zbuttons
    ensures o.Valid() && o.Sound() && Grown(o) && o.pending <= old(o.pending)
    ensures o.AsPanel() == After(old(o.AsPanel()), op)
    decreases op
  {
    match op
    case Add(rect, style, draws) => DoAdd(o, rect, style, draws);
    case Show(k, show) => DoShow(o, k, show);
    case Rename(k, name) => DoRename(o, k, name);
    case Enable(k, sensitive) => DoEnable(o, k, sensitive);
    case Touch(e, callback) => Feed(o, e, callback);
    case Repair => DoRepair(o);
  }

  /** oltk_feed with the click callback in its place, which may do anything to the screen: the
      buttons come to what `After` says, and every pixel stays right, invalid, or under a flagged or
      pending button. */
  method Feed(o: Oltk, e: Sample, callback: seq<Op>)
    requires o.Valid() && o.Sound() && AllAllowed(callback)
    modifies o, o.fb, o.zbuttons
    ensures o.Valid() && o.Sound() && Grown(o) && o.pending <= old(o.pending)
    ensures o.AsPanel() == After(old(o.AsPanel()), Touch(e, callback))
    decreases callback, 4
  {
    FeedTo(o, e, callback);
  }

  method FeedTo(o: Oltk, e: Sample, callback: seq<Op>)
    requires o.Valid() && o.Sound() && AllAllowed(callback)
    modifies o, o.fb, o.zbuttons
    ensures o.Valid() && o.Sound() && Grown(o) && o.pending <= old(o.pending)
    ensures var s := old(o.AsPanel());
      o.AsPanel() == Ended(Returned(s, e, callback), Offered(s.faces, |s.faces|, e).1)
    decreases callback, 3
  {
    var n, clicked := FeedStart(o, e, callback);
    o.FeedEnd(n, clicked);
  }

  // the part of oltk_feed up to the end of the click callback; the clicked button is pending
  method FeedStart(o: Oltk, e: Sample, callback: seq<Op>) returns (n: nat, clicked: bool)
    requires o.Valid() && o.Sound() && AllAllowed(callback)
    modifies o, o.fb, o.zbuttons
    ensures o.Valid() && o.Sound() && Grown(o) && n <= |o.zbuttons|
    ensures n == Offered(old(o.Faces()), |old(o.zbuttons)|, e).1 && (clicked ==> n > 0)
    ensures o.pending <= if clicked then old(o.pending) + {n - 1} else old(o.pending)
    ensures o.AsPanel() == Returned(old(o.AsPanel()), e, callback)
    decreases callback, 2
  {
    ghost var s := o.AsPanel();
    n, clicked := OfferSample(o, e);
    CallBack(o, e, callback, n, clicked, s);
  }

  // the click callback, if there is a click; s is from before the sample
  method CallBack(o: Oltk, e: Sample, callback: seq<Op>, n: nat, clicked: bool, ghost s: Panel)
    requires o.Valid() && o.Sound() && AllAllowed(callback) && InRange(s)
    requires n == Offered(s.faces, |s.faces|, e).1
    requires o.AsPanel() == s.(faces := Offered(s.faces, |s.faces|, e).0)
    requires clicked <==> n > 0 && Clicks(s.faces[n - 1], e)
    modifies o, o.fb, o.zbuttons
    ensures o.Valid() && o.Sound() && Grown(o) && o.pending <= old(o.pending)
    ensures o.AsPanel() == Returned(s, e, callback)
    decreases callback, 1
  {
    if clicked { PerformAll(o, callback); }
  }

  method OfferSample(o: Oltk, e: Sample) returns (n: nat, clicked: bool)
    requires o.Valid() && o.Sound()
    modifies o`pending, o.zbuttons
    ensures o.Valid() && o.Sound() && n <= |o.zbuttons| && n == Offered(old(o.Faces()), |o.zbuttons|, e).1
    ensures o.AsPanel() == old(o.AsPanel()).(faces := Offered(old(o.Faces()), |o.zbuttons|, e).0)
    ensures clicked <==> n > 0 && Clicks(old(o.Faces())[n - 1], e)
    ensures o.pending <= if clicked then old(o.pending) + {n - 1} else old(o.pending)
  {
    n, clicked := o.Offer(e);
    o.SameDepressed();
  }

  method PerformAll(o: Oltk, ops: seq<Op>)
    requires o.Valid() && o.Sound() && AllAllowed(ops)
    modifies o, o.fb, o.zbuttons
    ensures o.Valid() && o.Sound() && Grown(o) && o.pending <= old(o.pending)
    ensures o.AsPanel() == AfterAll(old(o.AsPanel()), ops)
    decreases ops, 0
  {
    var i := 0;
    while i < |ops|
      invariant 0 <= i <= |ops| && o.Valid() && o.Sound() && Grown(o) && o.pending <= old(o.pending)
      invariant AfterAll(o.AsPanel(), ops[i..]) == AfterAll(old(o.AsPanel()), ops)
    {
      assert ops[i..][0] == ops[i] && ops[i..][1..] == ops[i + 1..];
      Perform(o, ops[i]);
      i := i + 1;
    }
  }

  // a repaint goes by the faces of the buttons
  lemma SameDrawn(o: Oltk, x: int, y: int)
    ensures o.Full(x, y) == Repaint(o.paint, Drawn(o.Faces()), |o.zbuttons|, x, y)
  {
    SameLooks(o.paint, o.Views(), Drawn(o.Faces()), |o.zbuttons|, x, y);
  }

  /** Whatever is done to the buttons of a screen, inside click callbacks or outside, they come to
      what the operations say, one after the other, and a redraw at the end leaves on every pixel
      what a full repaint of those buttons would. */
  method Run(cols: nat, rows: nat, paint: Painter, ops: seq<Op>) returns (o: Oltk)
    requires cols < 2 * LIMIT && rows < 2 * LIMIT && AllAllowed(ops)
    ensures fresh(o) && o.Valid() && o.cols == cols && o.rows == rows && o.paint == paint
    ensures o.AsPanel() == AfterAll(BLANK, ops)
    ensures var fs := AfterAll(BLANK, ops).faces;
      forall x, y :: o.OnScreen(x, y) ==> o.fb[y, x] == Repaint(paint, Drawn(fs), |fs|, x, y)
  {
    o := new Oltk(cols, rows, paint);
    PerformAll(o, ops);
    DoRepair(o);
    forall x, y | o.OnScreen(x, y) ensures o.fb[y, x] == Repaint(paint, Drawn(o.Faces()), |o.zbuttons|, x, y) {
      assert o.ShownAt(x, y);
      SameDrawn(o, x, y);
    }
  }

  // a screen of one pixel under one shown button
  method OneButton(paint: Painter, rect: Rect, style: int) returns (o: Oltk, b: Button)
    requires Has(rect, 0, 0) && Placed(rect)
    ensures fresh(o) && fresh(o.fb) && fresh(b) && o.Valid() && o.Sound() && o.zbuttons == [b] && o.pending == {}
    ensures o.cols == o.rows == 1 && o.paint == paint && b.sensitive
    ensures b.Seen().look == Look(rect, style, false, "") && b.draws && b.show
  {
    o := new Oltk(1, 1, paint);
    b := o.ButtonAdd(rect, style, true);
    o.ButtonShow(b, true);
  }

  // the same, pressed and drawn
  method PressedButton(paint: Painter, rect: Rect, style: int) returns (o: Oltk, b: Button)
    requires Has(rect, 0, 0) && Placed(rect)
    ensures fresh(o) && fresh(o.fb) && fresh(b) && o.Valid() && o.Sound() && o.zbuttons == [b] && o.pending == {}
    ensures o.cols == o.rows == 1 && o.paint == paint && Empty(o.invalid)
    ensures b.Seen() == View(Look(rect, style, true, ""), true, true, false) && b.sensitive
    ensures o.fb[0, 0] == paint(Look(rect, style, true, ""), 0, 0)
  {
    o, b := OneButton(paint, rect, style);
    var handled, clicked := o.HandleStart(b, Some(Sample(0, 0, true)));
    ghost var ws := o.Views();
    var updated := o.Redraw();
    assert b.Seen() == ws[0].(update := false);
    assert o.ShownAt(0, 0);
  }

  // the screen shows every button as it is, and nothing is due
  ghost predicate Settled(o: Oltk)
    requires o.Valid()
    reads o, o.zbuttons, o.fb
  {
    o.Shown() && o.Sound() && o.pending == {} && Empty(o.invalid) && forall w :: w in o.Views() ==> !w.update
  }

  // where button k changes its look only, the topmost button stays, and only its pixels are due
  lemma NewLook(paint: Painter, ws: seq<View>, vs: seq<View>, k: nat, x: int, y: int)
    requires |ws| == |vs| && k < |ws| && forall i :: 0 <= i < |ws| && i != k ==> vs[i] == ws[i]
    requires vs[k] == ws[k].(look := vs[k].look) && vs[k].look.rect == ws[k].look.rect
    ensures Top(vs, |vs|, x, y) == Top(ws, |ws|, x, y)
    ensures Repaint(paint, vs, |vs|, x, y)
         == if Top(vs, |vs|, x, y) == k then paint(vs[k].look, x, y) else Repaint(paint, ws, |ws|, x, y)
  {
    TopDecides(paint, ws, |ws|, x, y);
    TopDecides(paint, vs, |vs|, x, y);
    TopIs(vs, |vs|, x, y, Top(ws, |ws|, x, y));
  }

  // a redraw on a screen where nothing is flagged or invalid changes no pixel
  method IdleRedraw(o: Oltk)
    requires o.Valid() && o.Sound() && Empty(o.invalid) && forall w :: w in o.Views() ==> !w.update
    modifies o`invalid, o.fb, o.zbuttons
    ensures o.Valid() && o.Views() == old(o.Views())
    ensures forall x, y :: o.OnScreen(x, y) ==> o.fb[y, x] == old(o.fb[y, x])
  {
    ghost var ws := o.Views();
    assert !Flagged(ws);
    var updated := o.Redraw();
    forall i | 0 <= i < |ws| ensures o.Views()[i] == ws[i] {
      assert ws[i] in ws;
    }
    assert o.Views() == ws;
    assert forall x, y :: !Has(updated, x, y);
  }

  /** A redraw from inside the click callback of a released button is wrong at exactly the points
      where that button is on top and looks different when pressed: its state has changed and its
      flag has not. */
  method RedrawInClick(o: Oltk, b: Button, e: Sample)
    requires o.Valid() && Settled(o) && b in o.zbuttons && Clicks(b.AsFace(), e)
    modifies o, o.fb, o.zbuttons
    ensures o.Valid() && o.zbuttons == old(o.zbuttons) && b in o.zbuttons && !b.active
    ensures forall x, y :: o.OnScreen(x, y) ==>
      (o.fb[y, x] == o.Full(x, y) <==>
        || Top(o.Views(), |o.Views()|, x, y) != o.IndexOf(b)
        || o.paint(b.Seen().look.(active := true), x, y) == o.paint(b.Seen().look, x, y))
  {
    ghost var k := o.IndexOf(b);
    ghost var ws := o.Views();
    var handled, clicked := o.HandleStart(b, Some(e));
    ghost var vs := o.Views();
    assert vs[k] == ws[k].(look := ws[k].look.(active := false));
    forall w | w in vs ensures !w.update {
      var i :| 0 <= i < |vs| && vs[i] == w;
      assert ws[i] in ws;
    }
    IdleRedraw(o);
    forall x, y | o.OnScreen(x, y)
      ensures o.fb[y, x] == o.Full(x, y) <==>
        Top(vs, |vs|, x, y) != k || o.paint(ws[k].look, x, y) == o.paint(vs[k].look, x, y)
    {
      assert old(o.ShownAt(x, y));
      NewLook(o.paint, ws, vs, k, x, y);
      TopDecides(o.paint, ws, |ws|, x, y);
    }
  }

  /** A redraw from inside a click callback does not show the released button: its state has
      changed and its flag has not. Before the callback it is pressed, drawn and unflagged. */
  method RedrawDuringClick(paint: Painter, rect: Rect, style: int) returns (seen: int, due: int)
    requires Has(rect, 0, 0) && Placed(rect)
    requires paint(Look(rect, style, true, ""), 0, 0) != paint(Look(rect, style, false, ""), 0, 0)
    ensures due == paint(Look(rect, style, false, ""), 0, 0) && seen != due
  {
    var o, b := PressedButton(paint, rect, style);
    var handled, clicked := o.HandleStart(b, Some(Sample(0, 0, false)));
    assert clicked;
    ghost var ws := o.Views();
    assert !Flagged(ws);
    var updated := o.Redraw();
    assert b.Seen() == ws[0].(update := false);
    seen := o.fb[0, 0];
    due := paint(b.Seen().look, 0, 0);
  }
}
