/** What a screen of stacked buttons should look like, and which pixels may differ from that
    before the next redraw. */
module Damage {

  datatype Rect = Rect(x: int, y: int, width: int, height: int)

  // HAS_POINT
  predicate Has(r: Rect, px: int, py: int) {
    r.x <= px < r.x + r.width && r.y <= py < r.y + r.height
  }

  predicate Empty(r: Rect) { r.width == 0 || r.height == 0 }

  // the area of a rectangle is an area
  predicate Proper(r: Rect) { r.width >= 0 && r.height >= 0 }

  // all that drawing a button depends on; the style is its colours and its drawing callback
  datatype Look = Look(rect: Rect, style: int, active: bool, caption: string)

  // a button as redrawing sees it; one without a drawing callback shows what is below it
  datatype View = View(look: Look, draws: bool, show: bool, update: bool)

  type Painter = (Look, int, int) -> int

  const BLACK := 0

  predicate Covers(w: View, x: int, y: int) {
    w.show && w.draws && Has(w.look.rect, x, y)
  }

  // a pixel after painting the first k buttons over black, from the bottom up
  function Repaint(paint: Painter, ws: seq<View>, k: nat, x: int, y: int): int
    requires k <= |ws|
  {
    if k == 0 then BLACK
    else if Covers(ws[k - 1], x, y) then paint(ws[k - 1].look, x, y)
    else Repaint(paint, ws, k - 1, x, y)
  }

  // the topmost of the first k buttons at a point, or -1
  function Top(ws: seq<View>, k: nat, x: int, y: int): (t: int)
    requires k <= |ws|
    ensures -1 <= t < k
  {
    if k == 0 then -1 else if Covers(ws[k - 1], x, y) then k - 1 else Top(ws, k - 1, x, y)
  }

  /** The topmost button is the last one that covers the point, and decides the pixel. */
  lemma {:induction false} TopDecides(paint: Painter, ws: seq<View>, k: nat, x: int, y: int)
    requires k <= |ws|
    ensures var t := Top(ws, k, x, y);
      && -1 <= t < k && (forall i :: t < i < k ==> !Covers(ws[i], x, y))
      && (t >= 0 ==> Covers(ws[t], x, y))
      && Repaint(paint, ws, k, x, y) == if t < 0 then BLACK else paint(ws[t].look, x, y)
  {
    if k > 0 && !Covers(ws[k - 1], x, y) { TopDecides(paint, ws, k - 1, x, y); }
  }

  /** The topmost button is determined by that. */
  lemma {:induction false} TopIs(ws: seq<View>, k: nat, x: int, y: int, t: int)
    requires k <= |ws| && -1 <= t < k && (forall i :: t < i < k ==> !Covers(ws[i], x, y))
    requires t >= 0 ==> Covers(ws[t], x, y)
    ensures Top(ws, k, x, y) == t
  {
    if k > 0 && t < k - 1 { TopIs(ws, k - 1, x, y, t); }
  }

  // between redraws a pixel is right, or in the invalid rectangle, or its button is flagged,
  // or its button is one of those whose change is not flagged yet
  predicate Known(paint: Painter, ws: seq<View>, inv: Rect, pending: set<nat>, c: int, x: int, y: int) {
    || c == Repaint(paint, ws, |ws|, x, y)
    || Has(inv, x, y)
    || var t := Top(ws, |ws|, x, y); t >= 0 && (t in pending || ws[t].update)
  }

  // the same while a redraw has passed the first i buttons: either the pixel is painted up to
  // there and lies in the invalid rectangle, or it is right, or its button is still to come
  predicate Passing(paint: Painter, ws: seq<View>, i: nat, inv: Rect, pending: set<nat>, c: int, x: int, y: int)
    requires i <= |ws|
  {
    || c == Repaint(paint, ws, |ws|, x, y)
    || (Has(inv, x, y) && c == Repaint(paint, ws, i, x, y))
    || var t := Top(ws, |ws|, x, y); t >= 0 && (t in pending || (t >= i && ws[t].update))
  }

  // one button redrawn: `hit` says that it was drawn, and then the pixel shows it where it covers
  lemma Pass(paint: Painter, ws: seq<View>, i: nat, inv: Rect, inv': Rect, hit: bool,
        pending: set<nat>, c: int, c': int, x: int, y: int)
    requires i < |ws| && Passing(paint, ws, i, inv, pending, c, x, y)
    requires Has(inv, x, y) ==> Has(inv', x, y)
    requires hit && Has(ws[i].look.rect, x, y) ==> Has(inv', x, y)
    requires ws[i].show && (ws[i].update || (Has(inv, x, y) && Has(ws[i].look.rect, x, y))) ==> hit
    requires c' == if hit && Covers(ws[i], x, y) then paint(ws[i].look, x, y) else c
    ensures Passing(paint, ws, i + 1, inv', pending, c', x, y)
  {
    TopDecides(paint, ws, |ws|, x, y);
  }

  // one button changed in look or visibility, not in place
  predicate Changed(w: View, w': View) {
    w'.look.rect == w.look.rect && w'.draws == w.draws
  }

  /** A change of one button keeps every pixel known if the button ends flagged or pending, and
      a button that vanished is in the invalid rectangle. */
  lemma Change(paint: Painter, ws: seq<View>, i: nat, w': View, inv: Rect, inv': Rect,
        pending: set<nat>, pending': set<nat>, c: int, x: int, y: int)
    requires i < |ws| && Changed(ws[i], w') && Known(paint, ws, inv, pending, c, x, y)
    requires Has(inv, x, y) ==> Has(inv', x, y)
    requires w'.update || i in pending'
    requires ws[i].show && !w'.show && Has(w'.look.rect, x, y) ==> Has(inv', x, y)
    requires forall j :: j in pending && j != i ==> j in pending'
    ensures Known(paint, ws[i := w'], inv', pending', c, x, y)
  {
    var ws' := ws[i := w'];
    var n := |ws|;
    TopDecides(paint, ws, n, x, y);
    TopDecides(paint, ws', n, x, y);
    var t := Top(ws, n, x, y);
    if w'.show && Covers(w', x, y) && t <= i {
      TopIs(ws', n, x, y, i);
    } else if t != i {
      TopIs(ws', n, x, y, t);
    }
  }

  // a hidden button added on top changes no pixel
  lemma Appended(paint: Painter, ws: seq<View>, w: View, inv: Rect, pending: set<nat>, c: int, x: int, y: int)
    requires !w.show && Known(paint, ws, inv, pending, c, x, y)
    ensures Known(paint, ws + [w], inv, pending, c, x, y)
  {
    TopDecides(paint, ws, |ws|, x, y);
    TopDecides(paint, ws + [w], |ws| + 1, x, y);
    assert forall i :: 0 <= i < |ws| ==> (ws + [w])[i] == ws[i];
    TopIs(ws + [w], |ws| + 1, x, y, Top(ws, |ws|, x, y));
  }

  // ---------------------------------------------------------------- rows of pixels

  const WRAP: int := 0x1_0000_0000

  // the pixels of a row that hline fills, from and up to; widths are unsigned there
  function Span(screen: nat, x: int, width: nat): (int, int) {
    if x >= screen then (0, 0)
    else if x < 0 && (x + width) % WRAP <= 0 then (0, 0)
    else
      var w := if x < 0 then (x + width) % WRAP else width;
      var from := if x < 0 then 0 else x;
      (from, if (from + w) % WRAP >= screen then screen else from + w)
  }

  predicate Filled(screen: nat, x: int, width: nat, px: int) {
    Span(screen, x, width).0 <= px < Span(screen, x, width).1
  }

  predicate Exact(screen: nat, x: int, width: nat) {
    forall px :: 0 <= px < screen ==> (Filled(screen, x, width, px) <==> x <= px < x + width)
  }

  /** A row is filled exactly where the rectangle lies, unless the rectangle ends left of the
      screen: then the whole row is filled. */
  lemma SpanExact(screen: nat, x: int, width: nat)
    requires 0 < screen < WRAP / 2 && -WRAP / 2 <= x && width < WRAP && (0 <= x < screen ==> x + width < WRAP)
    ensures Exact(screen, x, width) <==> x + width >= 0
  {
    if x < 0 && x + width < 0 {
      assert (x + width) % WRAP == x + width + WRAP;
      assert Span(screen, x, width) == (0, screen);
      assert Filled(screen, x, width, 0);
    }
  }
}
