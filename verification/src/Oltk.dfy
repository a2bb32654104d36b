/** The toolkit's screen: buttons that change one by one, and the redraw that repairs it. */
module Oltk {
  import opened Common
  import opened Damage
  import opened Panels

  // coordinates and sizes stay below this, so that areas fit an int
  const LIMIT: int := 8192

  // a rectangle that does not end left of the screen
  predicate Placed(r: Rect) {
    && Proper(r) && -LIMIT <= r.x && 0 <= r.x + r.width <= 2 * LIMIT
    && -LIMIT <= r.y && r.y + r.height <= 2 * LIMIT
  }

  // struct oltk_button
  class Button {
    const rect: Rect
    const style: int
    const draws: bool
    var show: bool
    var sensitive: bool
    var active: bool
    var caption: string
    var update: bool

    function Seen(): View
      reads this
    {
      View(Look(rect, style, active, caption), draws, show, update)
    }

    function AsFace(): Face
      reads this
    {
      Face(Look(rect, style, active, caption), draws, show, sensitive)
    }

    // oltk_button_add, as far as it fills the button
    constructor (rect: Rect, style: int, draws: bool)
      ensures Seen() == View(Look(rect, style, false, ""), draws, false, true) && sensitive
    {
      this.rect := rect;
      this.style := style;
      this.draws := draws;
      show, sensitive, active, caption, update := false, true, false, "", true;
    }
  }

  // the fields of rect2 that rect_intersect leaves in rect1, and whether they meet
  method RectIntersect(rect1: Rect, rect2: Rect) returns (meet: bool, r: Rect)
    requires Proper(rect1) && Proper(rect2)
    ensures meet <==> exists x, y :: Has(rect1, x, y) && Has(rect2, x, y)
    ensures forall x, y :: Has(r, x, y) <==> Has(rect1, x, y) && Has(rect2, x, y)
  {
    if rect1.width == 0 || rect1.height == 0 || rect2.width == 0 || rect2.height == 0 {
      return false, rect1.(width := 0);
    }
    var left, right := rect1.x, rect1.x + rect1.width;
    var top, bottom := rect1.y, rect1.y + rect1.height;
    if left < rect2.x { left := rect2.x; }
    if right > rect2.x + rect2.width { right := rect2.x + rect2.width; }
    if left >= right { return false, rect1.(width := 0); }
    if top < rect2.y { top := rect2.y; }
    if bottom > rect2.y + rect2.height { bottom := rect2.y + rect2.height; }
    if top >= bottom { return false, rect1.(width := 0); }
    assert Has(rect1, left, top) && Has(rect2, left, top);
    return true, Rect(left, top, right - left, bottom - top);
  }

  lemma Area(r: Rect)
    requires Proper(r)
    ensures r.width * r.height == 0 <==> Empty(r)
  {
  }

  // the outermost edges of two rectangles make the least rectangle around them
  lemma Surrounds(a: Rect, b: Rect, left: int, top: int, right: int, bottom: int)
    requires Placed(a) && Placed(b)
    requires left == if b.x < a.x then b.x else a.x
    requires top == if b.y < a.y then b.y else a.y
    requires right == if b.x + b.width > a.x + a.width then b.x + b.width else a.x + a.width
    requires bottom == if b.y + b.height > a.y + a.height then b.y + b.height else a.y + a.height
    ensures var r := Rect(left, top, right - left, bottom - top);
      && Placed(r)
      && (forall x, y :: Has(a, x, y) || Has(b, x, y) ==> Has(r, x, y))
      && (forall o :: Around(o, a) && Around(o, b) ==> Around(o, r))
  {
  }

  // struct oltk, with the frame buffer of its struct gr
  class Oltk {
    const cols: nat
    const rows: nat
    const paint: Painter
    const fb: array2<int>
    var zbuttons: seq<Button>
    var invalid: Rect
    var depressed: Button?
    // the buttons whose state changed and whose click callback still runs
    ghost var pending: set<nat>

    ghost predicate Valid()
      reads this, zbuttons
    {
      && fb.Length0 == rows && fb.Length1 == cols && cols < 2 * LIMIT && rows < 2 * LIMIT
      && (forall i, j :: 0 <= i < j < |zbuttons| ==> zbuttons[i] != zbuttons[j])
      && (forall b :: b in zbuttons ==> Placed(b.rect))
      && (Empty(invalid) || Placed(invalid)) && Proper(invalid)
      && (depressed != null ==> depressed in zbuttons)
      && (forall i :: i in pending ==> i < |zbuttons| && !zbuttons[i].active)
    }

    ghost function Views(): (ws: seq<View>)
      reads this`zbuttons, zbuttons
      ensures |ws| == |zbuttons| && forall i :: 0 <= i < |ws| ==> ws[i] == zbuttons[i].Seen()
    {
      var bs := zbuttons;
      seq(|bs|, i requires 0 <= i < |bs| reads bs => bs[i].Seen())
    }

    ghost function Faces(): (fs: seq<Face>)
      reads this`zbuttons, zbuttons
      ensures |fs| == |zbuttons| && forall i :: 0 <= i < |fs| ==> fs[i] == zbuttons[i].AsFace()
    {
      var bs := zbuttons;
      seq(|bs|, i requires 0 <= i < |bs| reads bs => bs[i].AsFace())
    }

    ghost function IndexOf(b: Button): (k: nat)
      requires b in zbuttons
      reads this`zbuttons
      ensures k < |zbuttons| && zbuttons[k] == b
    {
      var k: nat :| k < |zbuttons| && zbuttons[k] == b;
      k
    }

    // the buttons, and which of them is remembered as pressed
    ghost function AsPanel(): (s: Panel)
      requires depressed != null ==> depressed in zbuttons
      reads this`zbuttons, this`depressed, zbuttons
      ensures InRange(s)
    {
      Panel(Faces(), if depressed == null then None else Some(IndexOf(depressed)))
    }

    // one button has changed
    twostate lemma OneFace(k: nat)
      requires zbuttons == old(zbuttons) && k < |zbuttons|
      requires forall i :: 0 <= i < |zbuttons| && i != k ==> zbuttons[i].AsFace() == old(zbuttons[i].AsFace())
      ensures Faces() == old(Faces())[k := zbuttons[k].AsFace()]
    {
    }

    twostate lemma SameDepressed()
      requires zbuttons == old(zbuttons) && depressed == old(depressed)
      requires depressed != null ==> depressed in zbuttons
      ensures AsPanel() == old(AsPanel()).(faces := Faces())
    {
    }

    predicate OnScreen(x: int, y: int) {
      0 <= x < cols && 0 <= y < rows
    }

    // the full repaint of all shown buttons
    ghost function Full(x: int, y: int): int
      reads this`zbuttons, zbuttons
    {
      Repaint(paint, Views(), |zbuttons|, x, y)
    }

    ghost predicate KnownAt(x: int, y: int)
      requires fb.Length0 == rows && fb.Length1 == cols
      reads this`zbuttons, this`invalid, this`pending, zbuttons, fb
    {
      OnScreen(x, y) ==> Known(paint, Views(), invalid, pending, fb[y, x], x, y)
    }

    // what holds of every pixel between redraws
    ghost predicate Sound()
      requires fb.Length0 == rows && fb.Length1 == cols
      reads this`zbuttons, this`invalid, this`pending, zbuttons, fb
    {
      forall x, y {:trigger KnownAt(x, y)} :: KnownAt(x, y)
    }

    // ---------------------------------------------------------------- drawing

    // hline: the widths are unsigned; beyond 2^32 it would write past the frame buffer
    method Hline(x: int, y: int, width: nat, pixel: int)
      requires fb.Length0 == rows && fb.Length1 == cols && cols < 2 * LIMIT
      requires -WRAP / 2 <= x && width < WRAP && (0 <= x < cols ==> x + width < WRAP)
      modifies fb
      ensures forall px, py :: OnScreen(px, py) ==>
        fb[py, px] == if py == y && Filled(cols, x, width, px) then pixel else old(fb[py, px])
    {
      if y < 0 || y >= rows || x >= cols { return; }
      var left, w := x, width;
      if left < 0 {
        if (left + w) % WRAP <= 0 { return; }
        w := (w + left) % WRAP;
        left := 0;
      }
      if (left + w) % WRAP >= cols { w := cols - left; }
      var i := 0;
      while i < w
        invariant 0 <= i <= w
        invariant forall px, py :: OnScreen(px, py) ==>
          fb[py, px] == if py == y && left <= px < left + i then pixel else old(fb[py, px])
      {
        fb[y, left + i] := pixel;
        i := i + 1;
      }
    }

    // fill_rectangle
    method FillRectangle(r: Rect, color: int)
      requires fb.Length0 == rows && fb.Length1 == cols && cols < 2 * LIMIT
      requires Proper(r) && -WRAP / 2 <= r.x && r.width < WRAP && (0 <= r.x < cols ==> r.x + r.width < WRAP)
      modifies fb
      ensures forall px, py :: OnScreen(px, py) ==>
        fb[py, px] == if r.y <= py < r.y + r.height && Filled(cols, r.x, r.width, px) then color else old(fb[py, px])
      ensures r.x + r.width >= 0 ==> forall px, py :: OnScreen(px, py) ==>
        fb[py, px] == if Has(r, px, py) then color else old(fb[py, px])
    {
      var i := 0;
      while i < r.height
        invariant 0 <= i <= r.height
        invariant forall px, py :: OnScreen(px, py) ==>
          fb[py, px] == if r.y <= py < r.y + i && Filled(cols, r.x, r.width, px) then color else old(fb[py, px])
      {
        Hline(r.x, r.y + i, r.width, color);
        i := i + 1;
      }
      if cols > 0 { SpanExact(cols, r.x, r.width); }
    }

    // a button's drawing callback: it fills the button's rectangle
    method Draw(b: Button)
      requires fb.Length0 == rows && fb.Length1 == cols
      modifies fb
      ensures forall px, py :: OnScreen(px, py) ==>
        fb[py, px] == if Has(b.rect, px, py) then paint(b.Seen().look, px, py) else old(fb[py, px])
    {
      forall px, py | 0 <= py < rows && 0 <= px < cols && Has(b.rect, px, py) {
        fb[py, px] := paint(b.Seen().look, px, py);
      }
    }

    // ---------------------------------------------------------------- damage

    // oltk_invalidate: from an empty rectangle to the given one, and otherwise to the least
    // rectangle around both
    method Invalidate(rect: Rect)
      requires Proper(invalid) && (Empty(invalid) || Placed(invalid)) && Placed(rect)
      modifies this`invalid
      ensures Placed(invalid)
      ensures Empty(old(invalid)) ==> invalid == rect
      ensures forall x, y :: Has(old(invalid), x, y) || Has(rect, x, y) ==> Has(invalid, x, y)
      ensures !Empty(old(invalid)) ==> forall r :: Around(r, old(invalid)) && Around(r, rect) ==> Around(r, invalid)
    {
      Area(invalid);
      if invalid.width * invalid.height == 0 {
        invalid := rect;
        return;
      }
      var left, right := invalid.x, invalid.x + invalid.width;
      var top, bottom := invalid.y, invalid.y + invalid.height;
      if rect.x < left { left := rect.x; }
      if rect.x + rect.width > right { right := rect.x + rect.width; }
      if rect.y < top { top := rect.y; }
      if rect.y + rect.height > bottom { bottom := rect.y + rect.height; }
      Surrounds(invalid, rect, left, top, right, bottom);
      invalid := Rect(left, top, right - left, bottom - top);
    }

    // ---------------------------------------------------------------- redrawing

    // only pixels in the rectangle have changed
    twostate predicate Kept(r: Rect)
      requires fb.Length0 == rows && fb.Length1 == cols
      reads fb
    {
      forall x, y :: OnScreen(x, y) && !Has(r, x, y) ==> fb[y, x] == old(fb[y, x])
    }

    // the pixels while a redraw has passed the first i buttons; ws is from before it
    ghost predicate Underway(ws: seq<View>, i: nat)
      requires fb.Length0 == rows && fb.Length1 == cols && i <= |ws|
      reads this`invalid, this`pending, fb
    {
      forall x, y {:trigger PassingAt(ws, i, x, y)} :: PassingAt(ws, i, x, y)
    }

    ghost predicate PassingAt(ws: seq<View>, i: nat, x: int, y: int)
      requires fb.Length0 == rows && fb.Length1 == cols && i <= |ws|
      reads this`invalid, this`pending, fb
    {
      OnScreen(x, y) ==> Passing(paint, ws, i, invalid, pending, fb[y, x], x, y)
    }

    // flags are reset for the first i buttons, and nothing else has changed
    ghost predicate Reset(ws: seq<View>, i: nat)
      requires |ws| == |zbuttons|
      reads this`zbuttons, zbuttons
    {
      forall j :: 0 <= j < |ws| ==> zbuttons[j].Seen() == if j < i then ws[j].(update := false) else ws[j]
    }

    // a button is drawn if it is flagged or meets the invalid rectangle, which then grows
    method DrawShown(b: Button) returns (hit: bool)
      requires Valid() && Placed(b.rect)
      modifies this`invalid, fb
      ensures hit ==> b.show && (b.update || !Empty(old(invalid)))
      ensures forall x, y :: b.show && (b.update || (Has(old(invalid), x, y) && Has(b.rect, x, y))) ==> hit
      ensures if hit then Placed(invalid) else invalid == old(invalid)
      ensures forall x, y :: Has(old(invalid), x, y) || (hit && Has(b.rect, x, y)) ==> Has(invalid, x, y)
      ensures forall x, y :: OnScreen(x, y) ==>
        fb[y, x] == if hit && b.draws && Has(b.rect, x, y) then paint(b.Seen().look, x, y) else old(fb[y, x])
    {
      hit := false;
      if b.show {
        hit := b.update;
        if !hit {
          var rect;
          hit, rect := RectIntersect(invalid, b.rect);
        }
        if hit {
          if b.draws { Draw(b); }
          Invalidate(b.rect);
        }
      }
    }

    // the body of the loop of oltk_redraw
    method RedrawOne(i: nat, ghost ws: seq<View>)
      requires Valid() && i < |zbuttons| == |ws| && Reset(ws, i) && Underway(ws, i)
      modifies this`invalid, fb, {zbuttons[i]}
      ensures zbuttons[i].sensitive == old(zbuttons[i].sensitive)
      ensures Valid() && Reset(ws, i + 1) && Underway(ws, i + 1)
      ensures Within(old(invalid), invalid) && Kept(invalid)
      ensures Empty(old(invalid)) && !(ws[i].show && ws[i].update) ==> invalid == old(invalid)
    {
      var b := zbuttons[i];
      assert b.Seen() == ws[i];
      var hit := DrawShown(b);
      forall x, y | OnScreen(x, y) ensures PassingAt(ws, i + 1, x, y) {
        assert old(PassingAt(ws, i, x, y));
        Pass(paint, ws, i, old(invalid), invalid, hit, pending, old(fb[y, x]), fb[y, x], x, y);
      }
      b.update := false;
    }

    // the part of oltk_redraw before the loop
    method Clear(ghost ws: seq<View>)
      requires Valid() && Sound() && ws == Views()
      modifies fb
      ensures Underway(ws, 0) && Kept(invalid)
    {
      if invalid.width * invalid.height != 0 {
        FillRectangle(invalid, BLACK);
      }
      forall x, y | OnScreen(x, y) ensures PassingAt(ws, 0, x, y) {
        assert old(KnownAt(x, y));
      }
    }

    // every pixel is as after a full repaint, except where the topmost button is pending
    ghost predicate Shown()
      requires fb.Length0 == rows && fb.Length1 == cols
      reads this`zbuttons, this`pending, zbuttons, fb
    {
      forall x, y {:trigger ShownAt(x, y)} :: ShownAt(x, y)
    }

    ghost predicate ShownAt(x: int, y: int)
      requires fb.Length0 == rows && fb.Length1 == cols
      reads this`zbuttons, this`pending, zbuttons, fb
    {
      OnScreen(x, y) ==> fb[y, x] == Full(x, y) || Top(Views(), |Views()|, x, y) in pending
    }

    lemma Finished(ws: seq<View>)
      requires Valid() && |ws| == |zbuttons| && Reset(ws, |ws|) && Underway(ws, |ws|)
      ensures Shown()
    {
      forall x, y | OnScreen(x, y) ensures ShownAt(x, y) {
        assert PassingAt(ws, |ws|, x, y);
        SameLooks(paint, ws, Views(), |ws|, x, y);
      }
    }

    // the loop of oltk_redraw
    method RedrawButtons(ghost ws: seq<View>)
      requires Valid() && ws == Views() && Underway(ws, 0)
      modifies this`invalid, fb, zbuttons
      ensures Valid() && Reset(ws, |ws|) && Underway(ws, |ws|)
      ensures forall b :: b in zbuttons ==> b.sensitive == old(b.sensitive)
      ensures Within(old(invalid), invalid) && Kept(invalid)
      ensures Empty(old(invalid)) && !Flagged(ws) ==> invalid == old(invalid)
    {
      var i := 0;
      while i < |zbuttons|
        invariant 0 <= i <= |zbuttons| == |ws|
        invariant Valid() && Reset(ws, i) && Underway(ws, i)
        invariant forall b :: b in zbuttons ==> b.sensitive == old(b.sensitive)
        invariant Within(old(invalid), invalid) && Kept(invalid)
        invariant Empty(old(invalid)) && !Flagged(ws) ==> invalid == old(invalid)
      {
        RedrawOne(i, ws);
        i := i + 1;
      }
    }

    // the rectangle goes to the display and is reset
    method HandOver() returns (updated: Rect)
      requires Valid() && Shown()
      modifies this`invalid
      ensures Valid() && Shown() && Sound() && Empty(invalid) && updated == old(invalid)
    {
      updated := invalid;
      invalid := invalid.(width := 0);
      forall x, y | OnScreen(x, y) ensures KnownAt(x, y) {
        assert ShownAt(x, y);
        TopDecides(paint, Views(), |zbuttons|, x, y);
      }
    }

    /** After a redraw every pixel is as after a full repaint of all shown buttons, except where
        the topmost button's click callback still runs; no button is flagged; and the rectangle
        handed to the display contains all that changed. */
    method Redraw() returns (updated: Rect)
      requires Valid() && Sound()
      modifies this`invalid, fb, zbuttons
      ensures Valid() && Sound() && Empty(invalid) && Reset(old(Views()), |zbuttons|) && Shown() && Kept(updated)
      ensures forall b :: b in zbuttons ==> b.sensitive == old(b.sensitive)
      ensures Empty(old(invalid)) && !Flagged(old(Views())) ==> Empty(updated)
    {
      ghost var ws := Views();
      Clear(ws);
      RedrawButtons(ws);
      Finished(ws);
      updated := HandOver();
    }

    // ---------------------------------------------------------------- changes

    // oltk_new
    constructor (cols: nat, rows: nat, paint: Painter)
      requires cols < 2 * LIMIT && rows < 2 * LIMIT
      ensures Valid() && Sound() && Shown() && zbuttons == [] && pending == {} && fresh(fb) && Empty(invalid)
      ensures AsPanel() == BLANK
      ensures this.cols == cols && this.rows == rows && this.paint == paint
    {
      this.cols := cols;
      this.rows := rows;
      this.paint := paint;
      fb := new int[rows, cols];
      zbuttons, depressed, pending := [], null, {};
      invalid := Rect(0, 0, 0, 0);
      new;
      FillRectangle(Rect(0, 0, cols, rows), BLACK);
      forall x, y | OnScreen(x, y) ensures KnownAt(x, y) && ShownAt(x, y) {
        assert Has(Rect(0, 0, cols, rows), x, y);
      }
    }

    // oltk_button_add
    method ButtonAdd(rect: Rect, style: int, draws: bool) returns (b: Button)
      requires Valid() && Sound() && Placed(rect)
      modifies this`zbuttons
      ensures Valid() && Sound() && fresh(b) && zbuttons == old(zbuttons) + [b]
      ensures b.Seen() == View(Look(rect, style, false, ""), draws, false, true) && b.sensitive
    {
      b := new Button(rect, style, draws);
      ghost var ws := Views();
      zbuttons := zbuttons + [b];
      assert Views() == ws + [b.Seen()];
      forall x, y | OnScreen(x, y) ensures KnownAt(x, y) {
        assert old(KnownAt(x, y));
        Appended(paint, ws, b.Seen(), invalid, pending, fb[y, x], x, y);
      }
    }

    // one button has changed, and is flagged or pending now; if it has vanished its rectangle
    // is invalid
    twostate lemma ChangedOne(k: nat)
      requires fb.Length0 == rows && fb.Length1 == cols
      requires zbuttons == old(zbuttons) && k < |zbuttons| && Changed(old(zbuttons[k].Seen()), zbuttons[k].Seen())
      requires forall i :: 0 <= i < |zbuttons| && i != k ==> zbuttons[i].Seen() == old(zbuttons[i].Seen())
      requires old(Sound()) && unchanged(fb) && Within(old(invalid), invalid)
      requires zbuttons[k].update || k in pending
      requires old(zbuttons[k].show) && !zbuttons[k].show ==> Within(zbuttons[k].rect, invalid)
      requires forall i :: i in old(pending) && i != k ==> i in pending
      ensures Sound()
    {
      assert Views() == old(Views())[k := zbuttons[k].Seen()];
      forall x, y | OnScreen(x, y) ensures KnownAt(x, y) {
        assert old(KnownAt(x, y));
        Change(paint, old(Views()), k, zbuttons[k].Seen(), old(invalid), invalid,
          old(pending), pending, fb[y, x], x, y);
      }
    }

    // oltk_button_show
    method ButtonShow(b: Button, show: bool)
      requires Valid() && Sound() && b in zbuttons
      modifies this`invalid, b`show, b`update
      ensures Valid() && Sound() && b.show == show && (b.update <==> old(b.update) || show != old(b.show))
    {
      if b.show != show {
        b.show := show;
        b.update := true;
        if !b.show { Invalidate(b.rect); }
        ChangedOne(IndexOf(b));
      }
    }

    // oltk_button_set_name, and oltk_view_set_text and oltk_view_append_text alike
    method ButtonSetName(b: Button, name: string)
      requires Valid() && Sound() && b in zbuttons
      modifies b`caption, b`update
      ensures Valid() && Sound() && b.caption == name && b.update
    {
      b.caption := name;
      b.update := true;
      ChangedOne(IndexOf(b));
    }

    // oltk_button_sensitive
    method ButtonSensitive(b: Button, sensitive: bool)
      requires Valid() && Sound() && b in zbuttons
      modifies b`sensitive
      ensures Valid() && Sound() && b.sensitive == sensitive
    {
      b.sensitive := sensitive;
      assert Views() == old(Views());
      forall x, y | OnScreen(x, y) ensures KnownAt(x, y) {
        assert old(KnownAt(x, y));
      }
    }

    // a button is pressed or released; it is flagged, or after a click its change is pending
    method Activated(b: Button, active: bool, clicked: bool)
      requires Valid() && Sound() && b in zbuttons && b.active != active && (clicked ==> !active)
      modifies this`pending, b`active, b`update
      ensures Valid() && Sound() && b.active == active && (b.update <==> old(b.update) || !clicked)
      ensures pending == if clicked then old(pending) + {IndexOf(b)} else old(pending) - {IndexOf(b)}
    {
      b.active := active;
      if clicked {
        pending := pending + {IndexOf(b)};
      } else {
        b.update := true;
        pending := pending - {IndexOf(b)};
      }
      ChangedOne(IndexOf(b));
    }

    // button_handle does not see a click callback return: everything, or, if there is a click,
    // the part before its callback; without a sample the button is only released
    method HandleStart(b: Button, e: Option<Sample>) returns (handled: bool, clicked: bool)
      requires Valid() && Sound() && b in zbuttons
      modifies this`pending, b`active, b`update
      ensures Valid() && Sound()
      ensures handled <==> Takes(old(b.AsFace()), e)
      ensures clicked <==> e.Some? && Clicks(old(b.AsFace()), e.value)
      ensures b.AsFace() == Handled(old(b.AsFace()), e)
      ensures pending == if clicked
        then old(pending) + {IndexOf(b)}
        else if b.active == old(b.active) then old(pending) else old(pending) - {IndexOf(b)}
      ensures b.update <==> old(b.update) || (b.active != old(b.active) && !clicked)
    {
      handled, clicked := false, false;
      if !b.show || !b.sensitive { return; }
      var active := b.active;
      if e.Some? && Has(b.rect, e.value.x, e.value.y) {
        if e.value.pressure {
          if !b.active { active := true; }
        } else {
          if b.active {
            active := false;
            clicked := true;
          }
        }
        handled := true;
      } else {
        if b.active { active := false; }
      }
      if b.active != active { Activated(b, active, clicked); }
    }

    // the rest of button_handle after a click, whatever happened in its callback
    method HandleEnd(b: Button)
      requires Valid() && Sound() && b in zbuttons
      modifies this`pending, b`update
      ensures Valid() && Sound() && pending == old(pending) - {IndexOf(b)} && AsPanel() == old(AsPanel())
      ensures b.update <==> old(b.update) || !b.active
    {
      if !b.active {
        b.update := true;
        pending := pending - {IndexOf(b)};
        ChangedOne(IndexOf(b));
      }
      assert Faces() == old(Faces());
    }

    // button_handle on one button, up to a click callback
    method ButtonHandle(k: nat, e: Option<Sample>) returns (handled: bool, clicked: bool)
      requires Valid() && Sound() && k < |zbuttons|
      modifies this`pending, {zbuttons[k]}
      ensures Valid() && Sound() && Faces() == old(Faces())[k := Handled(old(Faces())[k], e)]
      ensures pending <= if clicked then old(pending) + {k} else old(pending)
      ensures handled <==> Takes(old(Faces())[k], e)
      ensures clicked <==> e.Some? && Clicks(old(Faces())[k], e.value)
    {
      handled, clicked := HandleStart(zbuttons[k], e);
      OneFace(k);
    }

    // the first n of the buttons are still to be offered the sample; was is from before the loop
    ghost predicate Offering(was: seq<Face>, n: nat, e: Sample)
      reads this`zbuttons, zbuttons
    {
      n <= |was| == |zbuttons| && Passed(was, Faces(), n, e)
    }

    // the body of the loop of oltk_feed
    method OfferNext(n: nat, e: Sample, ghost was: seq<Face>) returns (handled: bool, clicked: bool)
      requires Valid() && Sound() && 0 < n && Offering(was, n, e)
      modifies this`pending, {zbuttons[n - 1]}
      ensures Valid() && Sound() && pending <= if clicked then old(pending) + {n - 1} else old(pending)
      ensures if handled then Offered(was, |was|, e) == (Faces(), n) else Offering(was, n - 1, e) && !clicked
      ensures clicked <==> Clicks(was[n - 1], e)
    {
      handled, clicked := ButtonHandle(n - 1, Some(e));
      if handled { PassedTaken(was, Faces(), n, e); }
    }

    // the loop of oltk_feed, up to a click callback: how many buttons are left when one takes the
    // sample
    method Offer(e: Sample) returns (n: nat, clicked: bool)
      requires Valid() && Sound()
      modifies this`pending, zbuttons
      ensures Valid() && Sound() && n <= |zbuttons|
      ensures Offered(old(Faces()), |zbuttons|, e) == (Faces(), n)
      ensures clicked <==> n > 0 && Clicks(old(Faces())[n - 1], e)
      ensures pending <= if clicked then old(pending) + {n - 1} else old(pending)
    {
      ghost var was := Faces();
      n := |zbuttons|;
      clicked := false;
      while n > 0
        invariant Valid() && Sound() && Offering(was, n, e) && pending <= old(pending) && !clicked
      {
        var handled;
        handled, clicked := OfferNext(n, e, was);
        if handled { return; }
        n := n - 1;
      }
      PassedAll(was, Faces(), e);
    }

    // another button that is remembered as pressed is released
    method ReleaseOther(k: nat)
      requires Valid() && Sound() && k < |zbuttons|
      modifies this`pending, zbuttons
      ensures Valid() && Sound() && pending <= old(pending) && Faces() == Released(old(AsPanel()), k)
    {
      if depressed != null && zbuttons[k] != depressed {
        ghost var d := IndexOf(depressed);
        var handled, clicked := HandleStart(depressed, None);
        OneFace(d);
      }
    }

    method Remember(k: Option<nat>)
      requires Valid() && Sound() && (k.Some? ==> k.value < |zbuttons|)
      modifies this`depressed
      ensures Valid() && Sound() && AsPanel() == Panel(old(Faces()), k)
    {
      depressed := if k.Some? then zbuttons[k.value] else null;
      assert Faces() == old(Faces());
    }

    // the part of oltk_feed for the button k that took the sample
    method Taken(k: nat)
      requires Valid() && Sound() && k < |zbuttons|
      modifies this`depressed, this`pending, zbuttons
      ensures Valid() && Sound() && pending <= old(pending) && AsPanel() == Took(old(AsPanel()), k)
    {
      ReleaseOther(k);
      Remember(if zbuttons[k].active then Some(k) else None);
    }

    // the rest of oltk_feed, when n buttons are left
    method FeedEnd(n: nat, clicked: bool)
      requires Valid() && Sound() && n <= |zbuttons| && (clicked ==> n > 0)
      modifies this`depressed, this`pending, zbuttons
      ensures Valid() && Sound() && AsPanel() == Ended(old(AsPanel()), n)
      ensures pending <= if clicked then old(pending) - {n - 1} else old(pending)
    {
      if n == 0 {
        Remember(None);
      } else {
        if clicked { HandleEnd(zbuttons[n - 1]); }
        Taken(n - 1);
      }
    }
  }

  ghost predicate Within(inner: Rect, r: Rect) {
    forall x, y :: Has(inner, x, y) ==> Has(r, x, y)
  }

  // a shown button waits to be drawn
  predicate Flagged(ws: seq<View>) {
    exists w :: w in ws && w.show && w.update
  }

  // resetting flags changes neither what covers a point nor what is painted
  lemma {:induction false} SameLooks(paint: Painter, ws: seq<View>, vs: seq<View>, k: nat, x: int, y: int)
    requires k <= |ws| == |vs| && forall i :: 0 <= i < |ws| ==> vs[i] == ws[i].(update := false)
    ensures Repaint(paint, vs, k, x, y) == Repaint(paint, ws, k, x, y) && Top(vs, k, x, y) == Top(ws, k, x, y)
  {
    if k > 0 { SameLooks(paint, ws, vs, k - 1, x, y); }
  }

  predicate Around(r: Rect, inner: Rect) {
    r.x <= inner.x && inner.x + inner.width <= r.x + r.width
      && r.y <= inner.y && inner.y + inner.height <= r.y + r.height
  }
}
