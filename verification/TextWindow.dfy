/**
 * When the window of a text holds its ink. The painter moves a negative origin to zero, the window code
 * clips it away: the window still holds everything as long as the clipped rectangle, in whole bytes,
 * reaches as far as the ink does.
 */
module TextWindow {
  import opened PanelGeometry
  import opened TextRaster
  import opened TextMeaning
  import opened DirtyWindow
  import opened DisplayMeaning

  /** The panel holds the rotated logical area. */
  predicate Placed(p: Panel)
  {
    p.Valid() && p.Holds()
  }

  // ---------------------------------------------------------------- windows as hulls of areas

  /** The rectangle the window code gives to an operation, clipped. */
  function AreaOf(p: Panel, op: Op): Area
    requires op.Text? || op.Rect?
  {
    if op.Rect? then Clip(p, op.x, op.y, op.w, op.h)
    else var s := WindowScale(op.fontHeight); Clip(p, op.x, op.y, |op.text| * 6 * s, 7 * s)
  }

  /** What an operation adds to the window is the image of its clipped area. */
  lemma IncludeOpIsHull(p: Panel, w: Window, op: Op)
    requires Placed(p) && (op.Text? || op.Rect?)
    ensures AreaOf(p, op).Empty() ==> IncludeOp(p, w, op) == w
    ensures !AreaOf(p, op).Empty() ==>
              IncludeOp(p, w, op) == Hull(w, BoxOf(p, AreaOf(p, op)))
              && BoxOf(p, AreaOf(p, op)).Box? && OnPanel(p, BoxOf(p, AreaOf(p, op)))
  {
    var area := AreaOf(p, op);
    if !area.Empty() {
      FourCornersSuffice(p, w, area);
      BoxOnPanel(p, area);
    }
  }

  lemma BoxOnPanel(p: Panel, area: Area)
    requires p.Holds() && !area.Empty() && 0 <= area.left && 0 <= area.top && area.right <= p.lw && area.bottom <= p.lh
    ensures OnPanel(p, BoxOf(p, area)) && BoxOf(p, area).Box?
  {
  }

  lemma HullOnPanel(p: Panel, a: Window, b: Window)
    requires OnPanel(p, a) && OnPanel(p, b)
    ensures OnPanel(p, Hull(a, b))
  {
  }

  lemma HullContains(a: Window, b: Window)
    requires b.Box? ==> b.x0 <= b.x1 && b.y0 <= b.y1
    requires a.Box? ==> a.x0 <= a.x1 && a.y0 <= a.y1
    ensures a.Within(Hull(a, b)) && b.Within(Hull(a, b))
  {
  }

  lemma HullLeast(a: Window, b: Window, v: Window)
    requires b.Box? ==> b.x0 <= b.x1 && b.y0 <= b.y1
    requires a.Box? ==> a.x0 <= a.x1 && a.y0 <= a.y1
    requires a.Within(v) && b.Within(v)
    ensures Hull(a, b).Within(v)
  {
  }

  lemma WithinHas(a: Window, b: Window, x: nat, y: nat)
    requires a.Within(b) && a.Has(x, y)
    ensures b.Has(x, y)
  {
  }

  lemma AlignMonotone(p: Panel, a: Window, b: Window)
    requires p.Valid() && OnPanel(p, a) && OnPanel(p, b) && a.Within(b)
    ensures AlignX(p, a).Within(AlignX(p, b))
  {
    AlignContains(p, b);
    AlignIsLeast(p, a, AlignX(p, b));
  }

  // ---------------------------------------------------------------- the box of a text's ink

  function InkBox(p: Panel, op: Op): Window
    requires Placed(p) && Legible(p, op)
  {
    CornersInked(p, op);
    BoxOf(p, InkArea(p, op))
  }

  /** A pixel inked by some glyph set lies in the ink box. */
  lemma InkInBox(p: Panel, f: Font, op: Op, x: nat, y: nat)
    requires Placed(p) && op.Text? && (IsPainted(p, op) ==> Legible(p, op))
    requires x < p.pw && y < p.ph && Ink(p, f, op, x, y).Some?
    ensures IsPainted(p, op) && InkBox(p, op).Has(x, y)
  {
    var q := ToLogical(p, x, y).value;
    InkInArea(p, f, op, q);
    CornersInked(p, op);
    BoxOfExact(p, InkArea(p, op), x, y);
  }

  /** A window with two opposite corners of an area's image has the whole image. */
  lemma OppositeCorners(p: Panel, a: Area, v: Window)
    requires p.Holds() && !a.Empty() && 0 <= a.left && 0 <= a.top && a.right <= p.lw && a.bottom <= p.lh
    ensures var near, far := ToPhysical(p, a.left, a.top), ToPhysical(p, a.right - 1, a.bottom - 1);
            && near.Some? && far.Some?
            && near.value.x >= 0 && near.value.y >= 0 && far.value.x >= 0 && far.value.y >= 0
            && (v.Has(near.value.x, near.value.y) && v.Has(far.value.x, far.value.y) ==> BoxOf(p, a).Within(v))
  {
  }

  ghost predicate HoldsAllInk(p: Panel, op: Op, v: Window)
  {
    forall f: Font, x: nat, y: nat :: x < p.pw && y < p.ph && Ink(p, f, op, x, y).Some? ==> v.Has(x, y)
  }

  lemma CornerHeld(p: Panel, op: Op, v: Window, lx: nat, ly: nat)
    requires Placed(p) && op.Text? && HoldsAllInk(p, op, v)
    requires lx < p.lw && ly < p.lh && TextInk(p, AllSet(), op, Point(lx, ly)).Some?
    ensures var at := ToPhysical(p, lx, ly); at.Some? && v.Has(at.value.x, at.value.y)
  {
    var at := ToPhysical(p, lx, ly).value;
    MapsAreInverse(p, lx, ly, at.x, at.y);
    assert Ink(p, AllSet(), op, at.x, at.y).Some?;
  }

  /** A window holds whatever the text may ink, under any glyph set, exactly if it holds the ink box. */
  lemma InkBoxExact(p: Panel, op: Op, v: Window)
    requires Placed(p) && Legible(p, op)
    ensures InkBox(p, op).Within(v) <==> HoldsAllInk(p, op, v)
  {
    if InkBox(p, op).Within(v) {
      forall f: Font, x: nat, y: nat | x < p.pw && y < p.ph && Ink(p, f, op, x, y).Some? ensures v.Has(x, y) {
        InkInBox(p, f, op, x, y);
        WithinHas(InkBox(p, op), v, x, y);
      }
    }
    if HoldsAllInk(p, op, v) {
      var a := InkArea(p, op);
      CornersInked(p, op);
      CornerHeld(p, op, v, a.left, a.top);
      CornerHeld(p, op, v, a.right - 1, a.bottom - 1);
      OppositeCorners(p, a, v);
    }
  }

  // ---------------------------------------------------------------- the exact condition

  /** The clipped rectangle reaches as far right and down as the ink. */
  predicate Reaches(p: Panel, op: Op)
    requires IsPainted(p, op)
  {
    var s, t := Scale(op.fontHeight), WindowScale(op.fontHeight);
    var painted := Starting(|op.text|, 6 * s, p.lw - Origin(op.x));
    && (op.x >= 0 || op.x + |op.text| * 6 * t >= Min(painted * (6 * s) - s, p.lw))
    && (op.y >= 0 || op.y + 7 * t >= Min(7 * s, p.lh))
  }

  lemma BoxContains(p: Panel, a: Area, b: Area)
    requires p.Holds() && !a.Empty() && 0 <= a.left && 0 <= a.top && a.right <= p.lw && a.bottom <= p.lh
    requires !b.Empty() && 0 <= b.left && 0 <= b.top && b.right <= p.lw && b.bottom <= p.lh
    ensures BoxOf(p, a).Within(BoxOf(p, b))
            <==> b.left <= a.left && b.top <= a.top && a.right <= b.right && a.bottom <= b.bottom
  {
  }

  lemma ScalesOrdered(fontHeight: int)
    requires fontHeight > 0
    ensures 1 <= Scale(fontHeight) <= 255 && Scale(fontHeight) <= WindowScale(fontHeight)
    ensures fontHeight < 1792 ==> Scale(fontHeight) == WindowScale(fontHeight)
  {
  }

  lemma Wider(k: nat, n: nat, s: nat, t: nat)
    requires k <= n && s <= t
    ensures k * (6 * s) <= n * 6 * t
  {
    Monotone(k, n, 6 * s);
    assert n * (6 * s) == n * 6 * s;
    Monotone(s, t, n * 6);
    assert s * (n * 6) == n * 6 * s && t * (n * 6) == n * 6 * t;
  }

  lemma ReachesExact(p: Panel, op: Op)
    requires Placed(p) && Legible(p, op)
    ensures var a, b := InkArea(p, op), AreaOf(p, op);
            Reaches(p, op) <==>
            !b.Empty() && b.left <= a.left && b.top <= a.top && a.right <= b.right && a.bottom <= b.bottom
  {
    var s, t := Scale(op.fontHeight), WindowScale(op.fontHeight);
    ScalesOrdered(op.fontHeight);
    CornersInked(p, op);
    Wider(Starting(|op.text|, 6 * s, p.lw - Origin(op.x)), |op.text|, s, t);
  }

  lemma AloneIsBox(p: Panel, op: Op)
    requires Placed(p) && (op.Text? || op.Rect?)
    ensures IncludeOp(p, Nothing, op) == if AreaOf(p, op).Empty() then Nothing else BoxOf(p, AreaOf(p, op))
  {
    IncludeOpIsHull(p, Nothing, op);
  }

  lemma ReachingBox(p: Panel, op: Op)
    requires Placed(p) && Legible(p, op)
    ensures Reaches(p, op) <==> InkBox(p, op).Within(IncludeOp(p, Nothing, op))
  {
    var a, b := InkArea(p, op), AreaOf(p, op);
    ReachesExact(p, op);
    CornersInked(p, op);
    AloneIsBox(p, op);
    BoxOnPanel(p, a);
    if !b.Empty() {
      BoxContains(p, a, b);
    }
  }

  /**
   * The window of a text alone, before it is widened to bytes, holds every dot of every glyph set exactly
   * if the text starts on the logical area's side of the axes or its clipped rectangle reaches far enough.
   */
  lemma RectangleHoldsText(p: Panel, op: Op)
    requires Placed(p) && Legible(p, op)
    ensures Reaches(p, op) <==> HoldsAllInk(p, op, IncludeOp(p, Nothing, op))
  {
    ReachingBox(p, op);
    InkBoxExact(p, op, IncludeOp(p, Nothing, op));
  }

  // ---------------------------------------------------------------- in whole bytes

  /** Widening to the bytes of the mirrored RAM is widening to eight columns. */
  lemma AlignIsBytes(p: Panel, w: Window)
    requires p.Valid() && OnPanel(p, w) && w.Box?
    ensures AlignX(p, w) == w.(x0 := w.x0 / 8 * 8, x1 := w.x1 / 8 * 8 + 7)
  {
    var k := p.pw / 8;
    assert p.pw == 8 * k;
    MirroredByte(k, w.x0);
    MirroredByte(k, w.x1);
  }

  lemma MirroredByte(k: nat, x: nat)
    requires x < 8 * k
    ensures (8 * k - 1 - x) / 8 == k - 1 - x / 8
  {
  }

  /** Box `a` lies within the rows of box `b` and within the bytes that hold its columns. */
  predicate WithinBytes(a: Window, b: Window)
    requires a.Box? && b.Box?
  {
    b.x0 / 8 <= a.x0 / 8 && a.x1 / 8 <= b.x1 / 8 && b.y0 <= a.y0 && a.y1 <= b.y1
  }

  lemma WithinBytesExact(p: Panel, a: Window, b: Window)
    requires p.Valid() && a.Box? && b.Box? && OnPanel(p, b)
    ensures WithinBytes(a, b) <==> a.Within(AlignX(p, b))
  {
    AlignIsBytes(p, b);
    EightColumns(a.x0, b.x0);
    EightColumns(b.x1, a.x1);
  }

  lemma EightColumns(x: nat, y: nat)
    ensures y / 8 * 8 <= x <==> y / 8 <= x / 8
    ensures y <= x / 8 * 8 + 7 <==> y / 8 <= x / 8
  {
  }

  /**
   * The clipped rectangle of a text, turned to the panel, reaches every row of the ink and every byte of
   * eight columns that the ink touches. A text that is not painted needs nothing.
   */
  predicate Held(p: Panel, op: Op)
    requires Placed(p)
  {
    IsPainted(p, op) ==>
      Legible(p, op) && !AreaOf(p, op).Empty() && WithinBytes(InkBox(p, op), BoxOf(p, AreaOf(p, op)))
  }

  /** That is: the window of the text alone holds its ink box. */
  lemma HeldExact(p: Panel, op: Op)
    requires Placed(p) && Legible(p, op)
    ensures Held(p, op) <==> InkBox(p, op).Within(AlignX(p, IncludeOp(p, Nothing, op)))
  {
    AloneIsBox(p, op);
    InkBoxIsBox(p, op);
    if !AreaOf(p, op).Empty() {
      BoxOnPanel(p, AreaOf(p, op));
      WithinBytesExact(p, InkBox(p, op), BoxOf(p, AreaOf(p, op)));
    }
  }

  lemma InkBoxIsBox(p: Panel, op: Op)
    requires Placed(p) && Legible(p, op)
    ensures InkBox(p, op).Box?
  {
    CornersInked(p, op);
    BoxOnPanel(p, InkArea(p, op));
  }

  lemma AloneOnPanel(p: Panel, op: Op)
    requires Placed(p) && (op.Text? || op.Rect?)
    ensures OnPanel(p, IncludeOp(p, Nothing, op))
  {
    IncludeOpIsHull(p, Nothing, op);
  }

  /** In particular every text that does not start left of or above the area, and some that do. */
  lemma ReachingTextHeld(p: Panel, op: Op)
    requires Placed(p) && op.Text? && (IsPainted(p, op) ==> Legible(p, op) && Reaches(p, op))
    ensures Held(p, op)
  {
    if IsPainted(p, op) {
      ReachingBox(p, op);
      AloneOnPanel(p, op);
      AlignContains(p, IncludeOp(p, Nothing, op));
      HeldExact(p, op);
    }
  }
}
