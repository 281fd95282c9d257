/**
 * The partial-refresh window: the part of the panel that may differ between two display lists. The
 * window record grows in place; the meaning of each step is a function on window values.
 */
module DirtyWindow {
  import opened PanelGeometry

  /** Both corners are inside. */
  datatype Window = Nothing | Box(x0: nat, y0: nat, x1: nat, y1: nat)
  {
    predicate Has(x: int, y: int) {
      Box? && x0 <= x <= x1 && y0 <= y <= y1
    }

    predicate Within(other: Window) {
      Box? ==> other.Box? && other.x0 <= x0 && x1 <= other.x1 && other.y0 <= y0 && y1 <= other.y1
    }
  }

  /** The least window that contains a window and a point. */
  function Include(w: Window, x: nat, y: nat): Window
  {
    match w
    case Nothing => Box(x, y, x, y)
    case Box(x0, y0, x1, y1) =>
      Box(if x < x0 then x else x0, if y < y0 then y else y0, if x > x1 then x else x1, if y > y1 then y else y1)
  }

  /** The least window that contains two windows. */
  function Hull(a: Window, b: Window): Window
  {
    if b.Nothing? then a else Include(Include(a, b.x0, b.y0), b.x1, b.y1)
  }

  function FullPanel(p: Panel): Window
    requires p.Valid()
  {
    Box(0, 0, p.pw - 1, p.ph - 1)
  }

  function IncludePoint(p: Panel, w: Window, lx: nat, ly: nat): Window
  {
    match ToPhysical(p, lx, ly)
    case None => w
    case Some(q) => Include(w, q.x, q.y)
  }

  function IncludePoints(p: Panel, w: Window, points: seq<(nat, nat)>): Window
  {
    if points == [] then w
    else
      var last := points[|points| - 1];
      IncludePoint(p, IncludePoints(p, w, points[..|points| - 1]), last.0, last.1)
  }

  function Corners(area: Area): (c: seq<(nat, nat)>)
    requires !area.Empty() && 0 <= area.left && 0 <= area.top
    ensures |c| == 4
  {
    [(area.left, area.top), (area.right - 1, area.top), (area.left, area.bottom - 1), (area.right - 1, area.bottom - 1)]
  }

  /** Clip, map the four corners, and grow the window by those that land on the panel. */
  function IncludeRect(p: Panel, w: Window, x: int, y: int, width: int, height: int): Window
  {
    var area := Clip(p, x, y, width, height);
    if width <= 0 || height <= 0 || area.Empty() then w else IncludePoints(p, w, Corners(area))
  }

  /** The window code keeps the dot size in 32 bits. */
  function WindowScale(fontHeight: int): int
  {
    var s := if fontHeight >= 0 then fontHeight / 7 else -((-fontHeight) / 7);
    if s <= 0 then 1 else s
  }

  function IncludeOp(p: Panel, w: Window, op: Op): Window
    requires p.Valid()
  {
    match op
    case Clear(_, _, _) => w
    case Text(x, y, text, fontHeight, _) =>
      var scale := WindowScale(fontHeight);
      IncludeRect(p, w, x, y, |text| * 6 * scale, 7 * scale)
    case Rect(x, y, width, height, _, _) => IncludeRect(p, w, x, y, width, height)
    case Drawable(_, _) => FullPanel(p)
  }

  /** Field by field comparison; a drawable has nothing but its position to compare. */
  predicate OpEqual(a: Op, b: Op)
  {
    if a.x != b.x || a.y != b.y then false
    else
      match (a, b)
      case (Clear(_, _, c), Clear(_, _, d)) => c == d
      case (Text(_, _, t, h, c), Text(_, _, u, k, d)) => t == u && h == k && c == d
      case (Rect(_, _, w, h, f, s), Rect(_, _, v, k, e, r)) => w == v && h == k && f == e && s == r
      case (Drawable(_, _), Drawable(_, _)) => true
      case _ => false
  }

  lemma OpEqualIsEquality(a: Op, b: Op)
    ensures OpEqual(a, b) <==> a == b
  {
  }

  function LastClear(ops: seq<Op>): Color
  {
    if ops == [] then UNSET
    else if ops[|ops| - 1].Clear? then ops[|ops| - 1].color
    else LastClear(ops[..|ops| - 1])
  }

  predicate Unshared(op: Op, other: seq<Op>)
  {
    !op.Clear? && op !in other
  }

  /** Grow by the first `n` operations that the other list does not have. */
  function IncludeUnshared(p: Panel, w: Window, ops: seq<Op>, other: seq<Op>): Window
    requires p.Valid()
  {
    if ops == [] then w
    else
      var front := IncludeUnshared(p, w, ops[..|ops| - 1], other);
      if Unshared(ops[|ops| - 1], other) then IncludeOp(p, front, ops[|ops| - 1]) else front
  }

  /** Widen to whole bytes of the mirrored RAM. */
  function AlignX(p: Panel, w: Window): Window
    requires p.Valid()
  {
    if w.Nothing? || w.x0 >= p.pw || w.x1 >= p.pw then w
    else
      var byte0, byte1 := (p.pw - 1 - w.x1) / 8, (p.pw - 1 - w.x0) / 8;
      w.(x0 := p.pw - 1 - (byte1 * 8 + 7), x1 := p.pw - 1 - byte0 * 8)
  }

  function Dirty(p: Panel, previous: seq<Op>, current: seq<Op>): Window
    requires p.Valid()
  {
    if LastClear(previous) != LastClear(current) then FullPanel(p)
    else AlignX(p, IncludeUnshared(p, IncludeUnshared(p, Nothing, previous, current), current, previous))
  }

  // ---------------------------------------------------------------- the record that grows in place

  class WindowRecord {
    var valid: bool
    var x0: nat
    var y0: nat
    var x1: nat
    var y1: nat

    function Value(): Window
      reads this
    {
      if valid then Box(x0, y0, x1, y1) else Nothing
    }

    constructor ()
      ensures Value() == Nothing
    {
      valid, x0, y0, x1, y1 := false, 0, 0, 0, 0;
    }

    method IncludeXY(x: nat, y: nat)
      modifies this
      ensures Value() == Include(old(Value()), x, y)
    {
      if !valid {
        valid, x0, x1, y0, y1 := true, x, x, y, y;
        return;
      }
      if x < x0 {
        x0 := x;
      }
      if x > x1 {
        x1 := x;
      }
      if y < y0 {
        y0 := y;
      }
      if y > y1 {
        y1 := y;
      }
    }

    method IncludeFull(p: Panel)
      requires p.Valid()
      modifies this
      ensures Value() == FullPanel(p)
    {
      valid, x0, y0, x1, y1 := true, 0, 0, p.pw - 1, p.ph - 1;
    }

    method AlignXToRamBytes(p: Panel)
      requires p.Valid()
      modifies this
      ensures Value() == AlignX(p, old(Value()))
    {
      if !valid || x0 >= p.pw || x1 >= p.pw {
        return;
      }
      var ramX0, ramX1 := p.pw - 1 - x1, p.pw - 1 - x0;
      var ramByte0, ramByte1 := ramX0 / 8, ramX1 / 8;
      x0 := p.pw - 1 - (ramByte1 * 8 + 7);
      x1 := p.pw - 1 - ramByte0 * 8;
    }

    method IncludeLogicalRect(p: Panel, x: int, y: int, w: int, h: int)
      requires p.Valid()
      modifies this
      ensures Value() == IncludeRect(p, old(Value()), x, y, w, h)
    {
      if w <= 0 || h <= 0 {
        return;
      }
      var left, top, right, bottom := x, y, x + w, y + h;
      if left < 0 {
        left := 0;
      }
      if top < 0 {
        top := 0;
      }
      if right > p.lw {
        right := p.lw;
      }
      if bottom > p.lh {
        bottom := p.lh;
      }
      if left >= right || top >= bottom {
        return;
      }
      var corners := Corners(Area(left, top, right, bottom));
      for i := 0 to 4
        invariant Value() == IncludePoints(p, old(Value()), corners[..i])
      {
        assert corners[..i + 1][..i] == corners[..i];
        IncludeLogicalPoint(p, corners[i].0, corners[i].1);
      }
      assert corners[..4] == corners;
    }

    method IncludeLogicalPoint(p: Panel, lx: nat, ly: nat)
      modifies this
      ensures Value() == IncludePoint(p, old(Value()), lx, ly)
    {
      var at := ToPhysical(p, lx, ly);
      if at.Some? {
        IncludeXY(at.value.x, at.value.y);
      }
    }

    method IncludeOperation(p: Panel, op: Op)
      requires p.Valid()
      modifies this
      ensures Value() == IncludeOp(p, old(Value()), op)
    {
      match op {
        case Clear(_, _, _) =>
        case Text(x, y, text, fontHeight, _) =>
          var scale := WindowScale(fontHeight);
          IncludeLogicalRect(p, x, y, |text| * 6 * scale, 7 * scale);
        case Rect(x, y, w, h, _, _) =>
          IncludeLogicalRect(p, x, y, w, h);
        case Drawable(_, _) =>
          IncludeFull(p);
      }
    }

    method IncludeMissing(p: Panel, ops: seq<Op>, other: seq<Op>)
      requires p.Valid()
      modifies this
      ensures Value() == IncludeUnshared(p, old(Value()), ops, other)
    {
      for i := 0 to |ops|
        invariant Value() == IncludeUnshared(p, old(Value()), ops[..i], other)
      {
        assert ops[..i + 1][..i] == ops[..i];
        if !ops[i].Clear? {
          var shared := OpExistsIn(ops[i], other);
          if !shared {
            IncludeOperation(p, ops[i]);
          }
        }
      }
      assert ops[..|ops|] == ops;
    }

    /** Compute the window of two lists into this record; the result says whether there is one. */
    method Compute(p: Panel, previous: seq<Op>, current: seq<Op>) returns (found: bool)
      requires p.Valid()
      modifies this
      ensures Value() == Dirty(p, previous, current)
      ensures found == Value().Box?
    {
      valid, x0, y0, x1, y1 := false, 0, 0, 0, 0;
      var previousClear := LastClearColor(previous);
      var currentClear := LastClearColor(current);
      if IsSet(previousClear) != IsSet(currentClear) || (IsSet(previousClear) && previousClear != currentClear) {
        IncludeFull(p);
        return valid;
      }
      IncludeMissing(p, previous, current);
      IncludeMissing(p, current, previous);
      AlignXToRamBytes(p);
      found := valid;
    }
  }

  method OpExistsIn(op: Op, ops: seq<Op>) returns (found: bool)
    ensures found <==> op in ops
  {
    for i := 0 to |ops|
      invariant op !in ops[..i]
    {
      OpEqualIsEquality(op, ops[i]);
      if OpEqual(op, ops[i]) {
        return true;
      }
    }
    found := false;
  }

  method LastClearColor(ops: seq<Op>) returns (color: Color)
    ensures color == LastClear(ops)
  {
    color := UNSET;
    for i := 0 to |ops|
      invariant color == LastClear(ops[..i])
    {
      assert ops[..i + 1][..i] == ops[..i];
      if ops[i].Clear? {
        color := ops[i].color;
      }
    }
    assert ops[..|ops|] == ops;
  }

  // ---------------------------------------------------------------- geometry of the window

  /** The panel box under a non-empty clipped area. */
  function BoxOf(p: Panel, area: Area): Window
    requires p.Holds() && !area.Empty() && 0 <= area.left && 0 <= area.top && area.right <= p.lw && area.bottom <= p.lh
  {
    if p.rotation == 0 then Box(area.left, area.top, area.right - 1, area.bottom - 1)
    else if p.rotation == 90 then Box(area.top, p.lw - area.right, area.bottom - 1, p.lw - 1 - area.left)
    else if p.rotation == 180 then
      Box(p.lw - area.right, p.lh - area.bottom, p.lw - 1 - area.left, p.lh - 1 - area.top)
    else Box(p.lh - area.bottom, area.left, p.lh - 1 - area.top, area.right - 1)
  }

  /** The box holds exactly the panel pixels whose logical point is in the area. */
  lemma BoxOfExact(p: Panel, area: Area, x: nat, y: nat)
    requires p.Holds() && !area.Empty() && 0 <= area.left && 0 <= area.top && area.right <= p.lw && area.bottom <= p.lh
    requires x < p.pw && y < p.ph
    ensures BoxOf(p, area).Has(x, y) <==>
            ToLogical(p, x, y).Some? && area.Has(ToLogical(p, x, y).value.x, ToLogical(p, x, y).value.y)
  {
  }

  function IncludeFour(w: Window, a: Point, b: Point, c: Point, d: Point): Window
    requires a.x >= 0 && a.y >= 0 && b.x >= 0 && b.y >= 0 && c.x >= 0 && c.y >= 0 && d.x >= 0 && d.y >= 0
  {
    Include(Include(Include(Include(w, a.x, a.y), b.x, b.y), c.x, c.y), d.x, d.y)
  }

  lemma UnfoldFour(p: Panel, w: Window, points: seq<(nat, nat)>, a: Point, b: Point, c: Point, d: Point)
    requires |points| == 4
    requires ToPhysical(p, points[0].0, points[0].1) == Some(a) && ToPhysical(p, points[1].0, points[1].1) == Some(b)
    requires ToPhysical(p, points[2].0, points[2].1) == Some(c) && ToPhysical(p, points[3].0, points[3].1) == Some(d)
    ensures IncludePoints(p, w, points) == IncludeFour(w, a, b, c, d)
  {
    var w1 := Include(w, a.x, a.y);
    var w2 := Include(w1, b.x, b.y);
    var w3 := Include(w2, c.x, c.y);
    assert points[..4] == points;
    assert points[..1][..0] == [] && points[..2][..1] == points[..1];
    assert points[..3][..2] == points[..2] && points[..4][..3] == points[..3];
    assert IncludePoints(p, w, points[..0]) == w;
    assert IncludePoints(p, w, points[..1]) == w1;
    assert IncludePoints(p, w, points[..2]) == w2;
    assert IncludePoints(p, w, points[..3]) == w3;
  }

  /** Opposite corners of a box, visited in any of the orders the rotations produce. */
  lemma FourIsHull(w: Window, x0: nat, y0: nat, x1: nat, y1: nat)
    requires x0 <= x1 && y0 <= y1
    ensures var sw, se, nw, ne := Point(x0, y0), Point(x1, y0), Point(x0, y1), Point(x1, y1);
            && IncludeFour(w, sw, se, nw, ne) == Hull(w, Box(x0, y0, x1, y1))
            && IncludeFour(w, nw, sw, ne, se) == Hull(w, Box(x0, y0, x1, y1))
            && IncludeFour(w, ne, nw, se, sw) == Hull(w, Box(x0, y0, x1, y1))
            && IncludeFour(w, se, ne, sw, nw) == Hull(w, Box(x0, y0, x1, y1))
  {
  }

  /** Where the four corners of an area land, in the order the window code visits them. */
  function CornerImages(p: Panel, box: Window): (Point, Point, Point, Point)
    requires box.Box?
  {
    var sw, se, nw, ne := Point(box.x0, box.y0), Point(box.x1, box.y0), Point(box.x0, box.y1), Point(box.x1, box.y1);
    if p.rotation == 0 then (sw, se, nw, ne)
    else if p.rotation == 90 then (nw, sw, ne, se)
    else if p.rotation == 180 then (ne, nw, se, sw)
    else (se, ne, sw, nw)
  }

  lemma CornersLand(p: Panel, area: Area)
    requires p.Valid() && p.Holds()
    requires !area.Empty() && 0 <= area.left && 0 <= area.top && area.right <= p.lw && area.bottom <= p.lh
    ensures var q := CornerImages(p, BoxOf(p, area));
            && ToPhysical(p, area.left, area.top) == Some(q.0)
            && ToPhysical(p, area.right - 1, area.top) == Some(q.1)
            && ToPhysical(p, area.left, area.bottom - 1) == Some(q.2)
            && ToPhysical(p, area.right - 1, area.bottom - 1) == Some(q.3)
  {
  }

  /** Four corners are enough: the window grows to the hull with the box of the area. */
  lemma FourCornersSuffice(p: Panel, w: Window, area: Area)
    requires p.Valid() && p.Holds()
    requires !area.Empty() && 0 <= area.left && 0 <= area.top && area.right <= p.lw && area.bottom <= p.lh
    ensures IncludePoints(p, w, Corners(area)) == Hull(w, BoxOf(p, area))
  {
    var box := BoxOf(p, area);
    var q := CornerImages(p, box);
    CornersLand(p, area);
    UnfoldFour(p, w, Corners(area), q.0, q.1, q.2, q.3);
    FourIsHull(w, box.x0, box.y0, box.x1, box.y1);
  }

  predicate OnPanel(p: Panel, w: Window)
  {
    w.Box? ==> w.x0 <= w.x1 < p.pw && w.y0 <= w.y1 < p.ph
  }

  predicate Aligned(p: Panel, w: Window)
    requires p.Valid()
  {
    w.Box? ==> w.x1 < p.pw && (p.pw - 1 - w.x1) % 8 == 0 && (p.pw - w.x0) % 8 == 0
  }

  lemma AlignContains(p: Panel, w: Window)
    requires p.Valid() && OnPanel(p, w)
    ensures OnPanel(p, AlignX(p, w)) && Aligned(p, AlignX(p, w)) && w.Within(AlignX(p, w))
  {
  }

  /** Alignment yields the least whole-byte window on the panel that contains the given one. */
  lemma AlignIsLeast(p: Panel, w: Window, v: Window)
    requires p.Valid() && OnPanel(p, w)
    requires w.Within(v) && OnPanel(p, v) && Aligned(p, v)
    ensures AlignX(p, w).Within(v)
  {
    if w.Box? {
      var a, b := (p.pw - 1 - v.x1) / 8, (p.pw - v.x0) / 8;
      assert p.pw - 1 - v.x1 == 8 * a && p.pw - v.x0 == 8 * b;
      assert a <= (p.pw - 1 - w.x1) / 8;
      assert (p.pw - 1 - w.x0) / 8 <= b - 1;
    }
  }

  // ---------------------------------------------------------------- backgrounds and drawables

  /** The background is the colour of the last clear, 255 without one. */
  lemma {:induction false} LastClearExact(ops: seq<Op>)
    ensures forall i :: 0 <= i < |ops| && ops[i].Clear? && (forall j :: i < j < |ops| ==> !ops[j].Clear?) ==>
              LastClear(ops) == ops[i].color
    ensures (forall i :: 0 <= i < |ops| ==> !ops[i].Clear?) ==> LastClear(ops) == 255
  {
    if ops != [] {
      LastClearExact(ops[..|ops| - 1]);
    }
  }

  lemma {:induction false} FullStaysFull(p: Panel, points: seq<(nat, nat)>)
    requires p.Valid()
    ensures IncludePoints(p, FullPanel(p), points) == FullPanel(p)
  {
    if points != [] {
      FullStaysFull(p, points[..|points| - 1]);
    }
  }

  lemma OpKeepsFull(p: Panel, op: Op)
    requires p.Valid()
    ensures IncludeOp(p, FullPanel(p), op) == FullPanel(p)
  {
    if op.Text? || op.Rect? {
      var width := if op.Rect? then op.w else |op.text| * 6 * WindowScale(op.fontHeight);
      var height := if op.Rect? then op.h else 7 * WindowScale(op.fontHeight);
      var area := Clip(p, op.x, op.y, width, height);
      if !area.Empty() {
        FullStaysFull(p, Corners(area));
      }
    }
  }

  lemma {:induction false} UnsharedKeepFull(p: Panel, w: Window, ops: seq<Op>, other: seq<Op>)
    requires p.Valid()
    requires w == FullPanel(p) || exists i :: 0 <= i < |ops| && ops[i].Drawable? && ops[i] !in other
    ensures IncludeUnshared(p, w, ops, other) == FullPanel(p)
    decreases |ops|
  {
    if ops != [] {
      var front, last := ops[..|ops| - 1], ops[|ops| - 1];
      if !last.Drawable? || last in other {
        if w != FullPanel(p) {
          var i :| 0 <= i < |ops| && ops[i].Drawable? && ops[i] !in other;
          assert front[i] == ops[i];
        }
        UnsharedKeepFull(p, w, front, other);
        OpKeepsFull(p, last);
      }
    }
  }

  lemma FullIsAligned(p: Panel)
    requires p.Valid()
    ensures AlignX(p, FullPanel(p)) == FullPanel(p)
  {
  }

  /** Another background, or a drawable that only one list has, makes the whole panel the window. */
  lemma WholePanel(p: Panel, previous: seq<Op>, current: seq<Op>)
    requires p.Valid()
    requires || LastClear(previous) != LastClear(current)
             || exists op: Op :: op.Drawable? && ((op in previous) != (op in current))
    ensures Dirty(p, previous, current) == Box(0, 0, p.pw - 1, p.ph - 1)
  {
    if LastClear(previous) == LastClear(current) {
      var op: Op :| op.Drawable? && ((op in previous) != (op in current));
      if op in previous {
        UnsharedKeepFull(p, Nothing, previous, current);
      }
      UnsharedKeepFull(p, IncludeUnshared(p, Nothing, previous, current), current, previous);
      FullIsAligned(p);
    }
  }
}
