/**
 * The two rectangle painters: one fills the framebuffer pixel by pixel in logical coordinates, the
 * other paints one panel row at a time in physical coordinates. Both are proved against one meaning.
 */
module Raster {
  import opened Bytes
  import opened PanelGeometry

  // ---------------------------------------------------------------- what a rectangle means

  /** The colour a rectangle gives to a logical point: black, white, or none. */
  function RectInk(p: Panel, op: Op, lx: int, ly: int): Option<bool>
    requires op.Rect?
  {
    var area := Clip(p, op.x, op.y, op.w, op.h);
    if op.w <= 0 || op.h <= 0 || !area.Has(lx, ly) then None
    else if IsSet(op.stroke) && area.OnEdge(lx, ly) then Some(IsBlack(op.stroke))
    else if IsSet(op.fill) then Some(IsBlack(op.fill))
    else None
  }

  /** The colour a rectangle gives to a panel pixel. */
  function PanelInk(p: Panel, op: Op, x: nat, y: nat): Option<bool>
    requires op.Rect?
  {
    match ToLogical(p, x, y)
    case None => None
    case Some(q) => RectInk(p, op, q.x, q.y)
  }

  /** White or not after painting, given white or not before. */
  function Painted(ink: Option<bool>, white: bool): bool
  {
    match ink
    case None => white
    case Some(black) => !black
  }

  /** The visible part of a rectangle, point by point. */
  predicate Visible(p: Panel, op: Op, lx: int, ly: int)
    requires op.Rect?
  {
    && 0 <= lx < p.lw && 0 <= ly < p.lh
    && op.x <= lx < op.x + op.w && op.y <= ly < op.y + op.h
  }

  /** A visible point of which some neighbour is not: the border, also where the rectangle is cut off. */
  predicate OnBorder(p: Panel, op: Op, lx: int, ly: int)
    requires op.Rect?
  {
    && Visible(p, op, lx, ly)
    && (|| !Visible(p, op, lx - 1, ly) || !Visible(p, op, lx + 1, ly)
        || !Visible(p, op, lx, ly - 1) || !Visible(p, op, lx, ly + 1))
  }

  /** The border takes the stroke if there is one, everything else that is visible the fill. */
  lemma RectInkExact(p: Panel, op: Op, lx: int, ly: int)
    requires op.Rect?
    ensures RectInk(p, op, lx, ly) ==
            if OnBorder(p, op, lx, ly) && op.stroke != 255 then Some(op.stroke == 15)
            else if Visible(p, op, lx, ly) && op.fill != 255 then Some(op.fill == 15)
            else None
  {
  }

  // ---------------------------------------------------------------- lines and frames

  predicate IsLine(p: Panel, line: seq<byte>)
  {
    p.Valid() && |line| == p.RowBytes()
  }

  /** Pixels are mirrored: the leftmost pixel is the last bit of the line. */
  function Column(p: Panel, x: nat): (c: nat)
    requires p.Valid() && x < p.pw
    ensures c < p.RowBytes()
  {
    (p.pw - 1 - x) / 8
  }

  function BitOf(p: Panel, x: nat): (k: nat)
    requires p.Valid() && x < p.pw
    ensures k < 8
  {
    (p.pw - 1 - x) % 8
  }

  predicate LineWhite(p: Panel, line: seq<byte>, x: nat)
    requires IsLine(p, line) && x < p.pw
  {
    IsWhite(line[Column(p, x)], BitOf(p, x))
  }

  predicate IsFrame(p: Panel, frame: seq<byte>)
  {
    p.Valid() && |frame| == p.ph * p.RowBytes()
  }

  lemma RowFits(p: Panel, y: nat)
    requires p.Valid() && y < p.ph
    ensures 0 <= y * p.RowBytes() <= y * p.RowBytes() + p.RowBytes() <= p.ph * p.RowBytes()
  {
    assert (y + 1) * p.RowBytes() <= p.ph * p.RowBytes();
  }

  function Row(p: Panel, frame: seq<byte>, y: nat): (line: seq<byte>)
    requires IsFrame(p, frame) && y < p.ph
    ensures IsLine(p, line)
  {
    RowFits(p, y);
    frame[y * p.RowBytes()..y * p.RowBytes() + p.RowBytes()]
  }

  predicate FrameWhite(p: Panel, frame: seq<byte>, x: nat, y: nat)
    requires IsFrame(p, frame) && x < p.pw && y < p.ph
  {
    LineWhite(p, Row(p, frame, y), x)
  }

  function SetInLine(p: Panel, line: seq<byte>, x: nat, black: bool): (r: seq<byte>)
    requires IsLine(p, line) && x < p.pw
    ensures IsLine(p, r)
  {
    line[Column(p, x) := SetBit(line[Column(p, x)], BitOf(p, x), black)]
  }

  lemma SetInLineReads(p: Panel, line: seq<byte>, x: nat, black: bool, x': nat)
    requires IsLine(p, line) && x < p.pw && x' < p.pw
    ensures LineWhite(p, SetInLine(p, line, x, black), x') == if x' == x then !black else LineWhite(p, line, x')
  {
    if Column(p, x') == Column(p, x) {
      if x' == x {
        SetBitSame(line[Column(p, x)], BitOf(p, x), black);
      } else {
        assert BitOf(p, x') != BitOf(p, x);
        SetBitOther(line[Column(p, x)], BitOf(p, x), BitOf(p, x'), black);
      }
    }
  }

  function SetInFrame(p: Panel, frame: seq<byte>, x: nat, y: nat, black: bool): (r: seq<byte>)
    requires IsFrame(p, frame) && x < p.pw && y < p.ph
    ensures IsFrame(p, r)
  {
    RowFits(p, y);
    var i := y * p.RowBytes() + Column(p, x);
    frame[i := SetBit(frame[i], BitOf(p, x), black)]
  }

  lemma RowsApart(p: Panel, y: nat, y': nat)
    requires p.Valid() && y < y'
    ensures y * p.RowBytes() + p.RowBytes() <= y' * p.RowBytes()
  {
    assert (y + 1) * p.RowBytes() <= y' * p.RowBytes();
  }

  lemma SetInFrameRows(p: Panel, frame: seq<byte>, x: nat, y: nat, black: bool, y': nat)
    requires IsFrame(p, frame) && x < p.pw && y < p.ph && y' < p.ph
    ensures Row(p, SetInFrame(p, frame, x, y, black), y') ==
            if y' == y then SetInLine(p, Row(p, frame, y), x, black) else Row(p, frame, y')
  {
    RowFits(p, y);
    RowFits(p, y');
    if y < y' {
      RowsApart(p, y, y');
    } else if y' < y {
      RowsApart(p, y', y);
    }
  }

  lemma SetInFrameReads(p: Panel, frame: seq<byte>, x: nat, y: nat, black: bool, x': nat, y': nat)
    requires IsFrame(p, frame) && x < p.pw && y < p.ph && x' < p.pw && y' < p.ph
    ensures FrameWhite(p, SetInFrame(p, frame, x, y, black), x', y') ==
            if x' == x && y' == y then !black else FrameWhite(p, frame, x', y')
  {
    SetInFrameRows(p, frame, x, y, black, y');
    SetInLineReads(p, Row(p, frame, y), x, black, x');
  }

  // ---------------------------------------------------------------- the bits of the buffer

  lemma MirroredBit(pw: nat, x: nat)
    requires pw % 8 == 0 && x < pw
    ensures (pw - 1 - x) % 8 == 7 - x % 8
  {
  }

  lemma SetBitWeighs(b: byte, k: nat, black: bool, j: nat)
    requires k < 8 && j < 8
    ensures BitAt(SetBit(b, k, black), j) == if j == 7 - k then (if black then 0 else 1) else BitAt(b, j)
  {
    PixelIsBit(SetBit(b, k, black), 7 - j);
    PixelIsBit(b, 7 - j);
    if j == 7 - k {
      SetBitSame(b, k, black);
    } else {
      SetBitOther(b, k, 7 - j, black);
    }
  }

  /** The bit of pixel `x` in a line: columns are mirrored, eight to a byte. */
  function LineBit(p: Panel, line: seq<byte>, x: nat): (bit: nat)
    requires IsLine(p, line) && x < p.pw
    ensures bit < 2
  {
    BitAt(line[(p.pw - 1 - x) / 8], x % 8)
  }

  lemma LineBitExact(p: Panel, line: seq<byte>, x: nat)
    requires IsLine(p, line) && x < p.pw
    ensures LineBit(p, line, x) == if LineWhite(p, line, x) then 1 else 0
  {
    MirroredBit(p.pw, x);
    PixelIsBit(line[Column(p, x)], BitOf(p, x));
  }

  /** Where the byte of a pixel is in a frame. */
  lemma ByteInFrame(p: Panel, x: nat, y: nat)
    requires p.Valid() && x < p.pw && y < p.ph
    ensures 0 <= y * (p.pw / 8) + (p.pw - 1 - x) / 8 < p.ph * p.RowBytes()
  {
    RowFits(p, y);
  }

  /** The bit of pixel (x, y) in a frame. */
  function FrameBit(p: Panel, frame: seq<byte>, x: nat, y: nat): (bit: nat)
    requires IsFrame(p, frame) && x < p.pw && y < p.ph
    ensures bit < 2
  {
    ByteInFrame(p, x, y);
    BitAt(frame[y * (p.pw / 8) + (p.pw - 1 - x) / 8], x % 8)
  }

  /** A white pixel is a one. */
  lemma FrameBitExact(p: Panel, frame: seq<byte>, x: nat, y: nat)
    requires IsFrame(p, frame) && x < p.pw && y < p.ph
    ensures FrameBit(p, frame, x, y) == if FrameWhite(p, frame, x, y) then 1 else 0
  {
    RowFits(p, y);
    LineBitExact(p, Row(p, frame, y), x);
  }

  /** The bit a colour leaves. */
  function InkedBit(ink: Option<bool>, bit: nat): nat
  {
    match ink
    case None => bit
    case Some(black) => if black then 0 else 1
  }

  // ---------------------------------------------------------------- the framebuffer painter

  method FbSetPixel(p: Panel, fb: array<byte>, x: nat, y: nat, black: bool)
    requires IsFrame(p, fb[..])
    modifies fb
    ensures fb[..] == if x < p.pw && y < p.ph then SetInFrame(p, old(fb[..]), x, y, black) else old(fb[..])
    ensures forall i, k :: 0 <= i < fb.Length && 0 <= k < 8 ==>
              BitAt(fb[i], k) ==
              if x < p.pw && y < p.ph && i == y * (p.pw / 8) + (p.pw - 1 - x) / 8 && k == x % 8
              then (if black then 0 else 1) else BitAt(old(fb[i]), k)
  {
    if x >= p.pw || y >= p.ph {
      return;
    }
    var ramX := p.pw - 1 - x;
    RowFits(p, y);
    var i := y * p.RowBytes() + ramX / 8;
    ghost var before := fb[i];
    fb[i] := SetBit(fb[i], ramX % 8, black);
    MirroredBit(p.pw, x);
    forall k | 0 <= k < 8
      ensures BitAt(fb[i], k) == if k == x % 8 then (if black then 0 else 1) else BitAt(before, k)
    {
      SetBitWeighs(before, ramX % 8, black, k);
    }
  }

  /** The points the painter has visited when it is about to paint (px, py), row by row. */
  predicate Visited(q: Point, px: int, py: int)
  {
    q.y < py || (q.y == py && q.x < px)
  }

  /** Every panel pixel shows the ink of the visited points over the old frame. */
  ghost predicate PaintedUpTo(p: Panel, op: Op, before: seq<byte>, after: seq<byte>, px: int, py: int)
    requires op.Rect? && IsFrame(p, before) && IsFrame(p, after)
  {
    forall x, y | 0 <= x < p.pw && 0 <= y < p.ph ::
      FrameWhite(p, after, x, y) ==
      (var q := ToLogical(p, x, y);
       if q.Some? && Visited(q.value, px, py) then Painted(PanelInk(p, op, x, y), FrameWhite(p, before, x, y))
       else FrameWhite(p, before, x, y))
  }

  ghost predicate PaintedAll(p: Panel, op: Op, before: seq<byte>, after: seq<byte>)
    requires op.Rect? && IsFrame(p, before) && IsFrame(p, after)
  {
    forall x, y | 0 <= x < p.pw && 0 <= y < p.ph ::
      FrameWhite(p, after, x, y) == Painted(PanelInk(p, op, x, y), FrameWhite(p, before, x, y))
  }

  /** What the rectangle leaves in the bytes of the framebuffer. */
  lemma PaintedBits(p: Panel, op: Op, before: seq<byte>, after: seq<byte>, x: nat, y: nat)
    requires op.Rect? && IsFrame(p, before) && IsFrame(p, after) && PaintedAll(p, op, before, after)
    requires x < p.pw && y < p.ph
    ensures FrameBit(p, after, x, y) == InkedBit(PanelInk(p, op, x, y), FrameBit(p, before, x, y))
  {
    FrameBitExact(p, before, x, y);
    FrameBitExact(p, after, x, y);
    assert FrameWhite(p, after, x, y) == Painted(PanelInk(p, op, x, y), FrameWhite(p, before, x, y));
  }

  /** Setting the pixel of a point to its ink paints one point more. */
  lemma PointPainted(p: Panel, op: Op, px: nat, py: nat, before: seq<byte>, start: seq<byte>, after: seq<byte>,
                     ink: Option<bool>)
    requires op.Rect? && ink == RectInk(p, op, px, py)
    requires IsFrame(p, before) && IsFrame(p, start) && PaintedUpTo(p, op, before, start, px, py)
    requires var at := ToPhysical(p, px, py);
             after == if ink.Some? && at.Some? then SetInFrame(p, start, at.value.x, at.value.y, ink.value) else start
    ensures PaintedUpTo(p, op, before, after, px + 1, py)
  {
    var at := ToPhysical(p, px, py);
    forall x, y | 0 <= x < p.pw && 0 <= y < p.ph
      ensures FrameWhite(p, after, x, y) ==
              (var q := ToLogical(p, x, y);
               if q.Some? && Visited(q.value, px + 1, py)
               then Painted(PanelInk(p, op, x, y), FrameWhite(p, before, x, y))
               else FrameWhite(p, before, x, y))
    {
      MapsAreInverse(p, px, py, x, y);
      if ink.Some? && at.Some? {
        SetInFrameReads(p, start, at.value.x, at.value.y, ink.value, x, y);
      }
    }
  }

  method PaintPoint(p: Panel, op: Op, fb: array<byte>, area: Area, px: int, py: int, ghost before: seq<byte>)
    requires op.Rect? && op.w > 0 && op.h > 0 && area == Clip(p, op.x, op.y, op.w, op.h) && area.Has(px, py)
    requires IsFrame(p, fb[..]) && IsFrame(p, before) && PaintedUpTo(p, op, before, fb[..], px, py)
    modifies fb
    ensures IsFrame(p, fb[..]) && PaintedUpTo(p, op, before, fb[..], px + 1, py)
  {
    ghost var start := fb[..];
    var isEdge := py == area.top || py == area.bottom - 1 || px == area.left || px == area.right - 1;
    var draw, black := false, false;
    if IsSet(op.stroke) && isEdge {
      draw, black := true, IsBlack(op.stroke);
    } else if IsSet(op.fill) {
      draw, black := true, IsBlack(op.fill);
    }
    var at := ToPhysical(p, px, py);
    if draw && at.Some? {
      FbSetPixel(p, fb, at.value.x, at.value.y, black);
    }
    PointPainted(p, op, px, py, before, start, fb[..], if draw then Some(black) else None);
  }

  method RasterizeRect(p: Panel, op: Op, fb: array<byte>)
    requires op.Rect? && IsFrame(p, fb[..])
    modifies fb
    ensures IsFrame(p, fb[..]) && PaintedAll(p, op, old(fb[..]), fb[..])
  {
    if op.w <= 0 || op.h <= 0 {
      return;
    }
    if !IsSet(op.fill) && !IsSet(op.stroke) {
      return;
    }
    var area := Clip(p, op.x, op.y, op.w, op.h);
    if area.Empty() {
      return;
    }
    ghost var before := fb[..];
    var py := area.top;
    while py < area.bottom
      invariant area.top <= py <= area.bottom
      invariant IsFrame(p, fb[..]) && PaintedUpTo(p, op, before, fb[..], area.left, py)
    {
      var px := area.left;
      while px < area.right
        invariant area.left <= px <= area.right
        invariant IsFrame(p, fb[..]) && PaintedUpTo(p, op, before, fb[..], px, py)
      {
        PaintPoint(p, op, fb, area, px, py, before);
        px := px + 1;
      }
      NextRow(p, op, before, fb[..], area, py);
      py := py + 1;
    }
    AllVisited(p, op, before, fb[..], area);
  }

  /** Points of a row outside the area have no ink, so a finished row is a row not begun. */
  lemma NextRow(p: Panel, op: Op, before: seq<byte>, after: seq<byte>, area: Area, py: int)
    requires op.Rect? && area == Clip(p, op.x, op.y, op.w, op.h)
    requires IsFrame(p, before) && IsFrame(p, after) && PaintedUpTo(p, op, before, after, area.right, py)
    ensures PaintedUpTo(p, op, before, after, area.left, py + 1)
  {
  }

  lemma AllVisited(p: Panel, op: Op, before: seq<byte>, after: seq<byte>, area: Area)
    requires op.Rect? && area == Clip(p, op.x, op.y, op.w, op.h)
    requires IsFrame(p, before) && IsFrame(p, after) && PaintedUpTo(p, op, before, after, area.left, area.bottom)
    ensures PaintedAll(p, op, before, after)
  {
  }

  // ---------------------------------------------------------------- the scanline painter

  method SetPixel(p: Panel, line: array<byte>, x: nat, black: bool)
    requires IsLine(p, line[..])
    modifies line
    ensures line[..] == if x < p.pw then SetInLine(p, old(line[..]), x, black) else old(line[..])
    ensures forall i, k :: 0 <= i < line.Length && 0 <= k < 8 ==>
              BitAt(line[i], k) ==
              if x < p.pw && i == (p.pw - 1 - x) / 8 && k == x % 8
              then (if black then 0 else 1) else BitAt(old(line[i]), k)
  {
    if x >= p.pw {
      return;
    }
    var ramX := p.pw - 1 - x;
    ghost var before := line[ramX / 8];
    line[ramX / 8] := SetBit(line[ramX / 8], ramX % 8, black);
    MirroredBit(p.pw, x);
    forall k | 0 <= k < 8
      ensures BitAt(line[ramX / 8], k) == if k == x % 8 then (if black then 0 else 1) else BitAt(before, k)
    {
      SetBitWeighs(before, ramX % 8, black, k);
    }
  }

  /** The stretch of a panel row a rectangle covers: columns, whether the row is an edge, edge columns. */
  datatype Span = NoSpan | Span(px0: nat, px1: nat, isEdgeRow: bool)

  /** The firmware's case analysis over the rotation. */
  function RowSpan(p: Panel, area: Area, y: nat): Span
    requires !area.Empty() && 0 <= area.left && 0 <= area.top && area.right <= p.lw && area.bottom <= p.lh
  {
    if p.rotation == 0 then
      if y < area.top || y >= area.bottom then NoSpan
      else Span(area.left, area.right - 1, y == area.top || y == area.bottom - 1)
    else if p.rotation == 90 then
      if y < p.lw - area.right || y > p.lw - 1 - area.left then NoSpan
      else Span(area.top, area.bottom - 1, y == p.lw - area.right || y == p.lw - 1 - area.left)
    else if p.rotation == 180 then
      if y < p.lh - area.bottom || y > p.lh - 1 - area.top then NoSpan
      else Span(p.lw - area.right, p.lw - 1 - area.left, y == p.lh - area.bottom || y == p.lh - 1 - area.top)
    else if p.rotation == 270 then
      if y < area.left || y >= area.right then NoSpan
      else Span(p.lh - area.bottom, p.lh - 1 - area.top, y == area.left || y == area.right - 1)
    else NoSpan
  }

  /** The colour the scanline painter gives to a column of its span. */
  function SpanInk(op: Op, span: Span, x: nat): Option<bool>
    requires op.Rect? && span.Span?
  {
    if !(span.px0 <= x <= span.px1) then None
    else if IsSet(op.stroke) && (span.isEdgeRow || x == span.px0 || x == span.px1) then Some(IsBlack(op.stroke))
    else if IsSet(op.fill) then Some(IsBlack(op.fill))
    else None
  }

  /** The span is the image of the rectangle on the row, edges included. */
  lemma SpanIsInk(p: Panel, op: Op, area: Area, x: nat, y: nat)
    requires op.Rect? && op.w > 0 && op.h > 0
    requires area == Clip(p, op.x, op.y, op.w, op.h) && !area.Empty()
    ensures PanelInk(p, op, x, y) ==
            var span := RowSpan(p, area, y); if span.Span? then SpanInk(op, span, x) else None
  {
  }

  ghost predicate LinePainted(p: Panel, op: Op, y: nat, before: seq<byte>, after: seq<byte>)
    requires op.Rect? && IsLine(p, before) && IsLine(p, after)
  {
    forall x | 0 <= x < p.pw :: LineWhite(p, after, x) == Painted(PanelInk(p, op, x, y), LineWhite(p, before, x))
  }

  /** Columns before `px` show the ink of the span, the others the old line. */
  ghost predicate SpanPaintedUpTo(p: Panel, op: Op, span: Span, before: seq<byte>, after: seq<byte>, px: nat)
    requires op.Rect? && span.Span? && IsLine(p, before) && IsLine(p, after)
  {
    forall x | 0 <= x < p.pw ::
      LineWhite(p, after, x) ==
      if x < px then Painted(SpanInk(op, span, x), LineWhite(p, before, x)) else LineWhite(p, before, x)
  }

  method PaintColumn(p: Panel, op: Op, span: Span, line: array<byte>, px: nat, ghost before: seq<byte>)
    requires op.Rect? && span.Span? && span.px0 <= px <= span.px1
    requires IsLine(p, line[..]) && IsLine(p, before) && SpanPaintedUpTo(p, op, span, before, line[..], px)
    modifies line
    ensures IsLine(p, line[..]) && SpanPaintedUpTo(p, op, span, before, line[..], px + 1)
  {
    ghost var start := line[..];
    var isEdgeCol := px == span.px0 || px == span.px1;
    if IsSet(op.stroke) && (span.isEdgeRow || isEdgeCol) {
      SetPixel(p, line, px, IsBlack(op.stroke));
    } else if IsSet(op.fill) {
      SetPixel(p, line, px, IsBlack(op.fill));
    }
    forall x | 0 <= x < p.pw
      ensures LineWhite(p, line[..], x) ==
              if x < px + 1 then Painted(SpanInk(op, span, x), LineWhite(p, before, x)) else LineWhite(p, before, x)
    {
      if px < p.pw {
        SetInLineReads(p, start, px, IsBlack(op.stroke), x);
        SetInLineReads(p, start, px, IsBlack(op.fill), x);
      }
    }
  }

  method DrawRectRow(p: Panel, op: Op, line: array<byte>, y: nat)
    requires op.Rect? && IsLine(p, line[..])
    modifies line
    ensures IsLine(p, line[..]) && LinePainted(p, op, y, old(line[..]), line[..])
  {
    if op.w <= 0 || op.h <= 0 || (!IsSet(op.fill) && !IsSet(op.stroke)) {
      return;
    }
    var area := Clip(p, op.x, op.y, op.w, op.h);
    if area.Empty() {
      return;
    }
    ghost var before := line[..];
    var span := RowSpan(p, area, y);
    if span.NoSpan? {
      forall x | 0 <= x < p.pw ensures PanelInk(p, op, x, y) == None {
        SpanIsInk(p, op, area, x, y);
      }
      return;
    }
    var px := span.px0;
    while true
      invariant span.px0 <= px <= span.px1
      invariant IsLine(p, line[..]) && SpanPaintedUpTo(p, op, span, before, line[..], px)
      decreases span.px1 - px
    {
      PaintColumn(p, op, span, line, px, before);
      if px == span.px1 {
        break;
      }
      px := px + 1;
    }
    forall x | 0 <= x < p.pw
      ensures LineWhite(p, line[..], x) == Painted(PanelInk(p, op, x, y), LineWhite(p, before, x))
    {
      SpanIsInk(p, op, area, x, y);
    }
  }

  // ---------------------------------------------------------------- the two agree

  lemma LinesEqual(p: Panel, a: seq<byte>, b: seq<byte>)
    requires IsLine(p, a) && IsLine(p, b)
    requires forall x | 0 <= x < p.pw :: LineWhite(p, a, x) == LineWhite(p, b, x)
    ensures a == b
  {
    forall c | 0 <= c < |a| ensures a[c] == b[c] {
      forall k | 0 <= k < 8 ensures IsWhite(a[c], k) == IsWhite(b[c], k) {
        var x := p.pw - 1 - (8 * c + k);
        assert Column(p, x) == c && BitOf(p, x) == k;
        assert LineWhite(p, a, x) == LineWhite(p, b, x);
      }
      SameBitsSameByte(a[c], b[c]);
    }
  }

  /**
   * For every rectangle, colour pair, clipping and rotation, painting a panel row with the scanline
   * painter gives bit for bit the row of the framebuffer that the framebuffer painter produces.
   */
  lemma PaintersAgree(p: Panel, op: Op, y: nat, before: seq<byte>, frame: seq<byte>, line: seq<byte>)
    requires op.Rect? && y < p.ph && IsFrame(p, before) && IsFrame(p, frame) && IsLine(p, line)
    requires PaintedAll(p, op, before, frame)
    requires LinePainted(p, op, y, Row(p, before, y), line)
    ensures Row(p, frame, y) == line
  {
    forall x | 0 <= x < p.pw ensures LineWhite(p, Row(p, frame, y), x) == LineWhite(p, line, x) {
      assert FrameWhite(p, frame, x, y) == Painted(PanelInk(p, op, x, y), FrameWhite(p, before, x, y));
    }
    LinesEqual(p, Row(p, frame, y), line);
  }

  /** Both painters run on the same start: row by row they leave the same bytes. */
  method PaintBothWays(p: Panel, op: Op, start: seq<byte>) returns (frame: seq<byte>, rows: seq<seq<byte>>)
    requires op.Rect? && IsFrame(p, start)
    ensures IsFrame(p, frame) && |rows| == p.ph
    ensures forall y :: 0 <= y < p.ph ==> rows[y] == Row(p, frame, y)
    ensures PaintedAll(p, op, start, frame)
  {
    var fb := new byte[|start|](i requires 0 <= i < |start| => start[i]);
    assert fb[..] == start;
    RasterizeRect(p, op, fb);
    frame := fb[..];
    rows := [];
    for y := 0 to p.ph
      invariant |rows| == y
      invariant forall i :: 0 <= i < y ==> rows[i] == Row(p, frame, i)
    {
      var was := Row(p, start, y);
      var row := new byte[p.RowBytes()](i requires 0 <= i < |was| => was[i]);
      assert row[..] == was;
      DrawRectRow(p, op, row, y);
      PaintersAgree(p, op, y, start, frame, row[..]);
      rows := rows + [row[..]];
    }
  }
}
