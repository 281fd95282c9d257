/**
 * What a display list shows: the ink of each operation, painted in order, and the framebuffer painters,
 * which leave exactly that in the framebuffer.
 */
module DisplayMeaning {
  import opened Bytes
  import opened PanelGeometry
  import opened Raster
  import opened TextRaster
  import opened TextMeaning
  import opened FrameText

  /** The colour an operation gives to a panel pixel; a drawable paints from its page, not from here. */
  function Ink(p: Panel, f: Font, op: Op, x: nat, y: nat): Option<bool>
  {
    match op
    case Clear(_, _, color) => Some(IsBlack(color))
    case Text(_, _, _, _, _) =>
      (match ToLogical(p, x, y)
       case None => None
       case Some(q) => TextInk(p, f, op, q))
    case Rect(_, _, _, _, _, _) => PanelInk(p, op, x, y)
    case Drawable(_, _) => None
  }

  /** Is the pixel white after painting the list over a pixel that was white or not? */
  function WhiteAfter(p: Panel, f: Font, base: bool, ops: seq<Op>, x: nat, y: nat): bool
  {
    if ops == [] then base
    else Painted(Ink(p, f, ops[|ops| - 1], x, y), WhiteAfter(p, f, base, ops[..|ops| - 1], x, y))
  }

  /** The picture starts white. */
  function Shown(p: Panel, f: Font, ops: seq<Op>, x: nat, y: nat): bool
  {
    WhiteAfter(p, f, true, ops, x, y)
  }

  // ---------------------------------------------------------------- the framebuffer

  /** What the framebuffer painters give a panel pixel. */
  function FrameOpInk(p: Panel, g: Glyphs, op: Op, x: nat, y: nat): Option<bool>
  {
    if op.Text? then FramePanelInk(p, g, op, x, y) else Ink(p, Font(g, false), op, x, y)
  }

  /** Is the pixel of the framebuffer white after the calls, given white or not before? */
  function FrameAfter(p: Panel, g: Glyphs, base: bool, ops: seq<Op>, x: nat, y: nat): bool
  {
    if ops == [] then base
    else Painted(FrameOpInk(p, g, ops[|ops| - 1], x, y), FrameAfter(p, g, base, ops[..|ops| - 1], x, y))
  }

  predicate AllStraight(p: Panel, ops: seq<Op>)
    requires p.Valid()
  {
    forall i :: 0 <= i < |ops| && ops[i].Text? ==> Straight(p, ops[i])
  }

  /** Unless a text wraps, the framebuffer shows what the list means, texts without a colour in white. */
  lemma {:induction false} FrameShows(p: Panel, g: Glyphs, base: bool, ops: seq<Op>, x: nat, y: nat)
    requires p.Valid() && AllStraight(p, ops) && x < p.pw && y < p.ph
    ensures FrameAfter(p, g, base, ops, x, y) == WhiteAfter(p, Font(g, false), base, ops, x, y)
  {
    if ops != [] {
      var op := ops[|ops| - 1];
      FrameShows(p, g, base, ops[..|ops| - 1], x, y);
      if op.Text? && ToLogical(p, x, y).Some? {
        FrameTextExact(p, g, op, ToLogical(p, x, y).value);
      }
    }
  }

  /** A list that begins with a clear leaves nothing of what was there before. */
  lemma {:induction false} ClearCovers(p: Panel, f: Font, base: bool, ops: seq<Op>, x: nat, y: nat)
    requires ops != [] && ops[0].Clear?
    ensures WhiteAfter(p, f, base, ops, x, y) == Shown(p, f, ops, x, y)
  {
    if |ops| > 1 {
      ClearCovers(p, f, base, ops[..|ops| - 1], x, y);
    }
  }

  method RasterizeClear(p: Panel, color: Color, fb: array<byte>)
    requires IsFrame(p, fb[..])
    modifies fb
    ensures IsFrame(p, fb[..])
    ensures forall x, y | 0 <= x < p.pw && 0 <= y < p.ph :: FrameWhite(p, fb[..], x, y) == !IsBlack(color)
  {
    for i := 0 to fb.Length
      invariant forall k | 0 <= k < i :: fb[k] == if IsBlack(color) then 0x00 else 0xff
    {
      fb[i] := if IsBlack(color) then 0x00 else 0xff;
    }
    forall x, y | 0 <= x < p.pw && 0 <= y < p.ph ensures FrameWhite(p, fb[..], x, y) == !IsBlack(color) {
      RowFits(p, y);
      assert Row(p, fb[..], y)[Column(p, x)] == fb[y * p.RowBytes() + Column(p, x)];
      FilledByte(BitOf(p, x));
    }
  }

  lemma FilledByte(k: nat)
    requires k < 8
    ensures IsWhite(0xff, k) && !IsWhite(0x00, k)
  {
  }

  /** One call of the display interface; a drawable is not painted by it. */
  method PaintCall(p: Panel, g: Glyphs, op: Op, fb: array<byte>)
    requires IsFrame(p, fb[..])
    modifies fb
    ensures IsFrame(p, fb[..])
    ensures forall x, y | 0 <= x < p.pw && 0 <= y < p.ph ::
              FrameWhite(p, fb[..], x, y) ==
              Painted(FrameOpInk(p, g, op, x, y), FrameWhite(p, old(fb[..]), x, y))
  {
    match op {
      case Clear(_, _, color) => RasterizeClear(p, color, fb);
      case Text(_, _, _, _, _) => RasterizeText(p, g, op, fb);
      case Rect(_, _, _, _, _, _) => RasterizeRect(p, op, fb);
      case Drawable(_, _) =>
    }
  }

  /**
   * The calls of an app in order. Every pixel of the framebuffer is as its old colour and the calls say;
   * unless a text wraps, that is what the list shows over the old picture.
   */
  method PaintCalls(p: Panel, g: Glyphs, ops: seq<Op>, fb: array<byte>)
    requires IsFrame(p, fb[..])
    modifies fb
    ensures IsFrame(p, fb[..])
    ensures forall x, y | 0 <= x < p.pw && 0 <= y < p.ph ::
              FrameWhite(p, fb[..], x, y) == FrameAfter(p, g, FrameWhite(p, old(fb[..]), x, y), ops, x, y)
    ensures AllStraight(p, ops) ==>
              forall x, y | 0 <= x < p.pw && 0 <= y < p.ph ::
                FrameWhite(p, fb[..], x, y) ==
                WhiteAfter(p, Font(g, false), FrameWhite(p, old(fb[..]), x, y), ops, x, y)
  {
    ghost var start := fb[..];
    for i := 0 to |ops|
      invariant IsFrame(p, fb[..])
      invariant forall x, y | 0 <= x < p.pw && 0 <= y < p.ph ::
                  FrameWhite(p, fb[..], x, y) == FrameAfter(p, g, FrameWhite(p, start, x, y), ops[..i], x, y)
    {
      PaintCall(p, g, ops[i], fb);
      assert ops[..i + 1][..i] == ops[..i];
    }
    assert ops[..|ops|] == ops;
    if AllStraight(p, ops) {
      forall x, y | 0 <= x < p.pw && 0 <= y < p.ph
        ensures FrameWhite(p, fb[..], x, y) ==
                WhiteAfter(p, Font(g, false), FrameWhite(p, start, x, y), ops, x, y)
      {
        FrameShows(p, g, FrameWhite(p, start, x, y), ops, x, y);
      }
    }
  }
}
