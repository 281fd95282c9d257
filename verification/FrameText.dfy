/**
 * The framebuffer text painter: what it inks, and where it agrees with the scanline painter. It takes no
 * text for hidden, keeps coordinates in 16 bits, and paints a text without a colour white.
 */
module FrameText {
  import opened Bytes
  import opened PanelGeometry
  import opened Raster
  import opened TextRaster
  import opened TextMeaning

  /** A coordinate as the painter keeps it: sixteen bits, a negative one becomes zero. */
  function Kept(v: int): nat
  {
    if v < 0 then 0 else v % U16
  }

  /** The colour the framebuffer painter gives to a logical point. */
  function FrameInk(p: Panel, g: Glyphs, op: Op, q: Point): Option<bool>
    requires op.Text?
  {
    if op.fontHeight > 0 && TextCovers(p, g, op.text, Kept(op.x), Kept(op.y), Scale(op.fontHeight), q)
    then Some(IsBlack(op.color))
    else None
  }

  // ---------------------------------------------------------------- painting what is covered

  /** The frame shows `black` where `covers` holds and the old frame elsewhere. */
  ghost predicate FrameInked(p: Panel, before: seq<byte>, after: seq<byte>, black: bool, covers: Point -> bool)
  {
    && IsFrame(p, before) && IsFrame(p, after)
    && forall y | 0 <= y < p.ph :: Inked(p, y, Row(p, before, y), Row(p, after, y), black, covers)
  }

  lemma FrameInkedTwice(p: Panel, a: seq<byte>, b: seq<byte>, c: seq<byte>, black: bool,
                        f: Point -> bool, g: Point -> bool, h: Point -> bool)
    requires FrameInked(p, a, b, black, f) && FrameInked(p, b, c, black, g)
    requires forall q :: h(q) <==> f(q) || g(q)
    ensures FrameInked(p, a, c, black, h)
  {
    forall y | 0 <= y < p.ph ensures Inked(p, y, Row(p, a, y), Row(p, c, y), black, h) {
      InkedTwice(p, y, Row(p, a, y), Row(p, b, y), Row(p, c, y), black, f, g, h);
    }
  }

  /** Nothing happens where only points outside the logical area are covered. */
  lemma NothingInked(p: Panel, frame: seq<byte>, black: bool, covers: Point -> bool)
    requires IsFrame(p, frame)
    requires forall q: Point :: covers(q) ==> q.x >= p.lw || q.y >= p.lh
    ensures FrameInked(p, frame, frame, black, covers)
  {
  }

  method PaintFrameDot(p: Panel, fb: array<byte>, q: Point, black: bool)
    requires IsFrame(p, fb[..]) && q.x >= 0 && q.y >= 0
    modifies fb
    ensures FrameInked(p, old(fb[..]), fb[..], black, r => r == q)
  {
    ghost var start := fb[..];
    var at := ToPhysical(p, q.x, q.y);
    if at.Some? {
      FbSetPixel(p, fb, at.value.x, at.value.y, black);
    }
    forall x, y | 0 <= x < p.pw && 0 <= y < p.ph
      ensures FrameWhite(p, fb[..], x, y) ==
              (var r := ToLogical(p, x, y); if r.Some? && r.value == q then !black else FrameWhite(p, start, x, y))
    {
      MapsAreInverse(p, q.x, q.y, x, y);
      if at.Some? {
        SetInFrameReads(p, start, at.value.x, at.value.y, black, x, y);
      }
    }
  }

  method PaintFrameColumn(p: Panel, fb: array<byte>, c: Cell, glyphRow: nat, row: nat, col: nat, black: bool)
    requires IsFrame(p, fb[..])
    modifies fb
    ensures FrameInked(p, old(fb[..]), fb[..], black, q => ColumnCovers(c, glyphRow, row, col, c.scale, q))
  {
    ghost var start := fb[..];
    NothingInked(p, start, black, q => ColumnCovers(c, glyphRow, row, col, 0, q));
    for dx := 0 to c.scale
      invariant FrameInked(p, start, fb[..], black, q => ColumnCovers(c, glyphRow, row, col, dx, q))
    {
      ghost var mid := fb[..];
      PaintFrameDot(p, fb, DotAt(c, glyphRow, row, col, dx), black);
      FrameInkedTwice(p, start, mid, fb[..], black, q => ColumnCovers(c, glyphRow, row, col, dx, q),
                      q => q == DotAt(c, glyphRow, row, col, dx), q => ColumnCovers(c, glyphRow, row, col, dx + 1, q));
    }
  }

  method PaintFrameGlyphRow(p: Panel, g: Glyphs, fb: array<byte>, c: Cell, glyphRow: nat, row: nat, black: bool)
    requires IsFrame(p, fb[..])
    modifies fb
    ensures FrameInked(p, old(fb[..]), fb[..], black, q => RowCovers(g, c, glyphRow, row, 5, q))
  {
    ghost var start := fb[..];
    NothingInked(p, start, black, q => RowCovers(g, c, glyphRow, row, 0, q));
    for col := 0 to 5
      invariant FrameInked(p, start, fb[..], black, q => RowCovers(g, c, glyphRow, row, col, q))
    {
      ghost var mid := fb[..];
      if g(c.ch, glyphRow, col) {
        PaintFrameColumn(p, fb, c, glyphRow, row, col, black);
        FrameInkedTwice(p, start, mid, fb[..], black, q => RowCovers(g, c, glyphRow, row, col, q),
                        q => ColumnCovers(c, glyphRow, row, col, c.scale, q),
                        q => RowCovers(g, c, glyphRow, row, col + 1, q));
      } else {
        FrameInkedTwice(p, start, start, mid, black, q => false, q => RowCovers(g, c, glyphRow, row, col, q),
                        q => RowCovers(g, c, glyphRow, row, col + 1, q));
      }
    }
  }

  /** Rows below the logical area are skipped. */
  method PaintFrameScaledRow(p: Panel, g: Glyphs, fb: array<byte>, c: Cell, glyphRow: nat, black: bool)
    requires IsFrame(p, fb[..])
    modifies fb
    ensures FrameInked(p, old(fb[..]), fb[..], black, q => RowsCover(g, c, glyphRow, c.scale, q))
  {
    ghost var start := fb[..];
    NothingInked(p, start, black, q => RowsCover(g, c, glyphRow, 0, q));
    for row := 0 to c.scale
      invariant FrameInked(p, start, fb[..], black, q => RowsCover(g, c, glyphRow, row, q))
    {
      ghost var mid := fb[..];
      if DotAt(c, glyphRow, row, 0, 0).y < p.lh {
        PaintFrameGlyphRow(p, g, fb, c, glyphRow, row, black);
      } else {
        forall q | RowCovers(g, c, glyphRow, row, 5, q) ensures q.y >= p.lh {
          RowLies(g, c, glyphRow, row, 5, q);
        }
        NothingInked(p, mid, black, q => RowCovers(g, c, glyphRow, row, 5, q));
      }
      FrameInkedTwice(p, start, mid, fb[..], black, q => RowsCover(g, c, glyphRow, row, q),
                      q => RowCovers(g, c, glyphRow, row, 5, q), q => RowsCover(g, c, glyphRow, row + 1, q));
    }
  }

  method PaintFrameGlyph(p: Panel, g: Glyphs, fb: array<byte>, c: Cell, black: bool)
    requires IsFrame(p, fb[..])
    modifies fb
    ensures FrameInked(p, old(fb[..]), fb[..], black, q => GlyphCovers(g, c, 7, q))
  {
    ghost var start := fb[..];
    NothingInked(p, start, black, q => GlyphCovers(g, c, 0, q));
    for glyphRow := 0 to 7
      invariant FrameInked(p, start, fb[..], black, q => GlyphCovers(g, c, glyphRow, q))
    {
      ghost var mid := fb[..];
      PaintFrameScaledRow(p, g, fb, c, glyphRow, black);
      FrameInkedTwice(p, start, mid, fb[..], black, q => GlyphCovers(g, c, glyphRow, q),
                      q => RowsCover(g, c, glyphRow, c.scale, q), q => GlyphCovers(g, c, glyphRow + 1, q));
    }
  }

  /** The colour the framebuffer painter gives to a panel pixel. */
  function FramePanelInk(p: Panel, g: Glyphs, op: Op, x: nat, y: nat): Option<bool>
    requires op.Text?
  {
    match ToLogical(p, x, y)
    case None => None
    case Some(q) => FrameInk(p, g, op, q)
  }

  /** The text is painted on the frame exactly where the loops cover it, wrapped coordinates included. */
  method RasterizeText(p: Panel, g: Glyphs, op: Op, fb: array<byte>)
    requires op.Text? && IsFrame(p, fb[..])
    modifies fb
    ensures IsFrame(p, fb[..])
    ensures forall x, y | 0 <= x < p.pw && 0 <= y < p.ph ::
              FrameWhite(p, fb[..], x, y) ==
              Painted(FramePanelInk(p, g, op, x, y), FrameWhite(p, old(fb[..]), x, y))
  {
    if op.fontHeight <= 0 {
      return;
    }
    ghost var start := fb[..];
    var black := IsBlack(op.color);
    var scale := Scale(op.fontHeight);
    var textY, cursor: nat := Kept(op.y), Kept(op.x);
    ghost var all := (q: Point) => TextCovers(p, g, op.text, Kept(op.x), textY, scale, q);
    ghost var done := (q: Point) => false;
    var i := 0;
    NothingInked(p, start, black, done);
    assert op.text[0..] == op.text;
    while i < |op.text|
      invariant i <= |op.text|
      invariant FrameInked(p, start, fb[..], black, done)
      invariant forall q :: all(q) <==> done(q) || TextCovers(p, g, op.text[i..], cursor, textY, scale, q)
    {
      ghost var mid, was := fb[..], done;
      var c := Cell(op.text[i], cursor, textY, scale);
      PaintFrameGlyph(p, g, fb, c, black);
      done := (q: Point) => was(q) || GlyphCovers(g, c, 7, q);
      FrameInkedTwice(p, start, mid, fb[..], black, was, q => GlyphCovers(g, c, 7, q), done);
      cursor := (cursor + 6 * scale) % U16;
      assert op.text[i..][1..] == op.text[i + 1..];
      if cursor >= p.lw {
        assert forall q :: all(q) <==> done(q);
        break;
      }
      i := i + 1;
    }
    forall x, y | 0 <= x < p.pw && 0 <= y < p.ph
      ensures FrameWhite(p, fb[..], x, y) ==
              Painted(FramePanelInk(p, g, op, x, y), FrameWhite(p, start, x, y))
    {
      assert Inked(p, y, Row(p, start, y), Row(p, fb[..], y), black, done);
      var q := ToLogical(p, x, y);
      assert q.Some? ==> (all(q.value) <==> done(q.value));
    }
  }

  // ---------------------------------------------------------------- where dots lie

  lemma {:induction false} ColumnLies(c: Cell, glyphRow: nat, row: nat, col: nat, n: nat, q: Point)
    requires ColumnCovers(c, glyphRow, row, col, n, q) && col < 5 && n <= c.scale
    ensures q.y == DotAt(c, glyphRow, row, 0, 0).y
    ensures c.cursor + 5 * c.scale <= U16 ==> q.x >= c.cursor
  {
    if ColumnCovers(c, glyphRow, row, col, n - 1, q) {
      ColumnLies(c, glyphRow, row, col, n - 1, q);
    } else {
      DotBounds(c.scale, col, 5, n - 1);
    }
  }

  lemma {:induction false} RowLies(g: Glyphs, c: Cell, glyphRow: nat, row: nat, n: nat, q: Point)
    requires RowCovers(g, c, glyphRow, row, n, q) && n <= 5
    ensures q.y == DotAt(c, glyphRow, row, 0, 0).y
    ensures c.cursor + 5 * c.scale <= U16 ==> q.x >= c.cursor
  {
    if RowCovers(g, c, glyphRow, row, n - 1, q) {
      RowLies(g, c, glyphRow, row, n - 1, q);
    } else {
      ColumnLies(c, glyphRow, row, n - 1, c.scale, q);
    }
  }

  /** Dots that do not wrap lie right of the cursor and below the top of the text. */
  predicate Follows(c: Cell, q: Point)
  {
    && (c.cursor + 5 * c.scale <= U16 ==> q.x >= c.cursor)
    && (c.textY + 7 * c.scale <= U16 ==> q.y >= c.textY)
  }

  lemma {:induction false} RowsLie(g: Glyphs, c: Cell, glyphRow: nat, n: nat, q: Point)
    requires RowsCover(g, c, glyphRow, n, q) && glyphRow < 7 && n <= c.scale
    ensures Follows(c, q)
  {
    if RowsCover(g, c, glyphRow, n - 1, q) {
      RowsLie(g, c, glyphRow, n - 1, q);
    } else {
      RowLies(g, c, glyphRow, n - 1, 5, q);
      DotBounds(c.scale, glyphRow, 7, n - 1);
    }
  }

  lemma {:induction false} GlyphLies(g: Glyphs, c: Cell, n: nat, q: Point)
    requires GlyphCovers(g, c, n, q) && n <= 7
    ensures Follows(c, q)
  {
    if GlyphCovers(g, c, n - 1, q) {
      GlyphLies(g, c, n - 1, q);
    } else {
      RowsLie(g, c, n - 1, c.scale, q);
    }
  }

  lemma {:induction false} TextLiesBelow(p: Panel, g: Glyphs, text: seq<char>, cursor: nat, textY: nat, scale: nat,
                                         q: Point)
    requires TextCovers(p, g, text, cursor, textY, scale, q) && textY + 7 * scale <= U16
    ensures q.y >= textY
    decreases |text|
  {
    var c := Cell(text[0], cursor, textY, scale);
    if GlyphCovers(g, c, 7, q) {
      GlyphLies(g, c, 7, q);
    } else {
      TextLiesBelow(p, g, text[1..], (cursor + 6 * scale) % U16, textY, scale, q);
    }
  }

  // ---------------------------------------------------------------- the two text painters

  /** Whether it is painted or lies beyond the area, no coordinate of the text wraps. */
  predicate Straight(p: Panel, op: Op)
    requires p.Valid() && op.Text?
  {
    op.fontHeight > 0 && op.text != [] ==>
      var s := Scale(op.fontHeight);
      || Legible(p, op)
      || (op.x >= p.lw && op.x + 6 * s < U16)
      || (op.y >= p.lh && op.y + 7 * s <= U16)
  }

  lemma KeptExact(v: int)
    ensures v < U16 ==> Kept(v) == Origin(v)
    ensures Kept(v) < U16 && Kept(Kept(v)) == Kept(v)
  {
  }

  /** A text beyond the area leaves nothing in it. */
  lemma BeyondUninked(p: Panel, g: Glyphs, op: Op, q: Point)
    requires p.Valid() && op.Text? && op.fontHeight > 0 && Straight(p, op) && TextHidden(p, op)
    requires q.x < p.lw && q.y < p.lh
    ensures !TextCovers(p, g, op.text, Kept(op.x), Kept(op.y), Scale(op.fontHeight), q)
  {
    var s := Scale(op.fontHeight);
    KeptExact(op.x);
    KeptExact(op.y);
    if TextCovers(p, g, op.text, Kept(op.x), Kept(op.y), s, q) {
      if op.y >= p.lh && op.y + 7 * s <= U16 {
        TextLiesBelow(p, g, op.text, Kept(op.x), Kept(op.y), s, q);
      } else {
        GlyphLies(g, Cell(op.text[0], Kept(op.x), Kept(op.y), s), 7, q);
      }
    }
  }

  /** A text that does not wrap has the same ink from both painters, up to the colour of one without. */
  lemma FrameTextExact(p: Panel, g: Glyphs, op: Op, q: Point)
    requires p.Valid() && op.Text? && Straight(p, op) && q.x < p.lw && q.y < p.lh
    ensures FrameInk(p, g, op, q) == TextInk(p, Font(g, false), op, q)
  {
    KeptExact(op.x);
    KeptExact(op.y);
    if op.fontHeight > 0 && TextHidden(p, op) {
      BeyondUninked(p, g, op, q);
    }
  }

  /** So the two agree on it, whatever the glyphs, exactly if it has a colour or is not painted. */
  lemma TextPaintersAgree(p: Panel, op: Op)
    requires p.Valid() && op.Text? && Straight(p, op)
    ensures (forall g: Glyphs, q: Point :: q.x < p.lw && q.y < p.lh ==>
               FrameInk(p, g, op, q) == TextInk(p, Font(g, true), op, q))
            <==> IsSet(op.color) || !IsPainted(p, op)
  {
    forall g: Glyphs, q: Point | q.x < p.lw && q.y < p.lh
      ensures FrameInk(p, g, op, q) == TextInk(p, Font(g, false), op, q)
    {
      FrameTextExact(p, g, op, q);
    }
    if IsPainted(p, op) {
      CornersInked(p, op);
      var a := InkArea(p, op);
      var q := Point(a.left, a.top);
      assert TextInk(p, Font(AllSet().glyphs, true), op, q).Some?;
      assert FrameInk(p, AllSet().glyphs, op, q).Some?;
    }
  }

  /** The text moved to where the lower 16 bits of its left edge say. */
  function Near(op: Op): Op
    requires op.Text?
  {
    Text(op.x % 65536, op.y, op.text, op.fontHeight, op.color)
  }

  /**
   * A text that starts 16 bits or more to the right is beyond the area, and so for the scanline painter; the
   * framebuffer painter paints it where the lower 16 bits say, and with every dot set some of it is seen.
   */
  lemma FarTextWraps(p: Panel, op: Op) returns (q: Point)
    requires p.Valid() && op.Text? && op.x >= 65536 && Legible(p, Near(op))
    ensures forall g: Glyphs, r: Point :: r.x < p.lw && r.y < p.lh ==>
              FrameInk(p, g, op, r) == TextInk(p, Font(g, false), Near(op), r)
    ensures q.x < p.lw && q.y < p.lh && FrameInk(p, AllSet().glyphs, op, q).Some?
    ensures forall f: Font, r: Point :: TextInk(p, f, op, r) == None
  {
    forall g: Glyphs, r: Point | r.x < p.lw && r.y < p.lh
      ensures FrameInk(p, g, op, r) == TextInk(p, Font(g, false), Near(op), r)
    {
      KeptExact(op.x);
      FrameTextExact(p, g, Near(op), r);
    }
    CornersInked(p, Near(op));
    q := Point(InkArea(p, Near(op)).left, InkArea(p, Near(op)).top);
    assert TextInk(p, AllSet(), Near(op), q).Some?;
  }
}
