/**
 * The scanline text painter. A glyph is any 5 by 7 pattern; coordinates of dots are 16-bit values and
 * wrap as the firmware's do.
 */
module TextRaster {
  import opened Bytes
  import opened PanelGeometry
  import opened Raster

  /** `glyph(ch, row, col)`: is this dot of the 5 by 7 pattern of `ch` set? */
  type Glyphs = (char, nat, nat) -> bool

  /** The glyphs, and whether a text without a colour is black: the two painters differ in that. */
  datatype Font = Font(glyphs: Glyphs, unsetIsBlack: bool)

  /** A character being painted: its left edge, the top of the text, and the size of a dot. */
  datatype Cell = Cell(ch: char, cursor: nat, textY: nat, scale: nat)

  /** Dots are font height over seven, at least one, kept in eight bits. */
  function Scale(fontHeight: int): nat
    requires fontHeight > 0
  {
    var s := (fontHeight / 7) % 256;
    if s == 0 then 1 else s
  }

  function DotAt(c: Cell, glyphRow: nat, row: nat, col: nat, dx: nat): Point
  {
    Point((c.cursor + col * c.scale + dx) % U16, (c.textY + glyphRow * c.scale + row) % U16)
  }

  // What the five nested loops cover after `n` rounds each, innermost first.

  predicate ColumnCovers(c: Cell, glyphRow: nat, row: nat, col: nat, n: nat, q: Point)
  {
    n > 0 && (ColumnCovers(c, glyphRow, row, col, n - 1, q) || q == DotAt(c, glyphRow, row, col, n - 1))
  }

  predicate RowCovers(g: Glyphs, c: Cell, glyphRow: nat, row: nat, n: nat, q: Point)
  {
    n > 0 && (|| RowCovers(g, c, glyphRow, row, n - 1, q)
              || (g(c.ch, glyphRow, n - 1) && ColumnCovers(c, glyphRow, row, n - 1, c.scale, q)))
  }

  predicate RowsCover(g: Glyphs, c: Cell, glyphRow: nat, n: nat, q: Point)
  {
    n > 0 && (RowsCover(g, c, glyphRow, n - 1, q) || RowCovers(g, c, glyphRow, n - 1, 5, q))
  }

  predicate GlyphCovers(g: Glyphs, c: Cell, n: nat, q: Point)
  {
    n > 0 && (GlyphCovers(g, c, n - 1, q) || RowsCover(g, c, n - 1, c.scale, q))
  }

  /** A character is followed by the next six dots to the right, until the line is full. */
  predicate TextCovers(p: Panel, g: Glyphs, text: seq<char>, cursor: nat, textY: nat, scale: nat, q: Point)
  {
    text != [] &&
    (|| GlyphCovers(g, Cell(text[0], cursor, textY, scale), 7, q)
     || (var next := (cursor + 6 * scale) % U16;
         next < p.lw && TextCovers(p, g, text[1..], next, textY, scale, q)))
  }

  predicate TextHidden(p: Panel, op: Op)
    requires op.Text?
  {
    op.fontHeight <= 0 || op.x >= p.lw || op.y >= p.lh
  }

  function Origin(v: int): nat
  {
    if v < 0 then 0 else v
  }

  predicate TextIsBlack(unsetIsBlack: bool, op: Op)
    requires op.Text?
  {
    if IsSet(op.color) then IsBlack(op.color) else unsetIsBlack
  }

  /** The colour a text gives to a logical point. */
  function TextInk(p: Panel, f: Font, op: Op, q: Point): Option<bool>
    requires op.Text?
  {
    if !TextHidden(p, op) && TextCovers(p, f.glyphs, op.text, Origin(op.x), Origin(op.y), Scale(op.fontHeight), q)
    then Some(TextIsBlack(f.unsetIsBlack, op))
    else None
  }

  // ---------------------------------------------------------------- painting what is covered

  /** Row `y` shows `black` where `covers` holds and the old line elsewhere. */
  ghost predicate Inked(p: Panel, y: nat, before: seq<byte>, after: seq<byte>, black: bool, covers: Point -> bool)
    requires IsLine(p, before) && IsLine(p, after)
  {
    forall x | 0 <= x < p.pw ::
      LineWhite(p, after, x) ==
      (var q := ToLogical(p, x, y); if q.Some? && covers(q.value) then !black else LineWhite(p, before, x))
  }

  lemma InkedTwice(p: Panel, y: nat, a: seq<byte>, b: seq<byte>, c: seq<byte>, black: bool,
                   f: Point -> bool, g: Point -> bool, h: Point -> bool)
    requires IsLine(p, a) && IsLine(p, b) && IsLine(p, c)
    requires Inked(p, y, a, b, black, f) && Inked(p, y, b, c, black, g)
    requires forall q :: h(q) <==> f(q) || g(q)
    ensures Inked(p, y, a, c, black, h)
  {
    forall x | 0 <= x < p.pw
      ensures LineWhite(p, c, x) ==
              (var q := ToLogical(p, x, y); if q.Some? && h(q.value) then !black else LineWhite(p, a, x))
    {
      assert LineWhite(p, b, x) ==
             (var q := ToLogical(p, x, y); if q.Some? && f(q.value) then !black else LineWhite(p, a, x));
    }
  }

  method PaintDot(p: Panel, line: array<byte>, y: nat, q: Point, black: bool)
    requires y < p.ph && IsLine(p, line[..]) && q.x >= 0 && q.y >= 0
    modifies line
    ensures IsLine(p, line[..]) && Inked(p, y, old(line[..]), line[..], black, r => r == q)
  {
    ghost var start := line[..];
    var at := ToPhysical(p, q.x, q.y);
    if at.Some? && at.value.y == y {
      SetPixel(p, line, at.value.x, black);
    }
    forall x | 0 <= x < p.pw
      ensures LineWhite(p, line[..], x) ==
              (var r := ToLogical(p, x, y); if r.Some? && r.value == q then !black else LineWhite(p, start, x))
    {
      MapsAreInverse(p, q.x, q.y, x, y);
      if at.Some? && at.value.y == y {
        SetInLineReads(p, start, at.value.x, black, x);
      }
    }
  }

  method PaintColumnDots(p: Panel, line: array<byte>, y: nat, c: Cell, glyphRow: nat, row: nat, col: nat, black: bool)
    requires y < p.ph && IsLine(p, line[..])
    modifies line
    ensures IsLine(p, line[..])
    ensures Inked(p, y, old(line[..]), line[..], black, q => ColumnCovers(c, glyphRow, row, col, c.scale, q))
  {
    ghost var start := line[..];
    for dx := 0 to c.scale
      invariant IsLine(p, line[..])
      invariant Inked(p, y, start, line[..], black, q => ColumnCovers(c, glyphRow, row, col, dx, q))
    {
      ghost var mid := line[..];
      PaintDot(p, line, y, DotAt(c, glyphRow, row, col, dx), black);
      InkedTwice(p, y, start, mid, line[..], black, q => ColumnCovers(c, glyphRow, row, col, dx, q),
                 q => q == DotAt(c, glyphRow, row, col, dx), q => ColumnCovers(c, glyphRow, row, col, dx + 1, q));
    }
  }

  method PaintGlyphRow(p: Panel, g: Glyphs, line: array<byte>, y: nat, c: Cell, glyphRow: nat, row: nat, black: bool)
    requires y < p.ph && IsLine(p, line[..])
    modifies line
    ensures IsLine(p, line[..])
    ensures Inked(p, y, old(line[..]), line[..], black, q => RowCovers(g, c, glyphRow, row, 5, q))
  {
    ghost var start := line[..];
    for col := 0 to 5
      invariant IsLine(p, line[..])
      invariant Inked(p, y, start, line[..], black, q => RowCovers(g, c, glyphRow, row, col, q))
    {
      ghost var mid := line[..];
      if g(c.ch, glyphRow, col) {
        PaintColumnDots(p, line, y, c, glyphRow, row, col, black);
        InkedTwice(p, y, start, mid, line[..], black, q => RowCovers(g, c, glyphRow, row, col, q),
                   q => ColumnCovers(c, glyphRow, row, col, c.scale, q),
                   q => RowCovers(g, c, glyphRow, row, col + 1, q));
      }
    }
  }

  method PaintScaledRow(p: Panel, g: Glyphs, line: array<byte>, y: nat, c: Cell, glyphRow: nat, black: bool)
    requires y < p.ph && IsLine(p, line[..])
    modifies line
    ensures IsLine(p, line[..])
    ensures Inked(p, y, old(line[..]), line[..], black, q => RowsCover(g, c, glyphRow, c.scale, q))
  {
    ghost var start := line[..];
    for row := 0 to c.scale
      invariant IsLine(p, line[..])
      invariant Inked(p, y, start, line[..], black, q => RowsCover(g, c, glyphRow, row, q))
    {
      ghost var mid := line[..];
      PaintGlyphRow(p, g, line, y, c, glyphRow, row, black);
      InkedTwice(p, y, start, mid, line[..], black, q => RowsCover(g, c, glyphRow, row, q),
                 q => RowCovers(g, c, glyphRow, row, 5, q), q => RowsCover(g, c, glyphRow, row + 1, q));
    }
  }

  method PaintGlyph(p: Panel, g: Glyphs, line: array<byte>, y: nat, c: Cell, black: bool)
    requires y < p.ph && IsLine(p, line[..])
    modifies line
    ensures IsLine(p, line[..])
    ensures Inked(p, y, old(line[..]), line[..], black, q => GlyphCovers(g, c, 7, q))
  {
    ghost var start := line[..];
    for glyphRow := 0 to 7
      invariant IsLine(p, line[..])
      invariant Inked(p, y, start, line[..], black, q => GlyphCovers(g, c, glyphRow, q))
    {
      ghost var mid := line[..];
      PaintScaledRow(p, g, line, y, c, glyphRow, black);
      InkedTwice(p, y, start, mid, line[..], black, q => GlyphCovers(g, c, glyphRow, q),
                 q => RowsCover(g, c, glyphRow, c.scale, q), q => GlyphCovers(g, c, glyphRow + 1, q));
    }
  }

  /** The text is painted on the row exactly where its meaning says; without a colour it is black. */
  method DrawTextRow(p: Panel, g: Glyphs, op: Op, line: array<byte>, y: nat)
    requires op.Text? && y < p.ph && IsLine(p, line[..])
    modifies line
    ensures IsLine(p, line[..])
    ensures forall x | 0 <= x < p.pw ::
              LineWhite(p, line[..], x) ==
              (var q := ToLogical(p, x, y);
               if q.Some? then Painted(TextInk(p, Font(g, true), op, q.value), LineWhite(p, old(line[..]), x))
               else LineWhite(p, old(line[..]), x))
  {
    if op.fontHeight <= 0 || op.x >= p.lw || op.y >= p.lh {
      return;
    }
    ghost var start := line[..];
    var black := !IsSet(op.color) || IsBlack(op.color);
    var scale := Scale(op.fontHeight);
    var textY, cursor: nat := Origin(op.y), Origin(op.x);
    ghost var all := (q: Point) => TextCovers(p, g, op.text, Origin(op.x), textY, scale, q);
    ghost var done := (q: Point) => false;
    var i := 0;
    assert op.text[0..] == op.text;
    while i < |op.text|
      invariant i <= |op.text|
      invariant IsLine(p, line[..]) && Inked(p, y, start, line[..], black, done)
      invariant forall q :: all(q) <==> done(q) || TextCovers(p, g, op.text[i..], cursor, textY, scale, q)
    {
      ghost var mid, was := line[..], done;
      var c := Cell(op.text[i], cursor, textY, scale);
      PaintGlyph(p, g, line, y, c, black);
      done := (q: Point) => was(q) || GlyphCovers(g, c, 7, q);
      InkedTwice(p, y, start, mid, line[..], black, was, q => GlyphCovers(g, c, 7, q), done);
      cursor := (cursor + 6 * scale) % U16;
      assert op.text[i..][1..] == op.text[i + 1..];
      if cursor >= p.lw {
        assert forall q :: all(q) <==> done(q);
        break;
      }
      i := i + 1;
    }
    forall x | 0 <= x < p.pw
      ensures LineWhite(p, line[..], x) ==
              (var q := ToLogical(p, x, y);
               if q.Some? then Painted(TextInk(p, Font(g, true), op, q.value), LineWhite(p, start, x))
               else LineWhite(p, start, x))
    {
      var q := ToLogical(p, x, y);
      assert q.Some? ==> (all(q.value) <==> done(q.value));
    }
  }
}
