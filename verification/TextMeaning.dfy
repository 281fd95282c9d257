/**
 * What a text inks, in closed form: the set dots of its painted characters, each a square of pixels, and
 * the least rectangle that holds them for every glyph set.
 */
module TextMeaning {
  import opened PanelGeometry
  import opened TextRaster

  /** The dots of the cell have 16-bit coordinates. */
  predicate Fits(c: Cell)
  {
    c.cursor + 5 * c.scale <= U16 && c.textY + 7 * c.scale <= U16
  }

  predicate InColumn(c: Cell, col: nat, q: Point)
  {
    c.cursor + col * c.scale <= q.x < c.cursor + col * c.scale + c.scale
  }

  predicate InRow(c: Cell, row: nat, q: Point)
  {
    c.textY + row * c.scale <= q.y < c.textY + row * c.scale + c.scale
  }

  /** A set dot of the cell's glyph whose square holds the point. */
  predicate DotHolds(g: Glyphs, c: Cell, row: nat, col: nat, q: Point)
  {
    g(c.ch, row, col) && InColumn(c, col, q) && InRow(c, row, q)
  }

  // ---------------------------------------------------------------- the loops, one by one

  lemma DotBounds(scale: nat, k: nat, n: nat, r: nat)
    requires k < n && r < scale
    ensures 0 <= k * scale && k * scale + r < n * scale
  {
    assert (k + 1) * scale <= n * scale;
  }

  lemma {:induction false} ColumnExact(c: Cell, glyphRow: nat, row: nat, col: nat, n: nat, q: Point)
    requires Fits(c) && glyphRow < 7 && row < c.scale && col < 5 && n <= c.scale
    ensures ColumnCovers(c, glyphRow, row, col, n, q) <==>
            && c.cursor + col * c.scale <= q.x < c.cursor + col * c.scale + n
            && q.y == c.textY + glyphRow * c.scale + row
  {
    if n > 0 {
      ColumnExact(c, glyphRow, row, col, n - 1, q);
      DotBounds(c.scale, col, 5, n - 1);
      DotBounds(c.scale, glyphRow, 7, row);
      assert DotAt(c, glyphRow, row, col, n - 1)
             == Point(c.cursor + col * c.scale + (n - 1), c.textY + glyphRow * c.scale + row);
    }
  }

  predicate SomeColumn(g: Glyphs, c: Cell, glyphRow: nat, n: nat, q: Point)
  {
    exists col: nat :: col < n && g(c.ch, glyphRow, col) && InColumn(c, col, q)
  }

  lemma {:induction false} RowExact(g: Glyphs, c: Cell, glyphRow: nat, row: nat, n: nat, q: Point)
    requires Fits(c) && glyphRow < 7 && row < c.scale && n <= 5
    ensures RowCovers(g, c, glyphRow, row, n, q) <==>
            SomeColumn(g, c, glyphRow, n, q) && q.y == c.textY + glyphRow * c.scale + row
  {
    if n > 0 {
      RowExact(g, c, glyphRow, row, n - 1, q);
      ColumnExact(c, glyphRow, row, n - 1, c.scale, q);
    }
  }

  lemma {:induction false} RowsExact(g: Glyphs, c: Cell, glyphRow: nat, n: nat, q: Point)
    requires Fits(c) && glyphRow < 7 && n <= c.scale
    ensures RowsCover(g, c, glyphRow, n, q) <==>
            SomeColumn(g, c, glyphRow, 5, q)
            && c.textY + glyphRow * c.scale <= q.y < c.textY + glyphRow * c.scale + n
  {
    if n > 0 {
      RowsExact(g, c, glyphRow, n - 1, q);
      RowExact(g, c, glyphRow, n - 1, 5, q);
    }
  }

  predicate SomeDot(g: Glyphs, c: Cell, n: nat, q: Point)
  {
    exists row: nat, col: nat :: row < n && col < 5 && DotHolds(g, c, row, col, q)
  }

  lemma {:induction false} GlyphExact(g: Glyphs, c: Cell, n: nat, q: Point)
    requires Fits(c) && n <= 7
    ensures GlyphCovers(g, c, n, q) <==> SomeDot(g, c, n, q)
  {
    if n > 0 {
      GlyphExact(g, c, n - 1, q);
      RowsExact(g, c, n - 1, c.scale, q);
      if SomeColumn(g, c, n - 1, 5, q) && InRow(c, n - 1, q) {
        var col: nat :| col < 5 && g(c.ch, n - 1, col) && InColumn(c, col, q);
        assert DotHolds(g, c, n - 1, col, q);
      }
      if SomeDot(g, c, n, q) && !SomeDot(g, c, n - 1, q) {
        var row: nat, col: nat :| row < n && col < 5 && DotHolds(g, c, row, col, q);
        assert row == n - 1;
      }
    }
  }

  // ---------------------------------------------------------------- the whole text

  function CellAt(text: seq<char>, cursor: nat, textY: nat, scale: nat, k: nat): Cell
    requires k < |text|
  {
    Cell(text[k], cursor + k * (6 * scale), textY, scale)
  }

  /** Character `k` starts inside the logical area and has a dot that holds the point. */
  predicate CharHolds(p: Panel, g: Glyphs, text: seq<char>, cursor: nat, textY: nat, scale: nat, k: nat, q: Point)
  {
    && k < |text| && cursor + k * (6 * scale) < p.lw
    && SomeDot(g, CellAt(text, cursor, textY, scale, k), 7, q)
  }

  predicate SomeChar(p: Panel, g: Glyphs, text: seq<char>, cursor: nat, textY: nat, scale: nat, q: Point)
  {
    exists k: nat :: k < |text| && CharHolds(p, g, text, cursor, textY, scale, k, q)
  }

  lemma CharMoves(p: Panel, g: Glyphs, text: seq<char>, cursor: nat, textY: nat, scale: nat, k: nat, q: Point)
    requires 0 < k < |text|
    ensures CharHolds(p, g, text, cursor, textY, scale, k, q)
            <==> CharHolds(p, g, text[1..], cursor + 6 * scale, textY, scale, k - 1, q)
  {
    assert k * (6 * scale) == 6 * scale + (k - 1) * (6 * scale);
    assert CellAt(text, cursor, textY, scale, k) == CellAt(text[1..], cursor + 6 * scale, textY, scale, k - 1);
  }

  /** The painted ones of `n` characters have 16-bit dots, and so has the start of each next one. */
  predicate NoWrap(p: Panel, n: nat, cursor: nat, scale: nat)
  {
    n > 0 ==>
      && cursor + 5 * scale <= U16
      && (n > 1 ==>
            cursor + 6 * scale < U16 && (cursor + 6 * scale < p.lw ==> NoWrap(p, n - 1, cursor + 6 * scale, scale)))
  }

  /** A text that does not wrap inks a point exactly if a set dot of some painted character holds it. */
  lemma {:induction false} TextExact(p: Panel, g: Glyphs, text: seq<char>, cursor: nat, textY: nat, scale: nat,
                                     q: Point)
    requires cursor < p.lw && textY + 7 * scale <= U16 && NoWrap(p, |text|, cursor, scale)
    ensures TextCovers(p, g, text, cursor, textY, scale, q) <==> SomeChar(p, g, text, cursor, textY, scale, q)
    decreases |text|
  {
    if text != [] {
      var next := cursor + 6 * scale;
      assert CellAt(text, cursor, textY, scale, 0) == Cell(text[0], cursor, textY, scale);
      GlyphExact(g, Cell(text[0], cursor, textY, scale), 7, q);
      assert CharHolds(p, g, text, cursor, textY, scale, 0, q)
             <==> GlyphCovers(g, Cell(text[0], cursor, textY, scale), 7, q);
      if |text| > 1 && next < p.lw {
        TextExact(p, g, text[1..], next, textY, scale, q);
        LaterChars(p, g, text, cursor, textY, scale, q);
      } else if |text| > 1 {
        NoLaterChars(p, g, text, cursor, textY, scale, q);
      }
    }
  }

  lemma LaterChars(p: Panel, g: Glyphs, text: seq<char>, cursor: nat, textY: nat, scale: nat, q: Point)
    requires text != []
    ensures SomeChar(p, g, text, cursor, textY, scale, q) <==>
            || CharHolds(p, g, text, cursor, textY, scale, 0, q)
            || SomeChar(p, g, text[1..], cursor + 6 * scale, textY, scale, q)
  {
    if SomeChar(p, g, text[1..], cursor + 6 * scale, textY, scale, q) {
      var k: nat :| k < |text[1..]| && CharHolds(p, g, text[1..], cursor + 6 * scale, textY, scale, k, q);
      CharMoves(p, g, text, cursor, textY, scale, k + 1, q);
    }
    if SomeChar(p, g, text, cursor, textY, scale, q) {
      var k: nat :| k < |text| && CharHolds(p, g, text, cursor, textY, scale, k, q);
      if k > 0 {
        CharMoves(p, g, text, cursor, textY, scale, k, q);
      }
    }
  }

  lemma NoLaterChars(p: Panel, g: Glyphs, text: seq<char>, cursor: nat, textY: nat, scale: nat, q: Point)
    requires text != [] && cursor + 6 * scale >= p.lw
    ensures SomeChar(p, g, text, cursor, textY, scale, q) <==> CharHolds(p, g, text, cursor, textY, scale, 0, q)
  {
    forall k: nat | 0 < k < |text| ensures !CharHolds(p, g, text, cursor, textY, scale, k, q) {
      assert k * (6 * scale) >= 6 * scale;
    }
  }

  // ---------------------------------------------------------------- the rectangle of a text's ink

  predicate IsPainted(p: Panel, op: Op)
  {
    op.Text? && op.text != [] && !TextHidden(p, op)
  }

  /** Which texts are painted: those with a character and a font height, starting inside the area or before it. */
  lemma PaintedExactly(p: Panel, op: Op)
    ensures IsPainted(p, op) <==> op.Text? && |op.text| > 0 && op.fontHeight >= 1 && op.x < p.lw && op.y < p.lh
  {
  }

  /** How many of `n` characters start before `room` pixels are used up. */
  function Starting(n: nat, width: nat, room: nat): (k: nat)
    requires width > 0
    ensures k <= n
  {
    var fit := (room + width - 1) / width;
    if fit < n then fit else n
  }

  lemma StartingExact(n: nat, width: nat, room: nat, k: nat)
    requires width > 0 && k < n
    ensures k < Starting(n, width, room) <==> k * width < room
  {
    var fit := (room + width - 1) / width;
    QuotientBounds(room + width - 1, width);
    Monotone(k + 1, fit, width);
    Monotone(fit, k, width);
    assert (k + 1) * width == k * width + width;
  }

  /** A dot is a seventh of the font height, at least one pixel. */
  lemma ScaleIsSeventh(fontHeight: int)
    requires 0 < fontHeight < 1792
    ensures fontHeight < 7 ==> Scale(fontHeight) == 1
    ensures fontHeight >= 7 ==> 7 * Scale(fontHeight) <= fontHeight < 7 * Scale(fontHeight) + 7
  {
  }

  lemma QuotientBounds(a: nat, b: nat)
    requires b > 0
    ensures a / b * b <= a < a / b * b + b
  {
  }

  lemma Monotone(a: nat, b: nat, s: nat)
    ensures a <= b ==> a * s <= b * s
  {
  }

  /** No dot of a painted text, nor the start of the first character left out, exceeds 16 bits. */
  predicate Unwrapped(p: Panel, op: Op)
    requires IsPainted(p, op)
  {
    var s, ox := Scale(op.fontHeight), Origin(op.x);
    var n := Starting(|op.text|, 6 * s, p.lw - ox);
    && ox + n * (6 * s) - s <= U16 && (n < |op.text| ==> ox + n * (6 * s) < U16)
    && Origin(op.y) + 7 * s <= U16
  }

  /** A painted text that does not wrap. */
  predicate Legible(p: Panel, op: Op)
  {
    p.Valid() && IsPainted(p, op) && Unwrapped(p, op)
  }

  lemma {:induction false} UnwrappedFrom(p: Panel, op: Op, k: nat)
    requires Legible(p, op)
    requires var s, ox := Scale(op.fontHeight), Origin(op.x); k < Starting(|op.text|, 6 * s, p.lw - ox)
    ensures var s := Scale(op.fontHeight); NoWrap(p, |op.text| - k, Origin(op.x) + k * (6 * s), s)
    decreases |op.text| - k
  {
    var s, ox := Scale(op.fontHeight), Origin(op.x);
    var n := Starting(|op.text|, 6 * s, p.lw - ox);
    CharEnd(k, n, s);
    assert (k + 1) * (6 * s) == k * (6 * s) + 6 * s;
    if k + 1 < |op.text| {
      StartingExact(|op.text|, 6 * s, p.lw - ox, k + 1);
      if k + 1 < n {
        UnwrappedFrom(p, op, k + 1);
      }
    }
  }

  /** What a legible text inks, in closed form. */
  lemma LegibleExact(p: Panel, f: Font, op: Op, q: Point)
    requires Legible(p, op)
    ensures TextInk(p, f, op, q).Some?
            <==> SomeChar(p, f.glyphs, op.text, Origin(op.x), Origin(op.y), Scale(op.fontHeight), q)
  {
    var s, ox := Scale(op.fontHeight), Origin(op.x);
    StartingExact(|op.text|, 6 * s, p.lw - ox, 0);
    UnwrappedFrom(p, op, 0);
    TextExact(p, f.glyphs, op.text, ox, Origin(op.y), s, q);
  }

  /** On a panel of the usual size no text wraps. */
  lemma SmallPanelsLegible(p: Panel, op: Op)
    requires p.Valid() && IsPainted(p, op) && p.lw + 6 * 255 <= U16 && p.lh + 7 * 255 <= U16
    ensures Legible(p, op)
  {
    var s, ox := Scale(op.fontHeight), Origin(op.x);
    assert 1 <= s <= 255;
    LastEnds(|op.text|, 6 * s, p.lw - ox);
  }

  /** The characters that start take less than one width more than there is room. */
  lemma LastEnds(count: nat, width: nat, room: nat)
    requires width > 0 && count > 0 && room > 0
    ensures var n := Starting(count, width, room); 0 < n && n * width < room + width
  {
    var n := Starting(count, width, room);
    StartingExact(count, width, room, 0);
    StartingExact(count, width, room, n - 1);
    assert n * width == (n - 1) * width + width;
  }

  /** From the origin to the end of the last painted character's fifth column, clipped. */
  function InkArea(p: Panel, op: Op): Area
    requires IsPainted(p, op)
  {
    var s, ox, oy := Scale(op.fontHeight), Origin(op.x), Origin(op.y);
    var n := Starting(|op.text|, 6 * s, p.lw - ox);
    Area(ox, oy, Min(ox + n * (6 * s) - s, p.lw), Min(oy + 7 * s, p.lh))
  }

  lemma CharEnd(k: nat, n: nat, s: nat)
    requires k < n
    ensures k * (6 * s) + 5 * s <= n * (6 * s) - s
  {
    assert (k + 1) * (6 * s) <= n * (6 * s);
  }

  lemma SquareEnd(k: nat, n: nat, s: nat, d: int)
    requires k < n && k * s <= d < k * s + s
    ensures 0 <= d < n * s
  {
    DotBounds(s, k, n, d - k * s);
  }

  lemma DotInArea(p: Panel, op: Op, k: nat, row: nat, col: nat, q: Point)
    requires Legible(p, op) && q.x < p.lw && q.y < p.lh
    requires k < |op.text| && row < 7 && col < 5
    ensures var c := CellAt(op.text, Origin(op.x), Origin(op.y), Scale(op.fontHeight), k);
            c.cursor < p.lw && InColumn(c, col, q) && InRow(c, row, q) ==> InkArea(p, op).Has(q.x, q.y)
  {
    var s, ox := Scale(op.fontHeight), Origin(op.x);
    var n := Starting(|op.text|, 6 * s, p.lw - ox);
    var c := CellAt(op.text, ox, Origin(op.y), s, k);
    if c.cursor < p.lw && InColumn(c, col, q) && InRow(c, row, q) {
      StartingExact(|op.text|, 6 * s, p.lw - ox, k);
      CharEnd(k, n, s);
      SquareEnd(col, 5, s, q.x - (ox + k * (6 * s)));
      SquareEnd(row, 7, s, q.y - Origin(op.y));
    }
  }

  /** Whatever the glyphs, a text inks nothing outside its area. */
  lemma InkInArea(p: Panel, f: Font, op: Op, q: Point)
    requires op.Text? && (IsPainted(p, op) ==> Legible(p, op))
    requires q.x < p.lw && q.y < p.lh && TextInk(p, f, op, q).Some?
    ensures IsPainted(p, op) && InkArea(p, op).Has(q.x, q.y)
  {
    var s, ox, oy := Scale(op.fontHeight), Origin(op.x), Origin(op.y);
    LegibleExact(p, f, op, q);
    var k: nat :| k < |op.text| && CharHolds(p, f.glyphs, op.text, ox, oy, s, k, q);
    var c := CellAt(op.text, ox, oy, s, k);
    var row: nat, col: nat :| row < 7 && col < 5 && DotHolds(f.glyphs, c, row, col, q);
    DotInArea(p, op, k, row, col, q);
  }

  /** Every dot set. */
  function AllSet(): Font
  {
    Font((ch, row, col) => true, true)
  }

  /** With every dot set, a point inside one of the squares is inked. */
  lemma SquareInked(p: Panel, op: Op, k: nat, row: nat, col: nat, q: Point)
    requires Legible(p, op) && k < |op.text| && row < 7 && col < 5
    requires var c := CellAt(op.text, Origin(op.x), Origin(op.y), Scale(op.fontHeight), k);
             c.cursor < p.lw && InColumn(c, col, q) && InRow(c, row, q)
    ensures TextInk(p, AllSet(), op, q).Some?
  {
    var s, ox, oy := Scale(op.fontHeight), Origin(op.x), Origin(op.y);
    var c := CellAt(op.text, ox, oy, s, k);
    assert DotHolds(AllSet().glyphs, c, row, col, q);
    assert CharHolds(p, AllSet().glyphs, op.text, ox, oy, s, k, q);
    LegibleExact(p, AllSet(), op, q);
  }

  lemma SquareOf(d: nat, s: nat, n: nat) returns (k: nat)
    requires s > 0 && d < n * s
    ensures k < n && k * s <= d < k * s + s
  {
    k := d / s;
    QuotientBounds(d, s);
    Monotone(n, k, s);
  }

  lemma FirstInked(p: Panel, op: Op)
    requires Legible(p, op)
    ensures TextInk(p, AllSet(), op, Point(Origin(op.x), Origin(op.y))).Some?
  {
    var q := Point(Origin(op.x), Origin(op.y));
    var first := CellAt(op.text, q.x, q.y, Scale(op.fontHeight), 0);
    assert InColumn(first, 0, q) && InRow(first, 0, q);
    SquareInked(p, op, 0, 0, 0, q);
  }

  /** The last character that starts, and where it ends. */
  lemma LastStarts(p: Panel, op: Op) returns (last: nat)
    requires Legible(p, op)
    ensures var s, ox := Scale(op.fontHeight), Origin(op.x);
            && last < |op.text| && ox + last * (6 * s) < p.lw
            && InkArea(p, op).right == Min(ox + last * (6 * s) + 5 * s, p.lw)
  {
    var s, ox := Scale(op.fontHeight), Origin(op.x);
    var n := Starting(|op.text|, 6 * s, p.lw - ox);
    StartingExact(|op.text|, 6 * s, p.lw - ox, 0);
    last := n - 1;
    StartingExact(|op.text|, 6 * s, p.lw - ox, last);
    assert n * (6 * s) == last * (6 * s) + 6 * s;
  }

  lemma LastInked(p: Panel, op: Op)
    requires Legible(p, op)
    ensures var a := InkArea(p, op);
            && !a.Empty() && 0 <= a.left && 0 <= a.top && a.right <= p.lw && a.bottom <= p.lh
            && TextInk(p, AllSet(), op, Point(a.right - 1, a.bottom - 1)).Some?
  {
    var s, ox, oy := Scale(op.fontHeight), Origin(op.x), Origin(op.y);
    var a := InkArea(p, op);
    var last := LastStarts(p, op);
    var col := SquareOf(a.right - 1 - (ox + last * (6 * s)), s, 5);
    var row := SquareOf(a.bottom - 1 - oy, s, 7);
    SquareInked(p, op, last, row, col, Point(a.right - 1, a.bottom - 1));
  }

  /** With every dot set, both far corners of the area are inked, so the area is the least. */
  lemma CornersInked(p: Panel, op: Op)
    requires Legible(p, op)
    ensures var a := InkArea(p, op);
            && !a.Empty() && 0 <= a.left && 0 <= a.top && a.right <= p.lw && a.bottom <= p.lh
            && TextInk(p, AllSet(), op, Point(a.left, a.top)).Some?
            && TextInk(p, AllSet(), op, Point(a.right - 1, a.bottom - 1)).Some?
  {
    FirstInked(p, op);
    LastInked(p, op);
  }
}
