/**
 * The panel: its rotated logical area, the mirrored packing of its pixels into bytes, and the display
 * operations drawn on it.
 */
module PanelGeometry {
  import opened Bytes

  datatype Option<+T> = None | Some(value: T)

  const U16 := 0x1_0000

  /** The sizes are 16-bit values; the rotation is in degrees. */
  datatype Panel = Panel(lw: nat, lh: nat, pw: nat, ph: nat, rotation: nat)
  {
    predicate Valid() {
      && 0 < lw < U16 && 0 < lh < U16 && 0 < pw < U16 && 0 < ph < U16
      && pw % 8 == 0
    }

    /** The rotated logical area lies on the panel. */
    predicate Holds() {
      || (rotation == 0 && lw <= pw && lh <= ph)
      || (rotation == 90 && lh <= pw && lw <= ph)
      || (rotation == 180 && lw <= pw && lh <= ph)
      || (rotation == 270 && lh <= pw && lw <= ph)
    }

    function RowBytes(): nat {
      pw / 8
    }
  }

  datatype Point = Point(x: int, y: int)

  /** Where a logical point lands on the panel. */
  function ToPhysical(p: Panel, lx: nat, ly: nat): Option<Point>
  {
    if lx >= p.lw || ly >= p.lh then None
    else
      var q :=
        if p.rotation == 0 then Some(Point(lx, ly))
        else if p.rotation == 90 then Some(Point(ly, p.lw - 1 - lx))
        else if p.rotation == 180 then Some(Point(p.lw - 1 - lx, p.lh - 1 - ly))
        else if p.rotation == 270 then Some(Point(p.lh - 1 - ly, lx))
        else None;
      if q.Some? && q.value.x < p.pw && q.value.y < p.ph then q else None
  }

  /** The logical point under a panel pixel, when the rotation is one of the four. */
  function ToLogical(p: Panel, x: nat, y: nat): Option<Point>
  {
    var q :=
      if p.rotation == 0 then Some(Point(x, y))
      else if p.rotation == 90 then Some(Point(p.lw - 1 - y, x))
      else if p.rotation == 180 then Some(Point(p.lw - 1 - x, p.lh - 1 - y))
      else if p.rotation == 270 then Some(Point(y, p.lh - 1 - x))
      else None;
    if q.Some? && 0 <= q.value.x < p.lw && 0 <= q.value.y < p.lh then q else None
  }

  /** The two maps are inverse on the panel. */
  lemma MapsAreInverse(p: Panel, lx: nat, ly: nat, x: nat, y: nat)
    requires x < p.pw && y < p.ph
    ensures ToPhysical(p, lx, ly) == Some(Point(x, y)) <==> ToLogical(p, x, y) == Some(Point(lx, ly))
  {
  }

  /** Without rotation nothing moves; turning by 90 degrees twice is turning by 180, three times by 270. */
  lemma QuarterTurns(w: nat, h: nat, x: nat, y: nat)
    requires x < w && y < h
    ensures ToPhysical(Panel(w, h, w, h, 0), x, y) == Some(Point(x, y))
    ensures var once := ToPhysical(Panel(w, h, h, w, 90), x, y);
            && once.Some? && once.value.x >= 0 && once.value.y >= 0
            && var twice := ToPhysical(Panel(h, w, w, h, 90), once.value.x, once.value.y);
               && twice.Some? && twice.value.x >= 0 && twice.value.y >= 0
               && twice == ToPhysical(Panel(w, h, w, h, 180), x, y)
               && ToPhysical(Panel(w, h, h, w, 90), twice.value.x, twice.value.y)
                  == ToPhysical(Panel(w, h, h, w, 270), x, y)
  {
  }

  /** Under a turn by 90 degrees the first logical row becomes the first column, from the bottom up. */
  lemma FirstRowTurned(w: nat, h: nat, x: nat)
    requires x < w && h > 0
    ensures ToPhysical(Panel(w, h, h, w, 90), x, 0) == Some(Point(0, w - 1 - x))
  {
  }

  // ---------------------------------------------------------------- pixels in bytes

  /** The mask of pixel `k` of a byte, leftmost in memory first. */
  function Mask(k: nat): bv8
    requires k < 8
  {
    if k == 0 then 0x80 else if k == 1 then 0x40 else if k == 2 then 0x20 else if k == 3 then 0x10
    else if k == 4 then 0x08 else if k == 5 then 0x04 else if k == 6 then 0x02 else 0x01
  }

  /** A set bit is a white pixel. */
  predicate IsWhite(b: byte, k: nat)
    requires k < 8
  {
    b & Mask(k) != 0
  }

  function SetBit(b: byte, k: nat, black: bool): byte
    requires k < 8
  {
    if black then b & !Mask(k) else b | Mask(k)
  }

  lemma SetBitSame(b: byte, k: nat, black: bool)
    requires k < 8
    ensures IsWhite(SetBit(b, k, black), k) == !black
  {
  }

  lemma SetBitOther(b: byte, k: nat, j: nat, black: bool)
    requires k < 8 && j < 8 && j != k
    ensures IsWhite(SetBit(b, k, black), j) == IsWhite(b, j)
  {
    MasksDisjoint(k, j);
    BitUntouched(b, Mask(k), Mask(j));
  }

  lemma MasksDisjoint(k: nat, j: nat)
    requires k < 8 && j < 8 && j != k
    ensures Mask(k) & Mask(j) == 0
  {
  }

  lemma BitUntouched(b: bv8, m: bv8, n: bv8)
    requires m & n == 0
    ensures (b & !m) & n == b & n && (b | m) & n == b & n
  {
  }

  lemma BitsZeroOne(b: byte)
    ensures b as int / 128 % 2 == if IsWhite(b, 0) then 1 else 0
    ensures b as int / 64 % 2 == if IsWhite(b, 1) then 1 else 0
  {
  }

  lemma BitsTwoThree(b: byte)
    ensures b as int / 32 % 2 == if IsWhite(b, 2) then 1 else 0
    ensures b as int / 16 % 2 == if IsWhite(b, 3) then 1 else 0
  {
  }

  lemma BitsFourFive(b: byte)
    ensures b as int / 8 % 2 == if IsWhite(b, 4) then 1 else 0
    ensures b as int / 4 % 2 == if IsWhite(b, 5) then 1 else 0
  {
  }

  lemma BitsSixSeven(b: byte)
    ensures b as int / 2 % 2 == if IsWhite(b, 6) then 1 else 0
    ensures b as int % 2 == if IsWhite(b, 7) then 1 else 0
  {
  }

  lemma Weights()
    ensures Pow2(0) == 1 && Pow2(1) == 2 && Pow2(2) == 4 && Pow2(3) == 8
    ensures Pow2(4) == 16 && Pow2(5) == 32 && Pow2(6) == 64 && Pow2(7) == 128
  {
    assert Pow2(2) == 4;
    assert Pow2(4) == 16;
    assert Pow2(6) == 64;
  }

  /** Pixel `k` of a byte, leftmost in memory first, is the bit of weight 2^(7 - k). */
  lemma PixelIsBit(b: byte, k: nat)
    requires k < 8
    ensures BitAt(b, 7 - k) == if IsWhite(b, k) then 1 else 0
  {
    Weights();
    BitsZeroOne(b);
    BitsTwoThree(b);
    BitsFourFive(b);
    BitsSixSeven(b);
  }

  lemma SameBitsSameByte(a: byte, b: byte)
    requires forall k :: 0 <= k < 8 ==> IsWhite(a, k) == IsWhite(b, k)
    ensures a == b
  {
    assert IsWhite(a, 0) == IsWhite(b, 0) && IsWhite(a, 1) == IsWhite(b, 1);
    assert IsWhite(a, 2) == IsWhite(b, 2) && IsWhite(a, 3) == IsWhite(b, 3);
    assert IsWhite(a, 4) == IsWhite(b, 4) && IsWhite(a, 5) == IsWhite(b, 5);
    assert IsWhite(a, 6) == IsWhite(b, 6) && IsWhite(a, 7) == IsWhite(b, 7);
  }

  // ---------------------------------------------------------------- display operations

  /** Sixteen gray levels, or 255 for none. */
  type Color = nat

  const UNSET: Color := 0xff
  const BLACK: Color := 15

  predicate IsSet(c: Color) { c != UNSET }

  predicate IsBlack(c: Color) { c == BLACK }

  /** A text holds no terminator; a drawable takes its page from elsewhere. */
  datatype Op =
    | Clear(x: int, y: int, color: Color)
    | Text(x: int, y: int, text: seq<char>, fontHeight: int, color: Color)
    | Rect(x: int, y: int, w: int, h: int, fill: Color, stroke: Color)
    | Drawable(x: int, y: int)

  function Max(a: int, b: int): int { if a > b then a else b }

  function Min(a: int, b: int): int { if a < b then a else b }

  /** Half-open logical rectangle. */
  datatype Area = Area(left: int, top: int, right: int, bottom: int)
  {
    predicate Has(x: int, y: int) {
      left <= x < right && top <= y < bottom
    }

    predicate OnEdge(x: int, y: int) {
      x == left || x == right - 1 || y == top || y == bottom - 1
    }

    predicate Empty() {
      left >= right || top >= bottom
    }
  }

  /** A rectangle clipped to the logical area. */
  function Clip(p: Panel, x: int, y: int, w: int, h: int): Area
  {
    Area(Max(x, 0), Max(y, 0), Min(x + w, p.lw), Min(y + h, p.lh))
  }
}
