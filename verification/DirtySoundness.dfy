/**
 * What the partial-refresh window promises: outside it the images of two display lists agree exactly
 * where painting their shared operations in either order agrees, provided that the rectangle of every
 * text only one of them has reaches its ink, which is needed; and it is no larger than whole bytes require.
 */
module DirtySoundness {
  import opened Bytes
  import opened PanelGeometry
  import opened Raster
  import opened TextRaster
  import opened TextMeaning
  import opened DirtyWindow
  import opened DisplayMeaning
  import opened TextWindow

  predicate LeadingClear(ops: seq<Op>)
  {
    forall i :: 0 < i < |ops| ==> !ops[i].Clear?
  }

  predicate NoDrawable(ops: seq<Op>)
  {
    forall i :: 0 <= i < |ops| ==> !ops[i].Drawable?
  }

  /** No drawable, and the rectangle of every text that the other list does not have reaches its ink. */
  predicate Plain(p: Panel, ops: seq<Op>, other: seq<Op>)
    requires Placed(p)
  {
    NoDrawable(ops) && forall i :: 0 <= i < |ops| && ops[i].Text? && Unshared(ops[i], other) ==> Held(p, ops[i])
  }

  /** The operations of a list, clears aside, that the other list has too. */
  function Shared(ops: seq<Op>, other: seq<Op>): seq<Op>
  {
    if ops == [] then []
    else
      var front, last := Shared(ops[..|ops| - 1], other), ops[|ops| - 1];
      if !last.Clear? && last in other then front + [last] else front
  }

  /** Where unshared operations leave no ink, the shared ones over the cleared background decide. */
  lemma {:induction false} SharedDecide(p: Panel, f: Font, ops: seq<Op>, other: seq<Op>, x: nat, y: nat)
    requires LeadingClear(ops)
    requires forall i :: 0 <= i < |ops| && Unshared(ops[i], other) ==> Ink(p, f, ops[i], x, y) == None
    ensures Shown(p, f, ops, x, y) == WhiteAfter(p, f, !IsBlack(LastClear(ops)), Shared(ops, other), x, y)
  {
    if ops != [] {
      var n := |ops| - 1;
      var front, last := ops[..n], ops[n];
      forall i | 0 <= i < n && Unshared(front[i], other) ensures Ink(p, f, front[i], x, y) == None {
        assert Unshared(ops[i], other);
      }
      SharedDecide(p, f, front, other, x, y);
      if last.Clear? {
        assert n == 0;
      } else if last in other {
        assert Shared(ops, other)[..|Shared(ops, other)| - 1] == Shared(front, other);
      } else {
        assert Unshared(ops[n], other);
      }
    }
  }

  // ---------------------------------------------------------------- ink stays inside the window

  /** The aligned window of an operation contains all its ink, and whatever was in the window before. */
  lemma IncludeOpCovers(p: Panel, f: Font, w: Window, op: Op, x: nat, y: nat)
    requires Placed(p) && (op.Rect? || (op.Text? && Held(p, op))) && OnPanel(p, w) && x < p.pw && y < p.ph
    ensures OnPanel(p, IncludeOp(p, w, op)) && w.Within(IncludeOp(p, w, op))
    ensures Ink(p, f, op, x, y).Some? ==> AlignX(p, IncludeOp(p, w, op)).Has(x, y)
  {
    var area, alone := AreaOf(p, op), IncludeOp(p, Nothing, op);
    IncludeOpIsHull(p, w, op);
    IncludeOpIsHull(p, Nothing, op);
    if !area.Empty() {
      HullContains(w, BoxOf(p, area));
      HullOnPanel(p, w, BoxOf(p, area));
      assert Hull(Nothing, BoxOf(p, area)) == BoxOf(p, area);
    }
    AlignMonotone(p, alone, IncludeOp(p, w, op));
    if Ink(p, f, op, x, y).Some? {
      AloneCovers(p, f, op, x, y);
      WithinHas(AlignX(p, alone), AlignX(p, IncludeOp(p, w, op)), x, y);
    }
  }

  lemma AloneCovers(p: Panel, f: Font, op: Op, x: nat, y: nat)
    requires Placed(p) && (op.Rect? || (op.Text? && Held(p, op))) && x < p.pw && y < p.ph
    requires Ink(p, f, op, x, y).Some?
    ensures AlignX(p, IncludeOp(p, Nothing, op)).Has(x, y)
  {
    var alone := IncludeOp(p, Nothing, op);
    if op.Text? {
      InkInBox(p, f, op, x, y);
      HeldExact(p, op);
      WithinHas(InkBox(p, op), AlignX(p, alone), x, y);
    } else {
      IncludeOpIsHull(p, Nothing, op);
      BoxOfExact(p, AreaOf(p, op), x, y);
      AlignContains(p, alone);
      WithinHas(alone, AlignX(p, alone), x, y);
    }
  }

  /** The window of the unshared operations, in whole bytes, contains their ink. */
  lemma {:induction false} UnsharedCovered(p: Panel, f: Font, w: Window, ops: seq<Op>, other: seq<Op>, x: nat, y: nat)
    requires Placed(p) && Plain(p, ops, other) && OnPanel(p, w) && x < p.pw && y < p.ph
    ensures OnPanel(p, IncludeUnshared(p, w, ops, other)) && w.Within(IncludeUnshared(p, w, ops, other))
    ensures forall i :: 0 <= i < |ops| && Unshared(ops[i], other) && Ink(p, f, ops[i], x, y).Some? ==>
              AlignX(p, IncludeUnshared(p, w, ops, other)).Has(x, y)
  {
    if ops != [] {
      var n := |ops| - 1;
      var front, last := ops[..n], ops[n];
      var before, after := IncludeUnshared(p, w, front, other), IncludeUnshared(p, w, ops, other);
      UnsharedCovered(p, f, w, front, other, x, y);
      if Unshared(last, other) {
        IncludeOpCovers(p, f, before, last, x, y);
      }
      AlignMonotone(p, before, after);
      forall i | 0 <= i < |ops| && Unshared(ops[i], other) && Ink(p, f, ops[i], x, y).Some?
        ensures AlignX(p, after).Has(x, y)
      {
        if i < n {
          assert ops[i] == front[i];
          WithinHas(AlignX(p, before), AlignX(p, after), x, y);
        }
      }
    }
  }

  /** A pixel outside the window is inked by no operation that only one of the lists has. */
  lemma OutsideUninked(p: Panel, f: Font, previous: seq<Op>, current: seq<Op>, x: nat, y: nat)
    requires Placed(p) && Plain(p, previous, current) && Plain(p, current, previous)
    requires LastClear(previous) == LastClear(current)
    requires x < p.pw && y < p.ph && !Dirty(p, previous, current).Has(x, y)
    ensures forall i :: 0 <= i < |previous| && Unshared(previous[i], current) ==> Ink(p, f, previous[i], x, y) == None
    ensures forall i :: 0 <= i < |current| && Unshared(current[i], previous) ==> Ink(p, f, current[i], x, y) == None
  {
    var first := IncludeUnshared(p, Nothing, previous, current);
    var both := IncludeUnshared(p, first, current, previous);
    UnsharedCovered(p, f, Nothing, previous, current, x, y);
    UnsharedCovered(p, f, first, current, previous, x, y);
    AlignMonotone(p, first, both);
    if AlignX(p, first).Has(x, y) {
      WithinHas(AlignX(p, first), AlignX(p, both), x, y);
    }
  }

  // ---------------------------------------------------------------- the promise

  /** What the operations both lists have show over the clear, painted in the order of the first. */
  function SharedShown(p: Panel, f: Font, ops: seq<Op>, other: seq<Op>, x: nat, y: nat): bool
  {
    WhiteAfter(p, f, !IsBlack(LastClear(ops)), Shared(ops, other), x, y)
  }

  /**
   * Outside the window of two lists with the same clear, the images agree exactly where painting the
   * shared operations in the one order and in the other agrees.
   */
  lemma OutsideWindowExact(p: Panel, f: Font, previous: seq<Op>, current: seq<Op>, x: nat, y: nat)
    requires Placed(p) && Plain(p, previous, current) && Plain(p, current, previous)
    requires LeadingClear(previous) && LeadingClear(current)
    requires LastClear(previous) == LastClear(current)
    requires x < p.pw && y < p.ph && !Dirty(p, previous, current).Has(x, y)
    ensures Shown(p, f, previous, x, y) == Shown(p, f, current, x, y)
            <==> SharedShown(p, f, previous, current, x, y) == SharedShown(p, f, current, previous, x, y)
  {
    OutsideUninked(p, f, previous, current, x, y);
    SharedDecide(p, f, previous, current, x, y);
    SharedDecide(p, f, current, previous, x, y);
  }

  /**
   * Two lists of rectangles and texts, each with at most one clear and that one leading, whose shared
   * operations come in the same order: every pixel that shows differently is inside the window.
   */
  lemma WindowCoversChanges(p: Panel, f: Font, previous: seq<Op>, current: seq<Op>, x: nat, y: nat)
    requires Placed(p) && Plain(p, previous, current) && Plain(p, current, previous)
    requires LeadingClear(previous) && LeadingClear(current)
    requires Shared(previous, current) == Shared(current, previous)
    requires x < p.pw && y < p.ph
    requires Shown(p, f, previous, x, y) != Shown(p, f, current, x, y)
    ensures Dirty(p, previous, current).Has(x, y)
  {
    if LastClear(previous) == LastClear(current) && !Dirty(p, previous, current).Has(x, y) {
      OutsideWindowExact(p, f, previous, current, x, y);
    }
  }

  /** In particular, no window means identical images. */
  lemma NoWindowNoChange(p: Panel, f: Font, previous: seq<Op>, current: seq<Op>)
    requires Placed(p) && Plain(p, previous, current) && Plain(p, current, previous)
    requires LeadingClear(previous) && LeadingClear(current)
    requires Shared(previous, current) == Shared(current, previous)
    requires Dirty(p, previous, current) == Nothing
    ensures forall x, y | 0 <= x < p.pw && 0 <= y < p.ph ::
              Shown(p, f, previous, x, y) == Shown(p, f, current, x, y)
  {
    forall x, y | 0 <= x < p.pw && 0 <= y < p.ph
      ensures Shown(p, f, previous, x, y) == Shown(p, f, current, x, y)
    {
      if Shown(p, f, previous, x, y) != Shown(p, f, current, x, y) {
        WindowCoversChanges(p, f, previous, current, x, y);
      }
    }
  }

  /**
   * Both lists painted one after the other into the framebuffer, each starting with its clear: the bits
   * of the two frames that differ are in the window.
   */
  method PaintBoth(p: Panel, g: Glyphs, previous: seq<Op>, current: seq<Op>, fb: array<byte>)
    returns (shown: seq<byte>)
    requires Placed(p) && Plain(p, previous, current) && Plain(p, current, previous) && IsFrame(p, fb[..])
    requires AllStraight(p, previous) && AllStraight(p, current)
    requires LeadingClear(previous) && LeadingClear(current)
    requires previous != [] && previous[0].Clear? && current != [] && current[0].Clear?
    requires Shared(previous, current) == Shared(current, previous)
    modifies fb
    ensures IsFrame(p, shown) && IsFrame(p, fb[..])
    ensures forall x, y | 0 <= x < p.pw && 0 <= y < p.ph ::
              FrameWhite(p, shown, x, y) == Shown(p, Font(g, false), previous, x, y)
              && FrameWhite(p, fb[..], x, y) == Shown(p, Font(g, false), current, x, y)
    ensures forall x, y | 0 <= x < p.pw && 0 <= y < p.ph ::
              FrameWhite(p, shown, x, y) != FrameWhite(p, fb[..], x, y) ==> Dirty(p, previous, current).Has(x, y)
  {
    ghost var start := fb[..];
    PaintCalls(p, g, previous, fb);
    shown := fb[..];
    PaintCalls(p, g, current, fb);
    forall x, y | 0 <= x < p.pw && 0 <= y < p.ph
      ensures FrameWhite(p, shown, x, y) == Shown(p, Font(g, false), previous, x, y)
      ensures FrameWhite(p, fb[..], x, y) == Shown(p, Font(g, false), current, x, y)
      ensures FrameWhite(p, shown, x, y) != FrameWhite(p, fb[..], x, y) ==> Dirty(p, previous, current).Has(x, y)
    {
      ClearCovers(p, Font(g, false), FrameWhite(p, start, x, y), previous, x, y);
      ClearCovers(p, Font(g, false), FrameWhite(p, shown, x, y), current, x, y);
      if Shown(p, Font(g, false), previous, x, y) != Shown(p, Font(g, false), current, x, y) {
        WindowCoversChanges(p, Font(g, false), previous, current, x, y);
      }
    }
  }

  // ---------------------------------------------------------------- and no more than that

  lemma OneLeast(p: Panel, w: Window, op: Op, v: Window)
    requires Placed(p) && (op.Text? || op.Rect?) && OnPanel(p, w) && w.Within(v)
    requires IncludeOp(p, Nothing, op).Within(v)
    ensures OnPanel(p, IncludeOp(p, w, op)) && IncludeOp(p, w, op).Within(v)
  {
    var area := AreaOf(p, op);
    IncludeOpIsHull(p, w, op);
    IncludeOpIsHull(p, Nothing, op);
    if !area.Empty() {
      assert Hull(Nothing, BoxOf(p, area)) == BoxOf(p, area);
      HullLeast(w, BoxOf(p, area), v);
      HullOnPanel(p, w, BoxOf(p, area));
    }
  }

  lemma {:induction false} UnsharedLeast(p: Panel, w: Window, ops: seq<Op>, other: seq<Op>, v: Window)
    requires Placed(p) && NoDrawable(ops) && OnPanel(p, w) && w.Within(v)
    requires forall i :: 0 <= i < |ops| && Unshared(ops[i], other) ==> IncludeOp(p, Nothing, ops[i]).Within(v)
    ensures OnPanel(p, IncludeUnshared(p, w, ops, other)) && IncludeUnshared(p, w, ops, other).Within(v)
  {
    if ops != [] {
      var n := |ops| - 1;
      var front, last := ops[..n], ops[n];
      forall i | 0 <= i < n && Unshared(front[i], other) ensures IncludeOp(p, Nothing, front[i]).Within(v) {
        assert Unshared(ops[i], other);
      }
      UnsharedLeast(p, w, front, other, v);
      if Unshared(last, other) {
        assert Unshared(ops[n], other);
        OneLeast(p, IncludeUnshared(p, w, front, other), last, v);
      }
    }
  }

  /**
   * With equal backgrounds the window is the least one, in whole bytes of the mirrored RAM, that holds
   * the rectangle of every operation only one of the lists has.
   */
  lemma WindowIsLeast(p: Panel, previous: seq<Op>, current: seq<Op>, v: Window)
    requires Placed(p) && NoDrawable(previous) && NoDrawable(current) && LastClear(previous) == LastClear(current)
    requires OnPanel(p, v) && Aligned(p, v)
    requires forall i :: 0 <= i < |previous| && Unshared(previous[i], current) ==>
               IncludeOp(p, Nothing, previous[i]).Within(v)
    requires forall i :: 0 <= i < |current| && Unshared(current[i], previous) ==>
               IncludeOp(p, Nothing, current[i]).Within(v)
    ensures Dirty(p, previous, current).Within(v)
  {
    var first := IncludeUnshared(p, Nothing, previous, current);
    UnsharedLeast(p, Nothing, previous, current, v);
    UnsharedLeast(p, first, current, previous, v);
    AlignIsLeast(p, IncludeUnshared(p, first, current, previous), v);
  }

  // ---------------------------------------------------------------- where the conditions matter

  /** Lists with the same operations, in any order and number, get no window. */
  lemma {:induction false} SameOperationsNoWindow(p: Panel, w: Window, ops: seq<Op>, other: seq<Op>)
    requires p.Valid()
    requires forall op :: op in ops ==> op in other
    ensures IncludeUnshared(p, w, ops, other) == w
  {
    if ops != [] {
      assert ops[|ops| - 1] in ops;
      SameOperationsNoWindow(p, w, ops[..|ops| - 1], other);
    }
  }

  lemma TwoPainted(p: Panel, f: Font, a: Op, b: Op, x: nat, y: nat)
    requires Ink(p, f, b, x, y).Some?
    ensures Shown(p, f, [a, b], x, y) == !Ink(p, f, b, x, y).value
  {
    assert [a, b][|[a, b]| - 1] == b;
  }

  /** The window ignores order: exchanging two overlapping rectangles changes the image unseen. */
  lemma OrderIgnored(f: Font)
    ensures var p := Panel(8, 1, 8, 1, 0);
            var black, white := Rect(0, 0, 2, 1, BLACK, UNSET), Rect(0, 0, 1, 1, 0, UNSET);
            && Dirty(p, [black, white], [white, black]) == Nothing
            && Shown(p, f, [black, white], 0, 0) != Shown(p, f, [white, black], 0, 0)
  {
    var p := Panel(8, 1, 8, 1, 0);
    var black, white := Rect(0, 0, 2, 1, BLACK, UNSET), Rect(0, 0, 1, 1, 0, UNSET);
    SameOperationsNoWindow(p, Nothing, [black, white], [white, black]);
    SameOperationsNoWindow(p, Nothing, [white, black], [black, white]);
    NoClear(black, white);
    NoClear(white, black);
    TwoPainted(p, f, black, white, 0, 0);
    TwoPainted(p, f, white, black, 0, 0);
  }

  lemma NoClear(a: Op, b: Op)
    requires !a.Clear? && !b.Clear?
    ensures LastClear([a, b]) == UNSET
  {
    assert [a, b][..1] == [a] && [a][..0] == [];
    assert LastClear([a]) == LastClear([]);
  }

  // ---------------------------------------------------------------- texts with a negative origin

  /** The pixel shows differently with the text added to the clear. */
  predicate Changed(p: Panel, f: Font, clear: Op, text: Op, x: nat, y: nat)
  {
    Shown(p, f, [clear], x, y) != Shown(p, f, [clear, text], x, y)
  }

  /** Adding a text to a clear of the other colour: the pixels that change are the inked ones. */
  lemma TextAdded(p: Panel, f: Font, clear: Op, text: Op, x: nat, y: nat)
    requires clear.Clear? && text.Text? && IsBlack(clear.color) != TextIsBlack(f.unsetIsBlack, text)
    ensures Changed(p, f, clear, text, x, y) <==> Ink(p, f, text, x, y).Some?
  {
    assert [clear, text][..1] == [clear] && [clear][..0] == [];
    assert Shown(p, f, [clear], x, y) == !IsBlack(clear.color);
    assert Shown(p, f, [clear, text], x, y) == Painted(Ink(p, f, text, x, y), Shown(p, f, [clear], x, y));
  }

  lemma TextAddedWindow(p: Panel, clear: Op, text: Op)
    requires p.Valid() && clear.Clear? && text.Text?
    ensures Dirty(p, [clear], [clear, text]) == AlignX(p, IncludeOp(p, Nothing, text))
  {
    var two := [clear, text];
    assert two[..1] == [clear] && [clear][..0] == [];
    assert LastClear(two) == LastClear([clear]);
    assert IncludeUnshared(p, Nothing, [clear], two) == Nothing;
    assert IncludeUnshared(p, Nothing, two[..1], [clear]) == Nothing;
    assert text !in [clear];
  }

  /**
   * The condition on texts is exact: adding one that does not wrap to a clear of the other colour changes no
   * pixel unseen, whatever the glyphs, exactly if its rectangle reaches its ink, in rows and whole bytes.
   */
  lemma TextConditionExact(p: Panel, unsetIsBlack: bool, clear: Op, text: Op)
    requires Placed(p) && clear.Clear? && text.Text? && (IsPainted(p, text) ==> Legible(p, text))
    requires IsBlack(clear.color) != TextIsBlack(unsetIsBlack, text)
    ensures Held(p, text) <==>
            forall g: Glyphs, x: nat, y: nat ::
              x < p.pw && y < p.ph && Changed(p, Font(g, unsetIsBlack), clear, text, x, y) ==>
                Dirty(p, [clear], [clear, text]).Has(x, y)
  {
    var v := Dirty(p, [clear], [clear, text]);
    TextAddedWindow(p, clear, text);
    forall f: Font, x: nat, y: nat
      ensures Ink(p, f, text, x, y).Some? <==> Ink(p, Font(f.glyphs, unsetIsBlack), text, x, y).Some?
      ensures Changed(p, Font(f.glyphs, unsetIsBlack), clear, text, x, y) <==> Ink(p, f, text, x, y).Some?
    {
      TextAdded(p, Font(f.glyphs, unsetIsBlack), clear, text, x, y);
    }
    if IsPainted(p, text) {
      InkBoxExact(p, text, v);
      HeldExact(p, text);
      UnderOneFlag(p, unsetIsBlack, text, v);
    } else {
      forall f: Font, x: nat, y: nat | x < p.pw && y < p.ph ensures Ink(p, f, text, x, y) == None {
        if Ink(p, f, text, x, y).Some? {
          InkInBox(p, f, text, x, y);
        }
      }
    }
  }

  /** Where a text inks does not depend on what it is painted in. */
  lemma UnderOneFlag(p: Panel, unsetIsBlack: bool, text: Op, v: Window)
    requires text.Text?
    ensures HoldsAllInk(p, text, v) <==>
            forall g: Glyphs, x: nat, y: nat ::
              x < p.pw && y < p.ph && Ink(p, Font(g, unsetIsBlack), text, x, y).Some? ==> v.Has(x, y)
  {
    if forall g: Glyphs, x: nat, y: nat ::
        x < p.pw && y < p.ph && Ink(p, Font(g, unsetIsBlack), text, x, y).Some? ==> v.Has(x, y)
    {
      forall f: Font, x: nat, y: nat | x < p.pw && y < p.ph && Ink(p, f, text, x, y).Some? ensures v.Has(x, y) {
        assert Ink(p, Font(f.glyphs, unsetIsBlack), text, x, y).Some?;
      }
    }
  }

  /** A text whose rectangle does not reach its ink changes some pixel that is not refreshed. */
  lemma NegativeOriginMissed(p: Panel, unsetIsBlack: bool, clear: Op, text: Op)
    returns (g: Glyphs, x: nat, y: nat)
    requires Placed(p) && clear.Clear? && text.Text? && (IsPainted(p, text) ==> Legible(p, text))
    requires IsBlack(clear.color) != TextIsBlack(unsetIsBlack, text)
    ensures !Held(p, text) ==>
              && x < p.pw && y < p.ph && Changed(p, Font(g, unsetIsBlack), clear, text, x, y)
              && !Dirty(p, [clear], [clear, text]).Has(x, y) && (text.x < 0 || text.y < 0)
  {
    g, x, y := AllSet().glyphs, 0, 0;
    TextConditionExact(p, unsetIsBlack, clear, text);
    if !Held(p, text) {
      g, x, y :| x < p.pw && y < p.ph && Changed(p, Font(g, unsetIsBlack), clear, text, x, y)
                 && !Dirty(p, [clear], [clear, text]).Has(x, y);
    }
    if text.x >= 0 && text.y >= 0 {
      StartingInsideReaches(p, text);
      ReachingTextHeld(p, text);
    }
  }

  lemma StartingInsideReaches(p: Panel, text: Op)
    requires text.Text? && text.x >= 0 && text.y >= 0
    ensures IsPainted(p, text) ==> Reaches(p, text)
  {
  }
}
