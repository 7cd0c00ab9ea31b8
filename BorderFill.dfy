/**
 * The two ways the reduced pixel buffer is filled from a captured frame:
 * the single keep-predicate pass of cpp/screen_capture.cpp and the
 * zero-then-bands pass of main/deskController/deskController.cpp. Both
 * leave the buffer equal to FilledBuffer: the sampled colour on the border
 * band and 0 inside it.
 */
module BorderFill {
  import opened Colors
  import opened Layout

  /** Every cell of an earlier row lies before the start of row y. */
  lemma RowBefore(x: int, yy: int, y: int, w: int)
    requires 0 <= x < w && 0 <= yy < y
    ensures 0 <= Idx(x, yy, w) < y * w
  {
    assert (y - yy - 1) * w >= 0;
  }

  /** Every cell of row y or a later row lies at or after the start of row b <= y. */
  lemma RowAfter(x: int, y: int, b: int, w: int)
    requires 0 <= x < w && 0 <= b <= y
    ensures b * w <= Idx(x, y, w)
  {
    assert (y - b) * w >= 0;
  }

  lemma RowsBelow(y: nat, h: nat, w: nat)
    requires y <= h
    ensures y * w <= h * w
  {
    assert (h - y) * w >= 0;
  }

  /** `t` equals `s` at every index outside [lo, hi). */
  ghost predicate AgreeOutside(t: seq<int>, s: seq<int>, lo: int, hi: int) {
    |t| == |s| && forall i | 0 <= i < |s| && !(lo <= i < hi) :: t[i] == s[i]
  }

  /** `s` is 0 at every index of [lo, hi). */
  ghost predicate ZeroOn(s: seq<int>, lo: int, hi: int) {
    forall i | lo <= i < hi && 0 <= i < |s| :: s[i] == 0
  }

  /** `s` holds what the fill writes at the cells [x0, x1) of row y. */
  ghost predicate SpanFilled(f: Frame, g: Geometry, s: seq<int>, y: nat, x0: nat, x1: nat)
    requires ValidCapture(f, g) && y < g.reducedHeight && x1 <= g.reducedWidth
  {
    forall x: nat | x0 <= x < x1 ::
      0 <= Idx(x, y, g.reducedWidth) < |s| && s[Idx(x, y, g.reducedWidth)] == BorderCell(f, g, x, y)
  }

  lemma AgreeWiden(t: seq<int>, s: seq<int>, o: seq<int>, lo: int, mid: int, hi: int)
    requires AgreeOutside(s, o, lo, mid) && AgreeOutside(t, s, mid, hi) && lo <= mid <= hi
    ensures AgreeOutside(t, o, lo, hi)
  {
  }

  /** Rows already filled survive a change confined to [lo, hi) when they lie wholly outside it. */
  lemma RowsKept(f: Frame, g: Geometry, t: seq<int>, s: seq<int>, y0: nat, y1: nat, lo: int, hi: int)
    requires ValidCapture(f, g) && y0 <= y1 <= g.reducedHeight
    requires RowsFilled(f, g, s, y0, y1) && AgreeOutside(t, s, lo, hi)
    requires y1 * g.reducedWidth <= lo || hi <= y0 * g.reducedWidth
    ensures RowsFilled(f, g, t, y0, y1)
  {
    var w := g.reducedWidth;
    forall x: nat, y: nat | x < w && y0 <= y < y1
      ensures 0 <= Idx(x, y, w) < |t| && t[Idx(x, y, w)] == BorderCell(f, g, x, y)
    {
      RowBefore(x, y, y1, w);
      RowAfter(x, y, y0, w);
    }
  }

  /** A freshly filled row y extends the filled rows [y0, y). */
  lemma RowAdded(f: Frame, g: Geometry, t: seq<int>, s: seq<int>, y0: nat, y: nat)
    requires ValidCapture(f, g) && y0 <= y < g.reducedHeight
    requires RowsFilled(f, g, s, y0, y) && SpanFilled(f, g, t, y, 0, g.reducedWidth)
    requires AgreeOutside(t, s, y * g.reducedWidth, y * g.reducedWidth + g.reducedWidth)
    ensures RowsFilled(f, g, t, y0, y + 1)
  {
    var w := g.reducedWidth;
    forall x: nat, yy: nat | x < w && y0 <= yy < y + 1
      ensures 0 <= Idx(x, yy, w) < |t| && t[Idx(x, yy, w)] == BorderCell(f, g, x, yy)
    {
      if yy < y {
        RowBefore(x, yy, y, w);
      }
    }
  }

  /**
   * One iteration of a row loop: row y freshly filled, the change confined to
   * it, extends both the filled rows and the region changed since `o`.
   */
  lemma RowStep(f: Frame, g: Geometry, t: seq<int>, s: seq<int>, o: seq<int>, y0: nat, y: nat, lo: int)
    requires ValidCapture(f, g) && y0 <= y < g.reducedHeight && lo <= y * g.reducedWidth
    requires RowsFilled(f, g, s, y0, y) && AgreeOutside(s, o, lo, y * g.reducedWidth)
    requires SpanFilled(f, g, t, y, 0, g.reducedWidth)
    requires AgreeOutside(t, s, y * g.reducedWidth, y * g.reducedWidth + g.reducedWidth)
    ensures RowsFilled(f, g, t, y0, y + 1) && AgreeOutside(t, o, lo, y * g.reducedWidth + g.reducedWidth)
    ensures (y + 1) * g.reducedWidth == y * g.reducedWidth + g.reducedWidth
  {
    RowAdded(f, g, t, s, y0, y);
    AgreeWiden(t, s, o, lo, y * g.reducedWidth, y * g.reducedWidth + g.reducedWidth);
  }

  lemma RowsJoin(f: Frame, g: Geometry, s: seq<int>, y0: nat, y1: nat, y2: nat)
    requires ValidCapture(f, g) && y0 <= y1 <= y2 <= g.reducedHeight
    requires RowsFilled(f, g, s, y0, y1) && RowsFilled(f, g, s, y1, y2)
    ensures RowsFilled(f, g, s, y0, y2)
  {
  }

  /** The keep-predicate fill of cpp/screen_capture.cpp: every cell of the grid, row by row. */
  method FillKeep(f: Frame, g: Geometry, buf: array<int>)
    requires ValidCapture(f, g) && buf.Length == g.Cells()
    modifies buf
    ensures buf[..] == FilledBuffer(f, g)
  {
    var w, h := g.reducedWidth, g.reducedHeight;
    var y := 0;
    while y < h
      invariant 0 <= y <= h && RowsFilled(f, g, buf[..], 0, y)
    {
      ghost var before := buf[..];
      var x := 0;
      while x < w
        invariant 0 <= x <= w && SpanFilled(f, g, buf[..], y, 0, x)
        invariant AgreeOutside(buf[..], before, y * w, y * w + w)
      {
        var pixelIndex := Idx(x, y, w);
        IdxInRange(x, y, w, h);
        var keep := x < g.LeftBound() || x >= g.RightBound() || y < g.TopBound() || y >= g.BottomBound();
        if keep {
          buf[pixelIndex] := Sample(f, g, x, y);
        } else {
          buf[pixelIndex] := 0;
        }
        x := x + 1;
      }
      RowAdded(f, g, buf[..], before, 0, y);
      y := y + 1;
    }
    FilledIsFilledBuffer(f, g, buf[..]);
  }

  /** Writes the sampled colour into cells [x0, x1) of row y, as each band loop of the desk fill does. */
  method FillRowSpan(f: Frame, g: Geometry, buf: array<int>, y: nat, x0: nat, x1: nat)
    requires ValidCapture(f, g) && buf.Length == g.Cells()
    requires y < g.reducedHeight && x0 <= x1 <= g.reducedWidth
    requires forall x | x0 <= x < x1 :: InBand(g, x, y)
    modifies buf
    ensures SpanFilled(f, g, buf[..], y, x0, x1)
    ensures AgreeOutside(buf[..], old(buf[..]), y * g.reducedWidth + x0, y * g.reducedWidth + x1)
  {
    var w := g.reducedWidth;
    var x := x0;
    while x < x1
      invariant x0 <= x <= x1 && SpanFilled(f, g, buf[..], y, x0, x)
      invariant AgreeOutside(buf[..], old(buf[..]), y * w + x0, y * w + x)
    {
      IdxInRange(x, y, w, g.reducedHeight);
      buf[Idx(x, y, w)] := Sample(f, g, x, y);
      x := x + 1;
    }
  }

  /** Writes the sampled colour into every cell of the band rows [y0, y1): the top and bottom band loops. */
  method FillRows(f: Frame, g: Geometry, buf: array<int>, y0: nat, y1: nat)
    requires ValidCapture(f, g) && buf.Length == g.Cells()
    requires y0 <= y1 <= g.reducedHeight
    requires y1 <= g.TopBound() || y0 >= g.BottomBound()
    modifies buf
    ensures RowsFilled(f, g, buf[..], y0, y1)
    ensures AgreeOutside(buf[..], old(buf[..]), y0 * g.reducedWidth, y1 * g.reducedWidth)
  {
    var w := g.reducedWidth;
    var y := y0;
    ghost var rowStart := y0 * w;
    while y < y1
      invariant y0 <= y <= y1 && rowStart == y * w && y0 * w <= rowStart
      invariant RowsFilled(f, g, buf[..], y0, y)
      invariant AgreeOutside(buf[..], old(buf[..]), y0 * w, rowStart)
    {
      ghost var before := buf[..];
      FillRowSpan(f, g, buf, y, 0, w);
      RowStep(f, g, buf[..], before, old(buf[..]), y0, y, y0 * w);
      y, rowStart := y + 1, rowStart + w;
    }
  }

  /**
   * The left and right band loops for one row y between the top and bottom
   * bands; the row was zeroed beforehand, so what the loops skip is already
   * the black interior.
   */
  method FillSideRow(f: Frame, g: Geometry, buf: array<int>, y: nat)
    requires ValidCapture(f, g) && buf.Length == g.Cells()
    requires g.TopBound() <= y < g.BottomBound()
    requires ZeroOn(buf[..], y * g.reducedWidth, y * g.reducedWidth + g.reducedWidth)
    modifies buf
    ensures SpanFilled(f, g, buf[..], y, 0, g.reducedWidth)
    ensures AgreeOutside(buf[..], old(buf[..]), y * g.reducedWidth, y * g.reducedWidth + g.reducedWidth)
  {
    var w := g.reducedWidth;
    var left, right := g.LeftBound(), g.RightBound();
    ghost var rowStart := y * w;
    RowsBelow(y + 1, g.reducedHeight, w);
    assert rowStart + w <= buf.Length;
    FillRowSpan(f, g, buf, y, 0, left);
    ghost var mid := buf[..];
    FillRowSpan(f, g, buf, y, right, w);
    forall x: nat | x < w
      ensures 0 <= Idx(x, y, w) < buf.Length && buf[Idx(x, y, w)] == BorderCell(f, g, x, y)
    {
      var i := rowStart + x;
      assert Idx(x, y, w) == i;
      if left <= x < right {
        assert mid[i] == old(buf[i]) == 0;
        assert buf[i] == mid[i];
      }
    }
  }

  /** The side loops over every row [top, bottom) between the top and bottom bands. */
  method FillSides(f: Frame, g: Geometry, buf: array<int>)
    requires ValidCapture(f, g) && buf.Length == g.Cells()
    requires ZeroOn(buf[..], g.TopBound() * g.reducedWidth, g.BottomBound() * g.reducedWidth)
    modifies buf
    ensures g.TopBound() <= g.BottomBound() ==> RowsFilled(f, g, buf[..], g.TopBound(), g.BottomBound())
    ensures AgreeOutside(buf[..], old(buf[..]), g.TopBound() * g.reducedWidth, g.BottomBound() * g.reducedWidth)
  {
    var w := g.reducedWidth;
    var top, bottom := g.TopBound(), g.BottomBound();
    var y := top;
    ghost var rowStart := top * w;
    while y < bottom
      invariant top <= y && (y <= bottom || y == top) && rowStart == y * w && top * w <= rowStart
      invariant y <= bottom ==> RowsFilled(f, g, buf[..], top, y)
      invariant AgreeOutside(buf[..], old(buf[..]), top * w, rowStart)
    {
      RowsBelow(y + 1, bottom, w);
      assert rowStart + w <= bottom * w;
      ghost var before := buf[..];
      FillSideRow(f, g, buf, y);
      RowStep(f, g, buf[..], before, old(buf[..]), top, y, top * w);
      y, rowStart := y + 1, rowStart + w;
    }
  }

  /**
   * The fill of main/deskController/deskController.cpp: zero the whole
   * buffer, then write the top rows, the bottom rows, and the left and right
   * columns of the rows in between.
   */
  method FillBands(f: Frame, g: Geometry, buf: array<int>)
    requires ValidCapture(f, g) && buf.Length == g.Cells()
    modifies buf
    ensures buf[..] == FilledBuffer(f, g)
  {
    var w, h := g.reducedWidth, g.reducedHeight;
    var top, bottom := g.TopBound(), g.BottomBound();
    forall i | 0 <= i < buf.Length {
      buf[i] := 0;
    }
    ghost var zeroed := buf[..];
    FillRows(f, g, buf, 0, top);
    ghost var afterTop := buf[..];
    FillRows(f, g, buf, bottom, h);
    ghost var afterBottom := buf[..];
    FillSides(f, g, buf);
    if top <= bottom {
      RowsBelow(top, bottom, w);
      RowsKept(f, g, afterBottom, afterTop, 0, top, bottom * w, h * w);
      RowsKept(f, g, buf[..], afterBottom, 0, top, top * w, bottom * w);
      RowsKept(f, g, buf[..], afterBottom, bottom, h, top * w, bottom * w);
      RowsJoin(f, g, buf[..], 0, top, bottom);
      RowsJoin(f, g, buf[..], 0, bottom, h);
    } else {
      // The top and bottom bands overlap: every row is written by one of them.
      RowsBelow(bottom, top, w);
      RowsKept(f, g, afterBottom, afterTop, 0, bottom, bottom * w, h * w);
      RowsKept(f, g, buf[..], afterBottom, 0, bottom, top * w, bottom * w);
      RowsKept(f, g, buf[..], afterBottom, bottom, h, top * w, bottom * w);
      RowsJoin(f, g, buf[..], 0, bottom, h);
    }
    FilledIsFilledBuffer(f, g, buf[..]);
  }
}
