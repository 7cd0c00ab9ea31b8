/**
 * The captured frame, the reduced pixel grid and the border band that is
 * sampled from it.
 */
module Layout {
  import opened Colors

  /** Linear offset of cell (x, y) in a row-major buffer `w` cells wide. */
  function Idx(x: int, y: int, w: int): int { y * w + x }

  lemma IdxInRange(x: int, y: int, w: int, h: int)
    requires 0 <= x < w && 0 <= y < h
    ensures 0 <= Idx(x, y, w) < w * h
  {
    assert y * w + w <= h * w by {
      assert (h - y - 1) * w >= 0;
    }
  }

  lemma AtLeastOnce(a: int, w: int)
    requires a >= 1 && w > 0
    ensures a * w >= w
  {
  }

  /** Cell (x, y) is recovered from its linear offset. */
  lemma IdxCoords(x: int, y: int, w: int)
    requires 0 <= x < w && 0 <= y
    ensures Idx(x, y, w) / w == y && Idx(x, y, w) % w == x
  {
    var i := Idx(x, y, w);
    var q, r := i / w, i % w;
    assert q * w + r == y * w + x;
    assert (q - y) * w == x - r;
    if q < y {
      AtLeastOnce(y - q, w);
    } else if q > y {
      AtLeastOnce(q - y, w);
    }
  }

  /** The remainder of `k * n + v` is `v` whenever `0 <= v < n`, for any integer `k`. */
  lemma ModUnique(x: int, n: int, k: int, v: int)
    requires 0 <= v < n && x == k * n + v
    ensures x % n == v
  {
    var q, r := x / n, x % n;
    assert (q - k) * n == v - r;
    if q < k {
      AtLeastOnce(k - q, n);
    } else if q > k {
      AtLeastOnce(q - k, n);
    }
  }

  /** Every offset below `w * h` is the offset of a cell of the grid. */
  lemma OffsetCell(i: int, w: int, h: int)
    requires 0 <= i < w * h && 0 < w
    ensures 0 <= i / w < h && 0 <= i % w < w && Idx(i % w, i / w, w) == i
  {
  }

  /**
   * A mapped BGRA staging surface: `width` x `height` pixels of four bytes
   * (blue, green, red, alpha), rows `rowPitch` bytes apart.
   */
  datatype Frame = Frame(data: seq<byte>, rowPitch: nat, width: nat, height: nat)

  predicate FrameFits(f: Frame)
  {
    4 * f.width <= f.rowPitch && f.height * f.rowPitch <= |f.data|
  }

  /**
   * The capture geometry of one screen: its native size, the reduced grid and
   * the border thickness `keep` (keepPixels, in reduced cells).
   */
  datatype Geometry = Geometry(width: nat, height: nat, reducedWidth: nat, reducedHeight: nat, keep: nat)
  {
    function LeftBound(): nat { keep }
    function RightBound(): int { reducedWidth - keep }
    function TopBound(): nat { keep }
    function BottomBound(): int { reducedHeight - keep }
    function Cells(): nat { reducedWidth * reducedHeight }

    /** The band is no thicker than the grid, so the unsigned bounds do not wrap. */
    predicate BandFits() { keep <= reducedWidth && keep <= reducedHeight }
  }

  /**
   * What the fill relies on: the band fits the grid, a non-empty reduced axis comes from a
   * non-empty native axis, and the frame is the screen's.
   */
  predicate ValidCapture(f: Frame, g: Geometry)
  {
    && g.BandFits()
    && (g.reducedWidth > 0 ==> g.width > 0)
    && (g.reducedHeight > 0 ==> g.height > 0)
    && FrameFits(f) && f.width == g.width && f.height == g.height
  }

  /** The keep predicate: the cell lies in one of the four border bands. */
  predicate InBand(g: Geometry, x: int, y: int)
  {
    x < g.LeftBound() || x >= g.RightBound() || y < g.TopBound() || y >= g.BottomBound()
  }

  /** `static_cast<UINT>(x * xScale)` with `xScale = width / reducedWidth`, as an exact floor. */
  function SrcX(g: Geometry, x: nat): nat
    requires g.reducedWidth > 0
  {
    x * g.width / g.reducedWidth
  }

  function SrcY(g: Geometry, y: nat): nat
    requires g.reducedHeight > 0
  {
    y * g.height / g.reducedHeight
  }

  lemma ScaledBelow(x: nat, n: nat, r: nat)
    requires x < r
    ensures x * n / r <= n && (n > 0 ==> x * n / r < n)
  {
  }

  lemma PixelOffsetInRange(f: Frame, sx: nat, sy: nat)
    requires FrameFits(f) && sx < f.width && sy < f.height
    ensures sy * f.rowPitch + sx * 4 + 3 < |f.data|
  {
    assert sy * f.rowPitch + f.rowPitch <= f.height * f.rowPitch by {
      assert (f.height - sy - 1) * f.rowPitch >= 0;
    }
  }

  /**
   * The packed `(r << 16) | (g << 8) | b` colour of the native pixel that
   * reduced cell (x, y) samples (nearest neighbour, BGRA byte order).
   */
  function Sample(f: Frame, g: Geometry, x: nat, y: nat): int
    requires ValidCapture(f, g) && x < g.reducedWidth && y < g.reducedHeight
  {
    var sx, sy := SrcX(g, x), SrcY(g, y);
    ScaledBelow(x, g.width, g.reducedWidth);
    ScaledBelow(y, g.height, g.reducedHeight);
    PixelOffsetInRange(f, sx, sy);
    var i := sy * f.rowPitch + sx * 4;
    Pack(f.data[i + 2], f.data[i + 1], f.data[i])
  }

  /** What the reduced buffer holds at (x, y) once filled: the sample in the band, 0 inside. */
  function BorderCell(f: Frame, g: Geometry, x: nat, y: nat): int
    requires ValidCapture(f, g) && x < g.reducedWidth && y < g.reducedHeight
  {
    if InBand(g, x, y) then Sample(f, g, x, y) else 0
  }

  /** The same, addressed by linear offset. */
  function CellAt(f: Frame, g: Geometry, i: int): int
    requires ValidCapture(f, g) && 0 <= i < g.Cells()
  {
    OffsetCell(i, g.reducedWidth, g.reducedHeight);
    BorderCell(f, g, i % g.reducedWidth, i / g.reducedWidth)
  }

  /** The whole filled buffer. */
  function FilledBuffer(f: Frame, g: Geometry): (buf: seq<int>)
    requires ValidCapture(f, g)
    ensures |buf| == g.Cells()
  {
    seq(g.Cells(), i requires 0 <= i < g.Cells() => CellAt(f, g, i))
  }

  /** `s` holds, at every cell of the rows [y0, y1), what the fill writes there. */
  ghost predicate RowsFilled(f: Frame, g: Geometry, s: seq<int>, y0: nat, y1: nat)
    requires ValidCapture(f, g) && y1 <= g.reducedHeight
  {
    forall x: nat, y: nat | x < g.reducedWidth && y0 <= y < y1 ::
      0 <= Idx(x, y, g.reducedWidth) < |s| && s[Idx(x, y, g.reducedWidth)] == BorderCell(f, g, x, y)
  }

  /** `s` holds, at every cell of the grid, what the fill writes there. */
  ghost predicate Filled(f: Frame, g: Geometry, s: seq<int>)
    requires ValidCapture(f, g)
  {
    |s| == g.Cells() && RowsFilled(f, g, s, 0, g.reducedHeight)
  }

  /** The cells determine the buffer: a filled buffer is FilledBuffer. */
  lemma FilledIsFilledBuffer(f: Frame, g: Geometry, s: seq<int>)
    requires ValidCapture(f, g) && Filled(f, g, s)
    ensures s == FilledBuffer(f, g)
  {
    var w := g.reducedWidth;
    forall i | 0 <= i < |s|
      ensures s[i] == FilledBuffer(f, g)[i]
    {
      OffsetCell(i, w, g.reducedHeight);
      var x: nat, y: nat := i % w, i / w;
      assert s[Idx(x, y, w)] == BorderCell(f, g, x, y);
    }
  }

  /**
   * The filled buffer is black inside the band, holds the sampled colour in
   * the band, and every cell is a 24-bit colour.
   */
  lemma FilledBufferCells(f: Frame, g: Geometry, x: nat, y: nat)
    requires ValidCapture(f, g) && x < g.reducedWidth && y < g.reducedHeight
    ensures 0 <= Idx(x, y, g.reducedWidth) < g.Cells()
    ensures FilledBuffer(f, g)[Idx(x, y, g.reducedWidth)] ==
              if InBand(g, x, y) then Sample(f, g, x, y) else 0
    ensures 0 <= FilledBuffer(f, g)[Idx(x, y, g.reducedWidth)] < 0x100_0000
  {
    IdxInRange(x, y, g.reducedWidth, g.reducedHeight);
    IdxCoords(x, y, g.reducedWidth);
    var s := Sample(f, g, x, y);
    var i := Idx(x, y, g.reducedWidth);
    var sx, sy := SrcX(g, x), SrcY(g, y);
    ScaledBelow(x, g.width, g.reducedWidth);
    ScaledBelow(y, g.height, g.reducedHeight);
    PixelOffsetInRange(f, sx, sy);
    var j := sy * f.rowPitch + sx * 4;
    PackRange(f.data[j + 2], f.data[j + 1], f.data[j]);
  }
}
