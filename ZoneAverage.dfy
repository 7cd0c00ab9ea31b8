/**
 * Averaging the filled buffer over each LED's zone, and the colour vectors
 * the two modules return: main/deskController/deskController.cpp sums each
 * zone row by row, cpp/screen_capture.cpp sums its top and bottom zones
 * column by column.
 */
module ZoneAverage {
  import opened Colors
  import opened Layout
  import opened Zones

  /** The four quantities a zone loop accumulates per cell. */
  datatype Channel = RedSum | GreenSum | BlueSum | CellCount

  /** What one cell adds to a channel: `(pixel >> 16) & 0xFF`, `(pixel >> 8) & 0xFF`, `pixel & 0xFF`, or 1. */
  function Contribution(k: Channel, pixel: int): nat
  {
    match k
    case RedSum => Red(pixel) as nat
    case GreenSum => Green(pixel) as nat
    case BlueSum => Blue(pixel) as nat
    case CellCount => 1
  }

  /** The cell (x, y) of a buffer `w` cells wide; the zones never reach past the buffer's end. */
  function At(s: seq<int>, w: nat, x: nat, y: nat): int
  {
    if Idx(x, y, w) < |s| then s[Idx(x, y, w)] else 0
  }

  /** Channel k summed over the cells [x0, x1) of row y. */
  function RowSum(s: seq<int>, w: nat, k: Channel, y: nat, x0: nat, x1: nat): nat
    decreases x1
  {
    if x1 <= x0 then 0 else RowSum(s, w, k, y, x0, x1 - 1) + Contribution(k, At(s, w, x1 - 1, y))
  }

  /** Channel k summed over [x0, x1) x [y0, y1), row by row. */
  function RectSum(s: seq<int>, w: nat, k: Channel, x0: nat, x1: nat, y0: nat, y1: nat): nat
    decreases y1
  {
    if y1 <= y0 then 0 else RectSum(s, w, k, x0, x1, y0, y1 - 1) + RowSum(s, w, k, y1 - 1, x0, x1)
  }

  /** Channel k summed over the cells [y0, y1) of column x. */
  function ColSum(s: seq<int>, w: nat, k: Channel, x: nat, y0: nat, y1: nat): nat
    decreases y1
  {
    if y1 <= y0 then 0 else ColSum(s, w, k, x, y0, y1 - 1) + Contribution(k, At(s, w, x, y1 - 1))
  }

  /** Channel k summed over [x0, x1) x [y0, y1), column by column. */
  function ColsSum(s: seq<int>, w: nat, k: Channel, x0: nat, x1: nat, y0: nat, y1: nat): nat
    decreases x1
  {
    if x1 <= x0 then 0 else ColsSum(s, w, k, x0, x1 - 1, y0, y1) + ColSum(s, w, k, x1 - 1, y0, y1)
  }

  /** Removing the last column of a rectangle summed row by row leaves that column's sum. */
  lemma {:induction false} RectLastColumn(s: seq<int>, w: nat, k: Channel, x0: nat, x1: nat, y0: nat, y1: nat)
    requires x0 < x1
    ensures RectSum(s, w, k, x0, x1, y0, y1) == RectSum(s, w, k, x0, x1 - 1, y0, y1) + ColSum(s, w, k, x1 - 1, y0, y1)
    decreases y1
  {
    if y0 < y1 {
      RectLastColumn(s, w, k, x0, x1, y0, y1 - 1);
    }
  }

  lemma {:induction false} NoColumns(s: seq<int>, w: nat, k: Channel, x0: nat, x1: nat, y0: nat, y1: nat)
    requires x1 <= x0
    ensures RectSum(s, w, k, x0, x1, y0, y1) == 0
    decreases y1
  {
    if y0 < y1 {
      NoColumns(s, w, k, x0, x1, y0, y1 - 1);
    }
  }

  /** Summing column by column gives the same sums as summing row by row. */
  lemma {:induction false} ColumnsEqualRows(s: seq<int>, w: nat, k: Channel, x0: nat, x1: nat, y0: nat, y1: nat)
    ensures ColsSum(s, w, k, x0, x1, y0, y1) == RectSum(s, w, k, x0, x1, y0, y1)
    decreases x1
  {
    if x1 <= x0 {
      NoColumns(s, w, k, x0, x1, y0, y1);
    } else {
      ColumnsEqualRows(s, w, k, x0, x1 - 1, y0, y1);
      RectLastColumn(s, w, k, x0, x1, y0, y1);
    }
  }

  /** No colour channel contributes more than 255 per cell. */
  lemma {:induction false} RowBelow(s: seq<int>, w: nat, k: Channel, y: nat, x0: nat, x1: nat)
    ensures RowSum(s, w, k, y, x0, x1) <= 255 * RowSum(s, w, CellCount, y, x0, x1)
    decreases x1
  {
    if x0 < x1 {
      RowBelow(s, w, k, y, x0, x1 - 1);
    }
  }

  lemma {:induction false} RectBelow(s: seq<int>, w: nat, k: Channel, x0: nat, x1: nat, y0: nat, y1: nat)
    ensures RectSum(s, w, k, x0, x1, y0, y1) <= 255 * RectSum(s, w, CellCount, x0, x1, y0, y1)
    decreases y1
  {
    if y0 < y1 {
      RectBelow(s, w, k, x0, x1, y0, y1 - 1);
      RowBelow(s, w, k, y1 - 1, x0, x1);
    }
  }

  /** Sums of a zone's three channels and its number of cells. */
  datatype Acc = Acc(r: nat, g: nat, b: nat, count: nat)
  {
    /** No channel sum exceeds 255 per cell. */
    predicate Bounded() { r <= 255 * count && g <= 255 * count && b <= 255 * count }
  }

  function Min(a: nat, b: nat): nat { if a < b then a else b }

  /** The zone clipped to the grid, as the loop conditions `x < endX && x < reducedWidth` clip it. */
  function ZoneSum(s: seq<int>, w: nat, h: nat, z: Zone): (a: Acc)
    ensures a.Bounded()
  {
    var x1, y1 := Min(z.endX, w), Min(z.endY, h);
    RectBelow(s, w, RedSum, z.startX, x1, z.startY, y1);
    RectBelow(s, w, GreenSum, z.startX, x1, z.startY, y1);
    RectBelow(s, w, BlueSum, z.startX, x1, z.startY, y1);
    Acc(RectSum(s, w, RedSum, z.startX, x1, z.startY, y1), RectSum(s, w, GreenSum, z.startX, x1, z.startY, y1),
        RectSum(s, w, BlueSum, z.startX, x1, z.startY, y1), RectSum(s, w, CellCount, z.startX, x1, z.startY, y1))
  }

  /** The mean of at most 255 per cell is at most 255. */
  lemma MeanBelow(sum: nat, count: nat)
    requires count > 0 && sum <= 255 * count
    ensures sum / count <= 255
  {
  }

  /** A zone's colour: the per-channel integer mean, or 0 for a zone with no cells. */
  function ZoneColor(a: Acc): (c: int)
    requires a.Bounded()
    ensures 0 <= c < 0x100_0000
  {
    if a.count == 0 then 0
    else
      MeanBelow(a.r, a.count);
      MeanBelow(a.g, a.count);
      MeanBelow(a.b, a.count);
      PackRange((a.r / a.count) as byte, (a.g / a.count) as byte, (a.b / a.count) as byte);
      Pack((a.r / a.count) as byte, (a.g / a.count) as byte, (a.b / a.count) as byte)
  }

  /** Each channel of a zone's colour is that channel's mean over the zone. */
  lemma ZoneColorChannels(a: Acc)
    requires a.Bounded() && a.count > 0
    ensures Red(ZoneColor(a)) as int == a.r / a.count
    ensures Green(ZoneColor(a)) as int == a.g / a.count
    ensures Blue(ZoneColor(a)) as int == a.b / a.count
  {
    MeanBelow(a.r, a.count);
    MeanBelow(a.g, a.count);
    MeanBelow(a.b, a.count);
    UnpackPack((a.r / a.count) as byte, (a.g / a.count) as byte, (a.b / a.count) as byte);
  }

  lemma AddMul(n: nat, m: nat, v: nat)
    ensures (n + m) * v == n * v + m * v
  {
  }

  lemma {:induction false} RowUniform(s: seq<int>, w: nat, k: Channel, y: nat, x0: nat, x1: nat, c: int)
    requires forall x: nat | x0 <= x < x1 :: At(s, w, x, y) == c
    ensures RowSum(s, w, k, y, x0, x1) == RowSum(s, w, CellCount, y, x0, x1) * Contribution(k, c)
    ensures RowSum(s, w, CellCount, y, x0, x1) == if x0 < x1 then x1 - x0 else 0
    decreases x1
  {
    if x0 < x1 {
      RowUniform(s, w, k, y, x0, x1 - 1, c);
      AddMul(RowSum(s, w, CellCount, y, x0, x1 - 1), 1, Contribution(k, c));
    }
  }

  lemma {:induction false} RectUniform(s: seq<int>, w: nat, k: Channel, x0: nat, x1: nat, y0: nat, y1: nat, c: int)
    requires forall x: nat, y: nat | x0 <= x < x1 && y0 <= y < y1 :: At(s, w, x, y) == c
    ensures RectSum(s, w, k, x0, x1, y0, y1) == RectSum(s, w, CellCount, x0, x1, y0, y1) * Contribution(k, c)
    ensures x0 < x1 && y0 < y1 ==> RectSum(s, w, CellCount, x0, x1, y0, y1) > 0
    decreases y1
  {
    if y0 < y1 {
      RectUniform(s, w, k, x0, x1, y0, y1 - 1, c);
      RowUniform(s, w, k, y1 - 1, x0, x1, c);
      AddMul(RectSum(s, w, CellCount, x0, x1, y0, y1 - 1), RowSum(s, w, CellCount, y1 - 1, x0, x1), Contribution(k, c));
    }
  }

  /** `n` copies of `v`, divided by `n`, give back `v`. */
  lemma CountTimesValue(n: nat, v: nat)
    requires n > 0
    ensures (n * v) / n == v
  {
    assert n * v == v * n + 0;
    DivOf(v, 0, n);
  }

  /** Over a non-empty uniform rectangle, channel k's mean is the colour's channel k. */
  lemma UniformMean(s: seq<int>, w: nat, k: Channel, x0: nat, x1: nat, y0: nat, y1: nat, c: int)
    requires x0 < x1 && y0 < y1
    requires forall x: nat, y: nat | x0 <= x < x1 && y0 <= y < y1 :: At(s, w, x, y) == c
    ensures RectSum(s, w, CellCount, x0, x1, y0, y1) > 0
    ensures RectSum(s, w, k, x0, x1, y0, y1) / RectSum(s, w, CellCount, x0, x1, y0, y1) == Contribution(k, c)
  {
    RectUniform(s, w, k, x0, x1, y0, y1, c);
    CountTimesValue(RectSum(s, w, CellCount, x0, x1, y0, y1), Contribution(k, c));
  }

  /** A zone whose cells all hold the 24-bit colour c drives its LED with c. */
  lemma UniformZone(s: seq<int>, w: nat, h: nat, z: Zone, c: int)
    requires 0 <= c < 0x100_0000
    requires z.startX < Min(z.endX, w) && z.startY < Min(z.endY, h)
    requires forall x: nat, y: nat | z.Covers(x, y) :: At(s, w, x, y) == c
    ensures ZoneColor(ZoneSum(s, w, h, z)) == c
  {
    var x1, y1 := Min(z.endX, w), Min(z.endY, h);
    UniformMean(s, w, RedSum, z.startX, x1, z.startY, y1, c);
    UniformMean(s, w, GreenSum, z.startX, x1, z.startY, y1, c);
    UniformMean(s, w, BlueSum, z.startX, x1, z.startY, y1, c);
    var a := ZoneSum(s, w, h, z);
    assert (a.r / a.count) as byte == Red(c);
    assert (a.g / a.count) as byte == Green(c);
    assert (a.b / a.count) as byte == Blue(c);
    PackUnpack(c);
  }

  // ---- The colour vectors ----

  /** The desk module's colour vector over the filled buffer `s`. */
  function DeskColors(s: seq<int>, g: Geometry, ledX: nat, ledY: nat): (colors: seq<int>)
    requires g.BandFits()
    ensures |colors| == LedCount(ledX, ledY)
  {
    seq(LedCount(ledX, ledY), k requires 0 <= k < LedCount(ledX, ledY) =>
      ZoneColor(ZoneSum(s, g.reducedWidth, g.reducedHeight, DeskZone(g, ledX, ledY, k))))
  }

  /** The capture module's colour vector over the filled buffer `s`. */
  function CaptureColors(s: seq<int>, g: Geometry, ledX: nat, ledY: nat): (colors: seq<int>)
    requires g.BandFits()
    ensures |colors| == LedCount(ledX, ledY)
  {
    seq(LedCount(ledX, ledY), k requires 0 <= k < LedCount(ledX, ledY) =>
      ZoneColor(ZoneSum(s, g.reducedWidth, g.reducedHeight, CaptureZone(g, ledX, ledY, k))))
  }

  /**
   * The two modules agree on every top and right LED; on the bottom and
   * left edges the capture module holds the desk's LEDs in reverse order
   * when the edge divides evenly.
   */
  lemma ModulesAgree(s: seq<int>, g: Geometry, ledX: nat, ledY: nat)
    requires g.BandFits() && ledX > 0 && ledY > 0
    ensures CaptureColors(s, g, ledX, ledY)[..ledX + ledY] == DeskColors(s, g, ledX, ledY)[..ledX + ledY]
    // bottom slot ledX + ledY + i against desk slot ledX + ledY + (ledX - 1 - i)
    ensures g.reducedWidth % ledX == 0 ==> forall k | ledX + ledY <= k < 2 * ledX + ledY ::
              CaptureColors(s, g, ledX, ledY)[k] == DeskColors(s, g, ledX, ledY)[3 * ledX + 2 * ledY - 1 - k]
    // left slot 2 ledX + ledY + i against desk slot 2 ledX + ledY + (ledY - 1 - i)
    ensures g.reducedHeight % ledY == 0 ==> forall k | 2 * ledX + ledY <= k < LedCount(ledX, ledY) ::
              CaptureColors(s, g, ledX, ledY)[k] == DeskColors(s, g, ledX, ledY)[4 * ledX + 3 * ledY - 1 - k]
  {
    if g.reducedWidth % ledX == 0 {
      BottomReversed(s, g, ledX, ledY);
    }
    if g.reducedHeight % ledY == 0 {
      LeftReversed(s, g, ledX, ledY);
    }
  }

  /** The bottom half of ModulesAgree: an evenly divided width reverses the bottom LEDs. */
  lemma BottomReversed(s: seq<int>, g: Geometry, ledX: nat, ledY: nat)
    requires g.BandFits() && ledX > 0 && ledY > 0 && g.reducedWidth % ledX == 0
    ensures forall k | ledX + ledY <= k < 2 * ledX + ledY ::
              CaptureColors(s, g, ledX, ledY)[k] == DeskColors(s, g, ledX, ledY)[3 * ledX + 2 * ledY - 1 - k]
  {
    forall k | ledX + ledY <= k < 2 * ledX + ledY
      ensures CaptureColors(s, g, ledX, ledY)[k] == DeskColors(s, g, ledX, ledY)[3 * ledX + 2 * ledY - 1 - k]
    {
      CaptureReversesBottomLeft(g, ledX, ledY, k - ledX - ledY);
    }
  }

  /** The left half of ModulesAgree: an evenly divided height reverses the left LEDs. */
  lemma LeftReversed(s: seq<int>, g: Geometry, ledX: nat, ledY: nat)
    requires g.BandFits() && ledX > 0 && ledY > 0 && g.reducedHeight % ledY == 0
    ensures forall k | 2 * ledX + ledY <= k < LedCount(ledX, ledY) ::
              CaptureColors(s, g, ledX, ledY)[k] == DeskColors(s, g, ledX, ledY)[4 * ledX + 3 * ledY - 1 - k]
  {
    forall k | 2 * ledX + ledY <= k < LedCount(ledX, ledY)
      ensures CaptureColors(s, g, ledX, ledY)[k] == DeskColors(s, g, ledX, ledY)[4 * ledX + 3 * ledY - 1 - k]
    {
      CaptureReversesBottomLeft(g, ledX, ledY, k - 2 * ledX - ledY);
    }
  }

  // ---- The loops ----

  /** The buffer holds the grid's `w * h` cells. */
  predicate Grid(s: seq<int>, w: nat, h: nat) { |s| == w * h }

  /** The desk module's zone loop: rows of the zone, cells of each row, both clipped to the grid. */
  method SumZoneByRows(buf: array<int>, w: nat, h: nat, z: Zone) returns (a: Acc)
    requires Grid(buf[..], w, h)
    ensures a == ZoneSum(buf[..], w, h, z)
  {
    var x1, y1 := Min(z.endX, w), Min(z.endY, h);
    var rSum: nat, gSum: nat, bSum: nat, count: nat := 0, 0, 0, 0;
    var y := z.startY;
    while y < z.endY && y < h
      invariant z.startY <= y && (y <= y1 || y == z.startY)
      invariant rSum == RectSum(buf[..], w, RedSum, z.startX, x1, z.startY, y)
      invariant gSum == RectSum(buf[..], w, GreenSum, z.startX, x1, z.startY, y)
      invariant bSum == RectSum(buf[..], w, BlueSum, z.startX, x1, z.startY, y)
      invariant count == RectSum(buf[..], w, CellCount, z.startX, x1, z.startY, y)
    {
      var row := SumRow(buf, w, h, y, z.startX, z.endX);
      rSum, gSum, bSum, count := rSum + row.r, gSum + row.g, bSum + row.b, count + row.count;
      y := y + 1;
    }
    a := Acc(rSum, gSum, bSum, count);
  }

  /** The inner loop of the desk module's zone loop: the cells [x0, endX) of row y, clipped to the grid. */
  method SumRow(buf: array<int>, w: nat, h: nat, y: nat, x0: nat, endX: nat) returns (row: Acc)
    requires Grid(buf[..], w, h) && y < h
    ensures row.r == RowSum(buf[..], w, RedSum, y, x0, Min(endX, w))
    ensures row.g == RowSum(buf[..], w, GreenSum, y, x0, Min(endX, w))
    ensures row.b == RowSum(buf[..], w, BlueSum, y, x0, Min(endX, w))
    ensures row.count == RowSum(buf[..], w, CellCount, y, x0, Min(endX, w))
  {
    var x1 := Min(endX, w);
    var rSum: nat, gSum: nat, bSum: nat, count: nat := 0, 0, 0, 0;
    var x := x0;
    while x < endX && x < w
      invariant x0 <= x && (x <= x1 || x == x0)
      invariant rSum == RowSum(buf[..], w, RedSum, y, x0, x)
      invariant gSum == RowSum(buf[..], w, GreenSum, y, x0, x)
      invariant bSum == RowSum(buf[..], w, BlueSum, y, x0, x)
      invariant count == RowSum(buf[..], w, CellCount, y, x0, x)
    {
      IdxInRange(x, y, w, h);
      var pixel := buf[y * w + x];
      assert pixel == At(buf[..], w, x, y);
      rSum := rSum + Red(pixel) as int;
      gSum := gSum + Green(pixel) as int;
      bSum := bSum + Blue(pixel) as int;
      count := count + 1;
      x := x + 1;
    }
    row := Acc(rSum, gSum, bSum, count);
  }

  /**
   * The capture module's top and bottom zone loops: columns of the zone
   * (clipped to the grid) outside, rows inside (not clipped, so the zone's
   * rows must lie in the grid).
   */
  method SumZoneByColumns(buf: array<int>, w: nat, h: nat, z: Zone) returns (a: Acc)
    requires Grid(buf[..], w, h) && z.endY <= h
    ensures a == ZoneSum(buf[..], w, h, z)
  {
    var x1 := Min(z.endX, w);
    var rSum: nat, gSum: nat, bSum: nat, count: nat := 0, 0, 0, 0;
    var x := z.startX;
    while x < z.endX && x < w
      invariant z.startX <= x && (x <= x1 || x == z.startX)
      invariant rSum == ColsSum(buf[..], w, RedSum, z.startX, x, z.startY, z.endY)
      invariant gSum == ColsSum(buf[..], w, GreenSum, z.startX, x, z.startY, z.endY)
      invariant bSum == ColsSum(buf[..], w, BlueSum, z.startX, x, z.startY, z.endY)
      invariant count == ColsSum(buf[..], w, CellCount, z.startX, x, z.startY, z.endY)
    {
      var y := z.startY;
      while y < z.endY
        invariant z.startY <= y && (y <= z.endY || y == z.startY)
        invariant rSum == ColsSum(buf[..], w, RedSum, z.startX, x, z.startY, z.endY) + ColSum(buf[..], w, RedSum, x, z.startY, y)
        invariant gSum == ColsSum(buf[..], w, GreenSum, z.startX, x, z.startY, z.endY) + ColSum(buf[..], w, GreenSum, x, z.startY, y)
        invariant bSum == ColsSum(buf[..], w, BlueSum, z.startX, x, z.startY, z.endY) + ColSum(buf[..], w, BlueSum, x, z.startY, y)
        invariant count == ColsSum(buf[..], w, CellCount, z.startX, x, z.startY, z.endY) + ColSum(buf[..], w, CellCount, x, z.startY, y)
      {
        IdxInRange(x, y, w, h);
        var pixel := buf[y * w + x];
        assert pixel == At(buf[..], w, x, y);
        rSum := rSum + Red(pixel) as int;
        gSum := gSum + Green(pixel) as int;
        bSum := bSum + Blue(pixel) as int;
        count := count + 1;
        y := y + 1;
      }
      x := x + 1;
    }
    a := Acc(rSum, gSum, bSum, count);
    ColumnsMatchZone(buf[..], w, h, z, x);
  }

  /** Where the column loop stops, its column sums are the zone's sums. */
  lemma ColumnsMatchZone(s: seq<int>, w: nat, h: nat, z: Zone, x: nat)
    requires z.endY <= h && (x == Min(z.endX, w) || (x == z.startX && Min(z.endX, w) < z.startX))
    ensures ZoneSum(s, w, h, z) == Acc(ColsSum(s, w, RedSum, z.startX, x, z.startY, z.endY),
                                       ColsSum(s, w, GreenSum, z.startX, x, z.startY, z.endY),
                                       ColsSum(s, w, BlueSum, z.startX, x, z.startY, z.endY),
                                       ColsSum(s, w, CellCount, z.startX, x, z.startY, z.endY))
  {
    var x1 := Min(z.endX, w);
    assert Min(z.endY, h) == z.endY;
    ColumnsEqualRows(s, w, RedSum, z.startX, x, z.startY, z.endY);
    ColumnsEqualRows(s, w, GreenSum, z.startX, x, z.startY, z.endY);
    ColumnsEqualRows(s, w, BlueSum, z.startX, x, z.startY, z.endY);
    ColumnsEqualRows(s, w, CellCount, z.startX, x, z.startY, z.endY);
    if x != x1 {
      NoColumns(s, w, RedSum, z.startX, x1, z.startY, z.endY);
      NoColumns(s, w, GreenSum, z.startX, x1, z.startY, z.endY);
      NoColumns(s, w, BlueSum, z.startX, x1, z.startY, z.endY);
      NoColumns(s, w, CellCount, z.startX, x1, z.startY, z.endY);
      NoColumns(s, w, RedSum, z.startX, x, z.startY, z.endY);
      NoColumns(s, w, GreenSum, z.startX, x, z.startY, z.endY);
      NoColumns(s, w, BlueSum, z.startX, x, z.startY, z.endY);
      NoColumns(s, w, CellCount, z.startX, x, z.startY, z.endY);
    }
  }

  /**
   * `calcZoneAverage`: for each zone i, the mean colour goes to slot
   * offset + i when the zone has cells; an empty zone leaves its slot as it
   * was.
   */
  method CalcZoneAverage(buf: array<int>, w: nat, h: nat, zones: seq<Zone>, ledColors: array<int>, offset: nat)
    requires Grid(buf[..], w, h) && offset + |zones| <= ledColors.Length && buf != ledColors
    modifies ledColors
    ensures forall i | 0 <= i < |zones| ::
      ledColors[offset + i] ==
        if ZoneSum(buf[..], w, h, zones[i]).count > 0 then ZoneColor(ZoneSum(buf[..], w, h, zones[i]))
        else old(ledColors[offset + i])
    ensures forall k | 0 <= k < ledColors.Length && !(offset <= k < offset + |zones|) :: ledColors[k] == old(ledColors[k])
  {
    var i := 0;
    while i < |zones|
      invariant 0 <= i <= |zones|
      invariant forall j | 0 <= j < i ::
        ledColors[offset + j] ==
          if ZoneSum(buf[..], w, h, zones[j]).count > 0 then ZoneColor(ZoneSum(buf[..], w, h, zones[j]))
          else old(ledColors[offset + j])
      invariant forall k | 0 <= k < ledColors.Length && !(offset <= k < offset + i) :: ledColors[k] == old(ledColors[k])
    {
      var a := SumZoneByRows(buf, w, h, zones[i]);
      if a.count > 0 {
        ledColors[offset + i] := ZoneColor(a);
      }
      i := i + 1;
    }
  }

  /** The slots [lo, hi) of `s` hold what they hold in `t`. */
  ghost predicate SlotsMatch(s: seq<int>, t: seq<int>, lo: nat, hi: nat)
    requires hi <= |s| && hi <= |t|
  {
    forall j | lo <= j < hi :: s[j] == t[j]
  }

  /** The slots from `lo` on are still zero. */
  ghost predicate ZeroFrom(s: seq<int>, lo: nat)
  {
    forall j | lo <= j < |s| :: s[j] == 0
  }

  lemma MatchExtend(s: seq<int>, t: seq<int>, p: nat, v: int)
    requires p < |s| == |t| && SlotsMatch(s, t, 0, p) && v == t[p]
    ensures SlotsMatch(s[p := v], t, 0, p + 1)
  {
  }

  /**
   * One `calcZoneAverage` call on a vector that matches the target below
   * `offset` and is zero from there on extends the match over its zones.
   */
  lemma ZoneBlock(s: seq<int>, w: nat, h: nat, zones: seq<Zone>, offset: nat,
                  before: seq<int>, after: seq<int>, target: seq<int>)
    requires |before| == |after| == |target| && offset + |zones| <= |after|
    requires SlotsMatch(before, target, 0, offset) && ZeroFrom(before, offset)
    requires forall i | 0 <= i < |zones| ::
      after[offset + i] ==
        if ZoneSum(s, w, h, zones[i]).count > 0 then ZoneColor(ZoneSum(s, w, h, zones[i])) else before[offset + i]
    requires forall k | 0 <= k < |after| && !(offset <= k < offset + |zones|) :: after[k] == before[k]
    requires forall i | 0 <= i < |zones| :: target[offset + i] == ZoneColor(ZoneSum(s, w, h, zones[i]))
    ensures SlotsMatch(after, target, 0, offset + |zones|) && ZeroFrom(after, offset + |zones|)
  {
    forall j | offset <= j < offset + |zones|
      ensures after[j] == target[j]
    {
      var i := j - offset;
      var a := ZoneSum(s, w, h, zones[i]);
      assert before[offset + i] == 0;
      assert target[offset + i] == ZoneColor(a);
      assert after[offset + i] == if a.count > 0 then ZoneColor(a) else 0;
    }
  }

  /** The desk colour vector, block by block, over the precomputed zones. */
  lemma DeskTargets(s: seq<int>, g: Geometry, ledX: nat, ledY: nat,
                    top: seq<Zone>, right: seq<Zone>, bottom: seq<Zone>, left: seq<Zone>)
    requires g.BandFits()
    requires |top| == |bottom| == ledX && |right| == |left| == ledY
    requires forall k | 0 <= k < LedCount(ledX, ledY) ::
      DeskZone(g, ledX, ledY, k) ==
        if k < ledX then top[k]
        else if k < ledX + ledY then right[k - ledX]
        else if k < 2 * ledX + ledY then bottom[k - ledX - ledY]
        else left[k - 2 * ledX - ledY]
    ensures forall i | 0 <= i < ledX ::
      DeskColors(s, g, ledX, ledY)[i] == ZoneColor(ZoneSum(s, g.reducedWidth, g.reducedHeight, top[i]))
    ensures forall i | 0 <= i < ledY ::
      DeskColors(s, g, ledX, ledY)[ledX + i] == ZoneColor(ZoneSum(s, g.reducedWidth, g.reducedHeight, right[i]))
    ensures forall i | 0 <= i < ledX ::
      DeskColors(s, g, ledX, ledY)[ledX + ledY + i] == ZoneColor(ZoneSum(s, g.reducedWidth, g.reducedHeight, bottom[i]))
    ensures forall i | 0 <= i < ledY ::
      DeskColors(s, g, ledX, ledY)[2 * ledX + ledY + i] == ZoneColor(ZoneSum(s, g.reducedWidth, g.reducedHeight, left[i]))
  {
    forall i | 0 <= i < ledY
      ensures DeskColors(s, g, ledX, ledY)[ledX + i] == ZoneColor(ZoneSum(s, g.reducedWidth, g.reducedHeight, right[i]))
    {
      assert DeskZone(g, ledX, ledY, ledX + i) == right[i];
    }
    forall i | 0 <= i < ledX
      ensures DeskColors(s, g, ledX, ledY)[ledX + ledY + i] == ZoneColor(ZoneSum(s, g.reducedWidth, g.reducedHeight, bottom[i]))
    {
      assert DeskZone(g, ledX, ledY, ledX + ledY + i) == bottom[i];
    }
    forall i | 0 <= i < ledY
      ensures DeskColors(s, g, ledX, ledY)[2 * ledX + ledY + i] == ZoneColor(ZoneSum(s, g.reducedWidth, g.reducedHeight, left[i]))
    {
      assert DeskZone(g, ledX, ledY, 2 * ledX + ledY + i) == left[i];
    }
  }

  /** One `calcZoneAverage` call, stated against the colour vector it helps build. */
  method AverageBlock(buf: array<int>, w: nat, h: nat, zones: seq<Zone>, ledColors: array<int>, offset: nat,
                      ghost target: seq<int>)
    requires Grid(buf[..], w, h) && buf != ledColors
    requires ledColors.Length == |target| && offset + |zones| <= |target|
    requires SlotsMatch(ledColors[..], target, 0, offset) && ZeroFrom(ledColors[..], offset)
    requires forall i | 0 <= i < |zones| :: target[offset + i] == ZoneColor(ZoneSum(buf[..], w, h, zones[i]))
    modifies ledColors
    ensures SlotsMatch(ledColors[..], target, 0, offset + |zones|) && ZeroFrom(ledColors[..], offset + |zones|)
  {
    ghost var before := ledColors[..];
    CalcZoneAverage(buf, w, h, zones, ledColors, offset);
    ZoneBlock(buf[..], w, h, zones, offset, before, ledColors[..], target);
  }

  /**
   * The desk module's edge pass: zones precomputed, a zeroed colour vector,
   * then `calcZoneAverage` on the top, right, bottom and left zones at their
   * offsets.
   */
  method DeskLedColors(buf: array<int>, g: Geometry, ledX: nat, ledY: nat) returns (colors: seq<int>)
    requires Grid(buf[..], g.reducedWidth, g.reducedHeight) && g.BandFits()
    ensures colors == DeskColors(buf[..], g, ledX, ledY)
  {
    var w, h := g.reducedWidth, g.reducedHeight;
    ghost var s := buf[..];
    ghost var target := DeskColors(s, g, ledX, ledY);
    var top, right, bottom, left := PrecomputeZones(g, ledX, ledY);
    DeskTargets(s, g, ledX, ledY, top, right, bottom, left);
    var ledColors := new int[LedCount(ledX, ledY)](_ => 0);
    AverageBlock(buf, w, h, top, ledColors, 0, target);
    AverageBlock(buf, w, h, right, ledColors, ledX, target);
    AverageBlock(buf, w, h, bottom, ledColors, ledX + ledY, target);
    AverageBlock(buf, w, h, left, ledColors, 2 * ledX + ledY, target);
    colors := ledColors[..];
  }

  /** Slot i of an edge of the capture vector averages that edge's i-th capture zone. */
  lemma CaptureSlot(s: seq<int>, g: Geometry, ledX: nat, ledY: nat, e: Edge, i: nat)
    requires g.BandFits() && i < EdgeLength(e, ledX, ledY)
    ensures EdgeOffset(e, ledX, ledY) + i < LedCount(ledX, ledY)
    ensures CaptureColors(s, g, ledX, ledY)[EdgeOffset(e, ledX, ledY) + i] ==
      ZoneColor(ZoneSum(s, g.reducedWidth, g.reducedHeight, match e
        case Top => TopZone(g, ledX, i)
        case Right => RightZone(g, ledY, i)
        case Bottom => CaptureBottomZone(g, ledX, i)
        case Left => CaptureLeftZone(g, ledY, i)))
  {
    SlotsAreLeds(e, i, ledX, ledY);
  }

  /** Slot p gets the zone's mean colour, or 0 for an empty zone. */
  method StoreAverage(ledColors: array<int>, p: nat, a: Acc, ghost target: seq<int>)
    requires a.Bounded() && p < ledColors.Length == |target|
    requires SlotsMatch(ledColors[..], target, 0, p) && target[p] == ZoneColor(a)
    modifies ledColors
    ensures SlotsMatch(ledColors[..], target, 0, p + 1)
  {
    if a.count > 0 {
      ledColors[p] := ZoneColor(a);
    } else {
      ledColors[p] := 0;
    }
  }

  /** The top loop of the capture module: LED i averages the top band's columns [Split(i), Split(i + 1)). */
  method CaptureTopEdge(buf: array<int>, g: Geometry, ledX: nat, ledY: nat, ledColors: array<int>, ghost target: seq<int>)
    requires Grid(buf[..], g.reducedWidth, g.reducedHeight) && g.BandFits() && buf != ledColors
    requires target == CaptureColors(buf[..], g, ledX, ledY) && ledColors.Length == |target|
    modifies ledColors
    ensures SlotsMatch(ledColors[..], target, 0, ledX)
  {
    var i := 0;
    while i < ledX
      invariant i <= ledX && SlotsMatch(ledColors[..], target, 0, i)
    {
      var a := SumZoneByColumns(buf, g.reducedWidth, g.reducedHeight, TopZone(g, ledX, i));
      CaptureSlot(buf[..], g, ledX, ledY, Top, i);
      StoreAverage(ledColors, i, a, target);
      i := i + 1;
    }
  }

  /** The right loop: LED i averages the right band's rows [Split(i), Split(i + 1)). */
  method CaptureRightEdge(buf: array<int>, g: Geometry, ledX: nat, ledY: nat, ledColors: array<int>, ghost target: seq<int>)
    requires Grid(buf[..], g.reducedWidth, g.reducedHeight) && g.BandFits() && buf != ledColors
    requires target == CaptureColors(buf[..], g, ledX, ledY) && ledColors.Length == |target|
    requires SlotsMatch(ledColors[..], target, 0, ledX)
    modifies ledColors
    ensures SlotsMatch(ledColors[..], target, 0, ledX + ledY)
  {
    var i := 0;
    while i < ledY
      invariant i <= ledY && SlotsMatch(ledColors[..], target, 0, ledX + i)
    {
      var a := SumZoneByRows(buf, g.reducedWidth, g.reducedHeight, RightZone(g, ledY, i));
      CaptureSlot(buf[..], g, ledX, ledY, Right, i);
      StoreAverage(ledColors, ledX + i, a, target);
      i := i + 1;
    }
  }

  /** The bottom loop: LED i averages the bottom band's columns [Split(i), Split(i + 1)), left to right. */
  method CaptureBottomEdge(buf: array<int>, g: Geometry, ledX: nat, ledY: nat, ledColors: array<int>, ghost target: seq<int>)
    requires Grid(buf[..], g.reducedWidth, g.reducedHeight) && g.BandFits() && buf != ledColors
    requires target == CaptureColors(buf[..], g, ledX, ledY) && ledColors.Length == |target|
    requires SlotsMatch(ledColors[..], target, 0, ledX + ledY)
    modifies ledColors
    ensures SlotsMatch(ledColors[..], target, 0, 2 * ledX + ledY)
  {
    var i := 0;
    while i < ledX
      invariant i <= ledX && SlotsMatch(ledColors[..], target, 0, ledX + ledY + i)
    {
      var a := SumZoneByColumns(buf, g.reducedWidth, g.reducedHeight, CaptureBottomZone(g, ledX, i));
      CaptureSlot(buf[..], g, ledX, ledY, Bottom, i);
      StoreAverage(ledColors, ledX + ledY + i, a, target);
      i := i + 1;
    }
  }

  /** The left loop: LED i averages the left band's rows [Split(i), Split(i + 1)), top to bottom. */
  method CaptureLeftEdge(buf: array<int>, g: Geometry, ledX: nat, ledY: nat, ledColors: array<int>, ghost target: seq<int>)
    requires Grid(buf[..], g.reducedWidth, g.reducedHeight) && g.BandFits() && buf != ledColors
    requires target == CaptureColors(buf[..], g, ledX, ledY) && ledColors.Length == |target|
    requires SlotsMatch(ledColors[..], target, 0, 2 * ledX + ledY)
    modifies ledColors
    ensures SlotsMatch(ledColors[..], target, 0, LedCount(ledX, ledY))
  {
    var i := 0;
    while i < ledY
      invariant i <= ledY && SlotsMatch(ledColors[..], target, 0, 2 * ledX + ledY + i)
    {
      var a := SumZoneByRows(buf, g.reducedWidth, g.reducedHeight, CaptureLeftZone(g, ledY, i));
      CaptureSlot(buf[..], g, ledX, ledY, Left, i);
      StoreAverage(ledColors, 2 * ledX + ledY + i, a, target);
      i := i + 1;
    }
  }

  /**
   * The capture module's edge pass: top and bottom zones summed column by
   * column, right and left zones row by row, an empty zone giving 0.
   */
  method CaptureLedColors(buf: array<int>, g: Geometry, ledX: nat, ledY: nat) returns (colors: seq<int>)
    requires Grid(buf[..], g.reducedWidth, g.reducedHeight) && g.BandFits()
    ensures colors == CaptureColors(buf[..], g, ledX, ledY)
  {
    ghost var target := CaptureColors(buf[..], g, ledX, ledY);
    var ledColors := new int[LedCount(ledX, ledY)];
    CaptureTopEdge(buf, g, ledX, ledY, ledColors, target);
    CaptureRightEdge(buf, g, ledX, ledY, ledColors, target);
    CaptureBottomEdge(buf, g, ledX, ledY, ledColors, target);
    CaptureLeftEdge(buf, g, ledX, ledY, ledColors, target);
    colors := ledColors[..];
  }
}
