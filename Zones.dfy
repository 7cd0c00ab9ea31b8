/**
 * The LED zones: each LED of the strip averages one rectangle of the reduced
 * grid. An edge of `n` LEDs splits the grid's `size` cells at the points
 * `Split(i) = floor(i * size / n)`, the exact form of
 * `static_cast<UINT>(i * (size / (float)n))`.
 *
 * The LED ring is numbered clockwise from the top-left corner: the top edge
 * (ledX LEDs), the right edge (ledY), the bottom edge (ledX), the left edge
 * (ledY).
 */
module Zones {
  import opened Layout

  /** The rectangle [startX, endX) x [startY, endY) of reduced cells. */
  datatype Zone = Zone(startX: nat, endX: nat, startY: nat, endY: nat)
  {
    predicate Covers(x: int, y: int) { startX <= x < endX && startY <= y < endY }
  }

  /** The i-th split point of `size` cells among `n` LEDs. */
  function Split(i: nat, size: nat, n: nat): nat
    requires n > 0
  {
    i * size / n
  }

  /** Division by `n` of `q * n + r` with `0 <= r < n` is `q`. */
  lemma DivOf(q: nat, r: nat, n: nat)
    requires r < n
    ensures (q * n + r) / n == q
  {
    IdxCoords(r, q, n);
  }

  /** Adding less than `n` raises a quotient by at most one. */
  lemma DivAddSmall(a: nat, r: nat, n: nat)
    requires r < n
    ensures a / n <= (a + r) / n <= a / n + 1
  {
    var qa, ra := a / n, a % n;
    assert a == qa * n + ra;
    if ra + r < n {
      assert a + r == qa * n + (ra + r);
      DivOf(qa, ra + r, n);
    } else {
      assert a + r == (qa + 1) * n + (ra + r - n);
      DivOf(qa + 1, ra + r - n, n);
    }
  }

  lemma SplitEnds(size: nat, n: nat)
    requires n > 0
    ensures Split(0, size, n) == 0 && Split(n, size, n) == size
  {
    DivOf(size, 0, n);
    assert n * size == size * n + 0;
  }

  /** Split(i) is i whole shares plus the share of the i remainders. */
  lemma SplitParts(i: nat, size: nat, n: nat)
    requires n > 0
    ensures Split(i, size, n) == i * (size / n) + i * (size % n) / n
  {
    var q, r := size / n, size % n;
    var a := i * r;
    assert size == q * n + r;
    assert i * size == (i * q) * n + a;
    assert a == (a / n) * n + a % n;
    var m, rest := i * q + a / n, a % n;
    assert i * size == m * n + rest;
    DivOf(m, rest, n);
    assert (i * size) / n == (m * n + rest) / n;
  }

  /** Consecutive split points are `size / n` or `size / n + 1` apart: the zones of an edge have near-equal widths. */
  lemma SplitStep(i: nat, size: nat, n: nat)
    requires n > 0
    ensures size / n <= Split(i + 1, size, n) - Split(i, size, n) <= size / n + 1
  {
    var q, r := size / n, size % n;
    SplitParts(i, size, n);
    SplitParts(i + 1, size, n);
    assert (i + 1) * r == i * r + r;
    assert (i + 1) * q == i * q + q;
    DivAddSmall(i * r, r, n);
  }

  /** Integer division by a positive `n` is monotone. */
  lemma DivMono(a: nat, b: nat, n: nat)
    requires n > 0 && a <= b
    ensures a / n <= b / n
  {
    var qa, qb := a / n, b / n;
    if qa > qb {
      AtLeastOnce(qa - qb, n);
    }
  }

  /** Split points grow with the LED index. */
  lemma SplitMonotone(i: nat, j: nat, size: nat, n: nat)
    requires n > 0 && i <= j
    ensures Split(i, size, n) <= Split(j, size, n)
  {
    assert i * size <= j * size by {
      assert j * size - i * size == (j - i) * size;
    }
    DivMono(i * size, j * size, n);
  }

  /** No split point of an edge passes the edge's end. */
  lemma SplitBelow(i: nat, size: nat, n: nat)
    requires n > 0 && i <= n
    ensures Split(i, size, n) <= size
  {
    SplitMonotone(i, n, size, n);
    SplitEnds(size, n);
  }

  lemma {:induction false} SplitFindFrom(x: nat, size: nat, n: nat, k: nat) returns (i: nat)
    requires n > 0 && x < size && k < n && Split(k, size, n) <= x
    ensures k <= i < n && Split(i, size, n) <= x < Split(i + 1, size, n)
    decreases n - k
  {
    if x < Split(k + 1, size, n) {
      i := k;
    } else {
      SplitEnds(size, n);
      i := SplitFindFrom(x, size, n, k + 1);
    }
  }

  /**
   * The zones of an edge tile it: every cell x < size lies in the zone
   * [Split(i), Split(i + 1)) of exactly one LED i.
   */
  lemma SplitFind(x: nat, size: nat, n: nat) returns (i: nat)
    requires n > 0 && x < size
    ensures i < n && Split(i, size, n) <= x < Split(i + 1, size, n)
    ensures forall j: nat | j < n && Split(j, size, n) <= x < Split(j + 1, size, n) :: j == i
  {
    SplitEnds(size, n);
    i := SplitFindFrom(x, size, n, 0);
    forall j: nat | j < n && Split(j, size, n) <= x < Split(j + 1, size, n)
      ensures j == i
    {
      if j < i {
        SplitMonotone(j + 1, i, size, n);
      } else if i < j {
        SplitMonotone(i + 1, j, size, n);
      }
    }
  }

  // ---- The zones of main/deskController/deskController.cpp ----

  /** Top LED i, left to right. */
  function TopZone(g: Geometry, ledX: nat, i: nat): Zone
    requires ledX > 0
  {
    Zone(Split(i, g.reducedWidth, ledX), Split(i + 1, g.reducedWidth, ledX), 0, g.TopBound())
  }

  /** Right LED i, top to bottom. */
  function RightZone(g: Geometry, ledY: nat, i: nat): Zone
    requires ledY > 0 && g.BandFits()
  {
    Zone(g.RightBound(), g.reducedWidth, Split(i, g.reducedHeight, ledY), Split(i + 1, g.reducedHeight, ledY))
  }

  /** Bottom LED i, right to left. */
  function BottomZone(g: Geometry, ledX: nat, i: nat): Zone
    requires ledX > 0 && i < ledX && g.BandFits()
  {
    SplitBelow(i + 1, g.reducedWidth, ledX);
    SplitMonotone(i, i + 1, g.reducedWidth, ledX);
    Zone(g.reducedWidth - Split(i + 1, g.reducedWidth, ledX), g.reducedWidth - Split(i, g.reducedWidth, ledX),
         g.BottomBound(), g.reducedHeight)
  }

  /** Left LED i, bottom to top. */
  function LeftZone(g: Geometry, ledY: nat, i: nat): Zone
    requires ledY > 0 && i < ledY
  {
    SplitBelow(i + 1, g.reducedHeight, ledY);
    SplitMonotone(i, i + 1, g.reducedHeight, ledY);
    Zone(0, g.LeftBound(), g.reducedHeight - Split(i + 1, g.reducedHeight, ledY),
         g.reducedHeight - Split(i, g.reducedHeight, ledY))
  }

  // ---- The zones of cpp/screen_capture.cpp ----

  /** Bottom LED i of the capture module: the top edge's columns, left to right. */
  function CaptureBottomZone(g: Geometry, ledX: nat, i: nat): Zone
    requires ledX > 0 && g.BandFits()
  {
    Zone(Split(i, g.reducedWidth, ledX), Split(i + 1, g.reducedWidth, ledX), g.BottomBound(), g.reducedHeight)
  }

  /** Left LED i of the capture module: the right edge's rows, top to bottom. */
  function CaptureLeftZone(g: Geometry, ledY: nat, i: nat): Zone
    requires ledY > 0
  {
    Zone(0, g.LeftBound(), Split(i, g.reducedHeight, ledY), Split(i + 1, g.reducedHeight, ledY))
  }

  // ---- LED slots ----

  datatype Edge = Top | Right | Bottom | Left

  /** Number of LEDs on an edge. */
  function EdgeLength(e: Edge, ledX: nat, ledY: nat): nat
  {
    match e
    case Top => ledX
    case Right => ledY
    case Bottom => ledX
    case Left => ledY
  }

  /** Index of the edge's first LED in the colour vector: 0, ledX, ledX + ledY, 2 ledX + ledY. */
  function EdgeOffset(e: Edge, ledX: nat, ledY: nat): nat
  {
    match e
    case Top => 0
    case Right => ledX
    case Bottom => ledX + ledY
    case Left => 2 * ledX + ledY
  }

  /** Size of the colour vector. */
  function LedCount(ledX: nat, ledY: nat): nat { 2 * ledX + 2 * ledY }

  /** The edge and the position on it of slot k of the colour vector. */
  function SlotEdge(k: nat, ledX: nat, ledY: nat): (r: (Edge, nat))
    requires k < LedCount(ledX, ledY)
    ensures r.1 < EdgeLength(r.0, ledX, ledY) && EdgeOffset(r.0, ledX, ledY) + r.1 == k
  {
    if k < ledX then (Top, k)
    else if k < ledX + ledY then (Right, k - ledX)
    else if k < 2 * ledX + ledY then (Bottom, k - ledX - ledY)
    else (Left, k - 2 * ledX - ledY)
  }

  /** Each slot of the colour vector belongs to exactly one LED of one edge. */
  lemma SlotsAreLeds(e: Edge, i: nat, ledX: nat, ledY: nat)
    requires i < EdgeLength(e, ledX, ledY)
    ensures EdgeOffset(e, ledX, ledY) + i < LedCount(ledX, ledY)
    ensures SlotEdge(EdgeOffset(e, ledX, ledY) + i, ledX, ledY) == (e, i)
  {
  }

  /** The zone that desk slot k averages. */
  function DeskZone(g: Geometry, ledX: nat, ledY: nat, k: nat): Zone
    requires g.BandFits() && k < LedCount(ledX, ledY)
  {
    var (e, i) := SlotEdge(k, ledX, ledY);
    match e
    case Top => TopZone(g, ledX, i)
    case Right => RightZone(g, ledY, i)
    case Bottom => BottomZone(g, ledX, i)
    case Left => LeftZone(g, ledY, i)
  }

  /** The zone that capture slot k averages. */
  function CaptureZone(g: Geometry, ledX: nat, ledY: nat, k: nat): Zone
    requires g.BandFits() && k < LedCount(ledX, ledY)
  {
    var (e, i) := SlotEdge(k, ledX, ledY);
    match e
    case Top => TopZone(g, ledX, i)
    case Right => RightZone(g, ledY, i)
    case Bottom => CaptureBottomZone(g, ledX, i)
    case Left => CaptureLeftZone(g, ledY, i)
  }

  // ---- Properties ----

  /** Every zone lies in the grid and in the border band, so the averages see only sampled cells. */
  lemma DeskZoneInBand(g: Geometry, ledX: nat, ledY: nat, k: nat, x: int, y: int)
    requires g.BandFits() && k < LedCount(ledX, ledY)
    requires DeskZone(g, ledX, ledY, k).Covers(x, y)
    ensures 0 <= x < g.reducedWidth && 0 <= y < g.reducedHeight && InBand(g, x, y)
  {
    var (e, i) := SlotEdge(k, ledX, ledY);
    match e
    case Top => SplitBelow(i + 1, g.reducedWidth, ledX);
    case Right => SplitBelow(i + 1, g.reducedHeight, ledY);
    case Bottom =>
    case Left =>
  }

  lemma CaptureZoneInBand(g: Geometry, ledX: nat, ledY: nat, k: nat, x: int, y: int)
    requires g.BandFits() && k < LedCount(ledX, ledY)
    requires CaptureZone(g, ledX, ledY, k).Covers(x, y)
    ensures 0 <= x < g.reducedWidth && 0 <= y < g.reducedHeight && InBand(g, x, y)
  {
    var (e, i) := SlotEdge(k, ledX, ledY);
    match e
    case Top => SplitBelow(i + 1, g.reducedWidth, ledX);
    case Right => SplitBelow(i + 1, g.reducedHeight, ledY);
    case Bottom => SplitBelow(i + 1, g.reducedWidth, ledX);
    case Left => SplitBelow(i + 1, g.reducedHeight, ledY);
  }

  /** The bottom zones are the top zones mirrored left to right. */
  lemma BottomMirrorsTop(g: Geometry, ledX: nat, i: nat, x: int)
    requires ledX > 0 && i < ledX && g.BandFits() && 0 <= x < g.reducedWidth
    ensures BottomZone(g, ledX, i).startX <= x < BottomZone(g, ledX, i).endX
        <==> TopZone(g, ledX, i).startX <= g.reducedWidth - 1 - x < TopZone(g, ledX, i).endX
  {
  }

  /** The left zones are the right zones mirrored top to bottom. */
  lemma LeftMirrorsRight(g: Geometry, ledY: nat, i: nat, y: int)
    requires ledY > 0 && i < ledY && g.BandFits() && 0 <= y < g.reducedHeight
    ensures LeftZone(g, ledY, i).startY <= y < LeftZone(g, ledY, i).endY
        <==> RightZone(g, ledY, i).startY <= g.reducedHeight - 1 - y < RightZone(g, ledY, i).endY
  {
  }

  /** Every cell of the top band lies in exactly one top zone, and every cell of the bottom band in exactly one bottom zone. */
  lemma TopBottomTile(g: Geometry, ledX: nat, x: nat) returns (top: nat, bottom: nat)
    requires ledX > 0 && g.BandFits() && x < g.reducedWidth
    ensures top < ledX && TopZone(g, ledX, top).startX <= x < TopZone(g, ledX, top).endX
    ensures forall j: nat | j < ledX && TopZone(g, ledX, j).startX <= x < TopZone(g, ledX, j).endX :: j == top
    ensures bottom < ledX && BottomZone(g, ledX, bottom).startX <= x < BottomZone(g, ledX, bottom).endX
    ensures forall j: nat | j < ledX && BottomZone(g, ledX, j).startX <= x < BottomZone(g, ledX, j).endX :: j == bottom
  {
    var w := g.reducedWidth;
    top := SplitFind(x, w, ledX);
    bottom := SplitFind(w - 1 - x, w, ledX);
    forall j: nat | j < ledX && BottomZone(g, ledX, j).startX <= x < BottomZone(g, ledX, j).endX
      ensures j == bottom
    {
      BottomMirrorsTop(g, ledX, j, x);
    }
  }

  /** Every cell of the right band lies in exactly one right zone, and every cell of the left band in exactly one left zone. */
  lemma RightLeftTile(g: Geometry, ledY: nat, y: nat) returns (right: nat, left: nat)
    requires ledY > 0 && g.BandFits() && y < g.reducedHeight
    ensures right < ledY && RightZone(g, ledY, right).startY <= y < RightZone(g, ledY, right).endY
    ensures forall j: nat | j < ledY && RightZone(g, ledY, j).startY <= y < RightZone(g, ledY, j).endY :: j == right
    ensures left < ledY && LeftZone(g, ledY, left).startY <= y < LeftZone(g, ledY, left).endY
    ensures forall j: nat | j < ledY && LeftZone(g, ledY, j).startY <= y < LeftZone(g, ledY, j).endY :: j == left
  {
    var h := g.reducedHeight;
    right := SplitFind(y, h, ledY);
    left := SplitFind(h - 1 - y, h, ledY);
    forall j: nat | j < ledY && LeftZone(g, ledY, j).startY <= y < LeftZone(g, ledY, j).endY
      ensures j == left
    {
      LeftMirrorsRight(g, ledY, j, y);
    }
  }

  /**
   * The desk ring is continuous: each edge starts at the corner where the
   * previous one ends (top-left, top-right, bottom-right, bottom-left).
   */
  lemma DeskRingContinuous(g: Geometry, ledX: nat, ledY: nat)
    requires ledX > 0 && ledY > 0 && g.BandFits()
    ensures TopZone(g, ledX, 0).startX == 0 && TopZone(g, ledX, ledX - 1).endX == g.reducedWidth
    ensures RightZone(g, ledY, 0).startY == 0 && RightZone(g, ledY, ledY - 1).endY == g.reducedHeight
    ensures BottomZone(g, ledX, 0).endX == g.reducedWidth && BottomZone(g, ledX, ledX - 1).startX == 0
    ensures LeftZone(g, ledY, 0).endY == g.reducedHeight && LeftZone(g, ledY, ledY - 1).startY == 0
  {
    SplitEnds(g.reducedWidth, ledX);
    SplitEnds(g.reducedHeight, ledY);
  }

  /**
   * In the capture module the bottom edge restarts at the bottom-left corner
   * and the left edge at the top-left corner, while the right edge ends at
   * the bottom-right corner and the top edge starts at the top-left one: on
   * a grid two cells square with two LEDs per edge, the first bottom LED
   * does not reach the bottom-right corner and the first left LED does not
   * reach the bottom-left corner.
   */
  lemma CaptureRingBreaks()
    ensures var g := Geometry(2, 2, 2, 2, 1);
      && RightZone(g, 2, 1).endY == 2
      && CaptureBottomZone(g, 2, 0) == Zone(0, 1, 1, 2)
      && !CaptureBottomZone(g, 2, 0).Covers(1, 1)
      && CaptureLeftZone(g, 2, 0) == Zone(0, 1, 0, 1)
      && !CaptureLeftZone(g, 2, 0).Covers(0, 1)
      && BottomZone(g, 2, 0).Covers(1, 1)
      && LeftZone(g, 2, 0).Covers(0, 1)
  {
  }

  /**
   * The capture module's top and right zones are the desk's; its bottom and
   * left zones hold the desk's LEDs in reverse order whenever the edge
   * divides evenly.
   */
  lemma CaptureReversesBottomLeft(g: Geometry, ledX: nat, ledY: nat, i: nat)
    requires ledX > 0 && ledY > 0 && g.BandFits()
    ensures i < ledX && g.reducedWidth % ledX == 0 ==> CaptureBottomZone(g, ledX, i) == BottomZone(g, ledX, ledX - 1 - i)
    ensures i < ledY && g.reducedHeight % ledY == 0 ==> CaptureLeftZone(g, ledY, i) == LeftZone(g, ledY, ledY - 1 - i)
  {
    if i < ledX && g.reducedWidth % ledX == 0 {
      EvenMirror(i, g.reducedWidth, ledX);
    }
    if i < ledY && g.reducedHeight % ledY == 0 {
      EvenMirror(i, g.reducedHeight, ledY);
    }
  }

  /** When the edge divides evenly, counting split points from the far end mirrors them. */
  lemma EvenMirror(i: nat, size: nat, n: nat)
    requires n > 0 && i < n && size % n == 0
    ensures size - Split(n - i, size, n) == Split(i, size, n)
    ensures size - Split(n - 1 - i, size, n) == Split(i + 1, size, n)
  {
    var q := size / n;
    EvenSplit(i, size, n);
    EvenSplit(i + 1, size, n);
    EvenSplit(n - i, size, n);
    EvenSplit(n - 1 - i, size, n);
    assert size == n * q;
    assert (n - i) * q == n * q - i * q;
    assert (n - 1 - i) * q == n * q - (i + 1) * q;
  }

  /** When the edge divides evenly, the split points are equally spaced. */
  lemma EvenSplit(i: nat, size: nat, n: nat)
    requires n > 0 && size % n == 0
    ensures Split(i, size, n) == i * (size / n)
  {
    var q := size / n;
    assert i * size == (i * q) * n;
    DivOf(i * q, 0, n);
  }

  /** The desk module's precomputation of every LED's zone, edge by edge. */
  method PrecomputeZones(g: Geometry, ledX: nat, ledY: nat) returns (top: seq<Zone>, right: seq<Zone>, bottom: seq<Zone>, left: seq<Zone>)
    requires g.BandFits()
    ensures |top| == |bottom| == ledX && |right| == |left| == ledY
    ensures forall k | 0 <= k < LedCount(ledX, ledY) ::
      DeskZone(g, ledX, ledY, k) ==
        if k < ledX then top[k]
        else if k < ledX + ledY then right[k - ledX]
        else if k < 2 * ledX + ledY then bottom[k - ledX - ledY]
        else left[k - 2 * ledX - ledY]
  {
    top, bottom := [], [];
    var i := 0;
    while i < ledX
      invariant 0 <= i <= ledX && |top| == |bottom| == i
      invariant forall j | 0 <= j < i :: top[j] == TopZone(g, ledX, j) && bottom[j] == BottomZone(g, ledX, j)
    {
      top := top + [TopZone(g, ledX, i)];
      bottom := bottom + [BottomZone(g, ledX, i)];
      i := i + 1;
    }
    right, left := [], [];
    i := 0;
    while i < ledY
      invariant 0 <= i <= ledY && |right| == |left| == i
      invariant forall j | 0 <= j < i :: right[j] == RightZone(g, ledY, j) && left[j] == LeftZone(g, ledY, j)
    {
      right := right + [RightZone(g, ledY, i)];
      left := left + [LeftZone(g, ledY, i)];
      i := i + 1;
    }
  }
}
