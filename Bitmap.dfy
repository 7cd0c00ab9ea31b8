/**
 * The capture module's preview file (`saveToBMP`, cpp/screen_capture.cpp):
 * a 24-bit bottom-up BMP whose four border sections show the LED colours
 * and whose centre is black.
 */
module Bitmap {
  import opened Colors
  import opened Layout
  import opened Zones

  /** Bytes that pad each row to a multiple of four. */
  function Padding(w: nat): (p: nat)
    ensures p < 4 && (3 * w + p) % 4 == 0
  {
    (4 - (3 * w) % 4) % 4
  }

  function RowSize(w: nat): nat { 3 * w + Padding(w) }

  function FileSize(w: nat, h: nat): nat { 54 + RowSize(w) * h }

  /** `*(int*)p = v`: the four little-endian bytes of `v`, wrapped to 32 bits. */
  function LE32(v: nat): (b: seq<byte>)
    ensures |b| == 4
  {
    var q1 := v / 0x100;
    var q2 := q1 / 0x100;
    var q3 := q2 / 0x100;
    [(v % 0x100) as byte, (q1 % 0x100) as byte, (q2 % 0x100) as byte, (q3 % 0x100) as byte]
  }

  /** How a BMP reader reads a little-endian 32-bit field. */
  function ReadLE32(b: seq<byte>): nat
    requires |b| == 4
  {
    b[0] as nat + 0x100 * (b[1] as nat + 0x100 * (b[2] as nat + 0x100 * b[3] as nat))
  }

  /** A reader gets back the stored value modulo 2^32. */
  lemma LE32RoundTrip(v: nat)
    ensures ReadLE32(LE32(v)) == v % 0x1_0000_0000
  {
    var q1 := v / 0x100;
    var q2 := q1 / 0x100;
    var q3 := q2 / 0x100;
    var q4 := q3 / 0x100;
    var r := ReadLE32(LE32(v));
    assert v == q1 * 0x100 + v % 0x100;
    assert q1 == q2 * 0x100 + q1 % 0x100;
    assert q2 == q3 * 0x100 + q2 % 0x100;
    assert q3 == q4 * 0x100 + q3 % 0x100;
    assert v == q4 * 0x1_0000_0000 + r;
    IdxCoords(r, q4, 0x1_0000_0000);
  }

  /** The 54-byte header before its four size fields are stored. */
  const HeaderTemplate: seq<byte> :=
    [66, 77] + Zeros(8) + [54, 0, 0, 0] + [40, 0, 0, 0] + Zeros(8) + [1, 0, 24, 0] + Zeros(24)

  function Zeros(n: nat): (z: seq<byte>)
    ensures |z| == n && forall i | 0 <= i < n :: z[i] == 0
  {
    seq(n, _ => 0)
  }

  /** `a` with the four bytes at `at` replaced by `field`. */
  function Patch(a: seq<byte>, at: nat, field: seq<byte>): (r: seq<byte>)
    requires at + |field| <= |a|
    ensures |r| == |a|
  {
    a[..at] + field + a[at + |field|..]
  }

  lemma PatchAt(a: seq<byte>, at: nat, field: seq<byte>)
    requires at + |field| <= |a|
    ensures Patch(a, at, field)[at..at + |field|] == field
  {
    var r := Patch(a, at, field);
    assert r[at..at + |field|] == field;
  }

  lemma PatchKeeps(a: seq<byte>, at: nat, field: seq<byte>, i: nat)
    requires at + |field| <= |a| && i < |a| && (i < at || at + |field| <= i)
    ensures Patch(a, at, field)[i] == a[i]
  {
  }

  lemma PatchKeepsRange(a: seq<byte>, at: nat, field: seq<byte>, i: nat, j: nat)
    requires at + |field| <= |a| && i <= j <= |a| && (j <= at || at + |field| <= i)
    ensures Patch(a, at, field)[i..j] == a[i..j]
  {
    forall k | i <= k < j
      ensures Patch(a, at, field)[k] == a[k]
    {
      PatchKeeps(a, at, field, k);
    }
  }

  /** The template with the file size, width, height and image size stored. */
  function HeaderWith(fileSize: nat, w: nat, h: nat, imageSize: nat): (hd: seq<byte>)
    ensures |hd| == 54
  {
    var t1 := Patch(HeaderTemplate, 2, LE32(fileSize));
    var t2 := Patch(t1, 18, LE32(w));
    var t3 := Patch(t2, 22, LE32(h));
    Patch(t3, 34, LE32(imageSize))
  }

  /** The header of a w x h preview. */
  function Header(w: nat, h: nat): (hd: seq<byte>)
    ensures |hd| == 54
  {
    HeaderWith(FileSize(w, h), w, h, RowSize(w) * h)
  }

  /** The bytes no size field overwrites keep the template's values. */
  lemma HeaderWithConstants(fileSize: nat, w: nat, h: nat, imageSize: nat)
    ensures var hd := HeaderWith(fileSize, w, h, imageSize);
      && hd[0] == 66 && hd[1] == 77 && hd[26] == 1 && hd[28] == 24
      && hd[10..14] == [54, 0, 0, 0] && hd[14..18] == [40, 0, 0, 0]
  {
    var t0 := HeaderTemplate;
    var t1 := Patch(t0, 2, LE32(fileSize));
    var t2 := Patch(t1, 18, LE32(w));
    var t3 := Patch(t2, 22, LE32(h));
    var hd := Patch(t3, 34, LE32(imageSize));
    forall i: nat | i < 2 || i == 26 || i == 28
      ensures hd[i] == t0[i]
    {
      PatchKeeps(t0, 2, LE32(fileSize), i);
      PatchKeeps(t1, 18, LE32(w), i);
      PatchKeeps(t2, 22, LE32(h), i);
      PatchKeeps(t3, 34, LE32(imageSize), i);
    }
    HeaderWithKeepsRange(fileSize, w, h, imageSize, 10, 14);
    HeaderWithKeepsRange(fileSize, w, h, imageSize, 14, 18);
  }

  /** A range of the template that lies between the size fields is kept. */
  lemma HeaderWithKeepsRange(fileSize: nat, w: nat, h: nat, imageSize: nat, i: nat, j: nat)
    requires 6 <= i <= j <= 18
    ensures HeaderWith(fileSize, w, h, imageSize)[i..j] == HeaderTemplate[i..j]
  {
    var t0 := HeaderTemplate;
    var t1 := Patch(t0, 2, LE32(fileSize));
    var t2 := Patch(t1, 18, LE32(w));
    var t3 := Patch(t2, 22, LE32(h));
    PatchKeepsRange(t0, 2, LE32(fileSize), i, j);
    PatchKeepsRange(t1, 18, LE32(w), i, j);
    PatchKeepsRange(t2, 22, LE32(h), i, j);
    PatchKeepsRange(t3, 34, LE32(imageSize), i, j);
  }

  /** The four size fields hold their values' little-endian bytes. */
  lemma HeaderWithSizes(fileSize: nat, w: nat, h: nat, imageSize: nat)
    ensures var hd := HeaderWith(fileSize, w, h, imageSize);
      hd[2..6] == LE32(fileSize) && hd[18..22] == LE32(w) && hd[22..26] == LE32(h) && hd[34..38] == LE32(imageSize)
  {
    var t0 := HeaderTemplate;
    var t1 := Patch(t0, 2, LE32(fileSize));
    var t2 := Patch(t1, 18, LE32(w));
    var t3 := Patch(t2, 22, LE32(h));
    var hd := Patch(t3, 34, LE32(imageSize));
    PatchAt(t0, 2, LE32(fileSize));
    PatchAt(t1, 18, LE32(w));
    PatchAt(t2, 22, LE32(h));
    PatchAt(t3, 34, LE32(imageSize));
    PatchKeepsRange(t1, 18, LE32(w), 2, 6);
    PatchKeepsRange(t2, 22, LE32(h), 2, 6);
    PatchKeepsRange(t3, 34, LE32(imageSize), 2, 6);
    PatchKeepsRange(t2, 22, LE32(h), 18, 22);
    PatchKeepsRange(t3, 34, LE32(imageSize), 18, 22);
    PatchKeepsRange(t3, 34, LE32(imageSize), 22, 26);
  }

  /**
   * What a BMP reader finds in the header: the "BM" signature, the file
   * size, a 54-byte pixel offset, a 40-byte info header, the dimensions,
   * one plane, 24 bits per pixel and the image size (sizes modulo 2^32).
   */
  lemma HeaderFields(w: nat, h: nat)
    ensures Header(w, h)[0] == 66 && Header(w, h)[1] == 77
    ensures ReadLE32(Header(w, h)[2..6]) == FileSize(w, h) % 0x1_0000_0000
    ensures ReadLE32(Header(w, h)[10..14]) == 54
    ensures ReadLE32(Header(w, h)[14..18]) == 40
    ensures ReadLE32(Header(w, h)[18..22]) == w % 0x1_0000_0000
    ensures ReadLE32(Header(w, h)[22..26]) == h % 0x1_0000_0000
    ensures Header(w, h)[26] == 1 && Header(w, h)[28] == 24
    ensures ReadLE32(Header(w, h)[34..38]) == RowSize(w) * h % 0x1_0000_0000
  {
    var fs, image := FileSize(w, h), RowSize(w) * h;
    HeaderWithConstants(fs, w, h, image);
    HeaderWithSizes(fs, w, h, image);
    LE32RoundTrip(fs);
    LE32RoundTrip(w);
    LE32RoundTrip(h);
    LE32RoundTrip(image);
  }

  /**
   * The colour-vector slot that pixel (x, y) of the preview shows, None in
   * the black centre: the top band (h/16 rows) shows the top LEDs, then the
   * right band (w/16 columns), the bottom band and the left band, each zone
   * `w / ledX` pixels wide or `h / ledY` pixels tall.
   */
  function BmpSlot(ledX: nat, ledY: nat, w: nat, h: nat, x: nat, y: nat): Option<nat>
    requires x < w && y < h
  {
    var band, side := h / 16, w / 16;
    if y < band then Some(Scale(x, ledX, w))
    else if x >= w - side then Some(ledX + Scale(y - band, ledY, h))
    else if y >= h - band then Some(ledX + ledY + Scale(x, ledX, w))
    else if x < side then Some(2 * ledX + ledY + Scale(y - band, ledY, h))
    else None
  }

  /** `static_cast<int>(a / (d / n))`, the zone of coordinate `a`, as an exact floor. */
  function Scale(a: nat, n: nat, d: nat): (z: nat)
    requires a < d
    ensures n > 0 ==> z < n
  {
    ScaledBelow(a, n, d);
    a * n / d
  }

  /** Every slot the preview reads is a slot of the colour vector. */
  lemma BmpSlotInRange(ledX: nat, ledY: nat, w: nat, h: nat, x: nat, y: nat)
    requires ledX > 0 && ledY > 0 && x < w && y < h
    ensures BmpSlot(ledX, ledY, w, h, x, y).Some? ==> BmpSlot(ledX, ledY, w, h, x, y).value < LedCount(ledX, ledY)
  {
  }

  /** Every pixel of the preview reads inside `colors`. */
  predicate BmpReadsWithin(colors: seq<int>, ledX: nat, ledY: nat, w: nat, h: nat)
  {
    forall x: nat, y: nat | x < w && y < h ::
      BmpSlot(ledX, ledY, w, h, x, y).Some? ==> BmpSlot(ledX, ledY, w, h, x, y).value < |colors|
  }

  /** A full colour vector is always enough. */
  lemma FullVectorSuffices(colors: seq<int>, ledX: nat, ledY: nat, w: nat, h: nat)
    requires ledX > 0 && ledY > 0 && |colors| >= LedCount(ledX, ledY)
    ensures BmpReadsWithin(colors, ledX, ledY, w, h)
  {
    forall x: nat, y: nat | x < w && y < h
      ensures BmpSlot(ledX, ledY, w, h, x, y).Some? ==> BmpSlot(ledX, ledY, w, h, x, y).value < |colors|
    {
      BmpSlotInRange(ledX, ledY, w, h, x, y);
    }
  }

  /** The colour of pixel (x, y): its LED's colour, or black. */
  function PixelColor(colors: seq<int>, ledX: nat, ledY: nat, w: nat, h: nat, x: nat, y: nat): int
    requires BmpReadsWithin(colors, ledX, ledY, w, h) && x < w && y < h
  {
    match BmpSlot(ledX, ledY, w, h, x, y)
    case None => 0
    case Some(k) => colors[k]
  }

  /** A pixel's three bytes in file order: blue, green, red. */
  function Bgr(color: int): seq<byte> { [Blue(color), Green(color), Red(color)] }

  /** The pixel bytes of pixels [0, n) of row y. */
  function RowPixels(colors: seq<int>, ledX: nat, ledY: nat, w: nat, h: nat, y: nat, n: nat): (r: seq<byte>)
    requires BmpReadsWithin(colors, ledX, ledY, w, h) && n <= w && y < h
    ensures |r| == 3 * n
  {
    if n == 0 then [] else RowPixels(colors, ledX, ledY, w, h, y, n - 1) + Bgr(PixelColor(colors, ledX, ledY, w, h, n - 1, y))
  }

  /** Row y as written: its pixels, then zero padding. */
  function RowBytes(colors: seq<int>, ledX: nat, ledY: nat, w: nat, h: nat, y: nat): (r: seq<byte>)
    requires BmpReadsWithin(colors, ledX, ledY, w, h) && y < h
    ensures |r| == RowSize(w)
  {
    RowPixels(colors, ledX, ledY, w, h, y, w) + Zeros(Padding(w))
  }

  /** Rows hi - 1 down to lo of `rows`, in the order they are written. */
  function Stack(rows: seq<seq<byte>>, lo: nat, hi: nat): seq<byte>
    requires hi <= |rows|
    decreases hi - lo
  {
    if lo >= hi then [] else Stack(rows, lo + 1, hi) + rows[lo]
  }

  /** Every row is `rs` bytes long. */
  predicate RowsOfSize(rows: seq<seq<byte>>, rs: nat)
  {
    forall y | 0 <= y < |rows| :: |rows[y]| == rs
  }

  /** The rows of the preview, top to bottom. */
  function Rows(colors: seq<int>, ledX: nat, ledY: nat, w: nat, h: nat): (rows: seq<seq<byte>>)
    requires BmpReadsWithin(colors, ledX, ledY, w, h)
    ensures |rows| == h && RowsOfSize(rows, RowSize(w))
  {
    seq(h, y requires 0 <= y < h => RowBytes(colors, ledX, ledY, w, h, y))
  }

  lemma RowsAt(colors: seq<int>, ledX: nat, ledY: nat, w: nat, h: nat, y: nat)
    requires BmpReadsWithin(colors, ledX, ledY, w, h) && y < h
    ensures Rows(colors, ledX, ledY, w, h)[y] == RowBytes(colors, ledX, ledY, w, h, y)
  {
  }

  /** The whole preview file: the header, then the rows from the bottom up. */
  function BmpFile(colors: seq<int>, ledX: nat, ledY: nat, w: nat, h: nat): seq<byte>
    requires BmpReadsWithin(colors, ledX, ledY, w, h)
  {
    Header(w, h) + Stack(Rows(colors, ledX, ledY, w, h), 0, h)
  }

  lemma {:induction false} RowPixelsAt(colors: seq<int>, ledX: nat, ledY: nat, w: nat, h: nat, y: nat, n: nat, x: nat)
    requires BmpReadsWithin(colors, ledX, ledY, w, h) && n <= w && y < h && x < n
    ensures RowPixels(colors, ledX, ledY, w, h, y, n)[3 * x..3 * x + 3] == Bgr(PixelColor(colors, ledX, ledY, w, h, x, y))
  {
    if x < n - 1 {
      RowPixelsAt(colors, ledX, ledY, w, h, y, n - 1, x);
    }
  }

  /** Where the k-th row written starts in the pixel data: k rows of `rs` bytes. */
  function RowOffset(k: nat, rs: nat): nat
  {
    if k == 0 then 0 else RowOffset(k - 1, rs) + rs
  }

  /**
   * `RowOffset` adds one row at a time so that it follows the stacking of
   * rows in `Stack`; the header's size fields are products, and this is the bridge.
   */
  lemma {:induction false} RowOffsetIsProduct(k: nat, rs: nat)
    ensures RowOffset(k, rs) == k * rs
  {
    if k > 0 {
      RowOffsetIsProduct(k - 1, rs);
    }
  }

  lemma {:induction false} StackLength(rows: seq<seq<byte>>, rs: nat, lo: nat, hi: nat)
    requires RowsOfSize(rows, rs) && lo <= hi <= |rows|
    ensures |Stack(rows, lo, hi)| == RowOffset(hi - lo, rs)
    decreases hi - lo
  {
    if lo < hi {
      StackLength(rows, rs, lo + 1, hi);
    }
  }

  /** Row y is the (hi - 1 - y)-th block of the rows written from hi - 1 down to lo. */
  lemma {:induction false} StackAt(rows: seq<seq<byte>>, rs: nat, lo: nat, hi: nat, y: nat)
    requires RowsOfSize(rows, rs) && lo <= y < hi <= |rows|
    ensures RowOffset(hi - y, rs) <= |Stack(rows, lo, hi)|
    ensures Stack(rows, lo, hi)[RowOffset(hi - 1 - y, rs)..RowOffset(hi - y, rs)] == rows[y]
    decreases hi - lo
  {
    var rest := Stack(rows, lo + 1, hi);
    StackLength(rows, rs, lo + 1, hi);
    var start, end := RowOffset(hi - 1 - y, rs), RowOffset(hi - y, rs);
    assert end == start + rs;
    if y > lo {
      StackAt(rows, rs, lo + 1, hi, y);
      AppendKeepsSlice(rest, rows[lo], start, end);
    } else {
      AppendedSlice(rest, rows[lo]);
    }
  }

  lemma StackStep(rows: seq<seq<byte>>, lo: nat, hi: nat)
    requires lo < hi <= |rows|
    ensures Stack(rows, lo, hi) == Stack(rows, lo + 1, hi) + rows[lo]
  {
  }

  lemma AppendKeepsSlice(a: seq<byte>, b: seq<byte>, i: nat, j: nat)
    requires i <= j <= |a|
    ensures (a + b)[i..j] == a[i..j]
  {
  }

  lemma AppendedSlice(a: seq<byte>, b: seq<byte>)
    ensures (a + b)[|a|..|a| + |b|] == b
  {
  }

  /** The file is exactly as long as its header says. */
  lemma BmpFileLength(colors: seq<int>, ledX: nat, ledY: nat, w: nat, h: nat)
    requires BmpReadsWithin(colors, ledX, ledY, w, h)
    ensures |BmpFile(colors, ledX, ledY, w, h)| == FileSize(w, h)
  {
    StackLength(Rows(colors, ledX, ledY, w, h), RowSize(w), 0, h);
    RowOffsetIsProduct(h, RowSize(w));
  }

  /**
   * Pixel (x, y) sits where a bottom-up 24-bit reader looks for it: after
   * the header and h - 1 - y rows (RowOffset(k, rs) == k * rs), three bytes
   * per pixel, in blue-green-red order.
   */
  lemma PixelInFile(colors: seq<int>, ledX: nat, ledY: nat, w: nat, h: nat, x: nat, y: nat)
    requires BmpReadsWithin(colors, ledX, ledY, w, h) && x < w && y < h
    ensures |BmpFile(colors, ledX, ledY, w, h)| == 54 + RowOffset(h, RowSize(w))
    ensures 54 + RowOffset(h - 1 - y, RowSize(w)) + 3 * x + 3 <= 54 + RowOffset(h, RowSize(w))
    ensures var at := 54 + RowOffset(h - 1 - y, RowSize(w)) + 3 * x;
      BmpFile(colors, ledX, ledY, w, h)[at..at + 3] == Bgr(PixelColor(colors, ledX, ledY, w, h, x, y))
  {
    var rs := RowSize(w);
    var rows := Rows(colors, ledX, ledY, w, h);
    var body := Stack(rows, 0, h);
    var hd := Header(w, h);
    assert BmpFile(colors, ledX, ledY, w, h) == hd + body;
    PixelInRows(colors, ledX, ledY, w, h, x, y);
    StackLength(rows, rs, 0, h);
    SuffixSlice(hd, body, RowOffset(h - 1 - y, rs) + 3 * x, 3);
  }

  lemma SuffixSlice(a: seq<byte>, b: seq<byte>, i: nat, n: nat)
    requires i + n <= |b|
    ensures (a + b)[|a| + i..|a| + i + n] == b[i..i + n]
  {
  }

  /** Pixel (x, y) within the rows: in row block h - 1 - y, at byte 3x of it. */
  lemma PixelInRows(colors: seq<int>, ledX: nat, ledY: nat, w: nat, h: nat, x: nat, y: nat)
    requires BmpReadsWithin(colors, ledX, ledY, w, h) && x < w && y < h
    ensures RowOffset(h - 1 - y, RowSize(w)) + 3 * x + 3 <= |Stack(Rows(colors, ledX, ledY, w, h), 0, h)|
    ensures var at := RowOffset(h - 1 - y, RowSize(w)) + 3 * x;
      Stack(Rows(colors, ledX, ledY, w, h), 0, h)[at..at + 3] == Bgr(PixelColor(colors, ledX, ledY, w, h, x, y))
  {
    var rs := RowSize(w);
    var rows := Rows(colors, ledX, ledY, w, h);
    var body := Stack(rows, 0, h);
    StackAt(rows, rs, 0, h, y);
    RowBytesAt(colors, ledX, ledY, w, h, x, y);
    var start := RowOffset(h - 1 - y, rs);
    assert RowOffset(h - y, rs) == start + rs;
    SliceOfSlice(body, start, rs, 3 * x, 3);
  }

  lemma RowBytesAt(colors: seq<int>, ledX: nat, ledY: nat, w: nat, h: nat, x: nat, y: nat)
    requires BmpReadsWithin(colors, ledX, ledY, w, h) && x < w && y < h
    ensures 3 * x + 3 <= RowSize(w)
    ensures RowBytes(colors, ledX, ledY, w, h, y)[3 * x..3 * x + 3] == Bgr(PixelColor(colors, ledX, ledY, w, h, x, y))
  {
    RowPixelsAt(colors, ledX, ledY, w, h, y, w, x);
    var pixels := RowPixels(colors, ledX, ledY, w, h, y, w);
    assert RowBytes(colors, ledX, ledY, w, h, y)[3 * x..3 * x + 3] == pixels[3 * x..3 * x + 3];
  }

  lemma SliceOfSlice(s: seq<byte>, start: nat, len: nat, off: nat, n: nat)
    requires start + len <= |s| && off + n <= len
    ensures s[start + off..start + off + n] == s[start..start + len][off..off + n]
  {
    var a, b := s[start + off..start + off + n], s[start..start + len][off..off + n];
    forall i | 0 <= i < n
      ensures a[i] == b[i]
    {
    }
  }

  /** The centre of the preview is black: pixels outside the four bands are 0 0 0. */
  lemma CentreIsBlack(colors: seq<int>, ledX: nat, ledY: nat, w: nat, h: nat, x: nat, y: nat)
    requires BmpReadsWithin(colors, ledX, ledY, w, h)
    requires w / 16 <= x < w - w / 16 && h / 16 <= y < h - h / 16
    ensures Bgr(PixelColor(colors, ledX, ledY, w, h, x, y)) == [0, 0, 0]
  {
  }

  /**
   * `saveToBMP`: nothing when the file cannot be created; otherwise the
   * patched header, then each row from the bottom (y = h - 1) up, built in
   * one reused row buffer whose padding is zeroed.
   */
  method SaveToBmp(colors: seq<int>, ledX: nat, ledY: nat, w: nat, h: nat, canCreate: bool)
    returns (file: Option<seq<byte>>)
    requires BmpReadsWithin(colors, ledX, ledY, w, h)
    ensures canCreate ==> file == Some(BmpFile(colors, ledX, ledY, w, h))
    ensures !canCreate ==> file == None
  {
    if !canCreate {
      return None;
    }
    var header := BuildHeader(w, h);
    var body := WriteRows(colors, ledX, ledY, w, h);
    return Some(header + body);
  }

  /**
   * The row loop of `saveToBMP`: rows from the bottom (y = h - 1) up, each
   * built in one reused row buffer and appended to the file.
   */
  method WriteRows(colors: seq<int>, ledX: nat, ledY: nat, w: nat, h: nat) returns (out: seq<byte>)
    requires BmpReadsWithin(colors, ledX, ledY, w, h)
    ensures out == Stack(Rows(colors, ledX, ledY, w, h), 0, h)
  {
    out := [];
    var rowData := new byte[RowSize(w)];
    ghost var rows := Rows(colors, ledX, ledY, w, h);
    var y: int := h - 1;
    while y >= 0
      invariant -1 <= y < h
      invariant out == Stack(rows, y + 1, h)
    {
      FillRow(rowData, colors, ledX, ledY, w, h, y);
      RowsAt(colors, ledX, ledY, w, h, y);
      StackStep(rows, y, h);
      out := out + rowData[..];
      y := y - 1;
    }
  }

  /** The header array: the template, then the four `*(int*)` stores. */
  method BuildHeader(w: nat, h: nat) returns (hd: seq<byte>)
    ensures hd == Header(w, h)
  {
    var imageSize := RowSize(w) * h;
    hd := StoreSizes(54 + imageSize, w, h, imageSize);
  }

  /** The template copied into the header array, then the four stores. */
  method StoreSizes(fileSize: nat, w: nat, h: nat, imageSize: nat) returns (hd: seq<byte>)
    ensures hd == HeaderWith(fileSize, w, h, imageSize)
  {
    var header := new byte[54](i requires 0 <= i < 54 => HeaderTemplate[i]);
    assert header[..] == HeaderTemplate;
    Store32(header, 2, fileSize);
    Store32(header, 18, w);
    Store32(header, 22, h);
    Store32(header, 34, imageSize);
    hd := header[..];
  }

  /** The four-byte store `*(int*)(a + at) = v`. */
  method Store32(a: array<byte>, at: nat, v: nat)
    requires at + 4 <= a.Length
    modifies a
    ensures a[..] == Patch(old(a[..]), at, LE32(v))
  {
    var bytes := LE32(v);
    a[at] := bytes[0];
    a[at + 1] := bytes[1];
    a[at + 2] := bytes[2];
    a[at + 3] := bytes[3];
  }

  /** One row of the preview into the row buffer: three bytes per pixel, then the zeroed padding. */
  method FillRow(rowData: array<byte>, colors: seq<int>, ledX: nat, ledY: nat, w: nat, h: nat, y: nat)
    requires BmpReadsWithin(colors, ledX, ledY, w, h) && y < h && rowData.Length == RowSize(w)
    modifies rowData
    ensures rowData[..] == RowBytes(colors, ledX, ledY, w, h, y)
  {
    var x := 0;
    while x < w
      invariant x <= w
      invariant rowData[..3 * x] == RowPixels(colors, ledX, ledY, w, h, y, x)
    {
      var color := PixelColor(colors, ledX, ledY, w, h, x, y);
      WritePixel(rowData, 3 * x, color);
      x := x + 1;
    }
    PadRow(rowData, 3 * w);
    assert rowData[..] == rowData[..3 * w] + rowData[3 * w..];
  }

  /** One pixel's blue, green and red bytes written at `at`, after the bytes already there. */
  method WritePixel(rowData: array<byte>, at: nat, color: int)
    requires at + 3 <= rowData.Length
    modifies rowData
    ensures rowData[..at + 3] == old(rowData[..at]) + Bgr(color)
  {
    rowData[at] := Blue(color);
    rowData[at + 1] := Green(color);
    rowData[at + 2] := Red(color);
  }

  /** The padding loop: every byte from `from` on becomes 0, the bytes before it stay. */
  method PadRow(rowData: array<byte>, from: nat)
    requires from <= rowData.Length
    modifies rowData
    ensures rowData[..from] == old(rowData[..from])
    ensures rowData[from..] == Zeros(rowData.Length - from)
  {
    var p := from;
    while p < rowData.Length
      invariant from <= p <= rowData.Length
      invariant rowData[..from] == old(rowData[..from])
      invariant forall k | from <= k < p :: rowData[k] == 0
    {
      rowData[p] := 0;
      p := p + 1;
    }
  }

  // ---- The preview after a failed capture ----

  /**
   * As written, the capture module saves the preview of `result.pixels`
   * (161 x 10 LEDs, 600 x 600 pixels) after every capture, also when the
   * capture failed and `pixels` is null. Rows are written from y = 599
   * down, so the first pixel, (0, 599), already reads slot ledX + ledY = 171
   * of an empty vector; pixel (0, 0) maps to slot 0.
   */
  lemma FailedCapturePreviewReadsNothing()
    ensures BmpSlot(161, 10, 600, 600, 0, 599) == Some(171)
    ensures BmpSlot(161, 10, 600, 600, 0, 0) == Some(0)
    ensures !BmpReadsWithin([], 161, 10, 600, 600)
  {
    assert BmpSlot(161, 10, 600, 600, 0, 599) == Some(171);
    assert BmpSlot(161, 10, 600, 600, 0, 0) == Some(0);
  }

  /** The preview as intended: only for a capture that produced its colour vector. */
  function PreviewAfterCapture(captured: Option<seq<int>>, ledX: nat, ledY: nat, w: nat, h: nat): (file: Option<seq<byte>>)
    requires ledX > 0 && ledY > 0
    requires captured.Some? ==> |captured.value| == LedCount(ledX, ledY)
    ensures captured.None? <==> file.None?
    ensures file.Some? ==> |file.value| == FileSize(w, h)
  {
    match captured
    case None => None
    case Some(colors) =>
      FullVectorSuffices(colors, ledX, ledY, w, h);
      BmpFileLength(colors, ledX, ledY, w, h);
      Some(BmpFile(colors, ledX, ledY, w, h))
  }
}
