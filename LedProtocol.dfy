/**
 * The serial protocol to the LED strip: six-byte records
 * `[0xFF, index low, index high, R, G, B]` whose payload never holds 0xFF,
 * closed by the `FF FF` sentinel; the desk module's transmit loop (changed
 * LEDs only, rotated indices, errors counted) and the capture module's
 * (every LED, port closed on a failed write).
 */
module LedProtocol {
  import opened Colors
  import opened Layout
  import opened TemporalDiff

  /** The byte that opens a record and, doubled, ends a frame. */
  const Marker: byte := 0xFF

  /** `if (buffer[k] == 0xFF) buffer[k] = 0xFE;` */
  function Stuff(b: byte): (r: byte)
    ensures r != Marker
    ensures b != Marker ==> r == b
    ensures b == Marker ==> r == 0xFE
  {
    if b == Marker then 0xFE else b
  }

  /** `(uint8_t)(i & 0xFF)` and `(uint8_t)((i >> 8) & 0xFF)` of a non-negative index. */
  function LowByte(i: nat): byte { (i % 0x100) as byte }
  function HighByte(i: nat): byte { ((i / 0x100) % 0x100) as byte }

  /** The record for LED `i` showing `color`, as it goes on the wire. */
  function Record(i: nat, color: int): (r: seq<byte>)
    ensures |r| == 6 && r[0] == Marker
    ensures forall k | 1 <= k < 6 :: r[k] != Marker
  {
    [Marker, Stuff(LowByte(i)), Stuff(HighByte(i)), Stuff(Red(color)), Stuff(Green(color)), Stuff(Blue(color))]
  }

  /** What the strip reads back from six bytes that open with the marker. */
  function DecodeRecord(r: seq<byte>): Option<(nat, int)>
  {
    if |r| == 6 && r[0] == Marker then Some((r[1] as nat + 0x100 * r[2] as nat, Pack(r[3], r[4], r[5])))
    else None
  }

  lemma IndexBytes(i: nat)
    requires i < 0x1_0000
    ensures LowByte(i) as nat + 0x100 * HighByte(i) as nat == i
  {
  }

  /** A record decodes to its index and colour when no byte of either is 0xFF. */
  lemma RecordRoundTrip(i: nat, color: int)
    requires i < 0x1_0000 && 0 <= color < 0x100_0000
    requires LowByte(i) != Marker && HighByte(i) != Marker
    requires Red(color) != Marker && Green(color) != Marker && Blue(color) != Marker
    ensures DecodeRecord(Record(i, color)) == Some((i, color))
  {
    IndexBytes(i);
    PackUnpack(color);
  }

  /** Otherwise a full-intensity channel arrives as 254 and the other channels intact. */
  lemma RecordChannels(i: nat, color: int)
    ensures DecodeRecord(Record(i, color)).Some?
    ensures Red(DecodeRecord(Record(i, color)).value.1) == Stuff(Red(color))
    ensures Green(DecodeRecord(Record(i, color)).value.1) == Stuff(Green(color))
    ensures Blue(DecodeRecord(Record(i, color)).value.1) == Stuff(Blue(color))
  {
    UnpackPack(Stuff(Red(color)), Stuff(Green(color)), Stuff(Blue(color)));
  }

  /**
   * The stuffing also applies to the index bytes: an LED whose low index
   * byte is 0xFF is addressed on the wire as the LED just before it.
   */
  lemma StuffedIndexAliases(i: nat, color: int)
    requires i < 0x1_0000 && LowByte(i) == Marker && HighByte(i) != Marker
    ensures DecodeRecord(Record(i, color)) == DecodeRecord(Record(i - 1, color))
    ensures DecodeRecord(Record(i, color)).value.0 == i - 1
  {
    IndexBytes(i);
    IndexBytes(i - 1);
  }

  /** `(offset + j) % total`: LED j of the frame drives physical LED Remap(j). */
  function Remap(j: nat, offset: nat, total: nat): (i: nat)
    requires total > 0
    ensures i < total
  {
    (offset + j) % total
  }

  /** The LED of the frame that physical LED i shows. */
  function Unmap(i: nat, offset: nat, total: nat): (j: nat)
    requires total > 0
    ensures j < total
  {
    (i + total - offset % total) % total
  }

  /** `(a - b + c) * n` spelt out, kept apart from the proofs that need it. */
  lemma Spread(a: int, b: int, c: int, n: int)
    ensures (a - b + c) * n == a * n - b * n + c * n
  {
  }

  /** Unmap undoes Remap. */
  lemma UnmapRemap(j: nat, offset: nat, total: nat)
    requires total > 0 && j < total
    ensures Unmap(Remap(j, offset, total), offset, total) == j
  {
    var o, q := offset % total, offset / total;
    var r, s := (offset + j) % total, (offset + j) / total;
    Spread(q, s, 1, total);
    ModUnique(r + total - o, total, q - s + 1, j);
  }

  /** Remap undoes Unmap. */
  lemma RemapUnmap(i: nat, offset: nat, total: nat)
    requires total > 0 && i < total
    ensures Remap(Unmap(i, offset, total), offset, total) == i
  {
    var o, q := offset % total, offset / total;
    var u, t := (i + total - o) % total, (i + total - o) / total;
    Spread(q, t, 1, total);
    ModUnique(offset + u, total, q + 1 - t, i);
  }

  /** The rotation is a bijection of [0, total): Unmap inverts it on both sides. */
  lemma RemapBijective(j: nat, i: nat, offset: nat, total: nat)
    requires total > 0 && j < total && i < total
    ensures Unmap(Remap(j, offset, total), offset, total) == j
    ensures Remap(Unmap(i, offset, total), offset, total) == i
  {
    UnmapRemap(j, offset, total);
    RemapUnmap(i, offset, total);
  }

  /** Two frame LEDs never land on the same physical LED. */
  lemma RemapInjective(j1: nat, j2: nat, offset: nat, total: nat)
    requires total > 0 && j1 < total && j2 < total && j1 != j2
    ensures Remap(j1, offset, total) != Remap(j2, offset, total)
  {
    RemapBijective(j1, 0, offset, total);
    RemapBijective(j2, 0, offset, total);
  }

  // ---- Frames on the wire ----

  function Concat(rs: seq<seq<byte>>): seq<byte>
  {
    if |rs| == 0 then [] else Concat(rs[..|rs| - 1]) + rs[|rs| - 1]
  }

  /** The bytes of one frame: its records, then the sentinel. */
  function FrameBytes(rs: seq<seq<byte>>): seq<byte>
  {
    Concat(rs) + [Marker, Marker]
  }

  predicate WellFormed(r: seq<byte>)
  {
    |r| == 6 && r[0] == Marker && forall k | 1 <= k < 6 :: r[k] != Marker
  }

  lemma {:induction false} ConcatMarkers(rs: seq<seq<byte>>)
    requires forall n | 0 <= n < |rs| :: WellFormed(rs[n])
    ensures |Concat(rs)| == 6 * |rs|
    ensures forall p | 0 <= p < |Concat(rs)| :: Concat(rs)[p] == Marker <==> p % 6 == 0
  {
    if |rs| > 0 {
      var init := rs[..|rs| - 1];
      ConcatMarkers(init);
      var last := rs[|rs| - 1];
      assert WellFormed(last);
      forall p | 0 <= p < |Concat(rs)|
        ensures Concat(rs)[p] == Marker <==> p % 6 == 0
      {
        if p >= |Concat(init)| {
          var k := p - 6 * |init|;
          assert Concat(rs)[p] == last[k];
          ModUnique(p, 6, |init|, k);
        }
      }
    }
  }

  /**
   * A receiver can find every record: 0xFF occurs in a frame of well-formed
   * records exactly at the record starts and in the two sentinel bytes.
   */
  lemma FrameMarkers(rs: seq<seq<byte>>)
    requires forall n | 0 <= n < |rs| :: WellFormed(rs[n])
    ensures |FrameBytes(rs)| == 6 * |rs| + 2
    ensures forall p | 0 <= p < |FrameBytes(rs)| ::
      FrameBytes(rs)[p] == Marker <==> p % 6 == 0 || p == 6 * |rs| + 1
  {
    ConcatMarkers(rs);
  }

  // ---- The desk module's transmit loop ----

  /** What `WriteFile` reports: failure, or the number of bytes written. */
  datatype WriteResult = Failed | Wrote(count: nat)

  /** A record write that the loop counts as an error: failed or short. */
  predicate WriteError(w: WriteResult) { w.Failed? || w.count != 6 }

  /** The records the desk loop writes for frame LEDs [0, n): only the changed ones, at their rotated index. */
  function ChangedRecords(corrected: seq<int>, changed: seq<bool>, offset: nat, n: nat): seq<seq<byte>>
    requires n <= |corrected| == |changed|
  {
    if n == 0 then []
    else
      var own := if changed[n - 1] then [Record(Remap(n - 1, offset, |corrected|), corrected[n - 1])] else [];
      ChangedRecords(corrected, changed, offset, n - 1) + own
  }

  /** The errors among the writes of frame LEDs [0, n). */
  function ChangedErrors(changed: seq<bool>, writes: seq<WriteResult>, n: nat): nat
    requires n <= |changed| == |writes|
  {
    if n == 0 then 0
    else ChangedErrors(changed, writes, n - 1) + (if changed[n - 1] && WriteError(writes[n - 1]) then 1 else 0)
  }

  function CountTrue(changed: seq<bool>, n: nat): nat
    requires n <= |changed|
  {
    if n == 0 then 0 else CountTrue(changed, n - 1) + (if changed[n - 1] then 1 else 0)
  }

  /** One record per changed LED, and at most one error per record. */
  lemma {:induction false} ChangedCounts(corrected: seq<int>, changed: seq<bool>, writes: seq<WriteResult>, offset: nat, n: nat)
    requires n <= |corrected| == |changed| == |writes|
    ensures |ChangedRecords(corrected, changed, offset, n)| == CountTrue(changed, n)
    ensures ChangedErrors(changed, writes, n) <= CountTrue(changed, n)
  {
    if n > 0 {
      ChangedCounts(corrected, changed, writes, offset, n - 1);
    }
  }

  /** Every record of a frame is well formed. */
  lemma {:induction false} ChangedWellFormed(corrected: seq<int>, changed: seq<bool>, offset: nat, n: nat)
    requires n <= |corrected| == |changed|
    ensures forall k | 0 <= k < |ChangedRecords(corrected, changed, offset, n)| ::
      WellFormed(ChangedRecords(corrected, changed, offset, n)[k])
  {
    if n > 0 {
      ChangedWellFormed(corrected, changed, offset, n - 1);
    }
  }

  /**
   * The desk module's transmission of one frame: a record per changed LED
   * (one write each, a failed or short write counted and skipped), the
   * sentinel (counted when it fails), then the flush (counted when it fails).
   * `sent` is every byte passed to `WriteFile`, whether or not that write
   * succeeded.
   */
  method TransmitFrame(corrected: seq<int>, changed: seq<bool>, offset: nat, writes: seq<WriteResult>,
                       syncOk: bool, flushOk: bool, errorsBefore: int)
    returns (sent: seq<byte>, errorCount: int)
    requires |changed| == |corrected| == |writes|
    ensures sent == FrameBytes(ChangedRecords(corrected, changed, offset, |corrected|))
    ensures errorCount == errorsBefore + ChangedErrors(changed, writes, |corrected|)
                          + (if syncOk then 0 else 1) + (if flushOk then 0 else 1)
  {
    var total := |corrected|;
    errorCount := errorsBefore;
    sent := [];
    ghost var records: seq<seq<byte>> := [];
    var j := 0;
    while j < total
      invariant j <= total
      invariant records == ChangedRecords(corrected, changed, offset, j) && sent == Concat(records)
      invariant errorCount == errorsBefore + ChangedErrors(changed, writes, j)
    {
      if changed[j] {
        var i := (offset + j) % total;
        var buffer := new byte[6];
        buffer[0] := Marker;
        buffer[1] := LowByte(i);
        buffer[2] := HighByte(i);
        var color := corrected[j];
        buffer[3] := Red(color);
        buffer[4] := Green(color);
        buffer[5] := Blue(color);
        ghost var raw := buffer[..];
        StuffPayload(buffer);
        RecordOfBuffer(raw, buffer[..], Remap(j, offset, total), color);
        sent := sent + buffer[..];
        records := records + [buffer[..]];
        if writes[j].Failed? {
          errorCount := errorCount + 1;
        } else if writes[j].count != 6 {
          errorCount := errorCount + 1;
        }
      }
      j := j + 1;
    }
    sent := sent + [Marker, Marker];
    if !syncOk {
      errorCount := errorCount + 1;
    }
    if !flushOk {
      errorCount := errorCount + 1;
    }
  }

  /** The buffer filled with marker, index and colour bytes, once stuffed, is the record. */
  lemma RecordOfBuffer(raw: seq<byte>, stuffed: seq<byte>, i: nat, color: int)
    requires |raw| == |stuffed| == 6
    requires raw == [Marker, LowByte(i), HighByte(i), Red(color), Green(color), Blue(color)]
    requires stuffed[0] == raw[0] && forall k | 1 <= k < 6 :: stuffed[k] == Stuff(raw[k])
    ensures stuffed == Record(i, color)
  {
  }

  /** The five `if (buffer[k] == 0xFF) buffer[k] = 0xFE;` statements. */
  method StuffPayload(buffer: array<byte>)
    requires buffer.Length == 6
    modifies buffer
    ensures buffer[0] == old(buffer[0])
    ensures forall k | 1 <= k < 6 :: buffer[k] == Stuff(old(buffer[k]))
  {
    var k := 1;
    while k < 6
      invariant 1 <= k <= 6
      invariant buffer[0] == old(buffer[0])
      invariant forall m | 1 <= m < k :: buffer[m] == Stuff(old(buffer[m]))
      invariant forall m | k <= m < 6 :: buffer[m] == old(buffer[m])
    {
      if buffer[k] == Marker {
        buffer[k] := 0xFE;
      }
      k := k + 1;
    }
  }

  /**
   * The desk module's main-loop body for one captured frame: a failed
   * capture sends nothing and keeps the stored frame; otherwise the
   * corrected colours are diffed against it and the changes transmitted.
   */
  method DeskFrame(diff: DiffState, captured: Option<seq<int>>, correct: int -> int, offset: nat,
                   writes: seq<WriteResult>, syncOk: bool, flushOk: bool, errorsBefore: int)
    returns (sent: seq<byte>, errorCount: int)
    requires captured.Some? ==> |writes| == |captured.value|
    modifies diff
    ensures captured.None? ==> sent == [] && errorCount == errorsBefore && diff.previous == old(diff.previous)
    ensures captured.Some? ==> diff.previous == seq(|captured.value|, k requires 0 <= k < |captured.value| => correct(captured.value[k]))
    ensures captured.Some? ==> sent == FrameBytes(ChangedRecords(diff.previous,
              Changes(old(diff.previous), diff.previous), offset, |captured.value|))
    ensures captured.Some? ==>
      errorCount == errorsBefore + ChangedErrors(Changes(old(diff.previous), diff.previous), writes, |captured.value|)
                    + (if syncOk then 0 else 1) + (if flushOk then 0 else 1)
  {
    if captured.None? {
      return [], errorsBefore;
    }
    var pixels := captured.value;
    var corrected := seq(|pixels|, k requires 0 <= k < |pixels| => correct(pixels[k]));
    var changed, _ := diff.Update(corrected);
    sent, errorCount := TransmitFrame(corrected, changed, offset, writes, syncOk, flushOk, errorsBefore);
  }

  // ---- The capture module's transmit loop ----

  /**
   * What one frame of the capture module's loop leaves behind: the bytes
   * passed to `WriteFile` (a failed write's bytes included), the errors
   * counted, whether the port is still open and whether the main loop ends.
   */
  datatype Stream = Stream(sent: seq<byte>, errors: nat, portOpen: bool, leaveMain: bool)

  /**
   * Records for LEDs [n, |colors|) at their own index: a failed write
   * closes the port and ends the loop; a short write is counted.
   */
  function StreamRecords(colors: seq<int>, writes: seq<WriteResult>, n: nat): (s: Stream)
    requires n <= |colors| == |writes|
    ensures !s.leaveMain
    decreases |colors| - n
  {
    if n == |colors| then Stream([], 0, true, false)
    else
      var rest := StreamRecords(colors, writes, n + 1);
      match writes[n]
      case Failed => Stream(Record(n, colors[n]), 1, false, false)
      case Wrote(c) => Stream(Record(n, colors[n]) + rest.sent, rest.errors + (if c != 6 then 1 else 0), rest.portOpen, false)
  }

  /**
   * The capture module's frame as written: after the records the sentinel
   * is passed to `WriteFile` even when a failed write has closed the port;
   * that write fails, is counted, and its `break` leaves the main loop.
   */
  function StreamFrame(colors: seq<int>, writes: seq<WriteResult>, syncOk: bool): Stream
    requires |colors| == |writes|
  {
    var s := StreamRecords(colors, writes, 0);
    var synced := s.(sent := s.sent + [Marker, Marker]);
    if s.portOpen && syncOk then synced
    else synced.(errors := s.errors + 1, portOpen := false, leaveMain := true)
  }

  /**
   * A failed capture (`{nullptr, -1}`) writes no record, since the loop
   * `i < -1` does nothing, yet the sentinel is still passed to `WriteFile`,
   * and a failed sentinel write still ends the main loop.
   */
  lemma FailedCaptureFrame(syncOk: bool)
    ensures StreamFrame([], [], syncOk).sent == [Marker, Marker]
    ensures StreamFrame([], [], syncOk).errors == (if syncOk then 0 else 1)
    ensures StreamFrame([], [], syncOk).leaveMain <==> !syncOk
  {
  }

  /** The same frame when a closed port is left for the reconnection branch, which skips the sentinel. */
  function StreamFrameReconnecting(colors: seq<int>, writes: seq<WriteResult>, syncOk: bool): Stream
    requires |colors| == |writes|
  {
    var s := StreamRecords(colors, writes, 0);
    if !s.portOpen then s
    else
      var synced := s.(sent := s.sent + [Marker, Marker]);
      if syncOk then synced else synced.(errors := s.errors + 1, portOpen := false)
  }

  lemma {:induction false} FailureClosesPort(colors: seq<int>, writes: seq<WriteResult>, n: nat, f: nat)
    requires n <= f < |colors| == |writes| && writes[f].Failed?
    ensures !StreamRecords(colors, writes, n).portOpen
    decreases f - n
  {
    if n < f && writes[n].Wrote? {
      FailureClosesPort(colors, writes, n + 1, f);
    }
  }

  /** As written, one failed record write ends the program's main loop. */
  lemma RecordFailureLeavesMain(colors: seq<int>, writes: seq<WriteResult>, f: nat, syncOk: bool)
    requires f < |colors| == |writes| && writes[f].Failed?
    ensures StreamFrame(colors, writes, syncOk).leaveMain
  {
    FailureClosesPort(colors, writes, 0, f);
  }

  /**
   * With the reconnection branch kept reachable, no frame ends the main
   * loop; while the port stays open the frame passes the same bytes as
   * written, and once a record write has closed it the sentinel is skipped.
   */
  lemma ReconnectingKeepsRunning(colors: seq<int>, writes: seq<WriteResult>, syncOk: bool)
    requires |colors| == |writes|
    ensures !StreamFrameReconnecting(colors, writes, syncOk).leaveMain
    ensures StreamRecords(colors, writes, 0).portOpen ==>
      StreamFrameReconnecting(colors, writes, syncOk).sent == StreamFrame(colors, writes, syncOk).sent
    ensures !StreamRecords(colors, writes, 0).portOpen ==>
      StreamFrameReconnecting(colors, writes, syncOk).sent == StreamRecords(colors, writes, 0).sent
  {
  }

  /** The capture module's record loop, sentinel and its error handling, as written. */
  method StreamFrameLoop(colors: seq<int>, writes: seq<WriteResult>, syncOk: bool) returns (s: Stream)
    requires |colors| == |writes|
    ensures s == StreamFrame(colors, writes, syncOk)
  {
    ghost var whole := StreamRecords(colors, writes, 0);
    var sent: seq<byte> := [];
    var errors: nat := 0;
    var portOpen := true;
    var i := 0;
    while i < |colors|
      invariant i <= |colors| && portOpen
      invariant whole.sent == sent + StreamRecords(colors, writes, i).sent
      invariant whole.errors == errors + StreamRecords(colors, writes, i).errors
      invariant whole.portOpen == StreamRecords(colors, writes, i).portOpen
    {
      var record := Record(i, colors[i]);
      sent := sent + record;
      if writes[i].Failed? {
        assert StreamRecords(colors, writes, i) == Stream(record, 1, false, false);
        errors := errors + 1;
        portOpen := false;
        break;
      } else if writes[i].count != 6 {
        errors := errors + 1;
      }
      i := i + 1;
    }
    assert whole.sent == sent && whole.errors == errors && whole.portOpen == portOpen;
    sent := sent + [Marker, Marker];
    if !portOpen || !syncOk {
      errors := errors + 1;
      s := Stream(sent, errors, false, true);
    } else {
      s := Stream(sent, errors, true, false);
    }
  }
}
