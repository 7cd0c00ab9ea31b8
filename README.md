# deskController ambient-light core in Dafny

This project models the core of deskController, a Windows ambient-lighting
controller. The controller captures a screen with Desktop Duplication, then:

1. It samples a border band of a reduced pixel grid.
2. It averages the band into one colour per LED around the screen: top edge,
   then right edge, bottom edge and left edge.
3. It streams the colours to an LED strip over a serial port. The desk
   module sends only the LEDs that changed since the last frame, in six-byte
   records `[FF, index low, index high, R, G, B]` with stuffed payload bytes,
   followed by an `FF FF` sentinel.
4. A second serial port answers a microcontroller. Status byte 0 is answered
   with which monitors are active; other command bytes switch displays on or
   off.

The repository has two generations of this code, and both are modelled:

- **Desk module:** `main/deskController/deskController.cpp` and
  `main/deskController/screenController.cpp`.
- **Capture module:** `cpp/screen_capture.cpp` and
  `cpp/screen_controller.cpp`.

Where the two share a step, the model states how they relate
(`ZoneAverage.ModulesAgree`).

| module | what it holds |
|---|---|
| `Colors` | bytes, `Option`, packing `(r << 16) \| (g << 8) \| b` and unpacking |
| `Layout` | the mapped BGRA frame, the capture geometry, the border band, nearest-neighbour sampling and the filled reduced buffer as a function (`FilledBuffer`) |
| `BorderFill` | the two in-place fills of the reduced buffer, proved equal to `FilledBuffer` |
| `Zones` | the zone boundaries `floor(i * size / n)` of both modules, the LED slot layout and the tiling and ordering facts about them |
| `ZoneAverage` | zone sums and means as functions; the desk module's row-order averaging and the capture module's column-order averaging as methods over arrays, each proved to produce its colour vector |
| `CaptureSession` | the per-screen device registry (`initializeScreen`) and the two `getScreenPixels` |
| `TemporalDiff` | the desk module's frame-to-frame change detection |
| `LedProtocol` | record encoding and stuffing, index rotation, one frame of each module's transmit loop |
| `Bitmap` | the capture module's `saveToBMP` preview file |
| `Text` | the `std::string` find and trim idioms the listing parsers use |
| `MonitorInventory` | the capture module's `ScreenController`: monitor listing parser, status byte, command dispatch |
| `DisplayWatch` | the desk module's `ScreenController`: the DISPLAY3 watch and its command handling |

Some things cannot be seen from the code and are passed in as parameters:

- the result of each device call (`InitOutcome`, `Grab`);
- the result of each serial write (`WriteResult`);
- the lines printed by the external monitor tool (`seq<string>`, or `None` when the listing cannot be read);
- whether the bitmap file can be created;
- the gamma correction, passed as a function `int -> int`.

## Model

| member | source | states |
|---|---|---|
| Colors.PackRange | cpp/screen_capture.cpp:178-181 | a packed pixel is a 24-bit colour |
| Colors.UnpackPack | cpp/screen_capture.cpp:199-209 | unpacking a packed colour gives back its red, green and blue bytes |
| Colors.PackUnpack | main/deskController/deskController.cpp:551-557 | a 24-bit colour is determined by the three channel bytes the encoder extracts |
| Layout.IdxInRange | cpp/screen_capture.cpp:170-182 | the linear offset `y * w + x` of a grid cell lies inside the buffer |
| Layout.IdxCoords | cpp/screen_capture.cpp:170-182 | the cell's coordinates are recovered from its linear offset, so distinct cells have distinct offsets |
| Layout.ScaledBelow | cpp/screen_capture.cpp:175-176 | the scaled source coordinate of a reduced cell lies inside the native screen |
| Layout.PixelOffsetInRange | main/deskController/deskController.cpp:221-236 | the four BGRA bytes read for a sampled pixel lie within the mapped surface |
| Layout.FilledIsFilledBuffer | cpp/screen_capture.cpp:169-186 | a buffer holding the fill's value at every cell is exactly `FilledBuffer` |
| Layout.FilledBufferCells | cpp/screen_capture.cpp:169-186 | a filled cell is the sampled native pixel inside the border band and black in the interior, and always a 24-bit colour |
| BorderFill.FillKeep | cpp/screen_capture.cpp:169-186 | the capture module's single pass over every cell leaves the buffer equal to `FilledBuffer` |
| BorderFill.FillRowSpan | main/deskController/deskController.cpp:221-237 | filling a span of band cells writes the sampled colour there and changes nothing else |
| BorderFill.FillRows | main/deskController/deskController.cpp:221-255 | filling the top or bottom rows gives those rows their border values and leaves every other row unchanged |
| BorderFill.FillSideRow | main/deskController/deskController.cpp:258-286 | one middle row gets its left and right band samples and keeps its zeroed interior |
| BorderFill.FillSides | main/deskController/deskController.cpp:258-286 | the middle rows get their border values and the top and bottom rows are unchanged |
| BorderFill.FillBands | main/deskController/deskController.cpp:216-286 | zeroing then filling the top, bottom and side bands also yields exactly `FilledBuffer`, the same buffer as the capture module's single pass |
| Zones.SplitStep | main/deskController/deskController.cpp:322-348 | consecutive zone boundaries are `size / n` or `size / n + 1` apart, so zones are nearly equal |
| Zones.SplitMonotone | main/deskController/deskController.cpp:322-348 | zone boundaries never decrease along an edge |
| Zones.SplitEnds | main/deskController/deskController.cpp:322-348 | the first boundary is 0 and the last is the full edge length |
| Zones.SplitFind | cpp/screen_capture.cpp:193-213 | every coordinate of an edge falls in exactly one zone |
| Zones.SlotEdge | main/deskController/deskController.cpp:398-401 | every slot of the colour vector belongs to one edge at one position, at that edge's offset |
| Zones.SlotsAreLeds | main/deskController/deskController.cpp:398-401 | the edge offsets place the four edges one after another, covering the vector without overlap |
| Zones.DeskZoneInBand | main/deskController/deskController.cpp:322-348 | every cell of a desk zone lies in the grid and in the border band |
| Zones.CaptureZoneInBand | cpp/screen_capture.cpp:193-279 | every cell of a capture zone lies in the grid and in the border band |
| Zones.BottomMirrorsTop | main/deskController/deskController.cpp:329-333 | column `x` lies in bottom zone `i` exactly when its mirror column `w - 1 - x` lies in top zone `i` |
| Zones.LeftMirrorsRight | main/deskController/deskController.cpp:343-347 | row `y` lies in left zone `i` exactly when its mirror row `h - 1 - y` lies in right zone `i` |
| Zones.TopBottomTile | main/deskController/deskController.cpp:322-334 | each column of the grid lies in exactly one top zone and exactly one bottom zone |
| Zones.RightLeftTile | main/deskController/deskController.cpp:336-348 | each row of the grid lies in exactly one right zone and exactly one left zone |
| Zones.DeskRingContinuous | main/deskController/deskController.cpp:322-348 | the desk zones run clockwise around the screen: top from the left corner, right from the top, bottom from the right corner, left from the bottom |
| Zones.CaptureRingBreaks | cpp/screen_capture.cpp:237-279 | on a concrete 2x2 grid, the capture module's first bottom and first left LEDs miss the corners that end the previous edge |
| Zones.CaptureReversesBottomLeft | cpp/screen_capture.cpp:237-279 | when the edge divides evenly, the capture module's bottom and left zones are the desk's in reverse order |
| Zones.EvenSplit | main/deskController/deskController.cpp:294-295 | on an evenly divisible edge, every zone is exactly `size / n` wide |
| Zones.PrecomputeZones | main/deskController/deskController.cpp:315-348 | the four precomputed zone arrays hold, slot by slot, the desk zone of that LED |
| ZoneAverage.ColumnsEqualRows | cpp/screen_capture.cpp:199-207 | summing a rectangle column by column gives the same totals as row by row |
| ZoneAverage.RectBelow | main/deskController/deskController.cpp:370-383 | a channel total is at most 255 times the pixel count |
| ZoneAverage.ZoneSum | main/deskController/deskController.cpp:370-383 | the sums of a zone, clipped to the grid, are bounded by 255 per counted pixel |
| ZoneAverage.ZoneColor | main/deskController/deskController.cpp:385-392 | a zone's colour is a 24-bit colour, black when the zone counts no pixel |
| ZoneAverage.ZoneColorChannels | main/deskController/deskController.cpp:385-392 | each channel of a non-empty zone's colour is that channel's sum divided by the pixel count |
| ZoneAverage.UniformZone | main/deskController/deskController.cpp:355-394 | a zone whose pixels all show one colour averages to exactly that colour |
| ZoneAverage.DeskColors | main/deskController/deskController.cpp:304-413 | the desk colour vector has one slot per LED, `2 * ledX + 2 * ledY` |
| ZoneAverage.CaptureColors | cpp/screen_capture.cpp:189-279 | the capture colour vector has one slot per LED |
| ZoneAverage.ModulesAgree | cpp/screen_capture.cpp:193-279 | both modules give the same top and right edges; their bottom and left edges are mirror images when the edges divide evenly |
| ZoneAverage.BottomReversed | cpp/screen_capture.cpp:237-257 | capture bottom slot `k` holds the desk colour of the bottom LED at the mirrored position |
| ZoneAverage.LeftReversed | cpp/screen_capture.cpp:259-279 | capture left slot `k` holds the desk colour of the left LED at the mirrored position |
| ZoneAverage.SumZoneByRows | main/deskController/deskController.cpp:365-384 | the desk module's row-major loop computes the zone sums over the zone clipped to the grid |
| ZoneAverage.SumRow | main/deskController/deskController.cpp:372-383 | one row of that loop adds that row's channel sums and its pixel count |
| ZoneAverage.SumZoneByColumns | cpp/screen_capture.cpp:199-207 | the capture module's column-major loop computes the same zone sums |
| ZoneAverage.ColumnsMatchZone | cpp/screen_capture.cpp:199-207 | the column totals of a zone are its zone sums |
| ZoneAverage.CalcZoneAverage | main/deskController/deskController.cpp:355-394 | each zone's averaged colour is stored at its slot, and no other slot changes |
| ZoneAverage.ZoneBlock | main/deskController/deskController.cpp:398-401 | averaging one edge at its offset extends the prefix of correct slots by that edge |
| ZoneAverage.DeskTargets | main/deskController/deskController.cpp:398-413 | the desk colour of the slot at each edge's offset plus `i` is the average of that edge's zone `i` |
| ZoneAverage.AverageBlock | main/deskController/deskController.cpp:398-401 | one edge's averaging brings the vector's correct prefix up to that edge's end |
| ZoneAverage.DeskLedColors | main/deskController/deskController.cpp:294-413 | the desk module's averaging returns exactly `DeskColors` of the buffer |
| ZoneAverage.CaptureSlot | cpp/screen_capture.cpp:189-279 | the capture vector's slot on each edge is the average of that edge's capture zone |
| ZoneAverage.StoreAverage | cpp/screen_capture.cpp:208-212 | storing a zone's colour at the next slot extends the correct prefix by one |
| ZoneAverage.CaptureTopEdge | cpp/screen_capture.cpp:193-213 | after the top loop, the first `ledX` slots are correct |
| ZoneAverage.CaptureRightEdge | cpp/screen_capture.cpp:215-235 | after the right loop, the first `ledX + ledY` slots are correct |
| ZoneAverage.CaptureBottomEdge | cpp/screen_capture.cpp:237-257 | after the bottom loop, the first `2 * ledX + ledY` slots are correct |
| ZoneAverage.CaptureLeftEdge | cpp/screen_capture.cpp:259-279 | after the left loop, every slot is correct |
| ZoneAverage.CaptureLedColors | cpp/screen_capture.cpp:188-279 | the capture module's averaging returns exactly `CaptureColors` of the buffer |
| CaptureSession.Reduced | main/deskController/deskController.cpp:94-97 | a screen of size 0 reduces to 0 cells |
| CaptureSession.Grow | main/deskController/deskController.cpp:45-47 | growing the registry keeps every existing screen and adds only unset ones up to the requested id |
| CaptureSession.InitReportsReadiness | main/deskController/deskController.cpp:42-121 | initialisation succeeds exactly when the id is valid and either the screen was already initialised or every device step succeeded; then the screen is marked initialised; invalid arguments change nothing, and for valid ones the vector reaches the id even when the setup fails |
| CaptureSession.InitTouchesOnlyItsScreen | main/deskController/deskController.cpp:42-121 | initialising one screen leaves every other screen as it was, and any entries it appends are unset |
| CaptureSession.InitIdempotent | main/deskController/deskController.cpp:49-52 | initialising an initialised screen again changes nothing and succeeds |
| CaptureSession.InitPreservesValid | main/deskController/deskController.cpp:94-118 | an initialised screen always has a pixel buffer of `reducedWidth * reducedHeight` cells |
| CaptureSession.ScreenRegistry.constructor | main/deskController/deskController.cpp:27-40 | the registry starts empty |
| CaptureSession.ScreenRegistry.InitializeScreen | main/deskController/deskController.cpp:42-121 | the registry and the result are those of one initialisation step |
| CaptureSession.ScreenRegistry.AcquireFailed | main/deskController/deskController.cpp:151-161 | a lost-access failure marks the screen uninitialised; any other failure leaves the registry unchanged |
| CaptureSession.ScreenRegistry.CaptureFrame | main/deskController/deskController.cpp:197-413 | a mapped frame leaves the screen's buffer equal to `FilledBuffer` and returns the desk or capture colour vector of it |
| CaptureSession.ScreenRegistry.DeskGetScreenPixels | main/deskController/deskController.cpp:128-454 | the desk module returns colours exactly when initialisation succeeded and the frame was mapped, and they are `DeskColors` of the filled buffer; the new registry is the one initialisation left, with that screen's buffer refilled from the frame when it was mapped, the screen marked uninitialised on lost access, and nothing else changed when initialisation or any other grab step failed |
| CaptureSession.ScreenRegistry.CaptureGetScreenPixels | cpp/screen_capture.cpp:122-294 | the capture module returns colours under the same condition, and they are `CaptureColors` of the filled buffer; the new registry is the one initialisation left, with that screen's buffer refilled from the frame when it was mapped and unchanged after a failed initialisation or grab, since no acquisition error resets the screen |
| TemporalDiff.Changes | main/deskController/deskController.cpp:524-540 | the change mask has one entry per LED |
| TemporalDiff.RepeatIsQuiet | main/deskController/deskController.cpp:532-539 | repeating a frame marks nothing as changed |
| TemporalDiff.ChangesSuffice | main/deskController/deskController.cpp:541-585 | patching the previous frame with the changed LEDs reproduces the new frame, so sending only changes loses nothing |
| TemporalDiff.DiffState.constructor | main/deskController/deskController.cpp:21 | there is no previous frame at start |
| TemporalDiff.DiffState.Update | main/deskController/deskController.cpp:524-542 | returns the change mask against the previous frame and whether anything changed, and stores the new frame |
| TemporalDiff.Resize | main/deskController/deskController.cpp:526-529 | resizing keeps the common prefix and zero-fills the rest |
| LedProtocol.Stuff | main/deskController/deskController.cpp:561-575 | a stuffed byte is never the marker; only 0xFF changes, and it becomes 0xFE |
| LedProtocol.Record | main/deskController/deskController.cpp:551-575 | a record is six bytes with the marker first and nowhere else |
| LedProtocol.IndexBytes | main/deskController/deskController.cpp:552-553 | the low and high index bytes recompose any index below 65536 |
| LedProtocol.RecordRoundTrip | cpp/screen_capture.cpp:496-520 | a record decodes to its index and colour when none of their bytes is 0xFF |
| LedProtocol.RecordChannels | cpp/screen_capture.cpp:500-520 | a full-intensity channel arrives as 254 and the other channels arrive intact |
| LedProtocol.StuffedIndexAliases | cpp/screen_capture.cpp:497-507 | an LED whose low index byte is 0xFF is decoded as the LED just before it |
| LedProtocol.Remap | main/deskController/deskController.cpp:549 | the rotated index is a valid LED index |
| LedProtocol.UnmapRemap | main/deskController/deskController.cpp:549 | undoing the rotation gives back the logical LED |
| LedProtocol.RemapUnmap | main/deskController/deskController.cpp:549 | every physical LED is reached by the rotation |
| LedProtocol.RemapBijective | main/deskController/deskController.cpp:549 | the rotation is a bijection on the LED indices |
| LedProtocol.RemapInjective | main/deskController/deskController.cpp:549 | two logical LEDs never address the same physical LED |
| LedProtocol.ConcatMarkers | main/deskController/deskController.cpp:545-585 | in a run of records, the marker appears exactly at each record's start |
| LedProtocol.FrameMarkers | main/deskController/deskController.cpp:545-591 | a frame is six bytes per record plus the sentinel, with markers exactly at record starts and in the sentinel |
| LedProtocol.ChangedCounts | main/deskController/deskController.cpp:545-584 | one record is sent per changed LED, and at most one error is counted per changed LED |
| LedProtocol.ChangedWellFormed | main/deskController/deskController.cpp:545-575 | every record sent is well formed |
| LedProtocol.TransmitFrame | main/deskController/deskController.cpp:545-596 | the bytes passed to `WriteFile` (failed and short writes included) are the frame of the changed LEDs' records followed by the sentinel; the error count grows by the failed or short record writes, the failed sentinel and the failed flush |
| LedProtocol.RecordOfBuffer | main/deskController/deskController.cpp:551-575 | the buffer built and stuffed in place is the record of that LED |
| LedProtocol.StuffPayload | main/deskController/deskController.cpp:561-575 | the marker byte is kept and each payload byte is stuffed |
| LedProtocol.DeskFrame | main/deskController/deskController.cpp:497-596 | a failed capture passes nothing to `WriteFile`, counts no error and keeps the previous frame; otherwise the corrected frame is stored, the records of exactly its changes and the sentinel are passed to `WriteFile`, and the error count grows by the failed or short writes among those records, the failed sentinel and the failed flush |
| LedProtocol.StreamRecords | cpp/screen_capture.cpp:494-534 | the capture module's record loop never by itself leaves the main loop |
| LedProtocol.FailureClosesPort | cpp/screen_capture.cpp:522-528 | after a failed record write the port is closed |
| LedProtocol.FailedCaptureFrame | cpp/screen_capture.cpp:494-544 | a failed capture writes no record but still passes the sentinel to `WriteFile`; a failed sentinel write is counted and ends the main loop |
| LedProtocol.RecordFailureLeavesMain | cpp/screen_capture.cpp:522-544 | as written, a single failed record write ends the program's main loop |
| LedProtocol.ReconnectingKeepsRunning | cpp/screen_capture.cpp:536-544 | if a closed port is left for the reconnection step, no frame ends the main loop; when every record write succeeded the frame passes the same bytes to `WriteFile` as written, and after a failed record write the sentinel is not passed |
| LedProtocol.StreamFrameLoop | cpp/screen_capture.cpp:494-544 | the capture module's loop passes the same bytes to `WriteFile` (the failed record and the sentinel included), counts the same errors and leaves the port in the same state as the as-written frame function |
| Bitmap.Padding | cpp/screen_capture.cpp:310 | row padding is below 4 bytes and makes each row a multiple of 4 bytes |
| Bitmap.LE32RoundTrip | cpp/screen_capture.cpp:331-334 | a stored 32-bit header field reads back as its value modulo 2^32 |
| Bitmap.PatchAt | cpp/screen_capture.cpp:331-334 | a stored field occupies its four bytes |
| Bitmap.HeaderWithConstants | cpp/screen_capture.cpp:313-329 | the template header's constant fields survive the four size stores |
| Bitmap.HeaderWithSizes | cpp/screen_capture.cpp:331-334 | the four size fields hold the stored values |
| Bitmap.HeaderFields | cpp/screen_capture.cpp:310-336 | the header is `BM`, file size, data offset 54, info size 40, width, height, 1 plane, 24 bits, image size |
| Bitmap.Scale | cpp/screen_capture.cpp:346-356 | a scaled coordinate stays below the LED count |
| Bitmap.BmpSlotInRange | cpp/screen_capture.cpp:345-359 | every pixel of the image reads a slot of the LED vector, or none for the black centre |
| Bitmap.FullVectorSuffices | cpp/screen_capture.cpp:345-359 | a vector holding all `2 * ledX + 2 * ledY` colours covers every read |
| Bitmap.RowPixels | cpp/screen_capture.cpp:343-363 | a row's pixel part holds three bytes per pixel |
| Bitmap.RowBytes | cpp/screen_capture.cpp:338-367 | a written row is exactly one padded row long |
| Bitmap.Rows | cpp/screen_capture.cpp:342-368 | the image has one padded row per image line |
| Bitmap.RowPixelsAt | cpp/screen_capture.cpp:360-362 | pixel `x` of a row is stored as its blue, green, red bytes |
| Bitmap.StackLength | cpp/screen_capture.cpp:342-368 | the stacked rows take one row size per row |
| Bitmap.StackAt | cpp/screen_capture.cpp:342-368 | rows are stored bottom-up: image line `y` sits at row slot `h - 1 - y` |
| Bitmap.BmpFileLength | cpp/screen_capture.cpp:310-368 | the file is exactly the size its header announces |
| Bitmap.PixelInFile | cpp/screen_capture.cpp:336-368 | the three bytes of pixel (x, y) in the file are the colour the preview maps there |
| Bitmap.PixelInRows | cpp/screen_capture.cpp:342-368 | the same, within the pixel data |
| Bitmap.RowBytesAt | cpp/screen_capture.cpp:343-363 | the same, within one row |
| Bitmap.CentreIsBlack | cpp/screen_capture.cpp:357-358 | pixels away from the border of the preview are black |
| Bitmap.SaveToBmp | cpp/screen_capture.cpp:303-372 | when the file can be created it receives exactly the bitmap file; otherwise nothing is written |
| Bitmap.WriteRows | cpp/screen_capture.cpp:342-368 | the row loop writes the rows bottom-up |
| Bitmap.BuildHeader | cpp/screen_capture.cpp:310-334 | the header built is the bitmap header of that size |
| Bitmap.StoreSizes | cpp/screen_capture.cpp:331-334 | the four stores patch the template's size fields |
| Bitmap.Store32 | cpp/screen_capture.cpp:331-334 | one little-endian 32-bit store at a header offset |
| Bitmap.FillRow | cpp/screen_capture.cpp:343-366 | the row buffer ends up holding that row's bytes |
| Bitmap.WritePixel | cpp/screen_capture.cpp:360-362 | the pixel's blue, green, red bytes are appended at its position and earlier bytes are kept |
| Bitmap.PadRow | cpp/screen_capture.cpp:364-366 | the padding bytes are zero and the pixel bytes are kept |
| Bitmap.FailedCapturePreviewReadsNothing | cpp/screen_capture.cpp:549 | after a failed capture the preview of the 161 x 10 layout reads from a vector that holds nothing: its first pixel (0, 599) reads slot 171, and pixel (0, 0) maps to slot 0 |
| Bitmap.PreviewAfterCapture | cpp/screen_capture.cpp:549 | with the preview guarded by the capture result, a file is produced exactly when the capture succeeded, and at its announced size |
| Text.FirstNotOfSpec | cpp/screen_controller.cpp:189 | `find_first_not_of` stops at the first character outside the set |
| Text.TrimLeftSpec | cpp/screen_controller.cpp:189 | left trimming keeps a suffix, removes only set characters, and leaves no set character at the front |
| Text.EndOfLastNotOfSpec | cpp/screen_controller.cpp:189 | `find_last_not_of` finds the last character outside the set |
| Text.TrimRightSpec | cpp/screen_controller.cpp:189 | right trimming keeps a prefix, removes only set characters, and leaves no set character at the end |
| Text.TrimEnds | cpp/screen_controller.cpp:189 | a trimmed string neither starts nor ends with a set character |
| Text.FindFromSpec | cpp/screen_controller.cpp:191-211 | `find` returns the first occurrence, and `npos` only when there is none |
| Text.StartsWithIsPrefix | cpp/screen_controller.cpp:191 | `find(p) == 0` holds exactly when `p` is a prefix |
| Text.ContainsIsOccurrence | cpp/screen_controller.cpp:194 | `find(p) != npos` holds exactly when `p` occurs |
| Text.OccursAtChar | cpp/screen_controller.cpp:192 | a one-character pattern occurs exactly where that character is |
| Text.AfterColonSpec | cpp/screen_controller.cpp:192 | `substr(find(":") + 1)` is what follows the first colon, and the whole line when there is none |
| MonitorInventory.ScanLineConsistent | cpp/screen_controller.cpp:187-225 | one line keeps the parse state consistent, never forgets an id, and advances the index exactly on id lines |
| MonitorInventory.ScanLinesConsistent | cpp/screen_controller.cpp:187-225 | the whole listing keeps the state consistent, and the final index counts the id lines |
| MonitorInventory.ActiveMonitorsAreListed | cpp/screen_controller.cpp:156-228 | every monitor reported active has a recorded id, and none is empty |
| MonitorInventory.ScanAppend | cpp/screen_controller.cpp:187-225 | parsing one more line extends the parse of the listing |
| MonitorInventory.IdIndex | cpp/screen_controller.cpp:197-209 | an id line records that id with the number of id lines before it |
| MonitorInventory.StatusByte | cpp/screen_controller.cpp:245-251 | the status byte is between 1 and 4 |
| MonitorInventory.StatusByteDecodes | cpp/screen_controller.cpp:245-251 | the status byte determines both monitor flags |
| MonitorInventory.DispatchReachesTarget | cpp/screen_controller.cpp:261-276 | commands 1 to 4 bring the two monitor groups to the state each command names, and every request issued changes something |
| MonitorInventory.OtherBytesIgnored | cpp/screen_controller.cpp:261-276 | any other command byte issues no request |
| MonitorInventory.ScreenController.constructor | cpp/screen_controller.cpp:34-43 | the controller has its two monitor groups; when the listing can be read, its ids and group flags are those of a refresh from no recorded ids, and when reading throws, the caught exception leaves no ids and both groups inactive |
| MonitorInventory.ScreenController.GetActiveMonitors | cpp/screen_controller.cpp:156-228 | the active set, the recorded ids and the monitors to enable are those of parsing the listing from the ids already recorded; the group flags are kept |
| MonitorInventory.ScreenController.CheckScreenStat | cpp/screen_controller.cpp:114-138 | the recorded ids are those the listing's parse leaves, each group's flag is set exactly when one of its monitors is active in the listing, and the monitors to enable are the parse's `/enable` requests |
| MonitorInventory.ScreenController.HandleByte | cpp/screen_controller.cpp:239-276 | byte 0 refreshes the ids and flags as `CheckScreenStat` does, returns its `/enable` requests and replies with the status byte of the new flags and 0; any other byte dispatches a command, enables nothing and leaves the state unchanged |
| MonitorInventory.AnyActive | cpp/screen_controller.cpp:120-134 | the search finds a group member exactly when one is active |
| DisplayWatch.ActiveFlag | main/deskController/screenController.cpp:68-72 | an `Active` line sets the flag to 1 or 2 |
| DisplayWatch.FlagAfter | main/deskController/screenController.cpp:64-72 | the flag is 0, 1 or 2 after any prefix of the listing |
| DisplayWatch.SkipLine | main/deskController/screenController.cpp:64-91 | a line that neither marks nor stops the scan does not change its answer |
| DisplayWatch.StopLine | main/deskController/screenController.cpp:73-87 | a DISPLAY3 line read while the last `Active` line did not say "Yes" stops the scan, and no later line can mark the display |
| DisplayWatch.WatchFromMeaning | main/deskController/screenController.cpp:64-91 | from any line on, the scan answers true exactly when it was already found or some DISPLAY3 line read under the flag 1 of a last `Active: Yes` comes before every DISPLAY3 line read under the flag 2 of a last `Active` without "Yes"; DISPLAY3 lines before any `Active` line (flag 0) neither mark nor stop |
| DisplayWatch.Display3ActiveMeaning | main/deskController/screenController.cpp:32-97 | DISPLAY3 is active exactly when some DISPLAY3 line read while the last `Active` line said "Yes" comes before every DISPLAY3 line read while it said anything else; an unreadable listing counts as inactive |
| DisplayWatch.DeskScreenController.constructor | main/deskController/screenController.cpp:16-21 | the monitor starts inactive |
| DisplayWatch.DeskScreenController.CheckStatusMonitor | main/deskController/screenController.cpp:32-97 | the stored flag is whether DISPLAY3 is active in the listing |
| DisplayWatch.DeskScreenController.HandleByte | main/deskController/screenController.cpp:118-142 | byte 0 refreshes the flag and replies 1 when active and 4 otherwise; bytes 1 and 2 request the matching display change; the flag is otherwise kept |
| DisplayWatch.Reaction | main/deskController/screenController.cpp:137-142 | a request is issued only when it would change the display state |
| DisplayWatch.ReactionReachesState | main/deskController/screenController.cpp:137-142 | byte 1 leaves DISPLAY3 off, byte 2 leaves it on, and any other byte requests nothing |

## Left out

- Direct3D and DXGI calls (device creation, duplication, frame acquisition, texture copy and mapping) are not modelled. Their outcomes are parameters (`InitOutcome`, `Grab`), and a mapped frame is given as its bytes and row pitch.
- The four averaging threads of the desk module are modelled as one sequential pass. They write disjoint slots, so the result is the same.
- Float arithmetic is modelled as exact floors: `CaptureSession.Reduced`, the zone boundaries in `Zones.Split`, the sample scaling in `Layout.SrcX` and `Layout.SrcY`, and `Bitmap.Scale`. Rounding of `float` products can differ by one at exact boundaries.
- The gamma correction uses `pow` on floats. `LedProtocol.DeskFrame` takes it as a parameter `correct`.
- CaptureSession.ScreenRegistry.CaptureFrame requires the band to fit the grid (`keep <= reducedWidth` and `keep <= reducedHeight`). The source computes `reducedWidth - keepPixels` as an unsigned value, which wraps when the band is thicker than the grid; that case is not modelled.
- BorderFill.FillBands, BorderFill.FillKeep, ZoneAverage.DeskLedColors and ZoneAverage.CaptureLedColors carry the same band-fits requirement, for the same reason.
- ZoneAverage.SumZoneByRows: the desk module sums into 32-bit `int`s. The model uses unbounded sums, so overflow on zones of more than about 8 million pixels is not modelled.
- Bitmap.BmpSlotInRange requires at least one LED per edge. The source divides by the LED counts in `float`, which yields infinities for a zero count.
- Bitmap.LE32RoundTrip and Bitmap.HeaderFields model the 32-bit header fields modulo 2^32. Negative widths and heights are out of range of the `nat` parameters.
- Serial port discovery and the handshake are not part of this model: `findSerialPort`, the port scan in the capture module's `main` (cpp/screen_capture.cpp:407-486) and in the desk module's `main`. The same goes for opening, configuring and closing ports.
- CaptureSession.ScreenRegistry.CaptureGetScreenPixels takes the screen id as the integer that `atoi(screenIdStr)` would parse (cpp/screen_capture.cpp:129), not as text. The capture module's `main` looks the id up once as `monitorsId["HKM3750"]`, sleeping 200 ms and retrying while it is missing (cpp/screen_capture.cpp:392-405). It passes the decimal text of that id, so `atoi` gives back the same id. The lookup and the text conversion are not modelled.
- The main loops themselves are left out: the run flag, sleeps, the `monitor_active` gate, FPS and timing prints. Each module's per-frame body is modelled (`LedProtocol.DeskFrame`, `LedProtocol.StreamFrameLoop`).
- The desk module's `errorCount` reset and any consumer of it are not modelled. The counter is returned as a value.
- The capture module only logs a failed flush. It does not count it, so its flush outcome is not a parameter.
- MonitorInventory.ScreenController.constructor: the `/enable` requests issued by the parse during construction are not returned, because a Dafny constructor has no results. `CheckScreenStat` and `HandleByte` return them for every later refresh.
- MonitorInventory.ScreenController.HandleByte takes the listing's lines. An unreadable listing makes `getActiveMonitors` throw inside the `run` thread, which is not modelled.
- Running external tools with `system()` and reading their UTF-16 output files is not modelled. The listing is passed as its lines, and the enable and disable requests are returned as values (`MonitorInventory.Request`, `DisplayWatch.Reaction`).
- The desk module's `run` thread and the capture module's `run` thread (their read loops, the serial reads and the destructors) are not modelled. One received byte is handled per call (`HandleByte`).
- The `freq` value parsed in `check_status_monitor` is never used by the source and is not modelled.
- `jniInt.cpp` and the serial helper are not part of this model.
- Freeing the `PixelResult` array and every other memory release are not modelled.

The two modules walk the bottom and left edges in opposite orders, and both orders are modelled (see Findings). Stuffing replaces `FF` by `FE` in the two index bytes as well as in the three colour bytes, so two LED indices can share a record; `LedProtocol.StuffedIndexAliases` states this.

## Findings

| source | as written | input that shows it | evidently intended | confidence | as-written member | corrected member |
|---|---|---|---|---|---|---|
| cpp/screen_capture.cpp:237-279 | The comments say the bottom edge runs right to left and the left edge bottom to top. The loops run left to right and top to bottom, so the LED ring jumps at the bottom-right and bottom-left corners. | A 2x2 grid, 2 LEDs per edge, band 1: the first bottom LED covers x in [0, 1) instead of the corner cell x = 1. | A continuous clockwise ring, as the desk module computes it. The rest of the model uses the desk zones for the desk pipeline. | not executed | Zones.CaptureRingBreaks | Zones.DeskRingContinuous |
| cpp/screen_capture.cpp:522-544 | A failed record write closes the port and leaves the record loop. The sentinel write on the closed port then fails, and its `break` leaves the main loop, ending the program. | Any frame whose first record write fails. | A failed write should hand the closed port back to the reconnection branch at the top of the loop. | not executed | LedProtocol.RecordFailureLeavesMain | LedProtocol.ReconnectingKeepsRunning |
| cpp/screen_capture.cpp:549 | `saveToBMP` runs after every frame, including a failed capture whose pixel array is null and whose size is -1, and it reads LED slots from that null array. | A failed capture with the 161 x 10 layout at 600 x 600: the first pixel written, (0, 599), reads slot 171 of an empty vector. | The preview is written only for a successful capture. | not executed | Bitmap.FailedCapturePreviewReadsNothing | Bitmap.PreviewAfterCapture |
