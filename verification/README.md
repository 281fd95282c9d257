# Verification model of the e-ink app firmware

The firmware runs small apps on an e-ink device: it paints display lists, stores apps and books, moves
between apps, and talks to a host over a serial protocol and BLE. This project models the parts that do not
depend on the hardware, and two of the Python tools on the other end of the wire, and proves what they are
for. Code that updates structures in place is a class with those fields, or a method over an array, proved
against a function on values; the theorems are about those functions, over every input or every run.

| file | models |
|---|---|
| `Bytes`, `ShiftRegister`, `Crc32`, `CrcPolynomial` | little-endian words; shift registers over an abstract word; the frame checksum (reflected as in section 8 of RFC 1952) and the polynomial division it is (section 3.2.9 of IEEE 802.3) |
| `ProtocolFrame`, `FieldCodec` | the SQDP frame and its nested tagged fields, host and firmware side |
| `SerialTransport`, `StreamFraming` | the byte-wise resynchronising receiver, and what it does to a whole stream |
| `PackBits` | the plane compressor of the book tool and the firmware's chunked reader |
| `PanelGeometry`, `Raster`, `TextRaster`, `TextMeaning`, `FrameText`, `DisplayMeaning` | rotation and mirroring, the framebuffer and scanline painters, what a text and a display list show |
| `DirtyWindow`, `TextWindow`, `DirtySoundness` | the partial-refresh window, and exactly when the panel may refresh only that |
| `FileTree`, `StorageFormat`, `FormatEquivalence` | the format job that deletes one node a step, against the recursive walk |
| `Lifecycle`, `LifecycleRuns`, `LifecycleRequests`, `PlannedResume` | launch, exit, return, sleep; the return stack and the events delivered; what becomes of requests; the record kept over a planned sleep |
| `DisplayFlush` | the flush queue between the runtime and its worker, over all interleavings |
| `ContentInstall`, `BleTransfer`, `BleRouting` | chunked uploads with a running checksum; framed BLE transfers, their hand-off and their routing by file name |
| `SqbcHandleCache` | the one cached program file |
| `ButtonDebounce`, `InputQueue` | the button debouncer and the queue its events go to |

## Where a law fails

Each of these is a lemma with the failing family, next to the condition under which the law holds.

- Framing: sizes have 32 bits on the device, so header plus declared length may wrap. A byte that completes a header
  does what the stream's reading asks exactly when the declared length is below 2^32 - 20
  (`StreamFraming.HeaderStepExact`). The one length that wraps to zero stalls the receiver until its buffer is full, and
  it and one more byte are lost (`StreamFraming.WrappedLengthStalls`); the larger ones hand over the header
  (`StreamFraming.WrappedLengthDelivers`). `StreamFraming.TransportIsDeviceScan` covers every stream.
- Text: the two text painters agree on a text that does not wrap exactly if it has a colour or is not painted
  (`FrameText.TextPaintersAgree`): without one the scanline painter takes black, the framebuffer painter white. A text
  that starts 16 bits or more to the right is left out by the one and painted by the other (`FrameText.FarTextWraps`).
- Dirty window: the order of operations is not looked at (`DirtySoundness.OrderIgnored`); outside the window the images
  agree exactly where painting the shared operations in the two orders agrees (`DirtySoundness.OutsideWindowExact`).
  Text with a negative origin is painted inside the panel but clipped by the window. A text that only one list has is
  always seen exactly if its clipped rectangle reaches every row of its ink and every byte of eight columns that the ink
  touches (`TextWindow.Held`, `DirtySoundness.TextConditionExact`); otherwise some pixel is missed
  (`DirtySoundness.NegativeOriginMissed`). Texts that both lists have need nothing.
- Content upload: a write that stops part-way is not undone, so a repeated chunk commits a file nobody sent
  (`ContentInstall.ShortWriteSpoilsUpload`); a successful commit stores the accepted bytes exactly when no write
  stopped part-way (`ContentInstall.CommitOutcome`). The BLE transfer seeks before it writes and is not affected.
- BLE hand-off: a second transfer to the same profile opens the staging path of the file still waiting, which empties it,
  and an abort then removes it (`BleTransfer.SecondTransferTakesWaitingFile`). A call spares the content of a file the
  session does not own exactly if it neither cleans it up nor opens it anew (`BleTransfer.StepSparesExactly`).
- BLE events: a completing transfer overwrites the event before it. A published event is delivered exactly if the poll
  loop drains it before another transfer completes or somebody cleans up (`BleTransfer.DeliveredExactly`).
- Handle cache: session numbers start over after the largest 32-bit size. The cache alone does not rule out that a
  storage meets the number its previous file is still held under: a number may be given exactly if that is not so
  (`SqbcHandleCache.LegalIsExact`), and a caller that gave a storage another path without releasing it could break this
  (`SqbcHandleCache.StaleAfterFullCycle`). The firmware has no such caller: only the temporary storage is blanked without
  a release (`device_protocol.c:1812`), and it always gets the same path (`app_store.c:893-904`); all others are
  released when they are prepared (`app_store.c:511`, `app_store.c:543`). For its callers the cache is invisible in
  every run that replaces no open file, however often the numbers come round (`SqbcHandleCache.CallersReadTheirFile`).
  Under a new number a storage reads its file even if that was replaced while open
  (`SqbcHandleCache.ReopenedReadRefines`).
- Lifecycle: a launch of another app than main, with no current app and a full return stack, is left by no poll
  (`LifecycleRuns.StepLowersRank`). Under every stack limit it is reached by launches and polls and the forgetting of a
  temporary app (`LifecycleRuns.StuckIsReached`), and `LifecycleRuns.StuckUntilFreed` names exactly the calls that lead
  out of it.
- Planned sleep: the record has no temporary flags, so the stack comes back unchanged exactly when nothing on it was
  temporary (`PlannedResume.WakeRebuildsRoute`).
- Format: both ways of formatting succeed exactly when no file is in the place of one of the four directories
  (`FormatEquivalence.RunJob`, `FormatEquivalence.FormatByDeleteWalk`).

## Model

| member | source | states |
|---|---|---|
| Crc32.ShiftOnce | firmware/zephyr/src/protocol.c:20-21 | one turn of the bit loop is the linear shift step |
| Crc32.ShiftByte | firmware/zephyr/src/protocol.c:18-22 | the inner loop is eight shift steps |
| Crc32.UpdateRunning | firmware/zephyr/src/device_protocol.c:560-570 | the running update is the byte-wise register over the data |
| Crc32.Compute | firmware/zephyr/src/protocol.c:13-26 | the one-shot checksum is the complemented register from all ones; CrcPolynomial.ChecksumIsRemainder and CrcPolynomial.CheckValue say which number that is |
| Crc32.StepLinear | firmware/zephyr/src/protocol.c:20-21 | a shift distributes over exclusive-or, for every pair of registers |
| Crc32.StepInjective | firmware/zephyr/src/protocol.c:20-21 | a shift never merges two registers |
| Crc32.UpdateIsBitSerial | firmware/zephyr/src/protocol.c:13-26 | the byte-wise register equals the bit-serial register of the standard, on every message |
| Crc32.UpdateConcat | firmware/zephyr/src/device_protocol.c:1298 | feeding a message in two pieces is feeding it whole |
| ShiftRegister.LoadedWord | firmware/zephyr/src/protocol.c:18-22 | loading a word and shifting it out is feeding its bits one at a time |
| ShiftRegister.BurstDetected | firmware/zephyr/src/protocol.c:13-26 | any linear injective register tells apart messages that differ within one register width of bits |
| Crc32.BurstChangesChecksum | firmware/zephyr/src/protocol.c:13-26 | messages of any equal length that differ only within 32 consecutive bits have different checksums |
| Crc32.FourByteBurstChangesChecksum | firmware/zephyr/src/protocol.c:13-26 | so have messages that differ only within four consecutive bytes |
| CrcPolynomial.RemainderExact | firmware/zephyr/src/protocol.c:13-26 | long division by the generator, written out by its exponents, finds r for every multiple of the generator plus r |
| CrcPolynomial.Divided | firmware/zephyr/src/protocol.c:13-26 | every polynomial of at least 32 coefficients is a multiple of the generator plus its remainder |
| CrcPolynomial.PolynomialIsGenerator | firmware/zephyr/src/protocol.c:22 | the constant of the code holds the generator's coefficients below x^32, lowest bit first |
| CrcPolynomial.ChecksumIsRemainder | firmware/zephyr/src/protocol.c:13-26 | for every message the inverted checksum, lowest bit first, is the remainder of the message bits in transmission order times x^32, the first 32 coefficients inverted |
| CrcPolynomial.CheckValue | firmware/zephyr/src/protocol.c:13-26 | the checksum of the nine digits from 1 to 9 is 0xcbf43926 |
| ProtocolFrame.EncodeFrame | scripts/c3_supermini_serial.py:135-142 | the host writes the frame layout exactly when sequence and payload length fit 32 bits |
| ProtocolFrame.DecodeFrame | firmware/zephyr/src/protocol.c:28-60 | the firmware's checks in order, with its 32-bit expected length, which never matches once it wraps |
| ProtocolFrame.DecodeWire | firmware/zephyr/src/protocol.c:28-60 | every layout of a sendable frame decodes to that frame |
| ProtocolFrame.WireLayout | scripts/c3_supermini_serial.py:135-142 | every byte of a frame by its offset: magic, kind, opcode, status, zero, sequence, length and checksum low byte first, payload from offset 20 |
| ProtocolFrame.RejectedFor | firmware/zephyr/src/protocol.c:28-46 | a rejection names the first thing that is wrong: fewer than 20 bytes, another magic, another length than declared |
| ProtocolFrame.DecodeCharacterised | firmware/zephyr/src/protocol.c:28-60 | the decoder accepts exactly the layouts of sendable frames, whatever the reserved byte |
| ProtocolFrame.ReencodeAccepted | scripts/c3_supermini_serial.py:135-167 | re-encoding an accepted frame gives its bytes back except for the reserved byte |
| ProtocolFrame.CorruptedPayloadRejected | firmware/zephyr/src/protocol.c:44-49 | no frame is accepted whose payload was changed within four consecutive bytes |
| FieldCodec.EncodeFieldList | scripts/c3_supermini_serial.py:392-415 | the encoding loop yields the fields one after another, or fails where the tool raises |
| FieldCodec.DecodeFieldList | scripts/c3_supermini_serial.py:416-431 | the decoding loop yields the recursive reading of the payload, with its first error |
| FieldCodec.DecodeFieldValue | scripts/c3_supermini_serial.py:434-455 | a value by its type, records recursively |
| FieldCodec.FieldLayout | scripts/c3_supermini_serial.py:392-415 | a field is its tag, the number of its type, its length low byte first, its value |
| FieldCodec.ValueLayout | scripts/c3_supermini_serial.py:392-415 | the bytes of each kind of value, numbers as eight bytes low byte first in two's complement |
| FieldCodec.ValueRefused | scripts/c3_supermini_serial.py:392-415 | a value is refused exactly if it is no text, its number is out of range, or a field of it is refused |
| FieldCodec.ValueErrors | scripts/c3_supermini_serial.py:434-455 | what a value of each type is refused for when it is read |
| FieldCodec.FirstTruncated | scripts/c3_supermini_serial.py:416-431 | a payload too short for a header, or for the length it announces, is refused for that |
| FieldCodec.FieldsRoundTrip | scripts/c3_supermini_serial.py:392-455 | decoding an encoded list gives the list back, however deep records nest |
| FieldCodec.AcceptedPayloadReencodes | scripts/c3_supermini_serial.py:392-455 | every accepted payload re-encodes to exactly the same bytes |
| FieldCodec.CodecIsBijective | scripts/c3_supermini_serial.py:392-455 | a list encodes to a payload exactly when the payload decodes to the list |
| FieldCodec.MessageRoundTrip | scripts/c3_supermini_serial.py:135-167 | at frame level, decoding undoes encoding |
| SerialTransport.Transport.ResyncToMagicPrefix | firmware/zephyr/src/serial_transport.c:13-28 | the buffer becomes its longest suffix compatible with the magic |
| SerialTransport.Transport.Init | firmware/zephyr/src/serial_transport.c:30-34 | an empty buffer |
| SerialTransport.Transport.PushByte | firmware/zephyr/src/serial_transport.c:36-74 | buffer, events and result after a byte, with the 32-bit expected length, the full-buffer guard and the handler's own result; the buffer never overruns |
| SerialTransport.ToldExactly | firmware/zephyr/src/serial_transport.c:42-73 | the caller learns of a refused length as -3, of a handled frame as 1, otherwise of the handler's own error, and of nothing as 0 |
| SerialTransport.ResyncIsLongest | firmware/zephyr/src/serial_transport.c:13-28 | what resynchronising drops could not have begun a frame |
| SerialTransport.HeaderMeansNoShift | firmware/zephyr/src/serial_transport.c:36-74 | once the magic is in, resynchronising drops no byte |
| StreamFraming.TransportIsScan | firmware/zephyr/src/serial_transport.c:13-74 | on every byte stream whose headers' lengths do not wrap the receiver does what a scan for magic and declared length does |
| StreamFraming.TransportIsDeviceScan | firmware/zephyr/src/serial_transport.c:36-74 | on every byte stream, wrapping lengths included, the receiver is the scan with the stall and the short hand-over |
| StreamFraming.HeaderStepExact | firmware/zephyr/src/serial_transport.c:48-58 | a byte that completes a header is the scan's step exactly when the declared length is below 2^32 - 20 |
| StreamFraming.WrappedLengthStalls | firmware/zephyr/src/serial_transport.c:40-62 | under the length that wraps to zero nothing comes out, whatever follows, until the full buffer is lost with one more byte, whatever its size |
| StreamFraming.WrappedLengthDelivers | firmware/zephyr/src/serial_transport.c:48-66 | under the larger lengths the header alone is handed over where it should be refused |
| StreamFraming.QuietBuffer | firmware/zephyr/src/serial_transport.c:13-28 | while nothing has happened the buffer is the longest suffix of the stream compatible with the magic |
| StreamFraming.FramesRecovered | firmware/zephyr/src/serial_transport.c:13-74 | frames with magic-free gaps between them come out once each, in order, with exactly their bytes; no length in such a stream wraps |
| StreamFraming.HostToFirmware | firmware/zephyr/src/serial_transport.c:36-74 | end to end, each frame a host encodes is delivered and decodes to what was sent |
| PackBits.SkipRun | scripts/generate-test-binbook-480.py:204-208 | the length of the leading run, at most 128 |
| PackBits.SkipLiterals | scripts/generate-test-binbook-480.py:212-219 | the literal block ends at the end, before a pair, or when full |
| PackBits.Encode | scripts/generate-test-binbook-480.py:200-222 | the encoding loop computes the block-wise compression |
| PackBits.RunIsMaximal | scripts/generate-test-binbook-480.py:204-208 | a run is of equal bytes and as long as it can be: 128, or to the end, or up to another byte |
| PackBits.ControlBytes | scripts/generate-test-binbook-480.py:209-220 | a run of n is announced by n + 127, n literals by n - 1 |
| PackBits.RepeatedSize | scripts/generate-test-binbook-480.py:200-222 | one byte repeated takes two bytes for every 128, or part of 128 |
| PackBits.LiteralStops | scripts/generate-test-binbook-480.py:213-219 | a literal block shorter than 128 is the last one or is followed by a run of at least two, and it holds no pair of equal neighbours |
| PackBits.LiteralsMean | firmware/zephyr/src/ssd1677_gdeq0426t82_display.c:684-713 | what a literal block means to the reader, for every control byte below 128 and whatever follows, cut short or not |
| PackBits.RunMeans | firmware/zephyr/src/ssd1677_gdeq0426t82_display.c:684-713 | what a run block means to the reader, for every control byte from 128 on |
| PackBits.PlaneReader.ReadRaw | firmware/zephyr/src/ssd1677_gdeq0426t82_display.c:657-682 | takes the next compressed byte whatever chunk sizes the file system returns, or fails at the plane's end |
| PackBits.PlaneReader.NextByte | firmware/zephyr/src/ssd1677_gdeq0426t82_display.c:684-713 | one step of the decompressed stream, or its failure |
| PackBits.PlaneReader.ReadPlane | firmware/zephyr/src/ssd1677_gdeq0426t82_display.c:1227-1275 | a plane is read exactly when the stream holds that many bytes, and is its prefix |
| PackBits.RoundTrip | scripts/generate-test-binbook-480.py:200-222 | for every byte string, decompressing the compressed string gives it back, then fails for good |
| PackBits.HostPlaneIsRead | firmware/zephyr/src/ssd1677_gdeq0426t82_display.c:657-713 | through the chunked reader the host's plane comes back for all positive chunk sizes, and one byte more fails |
| PackBits.SizeBound | scripts/generate-test-binbook-480.py:200-222 | three times the compressed length is at most four times the raw length plus two |
| PackBits.SizeBoundIsTight | scripts/generate-test-binbook-480.py:200-222 | the bound is attained for every number of repetitions of one pattern |
| PanelGeometry.MapsAreInverse | firmware/zephyr/src/ssd1677_gdeq0426t82_display.c:564-592 | a logical point lands on a panel point exactly when the inverse map leads back, under all rotations |
| PanelGeometry.QuarterTurns | firmware/zephyr/src/ssd1677_gdeq0426t82_display.c:564-592 | turning by 90 degrees twice is turning by 180, three times by 270, and by 0 nothing moves |
| PanelGeometry.FirstRowTurned | firmware/zephyr/src/ssd1677_gdeq0426t82_display.c:576-579 | under a turn by 90 degrees the first row becomes the first column, from the bottom up |
| PanelGeometry.PixelIsBit | firmware/zephyr/src/ssd1677_gdeq0426t82_display.c:594-616 | pixel k of a byte, from its highest bit on, is the bit of weight 2^(7 - k) |
| PanelGeometry.SetBitOther | firmware/zephyr/src/ssd1677_gdeq0426t82_display.c:604-616 | setting one mirrored bit leaves the other seven pixels of the byte alone |
| Raster.SetPixel | firmware/zephyr/src/ssd1677_gdeq0426t82_display.c:604-616 | bit x % 8 of byte (pw - 1 - x) / 8 becomes 0 for black and 1 for white, every other bit stays; off the panel nothing changes |
| Raster.FbSetPixel | firmware/zephyr/src/ssd1677_gdeq0426t82_display.c:1092-1106 | bit x % 8 of byte y * (pw / 8) + (pw - 1 - x) / 8 becomes 0 for black and 1 for white, every other bit of the buffer stays; off the panel nothing changes |
| Raster.FrameBitExact | firmware/zephyr/src/ssd1677_gdeq0426t82_display.c:1092-1106 | a pixel is white exactly if its bit in the buffer is one |
| Raster.RectInkExact | firmware/zephyr/src/ssd1677_gdeq0426t82_display.c:1168-1221 | which points take which colour: visible points with an invisible neighbour the stroke, other visible ones the fill |
| Raster.RasterizeRect | firmware/zephyr/src/ssd1677_gdeq0426t82_display.c:1168-1221 | every panel pixel is painted as the rectangle's meaning says: border, fill, clipping, rotation |
| Raster.PaintedBits | firmware/zephyr/src/ssd1677_gdeq0426t82_display.c:1168-1221 | so each bit of the framebuffer is what the rectangle gives its pixel, or as before |
| Raster.DrawRectRow | firmware/zephyr/src/ssd1677_gdeq0426t82_display.c:992-1090 | every pixel of the row is painted as the rectangle's meaning says |
| Raster.SpanIsInk | firmware/zephyr/src/ssd1677_gdeq0426t82_display.c:1005-1080 | the column span of a row is the image of the rectangle under each rotation, edges included |
| Raster.PaintersAgree | firmware/zephyr/src/ssd1677_gdeq0426t82_display.c:992-1221 | from the same start a scanline row equals the framebuffer row, bit for bit |
| Raster.PaintBothWays | firmware/zephyr/src/ssd1677_gdeq0426t82_display.c:992-1221 | running both painters leaves the same bytes in every row |
| TextRaster.DrawTextRow | firmware/zephyr/src/ssd1677_gdeq0426t82_display.c:942-990 | every pixel of the row is inked exactly where a dot of the painter's loops lands, 16-bit wrap included; a text without a colour is black |
| TextMeaning.TextExact | firmware/zephyr/src/ssd1677_gdeq0426t82_display.c:957-989 | characters without 16-bit wrap ink a point exactly if a set dot of some painted one holds it in its square |
| TextMeaning.PaintedExactly | firmware/zephyr/src/ssd1677_gdeq0426t82_display.c:948-950 | which texts are painted: those with a character and a font height that start inside the area or before it |
| TextMeaning.ScaleIsSeventh | firmware/zephyr/src/ssd1677_gdeq0426t82_display.c:951-954 | a dot is a seventh of the font height, at least one pixel |
| TextMeaning.LegibleExact | firmware/zephyr/src/ssd1677_gdeq0426t82_display.c:942-990 | so does a text of which no painted dot wraps, whatever the panel |
| TextMeaning.SmallPanelsLegible | firmware/zephyr/src/ssd1677_gdeq0426t82_display.c:957-989 | no text wraps on an area up to 64006 by 63751 |
| TextMeaning.InkInArea | firmware/zephyr/src/ssd1677_gdeq0426t82_display.c:942-990 | whatever the glyphs, a text that does not wrap inks nothing outside its ink rectangle |
| TextMeaning.CornersInked | firmware/zephyr/src/ssd1677_gdeq0426t82_display.c:942-990 | with every dot set both far corners are inked, so that rectangle is the least |
| FrameText.RasterizeText | firmware/zephyr/src/ssd1677_gdeq0426t82_display.c:1117-1166 | every panel pixel is inked exactly where a dot of the painter's loops lands, wrapped coordinates included; a text without a colour is white |
| FrameText.FrameTextExact | firmware/zephyr/src/ssd1677_gdeq0426t82_display.c:1117-1166 | a text that does not wrap has the ink of the scanline painter, and none if it lies beyond the area, which this painter does not test |
| FrameText.TextPaintersAgree | firmware/zephyr/src/ssd1677_gdeq0426t82_display.c:942-1166 | on such a text the two painters agree for all glyph sets exactly if it has a colour or is not painted |
| FrameText.FarTextWraps | firmware/zephyr/src/ssd1677_gdeq0426t82_display.c:1127-1128 | a text 16 bits or more to the right is painted where the lower bits say, while the scanline painter leaves it out |
| DisplayMeaning.RasterizeClear | firmware/zephyr/src/ssd1677_gdeq0426t82_display.c:1108-1115 | every pixel of the framebuffer gets the colour |
| DisplayMeaning.PaintCalls | firmware/zephyr/src/ssd1677_gdeq0426t82_display.c:1108-1221 | the display calls of an app in order leave in every pixel of the framebuffer what they paint over the old colour; unless a text wraps, what the list shows |
| DisplayMeaning.FrameShows | firmware/zephyr/src/ssd1677_gdeq0426t82_display.c:1108-1221 | over a list of which no text wraps, painter calls and meaning agree on every pixel |
| DisplayMeaning.ClearCovers | firmware/zephyr/src/ssd1677_gdeq0426t82_display.c:1108-1115 | a list that begins with a clear shows nothing of the picture before it |
| DirtyWindow.OpEqualIsEquality | firmware/zephyr/src/ssd1677_gray2.c:134-157 | field-wise comparison is equality (drawables carry only their position) |
| DirtyWindow.OpExistsIn | firmware/zephyr/src/ssd1677_gray2.c:172-181 | membership, regardless of order and number |
| DirtyWindow.LastClearColor | firmware/zephyr/src/ssd1677_gray2.c:159-170 | the colour of the last clear, or the default |
| DirtyWindow.LastClearExact | firmware/zephyr/src/ssd1677_gray2.c:159-170 | that is the colour of the clear after which there is none, 255 if there is none at all |
| DirtyWindow.WholePanel | firmware/zephyr/src/ssd1677_gray2.c:355-379 | another background, or a drawable that only one list has, makes the whole panel the window |
| DirtyWindow.WindowRecord.IncludeLogicalRect | firmware/zephyr/src/ssd1677_gray2.c:273-324 | the window grows by the four corners of the clipped rectangle |
| DirtyWindow.WindowRecord.AlignXToRamBytes | firmware/zephyr/src/ssd1677_gray2.c:253-271 | the window grows to whole bytes of the mirrored RAM |
| DirtyWindow.WindowRecord.Compute | firmware/zephyr/src/ssd1677_gray2.c:363-401 | the window of two display lists, and whether there is one |
| DirtyWindow.FourCornersSuffice | firmware/zephyr/src/ssd1677_gray2.c:273-324 | including the four corners gives the hull with the whole rotated rectangle |
| DirtyWindow.BoxOfExact | firmware/zephyr/src/ssd1677_gray2.c:183-214 | the image box holds exactly the panel pixels of the rectangle |
| DirtyWindow.AlignContains | firmware/zephyr/src/ssd1677_gray2.c:253-271 | the aligned window contains the window and stays on the panel |
| DirtyWindow.AlignIsLeast | firmware/zephyr/src/ssd1677_gray2.c:253-271 | no smaller byte-aligned window contains it |
| TextWindow.InkBoxExact | firmware/zephyr/src/ssd1677_gray2.c:326-361 | a window holds whatever a text may ink, under any glyph set, exactly if it holds the ink box |
| TextWindow.RectangleHoldsText | firmware/zephyr/src/ssd1677_gray2.c:333-345 | the unaligned window of a text holds every dot of every glyph set exactly if its origin is not negative or its clipped rectangle reaches as far as the painted characters, along each axis |
| TextWindow.ReachingTextHeld | firmware/zephyr/src/ssd1677_gray2.c:253-271 | the ink of such a text is reached in rows and whole bytes |
| TextWindow.AlignIsBytes | firmware/zephyr/src/ssd1677_gray2.c:253-271 | widening to the bytes of the mirrored RAM is widening to columns divisible by eight |
| TextWindow.WithinBytesExact | firmware/zephyr/src/ssd1677_gray2.c:253-271 | a box lies in the widened window exactly if it lies in its rows and the bytes of its columns |
| TextWindow.HeldExact | firmware/zephyr/src/ssd1677_gray2.c:326-361 | the clipped rectangle of a text reaches every row and byte of its ink exactly if the aligned window holds its ink box |
| DirtySoundness.IncludeOpCovers | firmware/zephyr/src/ssd1677_gray2.c:326-361 | the aligned window of a rectangle, or of a text whose rectangle reaches its ink, contains every pixel it inks and whatever was in it before |
| DirtySoundness.SharedDecide | firmware/zephyr/src/ssd1677_gray2.c:363-401 | where unshared operations leave no ink, the shared ones over the clear decide the pixel |
| DirtySoundness.OutsideWindowExact | firmware/zephyr/src/ssd1677_gray2.c:363-401 | outside the window of lists with the same clear the images agree exactly where painting the shared operations in either order agrees; only texts that one list has alone must reach their ink |
| DirtySoundness.WindowCoversChanges | firmware/zephyr/src/ssd1677_gray2.c:363-401 | with the shared operations in the same order and every unshared text reaching its ink, every pixel on which painting the two lists differs is inside the window |
| DirtySoundness.NoWindowNoChange | firmware/zephyr/src/ssd1677_gray2.c:363-401 | no window means identical images |
| DirtySoundness.PaintBoth | firmware/zephyr/src/ssd1677_gdeq0426t82_display.c:1108-1221 | painting both lists one after the other into the framebuffer, each from its clear, the bits of the two frames that differ are in the window |
| DirtySoundness.WindowIsLeast | firmware/zephyr/src/ssd1677_gray2.c:363-401 | with equal backgrounds it is the least aligned window holding every unshared operation |
| DirtySoundness.SameOperationsNoWindow | firmware/zephyr/src/ssd1677_gray2.c:172-181 | lists with the same operations in any order and number get no window |
| DirtySoundness.OrderIgnored | firmware/zephyr/src/ssd1677_gray2.c:172-181 | an instance where the two orders do not agree: exchanging overlapping rectangles changes the image without a window |
| DirtySoundness.TextConditionExact | firmware/zephyr/src/ssd1677_gray2.c:326-401 | adding a text to a clear of the other colour changes no pixel unseen, under any glyph set, exactly if its clipped rectangle reaches every row of its ink and every byte the ink touches |
| DirtySoundness.NegativeOriginMissed | firmware/zephyr/src/ssd1677_gray2.c:326-361 | for every text whose rectangle falls short there are glyphs and a pixel that changes unseen, and its origin is negative |
| FileTree.FileSystem.Unlink | firmware/zephyr/src/app_store.c:1381-1391 | removes a file or an empty directory, refuses anything else |
| FileTree.FirstEntry | firmware/zephyr/src/app_store.c:1340-1370 | the first entry of a directory through its own path: lookup, removal, replacement |
| StorageFormat.EnsureDirectory | firmware/zephyr/src/app_store.c:119-131 | the directory is there afterwards and nothing else changed, or a file in its place is the error |
| StorageFormat.DeleteOneUnder | firmware/zephyr/src/app_store.c:1321-1391 | deletes one leaf along first entries and reports whether it did and whether the directory was empty; a path along them that does not fit its buffer, and only that, is an error |
| StorageFormat.DeleteOneCounts | firmware/zephyr/src/app_store.c:1321-1391 | exactly one node goes |
| StorageFormat.DeleteOneRemovesLeaf | firmware/zephyr/src/app_store.c:1321-1391 | it is a file or an empty directory, and nothing else changes |
| StorageFormat.DeleteFilesUnder | firmware/zephyr/src/app_store.c:1401-1462 | everything below the directory goes, the rest stays; a path that does not fit, and only that, is an error |
| StorageFormat.FormatJob.Advance | firmware/zephyr/src/app_store.c:1522-1575 | one step of the job, or the error of a path that does not fit or of a file in a directory's place, which leaves the file system and the phase |
| StorageFormat.FirstFitsExact | firmware/zephyr/src/app_store.c:1347-1355 | the path along first entries fits exactly if the text of the deleted node's path is shorter than the buffer |
| StorageFormat.RefusedExactly | firmware/zephyr/src/app_store.c:1522-1575 | a directory whose path does not fit, or in whose place there is a file, is reported and not worked on |
| StorageFormat.DoneIsOver | firmware/zephyr/src/app_store.c:1522-1575 | a job that is done is over, and the next one starts from the beginning |
| FormatEquivalence.FormatByDeleteWalk | firmware/zephyr/src/app_store.c:1577-1603 | the recursive walk succeeds exactly on formattable file systems and leaves the formatted one |
| FormatEquivalence.FormattedIs | firmware/zephyr/src/app_store.c:1577-1603 | apps, state and tmp empty, system present, every other name as it was |
| FormatEquivalence.StepProgresses | firmware/zephyr/src/app_store.c:1522-1575 | every step brings the job one closer to done |
| FormatEquivalence.StepKeepsResult | firmware/zephyr/src/app_store.c:1522-1575 | a step does not change what formatting will leave |
| FormatEquivalence.DoneIsFormatted | firmware/zephyr/src/app_store.c:1522-1575 | when a step reports done, the file system is the formatted one |
| FormatEquivalence.RunJob | firmware/zephyr/src/app_store.c:1522-1603 | the job is done exactly on formattable file systems, after the nodes below the three directories plus eight steps, in the file system the walk leaves |
| Lifecycle.Runtime.RequestLaunchOf | firmware/zephyr/src/app_lifecycle.c:66-108 | a launch is requested only from idle and only for an id that fits |
| Lifecycle.Runtime.RequestArmOf | firmware/zephyr/src/app_lifecycle.c:110-129 | an arm request, or the error and no change |
| Lifecycle.Runtime.CancelPendingArm | firmware/zephyr/src/app_lifecycle.c:131-144 | forgets the arm request of that app only |
| Lifecycle.Runtime.RequestSleepFor | firmware/zephyr/src/app_lifecycle.c:146-161 | a sleep request, or the error and no change |
| Lifecycle.Runtime.CancelPendingAfterDispatchError | firmware/zephyr/src/app_lifecycle.c:163-182 | a failed dispatch drops the pending request |
| Lifecycle.Runtime.CancelPendingAfterStartFailure | firmware/zephyr/src/app_lifecycle.c:184-199 | a failed start drops the pending request |
| Lifecycle.Runtime.PushReturn | firmware/zephyr/src/app_lifecycle.c:201-219 | pushes the app with its temporary flag, or reports a full stack |
| Lifecycle.Runtime.PopReturn | firmware/zephyr/src/app_lifecycle.c:221-238 | the target is the last pushed app, or main |
| Lifecycle.Runtime.ClearTemp | firmware/zephyr/src/app_lifecycle.c:240-272 | temporary apps disappear from the stack in place, the others keep their order |
| Lifecycle.Runtime.RestoreRoute | firmware/zephyr/src/app_lifecycle.c:274-303 | the stack is rebuilt from recorded ids, or left empty |
| Lifecycle.Runtime.Next | firmware/zephyr/src/app_lifecycle.c:305-451 | one step of the state machine: result, step to take, whole new state |
| LifecycleRuns.RunsAreSound | firmware/zephyr/src/app_lifecycle.c:201-272 | in every reachable state the stack is within its limit and every id on it fits |
| LifecycleRuns.DispatchErrorCancels | firmware/zephyr/src/app_lifecycle.c:163-182 | a failed dispatch leaves no request pending unless one is being carried out; stack and current app untouched |
| LifecycleRuns.DispatchErrorUndoes | firmware/zephyr/src/app_lifecycle.c:66-182 | a request followed by a failed dispatch is as if never made |
| LifecycleRuns.StartFailureCancels | firmware/zephyr/src/app_lifecycle.c:184-199 | a failed start abandons what was being carried out, and only that |
| LifecycleRuns.DisarmUndoesArm | firmware/zephyr/src/app_lifecycle.c:110-144 | cancelling undoes the arm request of that app and leaves another app's |
| LifecycleRuns.SleepGranted | firmware/zephyr/src/app_lifecycle.c:146-161 | a sleep is granted exactly for a positive time, an idle lifecycle and a lasting app |
| LifecycleRuns.StepLowersRank | firmware/zephyr/src/app_lifecycle.c:305-451 | from any phase but idle a poll lowers the rank exactly when the launch is not stuck, and leaves the stuck state as it is |
| LifecycleRuns.StuckUntilFreed | firmware/zephyr/src/app_lifecycle.c:163-303 | exactly a failed dispatch, a restored route and forgetting a temporary app on the stack lead out of the stuck state |
| LifecycleRuns.StuckIsReached | firmware/zephyr/src/app_lifecycle.c:66-451 | under every stack limit launches and polls fill the stack, the last app temporary; forgetting it and launching another is stuck |
| LifecycleRuns.StuckUnderEveryLimit | firmware/zephyr/src/app_lifecycle.c:274-451 | so is a launch right after a full route was restored |
| LifecycleRuns.TwoStepsToIdle | firmware/zephyr/src/app_lifecycle.c:305-451 | at most two steps lead back to idle |
| LifecycleRuns.PerformIsMove | firmware/zephyr/src/device_protocol.c:1726-1736 | a launch, due event or exit driven to its end is one move of a stack of apps and flags, delivers exactly the events of that move to the apps and records why the app in front was started |
| LifecycleRuns.RunIsStack | firmware/zephyr/src/app_lifecycle.c:305-451 | over every run within the depth limit the lifecycle is that stack and delivers exactly those events, whatever exit handlers do |
| LifecycleRuns.ExitsUndoOpenings | firmware/zephyr/src/app_lifecycle.c:201-238 | exits restart the apps underneath in exact reverse order with their flags |
| LifecycleRuns.LeaveAtTheBottom | firmware/zephyr/src/app_lifecycle.c:221-238 | an exit on the empty stack starts main |
| LifecycleRequests.RegisteredExactly | firmware/zephyr/src/app_lifecycle.c:110-182 | over every run the apps registered are the arm requests accepted and not cancelled, once each and in order, and the next poll with nothing going on registers the outstanding one |
| LifecycleRequests.CheckpointHasTime | firmware/zephyr/src/app_lifecycle.c:146-161 | every checkpoint of every run carries the time of the sleep granted last |
| LifecycleRequests.SleepCarriedOut | firmware/zephyr/src/app_lifecycle.c:339-348 | a granted sleep tells the app in front power.sleep, whatever is due, and the next poll writes the checkpoint |
| LifecycleRequests.RequestAnswers | firmware/zephyr/src/app_lifecycle.c:66-129 | launch and arm requests are refused for their id first, then for what is going on |
| LifecycleRequests.SleepAnswers | firmware/zephyr/src/app_lifecycle.c:146-161 | the errors of a sleep request in order |
| LifecycleRequests.FullStackRefuses | firmware/zephyr/src/app_lifecycle.c:350-428 | over a full stack a launch is given up after the exit handler ran, a due event of another app is not delivered; stack and front stay |
| LifecycleRequests.ExitFollowedOnce | firmware/zephyr/src/app_lifecycle.c:330-377 | an exit is followed by one return, even if the app underneath fails to start |
| LifecycleRequests.DueMustFit | firmware/zephyr/src/app_lifecycle.c:417-447 | a due event whose texts do not fit is an error, one without text none |
| LifecycleRequests.ForgetTempOutcome | firmware/zephyr/src/app_lifecycle.c:240-272 | no temporary app is left anywhere, and every other one as often as before |
| LifecycleRequests.KeptInOrder | firmware/zephyr/src/app_lifecycle.c:240-272 | kept apps stay in their order |
| PlannedResume.Encode | firmware/zephyr/src/device_protocol.c:198-233 | the fixed-size layout of a record, refused for counts over the limits or no current app |
| PlannedResume.EncodedLayout | firmware/zephyr/src/device_protocol.c:198-233 | where magic, version, current app, counts and slots are, with the sizes multiplied out |
| PlannedResume.Decode | firmware/zephyr/src/device_protocol.c:235-280 | accepts exactly the byte strings of the right length, magic, version and non-blank counted slots |
| PlannedResume.AcceptsExactly | firmware/zephyr/src/device_protocol.c:235-280 | which byte strings are accepted, with every offset and limit multiplied out |
| PlannedResume.FromRuntime | firmware/zephyr/src/device_protocol.c:282-329 | the record of the app in front, its stack and the armed apps; the error exactly if there is no app, it is temporary, or an id is missing or fills its whole buffer |
| PlannedResume.RecordRoundTrip | firmware/zephyr/src/device_protocol.c:198-280 | decoding undoes encoding exactly for records whose buffers are terminated and counted slots named |
| PlannedResume.ArmedIsExact | firmware/zephyr/src/device_protocol.c:282-329 | the armed list has every app with an active armed timer once, by first occurrence |
| PlannedResume.SleepRecordSurvives | firmware/zephyr/src/device_protocol.c:198-329 | what a runtime writes before sleeping reads back as the same record, stack and armed list |
| PlannedResume.WakeRebuildsRoute | firmware/zephyr/src/app_lifecycle.c:274-303 | waking rebuilds the ids of the stack; the whole stack exactly when nothing on it was temporary |
| DisplayFlush.FlushQueue.CopyFlushJob | firmware/zephyr/src/vm_runtime.c:516-528 | a job with its mode and a page copy of its own if there is memory |
| DisplayFlush.FlushQueue.FlushIfDirty | firmware/zephyr/src/vm_runtime.c:581-612 | submitting starts the worker or replaces the pending job, whose page is freed |
| DisplayFlush.FlushQueue.MarkDrawn | firmware/zephyr/src/vm_runtime_display.c:32-33 | whatever is drawn makes the display dirty and asks for a flush |
| DisplayFlush.FlushQueue.SetRefreshMode | firmware/zephyr/src/vm_runtime_display.c:163-186 | one of three names chooses the mode, any other changes nothing |
| DisplayFlush.FlushQueue.ForgetDrawn | firmware/zephyr/src/vm_runtime.c:838-839 | a reset forgets what was drawn, not the mode |
| DisplayFlush.SubmitExactly | firmware/zephyr/src/vm_runtime.c:581-612 | a submit with both flags set adds exactly one submission in the requested mode and clears the request, any other adds none |
| DisplayFlush.SubmittedExactly | firmware/zephyr/src/vm_runtime.c:581-612 | over all interleavings exactly what was drawn and not forgotten is submitted, once, in the mode chosen for it |
| DisplayFlush.DrawnIsShown | firmware/zephyr/src/vm_runtime.c:530-612 | after any run, drawing, choosing a mode and submitting ends, two worker rounds later, with a flush of that submission in that mode |
| DisplayFlush.FlushQueue.FlushFramebuffer | firmware/zephyr/src/vm_runtime.c:530-556 | the worker flushes in the mode of its job |
| DisplayFlush.FlushQueue.TakePending | firmware/zephyr/src/vm_runtime.c:557-579 | the worker takes the pending job or goes away, in one step |
| DisplayFlush.RunsKeepInv | firmware/zephyr/src/vm_runtime.c:516-612 | over all interleavings: pending implies active, each page has one owner or was freed once, flushes are in order |
| DisplayFlush.WhenIdleAllIsShown | firmware/zephyr/src/vm_runtime.c:516-612 | whenever no worker is active all pages are freed once and the last flush came after the last submission, in its mode |
| DisplayFlush.WorkerFinishes | firmware/zephyr/src/vm_runtime.c:530-579 | left alone the worker is gone after two rounds with the newest submission shown |
| ContentInstall.Installer.BeginInstall | firmware/zephyr/src/device_protocol.c:1228-1261 | a new session with an empty running checksum, or the error |
| ContentInstall.BeginExactly | firmware/zephyr/src/device_protocol.c:953-1261 | a begin succeeds exactly for a name of 1 to 79 characters, not hidden and no path, a positive length and no session under way |
| ContentInstall.PathsAre | firmware/zephyr/src/device_protocol.c:972-988 | the final file and its staging copy, by name |
| ContentInstall.Installer.PrepareStaging | firmware/zephyr/src/device_protocol.c:1200-1226 | the staging file is made new and empty once |
| ContentInstall.Installer.AppendChunk | firmware/zephyr/src/device_protocol.c:1263-1302 | only the chunk at the current offset is taken; register and count follow a whole write |
| ContentInstall.ChunkOutcome | firmware/zephyr/src/device_protocol.c:1263-1302 | a chunk is accepted only at the end of the accepted content, within the length, and whole; with a sound file system exactly then; nothing but the staging file changes |
| ContentInstall.ResetOutcome | firmware/zephyr/src/device_protocol.c:2956-2962 | a reset leaves no session and no staging file, and touches nothing else |
| ContentInstall.Installer.CommitInstall | firmware/zephyr/src/device_protocol.c:1304-1332 | length and checksum decide; then the staging file replaces the final one |
| ContentInstall.RunsKeepInv | firmware/zephyr/src/device_protocol.c:1228-1332 | in every run the register is that of the accepted prefix and the staging file is what was written |
| ContentInstall.CommitOutcome | firmware/zephyr/src/device_protocol.c:1304-1332 | a success leaves the accepted bytes, of the declared length and checksum, exactly when no write stopped part-way; a mismatch leaves the old file |
| ContentInstall.CommitSucceedsExactly | firmware/zephyr/src/device_protocol.c:1304-1332 | without I/O errors a commit succeeds exactly when length and checksum match |
| ContentInstall.FailedCommitWaits | firmware/zephyr/src/device_protocol.c:1322-1330 | when the old file cannot be removed or the rename fails, the session waits with its staging content for another commit |
| ContentInstall.UploadStores | firmware/zephyr/src/device_protocol.c:1228-1332 | begin, chunks and commit store exactly the concatenation, or refuse it |
| ContentInstall.CorruptedUploadRefused | firmware/zephyr/src/device_protocol.c:1316-1321 | content corrupted by a burst of at most 32 bits is never committed |
| ContentInstall.ShortWriteSpoilsUpload | firmware/zephyr/src/device_protocol.c:1290-1299 | for every name and content, a write cut short and repeated commits a different file |
| BleTransfer.Transfer.BeginFramedTransfer | firmware/zephyr/src/ble_file_transfer_core.c:363-379 | one transfer at a time, of a size within the limit |
| BleTransfer.Transfer.FeedNameBytes | firmware/zephyr/src/ble_file_transfer_core.c:381-404 | the name arrives in pieces, each behind the ones before; the last one opens the staging file |
| BleTransfer.NamesAreAsSaid | firmware/zephyr/src/ble_file_transfer_core.c:363-404 | over every run the name is the concatenation, in order, of the pieces accepted since the last accepted begin; once complete it is the session's, and from publication on the event's, with its profile and size |
| BleTransfer.BeginAnswers | firmware/zephyr/src/ble_file_transfer_core.c:363-379 | when a begin is granted, and with which code it is refused |
| BleTransfer.NameAnswers | firmware/zephyr/src/ble_file_transfer_core.c:381-404 | what a piece is answered, and what the last one does |
| BleTransfer.ContentAnswers | firmware/zephyr/src/ble_file_transfer_core.c:406-428 | when content is taken, and with which code it is refused before and past the file |
| BleTransfer.Transfer.OpenSession | firmware/zephyr/src/ble_file_transfer_core.c:196-254 | a routed name opens the profile's staging file anew; BleRouting.BeginNamed supplies the route |
| BleRouting.ParseFileName | firmware/zephyr/src/ble_file_transfer_core.c:135-161 | the extension from the last dot, exactly for names that are not empty, too long, a path, or without one that fits |
| BleRouting.WellNamedMeans | firmware/zephyr/src/ble_file_transfer_core.c:135-161 | which names and extensions those are, with the characters written out |
| BleRouting.CStringExact | firmware/zephyr/src/ble_file_transfer_core.c:135-145 | a name ends before its first zero byte, and is itself without one |
| BleRouting.Lookup | firmware/zephyr/src/ble_profile_table.c:171-201 | no match, several, or the one profile that accepts the extension, and only once |
| BleRouting.RouteName | firmware/zephyr/src/ble_file_transfer_core.c:206-222 | ambiguous exactly when accepted at least twice; routed exactly when one profile accepts the extension, once, and its app is still known, and then to that profile |
| BleRouting.RouteIsUnique | firmware/zephyr/src/ble_profile_table.c:171-201 | a name has one route, so the contract settles the profile |
| BleRouting.BeginNamed | firmware/zephyr/src/ble_file_transfer_core.c:196-254 | routing a name and opening its session is the transfer's step under the one route of the name |
| BleTransfer.Transfer.FeedContentBytes | firmware/zephyr/src/ble_file_transfer_core.c:406-428 | content at the current offset, within the total |
| BleTransfer.Transfer.WriteContent | firmware/zephyr/src/ble_file_transfer_core.c:256-327 | seek, write, and on the last byte publish and hand the file over |
| BleTransfer.Transfer.ResetSession | firmware/zephyr/src/ble_file_transfer_core.c:329-339 | drops what the session still owns |
| BleTransfer.Transfer.Abort | firmware/zephyr/src/ble_file_transfer_core.c:341-361 | drops what the session still owns |
| BleTransfer.Transfer.CloseSessionFiles | firmware/zephyr/src/ble_file_transfer_core.c:123-133 | closes the file and unlinks it only while the session owns it, which it does no more |
| BleTransfer.Transfer.DrainPendingEvent | firmware/zephyr/src/ble_file_transfer_core.c:473-499 | hands the event out once and keeps the file |
| BleTransfer.Transfer.CleanupStaging | firmware/zephyr/src/ble_file_transfer_core.c:526-532 | removes the handed-off file and the event |
| BleTransfer.AbandonOutcome | firmware/zephyr/src/ble_file_transfer_core.c:329-361 | nothing is left of a dropped session, its file only if it cannot be unlinked; the event and every other file stay |
| BleTransfer.CleanupOutcome | firmware/zephyr/src/ble_file_transfer_core.c:526-532 | the event and its file go, everything else stays |
| BleTransfer.RunsKeepInv | firmware/zephyr/src/ble_file_transfer_core.c:196-428 | in every run offset, count and accepted content agree and the staging file starts with the accepted content, even after short writes |
| BleTransfer.ContentOutcome | firmware/zephyr/src/ble_file_transfer_core.c:406-428 | content is taken whole or refused; the event is published exactly when the offset reaches the total, with exactly the accepted file |
| BleTransfer.PublishedOnce | firmware/zephyr/src/ble_file_transfer_core.c:291-324 | in every run each transfer is published at most once, with exactly its content and size |
| BleTransfer.DrainedOnce | firmware/zephyr/src/ble_file_transfer_core.c:473-499 | the poll loop gets an event at most once |
| BleTransfer.StepWaitsExactly | firmware/zephyr/src/ble_file_transfer_core.c:291-532 | a call keeps a waiting event exactly if it neither delivers it, nor completes another transfer, nor cleans up |
| BleTransfer.DeliveredExactly | firmware/zephyr/src/ble_file_transfer_core.c:291-532 | in every run a published event is delivered exactly if a drain comes before the next completion and clean-up, and lost exactly if one of these comes first |
| BleTransfer.StepSparesExactly | firmware/zephyr/src/ble_file_transfer_core.c:196-428 | a call keeps the content of a file the session does not own exactly if it neither succeeds in cleaning it up nor completes a name that opens it while it has content |
| BleTransfer.HandedOffFileSurvives | firmware/zephyr/src/ble_file_transfer_core.c:317-361 | a file the session no longer owns survives every run in which no call cleans it up or opens it anew |
| BleTransfer.CompletedContentSurvives | firmware/zephyr/src/ble_file_transfer_core.c:317-361 | from the completing write on, the consumer reads exactly the content sent |
| BleTransfer.AbandonTakesWaitingFile | firmware/zephyr/src/ble_file_transfer_core.c:329-351 | an abort removes a waiting file exactly when a transfer to the same profile is under way |
| BleTransfer.SecondTransferTakesWaitingFile | firmware/zephyr/src/ble_file_transfer_core.c:105-121 | such a run exists for every profile: the second name empties the waiting file, the abort removes it |
| SqbcHandleCache.HandleCache.ReleaseStorage | firmware/zephyr/src/vm_fs_storage.c:36-54 | closes the file only for the storage and session that hold it |
| SqbcHandleCache.HandleCache.ReadSqbc | firmware/zephyr/src/vm_fs_storage.c:143-218 | reuses the open file of the same storage and session, otherwise closes and opens |
| SqbcHandleCache.HandleCache.Backend | firmware/zephyr/src/vm_fs_storage.c:267-274 | a storage without a session gets the next number, never zero |
| SqbcHandleCache.HandleCache.PrepareStorage | firmware/zephyr/src/app_store.c:502-530 | repointing a storage releases its file and blanks its session |
| SqbcHandleCache.ReleaseOutcome | firmware/zephyr/src/vm_fs_storage.c:36-54 | a release lets go of what the storage holds under its session, and of nothing else |
| SqbcHandleCache.PrepareOutcome | firmware/zephyr/src/app_store.c:502-530 | a prepared storage starts over with its path and no session, unless the release fails |
| SqbcHandleCache.OneFileOpen | firmware/zephyr/src/vm_fs_storage.c:36-54 | whatever fails, at most one file is open and opens minus closes is one or zero accordingly |
| SqbcHandleCache.RunsStayFresh | firmware/zephyr/src/vm_fs_storage.c:143-218 | in every legal run, however many numbers it gives out, the file held under a storage's session is that storage's own, as it is now |
| SqbcHandleCache.LegalIsExact | firmware/zephyr/src/vm_fs_storage.c:267-274 | giving a number, or replacing a file, keeps that exactly if it is legal: the number is not the one its file of another path is held under |
| SqbcHandleCache.NoClashWithinCycle | firmware/zephyr/src/vm_fs_storage.c:267-274 | as long as the numbers have not come round, giving the next one is legal |
| SqbcHandleCache.ClashReadsOldFile | firmware/zephyr/src/vm_fs_storage.c:159-182 | a number that is not legal makes the next read return the old file, whatever the range |
| SqbcHandleCache.CachedReadRefines | firmware/zephyr/src/vm_fs_storage.c:143-218 | every successful cached read is what open, read and close would return; without I/O errors so is every failure |
| SqbcHandleCache.ReopenedReadRefines | firmware/zephyr/src/vm_fs_storage.c:159-182 | a read under another number than the file is held under is what open, read and close would return, whatever was replaced before |
| SqbcHandleCache.CallersAreLegal | firmware/zephyr/src/app_store.c:502-550 | every run of the callers the firmware has that replaces no open file is legal, however often the numbers come round |
| SqbcHandleCache.CallersReadTheirFile | firmware/zephyr/src/vm_fs_storage.c:143-218 | for them every successful cached read in every run is what open, read and close would return, and without I/O errors so is every failure |
| SqbcHandleCache.FailureLetsGo | firmware/zephyr/src/vm_fs_storage.c:184-207 | after a failed read nothing stays open |
| SqbcHandleCache.ReadsShareOneOpen | firmware/zephyr/src/vm_fs_storage.c:143-218 | any number of reads within the file open it once, and the counters add up |
| SqbcHandleCache.ReadCounts | firmware/zephyr/src/vm_fs_storage.c:143-218 | what one successful read adds to the counters of the storage and of the open file |
| SqbcHandleCache.NumbersGivenOut | firmware/zephyr/src/vm_fs_storage.c:267-274 | the numbers run from one to the largest size and start over |
| SqbcHandleCache.NumbersAre | firmware/zephyr/src/vm_fs_storage.c:267-274 | the numbers are 1 to 2^32 - 1, over and over, never zero |
| SqbcHandleCache.StaleAfterFullCycle | firmware/zephyr/src/vm_fs_storage.c:143-274 | a caller the firmware does not have, one that gives a storage another path without releasing it, could run into its previous file after a full round of numbers |
| ButtonDebounce.Channel.Poll | firmware/zephyr/src/xteink_x4_button_probe.c:207-243 | the fields after a sample; an event exactly when the logical value becomes a key, queued for a running app or starting an idle one, and the result |
| ButtonDebounce.EventNames | firmware/zephyr/src/xteink_x4_button_probe.c:52-72 | each key has its own event, and only being released has none |
| ButtonDebounce.ChangesExactlyWhenSteady | firmware/zephyr/src/xteink_x4_button_probe.c:207-243 | on every time-ordered trace the value changes exactly at the end of a steady stretch of another value |
| ButtonDebounce.LogicalIsLatestSteady | firmware/zephyr/src/xteink_x4_button_probe.c:207-243 | at any moment it is the value of the latest steady stretch, or released |
| ButtonDebounce.ReportsAreSeparated | firmware/zephyr/src/xteink_x4_button_probe.c:207-243 | two reports of a key have a steady other value between them and are two intervals apart |
| ButtonDebounce.SteadyKeyIsReported | firmware/zephyr/src/xteink_x4_button_probe.c:207-243 | a key held for the interval is reported unless it was the value already |
| InputQueue.Queue.Put | firmware/zephyr/src/vm_runtime.c:1153-1175 | appends the event, or refuses one that fits no slot and any when full |
| InputQueue.Queue.Take | firmware/zephyr/src/vm_runtime.c:1177-1200 | removes and returns the oldest event, or reports why not and keeps the queue |

## Left out

- Error numbers stand for their names; only that different ones differ matters.
- The Rust virtual machine and compiler, and everything reached through their C interfaces.
- Drivers, waveforms, logging, metrics, Wi-Fi, HTTP upload, the BLE advertising machine, indicators, response formatting and the browser simulator.
- Threads: interleavings are sequences of steps under the display mutex; the worker's clear-active-and-exit is one step.
- Widths: `x + w` and the like in the painters and the window code do not overflow 32 bits.
- Glyph bitmaps are arbitrary 5 by 7 bit sets. Display calls are taken after their text was copied into its buffer; the draw log is left out.
- No function of the firmware composes a row from the two scanline painters (`ssd1677_gdeq0426t82_display.c:88-112` is a test helper that paints no texts and has its own rectangle painter), so neither does the model: a display list is painted into the framebuffer.
- DirtySoundness.WindowCoversChanges: unshared texts that wrap 16 bits are excluded, clears come first, and lists with book drawables get the whole panel and are not given a meaning.
- DirtySoundness.PaintBoth: the framebuffer keeps the old picture, so each list begins with a clear; texts that wrap are excluded.
- Storage formatting: the file system fails only for missing entries, wrong kinds, non-empty directories and paths that do not fit; other I/O errors are not modelled.
- StorageFormat.DeleteOneUnder: the directory is listed as it is when opened, so the branches for entries that vanish meanwhile do not occur; the path buffer is a path value with a length.
- SerialTransport.Transport.PushByte: the handler's result is a parameter and its response is not modelled.
- Lifecycle.Runtime.RestoreRoute: a restore that fails may leave stale flags in unused slots; the model says their ids are blank.
- LifecycleRuns.RunIsStack: a due event consumed while the app has exited but not yet been followed is not a move.
- PlannedResume.Encode: ids have no terminator inside, as the firmware's text functions assume.
- PlannedResume.FromRuntime: an id without a terminator stands for its whole buffer.
- ContentInstall.Installer.CommitInstall: after a rename that fails the old final file is already gone, as in the code, and a retry commits only the new one (ContentInstall.FailedCommitWaits).
- BleTransfer.Transfer.OpenSession: takes the route of the name as a parameter, so that the runs range over every table of profiles; BleRouting.BeginNamed computes it.
- BleTransfer.RunsKeepInv: a write to a staging file that was cleaned up under the session is reported as an I/O error; what the file system would do then is not known.
- SqbcHandleCache.RunsStayFresh: reads go through a backend made after the storage was last prepared, as all callers do.
- SqbcHandleCache.CallersReadTheirFile: no file is replaced while it is open. Beginning a temporary run empties its file without a release (`device_protocol.c:793`, `app_store.c:910`); what a program still running from it reads until the run is committed depends on the file system.
- ButtonDebounce.Channel.Poll: reading the converters is left out, each channel's samples are those that reach it; what the queue or the start of an idle runtime answers is a parameter.
- InputQueue.Queue.Put: the device error recorded on overflow is left out.
