# Crazyflie / AI-deck dataset logger — Dafny model

`test.c` runs on the AI-deck of a Crazyflie. In a **write session** it captures 324×244
camera frames and crops each one in place to 320×224. It then appends the cropped frame,
followed by a snapshot of the 24-byte telemetry packet buffer, to the HyperFlash as one
fixed-size record. In this revision the async UART read that would start the receive
callback is commented out (test.c:122), so the statically zeroed packet buffer is never
written and every stored packet is 24 zero bytes.
In a **read session** it walks the records back from address 0. It exports each frame as
`img%05d.ppm` until it finds a frame that starts with two erased bytes, or until it has
passed `READSIZE` images. Then a label pass fetches the stored packets. Telemetry arrives
over the UART in 28-byte chunks. A sentinel framer (`buff_strip`) extracts the packet.
`decode_packet` splits the packet into six 32-bit fields. A one-way latch,
`start_storing`, is set once the decoded altitude exceeds `0.3f`.

The model has six modules, one file each:

- `layout.dfy` (`Layout`): the constants of `test.c` (sizes, sentinel, `READSIZE`) and the
  `Byte` and `Word` types.
- `framer.dfy` (`Framer`): `buff_strip` as a method over arrays. The function
  `Stripped` specifies it by mirroring the backward scan. Lemmas cover a miss, a match,
  and which match wins.
- `telemetry.dfy` (`Telemetry`): the byte slicing of `decode_packet` into six
  little-endian words. It also holds the inverse encoder with both round trips, and the
  latch with its monotonicity.
- `crop.dfy` (`Crop`): the in-place crop. The method is proved against the function
  `Cropped`, and a loop invariant carries the lag of the write cursor.
- `records.dfy` (`Records`): the record addresses, the reader's stop rule (`StopIndex`)
  and the zero-padded image names.
- `logger.dfy` (`Logger`): the class `Session`, holding the globals of `test.c`. These are
  the frame, packet and receive buffers, the flash chip as an array, `flash_address`,
  `image_number`, `start_storing` and the six decoded words. Its methods cover the UART
  callback, one pass and a whole run of each branch of the `while(1)` loop, and the
  flash program and read calls as array copies.

Foreign calls become parameters or array copies:

- `pi_camera_capture` becomes the `frame` parameter of `WriteStep`.
- The async UART read becomes the `chunk` parameter of `OnUartReceive`.
- `pi_flash_program` and `pi_flash_read` become `Program` and `ReadFlash`.
- `WriteImageToFile` becomes the `ExportedImage` values a read session returns.

Behaviour of the code that the model keeps as written:

- Packet and chunk sizes are 24 and 28, with six 4-byte fields.
- The reader's end test looks only at `buff[0]` and `buff[1]` (test.c:216), so a real
  frame that starts with two `0xFF` bytes also ends the session.
- The write is gated by `if(true)` (test.c:182), not by the latch.
- The framer's loop never breaks, so of several matches in one chunk the one at the
  smallest index wins.
- The latch tests `pos_z`. That is the *second* out-parameter of `decode_packet` at
  test.c:323, so bytes 4..7, not the fifth field.
- `0.3f` is the binary32 pattern `0x3E99999A`. For a binary32 `x`, `x > 0.3f` holds
  exactly when the bits of `x` lie in `(0x3E99999A, 0x7F800000]`. Non-negative floats
  are ordered like their bit patterns, negatives and `-0` are below 0.3, and NaNs compare
  false. `Telemetry.ExceedsThreshold` states the comparison this way, without floating point.

## Model

| member | source | states |
|---|---|---|
| Framer.MatchAt | test.c:276 | a match needs the opening sentinel 25 bytes back inside the chunk, so only indices 25..27 can match |
| Framer.Stripped | test.c:274-282 | a chunk with no sentinel triple leaves the packet buffer unchanged |
| Framer.BuffStrip | test.c:272-283 | writes only `tar`, and leaves in it exactly what the backward scan from index 27 to 1 leaves (`Stripped` of the chunk and the old packet) |
| Framer.ScanFrom | test.c:274-281 | every prefix of the scan leaves a packet of exactly `PACKET_SIZE` bytes |
| Framer.ScanFromMiss | test.c:274-282 | if no index visited so far matches the sentinel triple, the packet still holds its old bytes |
| Framer.ScanFromLowest | test.c:274-281 | once the scan has passed the smallest match `m`, the packet is `src[m-24..m)`, so later (smaller) matches overwrite earlier ones |
| Framer.StrippedMatch | test.c:274-281 | with a match, on exit `tar[j] == src[m-24+j]` for every `j < 24`, where `m` is the smallest matching index |
| Framer.StrippedSource | test.c:274-282 | the packet after a call either is the old packet (and nothing matched) or is the 24 bytes before some matching sentinel |
| Framer.StrippedFramedPayload | test.c:276-280 | `0xFE`, a 24-byte payload not ending in `0xFE`, `0xFE`, then any two bytes: the framer extracts exactly the payload |
| Telemetry.DecodePacket | test.c:286-316 | field `k` of the decoded sample is the little-endian word of packet bytes `4k..4k+3`, for each of the six fields |
| Telemetry.ExceedsThreshold | test.c:324 | `pos_z > 0.3f` on the bits: never true for a negative value or a NaN, false for `0.3f` itself, true for the next float above it and for positive infinity |
| Telemetry.WordBytesLeWord | test.c:292-295 | reading four bytes little-endian into a word and splitting it again gives back the four bytes |
| Telemetry.LeWordWordBytes | test.c:292-295 | splitting a word into its four little-endian bytes and reading them back gives back the word |
| Telemetry.DecodeFieldLocal | test.c:292-315 | field `k` of the decoded packet is the little-endian word of bytes `4k..4k+3`, and depends on no other byte |
| Telemetry.EncodeDecode | test.c:292-315 | concatenating the six decoded 4-byte groups in field order gives back the 24-byte packet |
| Telemetry.DecodeEncode | test.c:292-315 | decoding the packet built from six words gives back those six words, bit for bit |
| Telemetry.NextLatch | test.c:324 | after one callback the latch is set exactly when it was set before or the decoded `pos_z` exceeds `0.3f` |
| Telemetry.LatchStaysSet | test.c:324 | once `start_storing` is true, no sequence of later callbacks makes it false, whatever `pos_z` they decode |
| Telemetry.LatchSetIffExceeded | test.c:57 | starting from `false`, the latch is set after a run of callbacks exactly when one of them decoded a `pos_z` above `0.3f` |
| Crop.CropInPlace | test.c:184-192 | the loop writes exactly `CROP_SIZE` bytes (`ps` ends at 71680), the front of the buffer becomes the cropped frame of the old buffer, and every byte from `CROP_SIZE` on is unchanged; its invariants carry `ps <= i*324+j` |
| Crop.Cropped | test.c:185-191 | the cropped frame always has exactly `CROP_SIZE` bytes |
| Crop.CroppedAt | test.c:185-191 | output pixel `r*320+c` is raw pixel `(r+10)*324 + (c+2)`, for all `r < 224`, `c < 320` |
| Crop.CropLag | test.c:188-189 | output byte `k` is read from raw index `>= k`, so the write cursor never overtakes the read index and no source byte is read after it was overwritten |
| Crop.SourceIndexIncreasing | test.c:185-189 | the crop keeps the rows-outer, columns-inner order of the raw frame |
| Logger.Program | test.c:200 | flash programming puts the source bytes at the address and leaves every other flash byte unchanged |
| Logger.ReadFlash | test.c:213 | a flash read puts the addressed bytes at the front of the buffer and leaves the rest of the buffer unchanged |
| Logger.Session.constructor | test.c:33-57 | start state: the three static byte buffers all zero, the six decoded words zero, cursor 0, image number 0, latch false, flash holding its previous contents |
| Logger.Session.OnUartReceive | test.c:319-324 | the callback strips the received chunk into `buff_packet` and decodes the six words from it. It sets the latch exactly as `NextLatch` says, so it never clears it, and it leaves cursor and image number alone |
| Logger.PacketAfterLast | test.c:319-328 | after a chain of callbacks the packet is the last chunk stripped into what the earlier ones left, and the last altitude the latch saw is the one decoded from that packet |
| Logger.Session.ReceiveChain | test.c:319-328 | over a chain of re-armed callbacks, the packet is each chunk stripped in turn into the previous packet (`PacketAfter`), the receive buffer holds the last chunk and the six words are decoded from the final packet; the latch ends as the fold of `NextLatch` over the decoded altitudes, and stays set if it was set |
| Logger.Session.AppendRecord | test.c:200-203 | programs the cropped frame at the cursor and the packet snapshot right after it, and moves the cursor past both |
| Logger.Session.WriteStep | test.c:163-209 | one write pass stores `Cropped(frame)` then the current packet at the cursor and changes no other flash byte. It advances the cursor by `CROP_SIZE + PACKET_SIZE` and increments `image_number` modulo 2^16 |
| Logger.Session.WriteSession | test.c:160-209 | after `n` passes, `flash_address == n*(CROP_SIZE+PACKET_SIZE)` and `image_number == n`. Record `j` holds frame `j`'s crop at `j*71704` and the packet at `j*71704 + CROP_SIZE`, and the flash beyond is untouched |
| Logger.Session.FetchFrame | test.c:212-214 | the frame buffer is zeroed, the frame at the cursor is read into its front, and the cursor moves by `CROP_SIZE` |
| Logger.Session.LabelPass | test.c:228-232 | starting at `CROP_SIZE` and stepping by `CROP_SIZE + PACKET_SIZE`, the pass fetches the packet of each record `0..n-1`, in order |
| Logger.Session.ReadStep | test.c:212-259 | with the cursor at record `n == image_number`: if frame `n` starts `0xFF 0xFF` or `n > READSIZE`, the step ends with the label pass over records `0..n-1`. Otherwise it exports frame `n` as `img<n>`, reads its packet and moves cursor and count to record `n+1`. It ends exactly when `n` is the stop index |
| Logger.Session.ReadSession | test.c:160-259 | a read session exports exactly records `0..k-1`, where `k` is the first record whose frame starts `0xFF 0xFF` (or `READSIZE+1`), so at most `READSIZE+1` images. Image `j` is frame `j` named `img<j>`, and the label pass yields the packet of each of them |
| Logger.HoldsRecordsNext | test.c:200-203 | storing record `k` on top of records `0..k-1` keeps them, adds frame `k`'s crop and the packet, and leaves the flash beyond untouched |
| Records.AppendRecordLayout | test.c:200-203 | programming record `k` at `k*(CROP_SIZE+PACKET_SIZE)` stores its frame and packet where the reader looks for them, and changes no earlier record and nothing after it |
| Records.IsEndMarker | test.c:216 | a fully erased frame is an end marker |
| Records.StopsAt | test.c:216 | the reader stops at a record whose frame lies in erased flash, and at every record past `READSIZE` |
| Records.StopFrom | test.c:212-216 | scanning from record `n <= READSIZE+1`, the stop lies between `n` and `READSIZE+1` |
| Records.StopIndex | test.c:216 | whatever the flash holds, the session never exports more than `READSIZE+1` images |
| Records.StopFromFirst | test.c:212-216 | scanning from record `n`, every record before the stop is readable and not a stop, and the stop itself is an end marker or beyond the cap |
| Records.StopIndexFirst | test.c:212-216 | no record before the stop index starts with `0xFF 0xFF`, the stop index is at most `READSIZE+1`, and below the cap the stopping frame is the end marker |
| Records.StopsExactlyAtStopIndex | test.c:216 | reading record by record from 0, the reader's test first fires exactly at the stop index |
| Records.StopIndexOfWritten | test.c:216 | a flash with `n <= READSIZE` records, none starting `0xFF 0xFF`, and then an end marker reads back as exactly `n` records |
| Logger.ReadBackOfWritten | test.c:228-232 | what a write session stored is what a read session returns: frame `j`'s crop under `img<j>`, and the packet where the label pass fetches it |
| Records.Pad5 | test.c:251 | `%05d` of a number below 100000 is exactly five decimal digits |
| Records.ParsePad5 | test.c:251 | the five digits read back as the number they were made from |
| Records.ImageName | test.c:251 | the name is `../../../images/img`, five decimal digits and `.ppm` (28 characters), and the digits read back as the image number |
| Logger.ExportedImagesNext | test.c:251-253 | exporting one more record appends one image, named after that record's number and holding its frame |
| Records.ImageNameInjective | test.c:251 | two different image numbers never get the same file name, and every name is 28 characters long |

## Left out

- Camera and hardware setup are not modelled: opening and configuring the camera, orientation and QVGA registers, GPIO LED writes, delays and pad muxing. These are driver calls with no logic here.
- Flash chip open, erase and close are not modelled. A write session starts on whatever the `flash` array holds, and its contract speaks only of the bytes it programs.
- Logger.Program: copies bytes into flash. Real NOR programming can only clear bits (old AND new), so the model assumes the target region is erased and does not check it, as the source does not.
- Logger.Session.WriteStep: requires the record to fit on the chip, and the chip to be below 2^32 bytes. This way `flash_address` (a `uint32_t`) never wraps. What the hardware does when programming past the chip's end is not modelled.
- Logger.Session.ReadSession: requires every frame the session reads, including the stopping one, to lie on the chip. Reads past the chip's end are not modelled.
- Framer.BuffStrip: for `i < 25` the source reads `src[i-25]`, before the start of the chunk, which is undefined behaviour. The model treats those positions as never matching. The function's declared `float` result is never returned or used and is not modelled.
- Logger.Session.WriteSession: runs the frames with no UART callback in between. In this revision the async read that would start the callback chain is commented out (test.c:122), so `buff_packet` keeps its value for the whole session. `OnUartReceive` and `ReceiveChain` model the callback on its own.
- Float semantics are left out. The union reinterpretation is kept as raw 32-bit words, and `pos_z > 0.3f` is stated on the bit pattern (see above).
- Export and formatting are not modelled: host filesystem mount and unmount, `WriteImageToFile`, the `sprintf` of the label line with `%f`, and `printf`. The read session returns the images it would write and the packets its label pass fetches. The label line's decode and format body is dead code (`if (false)`, test.c:235-243).
- A source defect is noted but not modelled: `image_name` is declared `char[13]`, but the path written into it at test.c:251 takes 28 characters plus the terminator, so `sprintf` overflows it. `Records.ImageNameInjective` proves the 28-character length.
- The UART open and the re-arm call in `uart_rx_cb` (test.c:110-120, 327) are I/O. Re-arming is modelled only as the callback running once per chunk in `ReceiveChain`.
- Demosaicking and the commented-out earlier versions of `decode_packet` and `uart_rx_cb` (test.c:330-371) are not modelled.
