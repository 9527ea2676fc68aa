// The logger's global state and the two branches of `test_camera`'s `while(1)`
// loop (test.c:160-262), with the UART receive callback (test.c:319-328).
// Flash programming and reading, camera capture and the UART's async read are
// foreign calls; each becomes a copy between arrays or a parameter.
module Logger {
  import opened Layout
  import opened Framer
  import opened Telemetry
  import opened Crop
  import opened Records

  /** One frame handed to `WriteImageToFile` (test.c:251-253). */
  datatype ExportedImage = ExportedImage(name: string, pixels: seq<Byte>)

  /** One pass of the read-session loop either exports a record or ends the session
    * after the label pass has fetched the stored packets (test.c:216-250). */
  datatype ReadOutcome = Exported(image: ExportedImage) | Finished(labels: seq<seq<Byte>>)

  /** `pi_flash_program`: the `size` first bytes of `src` land at `address`. */
  method Program(flash: array<Byte>, address: nat, src: array<Byte>, size: nat)
    requires src != flash && size <= src.Length && address + size <= flash.Length
    modifies flash
    ensures flash[..] == old(flash[..address]) + src[..size] + old(flash[address + size..])
  {
    forall k | address <= k < address + size {
      flash[k] := src[k - address];
    }
  }

  /** `pi_flash_read`: the `size` bytes at `address` land at the front of `dst`. */
  method ReadFlash(flash: array<Byte>, address: nat, dst: array<Byte>, size: nat)
    requires dst != flash && size <= dst.Length && address + size <= flash.Length
    modifies dst
    ensures dst[..] == flash[address..address + size] + old(dst[size..])
  {
    forall k | 0 <= k < size {
      dst[k] := flash[address + k];
    }
  }

  /** Altitudes decoded by a chain of receive callbacks, starting from packet `p`. */
  function AltitudesOf(p: seq<Byte>, chunks: seq<seq<Byte>>): seq<Word>
    requires |p| == PACKET_SIZE
    requires forall i :: 0 <= i < |chunks| ==> |chunks[i]| == UART_RCV_SIZE
    decreases |chunks|
  {
    if chunks == [] then []
    else
      var next := Stripped(chunks[0], p);
      [DecodePacket(next).posZ] + AltitudesOf(next, chunks[1..])
  }

  /** The packet buffer after a chain of receive callbacks on `chunks`, starting from `p`:
    * each chunk is stripped into the packet the previous one left. */
  function PacketAfter(p: seq<Byte>, chunks: seq<seq<Byte>>): (r: seq<Byte>)
    requires |p| == PACKET_SIZE
    requires forall i :: 0 <= i < |chunks| ==> |chunks[i]| == UART_RCV_SIZE
    ensures |r| == PACKET_SIZE
    decreases |chunks|
  {
    if chunks == [] then p else PacketAfter(Stripped(chunks[0], p), chunks[1..])
  }

  /** Peeling the next chunk `chunks[i]` off the rest of the chain. */
  lemma ChainStep(p: seq<Byte>, chunks: seq<seq<Byte>>, i: nat)
    requires |p| == PACKET_SIZE && i < |chunks|
    requires forall j :: 0 <= j < |chunks| ==> |chunks[j]| == UART_RCV_SIZE
    ensures PacketAfter(p, chunks[i..]) == PacketAfter(Stripped(chunks[i], p), chunks[i + 1..])
    ensures AltitudesOf(p, chunks[i..]) ==
      [DecodePacket(Stripped(chunks[i], p)).posZ] + AltitudesOf(Stripped(chunks[i], p), chunks[i + 1..])
  {
    assert chunks[i..][0] == chunks[i] && chunks[i..][1..] == chunks[i + 1..];
  }

  /** The last callback decides the packet: it is the last chunk stripped into what the
    * earlier chunks left, and its altitude is the last one the latch saw. */
  lemma {:induction false} PacketAfterLast(p: seq<Byte>, chunks: seq<seq<Byte>>)
    requires |p| == PACKET_SIZE && chunks != []
    requires forall i :: 0 <= i < |chunks| ==> |chunks[i]| == UART_RCV_SIZE
    ensures PacketAfter(p, chunks) ==
      Stripped(chunks[|chunks| - 1], PacketAfter(p, chunks[..|chunks| - 1]))
    ensures |AltitudesOf(p, chunks)| == |chunks|
    ensures AltitudesOf(p, chunks)[|chunks| - 1] == DecodePacket(PacketAfter(p, chunks)).posZ
    decreases |chunks|
  {
    if |chunks| > 1 {
      var next := Stripped(chunks[0], p);
      PacketAfterLast(next, chunks[1..]);
      assert chunks[1..][..|chunks| - 2] == chunks[..|chunks| - 1][1..];
      assert chunks[1..][|chunks| - 2] == chunks[|chunks| - 1];
    } else {
      assert chunks[..0] == [];
    }
  }

  /** The flash holds records `0..k-1` of a write session over `frames` whose packet
    * buffer held `p` throughout. */
  ghost predicate HoldsRecords(flash: seq<Byte>, frames: seq<seq<Byte>>, p: seq<Byte>, k: nat)
    requires k <= |frames| && FrameOffset(k) <= |flash|
    requires forall n :: 0 <= n < |frames| ==> |frames[n]| == BUFF_SIZE
  {
    forall n :: 0 <= n < k ==> FrameAt(flash, n) == Cropped(frames[n]) && PacketAt(flash, n) == p
  }

  /** Programming record `k` of the session on top of the first `k` keeps them and adds
    * the `k`-th, and leaves the flash beyond it as it was. */
  lemma HoldsRecordsNext(before: seq<Byte>, after: seq<Byte>, frames: seq<seq<Byte>>, p: seq<Byte>, k: nat)
    requires k < |frames| && FrameOffset(k + 1) <= |before| && |p| == PACKET_SIZE
    requires forall n :: 0 <= n < |frames| ==> |frames[n]| == BUFF_SIZE
    requires HoldsRecords(before, frames, p, k)
    requires after == before[..FrameOffset(k)] + Cropped(frames[k]) + p + before[FrameOffset(k + 1)..]
    ensures FrameOffset(k + 1) <= |after| && HoldsRecords(after, frames, p, k + 1)
    ensures after[FrameOffset(k + 1)..] == before[FrameOffset(k + 1)..]
  {
    AppendRecordLayout(before, after, k, Cropped(frames[k]), p);
  }

  /** The images a read session exports for records `0..n-1`: frame `j` under `img<j>`. */
  function ExportedImages(flash: seq<Byte>, n: nat): (images: seq<ExportedImage>)
    requires n <= READSIZE + 1 && FrameOffset(n) <= |flash|
    ensures |images| == n
  {
    seq(n, j requires 0 <= j < n => ExportedImage(ImageName(j), FrameAt(flash, j)))
  }

  /** One more exported record appends one image, named after its record number. */
  lemma ExportedImagesNext(flash: seq<Byte>, n: nat)
    requires n + 1 <= READSIZE + 1 && FrameOffset(n + 1) <= |flash|
    ensures FrameOffset(n) <= |flash|
    ensures ExportedImages(flash, n + 1) ==
      ExportedImages(flash, n) + [ExportedImage(ImageName(n), FrameAt(flash, n))]
  {
    assert FrameOffset(n) <= FrameOffset(n + 1);
    assert ExportedImages(flash, n + 1)[..n] == ExportedImages(flash, n);
  }

  /** What a write session stores, a read session gives back: with an end marker after
    * the last record and no cropped frame that itself begins with two erased bytes, the
    * reader exports exactly the written frames, under `img00000`, `img00001`, ..., and the
    * label pass fetches each record's packet from where the writer put it. */
  lemma ReadBackOfWritten(flash: seq<Byte>, frames: seq<seq<Byte>>, p: seq<Byte>)
    requires |frames| <= READSIZE && FrameReadable(flash, |frames|)
    requires forall n :: 0 <= n < |frames| ==> |frames[n]| == BUFF_SIZE
    requires HoldsRecords(flash, frames, p, |frames|)
    requires IsEndMarker(FrameAt(flash, |frames|))
    requires forall n :: 0 <= n < |frames| ==> !IsEndMarker(Cropped(frames[n]))
    ensures StopIndex(flash) == |frames|
    ensures forall j :: 0 <= j < |frames| ==>
      ExportedImages(flash, |frames|)[j] == ExportedImage(ImageName(j), Cropped(frames[j]))
    ensures forall j :: 0 <= j < |frames| ==> StoredPackets(flash, |frames|)[j] == p
  {
    StopIndexOfWritten(flash, |frames|);
  }

  /** Two back-to-back programs write their two payloads back to back. */
  lemma ProgramTwice(chip: seq<Byte>, mid: seq<Byte>, last: seq<Byte>, a: nat, x: seq<Byte>, y: seq<Byte>)
    requires a + |x| + |y| <= |chip|
    requires mid == chip[..a] + x + chip[a + |x|..]
    requires last == mid[..a + |x|] + y + mid[a + |x| + |y|..]
    ensures last == chip[..a] + x + y + chip[a + |x| + |y|..]
  {
    assert mid[..a + |x|] == chip[..a] + x;
    assert mid[a + |x| + |y|..] == chip[a + |x| + |y|..];
  }

  class Session {
    /** `buff`: the raw frame, cropped in place (test.c:27, 74). */
    const buff: array<Byte>
    /** `buff_packet`, `buff_packet_tmp`, `buff_uart_rcv` (test.c:33-35). */
    const packet: array<Byte>
    const packetSnapshot: array<Byte>
    const uartRcv: array<Byte>
    /** The contents of the flash chip. */
    const flash: array<Byte>
    /** `flash_address`, `image_number`, `start_storing` (test.c:46-57). */
    var flashAddress: nat
    var imageNumber: nat
    var startStoring: bool
    /** `cf_tick`, `pos_z`, `acc_z`, `gyro_x`, `gyro_y`, `gyro_z` (test.c:55). */
    var sample: Sample

    /** Buffer sizes, distinct buffers, and a chip addressable by a `uint32_t` cursor. */
    ghost predicate Valid()
      reads this
    {
      buff.Length == BUFF_SIZE && packet.Length == PACKET_SIZE &&
      packetSnapshot.Length == PACKET_SIZE && uartRcv.Length == UART_RCV_SIZE &&
      flash.Length < ADDRESS_SPACE &&
      packet != packetSnapshot &&
      flash != buff && flash != packet && flash != packetSnapshot && flash != uartRcv &&
      imageNumber < IMAGE_NUMBER_MODULUS
    }

    /** Program start: the static buffers and the globals zero-initialised (test.c:33-35,
      * 46-57), `start_storing = false`, the frame buffer freshly allocated with whatever it
      * holds, and the chip holding whatever it held. */
    constructor (chip: seq<Byte>)
      requires |chip| < ADDRESS_SPACE
      ensures Valid() && flash[..] == chip
      ensures packet[..] == seq(PACKET_SIZE, _ => 0) && packetSnapshot[..] == seq(PACKET_SIZE, _ => 0)
      ensures uartRcv[..] == seq(UART_RCV_SIZE, _ => 0)
      ensures sample == Sample(0, 0, 0, 0, 0, 0)
      ensures flashAddress == 0 && imageNumber == 0 && !startStoring
      ensures fresh(buff) && fresh(packet) && fresh(packetSnapshot) && fresh(uartRcv) && fresh(flash)
    {
      buff := new Byte[BUFF_SIZE];
      packet := new Byte[PACKET_SIZE](_ => 0);
      packetSnapshot := new Byte[PACKET_SIZE](_ => 0);
      uartRcv := new Byte[UART_RCV_SIZE](_ => 0);
      flash := new Byte[|chip|](i requires 0 <= i < |chip| => chip[i]);
      flashAddress, imageNumber, startStoring := 0, 0, false;
      sample := Sample(0, 0, 0, 0, 0, 0);
    }

    // ----- telemetry intake

    /** `uart_rx_cb` once the async read has filled `buff_uart_rcv` with `chunk`:
      * strip, decode, and latch `start_storing` when `pos_z > 0.3f`. */
    method OnUartReceive(chunk: seq<Byte>)
      requires Valid() && |chunk| == UART_RCV_SIZE
      modifies this, uartRcv, packet
      ensures Valid()
      ensures uartRcv[..] == chunk
      ensures packet[..] == Stripped(chunk, old(packet[..]))
      ensures sample == DecodePacket(packet[..])
      ensures startStoring == NextLatch(old(startStoring), sample.posZ)
      ensures old(startStoring) ==> startStoring
      ensures flashAddress == old(flashAddress) && imageNumber == old(imageNumber)
    {
      forall k | 0 <= k < UART_RCV_SIZE {
        uartRcv[k] := chunk[k];
      }
      assert uartRcv[..] == chunk && packet[..] == old(packet[..]);
      BuffStrip(uartRcv, packet);
      sample := DecodePacket(packet[..]);
      if ExceedsThreshold(sample.posZ) {
        startStoring := true;
      }
    }

    /** The callback chain: each completion re-arms the next read (test.c:327), so the
      * callback runs once per received chunk, in order. The latch ends as the fold of
      * the decoded altitudes, and never goes back to false. */
    method ReceiveChain(chunks: seq<seq<Byte>>)
      requires Valid()
      requires forall i :: 0 <= i < |chunks| ==> |chunks[i]| == UART_RCV_SIZE
      modifies this, uartRcv, packet
      ensures Valid()
      ensures packet[..] == PacketAfter(old(packet[..]), chunks)
      ensures chunks != [] ==> uartRcv[..] == chunks[|chunks| - 1] && sample == DecodePacket(packet[..])
      ensures chunks == [] ==> uartRcv[..] == old(uartRcv[..]) && sample == old(sample)
      ensures startStoring == LatchAfter(old(startStoring), AltitudesOf(old(packet[..]), chunks))
      ensures old(startStoring) ==> startStoring
      ensures flashAddress == old(flashAddress) && imageNumber == old(imageNumber)
    {
      var i := 0;
      while i < |chunks|
        invariant 0 <= i <= |chunks| && Valid()
        invariant PacketAfter(packet[..], chunks[i..]) == PacketAfter(old(packet[..]), chunks)
        invariant i > 0 ==> uartRcv[..] == chunks[i - 1] && sample == DecodePacket(packet[..])
        invariant i == 0 ==> uartRcv[..] == old(uartRcv[..]) && sample == old(sample)
        invariant LatchAfter(startStoring, AltitudesOf(packet[..], chunks[i..])) ==
                  LatchAfter(old(startStoring), AltitudesOf(old(packet[..]), chunks))
        invariant old(startStoring) ==> startStoring
        invariant flashAddress == old(flashAddress) && imageNumber == old(imageNumber)
      {
        ChainStep(packet[..], chunks, i);
        OnUartReceive(chunks[i]);
        i := i + 1;
      }
      assert chunks[i..] == [];
    }

    // ----- write session

    /** The two programs of test.c:200-203: the cropped frame at the cursor, the packet
      * snapshot right after it, the cursor past both. */
    method AppendRecord()
      requires Valid() && flashAddress + RECORD_SIZE <= flash.Length
      modifies this`flashAddress, flash
      ensures Valid()
      ensures flash[..] == old(flash[..flashAddress]) + buff[..CROP_SIZE] + packetSnapshot[..] +
                           old(flash[flashAddress + RECORD_SIZE..])
      ensures flashAddress == old(flashAddress) + RECORD_SIZE
    {
      ghost var chip := flash[..];
      var address := flashAddress;
      Program(flash, address, buff, CROP_SIZE);
      ghost var mid := flash[..];
      Program(flash, address + CROP_SIZE, packetSnapshot, PACKET_SIZE);
      ProgramTwice(chip, mid, flash[..], address, buff[..CROP_SIZE], packetSnapshot[..]);
      flashAddress := address + CROP_SIZE + PACKET_SIZE;
    }

    /** One pass of the write-session loop (test.c:163-209): capture `frame`, snapshot the
      * packet, crop in place, program the frame then the snapshot, advance the cursor
      * past both, and count the image.  The write is gated by `if(true)`, not by the latch. */
    method WriteStep(frame: seq<Byte>)
      requires Valid() && |frame| == BUFF_SIZE
      requires flashAddress + RECORD_SIZE <= flash.Length
      modifies this, buff, packetSnapshot, flash
      ensures Valid()
      ensures buff[..CROP_SIZE] == Cropped(frame) && buff[CROP_SIZE..] == frame[CROP_SIZE..]
      ensures packetSnapshot[..] == packet[..]
      ensures flash[..] == old(flash[..flashAddress]) + Cropped(frame) + packet[..] +
                           old(flash[flashAddress + RECORD_SIZE..])
      ensures flashAddress == old(flashAddress) + RECORD_SIZE
      ensures imageNumber == (old(imageNumber) + 1) % IMAGE_NUMBER_MODULUS
      ensures startStoring == old(startStoring) && sample == old(sample)
    {
      // pi_camera_capture
      forall k | 0 <= k < BUFF_SIZE {
        buff[k] := frame[k];
      }
      var i := 0;
      while i < PACKET_SIZE
        invariant 0 <= i <= PACKET_SIZE
        invariant packetSnapshot[..i] == packet[..i]
        invariant buff[..] == frame && unchanged(this) && unchanged(flash)
      {
        packetSnapshot[i] := packet[i];
        i := i + 1;
      }
      assert packetSnapshot[..] == packetSnapshot[..PACKET_SIZE];
      var written := CropInPlace(buff);
      AppendRecord();
      imageNumber := (imageNumber + 1) % IMAGE_NUMBER_MODULUS;
    }

    /** A write session over `frames` from a fresh start: record `n` holds frame `n`'s
      * crop at `n * RECORD_SIZE` and the packet at `n * RECORD_SIZE + CROP_SIZE`, the
      * cursor ends at `|frames| * RECORD_SIZE`, and `image_number` counts the frames.
      * The receive read is never armed in this revision (test.c:122), so `buff_packet`
      * keeps its value throughout. */
    method WriteSession(frames: seq<seq<Byte>>)
      requires Valid() && flashAddress == 0 && imageNumber == 0
      requires forall n :: 0 <= n < |frames| ==> |frames[n]| == BUFF_SIZE
      requires |frames| * RECORD_SIZE <= flash.Length
      modifies this, buff, packetSnapshot, flash
      ensures Valid()
      ensures flashAddress == |frames| * RECORD_SIZE && imageNumber == |frames|
      ensures forall n :: 0 <= n < |frames| ==>
        FrameAt(flash[..], n) == Cropped(frames[n]) && PacketAt(flash[..], n) == packet[..]
      ensures flash[flashAddress..] == old(flash[..])[flashAddress..]
      ensures startStoring == old(startStoring) && sample == old(sample)
    {
      var k := 0;
      while k < |frames|
        invariant 0 <= k <= |frames| && Valid()
        invariant flashAddress == FrameOffset(k) && imageNumber == k
        invariant HoldsRecords(flash[..], frames, packet[..], k)
        invariant flash[flashAddress..] == old(flash[..])[flashAddress..]
        invariant startStoring == old(startStoring) && sample == old(sample)
      {
        ghost var before := flash[..];
        assert FrameOffset(k + 1) <= FrameOffset(|frames|);
        WriteStep(frames[k]);
        HoldsRecordsNext(before, flash[..], frames, packet[..], k);
        assert before[FrameOffset(k + 1)..] == before[FrameOffset(k)..][RECORD_SIZE..];
        k := k + 1;
      }
    }

    // ----- read session

    /** test.c:212-214: clear the whole frame buffer, read one frame at the cursor into
      * its front, and move the cursor past the frame. */
    method FetchFrame()
      requires Valid() && flashAddress + CROP_SIZE <= flash.Length
      modifies this`flashAddress, buff
      ensures Valid()
      ensures buff[..CROP_SIZE] == flash[old(flashAddress)..old(flashAddress) + CROP_SIZE]
      ensures forall k :: CROP_SIZE <= k < BUFF_SIZE ==> buff[k] == 0
      ensures flashAddress == old(flashAddress) + CROP_SIZE
    {
      var i := 0;
      while i < BUFF_SIZE
        invariant 0 <= i <= BUFF_SIZE
        invariant forall k :: 0 <= k < i ==> buff[k] == 0
        invariant unchanged(this)
      {
        buff[i] := 0;
        i := i + 1;
      }
      ReadFlash(flash, flashAddress, buff, CROP_SIZE);
      flashAddress := flashAddress + CROP_SIZE;
    }

    /** The label pass of test.c:228-232: from `CROP_SIZE`, step by `RECORD_SIZE` and
      * fetch the packet of each of the `count` records read so far. */
    method LabelPass(count: nat) returns (labels: seq<seq<Byte>>)
      requires Valid() && FrameOffset(count) <= flash.Length
      modifies this`flashAddress, packet
      ensures Valid()
      ensures labels == StoredPackets(flash[..], count)
      ensures flashAddress == CROP_SIZE + count * RECORD_SIZE
    {
      labels := [];
      flashAddress := CROP_SIZE;
      var n := 0;
      while n < count
        invariant 0 <= n <= count
        invariant flashAddress == PacketOffset(n)
        invariant labels == StoredPackets(flash[..], n)
      {
        assert FrameOffset(n + 1) <= FrameOffset(count);
        ReadFlash(flash, flashAddress, packet, PACKET_SIZE);
        assert packet[..] == PacketAt(flash[..], n);
        labels := labels + [packet[..]];
        assert StoredPackets(flash[..], n + 1) == StoredPackets(flash[..], n) + [PacketAt(flash[..], n)];
        flashAddress := flashAddress + RECORD_SIZE;
        n := n + 1;
      }
    }

    /** One pass of the read-session loop (test.c:212-259), with `n = image_number` at
      * the top and the cursor at record `n`. If the reader stops at `n`, the label pass
      * fetches the packets of records `0..n-1`; otherwise frame `n` is exported as
      * `img<n>`, its packet is read, and the cursor moves to record `n + 1`. */
    method ReadStep() returns (outcome: ReadOutcome)
      requires Valid() && flashAddress == FrameOffset(imageNumber)
      requires FrameReadable(flash[..], StopIndex(flash[..])) && imageNumber <= StopIndex(flash[..])
      modifies this, buff, packet
      ensures Valid()
      ensures FrameReadable(flash[..], old(imageNumber))
      ensures buff[..CROP_SIZE] == FrameAt(flash[..], old(imageNumber))
      ensures outcome.Finished? <==> old(imageNumber) == StopIndex(flash[..])
      ensures StopsAt(flash[..], old(imageNumber)) ==>
        outcome == Finished(StoredPackets(flash[..], old(imageNumber))) &&
        imageNumber == old(imageNumber) && flashAddress == PacketOffset(imageNumber)
      ensures !StopsAt(flash[..], old(imageNumber)) ==>
        old(imageNumber) < StopIndex(flash[..]) &&
        outcome == Exported(ExportedImage(ImageName(old(imageNumber)), FrameAt(flash[..], old(imageNumber)))) &&
        packet[..] == PacketAt(flash[..], old(imageNumber)) &&
        imageNumber == old(imageNumber) + 1 && flashAddress == FrameOffset(imageNumber)
      ensures startStoring == old(startStoring) && sample == old(sample)
    {
      ghost var stop := StopIndex(flash[..]);
      StopsExactlyAtStopIndex(flash[..], imageNumber);
      FetchFrame();
      assert buff[..CROP_SIZE] == FrameAt(flash[..], imageNumber);
      if (buff[0] == ERASED && buff[1] == ERASED) || imageNumber > READSIZE {
        // the formatting body of the label pass is dead code (`if (false)`, test.c:235)
        var labels := LabelPass(imageNumber);
        outcome := Finished(labels);
      } else {
        assert imageNumber != stop;
        var image := ExportedImage(ImageName(imageNumber), buff[..CROP_SIZE]);
        assert FrameOffset(imageNumber + 1) <= FrameOffset(stop);
        ReadFlash(flash, flashAddress, packet, PACKET_SIZE);
        flashAddress := flashAddress + PACKET_SIZE;
        imageNumber := imageNumber + 1;
        outcome := Exported(image);
      }
    }

    /** A whole read session from address 0: it exports exactly the records before the
      * first stopping one, frame `j` under the name `img<j>`, and the label pass fetches
      * the packet of each of them. */
    method ReadSession() returns (images: seq<ExportedImage>, labels: seq<seq<Byte>>)
      requires Valid() && flashAddress == 0 && imageNumber == 0
      requires FrameReadable(flash[..], StopIndex(flash[..]))
      modifies this, buff, packet
      ensures |images| == StopIndex(flash[..]) <= READSIZE + 1
      ensures images == ExportedImages(flash[..], |images|)
      ensures labels == StoredPackets(flash[..], |images|)
    {
      ghost var stop := StopIndex(flash[..]);
      images, labels := [], [];
      var done := false;
      while !done
        invariant Valid() && imageNumber == |images| <= stop
        invariant !done ==> flashAddress == FrameOffset(imageNumber)
        invariant done ==> |images| == stop && labels == StoredPackets(flash[..], stop)
        invariant images == ExportedImages(flash[..], |images|)
        decreases stop - |images| + (if done then 0 else 1)
      {
        var outcome := ReadStep();
        match outcome {
          case Exported(image) =>
            ExportedImagesNext(flash[..], |images|);
            images := images + [image];
          case Finished(stored) =>
            labels := stored;
            done := true;
        }
      }
    }
  }
}
