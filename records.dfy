// The record store on flash (test.c:198-203, 212-259): records of
// `CROP_SIZE + PACKET_SIZE` bytes back to back from address 0, the read
// session's stop rule, and the `img%05d` names under which frames are exported.
module Records {
  import opened Layout

  /** Address of record `n`'s frame, and of the packet stored right after it. */
  function FrameOffset(n: nat): nat { n * RECORD_SIZE }
  function PacketOffset(n: nat): nat { n * RECORD_SIZE + CROP_SIZE }

  /** The flash is large enough to hold record `n`'s frame (the read session reads it). */
  predicate FrameReadable(flash: seq<Byte>, n: nat)
  {
    FrameOffset(n) + CROP_SIZE <= |flash|
  }

  function FrameAt(flash: seq<Byte>, n: nat): (frame: seq<Byte>)
    requires FrameReadable(flash, n)
    ensures |frame| == CROP_SIZE
  {
    flash[FrameOffset(n)..FrameOffset(n) + CROP_SIZE]
  }

  function PacketAt(flash: seq<Byte>, n: nat): (p: seq<Byte>)
    requires FrameOffset(n + 1) <= |flash|
    ensures |p| == PACKET_SIZE
  {
    flash[PacketOffset(n)..PacketOffset(n) + PACKET_SIZE]
  }

  /** The packets of records `0..n-1`, in record order. */
  function StoredPackets(flash: seq<Byte>, n: nat): (ps: seq<seq<Byte>>)
    requires FrameOffset(n) <= |flash|
    ensures |ps| == n
  {
    seq(n, j requires 0 <= j < n => PacketAt(flash, j))
  }

  /** The reader's end test: a frame whose first two bytes read as erased flash.
    * Only two bytes are examined, so a real frame beginning with 0xFF 0xFF also ends
    * the session. */
  predicate IsEndMarker(frame: seq<Byte>)
    requires |frame| >= 2
    ensures (forall i :: 0 <= i < |frame| ==> frame[i] == ERASED) ==> IsEndMarker(frame)
  {
    frame[0] == ERASED && frame[1] == ERASED
  }

  /** The reader stops at record `n` when its frame is the end marker or when
    * `image_number > READSIZE`. */
  predicate StopsAt(flash: seq<Byte>, n: nat)
    requires FrameReadable(flash, n)
    ensures (forall i :: FrameOffset(n) <= i < FrameOffset(n) + CROP_SIZE ==> flash[i] == ERASED) ==>
      StopsAt(flash, n)
    ensures n > READSIZE ==> StopsAt(flash, n)
  {
    IsEndMarker(FrameAt(flash, n)) || n > READSIZE
  }

  /** The first record, from `n` on, at which the reader stops (or whose frame
    * lies beyond the flash). */
  function StopFrom(flash: seq<Byte>, n: nat): (r: nat)
    ensures n <= r && (n <= READSIZE + 1 ==> r <= READSIZE + 1)
    decreases READSIZE + 1 - n
  {
    if n > READSIZE || !FrameReadable(flash, n) || StopsAt(flash, n) then n
    else StopFrom(flash, n + 1)
  }

  /** The number of records a read session exports. */
  function StopIndex(flash: seq<Byte>): (r: nat)
    ensures r <= READSIZE + 1
  {
    StopFrom(flash, 0)
  }

  lemma {:induction false} StopFromFirst(flash: seq<Byte>, n: nat)
    requires FrameReadable(flash, StopFrom(flash, n))
    ensures n <= StopFrom(flash, n) <= if n > READSIZE then n else READSIZE + 1
    ensures StopsAt(flash, StopFrom(flash, n))
    ensures forall j :: n <= j < StopFrom(flash, n) ==>
      FrameReadable(flash, j) && !StopsAt(flash, j) && !IsEndMarker(FrameAt(flash, j))
    decreases READSIZE + 1 - n
  {
    if !(n > READSIZE || !FrameReadable(flash, n) || StopsAt(flash, n)) {
      StopFromFirst(flash, n + 1);
    }
  }

  /** When the stopping frame lies in the flash, the session exports exactly the records
    * before the first stopping one: no earlier frame is an end marker, the stopping one
    * is an end marker or the cap, and at most `READSIZE + 1` records are exported. */
  lemma StopIndexFirst(flash: seq<Byte>)
    requires FrameReadable(flash, StopIndex(flash))
    ensures StopIndex(flash) <= READSIZE + 1
    ensures StopIndex(flash) <= READSIZE ==> IsEndMarker(FrameAt(flash, StopIndex(flash)))
    ensures forall j :: 0 <= j < StopIndex(flash) ==> !IsEndMarker(FrameAt(flash, j))
  {
    StopFromFirst(flash, 0);
  }

  /** Reading record by record from 0, the reader first stops exactly at `StopIndex`. */
  lemma StopsExactlyAtStopIndex(flash: seq<Byte>, n: nat)
    requires FrameReadable(flash, StopIndex(flash)) && n <= StopIndex(flash)
    ensures FrameReadable(flash, n)
    ensures StopsAt(flash, n) <==> n == StopIndex(flash)
  {
    StopFromFirst(flash, 0);
  }

  /** A flash holding `n <= READSIZE` written records, none of whose frames begins with
    * two erased bytes, followed by an end marker, reads back as exactly those `n` records. */
  lemma {:induction false} StopIndexOfWritten(flash: seq<Byte>, n: nat)
    requires n <= READSIZE && FrameReadable(flash, n)
    requires IsEndMarker(FrameAt(flash, n))
    requires forall j :: 0 <= j < n ==> !IsEndMarker(FrameAt(flash, j))
    ensures StopIndex(flash) == n
  {
    StopFromUpTo(flash, 0, n);
  }

  lemma {:induction false} StopFromUpTo(flash: seq<Byte>, i: nat, n: nat)
    requires i <= n <= READSIZE && FrameReadable(flash, n)
    requires IsEndMarker(FrameAt(flash, n))
    requires forall j :: i <= j < n ==> !IsEndMarker(FrameAt(flash, j))
    ensures StopFrom(flash, i) == n
    decreases n - i
  {
    if i < n {
      assert FrameOffset(i) + CROP_SIZE <= FrameOffset(n) + CROP_SIZE;
      StopFromUpTo(flash, i + 1, n);
    }
  }

  /** Programming record `k` in place (frame, then packet, at `FrameOffset(k)`) stores
    * exactly that record and leaves every earlier record, and everything after it, as it was. */
  lemma AppendRecordLayout(before: seq<Byte>, after: seq<Byte>, k: nat, frame: seq<Byte>, packet: seq<Byte>)
    requires FrameOffset(k + 1) <= |before| && |frame| == CROP_SIZE && |packet| == PACKET_SIZE
    requires after == before[..FrameOffset(k)] + frame + packet + before[FrameOffset(k + 1)..]
    ensures |after| == |before|
    ensures FrameAt(after, k) == frame && PacketAt(after, k) == packet
    ensures forall n :: 0 <= n < k ==> FrameAt(after, n) == FrameAt(before, n) && PacketAt(after, n) == PacketAt(before, n)
    ensures after[FrameOffset(k + 1)..] == before[FrameOffset(k + 1)..]
  {
    assert after[..FrameOffset(k)] == before[..FrameOffset(k)];
    forall n | 0 <= n < k
      ensures FrameAt(after, n) == FrameAt(before, n) && PacketAt(after, n) == PacketAt(before, n)
    {
      assert FrameOffset(n + 1) <= FrameOffset(k);
    }
  }

  // ----- image names (test.c:251)

  function DigitChar(d: nat): (ch: char)
    requires d < 10
    ensures '0' <= ch <= '9'
  {
    ('0' as int + d) as char
  }

  function DigitValue(ch: char): nat
    requires '0' <= ch <= '9'
  {
    ch as int - '0' as int
  }

  /** `%05d`: five decimal digits, most significant first, zero-padded. */
  function Pad5(n: nat): (s: string)
    requires n < 100000
    ensures |s| == 5 && forall i :: 0 <= i < 5 ==> '0' <= s[i] <= '9'
  {
    var n1 := n / 10;
    var n2 := n1 / 10;
    var n3 := n2 / 10;
    var n4 := n3 / 10;
    [DigitChar(n4 % 10), DigitChar(n3 % 10), DigitChar(n2 % 10), DigitChar(n1 % 10), DigitChar(n % 10)]
  }

  /** The value of a string of decimal digits. */
  function ParseDecimal(s: string): nat
    requires forall i :: 0 <= i < |s| ==> '0' <= s[i] <= '9'
  {
    if s == [] then 0 else 10 * ParseDecimal(s[..|s| - 1]) + DigitValue(s[|s| - 1])
  }

  /** The five digits read back as the number they were made from. */
  lemma ParsePad5(n: nat)
    requires n < 100000
    ensures ParseDecimal(Pad5(n)) == n
  {
    var s := Pad5(n);
    var n1 := n / 10;
    var n2 := n1 / 10;
    var n3 := n2 / 10;
    var n4 := n3 / 10;
    assert s[..1][..0] == [] && s[..2][..1] == s[..1] && s[..3][..2] == s[..2] && s[..4][..3] == s[..3];
    assert ParseDecimal(s[..1]) == n4;
    assert ParseDecimal(s[..2]) == n3;
    assert ParseDecimal(s[..3]) == n2;
    assert ParseDecimal(s[..4]) == n1;
  }

  const IMAGE_PREFIX: string := "../../../images/img"
  const IMAGE_SUFFIX: string := ".ppm"

  /** The path an exported frame is written to, for record number `n`. */
  function ImageName(n: nat): (name: string)
    requires n < 100000
    ensures |name| == |IMAGE_PREFIX| + 5 + |IMAGE_SUFFIX|
    ensures name[..|IMAGE_PREFIX|] == IMAGE_PREFIX && name[|IMAGE_PREFIX| + 5..] == IMAGE_SUFFIX
    ensures forall i :: |IMAGE_PREFIX| <= i < |IMAGE_PREFIX| + 5 ==> '0' <= name[i] <= '9'
    ensures ParseDecimal(name[|IMAGE_PREFIX|..|IMAGE_PREFIX| + 5]) == n
  {
    ParsePad5(n);
    var name := IMAGE_PREFIX + Pad5(n) + IMAGE_SUFFIX;
    assert name[|IMAGE_PREFIX|..|IMAGE_PREFIX| + 5] == Pad5(n);
    name
  }

  /** Every record gets a name of its own, and the name always takes 28 characters. */
  lemma ImageNameInjective(n: nat, m: nat)
    requires n < 100000 && m < 100000
    ensures |ImageName(n)| == 28
    ensures ImageName(n) == ImageName(m) ==> n == m
  {
    if ImageName(n) == ImageName(m) {
      assert Pad5(n) == ImageName(n)[|IMAGE_PREFIX|..|IMAGE_PREFIX| + 5];
      assert Pad5(m) == ImageName(m)[|IMAGE_PREFIX|..|IMAGE_PREFIX| + 5];
      ParsePad5(n);
      ParsePad5(m);
    }
  }
}
