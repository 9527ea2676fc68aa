// The packet splitter `decode_packet` (test.c:286-316) and the storing latch
// of `uart_rx_cb` (test.c:57, 319-328).  Each 4-byte group of the packet is
// read through a union as a `float` on a little-endian target; the model keeps
// the 32 bits of each field as a `Word` and never interprets them as a number.
module Telemetry {
  import opened Layout

  /** The six `float` globals that `uart_rx_cb` hands to `decode_packet`,
    * in argument order (test.c:55, 323). */
  datatype Sample = Sample(tick: Word, posZ: Word, accZ: Word, gyroX: Word, gyroY: Word, gyroZ: Word)

  /** Four bytes, least significant first, as one 32-bit word. */
  function LeWord(b: seq<Byte>): Word
    requires |b| == 4
  {
    b[0] as int + 0x100 * (b[1] as int) + 0x1_0000 * (b[2] as int) + 0x100_0000 * (b[3] as int)
  }

  /** The four bytes of a word, least significant first. */
  function WordBytes(w: Word): (b: seq<Byte>)
    ensures |b| == 4
  {
    var q1 := w / 0x100;
    var q2 := q1 / 0x100;
    [w % 0x100, q1 % 0x100, q2 % 0x100, q2 / 0x100]
  }

  lemma WordBytesLeWord(b: seq<Byte>)
    requires |b| == 4
    ensures WordBytes(LeWord(b)) == b
  {
    var w := LeWord(b);
    var q2 := b[2] as int + 0x100 * (b[3] as int);
    var q1 := b[1] as int + 0x100 * q2;
    assert w == b[0] as int + 0x100 * q1;
    assert w / 0x100 == q1 && w % 0x100 == b[0];
    assert q1 / 0x100 == q2 && q1 % 0x100 == b[1];
    assert q2 / 0x100 == b[3] && q2 % 0x100 == b[2];
  }

  lemma LeWordWordBytes(w: Word)
    ensures LeWord(WordBytes(w)) == w
  {
    var q1 := w / 0x100;
    var q2 := q1 / 0x100;
    assert w == w % 0x100 + 0x100 * q1;
    assert q1 == q1 % 0x100 + 0x100 * q2;
    assert q2 == q2 % 0x100 + 0x100 * (q2 / 0x100);
  }

  /** The word of field `k`: the union filled with `src[4k..4k+4)`. */
  function FieldWord(src: seq<Byte>, k: nat): Word
    requires |src| == PACKET_SIZE && k < FIELD_COUNT
  {
    LeWord(src[4 * k..4 * k + 4])
  }

  /** `decode_packet`: six consecutive 4-byte groups, in field order. */
  function DecodePacket(src: seq<Byte>): (s: Sample)
    requires |src| == PACKET_SIZE
    ensures forall k :: 0 <= k < FIELD_COUNT ==> Fields(s)[k] == LeWord(src[4 * k..4 * k + 4])
  {
    Sample(FieldWord(src, 0), FieldWord(src, 1), FieldWord(src, 2),
           FieldWord(src, 3), FieldWord(src, 4), FieldWord(src, 5))
  }

  function Fields(s: Sample): (ws: seq<Word>)
    ensures |ws| == FIELD_COUNT
  {
    [s.tick, s.posZ, s.accZ, s.gyroX, s.gyroY, s.gyroZ]
  }

  /** The packet a sender builds for a sample: the fields' bytes, concatenated in order. */
  function EncodePacket(s: Sample): (p: seq<Byte>)
    ensures |p| == PACKET_SIZE
  {
    WordBytes(s.tick) + WordBytes(s.posZ) + WordBytes(s.accZ) +
    WordBytes(s.gyroX) + WordBytes(s.gyroY) + WordBytes(s.gyroZ)
  }

  /** Field `k` of the decoded sample is the word of bytes `4k..4k+3` and of no other byte. */
  lemma DecodeFieldLocal(src: seq<Byte>, other: seq<Byte>, k: nat)
    requires |src| == PACKET_SIZE && |other| == PACKET_SIZE && k < FIELD_COUNT
    requires src[4 * k..4 * k + 4] == other[4 * k..4 * k + 4]
    ensures Fields(DecodePacket(src))[k] == Fields(DecodePacket(other))[k]
    ensures Fields(DecodePacket(src))[k] == LeWord(src[4 * k..4 * k + 4])
  {
  }

  /** Concatenating the six decoded groups gives back the packet, byte for byte. */
  lemma EncodeDecode(src: seq<Byte>)
    requires |src| == PACKET_SIZE
    ensures EncodePacket(DecodePacket(src)) == src
  {
    var s := DecodePacket(src);
    forall k | 0 <= k < FIELD_COUNT
      ensures WordBytes(FieldWord(src, k)) == src[4 * k..4 * k + 4]
    {
      WordBytesLeWord(src[4 * k..4 * k + 4]);
    }
    assert src == src[0..4] + src[4..8] + src[8..12] + src[12..16] + src[16..20] + src[20..24];
  }

  /** Decoding the packet built from a sample gives back that sample, bit for bit. */
  lemma DecodeEncode(s: Sample)
    ensures DecodePacket(EncodePacket(s)) == s
  {
    var p := EncodePacket(s);
    var ws := Fields(s);
    forall k | 0 <= k < FIELD_COUNT
      ensures FieldWord(p, k) == ws[k]
    {
      assert p[4 * k..4 * k + 4] == WordBytes(ws[k]);
      LeWordWordBytes(ws[k]);
    }
    assert FieldWord(p, 0) == s.tick && FieldWord(p, 1) == s.posZ && FieldWord(p, 2) == s.accZ;
    assert FieldWord(p, 3) == s.gyroX && FieldWord(p, 4) == s.gyroY && FieldWord(p, 5) == s.gyroZ;
  }

  /** Bits of the binary32 constant `0.3f` and of positive infinity. */
  const THRESHOLD_BITS: Word := 0x3E99_999A
  const POSITIVE_INFINITY_BITS: Word := 0x7F80_0000

  /** `pos_z > 0.3f` on the bits of `pos_z`: binary32 values with a clear sign bit are
    * ordered like their bit patterns, every value with the sign bit set is below 0.3,
    * and a NaN (above the infinity pattern) compares false. */
  predicate ExceedsThreshold(z: Word)
    ensures ExceedsThreshold(z) ==> z < 0x8000_0000
    ensures z == THRESHOLD_BITS ==> !ExceedsThreshold(z)
    ensures z == THRESHOLD_BITS + 1 || z == POSITIVE_INFINITY_BITS ==> ExceedsThreshold(z)
    ensures POSITIVE_INFINITY_BITS < z < 0x8000_0000 ==> !ExceedsThreshold(z)
  {
    THRESHOLD_BITS < z <= POSITIVE_INFINITY_BITS
  }

  /** The latch update at the end of `uart_rx_cb`: assigned only `true`, never `false`. */
  function NextLatch(latched: bool, posZ: Word): (r: bool)
    ensures r <==> latched || ExceedsThreshold(posZ)
  {
    if ExceedsThreshold(posZ) then true else latched
  }

  /** The latch after a run of callbacks that decoded the altitudes `zs`, in order. */
  function LatchAfter(latched: bool, zs: seq<Word>): bool
    decreases |zs|
  {
    if zs == [] then latched else LatchAfter(NextLatch(latched, zs[0]), zs[1..])
  }

  /** Once set, no later callback clears the latch, whatever altitude it decodes. */
  lemma {:induction false} LatchStaysSet(zs: seq<Word>)
    ensures LatchAfter(true, zs)
  {
    if zs != [] {
      LatchStaysSet(zs[1..]);
    }
  }

  /** Starting cleared (`start_storing = false`), the latch is set exactly when some
    * decoded altitude exceeded the threshold. */
  lemma {:induction false} LatchSetIffExceeded(zs: seq<Word>)
    ensures LatchAfter(false, zs) <==> exists i :: 0 <= i < |zs| && ExceedsThreshold(zs[i])
  {
    if zs != [] {
      if ExceedsThreshold(zs[0]) {
        LatchStaysSet(zs[1..]);
      } else {
        LatchSetIffExceeded(zs[1..]);
        assert forall i :: 1 <= i < |zs| ==> zs[i] == zs[1..][i - 1];
      }
    }
  }
}
