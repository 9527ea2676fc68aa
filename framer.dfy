// The sentinel framer `buff_strip` (test.c:272-283): it scans one receive chunk
// backwards and copies the packet that precedes a sentinel into the packet buffer.
module Framer {
  import opened Layout

  /** Index `i` of the chunk closes a packet: `src[i]` is a sentinel, `src[i-1]` is not,
    * and the byte 25 places back (`PACKET_SIZE + 1`) is a sentinel again.
    * The source also tests `i < 25`, where `src[i-25]` lies before the chunk; those
    * positions are taken never to match. */
  predicate MatchAt(src: seq<Byte>, i: int)
    requires |src| == UART_RCV_SIZE
    ensures MatchAt(src, i) ==> PACKET_SIZE + 1 <= i < UART_RCV_SIZE
  {
    PACKET_SIZE + 1 <= i < UART_RCV_SIZE &&
    src[i] == SENTINEL && src[i - 1] != SENTINEL && src[i - (PACKET_SIZE + 1)] == SENTINEL
  }

  /** The packet buffer once the backward scan has visited indices `UART_RCV_SIZE - 1`
    * down to `i`: the last match visited (the smallest index) wins. */
  function ScanFrom(src: seq<Byte>, tar: seq<Byte>, i: int): (r: seq<Byte>)
    requires |src| == UART_RCV_SIZE && |tar| == PACKET_SIZE
    requires 1 <= i <= UART_RCV_SIZE
    ensures |r| == PACKET_SIZE
    decreases UART_RCV_SIZE - i
  {
    if i == UART_RCV_SIZE then tar
    else if MatchAt(src, i) then src[i - PACKET_SIZE..i]
    else ScanFrom(src, tar, i + 1)
  }

  /** The packet buffer after a whole call of `buff_strip` on chunk `src`; a chunk with
    * no sentinel triple leaves the previous packet in place. */
  function Stripped(src: seq<Byte>, tar: seq<Byte>): (r: seq<Byte>)
    requires |src| == UART_RCV_SIZE && |tar| == PACKET_SIZE
    ensures |r| == PACKET_SIZE
    ensures (forall k :: !MatchAt(src, k)) ==> r == tar
  {
    ScanFromMiss(src, tar, 1);
    ScanFrom(src, tar, 1)
  }

  /** `buff_strip`: writes only `tar`, and leaves there what the backward scan leaves. */
  method BuffStrip(src: array<Byte>, tar: array<Byte>)
    requires src.Length == UART_RCV_SIZE && tar.Length == PACKET_SIZE
    modifies tar
    ensures tar[..] == Stripped(src[..], old(tar[..]))
  {
    var i := UART_RCV_SIZE - 1;
    while i > 0
      invariant 0 <= i < UART_RCV_SIZE
      invariant tar[..] == ScanFrom(src[..], old(tar[..]), i + 1)
    {
      if i >= PACKET_SIZE + 1 && src[i] == SENTINEL && src[i - 1] != SENTINEL && src[i - 25] == SENTINEL {
        var j := 0;
        while j < PACKET_SIZE
          invariant 0 <= j <= PACKET_SIZE
          invariant tar[..j] == src[i - PACKET_SIZE..i - PACKET_SIZE + j]
        {
          tar[j] := src[i - PACKET_SIZE + j];
          j := j + 1;
        }
        assert tar[..] == tar[..PACKET_SIZE];
      }
      i := i - 1;
    }
  }

  lemma {:induction false} ScanFromMiss(src: seq<Byte>, tar: seq<Byte>, i: int)
    requires |src| == UART_RCV_SIZE && |tar| == PACKET_SIZE
    requires 1 <= i <= UART_RCV_SIZE
    ensures (forall k :: i <= k < UART_RCV_SIZE ==> !MatchAt(src, k)) ==> ScanFrom(src, tar, i) == tar
    decreases UART_RCV_SIZE - i
  {
    if i < UART_RCV_SIZE {
      ScanFromMiss(src, tar, i + 1);
    }
  }

  lemma {:induction false} ScanFromLowest(src: seq<Byte>, tar: seq<Byte>, i: int, m: int)
    requires |src| == UART_RCV_SIZE && |tar| == PACKET_SIZE
    requires 1 <= i <= m && MatchAt(src, m)
    requires forall k :: i <= k < m ==> !MatchAt(src, k)
    ensures ScanFrom(src, tar, i) == src[m - PACKET_SIZE..m]
    decreases m - i
  {
    if i < m {
      ScanFromLowest(src, tar, i + 1, m);
    }
  }

  /** With a match, the packet becomes the 24 bytes before the smallest matching index,
    * whatever the packet held before. */
  lemma StrippedMatch(src: seq<Byte>, tar: seq<Byte>, m: int)
    requires |src| == UART_RCV_SIZE && |tar| == PACKET_SIZE
    requires MatchAt(src, m)
    requires forall k :: k < m ==> !MatchAt(src, k)
    ensures Stripped(src, tar) == src[m - PACKET_SIZE..m]
    ensures forall j :: 0 <= j < PACKET_SIZE ==> Stripped(src, tar)[j] == src[m - PACKET_SIZE + j]
  {
    ScanFromLowest(src, tar, 1, m);
  }

  /** A chunk that opens with a sentinel, carries the payload, and closes it with a
    * second sentinel yields that payload, whatever the two trailing bytes are. */
  lemma StrippedFramedPayload(payload: seq<Byte>, trailer: seq<Byte>, tar: seq<Byte>)
    requires |payload| == PACKET_SIZE && |trailer| == 2 && |tar| == PACKET_SIZE
    requires payload[PACKET_SIZE - 1] != SENTINEL
    ensures Stripped([SENTINEL] + payload + [SENTINEL] + trailer, tar) == payload
  {
    var src := [SENTINEL] + payload + [SENTINEL] + trailer;
    assert MatchAt(src, PACKET_SIZE + 1);
    StrippedMatch(src, tar, PACKET_SIZE + 1);
    assert src[1..PACKET_SIZE + 1] == payload;
  }

  /** Whatever the chunk, the packet either keeps its old bytes or is the payload of some match. */
  lemma {:induction false} StrippedSource(src: seq<Byte>, tar: seq<Byte>)
    requires |src| == UART_RCV_SIZE && |tar| == PACKET_SIZE
    ensures var r := Stripped(src, tar);
      (r == tar && forall k :: !MatchAt(src, k)) ||
      (exists m :: MatchAt(src, m) && r == src[m - PACKET_SIZE..m])
  {
    if m :| MatchAt(src, m) {
      var lo := LowestMatch(src, m);
      StrippedMatch(src, tar, lo);
    }
  }

  /** The smallest matching index at or below a given match. */
  lemma {:induction false} LowestMatch(src: seq<Byte>, m: int) returns (lo: int)
    requires |src| == UART_RCV_SIZE && MatchAt(src, m)
    ensures MatchAt(src, lo) && lo <= m
    ensures forall k :: k < lo ==> !MatchAt(src, k)
    decreases m
  {
    if k :| k < m && MatchAt(src, k) {
      lo := LowestMatch(src, k);
    } else {
      lo := m;
    }
  }
}
