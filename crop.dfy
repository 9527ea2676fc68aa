// The in-place crop of the capture loop (test.c:183-192): the 324x244 raw frame
// becomes the 320x224 interior window (rows 10..233, columns 2..321), packed
// row-major at the front of the same buffer.
module Crop {
  import opened Layout

  /** Where output byte `k` of the cropped frame comes from in the raw frame. */
  function SourceIndex(k: nat): (src: nat)
    requires k < CROP_SIZE
    ensures src < BUFF_SIZE
  {
    var r, c := k / CROP_WIDTH, k % CROP_WIDTH;
    assert r < CROP_HEIGHT;
    (r + CROP_TOP) * WIDTH + c + CROP_LEFT
  }

  /** The cropped frame: the interior window of `raw`, rows outer, columns inner. */
  function Cropped(raw: seq<Byte>): (out: seq<Byte>)
    requires |raw| == BUFF_SIZE
    ensures |out| == CROP_SIZE
  {
    seq(CROP_SIZE, k requires 0 <= k < CROP_SIZE => raw[SourceIndex(k)])
  }

  lemma DivModRow(r: nat, c: nat)
    requires c < CROP_WIDTH
    ensures (r * CROP_WIDTH + c) / CROP_WIDTH == r
    ensures (r * CROP_WIDTH + c) % CROP_WIDTH == c
  {
    var k := r * CROP_WIDTH + c;
    var q, m := k / CROP_WIDTH, k % CROP_WIDTH;
    assert k == q * CROP_WIDTH + m;
  }

  /** Output pixel (r, c) of the cropped frame is raw pixel (r + 10, c + 2). */
  lemma CroppedAt(raw: seq<Byte>, r: nat, c: nat)
    requires |raw| == BUFF_SIZE && r < CROP_HEIGHT && c < CROP_WIDTH
    ensures r * CROP_WIDTH + c < CROP_SIZE
    ensures Cropped(raw)[r * CROP_WIDTH + c] == raw[(r + CROP_TOP) * WIDTH + (c + CROP_LEFT)]
  {
    DivModRow(r, c);
  }

  /** Output byte `k` never comes from before position `k`, so a write at the
    * output cursor cannot clobber a source byte still to be read. */
  lemma CropLag(k: nat)
    requires k < CROP_SIZE
    ensures k <= SourceIndex(k)
  {
    var r, c := k / CROP_WIDTH, k % CROP_WIDTH;
    assert k == r * CROP_WIDTH + c;
  }

  /** The crop keeps the raw frame's row-major order. */
  lemma SourceIndexIncreasing(k1: nat, k2: nat)
    requires k1 < k2 < CROP_SIZE
    ensures SourceIndex(k1) < SourceIndex(k2)
  {
    var r1, c1 := k1 / CROP_WIDTH, k1 % CROP_WIDTH;
    var r2, c2 := k2 / CROP_WIDTH, k2 % CROP_WIDTH;
    assert k1 == r1 * CROP_WIDTH + c1 && k2 == r2 * CROP_WIDTH + c2;
  }

  /** Kept rows strictly above row `i`, and kept columns strictly left of column `j`. */
  function RowsBefore(i: nat): nat
  {
    if i <= CROP_TOP then 0 else if i >= CROP_TOP + CROP_HEIGHT then CROP_HEIGHT else i - CROP_TOP
  }

  function ColsBefore(j: nat): nat
  {
    if j <= CROP_LEFT then 0 else if j >= CROP_LEFT + CROP_WIDTH then CROP_WIDTH else j - CROP_LEFT
  }

  predicate KeptRow(i: nat) { CROP_TOP <= i < CROP_TOP + CROP_HEIGHT }
  predicate KeptCol(j: nat) { CROP_LEFT <= j < CROP_LEFT + CROP_WIDTH }

  /** The crop loop: `ps` trails the read index `i * 324 + j`; on exit it has written
    * exactly `CROP_SIZE` bytes, the cropped frame, and left every later byte alone. */
  method CropInPlace(buff: array<Byte>) returns (ps: nat)
    requires buff.Length == BUFF_SIZE
    modifies buff
    ensures ps == CROP_SIZE
    ensures buff[..CROP_SIZE] == Cropped(old(buff[..]))
    ensures buff[CROP_SIZE..] == old(buff[CROP_SIZE..])
  {
    ghost var raw := buff[..];
    ps := 0;
    var i := 0;
    while i < HEIGHT
      invariant 0 <= i <= HEIGHT
      invariant ps == RowsBefore(i) * CROP_WIDTH
      invariant ps <= i * WIDTH
      invariant forall k :: 0 <= k < ps ==> buff[k] == Cropped(raw)[k]
      invariant forall k :: ps <= k < BUFF_SIZE ==> buff[k] == raw[k]
    {
      var j := 0;
      while j < WIDTH
        invariant 0 <= j <= WIDTH
        invariant ps == RowsBefore(i) * CROP_WIDTH + (if KeptRow(i) then ColsBefore(j) else 0)
        invariant ps <= i * WIDTH + j
        invariant forall k :: 0 <= k < ps ==> buff[k] == Cropped(raw)[k]
        invariant forall k :: ps <= k < BUFF_SIZE ==> buff[k] == raw[k]
      {
        if i < 234 && i > 9 && j < 322 && j > 1 {
          CroppedAt(raw, i - CROP_TOP, j - CROP_LEFT);
          buff[ps] := buff[i * WIDTH + j];
          ps := ps + 1;
        }
        j := j + 1;
      }
      i := i + 1;
    }
    assert buff[..CROP_SIZE] == Cropped(raw);
    assert buff[CROP_SIZE..] == raw[CROP_SIZE..];
  }
}
