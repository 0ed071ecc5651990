/** Random access: decrypting a byte range from the frames that overlap it and from no others. */
module RangeRead {
  import opened Bytes
  import opened Aead
  import opened Io
  import opened FrameFormat
  import opened Decrypting

  /** The blob decrypts to plain without error, as a reader of the whole would find. */
  ghost predicate Decrypts(aead: Aead, blob: Bytes, plain: Bytes) {
    |blob| >= HEADER_SIZE && HeaderErr(blob, CleanEnd) == NoErr &&
    OpenBlob(aead, blob, CleanEnd).stop == Eof && OpenBlob(aead, blob, CleanEnd).plain == plain
  }

  /** Where frame k starts in the plaintext. */
  function FrameStart(frameSize: nat, k: nat): nat {
    k * frameSize
  }

  /** Where frame k starts behind the header. */
  function FrameOffset(frameSize: nat, k: nat): nat {
    k * (frameSize + TAG_LEN)
  }

  lemma FrameStep(frameSize: nat, k: nat)
    ensures FrameStart(frameSize, k + 1) == FrameStart(frameSize, k) + frameSize
    ensures FrameOffset(frameSize, k + 1) == FrameOffset(frameSize, k) + frameSize + TAG_LEN
    ensures FrameStart(frameSize, 0) == 0 == FrameOffset(frameSize, 0)
  {
  }

  lemma {:induction false} FrameStartMonotone(frameSize: nat, j: nat, k: nat)
    requires j <= k
    ensures FrameStart(frameSize, j) <= FrameStart(frameSize, k)
    decreases k - j
  {
    if j < k {
      FrameStartMonotone(frameSize, j, k - 1);
      FrameStep(frameSize, k - 1);
    }
  }

  /** The frame that holds a position of the plaintext. */
  function FrameHolding(frameSize: nat, pos: nat): nat
    requires frameSize > 0
  {
    pos / frameSize
  }

  lemma FrameOf(frameSize: nat, pos: nat)
    requires frameSize > 0
    ensures FrameStart(frameSize, pos / frameSize) <= pos < FrameStart(frameSize, pos / frameSize) + frameSize
  {
  }

  /** Frame k of a body that decrypts to plain: where it lies and what it opens to. */
  ghost predicate FrameLies(aead: Aead, base: Bytes, frameSize: nat, i: nat, ct: Bytes, plain: Bytes, k: nat)
    requires |base| == NONCE_LEN && frameSize > 0
  {
    var start, off := FrameStart(frameSize, k), FrameOffset(frameSize, k);
    && start < |plain| && off + TAG_LEN < |ct|
    && OpenFrame(aead, base, i, ct[off..off + Min(frameSize + TAG_LEN, |ct| - off)]) ==
       Some(plain[start..Min(start + frameSize, |plain|)])
  }

  lemma FirstFrameLies(aead: Aead, base: Bytes, frameSize: nat, i: nat, ct: Bytes)
    requires aead.Correct() && |base| == NONCE_LEN && frameSize > 0
    requires OpenRun(aead, base, frameSize, i, ct, CleanEnd).stop == Eof
    requires OpenRun(aead, base, frameSize, i, ct, CleanEnd).plain != []
    ensures
      var run := OpenRun(aead, base, frameSize, i, ct, CleanEnd);
      && FrameLies(aead, base, frameSize, i, ct, run.plain, 0)
      && (|run.plain| > frameSize ==>
            && |ct| > frameSize + TAG_LEN
            && run.plain[frameSize..] ==
               OpenRun(aead, base, frameSize, i + 1, ct[frameSize + TAG_LEN..], CleanEnd).plain)
  {
    hide Aead.Correct;
    hide FrameNonce;
    hide FrameAad;
    FrameStep(frameSize, 0);
    var unit := frameSize + TAG_LEN;
    var len := Min(unit, |ct|);
    assert ct[..len] == ct[0..len] && (|ct| < unit ==> ct[..len] == ct);
    var p := OpenFrame(aead, base, i, ct[..len]).value;
    OpenedLength(aead, FrameNonce(base, i), FrameAad(i), ct[..len]);
    var plain := OpenRun(aead, base, frameSize, i, ct, CleanEnd).plain;
    assert p == plain[0..Min(frameSize, |plain|)];
  }

  lemma {:induction false} FramesLie(aead: Aead, base: Bytes, frameSize: nat, i: nat, ct: Bytes, k: nat)
    requires aead.Correct() && |base| == NONCE_LEN && frameSize > 0
    requires OpenRun(aead, base, frameSize, i, ct, CleanEnd).stop == Eof
    requires FrameStart(frameSize, k) < |OpenRun(aead, base, frameSize, i, ct, CleanEnd).plain|
    ensures FrameLies(aead, base, frameSize, i + k, ct, OpenRun(aead, base, frameSize, i, ct, CleanEnd).plain, k)
    decreases k
  {
    hide Aead.Correct;
    hide FrameNonce;
    hide FrameAad;
    hide FrameStart;
    hide FrameOffset;
    hide FrameLies;
    var unit := frameSize + TAG_LEN;
    var plain := OpenRun(aead, base, frameSize, i, ct, CleanEnd).plain;
    FirstFrameLies(aead, base, frameSize, i, ct);
    if k > 0 {
      FrameStep(frameSize, k - 1);
      FramesLie(aead, base, frameSize, i + 1, ct[unit..], k - 1);
      LiesFurtherOn(aead, base, frameSize, i + k, ct, plain, k);
    }
  }

  lemma LiesFurtherOn(aead: Aead, base: Bytes, frameSize: nat, i: nat, ct: Bytes, plain: Bytes, k: nat)
    requires |base| == NONCE_LEN && frameSize > 0 && k > 0
    requires |ct| > frameSize + TAG_LEN && |plain| > frameSize
    requires FrameLies(aead, base, frameSize, i, ct[frameSize + TAG_LEN..], plain[frameSize..], k - 1)
    ensures FrameLies(aead, base, frameSize, i, ct, plain, k)
  {
    FrameStep(frameSize, k - 1);
    hide FrameStart;
    hide FrameOffset;
    hide OpenFrame;
    var unit := frameSize + TAG_LEN;
    var start, off := FrameStart(frameSize, k - 1), FrameOffset(frameSize, k - 1);
    var len := Min(unit, |ct| - unit - off);
    SliceOfDrop(ct, unit, off, off + len);
    var hi := Min(start + frameSize, |plain| - frameSize);
    SliceOfDrop(plain, frameSize, start, hi);
  }

  /** The request makes sense: the blob decrypts to plain, is as long as recorded, and holds the range. */
  ghost predicate InRange(c: Cipher, blob: Bytes, ciphertextSize: int, start: int, end: int, plain: Bytes) {
    Decrypts(c.aead, blob, plain) && ciphertextSize == |blob| && 0 <= start <= end < |plain|
  }

  /** The stretch of a blob of that size that holds frame i. */
  function Stretch(frameSize: nat, blobSize: int, i: nat): (int, int) {
    var off := HEADER_SIZE + FrameOffset(frameSize, i);
    (off, Min(frameSize + TAG_LEN, blobSize - off))
  }

  /** The stretches that hold frames first, ..., next - 1. */
  function Stretches(frameSize: nat, blobSize: int, first: nat, next: nat): seq<(int, int)> {
    if next <= first then []
    else Stretches(frameSize, blobSize, first, next - 1) + [Stretch(frameSize, blobSize, next - 1)]
  }

  /** The stretches of the frames that overlap a range of the plaintext. */
  function Overlapping(frameSize: nat, blobSize: int, start: nat, end: nat): seq<(int, int)> {
    if frameSize == 0 then [] else Stretches(frameSize, blobSize, start / frameSize, end / frameSize + 1)
  }

  /** Frame i lies where it should in the blob and overlaps the range. */
  ghost predicate FrameWanted(c: Cipher, blob: Bytes, ciphertextSize: int, start: int, end: int,
                              base: Bytes, frameSize: nat, i: nat, plain: Bytes)
    requires |base| == NONCE_LEN && frameSize > 0
  {
    && |blob| >= HEADER_SIZE && ciphertextSize == |blob| && start <= end < |plain|
    && FrameStart(frameSize, i) <= end && start < FrameStart(frameSize, i) + frameSize
    && FrameLies(c.aead, base, frameSize, i, blob[HEADER_SIZE..], plain, i)
  }

  function Max(a: int, b: int): int {
    if a >= b then a else b
  }

  lemma RangeGeometry(frameSize: nat, start: nat, end: nat)
    requires frameSize > 0 && start <= end
    ensures
      var first, last := FrameHolding(frameSize, start), FrameHolding(frameSize, end);
      && 0 <= first <= last
      && FrameStart(frameSize, first) <= start < FrameStart(frameSize, first) + frameSize
      && FrameStart(frameSize, last) <= end < FrameStart(frameSize, last) + frameSize
  {
    var first, last := start / frameSize, end / frameSize;
    FrameOf(frameSize, start);
    FrameOf(frameSize, end);
    FrameStep(frameSize, last);
    if last < first {
      FrameStartMonotone(frameSize, last + 1, first);
    }
  }

  // --- what any blob's range comes to ---

  /** DecryptRange's verdict on the bounds and the header; unlike readHeader it takes every frame size but 0. */
  function RangeHeaderErr(blob: Bytes, start: int, end: int): Err {
    if start < 0 || end < start then BadRange
    else if |blob| < HEADER_SIZE then UnexpectedEof
    else if blob[0] != VERSION then BadVersion
    else if HeaderFrameSize(blob) == 0 then BadFrameSize
    else NoErr
  }

  /** What is written, and the error behind it. */
  datatype Piece = Piece(bytes: Bytes, err: Err)

  /** The part of an opened frame p of index i that falls into the range. */
  function PartWanted(frameSize: nat, i: nat, p: Bytes, start: nat, end: nat): Piece {
    var from := FrameStart(frameSize, i);
    var lo := if start > from then start - from else 0;
    var hi := if end < from + |p| - 1 then end - from + 1 else |p|;
    if 0 <= lo <= hi <= |p| then Piece(p[lo..hi], NoErr) else Piece([], SliceOutOfRange)
  }

  /** The round of frame i. */
  function FrameRead(aead: Aead, blob: Bytes, ciphertextSize: int, start: nat, end: nat,
                     base: Bytes, frameSize: nat, i: nat): Piece
    requires |base| == NONCE_LEN
  {
    var off := HEADER_SIZE + FrameOffset(frameSize, i);
    var len := Min(frameSize + TAG_LEN, ciphertextSize - off);
    if len <= TAG_LEN || off + len > |blob| then Piece([], PastEnd(i))
    else
      match OpenFrame(aead, base, i, blob[off..off + len])
      case None => Piece([], AuthFailed(i))
      case Some(p) => PartWanted(frameSize, i, p, start, end)
  }

  /** The rounds of frames i, ..., last, up to the first error. */
  function FramesRead(aead: Aead, blob: Bytes, ciphertextSize: int, start: nat, end: nat,
                      base: Bytes, frameSize: nat, i: nat, last: int): Piece
    requires |base| == NONCE_LEN
    decreases last - i
  {
    if i > last then Piece([], NoErr)
    else
      var p := FrameRead(aead, blob, ciphertextSize, start, end, base, frameSize, i);
      if p.err != NoErr then p
      else
        var r := FramesRead(aead, blob, ciphertextSize, start, end, base, frameSize, i + 1, last);
        Piece(p.bytes + r.bytes, r.err)
  }

  /** The whole request. */
  function RangeRun(aead: Aead, blob: Bytes, ciphertextSize: int, start: int, end: int): Piece {
    var e := RangeHeaderErr(blob, start, end);
    if e != NoErr then Piece([], e)
    else
      var fs := HeaderFrameSize(blob);
      FramesRead(aead, blob, ciphertextSize, start, end, HeaderBase(blob), fs, FrameHolding(fs, start),
        FrameHolding(fs, end))
  }

  /** The bytes of plain between two positions, as far as there are any. */
  function Clip(plain: Bytes, lo: nat, hi: nat): Bytes {
    var a, b := Min(lo, |plain|), Min(hi, |plain|);
    if a <= b then plain[a..b] else []
  }

  lemma ClipSplits(plain: Bytes, lo: nat, mid: nat, hi: nat)
    requires lo <= mid <= hi
    ensures Clip(plain, lo, mid) + Clip(plain, mid, hi) == Clip(plain, lo, hi)
  {
  }

  // --- blobs that decrypt ---

  lemma PartOfFrame(plain: Bytes, frameSize: nat, i: nat, start: nat, end: nat)
    requires FrameStart(frameSize, i) <= |plain| && FrameStart(frameSize, i) <= end && start <= end
    ensures
      var from := FrameStart(frameSize, i);
      var w := PartWanted(frameSize, i, Clip(plain, from, from + frameSize), start, end);
      if start <= from + |Clip(plain, from, from + frameSize)| then
        w == Piece(Clip(plain, Max(start, from), Min(from + frameSize, end + 1)), NoErr)
      else w == Piece([], SliceOutOfRange)
  {
    hide FrameStart;
    var from := FrameStart(frameSize, i);
    var p := Clip(plain, from, from + frameSize);
    var lo := if start > from then start - from else 0;
    var hi := if end < from + |p| - 1 then end - from + 1 else |p|;
    if lo <= hi <= |p| {
      SliceOfSlice(plain, from, from + |p|, lo, hi);
      assert p[lo..hi] == plain[from + lo..from + hi];
      assert p[lo..hi] == Clip(plain, Max(start, from), Min(from + frameSize, end + 1));
    }
  }

  lemma WantedFrame(c: Cipher, blob: Bytes, ciphertextSize: int, start: nat, end: nat,
                    base: Bytes, frameSize: nat, i: nat, plain: Bytes)
    requires |base| == NONCE_LEN && frameSize > 0
    requires FrameWanted(c, blob, ciphertextSize, start, end, base, frameSize, i, plain)
    ensures
      var from := FrameStart(frameSize, i);
      FrameRead(c.aead, blob, ciphertextSize, start, end, base, frameSize, i) ==
      Piece(Clip(plain, Max(start, from), Min(from + frameSize, end + 1)), NoErr)
  {
    hide OpenFrame, Clip;
    var off, from := FrameOffset(frameSize, i), FrameStart(frameSize, i);
    var len := Min(frameSize + TAG_LEN, |blob| - HEADER_SIZE - off);
    SliceOfDrop(blob, HEADER_SIZE, off, off + len);
    hide FrameOffset, FrameStart;
    PartOfFrame(plain, frameSize, i, start, end);
    ClipMeans(plain, from, from + frameSize);
  }

  lemma ClipMeans(plain: Bytes, lo: nat, hi: nat)
    requires lo <= |plain| && lo <= hi
    ensures Clip(plain, lo, hi) == plain[lo..Min(hi, |plain|)]
  {
  }

  lemma {:induction false} WantedFrames(c: Cipher, blob: Bytes, ciphertextSize: int, start: nat, end: nat,
                                        i: nat, last: nat, plain: Bytes)
    requires c.aead.Correct() && InRange(c, blob, ciphertextSize, start, end, plain) && HeaderFrameSize(blob) > 0
    requires i <= last && start < FrameStart(HeaderFrameSize(blob), i) + HeaderFrameSize(blob)
    requires FrameStart(HeaderFrameSize(blob), last) <= end
    requires end < FrameStart(HeaderFrameSize(blob), last) + HeaderFrameSize(blob)
    ensures
      FramesRead(c.aead, blob, ciphertextSize, start, end, HeaderBase(blob), HeaderFrameSize(blob), i, last) ==
      Piece(Clip(plain, Max(start, FrameStart(HeaderFrameSize(blob), i)), end + 1), NoErr)
    decreases last - i
  {
    hide Aead.Correct, FrameStart, FrameRead, Clip, OpenRun, HeaderFrameSize, HeaderBase, FrameLies;
    var fs, base := HeaderFrameSize(blob), HeaderBase(blob);
    var from := FrameStart(fs, i);
    FrameStartMonotone(fs, i, last);
    FrameStep(fs, i);
    FramesLie(c.aead, base, fs, 0, blob[HEADER_SIZE..], i);
    WantedFrame(c, blob, ciphertextSize, start, end, base, fs, i, plain);
    if i < last {
      FrameStartMonotone(fs, i + 1, last);
      WantedFrames(c, blob, ciphertextSize, start, end, i + 1, last, plain);
      ClipSplits(plain, Max(start, from), from + fs, end + 1);
    } else {
      assert FramesRead(c.aead, blob, ciphertextSize, start, end, base, fs, i + 1, last) == Piece([], NoErr);
    }
  }

  /** A range inside a blob that decrypts is read as it is. */
  lemma RangeOfDecryptable(c: Cipher, blob: Bytes, ciphertextSize: int, start: int, end: int, plain: Bytes)
    requires c.aead.Correct() && InRange(c, blob, ciphertextSize, start, end, plain)
    ensures RangeRun(c.aead, blob, ciphertextSize, start, end) == Piece(plain[start..end + 1], NoErr)
    ensures RangeHeaderErr(blob, start, end) == NoErr
  {
    hide Aead.Correct, FrameStart, FramesRead, OpenRun, FrameHolding;
    var fs := HeaderFrameSize(blob);
    RangeGeometry(fs, start, end);
    WantedFrames(c, blob, ciphertextSize, start, end, FrameHolding(fs, start), FrameHolding(fs, end), plain);
  }

  // --- blobs of any kind ---

  /** Whatever stretch of the blob opens as a frame opens to what that frame holds of plain. */
  ghost predicate Truthful(aead: Aead, base: Bytes, frameSize: nat, blob: Bytes, plain: Bytes)
    requires |base| == NONCE_LEN
  {
    forall i: nat, lo: nat, hi: nat ::
      i < UINT64 && lo <= hi <= |blob| && OpenFrame(aead, base, i, blob[lo..hi]).Some? ==>
        var from := FrameStart(frameSize, i);
        from <= |plain| && OpenFrame(aead, base, i, blob[lo..hi]).value == Clip(plain, from, from + frameSize)
  }

  /** Frame i's round writes what the range has of its place in plain, or nothing and an error. */
  ghost predicate RightPiece(w: Piece, frameSize: nat, i: nat, start: nat, end: nat, plain: Bytes) {
    var from := FrameStart(frameSize, i);
    && (w.err == NoErr ==> w.bytes == Clip(plain, Max(start, from), Min(from + frameSize, end + 1)))
    && (w.err != NoErr ==> w.bytes == [])
    && (end < |plain| ==> w.err != SliceOutOfRange)
  }

  lemma TruthfulFrame(aead: Aead, blob: Bytes, ciphertextSize: int, start: nat, end: nat,
                      base: Bytes, frameSize: nat, i: nat, plain: Bytes)
    requires |base| == NONCE_LEN && Truthful(aead, base, frameSize, blob, plain)
    requires FrameStart(frameSize, i) <= end && start <= end && i < UINT64
    requires start < FrameStart(frameSize, i) + frameSize
    ensures RightPiece(FrameRead(aead, blob, ciphertextSize, start, end, base, frameSize, i),
                       frameSize, i, start, end, plain)
  {
    hide FrameStart, FrameOffset, OpenFrame, PartWanted, Clip;
    var off := HEADER_SIZE + FrameOffset(frameSize, i);
    var len := Min(frameSize + TAG_LEN, ciphertextSize - off);
    if TAG_LEN < len && off + len <= |blob| && OpenFrame(aead, base, i, blob[off..off + len]).Some? {
      PartOfFrame(plain, frameSize, i, start, end);
      ClipMeans(plain, FrameStart(frameSize, i), FrameStart(frameSize, i) + frameSize);
    }
  }

  /** The rounds of frames i, ..., last are right. */
  ghost predicate RightFrames(aead: Aead, blob: Bytes, ciphertextSize: int, start: nat, end: nat,
                              base: Bytes, frameSize: nat, i: nat, last: nat, plain: Bytes)
    requires |base| == NONCE_LEN
  {
    forall k: nat :: i <= k <= last ==>
      RightPiece(FrameRead(aead, blob, ciphertextSize, start, end, base, frameSize, k),
                 frameSize, k, start, end, plain)
  }

  /** Right pieces put together are a prefix of the range, and all of it without an error. */
  lemma {:induction false} RightFramesJoin(aead: Aead, blob: Bytes, ciphertextSize: int, start: nat, end: nat,
                                           base: Bytes, frameSize: nat, i: nat, last: nat, plain: Bytes)
    requires |base| == NONCE_LEN && frameSize > 0
    requires start <= end && i <= last && start < FrameStart(frameSize, i) + frameSize
    requires FrameStart(frameSize, last) <= end < FrameStart(frameSize, last) + frameSize
    requires RightFrames(aead, blob, ciphertextSize, start, end, base, frameSize, i, last, plain)
    ensures
      var r := FramesRead(aead, blob, ciphertextSize, start, end, base, frameSize, i, last);
      var whole := Clip(plain, Max(start, FrameStart(frameSize, i)), end + 1);
      r.bytes <= whole && (r.err == NoErr ==> r.bytes == whole) && (end < |plain| ==> r.err != SliceOutOfRange)
    decreases last - i
  {
    hide FrameStart, FrameRead, Clip;
    var from := FrameStart(frameSize, i);
    FrameStartMonotone(frameSize, i, last);
    FrameStep(frameSize, i);
    assert RightPiece(FrameRead(aead, blob, ciphertextSize, start, end, base, frameSize, i),
        frameSize, i, start, end, plain);
    if i < last {
      FrameStartMonotone(frameSize, i + 1, last);
      RightFramesJoin(aead, blob, ciphertextSize, start, end, base, frameSize, i + 1, last, plain);
      ClipSplits(plain, Max(start, from), from + frameSize, end + 1);
    } else {
      assert FramesRead(aead, blob, ciphertextSize, start, end, base, frameSize, i + 1, last) == Piece([], NoErr);
    }
  }

  lemma TruthfulFrames(aead: Aead, blob: Bytes, ciphertextSize: int, start: nat, end: nat,
                       base: Bytes, frameSize: nat, first: nat, last: nat, plain: Bytes)
    requires |base| == NONCE_LEN && frameSize > 0 && Truthful(aead, base, frameSize, blob, plain)
    requires start <= end && last < UINT64 && start < FrameStart(frameSize, first) + frameSize
    requires FrameStart(frameSize, last) <= end
    ensures RightFrames(aead, blob, ciphertextSize, start, end, base, frameSize, first, last, plain)
  {
    hide FrameStart, FrameRead, Truthful, RightPiece;
    forall k: nat | first <= k <= last
      ensures RightPiece(FrameRead(aead, blob, ciphertextSize, start, end, base, frameSize, k),
                         frameSize, k, start, end, plain)
    {
      FrameStartMonotone(frameSize, first, k);
      FrameStartMonotone(frameSize, k, last);
      TruthfulFrame(aead, blob, ciphertextSize, start, end, base, frameSize, k, plain);
    }
  }

  /**
   * A range read of a blob none of whose stretches opens to anything but the plaintext's own frames
   * writes a prefix of the range asked for, and all of it when it reports no error. For a range inside the
   * plaintext no slice is out of range, which in Go is a panic. Bounds are int64.
   */
  lemma TruthfulRangeIsPrefix(aead: Aead, blob: Bytes, ciphertextSize: int, start: int, end: int, plain: Bytes)
    requires |blob| >= HEADER_SIZE && end < INT64
    requires Truthful(aead, HeaderBase(blob), HeaderFrameSize(blob), blob, plain)
    ensures
      var r := RangeRun(aead, blob, ciphertextSize, start, end);
      if 0 <= start <= end then
        var wanted := Clip(plain, start, end + 1);
        && r.bytes <= wanted && (r.err == NoErr ==> r.bytes == wanted)
        && (end < |plain| ==> r.err != SliceOutOfRange)
      else r == Piece([], BadRange)
  {
    hide FrameStart, Truthful, FramesRead, Clip, RightFrames;
    if RangeHeaderErr(blob, start, end) == NoErr {
      var fs := HeaderFrameSize(blob);
      RangeGeometry(fs, start, end);
      var first, last := FrameHolding(fs, start), FrameHolding(fs, end);
      TruthfulFrames(aead, blob, ciphertextSize, start, end, HeaderBase(blob), fs, first, last, plain);
      RightFramesJoin(aead, blob, ciphertextSize, start, end, HeaderBase(blob), fs, first, last, plain);
    }
  }

  // --- the method ---

  /** One round of DecryptRange's loop: fetches and opens frame i and writes its part of the range. */
  method WriteFrame(aead: Aead, dst: Sink, src: BlobAt, ciphertextSize: int, start: nat, end: nat,
                    base: Bytes, frameSize: nat, i: nat) returns (err: Err)
    requires |base| == NONCE_LEN && frameSize > 0 && start <= end
    modifies dst, src
    ensures
      var r := FrameRead(aead, src.data, ciphertextSize, start, end, base, frameSize, i);
      err == r.err && dst.written == old(dst.written) + r.bytes
    ensures err == NoErr ==> src.fetched == old(src.fetched) + [Stretch(frameSize, ciphertextSize, i)]
  {
    hide FrameNonce, FrameAad, FrameOffset, FrameStart;
    var frameOffset := HEADER_SIZE + FrameOffset(frameSize, i);
    var remaining := ciphertextSize - frameOffset;
    if remaining <= TAG_LEN {
      return PastEnd(i);
    }
    var readSize := Min(frameSize + TAG_LEN, remaining);
    var buf, got := src.ReadAt(readSize, frameOffset);
    if !got {
      return PastEnd(i);
    }
    var nonce := DeriveFrameNonce(base, i);
    var aad := FrameAad(i);
    var result := aead.open(nonce, aad, buf);
    if result.None? {
      return AuthFailed(i);
    }
    var p := result.value;
    var frameStart := FrameStart(frameSize, i);
    var frameEnd := frameStart + |p| - 1;
    var lo := if start > frameStart then start - frameStart else 0;
    var hi := if end < frameEnd then end - frameStart + 1 else |p|;
    if !(0 <= lo <= hi <= |p|) {
      return SliceOutOfRange;
    }
    dst.Write(p[lo..hi]);
    return NoErr;
  }

  /** DecryptRange's loop over the overlapping frames, first to last. */
  method WriteFrames(aead: Aead, dst: Sink, src: BlobAt, ciphertextSize: int, start: nat, end: nat,
                     base: Bytes, frameSize: nat, first: nat, last: nat) returns (err: Err)
    requires |base| == NONCE_LEN && frameSize > 0 && start <= end && first <= last
    modifies dst, src
    ensures
      var r := FramesRead(aead, src.data, ciphertextSize, start, end, base, frameSize, first, last);
      err == r.err && dst.written == old(dst.written) + r.bytes
    ensures err == NoErr ==>
              src.fetched == old(src.fetched) + Stretches(frameSize, ciphertextSize, first, last + 1)
  {
    hide FrameRead, Stretch;
    ghost var all := FramesRead(aead, src.data, ciphertextSize, start, end, base, frameSize, first, last);
    var i := first;
    while i <= last
      invariant first <= i <= last + 1
      invariant
        var r := FramesRead(aead, src.data, ciphertextSize, start, end, base, frameSize, i, last);
        all.err == r.err && old(dst.written) + all.bytes == dst.written + r.bytes
      invariant src.fetched == old(src.fetched) + Stretches(frameSize, ciphertextSize, first, i)
    {
      ghost var round := FrameRead(aead, src.data, ciphertextSize, start, end, base, frameSize, i);
      ghost var more := FramesRead(aead, src.data, ciphertextSize, start, end, base, frameSize, i + 1, last);
      Assoc(dst.written, round.bytes, more.bytes);
      err := WriteFrame(aead, dst, src, ciphertextSize, start, end, base, frameSize, i);
      if err != NoErr {
        return;
      }
      i := i + 1;
    }
    return NoErr;
  }

  /**
   * DecryptRange: on any blob it writes and reports what RangeRun says. On a blob that decrypts to a
   * plaintext, for a range inside it, that is exactly the range and no error, and exactly the header and
   * the frames that overlap the range are fetched.
   */
  method DecryptRange(c: Cipher, dst: Sink, src: BlobAt, ciphertextSize: int, start: int, end: int,
                      ghost plain: Bytes) returns (err: Err)
    requires c.aead.Correct()
    modifies dst, src
    ensures
      var r := RangeRun(c.aead, src.data, ciphertextSize, start, end);
      err == r.err && dst.written == old(dst.written) + r.bytes
    ensures InRange(c, src.data, ciphertextSize, start, end, plain) ==>
              && err == NoErr
              && dst.written == old(dst.written) + plain[start..end + 1]
              && src.fetched == old(src.fetched) + [(0, HEADER_SIZE)] +
                 Overlapping(HeaderFrameSize(src.data), |src.data|, start, end)
  {
    hide Aead.Correct, Decrypts, FramesRead, Stretches;
    if InRange(c, src.data, ciphertextSize, start, end, plain) {
      RangeOfDecryptable(c, src.data, ciphertextSize, start, end, plain);
    }
    if start < 0 || end < start {
      return BadRange;
    }
    var hdr, ok := src.ReadAt(HEADER_SIZE, 0);
    if !ok {
      return UnexpectedEof;
    }
    if hdr[0] != VERSION {
      return BadVersion;
    }
    var base := hdr[1..1 + NONCE_LEN];
    var frameSize := FromBigEndian(hdr[1 + NONCE_LEN..]);
    assert base == HeaderBase(src.data);
    assert hdr[1 + NONCE_LEN..] == src.data[1 + NONCE_LEN..HEADER_SIZE];
    if frameSize <= 0 {
      return BadFrameSize;
    }
    RangeGeometry(frameSize, start, end);
    err := WriteFrames(c.aead, dst, src, ciphertextSize, start, end, base, frameSize, FrameHolding(frameSize, start),
      FrameHolding(frameSize, end));
  }

  lemma {:induction false} StretchesInside(frameSize: nat, blobSize: nat, first: nat, next: nat, j: nat)
    requires frameSize > 0 && first <= next && j < next - first
    requires HEADER_SIZE + FrameOffset(frameSize, next - 1) + TAG_LEN < blobSize
    ensures |Stretches(frameSize, blobSize, first, next)| == next - first
    ensures
      var s := Stretches(frameSize, blobSize, first, next)[j];
      HEADER_SIZE <= s.0 < s.0 + TAG_LEN < s.0 + s.1 <= blobSize
    decreases next
  {
    hide FrameOffset;
    assert Stretches(frameSize, blobSize, first, next)
        == Stretches(frameSize, blobSize, first, next - 1) + [Stretch(frameSize, blobSize, next - 1)];
    if first < next - 1 {
      FrameStep(frameSize, next - 2);
      StretchesInside(frameSize, blobSize, first, next - 1, Min(j, next - first - 2));
    } else {
      assert Stretches(frameSize, blobSize, first, next - 1) == [];
    }
  }

  /** A valid range request fetches one stretch for every overlapping frame, each within the blob. */
  lemma OverlappingInsideBlob(c: Cipher, blob: Bytes, start: nat, end: nat, plain: Bytes, j: nat)
    requires c.aead.Correct() && InRange(c, blob, |blob|, start, end, plain)
    requires HeaderFrameSize(blob) > 0 && j <= end / HeaderFrameSize(blob) - start / HeaderFrameSize(blob)
    ensures
      var fs := HeaderFrameSize(blob);
      var stretches := Overlapping(fs, |blob|, start, end);
      && |stretches| == end / fs - start / fs + 1
      && HEADER_SIZE <= stretches[j].0 < stretches[j].0 + TAG_LEN < stretches[j].0 + stretches[j].1 <= |blob|
  {
    hide FrameStart;
    hide FrameOffset;
    hide OpenRun;
    hide Aead.Correct;
    var fs := HeaderFrameSize(blob);
    RangeGeometry(fs, start, end);
    var first: nat, last: nat := start / fs, end / fs;
    assert j <= last - first;
    FramesLie(c.aead, HeaderBase(blob), fs, 0, blob[HEADER_SIZE..], last);
    StretchesInside(fs, |blob|, first, last + 1, j);
  }
}
