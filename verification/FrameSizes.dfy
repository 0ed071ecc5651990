/**
 * The frame size in a blob's header, which nothing authenticates. For which frame sizes there, and which
 * recorded sizes, a range read of an object is right whatever else was done to its blob.
 */
module FrameSizes {
  import opened Bytes
  import opened Aead
  import opened Io
  import opened FrameFormat
  import opened Decrypting
  import opened RangeRead
  import opened Authenticity
  import opened ToyAead

  // --- how frames tile a plaintext ---

  function Count(o: Obj): nat
    requires o.frameSize > 0
  {
    FrameCount(o.frameSize, |o.plain|)
  }

  function OwnFrame(o: Obj, i: nat): Bytes
    requires o.frameSize > 0 && i < Count(o)
  {
    FrameAt(o.frameSize, o.plain, i)
  }

  /** The length of the last frame. */
  function LastLength(o: Obj): int
    requires o.frameSize > 0
  {
    |o.plain| - FrameStart(o.frameSize, Count(o) - 1)
  }

  lemma {:induction false} FramesTile(frameSize: nat, n: nat)
    requires frameSize > 0
    ensures
      var k := FrameCount(frameSize, n);
      && (k == 1 <==> n <= frameSize)
      && FrameStart(frameSize, k - 1) <= n <= FrameStart(frameSize, k - 1) + frameSize
      && (n > 0 ==> FrameStart(frameSize, k - 1) < n)
    decreases n
  {
    FrameStep(frameSize, 0);
    if n > frameSize {
      FramesTile(frameSize, n - frameSize);
      FrameStep(frameSize, FrameCount(frameSize, n - frameSize) - 1);
      hide FrameStart;
    }
  }

  lemma FrameLengths(o: Obj, i: nat)
    requires o.frameSize > 0 && i < Count(o)
    ensures |OwnFrame(o, i)| == if i < Count(o) - 1 then o.frameSize else LastLength(o)
    ensures OwnFrame(o, i) == Clip(o.plain, FrameStart(o.frameSize, i), FrameStart(o.frameSize, i) + o.frameSize)
    ensures 0 <= LastLength(o) <= o.frameSize && (o.plain != [] ==> LastLength(o) > 0)
    ensures Count(o) == 1 <==> |o.plain| <= o.frameSize
  {
    hide FrameStart, FrameAt, FrameCount;
    FramesTile(o.frameSize, |o.plain|);
    FrameAtIsClip(o.frameSize, o.plain, i);
    if i < Count(o) - 1 {
      FrameStep(o.frameSize, i);
      FrameStartMonotone(o.frameSize, i + 1, Count(o) - 1);
    }
  }

  // --- when range reads are right ---

  /** The stretch read for frame i under that frame size has the length of the object's own frame i. */
  predicate Fits(o: Obj, frameSize: nat, size: int, i: nat)
    requires o.frameSize > 0 && i < Count(o)
  {
    Stretch(frameSize, size, i).1 == |OwnFrame(o, i)| + TAG_LEN
  }

  /** The object's frame i begins with all that the plaintext has where that frame size puts it. */
  predicate InPlace(o: Obj, frameSize: nat, i: nat)
    requires o.frameSize > 0 && i < Count(o)
  {
    Clip(o.plain, FrameStart(frameSize, i), FrameStart(frameSize, i) + frameSize) <= OwnFrame(o, i)
  }

  predicate Harmless(o: Obj, frameSize: nat, size: int)
    requires o.frameSize > 0
  {
    forall i: nat :: i < Count(o) && Fits(o, frameSize, size, i) ==> InPlace(o, frameSize, i)
  }

  /** A prefix of the range, all of it if no error is reported, and no slice out of range. */
  predicate RightRange(r: Piece, plain: Bytes, start: nat, end: nat)
    requires start <= end < |plain|
  {
    && r.bytes <= plain[start..end + 1]
    && (r.err == NoErr ==> r.bytes == plain[start..end + 1])
    && r.err != SliceOutOfRange
  }

  /** An unforged blob with that header, and a range inside the plaintext. */
  ghost predicate Request(objs: Sealings, b: Bytes, frameSize: nat, aead: Aead, blob: Bytes, start: nat, end: nat)
    requires WellFormed(objs) && b in objs
  {
    && aead.Correct() && Unforged(aead, objs, blob)
    && |blob| >= HEADER_SIZE && HeaderBase(blob) == b && HeaderFrameSize(blob) == frameSize
    && start <= end < |objs[b].plain|
  }

  /** Every range read of every such blob is right. */
  ghost predicate RangesRight(objs: Sealings, b: Bytes, frameSize: nat, size: int)
    requires WellFormed(objs) && b in objs
  {
    forall aead, blob, start: nat, end: nat :: Request(objs, b, frameSize, aead, blob, start, end) ==>
      RightRange(RangeRun(aead, blob, size, start, end), objs[b].plain, start, end)
  }

  // --- harmless frame sizes ---

  lemma PartInPlace(plain: Bytes, frameSize: nat, i: nat, p: Bytes, start: nat, end: nat)
    requires FrameStart(frameSize, i) <= end < |plain| && start <= end && start < FrameStart(frameSize, i) + frameSize
    requires Clip(plain, FrameStart(frameSize, i), FrameStart(frameSize, i) + frameSize) <= p && |p| <= frameSize
    ensures RightPiece(PartWanted(frameSize, i, p, start, end), frameSize, i, start, end, plain)
  {
    var from := FrameStart(frameSize, i);
    var clip := Clip(plain, from, from + frameSize);
    ClipMeans(plain, from, from + frameSize);
    PartOfFrame(plain, frameSize, i, start, end);
    hide FrameStart, Clip, PartWanted;
    SamePart(frameSize, i, clip, p, start, end);
  }

  /** What lies behind the range makes no difference. */
  lemma SamePart(frameSize: nat, i: nat, a: Bytes, b: Bytes, start: nat, end: nat)
    requires FrameStart(frameSize, i) <= end && start <= end
    requires a <= b && (a == b || end - FrameStart(frameSize, i) < |a|)
    ensures PartWanted(frameSize, i, a, start, end) == PartWanted(frameSize, i, b, start, end)
  {
    hide FrameStart;
  }

  lemma IndexAtMostStart(frameSize: nat, i: nat)
    requires frameSize > 0
    ensures i <= FrameStart(frameSize, i)
  {
    if i > 0 {
      MultipleAtLeast(frameSize, i);
    }
  }

  lemma HarmlessFrame(aead: Aead, objs: Sealings, blob: Bytes, size: int, start: nat, end: nat, b: Bytes,
                      frameSize: nat, i: nat)
    requires aead.Correct() && WellFormed(objs) && Unforged(aead, objs, blob) && b in objs && |b| == NONCE_LEN
    requires frameSize > 0 && Harmless(objs[b], frameSize, size)
    requires FrameStart(frameSize, i) <= end < |objs[b].plain| && start <= end
    requires start < FrameStart(frameSize, i) + frameSize
    ensures RightPiece(FrameRead(aead, blob, size, start, end, b, frameSize, i),
                       frameSize, i, start, end, objs[b].plain)
  {
    hide Aead.Correct, Unforged, FrameStart, FrameOffset, FrameNonce, FrameAad, PartWanted, Clip, FrameAt, FrameCount;
    var off := HEADER_SIZE + FrameOffset(frameSize, i);
    var len := Min(frameSize + TAG_LEN, size - off);
    IndexAtMostStart(frameSize, i);
    if TAG_LEN < len && off + len <= |blob| && OpenFrame(aead, b, i, blob[off..off + len]).Some? {
      OpenedFrameIsGenuine(aead, objs, blob, off, off + len, b, i);
      OpenedLength(aead, FrameNonce(b, i), FrameAad(i), blob[off..off + len]);
      assert Fits(objs[b], frameSize, size, i);
      assert InPlace(objs[b], frameSize, i);
      PartInPlace(objs[b].plain, frameSize, i, OwnFrame(objs[b], i), start, end);
    }
  }

  lemma HarmlessRange(objs: Sealings, b: Bytes, frameSize: nat, size: int, aead: Aead, blob: Bytes, start: nat,
                      end: nat)
    requires WellFormed(objs) && b in objs && Harmless(objs[b], frameSize, size)
    requires Request(objs, b, frameSize, aead, blob, start, end)
    ensures RightRange(RangeRun(aead, blob, size, start, end), objs[b].plain, start, end)
  {
    hide Aead.Correct, Unforged, Harmless, FrameStart, FrameRead, FramesRead, Clip, RightPiece, FrameHolding,
      HeaderFrameSize, HeaderBase;
    var plain := objs[b].plain;
    if RangeHeaderErr(blob, start, end) == NoErr {
      RangeGeometry(frameSize, start, end);
      var first, last := FrameHolding(frameSize, start), FrameHolding(frameSize, end);
      forall k: nat | first <= k <= last
        ensures RightPiece(FrameRead(aead, blob, size, start, end, b, frameSize, k), frameSize, k, start, end, plain)
      {
        FrameStartMonotone(frameSize, first, k);
        FrameStartMonotone(frameSize, k, last);
        HarmlessFrame(aead, objs, blob, size, start, end, b, frameSize, k);
      }
      RightFramesJoin(aead, blob, size, start, end, b, frameSize, first, last, plain);
      ClipMeans(plain, start, end + 1);
    }
  }

  // --- harmful ones ---

  /** A blob with nothing but one genuine frame where that frame size looks for it, behind any filler. */
  function Planted(aead: Aead, b: Bytes, frameSize: nat, i: nat, p: Bytes, front: Bytes, back: Bytes): Bytes
    requires |b| == NONCE_LEN
  {
    Header(b, frameSize) + (front + SealFrame(aead, b, i, p) + back)
  }

  lemma PlantedStretch(front: Bytes, sealed: Bytes, back: Bytes, header: Bytes)
    requires |header| == HEADER_SIZE
    ensures
      var blob := header + (front + sealed + back);
      var off := HEADER_SIZE + |front|;
      off + |sealed| <= |blob| && blob[off..off + |sealed|] == sealed
  {
  }

  lemma OneFrameRead(aead: Aead, blob: Bytes, size: int, q: nat, base: Bytes, frameSize: nat, i: nat)
    requires |base| == NONCE_LEN
    ensures FramesRead(aead, blob, size, q, q, base, frameSize, i, i) ==
            FrameRead(aead, blob, size, q, q, base, frameSize, i)
  {
    hide FrameRead;
    var w := FrameRead(aead, blob, size, q, q, base, frameSize, i);
    assert FramesRead(aead, blob, size, q, q, base, frameSize, i + 1, i) == Piece([], NoErr);
    assert w.bytes + [] == w.bytes;
  }

  /** Under every correct AEAD, a byte's read takes from a planted frame what it would take from the right one. */
  lemma PlantedRead(aead: Aead, b: Bytes, frameSize: nat, i: nat, p: Bytes, front: Bytes, back: Bytes, size: int,
                    q: nat)
    requires aead.Correct() && |b| == NONCE_LEN && 0 < frameSize < UINT32 && p != []
    requires |front| == FrameOffset(frameSize, i) && Stretch(frameSize, size, i).1 == |p| + TAG_LEN
    requires FrameStart(frameSize, i) <= q < FrameStart(frameSize, i) + frameSize
    ensures
      var blob := Planted(aead, b, frameSize, i, p, front, back);
      && HeaderBase(blob) == b && HeaderFrameSize(blob) == frameSize
      && RangeRun(aead, blob, size, q, q) == PartWanted(frameSize, i, p, q, q)
  {
    hide Aead.Correct, FrameNonce, FrameAad, FramesRead, PartWanted, Header, HeaderBase, HeaderFrameSize;
    var sealed := SealFrame(aead, b, i, p);
    var blob := Planted(aead, b, frameSize, i, p, front, back);
    SealedLength(aead, FrameNonce(b, i), FrameAad(i), p);
    OpensAsSealed(aead, FrameNonce(b, i), FrameAad(i), p);
    HeaderRoundTrip(b, frameSize, front + sealed + back, CleanEnd);
    PlantedStretch(front, sealed, back, Header(b, frameSize));
    RangeGeometry(frameSize, q, q);
    HoldingIs(frameSize, i, q);
    hide FrameStart, FrameOffset, FrameHolding;
    OneFrameRead(aead, blob, size, q, b, frameSize, i);
  }

  lemma HoldingIs(frameSize: nat, i: nat, q: nat)
    requires frameSize > 0 && FrameStart(frameSize, i) <= q < FrameStart(frameSize, i) + frameSize
    ensures FrameHolding(frameSize, q) == i
  {
    DivMod(i, q - FrameStart(frameSize, i), frameSize);
  }

  /** Where a list first fails to go on as another one. */
  lemma FirstDifference(a: Bytes, b: Bytes) returns (k: nat)
    requires !(a <= b)
    ensures k < |a| && k <= |b| && (k < |b| ==> a[k] != b[k])
  {
    if |b| < |a| {
      k := |b|;
    } else {
      k :| 0 <= k < |a| && a[k] != b[k];
    }
  }

  lemma MisreadByte(plain: Bytes, frameSize: nat, i: nat, p: Bytes) returns (q: nat)
    requires !(Clip(plain, FrameStart(frameSize, i), FrameStart(frameSize, i) + frameSize) <= p)
    ensures q < |plain| && FrameStart(frameSize, i) <= q < FrameStart(frameSize, i) + frameSize
    ensures
      var w := PartWanted(frameSize, i, p, q, q);
      w.err == NoErr && w.bytes != plain[q..q + 1]
  {
    hide FrameStart;
    var from := FrameStart(frameSize, i);
    var clip := Clip(plain, from, from + frameSize);
    var k := FirstDifference(clip, p);
    q := from + k;
    assert clip[k] == plain[q];
    assert plain[q..q + 1] == [plain[q]];
  }

  /**
   * A frame out of place is read without an error and is wrong: under every correct AEAD, for one byte
   * inside the plaintext, of a blob that holds nothing but a genuine frame.
   */
  lemma OutOfPlaceIsMisread(aead: Aead, o: Obj, b: Bytes, frameSize: nat, size: int, i: nat, front: Bytes, back: Bytes)
    returns (q: nat)
    requires aead.Correct() && |b| == NONCE_LEN && frameSize < UINT32
    requires o.frameSize > 0 && i < Count(o) && Fits(o, frameSize, size, i) && !InPlace(o, frameSize, i)
    requires |front| == FrameOffset(frameSize, i)
    ensures frameSize > 0 && q < |o.plain|
    ensures
      var r := RangeRun(aead, Planted(aead, b, frameSize, i, OwnFrame(o, i), front, back), size, q, q);
      r.err == NoErr && r.bytes != o.plain[q..q + 1]
  {
    hide Aead.Correct, FrameStart, FrameOffset, RangeRun, Planted, FrameAt, FrameCount, Stretch, PartWanted;
    FrameLengths(o, i);
    q := MisreadByte(o.plain, frameSize, i, OwnFrame(o, i));
    PlantedRead(aead, b, frameSize, i, OwnFrame(o, i), front, back, size, q);
  }

  // --- the theorems ---

  function Filler(n: nat): (f: Bytes)
    ensures |f| == n
  {
    seq(n, _ => 0)
  }

  lemma PlantedIsShort(o: Obj, frameSize: nat, i: nat)
    requires o.frameSize > 0 && |o.plain| < INT64 && i < Count(o) && FrameStart(frameSize, i) < |o.plain|
    ensures HEADER_SIZE + FrameOffset(frameSize, i) + |OwnFrame(o, i)| + TAG_LEN < MANY
  {
    FrameCountBounds(o.frameSize, |o.plain|);
    FrameLengths(o, i);
    OffsetIs(frameSize, i);
    hide FrameStart, FrameOffset, FrameAt, FrameCount;
  }

  lemma OffsetIs(frameSize: nat, i: nat)
    ensures FrameOffset(frameSize, i) == FrameStart(frameSize, i) + TAG_LEN * i
  {
  }

  lemma PlantedIsUnforged(objs: Sealings, b: Bytes, frameSize: nat, i: nat, front: Bytes, back: Bytes)
    returns (aead: Aead, blob: Bytes)
    requires WellFormed(objs) && b in objs && i < Count(objs[b])
    requires HEADER_SIZE + |front| + |OwnFrame(objs[b], i)| + TAG_LEN + |back| < MANY
    ensures aead.Correct() && blob == Planted(aead, b, frameSize, i, OwnFrame(objs[b], i), front, back)
    ensures Unforged(aead, objs, blob)
  {
    hide Toy, SealFrame, Header, FrameAt, FrameCount, Unforged, Aead.Correct, Occurs;
    blob := Header(b, frameSize) + (front + (OwnFrame(objs[b], i) + ZERO_TAG) + back);
    var other := FreshTag(blob);
    aead := Toy(objs, other);
    ToyIsCorrect(objs, other);
    ToyFrame(objs, other, b, i);
    ToyIsUnforged(objs, other, blob);
  }

  lemma HarmfulRange(objs: Sealings, b: Bytes, frameSize: nat, size: int)
    requires WellFormed(objs) && b in objs && frameSize < UINT32 && !Harmless(objs[b], frameSize, size)
    ensures !RangesRight(objs, b, frameSize, size)
  {
    hide FrameStart, FrameOffset, FrameAt, FrameCount, Fits, Planted, RangeRun, Unforged, Aead.Correct;
    var o := objs[b];
    var i: nat :| i < Count(o) && Fits(o, frameSize, size, i) && !InPlace(o, frameSize, i);
    assert FrameStart(frameSize, i) < |o.plain|;
    PlantedIsShort(o, frameSize, i);
    var front := Filler(FrameOffset(frameSize, i));
    var aead, blob := PlantedIsUnforged(objs, b, frameSize, i, front, []);
    var q := OutOfPlaceIsMisread(aead, o, b, frameSize, size, i, front, []);
    PlantedHeader(aead, b, frameSize, i, OwnFrame(o, i), front, []);
    assert Request(objs, b, frameSize, aead, blob, q, q);
  }

  lemma PlantedHeader(aead: Aead, b: Bytes, frameSize: nat, i: nat, p: Bytes, front: Bytes, back: Bytes)
    requires |b| == NONCE_LEN && frameSize < UINT32
    ensures
      var blob := Planted(aead, b, frameSize, i, p, front, back);
      |blob| >= HEADER_SIZE && HeaderBase(blob) == b && HeaderFrameSize(blob) == frameSize
  {
    HeaderRoundTrip(b, frameSize, front + SealFrame(aead, b, i, p) + back, CleanEnd);
    hide Header, HeaderBase, HeaderFrameSize;
  }

  /**
   * For every object, frame size in the header and recorded size: all range reads inside the plaintext are
   * right, whatever else was done to the blob, exactly if every frame that fits the stretch where it is
   * looked for begins with what the plaintext has there.
   */
  lemma RangesRightIffHarmless(objs: Sealings, b: Bytes, frameSize: nat, size: int)
    requires WellFormed(objs) && b in objs && frameSize < UINT32
    ensures RangesRight(objs, b, frameSize, size) <==> Harmless(objs[b], frameSize, size)
  {
    hide Harmless, RightRange, Unforged, Aead.Correct, RangeRun;
    if Harmless(objs[b], frameSize, size) {
      forall aead, blob, start: nat, end: nat | Request(objs, b, frameSize, aead, blob, start, end)
        ensures RightRange(RangeRun(aead, blob, size, start, end), objs[b].plain, start, end)
      {
        HarmlessRange(objs, b, frameSize, size, aead, blob, start, end);
      }
    } else {
      HarmfulRange(objs, b, frameSize, size);
    }
  }

  // --- closed forms ---

  /** The last frame, put where smaller frames would have it, says what the plaintext has there. */
  predicate LastAgrees(o: Obj, frameSize: nat)
    requires o.frameSize > 0
  {
    InPlace(o, frameSize, Count(o) - 1)
  }

  lemma {:induction false} StartsDiffer(small: nat, large: nat, i: nat)
    requires small < large && i > 0
    ensures FrameStart(small, i) + (large - small) <= FrameStart(large, i)
    decreases i
  {
    FrameStep(small, i - 1);
    FrameStep(large, i - 1);
    if i > 1 {
      StartsDiffer(small, large, i - 1);
    } else {
      FrameStep(small, 0);
      FrameStep(large, 0);
    }
  }

  lemma RecordedFits(o: Obj, frameSize: nat, i: nat)
    requires o.frameSize > 0 && i < Count(o)
    ensures
      var left := |o.plain| + TAG_LEN * Count(o) - FrameOffset(frameSize, i);
      Fits(o, frameSize, CiphertextSize(o.frameSize, |o.plain|), i) <==>
      Min(frameSize + TAG_LEN, left) == |OwnFrame(o, i)| + TAG_LEN
  {
    CiphertextSizeIsLayoutSize(o.frameSize, |o.plain|);
    FrameCountBounds(o.frameSize, |o.plain|);
    hide CiphertextSize, FramesLength, FrameAt, FrameCount, FrameOffset;
  }

  /** A frame in place under the size it was sealed with, or alone, or a last one too long for smaller frames. */
  lemma OwnSizeInPlace(o: Obj, frameSize: nat, i: nat)
    requires o.frameSize > 0 && i < Count(o)
    requires frameSize == o.frameSize || Count(o) == 1
    ensures InPlace(o, frameSize, i)
  {
    hide FrameAt, FrameCount, FrameOffset;
    FrameLengths(o, i);
    FrameStep(frameSize, 0);
    FrameStep(o.frameSize, 0);
    hide FrameStart;
  }

  lemma FitsIsShort(o: Obj, frameSize: nat, size: int, i: nat)
    requires o.frameSize > 0 && i < Count(o) && Fits(o, frameSize, size, i)
    ensures |OwnFrame(o, i)| <= frameSize
  {
    hide FrameAt, FrameCount, FrameOffset;
  }

  /** The frame sizes in a header under which all range reads are right, whatever size is recorded. */
  predicate AlwaysHarmless(o: Obj, frameSize: nat)
    requires o.frameSize > 0
  {
    || frameSize == o.frameSize
    || Count(o) == 1
    || frameSize < LastLength(o)
    || (frameSize == LastLength(o) && LastAgrees(o, frameSize))
  }

  lemma AlwaysHarmlessIsHarmless(o: Obj, frameSize: nat, size: int)
    requires o.frameSize > 0 && AlwaysHarmless(o, frameSize)
    ensures Harmless(o, frameSize, size)
  {
    hide FrameAt, FrameCount, FrameOffset, FrameStart, Fits, InPlace, LastLength;
    forall i: nat | i < Count(o) && Fits(o, frameSize, size, i)
      ensures InPlace(o, frameSize, i)
    {
      FrameLengths(o, i);
      FitsIsShort(o, frameSize, size, i);
      if frameSize == o.frameSize || Count(o) == 1 {
        OwnSizeInPlace(o, frameSize, i);
      }
    }
  }

  /** A frame is out of place where the plaintext goes on behind it and more is looked for. */
  lemma ShortIsOutOfPlace(o: Obj, frameSize: nat, i: nat)
    requires o.frameSize > 0 && i < Count(o)
    requires |OwnFrame(o, i)| < frameSize && FrameStart(frameSize, i) + |OwnFrame(o, i)| < |o.plain|
    ensures !InPlace(o, frameSize, i)
  {
    hide FrameAt, FrameCount, FrameStart;
  }

  /** The recorded size with which a frame fits. */
  function FittingSize(o: Obj, frameSize: nat, i: nat): int
    requires o.frameSize > 0 && i < Count(o)
  {
    HEADER_SIZE + FrameOffset(frameSize, i) + |OwnFrame(o, i)| + TAG_LEN
  }

  lemma FittingSizeFits(o: Obj, frameSize: nat, i: nat)
    requires o.frameSize > 0 && i < Count(o) && |OwnFrame(o, i)| <= frameSize
    ensures Fits(o, frameSize, FittingSize(o, frameSize, i), i)
  {
    hide FrameAt, FrameCount, FrameOffset;
  }

  lemma NotAlwaysHarmless(o: Obj, frameSize: nat)
    requires o.frameSize > 0 && !AlwaysHarmless(o, frameSize)
    ensures exists size :: !Harmless(o, frameSize, size)
  {
    hide FrameAt, FrameCount, FrameOffset, Fits, InPlace;
    var n := Count(o);
    FrameLengths(o, 0);
    FrameLengths(o, n - 1);
    FrameStep(frameSize, 0);
    var i: nat := if frameSize > o.frameSize then 0 else n - 1;
    if frameSize < o.frameSize {
      StartsDiffer(frameSize, o.frameSize, n - 1);
    }
    hide FrameStart;
    FittingSizeFits(o, frameSize, i);
    if |OwnFrame(o, i)| < frameSize {
      ShortIsOutOfPlace(o, frameSize, i);
    }
    assert !Harmless(o, frameSize, FittingSize(o, frameSize, i));
  }

  /**
   * Whatever size is recorded: all range reads inside the plaintext are right exactly if the header has the
   * frame size the object was sealed with, or the object has one frame, or the header's frame size is too
   * small for the object's last frame, or is that frame's length and the bytes happen to agree.
   */
  lemma RightAtEverySize(objs: Sealings, b: Bytes, frameSize: nat)
    requires WellFormed(objs) && b in objs && frameSize < UINT32
    ensures (forall size :: RangesRight(objs, b, frameSize, size)) <==> AlwaysHarmless(objs[b], frameSize)
  {
    hide Harmless, AlwaysHarmless, RangesRight, WellFormed;
    WellFormedMeans(objs, b);
    if AlwaysHarmless(objs[b], frameSize) {
      forall size
        ensures RangesRight(objs, b, frameSize, size)
      {
        AlwaysHarmlessIsHarmless(objs[b], frameSize, size);
        RangesRightIffHarmless(objs, b, frameSize, size);
      }
    } else {
      NotAlwaysHarmless(objs[b], frameSize);
      var size :| !Harmless(objs[b], frameSize, size);
      RangesRightIffHarmless(objs, b, frameSize, size);
    }
  }

  lemma WellFormedMeans(objs: Sealings, b: Bytes)
    requires WellFormed(objs) && b in objs
    ensures |b| == NONCE_LEN && objs[b].frameSize > 0 && |objs[b].plain| < INT64
  {
  }

  /**
   * The frame sizes in a header under which all range reads are right when the size recorded is the
   * object's own, as it is in the service. A larger frame size can make an inner frame fit, by a coincidence
   * of sizes.
   */
  predicate HarmlessAsRecorded(o: Obj, frameSize: nat)
    requires o.frameSize > 0
  {
    var n := Count(o);
    || frameSize == o.frameSize
    || n == 1
    || (frameSize < o.frameSize && (frameSize == LastLength(o) ==> LastAgrees(o, frameSize)))
    || (frameSize > o.frameSize &&
        var end := FrameOffset(o.frameSize, n - 2) + LastLength(o) + TAG_LEN;
        forall i: nat :: 0 < i < n - 1 && FrameOffset(frameSize, i) == end ==> InPlace(o, frameSize, i))
  }

  lemma SmallerFitsAsRecorded(o: Obj, frameSize: nat, i: nat)
    requires o.frameSize > 0 && i < Count(o) && Count(o) > 1 && frameSize < o.frameSize
    ensures Fits(o, frameSize, CiphertextSize(o.frameSize, |o.plain|), i) <==>
            i == Count(o) - 1 && frameSize == LastLength(o)
  {
    hide FrameAt, FrameCount, FrameOffset, CiphertextSize;
    var n := Count(o);
    RecordedFits(o, frameSize, i);
    FrameLengths(o, i);
    StartsDiffer(frameSize, o.frameSize, n - 1);
    OffsetIs(frameSize, i);
    hide FrameStart, Fits;
  }

  lemma LargerFitsAsRecorded(o: Obj, frameSize: nat, i: nat)
    requires o.frameSize > 0 && i < Count(o) && Count(o) > 1 && frameSize > o.frameSize
    ensures Fits(o, frameSize, CiphertextSize(o.frameSize, |o.plain|), i) <==>
            && 0 < i < Count(o) - 1
            && FrameOffset(frameSize, i) == FrameOffset(o.frameSize, Count(o) - 2) + LastLength(o) + TAG_LEN
  {
    hide FrameAt, FrameCount, FrameOffset, CiphertextSize;
    var n := Count(o);
    RecordedFits(o, frameSize, i);
    FrameLengths(o, i);
    FrameLengths(o, n - 1);
    StartsDiffer(o.frameSize, frameSize, n - 1);
    FrameStep(o.frameSize, n - 2);
    FrameStep(frameSize, 0);
    OffsetIs(frameSize, i);
    OffsetIs(o.frameSize, n - 2);
    hide FrameStart, Fits;
  }

  /** The same at the object's own recorded size. */
  lemma RightAsRecorded(objs: Sealings, b: Bytes, frameSize: nat)
    requires WellFormed(objs) && b in objs && frameSize < UINT32
    ensures RangesRight(objs, b, frameSize, CiphertextSize(objs[b].frameSize, |objs[b].plain|)) <==>
            HarmlessAsRecorded(objs[b], frameSize)
  {
    hide FrameAt, FrameCount, FrameOffset, FrameStart, CiphertextSize, RangesRight, WellFormed, Fits, InPlace;
    WellFormedMeans(objs, b);
    var o := objs[b];
    var size := CiphertextSize(o.frameSize, |o.plain|);
    RangesRightIffHarmless(objs, b, frameSize, size);
    forall i: nat | i < Count(o)
      ensures frameSize == o.frameSize || Count(o) == 1 ==> InPlace(o, frameSize, i)
      ensures Count(o) > 1 && frameSize < o.frameSize ==>
                (Fits(o, frameSize, size, i) <==> i == Count(o) - 1 && frameSize == LastLength(o))
      ensures Count(o) > 1 && frameSize > o.frameSize ==>
                (Fits(o, frameSize, size, i) <==>
                 && 0 < i < Count(o) - 1
                 && FrameOffset(frameSize, i) == FrameOffset(o.frameSize, Count(o) - 2) + LastLength(o) + TAG_LEN)
    {
      if frameSize == o.frameSize || Count(o) == 1 {
        OwnSizeInPlace(o, frameSize, i);
      } else if frameSize < o.frameSize {
        SmallerFitsAsRecorded(o, frameSize, i);
      } else {
        LargerFitsAsRecorded(o, frameSize, i);
      }
    }
  }

  // --- an instance ---

  /** Under every correct AEAD: a frame of the byte 9 is read as position 1, with frames of one and size 52. */
  lemma MisplacedByte(aead: Aead, b: Bytes)
    requires aead.Correct() && |b| == NONCE_LEN
    ensures
      var blob := Planted(aead, b, 1, 1, [9], Filler(17), [0]);
      && |blob| == 52 && HeaderBase(blob) == b && HeaderFrameSize(blob) == 1
      && RangeRun(aead, blob, 52, 1, 1) == Piece([9], NoErr)
  {
    hide Aead.Correct, FrameNonce, FrameAad, RangeRun, Header, HeaderBase, HeaderFrameSize;
    assert FrameOffset(1, 1) == 17 && FrameStart(1, 1) == 1;
    SealedLength(aead, FrameNonce(b, 1), FrameAad(1), [9]);
    PlantedRead(aead, b, 1, 1, [9], Filler(17), [0], 52, 1);
    assert PartWanted(1, 1, [9], 1, 1) == Piece([9], NoErr);
  }

  /**
   * An instance: the bytes 7, 8 and 9 were sealed with frames of two, and the header says one. In an unforged
   * blob of the recorded size, the byte at position 1, which is 8, is read as 9 without an error.
   */
  lemma SmallerFrameSizeMisplaces() returns (aead: Aead, objs: Sealings, blob: Bytes)
    ensures aead.Correct() && WellFormed(objs) && Unforged(aead, objs, blob)
    ensures |blob| == 52 == CiphertextSize(2, 3)
    ensures HeaderBase(blob) in objs && objs[HeaderBase(blob)] == Obj(2, [7, 8, 9]) && HeaderFrameSize(blob) == 1
    ensures RangeRun(aead, blob, 52, 1, 1) == Piece([9], NoErr)
  {
    hide Planted, RangeRun, Unforged, Aead.Correct, HeaderBase, HeaderFrameSize, WellFormed, TWO_FRAMES;
    TwoFrames();
    objs := TWO_FRAMES;
    aead, blob := PlantedIsUnforged(objs, ZERO_BASE, 1, 1, Filler(17), [0]);
    MisplacedByte(aead, ZERO_BASE);
  }
}
