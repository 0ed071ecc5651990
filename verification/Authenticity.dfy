/**
 * What a decrypter can release when the AEAD is ideal, that is, when nothing opens under the bucket's
 * key except what was sealed under it.
 */
module Authenticity {
  import opened Bytes
  import opened Aead
  import opened Io
  import opened FrameFormat
  import opened Decrypting
  import opened RangeRead

  /** One object ever sealed under the key. */
  datatype Obj = Obj(frameSize: nat, plain: Bytes)

  /** Every object sealed under the key, by base nonce: base nonces are distinct. */
  type Sealings = map<Bytes, Obj>

  ghost predicate WellFormed(objs: Sealings) {
    forall b :: b in objs ==> |b| == NONCE_LEN && objs[b].frameSize > 0 && |objs[b].plain| < INT64
  }

  function FrameAt(frameSize: nat, plain: Bytes, i: nat): Bytes
    requires frameSize > 0 && i < FrameCount(frameSize, |plain|)
    decreases i
  {
    if i == 0 then plain[..Min(frameSize, |plain|)] else FrameAt(frameSize, plain[frameSize..], i - 1)
  }

  /** The plaintext from frame i on. */
  function From(frameSize: nat, plain: Bytes, i: nat): Bytes
    requires frameSize > 0 && i <= FrameCount(frameSize, |plain|)
    decreases i
  {
    if i == 0 then plain
    else if |plain| <= frameSize then []
    else From(frameSize, plain[frameSize..], i - 1)
  }

  lemma {:induction false} FromStep(frameSize: nat, plain: Bytes, i: nat)
    requires frameSize > 0 && i < FrameCount(frameSize, |plain|)
    ensures From(frameSize, plain, i) == FrameAt(frameSize, plain, i) + From(frameSize, plain, i + 1)
    ensures i > 0 ==> FrameAt(frameSize, plain, i) != []
    ensures i == 0 ==> FrameAt(frameSize, plain, i) == plain[..Min(frameSize, |plain|)]
    decreases i
  {
    if i > 0 {
      FromStep(frameSize, plain[frameSize..], i - 1);
    } else if |plain| > frameSize {
      assert plain == plain[..frameSize] + plain[frameSize..];
    }
  }

  lemma {:induction false} FrameCountBounds(frameSize: nat, n: nat)
    requires frameSize > 0
    ensures FrameCount(frameSize, n) <= n + 1
    ensures FramesLength(frameSize, n) == n + FrameCount(frameSize, n) * TAG_LEN
    decreases n
  {
    if n > frameSize {
      FrameCountBounds(frameSize, n - frameSize);
    }
  }

  lemma {:induction false} NothingBehindTheLast(frameSize: nat, plain: Bytes)
    requires frameSize > 0
    ensures From(frameSize, plain, FrameCount(frameSize, |plain|)) == []
    decreases |plain|
  {
    if |plain| > frameSize {
      NothingBehindTheLast(frameSize, plain[frameSize..]);
    }
  }

  /** p was sealed under nonce n and associated data a. */
  ghost predicate Genuine(objs: Sealings, n: Bytes, a: Bytes, p: Bytes)
    requires WellFormed(objs)
  {
    exists b, i: nat ::
      && b in objs && i < FrameCount(objs[b].frameSize, |objs[b].plain|)
      && n == FrameNonce(b, i) && a == FrameAad(i) && p == FrameAt(objs[b].frameSize, objs[b].plain, i)
  }

  /** The ideal-AEAD hypothesis for one blob: no stretch of it is a forgery. */
  ghost predicate Unforged(aead: Aead, objs: Sealings, blob: Bytes)
    requires WellFormed(objs)
  {
    forall lo: nat, hi: nat, n, a ::
      lo <= hi <= |blob| && aead.open(n, a, blob[lo..hi]).Some? ==>
        Genuine(objs, n, a, aead.open(n, a, blob[lo..hi]).value)
  }

  lemma UnforgedSuffix(aead: Aead, objs: Sealings, blob: Bytes, k: nat)
    requires WellFormed(objs) && Unforged(aead, objs, blob) && k <= |blob|
    ensures Unforged(aead, objs, blob[k..])
  {
    forall lo: nat, hi: nat, n, a |
      lo <= hi <= |blob[k..]| && aead.open(n, a, blob[k..][lo..hi]).Some?
      ensures Genuine(objs, n, a, aead.open(n, a, blob[k..][lo..hi]).value)
    {
      assert blob[k..][lo..hi] == blob[k + lo..k + hi];
    }
  }

  /** A stretch that opens as frame i under base nonce b is frame i of the object sealed with b. */
  lemma OpenedFrameIsGenuine(aead: Aead, objs: Sealings, blob: Bytes, lo: nat, hi: nat, b: Bytes, i: nat)
    requires WellFormed(objs) && Unforged(aead, objs, blob) && lo <= hi <= |blob|
    requires |b| == NONCE_LEN && i < UINT64
    requires OpenFrame(aead, b, i, blob[lo..hi]).Some?
    ensures b in objs && i < FrameCount(objs[b].frameSize, |objs[b].plain|)
    ensures OpenFrame(aead, b, i, blob[lo..hi]).value == FrameAt(objs[b].frameSize, objs[b].plain, i)
  {
    var p := OpenFrame(aead, b, i, blob[lo..hi]).value;
    hide FrameNonce;
    hide FrameAad;
    assert Genuine(objs, FrameNonce(b, i), FrameAad(i), p);
    var b', j: nat :| b' in objs && j < FrameCount(objs[b'].frameSize, |objs[b'].plain|)
      && FrameNonce(b, i) == FrameNonce(b', j) && FrameAad(i) == FrameAad(j)
      && p == FrameAt(objs[b'].frameSize, objs[b'].plain, j);
    FrameCountBounds(objs[b'].frameSize, |objs[b'].plain|);
    NonceAndAadNameTheFrame(b, i, b', j);
  }

  /** How many frames the object sealed with b has; none when there is no such object. */
  ghost function Limit(objs: Sealings, b: Bytes): nat
    requires WellFormed(objs)
  {
    if b in objs then FrameCount(objs[b].frameSize, |objs[b].plain|) else 0
  }

  /** The genuine plaintext under base nonce b from frame i on. */
  ghost function Genuinely(objs: Sealings, b: Bytes, i: nat): Bytes
    requires WellFormed(objs) && i <= Limit(objs, b)
  {
    if b in objs then From(objs[b].frameSize, objs[b].plain, i) else []
  }

  lemma OneFrame(aead: Aead, objs: Sealings, b: Bytes, i: nat, ct: Bytes, len: nat)
    requires WellFormed(objs) && Unforged(aead, objs, ct) && len <= |ct|
    requires |b| == NONCE_LEN && i <= Limit(objs, b)
    requires OpenFrame(aead, b, i, ct[..len]).Some?
    ensures i + 1 <= Limit(objs, b)
    ensures Genuinely(objs, b, i) == OpenFrame(aead, b, i, ct[..len]).value + Genuinely(objs, b, i + 1)
  {
    if b in objs {
      FrameCountBounds(objs[b].frameSize, |objs[b].plain|);
    }
    assert ct[0..len] == ct[..len];
    OpenedFrameIsGenuine(aead, objs, ct, 0, len, b, i);
    FromStep(objs[b].frameSize, objs[b].plain, i);
  }

  /** Over one run: released bytes are the genuine ones, in order and from the right place on. */
  lemma {:induction false} RunReleasesGenuine(
    aead: Aead, objs: Sealings, b: Bytes, frameSize: nat, i: nat, ct: Bytes, tail: Tail)
    requires aead.Correct() && WellFormed(objs) && Unforged(aead, objs, ct)
    requires |b| == NONCE_LEN && frameSize > 0 && i <= Limit(objs, b)
    ensures
      var r := OpenRun(aead, b, frameSize, i, ct, tail);
      && i <= r.idx <= Limit(objs, b)
      && Genuinely(objs, b, i) == r.plain + Genuinely(objs, b, r.idx)
      && Unforged(aead, objs, r.rest)
      && (r.stop == Eof ==> |ct| == |r.plain| + (r.idx - i) * TAG_LEN)
    decreases |ct|
  {
    hide Aead.Correct, WellFormed, Unforged, Limit, Genuinely, FrameNonce, FrameAad;
    var unit := frameSize + TAG_LEN;
    UnforgedSuffix(aead, objs, ct, |ct|);
    assert ct[|ct|..] == [];
    if |ct| >= unit {
      UnforgedSuffix(aead, objs, ct, unit);
      var o := OpenFrame(aead, b, i, ct[..unit]);
      if o.Some? {
        OneFrame(aead, objs, b, i, ct, unit);
        OpenedLength(aead, FrameNonce(b, i), FrameAad(i), ct[..unit]);
        RunReleasesGenuine(aead, objs, b, frameSize, i + 1, ct[unit..], tail);
        var r := OpenRun(aead, b, frameSize, i + 1, ct[unit..], tail);
        Assoc(o.value, r.plain, Genuinely(objs, b, r.idx));
      }
    } else if tail.CleanEnd? && |ct| >= TAG_LEN {
      var o := OpenFrame(aead, b, i, ct);
      if o.Some? {
        assert ct[..|ct|] == ct;
        OneFrame(aead, objs, b, i, ct, |ct|);
        OpenedLength(aead, FrameNonce(b, i), FrameAad(i), ct);
      }
    }
  }

  /** Everything released by a reader that carries on after errors, up to the given number of stops. */
  function Released(
    aead: Aead, b: Bytes, frameSize: nat, i: nat, atEof: bool, ct: Bytes, tail: Tail, stops: nat): Bytes
    requires frameSize > 0 && |b| == NONCE_LEN
    decreases stops
  {
    if stops == 0 then []
    else
      var r := OpenFrom(aead, b, frameSize, i, atEof, ct, tail);
      r.plain + Released(aead, b, frameSize, r.idx, r.atEof, r.rest, tail, stops - 1)
  }

  /** A reader that carries on until it has met that many stops releases just that. */
  method ReadThrough(d: Decrypter, bufSize: nat -> nat, stops: nat) returns (got: Bytes)
    requires d.Valid() && d.out == |d.plain| && forall k :: bufSize(k) > 0
    modifies d, d.src
    ensures d.Valid()
    ensures got == old(Released(d.aead, d.base, d.frameSize, d.idx, d.atEof, d.src.Rest(), d.src.tail, stops))
  {
    hide OpenFrom;
    got := [];
    var n := 0;
    ghost var all := Released(d.aead, d.base, d.frameSize, d.idx, d.atEof, d.src.Rest(), d.src.tail, stops);
    assert [] + all == all;
    while n < stops
      invariant d.Valid() && d.out == |d.plain| && 0 <= n <= stops
      invariant got + Released(d.aead, d.base, d.frameSize, d.idx, d.atEof, d.src.Rest(), d.src.tail, stops - n) == all
    {
      ghost var run := d.Ahead();
      ghost var rest := Released(d.aead, d.base, d.frameSize, run.idx, run.atEof, run.rest, d.src.tail, stops - n - 1);
      assert d.plain[d.out..] + run.plain == run.plain;
      var piece, err := CopyAll(d, bufSize);
      Assoc(got, piece, rest);
      got := got + piece;
      n := n + 1;
    }
    assert got + [] == got;
  }

  lemma {:induction false} ReleasedIsGenuine(
    aead: Aead, objs: Sealings, b: Bytes, frameSize: nat, i: nat, atEof: bool, ct: Bytes, tail: Tail, stops: nat)
    requires aead.Correct() && WellFormed(objs) && Unforged(aead, objs, ct)
    requires |b| == NONCE_LEN && frameSize > 0 && i <= Limit(objs, b)
    ensures Released(aead, b, frameSize, i, atEof, ct, tail, stops) <= Genuinely(objs, b, i)
    decreases stops
  {
    hide Aead.Correct;
    hide OpenRun;
    hide Genuinely;
    hide Unforged;
    hide Limit;
    if stops > 0 {
      var r := OpenFrom(aead, b, frameSize, i, atEof, ct, tail);
      if !atEof {
        RunReleasesGenuine(aead, objs, b, frameSize, i, ct, tail);
      }
      assert Genuinely(objs, b, i) == r.plain + Genuinely(objs, b, r.idx);
      ReleasedIsGenuine(aead, objs, b, frameSize, r.idx, r.atEof, r.rest, tail, stops - 1);
    }
  }

  /**
   * Whatever blob is served (frames reordered, spliced in from other objects, cut, header altered),
   * and however often its reader carries on after an error, the bytes released are a prefix of the
   * one plaintext sealed under the header's base nonce, and none if there is no such plaintext.
   */
  lemma TamperedBlobReleasesPrefix(aead: Aead, objs: Sealings, blob: Bytes, tail: Tail, stops: nat)
    requires aead.Correct() && WellFormed(objs) && Unforged(aead, objs, blob)
    requires HeaderErr(blob, tail) == NoErr
    ensures
      var released :=
        Released(aead, HeaderBase(blob), HeaderFrameSize(blob), 0, false, blob[HEADER_SIZE..], tail, stops);
      if HeaderBase(blob) in objs then released <= objs[HeaderBase(blob)].plain else released == []
  {
    UnforgedSuffix(aead, objs, blob, HEADER_SIZE);
    ReleasedIsGenuine(aead, objs, HeaderBase(blob), HeaderFrameSize(blob), 0, false,
      blob[HEADER_SIZE..], tail, stops);
  }

  /** The same of the reader itself: all it hands out over however many errors its caller ignores. */
  method ReadTampered(aead: Aead, ghost objs: Sealings, src: Source<Byte>, bufSize: nat -> nat, stops: nat)
    returns (got: Bytes, err: Err)
    requires aead.Correct() && WellFormed(objs) && src.Valid() && Unforged(aead, objs, src.Rest())
    requires forall k :: bufSize(k) > 0
    modifies src
    ensures err == HeaderErr(old(src.Rest()), src.tail)
    ensures err != NoErr ==> got == []
    ensures err == NoErr ==>
              var b := HeaderBase(old(src.Rest()));
              if b in objs then got <= objs[b].plain else got == []
  {
    hide Released, OpenBlob, Unforged;
    ghost var blob := src.Rest();
    var d;
    got := [];
    err, d := NewDecrypter(aead, src);
    if d != null {
      TamperedBlobReleasesPrefix(aead, objs, blob, src.tail, stops);
      got := ReadThrough(d, bufSize, stops);
    }
  }

  lemma {:induction false} OnlyEmptyEndsEarly(frameSize: nat, plain: Bytes, i: nat)
    requires frameSize > 0 && i < FrameCount(frameSize, |plain|)
    requires From(frameSize, plain, i) == []
    ensures plain == []
  {
    FromStep(frameSize, plain, i);
  }

  /**
   * A cut at a frame boundary ends as cleanly as the whole blob does. When a clean end means that the
   * whole object was read: exactly if the blob has the object's recorded ciphertext size, or the
   * object is empty.
   */
  lemma CleanEndIsCompleteIffFullSize(aead: Aead, objs: Sealings, blob: Bytes, tail: Tail)
    requires aead.Correct() && WellFormed(objs) && Unforged(aead, objs, blob)
    requires OpenBlob(aead, blob, tail).stop == Eof && |blob| >= HEADER_SIZE
    requires HeaderBase(blob) in objs
    ensures
      var o := objs[HeaderBase(blob)];
      OpenBlob(aead, blob, tail).plain == o.plain <==>
      |blob| == CiphertextSize(o.frameSize, |o.plain|) || o.plain == []
  {
    var b, body := HeaderBase(blob), blob[HEADER_SIZE..];
    var o := objs[b];
    UnforgedSuffix(aead, objs, blob, HEADER_SIZE);
    RunReleasesGenuine(aead, objs, b, HeaderFrameSize(blob), 0, body, tail);
    var r := OpenBlob(aead, blob, tail);
    var frames := FrameCount(o.frameSize, |o.plain|);
    CiphertextSizeIsLayoutSize(o.frameSize, |o.plain|);
    FrameCountBounds(o.frameSize, |o.plain|);
    if r.idx == frames {
      NothingBehindTheLast(o.frameSize, o.plain);
    } else if r.plain == o.plain {
      OnlyEmptyEndsEarly(o.frameSize, o.plain, r.idx);
    }
  }

  /** The header can be met and the clean end reached by a proper prefix: here, by the first frame of two. */
  lemma CutAtFrameBoundaryEndsCleanly(c: Cipher, b: Bytes, first: Bytes, second: Bytes)
    requires c.Valid() && |b| == NONCE_LEN && |first| == c.frameSize && 0 < |second|
    ensures
      var whole := Sealed(c, b, first + second);
      var cut := whole[..HEADER_SIZE + c.frameSize + TAG_LEN];
      && |cut| < |whole|
      && OpenBlob(c.aead, cut, CleanEnd).stop == Eof && OpenBlob(c.aead, cut, CleanEnd).plain == first
  {
    var fs, unit := c.frameSize, c.frameSize + TAG_LEN;
    var plain := first + second;
    assert plain[..fs] == first && plain[fs..] == second;
    SealedLength(c.aead, FrameNonce(b, 0), FrameAad(0), first);
    var f, g := SealFrame(c.aead, b, 0, first), Frames(c, b, 1, second);
    FramesHaveLayoutLength(c, b, 1, second);
    FramesLengthBounds(fs, |second|);
    var whole := Sealed(c, b, plain);
    assert whole == Header(b, fs) + (f + g);
    assert whole[..HEADER_SIZE + unit] == Header(b, fs) + f == Sealed(c, b, first);
    OpenBlobOfSealed(c, b, first);
  }

  // --- ranges ---

  lemma {:induction false} FrameAtIsClip(frameSize: nat, plain: Bytes, i: nat)
    requires frameSize > 0 && i < FrameCount(frameSize, |plain|)
    ensures FrameStart(frameSize, i) <= |plain|
    ensures FrameAt(frameSize, plain, i) == Clip(plain, FrameStart(frameSize, i), FrameStart(frameSize, i) + frameSize)
    decreases i
  {
    if i > 0 {
      FrameStep(frameSize, i - 1);
      var from := FrameStart(frameSize, i - 1);
      FrameAtIsClip(frameSize, plain[frameSize..], i - 1);
      hide FrameStart;
      SliceOfDrop(plain, frameSize, from, Min(from + frameSize, |plain| - frameSize));
    }
  }

  lemma UnforgedIsTruthful(aead: Aead, objs: Sealings, blob: Bytes, b: Bytes, frameSize: nat, plain: Bytes)
    requires WellFormed(objs) && Unforged(aead, objs, blob) && |b| == NONCE_LEN
    requires b in objs ==> objs[b] == Obj(frameSize, plain)
    ensures Truthful(aead, b, frameSize, blob, plain)
  {
    hide Unforged, OpenFrame, FrameAt, Clip, FrameStart;
    forall i: nat, lo: nat, hi: nat |
      i < UINT64 && lo <= hi <= |blob| && OpenFrame(aead, b, i, blob[lo..hi]).Some?
      ensures FrameStart(frameSize, i) <= |plain|
      ensures OpenFrame(aead, b, i, blob[lo..hi]).value ==
              Clip(plain, FrameStart(frameSize, i), FrameStart(frameSize, i) + frameSize)
    {
      OpenedFrameIsGenuine(aead, objs, blob, lo, hi, b, i);
      FrameAtIsClip(frameSize, plain, i);
    }
  }

  /**
   * Whatever blob is served with the recorded frame size in its header, and whatever size is recorded
   * for it: a range read writes a prefix of the range of the one plaintext sealed under the header's base
   * nonce, all of it if it reports no error, and nothing if there is no such plaintext; and inside the
   * plaintext it does not slice out of range.
   */
  lemma TamperedRangeIsPrefix(aead: Aead, objs: Sealings, blob: Bytes, ciphertextSize: int, start: nat, end: int)
    requires WellFormed(objs) && Unforged(aead, objs, blob)
    requires |blob| >= HEADER_SIZE && start <= end < INT64
    requires HeaderBase(blob) in objs ==> HeaderFrameSize(blob) == objs[HeaderBase(blob)].frameSize
    ensures
      var r := RangeRun(aead, blob, ciphertextSize, start, end);
      if HeaderBase(blob) in objs then
        var wanted := Clip(objs[HeaderBase(blob)].plain, start, end + 1);
        && r.bytes <= wanted && (r.err == NoErr ==> r.bytes == wanted)
        && (end < |objs[HeaderBase(blob)].plain| ==> r.err != SliceOutOfRange)
      else r.bytes == []
  {
    hide Unforged, Truthful, RangeRun;
    var b := HeaderBase(blob);
    var plain := if b in objs then objs[b].plain else [];
    UnforgedIsTruthful(aead, objs, blob, b, HeaderFrameSize(blob), plain);
    TruthfulRangeIsPrefix(aead, blob, ciphertextSize, start, end, plain);
  }
}
