/**
 * Object rows, their messages, the bucket keys and the cached ciphers as values: how they fit together, and
 * what single steps do to that.
 */
module ObjectRows {
  import opened Bytes
  import opened Aead
  import opened Io
  import opened FrameFormat
  import opened Decrypting
  import opened RangeRead
  import Meta = Metadata

  type ObjectId = Meta.ObjectId

  /** An object row and its message: the sealing of the object's bytes under the bucket's key. */
  ghost predicate RowIs(row: Meta.ObjectRow, aead: Aead, frameSize: nat, plain: Bytes, blob: Bytes) {
    && 1 <= frameSize <= MAX_FRAME_SIZE && |row.nonce| == NONCE_LEN
    && blob == Sealed(Cipher(aead, frameSize), row.nonce, plain)
    && row.size == |plain| && row.ciphertextSize == |blob|
  }

  /** A cached cipher is one for the bucket's key and the configured frame size. */
  ghost predicate CipherIs(c: Cipher, aead: Aead, frameSize: int) {
    c.aead == aead && c.frameSize == ChosenFrameSize(frameSize) <= MAX_FRAME_SIZE
  }

  ghost predicate GcmOk(gcm: Bytes -> Aead) {
    forall k :: gcm(k).Correct()
  }

  /**
   * Every object row leads to a live message of its own, sealed under the key now stored for its
   * bucket.
   */
  ghost predicate ObjectsOk(
    objects: map<ObjectId, Meta.ObjectRow>, contents: map<ObjectId, Bytes>, writtenWith: map<ObjectId, nat>,
    keys: map<string, Bytes>, messages: map<int, Bytes>, gcm: Bytes -> Aead)
  {
    && contents.Keys == objects.Keys
    && (forall id :: id in objects ==>
          && id in writtenWith && id.0 in keys && objects[id].messageId in messages
          && RowIs(objects[id], gcm(keys[id.0]), writtenWith[id], contents[id], messages[objects[id].messageId]))
    && (forall id, id' :: id in objects && id' in objects && id != id' ==>
          objects[id].messageId != objects[id'].messageId)
  }

  /** Cached ciphers are those of the stored keys. */
  ghost predicate CachesOk(cipherCache: map<string, Cipher>, keys: map<string, Bytes>, gcm: Bytes -> Aead,
                           frameSize: int) {
    forall b :: b in cipherCache ==> b in keys && CipherIs(cipherCache[b], gcm(keys[b]), frameSize)
  }

  /** Every bucket row has a key, and every key a bucket row unless it may have been left behind. */
  predicate BucketsOk(buckets: set<string>, keys: map<string, Bytes>, stray: set<string>) {
    buckets <= keys.Keys <= buckets + stray
  }

  // --- what single steps do ---

  lemma ObjectsAfterPut(
    objects: map<ObjectId, Meta.ObjectRow>, contents: map<ObjectId, Bytes>, writtenWith: map<ObjectId, nat>,
    keys: map<string, Bytes>, messages: map<int, Bytes>, gcm: Bytes -> Aead,
    id: ObjectId, row: Meta.ObjectRow, frameSize: nat, plain: Bytes, blob: Bytes)
    requires ObjectsOk(objects, contents, writtenWith, keys, messages, gcm)
    requires id.0 in keys && row.messageId !in messages && RowIs(row, gcm(keys[id.0]), frameSize, plain, blob)
    ensures ObjectsOk(objects[id := row], contents[id := plain], writtenWith[id := frameSize], keys,
                      messages[row.messageId := blob], gcm)
  {
    hide RowIs;
  }

  lemma ObjectsAfterStray(
    objects: map<ObjectId, Meta.ObjectRow>, contents: map<ObjectId, Bytes>, writtenWith: map<ObjectId, nat>,
    keys: map<string, Bytes>, messages: map<int, Bytes>, gcm: Bytes -> Aead, messageId: int, blob: Bytes)
    requires ObjectsOk(objects, contents, writtenWith, keys, messages, gcm) && messageId !in messages
    ensures ObjectsOk(objects, contents, writtenWith, keys, messages[messageId := blob], gcm)
    ensures ObjectsOk(objects, contents, writtenWith, keys, messages[messageId := blob] - {messageId}, gcm)
  {
    hide RowIs;
  }

  lemma ObjectsAfterDelete(
    objects: map<ObjectId, Meta.ObjectRow>, contents: map<ObjectId, Bytes>, writtenWith: map<ObjectId, nat>,
    keys: map<string, Bytes>, messages: map<int, Bytes>, gcm: Bytes -> Aead, id: ObjectId)
    requires ObjectsOk(objects, contents, writtenWith, keys, messages, gcm) && id in objects
    ensures contents.Keys == objects.Keys
    ensures ObjectsOk(objects - {id}, contents - {id}, writtenWith, keys, messages, gcm)
    ensures Unused(objects - {id}, objects[id].messageId)
  {
    hide RowIs;
  }

  /** No row leads to that message. */
  ghost predicate Unused(objects: map<ObjectId, Meta.ObjectRow>, messageId: int) {
    forall id :: id in objects ==> objects[id].messageId != messageId
  }

  lemma ObjectsAfterRemoval(
    objects: map<ObjectId, Meta.ObjectRow>, contents: map<ObjectId, Bytes>, writtenWith: map<ObjectId, nat>,
    keys: map<string, Bytes>, messages: map<int, Bytes>, gcm: Bytes -> Aead, messageId: int)
    requires ObjectsOk(objects, contents, writtenWith, keys, messages, gcm) && Unused(objects, messageId)
    ensures ObjectsOk(objects, contents, writtenWith, keys, messages - {messageId}, gcm)
  {
    hide RowIs;
  }

  lemma BucketsAfterCreation(buckets: set<string>, keys: map<string, Bytes>, stray: set<string>, bucket: string,
                             key: Bytes)
    requires BucketsOk(buckets, keys, stray)
    ensures BucketsOk(buckets, keys, stray + {bucket})
    ensures BucketsOk(buckets, keys[bucket := key], stray + {bucket})
    ensures BucketsOk(buckets + {bucket}, keys[bucket := key], stray)
    ensures BucketsOk(buckets + {bucket}, keys[bucket := key], stray + {bucket})
    ensures bucket in buckets ==> bucket in keys
    ensures bucket !in keys ==> keys[bucket := key] - {bucket} == keys
  {
  }

  lemma AfterKeyAdded(
    objects: map<ObjectId, Meta.ObjectRow>, contents: map<ObjectId, Bytes>, writtenWith: map<ObjectId, nat>,
    keys: map<string, Bytes>, messages: map<int, Bytes>, gcm: Bytes -> Aead, cipherCache: map<string, Cipher>,
    frameSize: int, bucket: string, key: Bytes)
    requires ObjectsOk(objects, contents, writtenWith, keys, messages, gcm)
    requires CachesOk(cipherCache, keys, gcm, frameSize)
    requires bucket !in keys
    ensures ObjectsOk(objects, contents, writtenWith, keys[bucket := key], messages, gcm)
    ensures CachesOk(cipherCache, keys[bucket := key], gcm, frameSize)
  {
    hide RowIs;
    hide CipherIs;
  }

  lemma AfterKeyRemoved(
    objects: map<ObjectId, Meta.ObjectRow>, contents: map<ObjectId, Bytes>, writtenWith: map<ObjectId, nat>,
    keys: map<string, Bytes>, messages: map<int, Bytes>, gcm: Bytes -> Aead, cipherCache: map<string, Cipher>,
    frameSize: int, bucket: string)
    requires ObjectsOk(objects, contents, writtenWith, keys, messages, gcm)
    requires CachesOk(cipherCache, keys, gcm, frameSize)
    requires forall id :: id in objects ==> id.0 != bucket
    ensures ObjectsOk(objects, contents, writtenWith, keys - {bucket}, messages, gcm)
    ensures CachesOk(cipherCache - {bucket}, keys - {bucket}, gcm, frameSize)
    ensures CachesOk(cipherCache - {bucket}, keys, gcm, frameSize)
    ensures contents.Keys == objects.Keys
  {
    hide RowIs;
    hide CipherIs;
  }

  /** What a row's message decrypts to. */
  lemma RowDecrypts(row: Meta.ObjectRow, aead: Aead, frameSize: nat, plain: Bytes, blob: Bytes)
    requires aead.Correct() && RowIs(row, aead, frameSize, plain, blob)
    ensures Decrypts(aead, blob, plain)
  {
    hide OpenBlob;
    hide Frames;
    var c := Cipher(aead, frameSize);
    OpenBlobOfSealed(c, row.nonce, plain);
    HeaderRoundTrip(row.nonce, frameSize, Frames(c, row.nonce, 0, plain), CleanEnd);
  }

  lemma ObjectDecrypts(
    objects: map<ObjectId, Meta.ObjectRow>, contents: map<ObjectId, Bytes>, writtenWith: map<ObjectId, nat>,
    keys: map<string, Bytes>, messages: map<int, Bytes>, gcm: Bytes -> Aead, id: ObjectId)
    requires GcmOk(gcm) && ObjectsOk(objects, contents, writtenWith, keys, messages, gcm)
    ensures contents.Keys == objects.Keys
    ensures id in objects ==>
              && id.0 in keys && gcm(keys[id.0]).Correct() && objects[id].messageId in messages
              && objects[id].size == |contents[id]| && objects[id].ciphertextSize == |messages[objects[id].messageId]|
              && Decrypts(gcm(keys[id.0]), messages[objects[id].messageId], contents[id])
  {
    hide Decrypts;
    if id in objects {
      assert gcm(keys[id.0]).Correct();
      RowDecrypts(objects[id], gcm(keys[id.0]), writtenWith[id], contents[id], messages[objects[id].messageId]);
    }
  }

  lemma DecryptsMeans(aead: Aead, blob: Bytes, plain: Bytes)
    requires Decrypts(aead, blob, plain)
    ensures HeaderErr(blob, CleanEnd) == NoErr
    ensures OpenBlob(aead, blob, CleanEnd).stop == Eof && OpenBlob(aead, blob, CleanEnd).plain == plain
  {
    hide OpenBlob, HeaderErr;
  }

  lemma RangeIsInside(c: Cipher, blob: Bytes, start: int, end: int, plain: Bytes)
    requires Decrypts(c.aead, blob, plain) && 0 <= start <= end < |plain|
    ensures InRange(c, blob, |blob|, start, end, plain)
  {
    hide Decrypts;
  }

  // --- connections that break ---

  lemma BrokenTailNeverEndsCleanly(aead: Aead, blob: Bytes, tail: Tail)
    requires tail.Broken?
    ensures OpenBlob(aead, blob, tail).stop != Eof
  {
    if HeaderErr(blob, tail) == NoErr {
      BrokenRunNeverEndsCleanly(aead, HeaderBase(blob), HeaderFrameSize(blob), 0, blob[HEADER_SIZE..], tail);
    }
  }

  lemma {:induction false} BrokenRunNeverEndsCleanly(
    aead: Aead, base: Bytes, frameSize: nat, i: nat, ct: Bytes, tail: Tail)
    requires tail.Broken? && frameSize > 0 && |base| == NONCE_LEN
    ensures OpenRun(aead, base, frameSize, i, ct, tail).stop != Eof
    decreases |ct|
  {
    if |ct| >= frameSize + TAG_LEN {
      BrokenRunNeverEndsCleanly(aead, base, frameSize, i + 1, ct[frameSize + TAG_LEN..], tail);
    }
  }

  /** What is released of a blob whose download breaks off is a prefix of its plaintext. */
  lemma BrokenDownloadReleasesPrefix(aead: Aead, blob: Bytes, plain: Bytes, part: Bytes, code: int)
    requires Decrypts(aead, blob, plain) && part <= blob
    ensures OpenBlob(aead, part, Broken(code)).plain <= plain
  {
    if |part| >= HEADER_SIZE {
      var base, frameSize := HeaderBase(blob), HeaderFrameSize(blob);
      assert part[1..1 + NONCE_LEN] == blob[1..1 + NONCE_LEN];
      assert part[1 + NONCE_LEN..HEADER_SIZE] == blob[1 + NONCE_LEN..HEADER_SIZE];
      assert part[HEADER_SIZE..] <= blob[HEADER_SIZE..];
      BrokenRunReleasesPrefix(aead, base, frameSize, 0, blob[HEADER_SIZE..], part[HEADER_SIZE..], code);
    }
  }

  lemma {:induction false} BrokenRunReleasesPrefix(
    aead: Aead, base: Bytes, frameSize: nat, i: nat, ct: Bytes, part: Bytes, code: int)
    requires frameSize > 0 && |base| == NONCE_LEN && part <= ct
    requires OpenRun(aead, base, frameSize, i, ct, CleanEnd).stop == Eof
    ensures OpenRun(aead, base, frameSize, i, part, Broken(code)).plain <=
            OpenRun(aead, base, frameSize, i, ct, CleanEnd).plain
    decreases |ct|
  {
    hide FrameNonce, FrameAad;
    var unit := frameSize + TAG_LEN;
    if |part| >= unit {
      assert part[..unit] == ct[..unit] && part[unit..] <= ct[unit..];
      BrokenRunReleasesPrefix(aead, base, frameSize, i + 1, ct[unit..], part[unit..], code);
      var p := OpenFrame(aead, base, i, ct[..unit]).value;
      SamePrefix(p, OpenRun(aead, base, frameSize, i + 1, part[unit..], Broken(code)).plain,
        OpenRun(aead, base, frameSize, i + 1, ct[unit..], CleanEnd).plain);
    }
  }

  lemma SamePrefix<T>(p: seq<T>, a: seq<T>, b: seq<T>)
    requires a <= b
    ensures p + a <= p + b
  {
  }
}
