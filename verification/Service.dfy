/**
 * The service between the handlers and the metadata, key and blob stores. What goes wrong outside the
 * process is up to its environment; while that is calm, every answer is determined.
 */
module Service {
  import opened Bytes
  import opened Aead
  import opened Io
  import opened FrameFormat
  import opened Encrypting
  import opened Decrypting
  import opened RangeRead
  import opened Environment
  import opened Uploads
  import opened ObjectRows
  import Keys = KeyStore
  import Meta = Metadata
  import Blobs = Backend

  datatype S3Err =
    | Done
    | NoSuchBucket
    | NoSuchKey
    | NoSuchUpload
    | BucketAlreadyOwnedByYou
    | BucketNotEmpty
    | InvalidArgument
    | InvalidPart
    | InvalidPartOrder
    | InvalidRange
    | EntityTooLarge
    | InternalError

  /**
   * How a request to complete an open upload is answered while it is calm: isFor says that the upload is
   * one for the object named, hasKey that its bucket has a key.
   */
  function CompletionAnswer(
    acked: map<PartId, Bytes>, torn: map<PartId, Bytes>, md5: Bytes -> Bytes, uploadId: string,
    named: seq<NamedPart>, isFor: bool, hasKey: bool, frameSize: int, maxObjectSize: int): S3Err
  {
    var total := TotalSize(acked, uploadId, named);
    if !Ascending(named) then InvalidPartOrder
    else if !isFor then NoSuchUpload
    else if !NamedOk(acked, md5, uploadId, named) then InvalidPart
    else if !hasKey then NoSuchBucket
    else if frameSize > MAX_FRAME_SIZE then InternalError
    else if CiphertextSize(ChosenFrameSize(frameSize), total) > maxObjectSize then EntityTooLarge
    else if |Assembled(acked, torn, uploadId, named)| < total then InternalError
    else Done
  }

  class Service {
    const meta: Meta.Store
    const backend: Blobs.Backend
    const keys: Keys.Store
    const gcm: Bytes -> Aead
    const md5: Bytes -> Bytes
    var frameSize: int
    var cipherCache: map<string, Cipher>
    var staging: Staging

    /** What every object holds: its plaintext and the frame size it was written with. */
    ghost var contents: map<ObjectId, Bytes>
    ghost var writtenWith: map<ObjectId, nat>
    /** Buckets whose key may have been left behind by a request that something went wrong with. */
    ghost var stray: set<string>
    /** The bytes of every part's last acknowledged upload, and those that replaced them on disk only. */
    ghost var acked: map<PartId, Bytes>
    ghost var torn: map<PartId, Bytes>
    /** The open uploads with their objects, and all upload ids there have been. */
    ghost var open: map<string, ObjectId>
    ghost var used: set<string>

    ghost predicate Valid()
      reads this, meta, keys, backend
    {
      && GcmOk(gcm) && keys.Valid() && backend.Valid()
      && ObjectsOk(meta.objects, contents, writtenWith, keys.keys, backend.messages, gcm)
      && BucketsOk(meta.buckets, keys.keys, stray)
      && CachesOk(cipherCache, keys.keys, gcm, frameSize)
      && PartsOk(meta.parts, acked, torn, staging, md5)
      && OpenOk(open, used, meta.uploads, meta.parts, acked, staging)
    }

    constructor (gcm: Bytes -> Aead, md5: Bytes -> Bytes, frameSize: int, maxObjectSize: int)
      requires GcmOk(gcm)
      ensures Valid() && fresh(meta) && fresh(keys) && fresh(backend)
      ensures this.md5 == md5 && this.frameSize == frameSize && backend.maxObjectSize == maxObjectSize
      ensures contents == map[] && meta.objects == map[] && meta.buckets == {} && stray == {}
      ensures acked == torn == map[] && open == map[] && used == {}
    {
      meta := new Meta.Store();
      keys := new Keys.Store();
      backend := new Blobs.Backend(maxObjectSize);
      this.gcm, this.md5, this.frameSize := gcm, md5, frameSize;
      cipherCache, staging := map[], map[];
      contents, writtenWith, stray := map[], map[], {};
      acked, torn, open, used := map[], map[], map[], {};
    }

    // --- buckets ---

    method CreateBucket(bucket: string, random: Bytes, calm: bool) returns (err: S3Err)
      requires Valid() && |random| == Keys.KEY_LEN
      modifies keys, meta`buckets, this`stray
      ensures Valid()
      ensures stray == if calm then old(stray) else old(stray) + {bucket}
      ensures meta.buckets == if err == Done then old(meta.buckets) + {bucket} else old(meta.buckets)
      ensures err == Done ==> bucket !in old(keys.keys) && keys.keys == old(keys.keys)[bucket := random]
      ensures err != Done ==>
                || keys.keys == old(keys.keys)
                || (bucket !in old(keys.keys) && keys.keys == old(keys.keys)[bucket := random])
      ensures bucket in old(keys.keys) ==> err == BucketAlreadyOwnedByYou
      ensures calm && bucket !in old(keys.keys) ==> err == Done
    {
      hide GcmOk, ObjectsOk, BucketsOk, CachesOk, PartsOk, OpenOk;
      BucketsAfterCreation(meta.buckets, keys.keys, stray, bucket, random);
      if bucket !in keys.keys {
        AfterKeyAdded(meta.objects, contents, writtenWith, keys.keys, backend.messages, gcm, cipherCache, frameSize,
          bucket, random);
      }
      if !calm {
        stray := stray + {bucket};
      }
      var e := keys.Create(bucket, random, calm);
      if e != Keys.KeyOk {
        return if e == Keys.KeyExists then BucketAlreadyOwnedByYou else InternalError;
      }
      var m := meta.CreateBucket(bucket, calm);
      if m != Meta.MetaOk {
        var _ := keys.Remove(bucket, calm);
        return if m == Meta.BucketExists then BucketAlreadyOwnedByYou else InternalError;
      }
      return Done;
    }

    lemma KeysOfContents()
      requires Valid()
      ensures contents.Keys == meta.objects.Keys
    {
    }

    method DeleteBucket(bucket: string, calm: bool) returns (err: S3Err)
      requires Valid()
      modifies this`cipherCache, keys, meta`buckets, this`stray
      ensures Valid()
      ensures stray == if calm then old(stray) else old(stray) + {bucket}
      ensures meta.buckets == if err == Done then old(meta.buckets) - {bucket} else old(meta.buckets)
      ensures err == Done ==>
                && (forall id :: id in contents ==> id.0 != bucket)
                && (keys.keys == old(keys.keys) - {bucket} || keys.keys == old(keys.keys))
      ensures err != Done ==> keys.keys == old(keys.keys)
      ensures calm && err == Done ==> keys.keys == old(keys.keys) - {bucket}
      ensures calm || err == Done ==>
                err == if exists id :: id in old(contents) && id.0 == bucket then BucketNotEmpty
                       else if bucket !in old(meta.buckets) then NoSuchBucket else Done
    {
      hide GcmOk, ObjectsOk, CachesOk, PartsOk, OpenOk;
      KeysOfContents();
      if !calm {
        stray := stray + {bucket};
      }
      var m := meta.DeleteBucket(bucket, calm);
      if m != Meta.MetaOk {
        return match m case NotFound => NoSuchBucket case BucketNotEmpty => BucketNotEmpty case _ => InternalError;
      }
      AfterKeyRemoved(meta.objects, contents, writtenWith, keys.keys, backend.messages, gcm, cipherCache, frameSize,
        bucket);
      var _ := keys.Remove(bucket, calm);
      cipherCache := cipherCache - {bucket};
      return Done;
    }

    /** A restarted process: it has only what is on disk, and may be configured differently. */
    method Restart(newFrameSize: int)
      requires Valid()
      modifies this`cipherCache, this`frameSize, keys
      ensures Valid() && frameSize == newFrameSize && keys.keys == old(keys.keys)
    {
      hide GcmOk, ObjectsOk, BucketsOk, PartsOk, OpenOk;
      keys.Reload();
      cipherCache := map[];
      frameSize := newFrameSize;
    }

    method CipherFor(bucket: string) returns (err: S3Err, c: Option<Cipher>)
      requires Valid()
      modifies this`cipherCache
      ensures Valid()
      ensures err == Done <==> c.Some?
      ensures c.Some? ==> bucket in keys.keys && c.value.aead == gcm(keys.keys[bucket]) && c.value.Valid()
      ensures c.Some? ==> c.value.frameSize == ChosenFrameSize(frameSize)
      ensures err == if bucket !in keys.keys then NoSuchBucket
                     else if frameSize > MAX_FRAME_SIZE then InternalError else Done
    {
      hide ObjectsOk, BucketsOk, PartsOk, OpenOk;
      if bucket in cipherCache {
        return Done, Some(cipherCache[bucket]);
      }
      if bucket !in keys.keys {
        return NoSuchBucket, None;
      }
      c := NewCipher(gcm(keys.keys[bucket]), if frameSize == 0 then DEFAULT_FRAME_SIZE else frameSize);
      if c.None? {
        return InternalError, None;
      }
      cipherCache := cipherCache[bucket := c.value];
      return Done, c;
    }

    // --- objects ---

    /**
     * Encrypts the reader's next `size` bytes and hands them to the backend. If that is a success the
     * message is exactly their sealing, and exactly they were taken from the reader.
     */
    method SealAndStore(c: Cipher, src: Source<Byte>, size: nat, nonce: Bytes, bufSize: nat -> nat, calm: bool)
      returns (res: Blobs.PutResult)
      requires c.Valid() && src.Valid() && |nonce| == NONCE_LEN && (forall k :: bufSize(k) > 0)
      requires backend.Valid() && CiphertextSize(c.frameSize, size) <= backend.maxObjectSize
      modifies backend, src
      ensures src.Valid() && backend.Valid()
      ensures res.Stored? ==>
                && res.messageId == old(backend.nextId) && size <= |old(src.Rest())| && src.pos == old(src.pos) + size
                && backend.messages ==
                   old(backend.messages)[res.messageId := Sealed(c, nonce, old(src.Rest())[..size])]
                && CiphertextSize(c.frameSize, size) == |backend.messages[res.messageId]|
      ensures calm ==> !res.TooLarge? && (res.Stored? <==> size <= |old(src.Rest())|)
      ensures Blobs.AtMostOneNew(old(backend.messages), backend.messages, old(backend.nextId))
    {
      hide Aead.Correct;
      hide Produces;
      hide Frames;
      var ciphertextSize := CiphertextSize(c.frameSize, size);
      CiphertextSizeIsLayoutSize(c.frameSize, size);
      var e := new Encrypter(c, src, size, nonce);
      if e.Complete() {
        SealedHasCiphertextSize(c, nonce, src.Rest()[..size]);
      } else {
        ShortSourceProducesLess(c, nonce, 0, src.Rest(), size, false);
      }
      assert ciphertextSize <= |e.ToCome()| ==> e.Complete() && |e.ToCome()| == ciphertextSize;
      ghost var stream := e.ToCome();
      res := backend.Put(ciphertextSize, e, bufSize, calm);
      if res.Stored? {
        assert stream[..ciphertextSize] == stream;
        assert e.ToCome() == [];
        AllProducedMeansAllRead(c, nonce, e.idx, src.Rest(), e.remain, e.emitted);
      }
    }

    /**
     * The common end of PutObject and CompleteMultipart: stores the reader's next `size` bytes and
     * records them under id, or takes the message back when that fails. Without an ETag given, it is
     * the MD5 of the bytes that went by.
     */
    method SealAndRecord(id: ObjectId, contentType: string, etag: Option<Meta.ETag>, c: Cipher, src: Source<Byte>,
                         size: nat, nonce: Bytes, bufSize: nat -> nat, calm: bool) returns (err: S3Err, tag: Meta.ETag)
      requires Valid() && src.Valid() && |nonce| == NONCE_LEN && (forall k :: bufSize(k) > 0)
      requires id.0 in keys.keys && c.aead == gcm(keys.keys[id.0]) && c.Valid()
      modifies this`contents, this`writtenWith, meta`objects, backend, src
      ensures Valid()
      ensures err == Done ==>
                && size <= |old(src.Rest())| && src.pos == old(src.pos) + size
                && contents == old(contents)[id := old(src.Rest())[..size]]
                && id in meta.objects && meta.objects == old(meta.objects)[id := meta.objects[id]]
                && meta.objects[id].size == size && meta.objects[id].contentType == contentType
                && meta.objects[id].etag == tag
                && tag == (if etag.Some? then etag.value else Meta.Single(md5(old(src.Rest())[..size])))
      ensures err != Done ==> contents == old(contents) && meta.objects == old(meta.objects)
      ensures calm || err == Done ==>
                err == if CiphertextSize(c.frameSize, size) > backend.maxObjectSize then EntityTooLarge
                       else if size > |old(src.Rest())| then InternalError else Done
    {
      hide GcmOk, ObjectsOk, BucketsOk, CachesOk, PartsOk, OpenOk, Sealed;
      KeysOfBuckets();
      tag := Meta.Single([]);
      var ciphertextSize := CiphertextSize(c.frameSize, size);
      if ciphertextSize > backend.maxObjectSize {
        return EntityTooLarge, tag;
      }
      var start := src.pos;
      ghost var messages, next := backend.messages, backend.nextId;
      var put := SealAndStore(c, src, size, nonce, bufSize, calm);
      if !put.Stored? {
        if next in backend.messages {
          ObjectsAfterStray(meta.objects, contents, writtenWith, keys.keys, messages, gcm, next,
            backend.messages[next]);
        }
        return if put.TooLarge? then EntityTooLarge else InternalError, tag;
      }
      var messageId := put.messageId;
      ghost var plain, blob := src.data[start..][..size], backend.messages[messageId];
      tag := if etag.Some? then etag.value else Meta.Single(md5(src.data[start..src.pos]));
      assert src.data[start..src.pos] == plain;
      var row := Meta.ObjectRow(size, ciphertextSize, tag, contentType, messageId, nonce);
      assert RowIs(row, gcm(keys.keys[id.0]), c.frameSize, plain, blob);
      var m := meta.PutObject(id, row, calm);
      if m != Meta.MetaOk {
        ObjectsAfterStray(meta.objects, contents, writtenWith, keys.keys, messages, gcm, messageId, blob);
        backend.Delete(messageId, calm);
        return InternalError, tag;
      }
      ObjectsAfterPut(old(meta.objects), contents, writtenWith, keys.keys, messages, gcm,
        id, row, c.frameSize, plain, blob);
      contents, writtenWith := contents[id := plain], writtenWith[id := c.frameSize];
      return Done, tag;
    }

    /** A new object, or new bytes for an old one. */
    method PutObject(bucket: string, key: string, contentType: string, size: nat, src: Source<Byte>,
                     nonce: Bytes, bufSize: nat -> nat, calm: bool) returns (err: S3Err, tag: Meta.ETag)
      requires Valid() && src.Valid() && |nonce| == NONCE_LEN && (forall k :: bufSize(k) > 0)
      modifies this`cipherCache, this`contents, this`writtenWith, meta`objects, backend, src
      ensures Valid()
      ensures err == Done ==>
                && bucket in meta.buckets && size <= |old(src.Rest())| && src.pos == old(src.pos) + size
                && contents == old(contents)[(bucket, key) := old(src.Rest())[..size]]
                && (bucket, key) in meta.objects
                && meta.objects == old(meta.objects)[(bucket, key) := meta.objects[(bucket, key)]]
                && meta.objects[(bucket, key)].size == size && meta.objects[(bucket, key)].contentType == contentType
                && meta.objects[(bucket, key)].etag == tag == Meta.Single(md5(old(src.Rest())[..size]))
      ensures err != Done ==> contents == old(contents) && meta.objects == old(meta.objects)
      ensures calm || err == Done ==>
                err == if bucket !in meta.buckets then NoSuchBucket
                       else if frameSize > MAX_FRAME_SIZE then InternalError
                       else if CiphertextSize(ChosenFrameSize(frameSize), size) > backend.maxObjectSize then
                         EntityTooLarge
                       else if size > |old(src.Rest())| then InternalError else Done
    {
      hide Valid;
      hide CiphertextSize;
      KeysOfBuckets();
      tag := Meta.Single([]);
      var m := meta.GetBucket(bucket, calm);
      if m != Meta.MetaOk {
        return if m == Meta.NotFound then NoSuchBucket else InternalError, tag;
      }
      var e, cipher := CipherFor(bucket);
      if e != Done {
        return e, tag;
      }
      err, tag := SealAndRecord((bucket, key), contentType, None, cipher.value, src, size, nonce, bufSize, calm);
    }

    lemma KeysOfBuckets()
      requires Valid()
      ensures meta.buckets <= keys.keys.Keys <= meta.buckets + stray
    {
      hide GcmOk, ObjectsOk, CachesOk, PartsOk, OpenOk;
    }

    /** The row of an object. */
    method RemoveRow(id: ObjectId, calm: bool) returns (m: Meta.MetaErr, messageId: int)
      requires Valid()
      modifies this`contents, meta`objects
      ensures Valid()
      ensures m == Meta.MetaOk || m == Meta.NotFound || m == Meta.DbFailed
      ensures calm ==> m != Meta.DbFailed
      ensures m == Meta.MetaOk ==> Unused(meta.objects, messageId)
      ensures m == Meta.NotFound ==> id !in old(contents)
      ensures if m == Meta.MetaOk then
                contents == old(contents) - {id} && meta.objects == old(meta.objects) - {id}
              else
                contents == old(contents) && meta.objects == old(meta.objects)
    {
      hide GcmOk, ObjectsOk, BucketsOk, CachesOk, PartsOk, OpenOk, Unused;
      KeysOfBuckets();
      KeysOfContents();
      var row;
      m, row := meta.DeleteObject(id, calm);
      messageId := 0;
      if m == Meta.MetaOk {
        ObjectsAfterDelete(old(meta.objects), contents, writtenWith, keys.keys, backend.messages, gcm, id);
        contents := contents - {id};
        messageId := row.value.messageId;
      }
    }

    /** A message that no row leads to, as far as that succeeds. */
    method RemoveMessage(messageId: int, calm: bool)
      requires Valid() && Unused(meta.objects, messageId)
      modifies backend
      ensures Valid()
    {
      hide GcmOk, ObjectsOk, BucketsOk, CachesOk, PartsOk, OpenOk, Unused;
      ObjectsAfterRemoval(meta.objects, contents, writtenWith, keys.keys, backend.messages, gcm, messageId);
      backend.Delete(messageId, calm);
    }

    method DeleteObject(bucket: string, key: string, calm: bool) returns (err: S3Err)
      requires Valid()
      modifies this`contents, meta`objects, backend
      ensures Valid()
      ensures err == Done ==>
                && contents == old(contents) - {(bucket, key)} && meta.objects == old(meta.objects) - {(bucket, key)}
      ensures err != Done ==> contents == old(contents) && meta.objects == old(meta.objects)
      ensures calm ==> err == Done
    {
      hide *;
      KeysOfContents();
      var m, messageId := RemoveRow((bucket, key), calm);
      if m == Meta.NotFound {
        return Done;
      }
      if m != Meta.MetaOk {
        return InternalError;
      }
      RemoveMessage(messageId, calm);
      return Done;
    }

    /** Every row can be read back: its message is there and decrypts, under the stored key, to its contents. */
    lemma Readable(id: ObjectId)
      requires Valid()
      ensures contents.Keys == meta.objects.Keys
      ensures id in meta.objects ==>
                && id.0 in keys.keys && gcm(keys.keys[id.0]).Correct() && meta.objects[id].messageId in backend.messages
                && meta.objects[id].size == |contents[id]|
                && meta.objects[id].ciphertextSize == |backend.messages[meta.objects[id].messageId]|
                && Decrypts(gcm(keys.keys[id.0]), backend.messages[meta.objects[id].messageId], contents[id])
    {
      ObjectDecrypts(meta.objects, contents, writtenWith, keys.keys, backend.messages, gcm, id);
    }

    /**
     * GetObject, and the handler's copy of the plaintext to the client, which has already sent what it
     * copied when an error stops it.
     */
    method GetObject(bucket: string, key: string, lost: nat, bufSize: nat -> nat, calm: bool)
      returns (err: S3Err, row: Option<Meta.ObjectRow>, body: Bytes)
      requires Valid() && forall k :: bufSize(k) > 0
      modifies this`cipherCache
      ensures Valid()
      ensures err == Done ==>
                && (bucket, key) in contents && (bucket, key) in meta.objects
                && row == Some(meta.objects[(bucket, key)]) && body == contents[(bucket, key)]
      ensures err == NoSuchKey ==> (bucket, key) !in contents
      ensures if (bucket, key) in contents then body <= contents[(bucket, key)] else body == []
      ensures calm || err == Done ==>
                err == if (bucket, key) !in contents then NoSuchKey
                       else if frameSize > MAX_FRAME_SIZE then InternalError else Done
    {
      hide *;
      KeysOfBuckets();
      body, row := [], None;
      var id := (bucket, key);
      Readable(id);
      var m, found := meta.GetObject(id, calm);
      if m != Meta.MetaOk {
        return if m == Meta.NotFound then NoSuchKey else InternalError, None, [];
      }
      var e, cipher := CipherFor(bucket);
      if e != Done {
        return e, None, [];
      }
      var g, src := backend.Get(found.value.messageId, lost, calm);
      if g != Blobs.GetOk {
        return if g == Blobs.Missing then NoSuchKey else InternalError, None, [];
      }
      AtStart(src);
      DecryptsMeans(cipher.value.aead, backend.messages[found.value.messageId], contents[id]);
      if src.tail.Broken? {
        BrokenTailNeverEndsCleanly(cipher.value.aead, src.data, src.tail);
        BrokenDownloadReleasesPrefix(cipher.value.aead, backend.messages[found.value.messageId], contents[id], src.data,
          src.tail.code);
      }
      var h, d := NewDecrypter(cipher.value.aead, src);
      if d == null {
        return InternalError, None, [];
      }
      var got, stop := CopyAll(d, bufSize);
      return if stop == Eof then Done else InternalError, found, got;
    }

    /**
     * GetObjectRange: the blob is downloaded to a temporary file and the range decrypted from it.
     * start and end are inclusive.
     */
    method GetObjectRange(bucket: string, key: string, start: int, end: int, lost: nat, calm: bool)
      returns (err: S3Err, row: Option<Meta.ObjectRow>, body: Bytes)
      requires Valid()
      modifies this`cipherCache
      ensures Valid()
      ensures err == Done ==>
                && (bucket, key) in contents && 0 <= start <= end < |contents[(bucket, key)]|
                && (bucket, key) in meta.objects && row == Some(meta.objects[(bucket, key)])
                && body == contents[(bucket, key)][start..end + 1]
      ensures err == NoSuchKey ==> (bucket, key) !in contents
      ensures err != Done ==> body == []
      ensures calm || err == Done ==>
                err == if (bucket, key) !in contents then NoSuchKey
                       else if !(0 <= start <= end < |contents[(bucket, key)]|) then InvalidRange
                       else if frameSize > MAX_FRAME_SIZE then InternalError else Done
    {
      hide *;
      KeysOfBuckets();
      body, row := [], None;
      var id := (bucket, key);
      Readable(id);
      var m, found := meta.GetObject(id, calm);
      if m != Meta.MetaOk {
        return if m == Meta.NotFound then NoSuchKey else InternalError, None, [];
      }
      if start < 0 || end >= found.value.size || start > end {
        return InvalidRange, None, [];
      }
      var e, cipher := CipherFor(bucket);
      if e != Done {
        return e, None, [];
      }
      var fails := Fails(calm);
      if fails {
        return InternalError, None, [];
      }
      var g, src := backend.Get(found.value.messageId, lost, calm);
      if g != Blobs.GetOk || src.tail != CleanEnd {
        return if g == Blobs.Missing then NoSuchKey else InternalError, None, [];
      }
      RangeIsInside(cipher.value, src.data, start, end, contents[id]);
      var file := new BlobAt(src.data);
      var dst := new Sink();
      var w := DecryptRange(cipher.value, dst, file, found.value.ciphertextSize, start, end, contents[id]);
      return if w == NoErr then Done else InternalError, found, dst.written;
    }

    // --- multipart uploads ---

    method CreateMultipart(bucket: string, key: string, uploadId: string, calm: bool) returns (err: S3Err)
      requires Valid()
      modifies this`staging, this`acked, this`torn, this`open, this`used, meta`uploads
      ensures Valid()
      ensures OthersStaged(uploadId, old(staging), staging)
      ensures
        if err == Done then
          && bucket in meta.buckets && uploadId !in old(meta.uploads) && uploadId in staging
          && meta.uploads == old(meta.uploads)[uploadId := Meta.UploadRow(bucket, key)]
          && open == old(open)[uploadId := (bucket, key)] && used == old(used) + {uploadId}
          && acked == Without(old(acked), uploadId) && torn == Without(old(torn), uploadId)
        else
          && meta.uploads == old(meta.uploads)
          && open == old(open) - {uploadId} && used == old(used) && acked == old(acked) && torn == old(torn)
      ensures (calm || err == Done) && uploadId !in old(used) ==>
                err == if bucket in meta.buckets then Done else NoSuchBucket
      ensures (calm || err == Done) && bucket !in meta.buckets ==> err == NoSuchBucket
    {
      hide *;
      KeysOfBuckets();
      UploadIdsAreUsed();
      NothingMoved(staging);
      var m := meta.GetBucket(bucket, calm);
      if m != Meta.MetaOk {
        CloseUpload(uploadId);
        return if m == Meta.NotFound then NoSuchBucket else InternalError;
      }
      var fails := Fails(calm);
      if fails {
        CloseUpload(uploadId);
        return InternalError;
      }
      MakeDirectory(uploadId);
      ghost var made := staging;
      m := RecordUpload(uploadId, (bucket, key), calm);
      if m != Meta.MetaOk {
        RemoveAll(uploadId, calm);
        StagedTransitive(uploadId, old(staging), made, staging);
        return InternalError;
      }
      return Done;
    }

    lemma UploadIdsAreUsed()
      requires Valid()
      ensures meta.uploads.Keys <= used
    {
    }

    lemma OpenAreUsed()
      requires Valid()
      ensures open.Keys <= used
    {
    }

    /** For the specification only: the upload is no longer known to be open. */
    ghost method CloseUpload(uploadId: string)
      requires Valid()
      modifies this`open
      ensures Valid() && open == old(open) - {uploadId}
    {
      hide GcmOk, ObjectsOk, BucketsOk, CachesOk, PartsOk, OpenOk;
      NothingMoved(staging);
      OpenAfterClosing(open, used, meta.uploads, meta.parts, acked, staging, staging, uploadId);
      open := open - {uploadId};
    }

    /** os.MkdirAll on an upload's staging directory. */
    method MakeDirectory(uploadId: string)
      requires Valid()
      modifies this`staging
      ensures Valid() && uploadId in staging
      ensures StagedWithin(staging, old(staging)) && OthersStaged(uploadId, old(staging), staging)
    {
      hide GcmOk, ObjectsOk, BucketsOk, CachesOk, PartsOk, OpenOk;
      NothingMoved(staging);
      if uploadId !in staging {
        EmptyStaged(uploadId, staging);
        OpenAfterDirectory(open, used, meta.uploads, meta.parts, acked, staging, uploadId);
        staging := staging[uploadId := map[]];
        PartsWithin(meta.parts, meta.parts, acked, torn, old(staging), staging, md5);
      }
    }

    /** The upload's row; what was remembered of an earlier upload of that id is forgotten. */
    method RecordUpload(uploadId: string, id: ObjectId, calm: bool) returns (m: Meta.MetaErr)
      requires Valid() && uploadId in staging
      modifies this`acked, this`torn, this`open, this`used, meta`uploads
      ensures Valid()
      ensures m == Meta.MetaOk || m == Meta.DbFailed
      ensures calm && uploadId !in old(meta.uploads) ==> m == Meta.MetaOk
      ensures
        if m == Meta.MetaOk then
          && uploadId !in old(meta.uploads)
          && meta.uploads == old(meta.uploads)[uploadId := Meta.UploadRow(id.0, id.1)]
          && open == old(open)[uploadId := id] && used == old(used) + {uploadId}
          && acked == Without(old(acked), uploadId) && torn == Without(old(torn), uploadId)
        else
          && meta.uploads == old(meta.uploads)
          && open == old(open) - {uploadId} && used == old(used) && acked == old(acked) && torn == old(torn)
    {
      hide GcmOk, ObjectsOk, BucketsOk, CachesOk, PartsOk, OpenOk;
      NothingMoved(staging);
      m := meta.CreateMultipart(uploadId, Meta.UploadRow(id.0, id.1), calm);
      if m == Meta.MetaOk {
        OpenAfterCreation(open, used, old(meta.uploads), meta.parts, acked, staging, staging, uploadId, id);
        PartsForgotten(meta.parts, acked, torn, staging, md5, uploadId);
        acked, torn := Without(acked, uploadId), Without(torn, uploadId);
        open, used := open[uploadId := id], used + {uploadId};
      } else {
        CloseUpload(uploadId);
      }
    }

    /** os.RemoveAll on a closed upload's staging directory; unless it is calm some of the files may stay. */
    method RemoveAll(uploadId: string, calm: bool)
      requires Valid() && uploadId !in open
      modifies this`staging
      ensures Valid()
      ensures StagedWithin(staging, old(staging)) && OthersStaged(uploadId, old(staging), staging)
      ensures calm ==> uploadId !in staging
    {
      hide GcmOk, ObjectsOk, BucketsOk, CachesOk, PartsOk, OpenOk;
      var fails := Fails(calm);
      if !fails {
        staging := staging - {uploadId};
      } else if uploadId in staging {
        var left: set<nat> := *;
        staging := staging[uploadId := map n | n in staging[uploadId] && n in left :: staging[uploadId][n]];
      }
      PartsWithin(meta.parts, meta.parts, acked, torn, old(staging), staging, md5);
      assert open - {uploadId} == open;
      OpenAfterClosing(open, used, meta.uploads, meta.parts, acked, old(staging), staging, uploadId);
    }

    /** UploadPart's copy: one byte more than declared is asked for, so that a longer body is noticed. */
    method ReceivePart(size: nat, src: Source<Byte>) returns (err: S3Err, data: Bytes)
      requires src.Valid()
      modifies src
      ensures err == Done ==> |old(src.Rest())| == size && src.tail == CleanEnd && data == old(src.Rest())
      ensures err == PartAnswer(size, old(src.Rest()), src.tail)
    {
      var limit := size + 1;
      var e;
      data, e := src.ReadFull(limit);
      if e.SourceErr? {
        return InternalError, [];
      }
      if |data| != size {
        return InvalidArgument, [];
      }
      return Done, data;
    }

    /** The rename of a received part: from here until its row is written, the part is torn. */
    method PlaceFile(uploadId: string, partNum: nat, data: Bytes)
      requires Valid() && uploadId in meta.uploads
      modifies this`staging, this`torn
      ensures Valid()
      ensures staging == Stage(old(staging), uploadId, partNum, data) && torn == old(torn)[(uploadId, partNum) := data]
    {
      hide GcmOk, ObjectsOk, BucketsOk, CachesOk, PartsOk, OpenOk;
      var row := Meta.PartRow(0, []);
      PartsAfterUpload(meta.parts, acked, torn, staging, md5, (uploadId, partNum), data);
      OpenAfterUpload(open, used, meta.uploads, meta.parts, acked, staging, (uploadId, partNum), row, data);
      staging := Stage(staging, uploadId, partNum, data);
      torn := torn[(uploadId, partNum) := data];
    }

    /** The row of a part whose file is in place. */
    method RecordPart(uploadId: string, partNum: nat, data: Bytes, calm: bool) returns (m: Meta.MetaErr)
      requires Valid() && uploadId in meta.uploads && staging == Stage(staging, uploadId, partNum, data)
      modifies this`acked, this`torn, meta`parts
      ensures Valid()
      ensures m == Meta.MetaOk || m == Meta.DbFailed
      ensures calm ==> m == Meta.MetaOk
      ensures
        var p := (uploadId, partNum);
        if m == Meta.MetaOk then
          && acked == old(acked)[p := data] && torn == old(torn) - {p}
          && meta.parts == old(meta.parts)[p := Meta.PartRow(|data|, md5(data))]
        else
          acked == old(acked) && torn == old(torn) && meta.parts == old(meta.parts)
    {
      hide GcmOk, ObjectsOk, BucketsOk, CachesOk, PartsOk, OpenOk;
      ghost var p := (uploadId, partNum);
      PartsAfterUpload(meta.parts, acked, torn, staging, md5, p, data);
      OpenAfterUpload(open, used, meta.uploads, meta.parts, acked, staging, p, Meta.PartRow(|data|, md5(data)), data);
      m := meta.UpsertPart((uploadId, partNum), Meta.PartRow(|data|, md5(data)), calm);
      if m == Meta.MetaOk {
        acked, torn := acked[p := data], torn - {p};
      }
    }

    /** A received part: its file, then its row. */
    method KeepPart(uploadId: string, partNum: nat, data: Bytes, calm: bool) returns (ok: bool)
      requires Valid() && uploadId in meta.uploads
      modifies this`staging, this`acked, this`torn, meta`parts
      ensures Valid()
      ensures calm ==> ok
      ensures staging == Stage(old(staging), uploadId, partNum, data)
      ensures
        var p := (uploadId, partNum);
        if ok then
          && acked == old(acked)[p := data] && torn == old(torn) - {p}
          && meta.parts == old(meta.parts)[p := Meta.PartRow(|data|, md5(data))]
        else
          acked == old(acked) && torn == old(torn)[p := data] && meta.parts == old(meta.parts)
    {
      hide *;
      PlaceFile(uploadId, partNum, data);
      StagedAgain(old(staging), uploadId, partNum, data);
      var m := RecordPart(uploadId, partNum, data, calm);
      ok := m == Meta.MetaOk;
      assert old(torn)[(uploadId, partNum) := data] - {(uploadId, partNum)} == old(torn) - {(uploadId, partNum)};
    }

    lemma OpenUploads(u: string)
      requires Valid() && u in open
      ensures u in meta.uploads && meta.uploads[u] == Meta.UploadRow(open[u].0, open[u].1) && u in staging
      ensures AllStaged(meta.parts, staging, u)
      ensures forall named :: NamedRows(meta.parts, u, named) <==> NamedOk(acked, md5, u, named)
    {
      hide GcmOk, ObjectsOk, BucketsOk, CachesOk, PartsOk, OpenOk;
      forall named
        ensures NamedRows(meta.parts, u, named) <==> NamedOk(acked, md5, u, named)
      {
        OpenIsStaged(open, used, meta.uploads, meta.parts, acked, torn, staging, md5, u, named);
      }
      OpenIsStaged(open, used, meta.uploads, meta.parts, acked, torn, staging, md5, u, []);
    }

    /**
     * Stages one part. The file is replaced by a rename, then the row: when the row cannot be written
     * the part is torn, that is, its file is new and its row describes the bytes before.
     */
    method UploadPart(uploadId: string, partNum: nat, size: nat, src: Source<Byte>, calm: bool)
      returns (err: S3Err, etag: Bytes)
      requires Valid() && src.Valid()
      modifies this`staging, this`acked, this`torn, meta`parts, src
      ensures Valid()
      ensures
        var p := (uploadId, partNum);
        if err == Done then
          && |old(src.Rest())| == size && src.tail == CleanEnd
          && staging == Stage(old(staging), uploadId, partNum, old(src.Rest()))
          && acked == old(acked)[p := old(src.Rest())] && torn == old(torn) - {p}
          && etag == md5(old(src.Rest()))
          && meta.parts == old(meta.parts)[p := Meta.PartRow(size, etag)]
        else
          && acked == old(acked) && meta.parts == old(meta.parts)
          && ((torn == old(torn) && staging == old(staging)) ||
              (!calm && torn == old(torn)[p := old(src.Rest())] &&
               staging == Stage(old(staging), uploadId, partNum, old(src.Rest()))))
      ensures (calm || err == Done) && uploadId in open ==>
                err == if size > backend.maxObjectSize then EntityTooLarge
                       else PartAnswer(size, old(src.Rest()), src.tail)
      ensures (calm || err == Done) && uploadId !in used ==> err == NoSuchUpload
    {
      hide *;
      KeysOfBuckets();
      UploadIdsAreUsed();
      if uploadId in open {
        OpenUploads(uploadId);
      }
      etag := [];
      var m, row := meta.GetMultipart(uploadId, calm);
      if m != Meta.MetaOk {
        return if m == Meta.UploadNotFound then NoSuchUpload else InternalError, [];
      }
      if size > backend.maxObjectSize {
        return EntityTooLarge, [];
      }
      if uploadId !in staging {
        return InternalError, [];
      }
      var fails := Fails(calm);
      if fails {
        return InternalError, [];
      }
      var e, data := ReceivePart(size, src);
      if e != Done {
        return e, [];
      }
      fails := Fails(calm);
      if fails {
        return InternalError, [];
      }
      var ok := KeepPart(uploadId, partNum, data, calm);
      if !ok {
        return InternalError, [];
      }
      return Done, md5(data);
    }

    /** Deletes the rows of a closed upload. */
    method DeleteRows(uploadId: string, calm: bool) returns (m: Meta.MetaErr)
      requires Valid() && uploadId !in open
      modifies meta`uploads, meta`parts
      ensures Valid()
      ensures m == Meta.MetaOk || m == Meta.UploadNotFound || m == Meta.DbFailed
      ensures m == Meta.UploadNotFound ==> uploadId !in old(meta.uploads)
      ensures calm ==> m != Meta.DbFailed
      ensures meta.uploads == if m == Meta.MetaOk then old(meta.uploads) - {uploadId} else old(meta.uploads)
      ensures meta.parts == if m == Meta.MetaOk then Without(old(meta.parts), uploadId) else old(meta.parts)
    {
      hide GcmOk, ObjectsOk, BucketsOk, CachesOk, PartsOk, OpenOk;
      NothingMoved(staging);
      m := meta.DeleteMultipart(uploadId, calm);
      PartsWithin(old(meta.parts), meta.parts, acked, torn, staging, staging, md5);
      assert open - {uploadId} == open;
      OpenAfterClosing(open, used, old(meta.uploads), old(meta.parts), acked, staging, staging, uploadId);
    }

    method AbortMultipart(uploadId: string, calm: bool) returns (err: S3Err)
      requires Valid()
      modifies this`staging, this`open, meta`uploads, meta`parts
      ensures Valid() && open == old(open) - {uploadId}
      ensures meta.uploads == if err == Done then old(meta.uploads) - {uploadId} else old(meta.uploads)
      ensures meta.parts == if err == Done then Without(old(meta.parts), uploadId) else old(meta.parts)
      ensures StagedWithin(staging, old(staging)) && OthersStaged(uploadId, old(staging), staging)
      ensures calm || err == Done ==> err == if uploadId in old(meta.uploads) then Done else NoSuchUpload
    {
      hide *;
      KeysOfBuckets();
      NothingMoved(staging);
      CloseUpload(uploadId);
      var m, row := meta.GetMultipart(uploadId, calm);
      if m != Meta.MetaOk {
        return if m == Meta.UploadNotFound then NoSuchUpload else InternalError;
      }
      RemoveAll(uploadId, calm);
      m := DeleteRows(uploadId, calm);
      return if m == Meta.MetaOk then Done else if m == Meta.UploadNotFound then NoSuchUpload else InternalError;
    }

    /** CompleteMultipart's look-ups: the upload, which must be one for this object, and its parts. */
    method FindUpload(bucket: string, key: string, uploadId: string, calm: bool)
      returns (err: S3Err, have: map<nat, Meta.PartRow>)
      ensures err == Done ==>
                && uploadId in meta.uploads && meta.uploads[uploadId] == Meta.UploadRow(bucket, key)
                && RowsOf(have, meta.parts, uploadId)
      ensures calm || err == Done ==>
                err == if uploadId in meta.uploads && meta.uploads[uploadId] == Meta.UploadRow(bucket, key) then Done
                       else NoSuchUpload
    {
      var m, upload := meta.GetMultipart(uploadId, calm);
      if m != Meta.MetaOk {
        return if m == Meta.UploadNotFound then NoSuchUpload else InternalError, map[];
      }
      if upload.value != Meta.UploadRow(bucket, key) {
        return NoSuchUpload, map[];
      }
      m, have := meta.ListParts(uploadId, calm);
      return if m == Meta.MetaOk then Done else InternalError, have;
    }

    lemma RowsDescribeParts()
      requires Valid()
      ensures PartsOk(meta.parts, acked, torn, staging, md5)
    {
    }

    /** CompleteMultipart's loop: checks every named part against its row and opens its file. */
    method CollectParts(uploadId: string, have: map<nat, Meta.PartRow>, named: seq<NamedPart>, calm: bool)
      returns (err: S3Err, files: seq<Bytes>, totalSize: nat, digests: Bytes)
      requires Valid() && RowsOf(have, meta.parts, uploadId)
      ensures err == Done ==> Collected(meta.parts, acked, torn, md5, uploadId, named, files, totalSize, digests)
      ensures err == Done || err == InternalError || (err == InvalidPart && !NamedRows(meta.parts, uploadId, named))
      ensures calm && AllStaged(meta.parts, staging, uploadId) ==>
                err == if NamedRows(meta.parts, uploadId, named) then Done else InvalidPart
    {
      hide *;
      files, totalSize, digests := [], 0, [];
      var i := 0;
      assert named[..0] == [];
      CollectedNothing(meta.parts, acked, torn, md5, uploadId);
      RowsDescribeParts();
      while i < |named|
        invariant 0 <= i <= |named|
        invariant Collected(meta.parts, acked, torn, md5, uploadId, named[..i], files, totalSize, digests)
      {
        var n := named[i].number;
        OnePart(have, meta.parts, staging, uploadId, named, i);
        if n !in have {
          return InvalidPart, [], 0, [];
        }
        var got := have[n];
        if named[i].tag != Some(got.md5) {
          return InvalidPart, [], 0, [];
        }
        if uploadId !in staging || n !in staging[uploadId] {
          return InternalError, [], 0, [];
        }
        var fails := Fails(calm);
        if fails {
          return InternalError, [], 0, [];
        }
        CollectedStep(meta.parts, acked, torn, staging, md5, uploadId, named[..i], files, totalSize, digests, named[i]);
        assert named[..i + 1] == named[..i] + [named[i]];
        files := files + [staging[uploadId][n]];
        totalSize := totalSize + got.size;
        digests := digests + got.md5;
        i := i + 1;
      }
      assert named[..i] == named;
      CollectedMeans(meta.parts, acked, torn, md5, uploadId, named, files, totalSize, digests);
      return Done, files, totalSize, digests;
    }

    /** CompleteMultipart up to the encryption: everything that is checked and opened first. */
    method Assemble(bucket: string, key: string, uploadId: string, named: seq<NamedPart>, calm: bool)
      returns (err: S3Err, file: Bytes, totalSize: nat, etag: Meta.ETag)
      requires Valid()
      ensures err == Done ==>
                && Ascending(named) && NamedOk(acked, md5, uploadId, named)
                && uploadId in meta.uploads && meta.uploads[uploadId] == Meta.UploadRow(bucket, key)
                && file == Concat(DiskPieces(acked, torn, uploadId, named))
                && totalSize == TotalSize(acked, uploadId, named)
                && etag == CombinedTag(acked, md5, uploadId, named)
      ensures !Ascending(named) ==> err == InvalidPartOrder
      ensures (calm || err == Done) && Ascending(named) && uploadId !in used ==> err == NoSuchUpload
      ensures (calm || err == Done) && Ascending(named) && uploadId in open ==>
                err == if open[uploadId] != (bucket, key) then NoSuchUpload
                       else if !NamedOk(acked, md5, uploadId, named) then InvalidPart else Done
    {
      hide *;
      KeysOfBuckets();
      UploadIdsAreUsed();
      if uploadId in open {
        OpenUploads(uploadId);
      }
      file, totalSize, etag := [], 0, Meta.Combined([], 0);
      if !Ascending(named) {
        return InvalidPartOrder, [], 0, etag;
      }
      var have;
      err, have := FindUpload(bucket, key, uploadId, calm);
      if err != Done {
        return;
      }
      var files, digests;
      err, files, totalSize, digests := CollectParts(uploadId, have, named, calm);
      if err != Done {
        return;
      }
      CollectedMeans(meta.parts, acked, torn, md5, uploadId, named, files, totalSize, digests);
      file, etag := Concat(files), Meta.Combined(md5(digests), |named|);
    }

    /** CompleteMultipart from the encryption on, for what was assembled. */
    method Publish(id: ObjectId, uploadId: string, contentType: string, file: Bytes, totalSize: nat, etag: Meta.ETag,
                   nonce: Bytes, bufSize: nat -> nat, calm: bool) returns (err: S3Err)
      requires Valid() && |nonce| == NONCE_LEN && (forall k :: bufSize(k) > 0)
      modifies this`cipherCache, this`contents, this`writtenWith, this`staging, this`open
      modifies meta`objects, meta`uploads, meta`parts, backend
      ensures Valid()
      ensures err == Done ==>
                && totalSize <= |file| && contents == old(contents)[id := file[..totalSize]]
                && id in meta.objects && meta.objects == old(meta.objects)[id := meta.objects[id]]
                && meta.objects[id].size == totalSize && meta.objects[id].etag == etag
                && meta.objects[id].contentType == contentType && open == old(open) - {uploadId}
      ensures err != Done ==>
                && contents == old(contents) && meta.objects == old(meta.objects) && open == old(open)
                && staging == old(staging) && meta.uploads == old(meta.uploads) && meta.parts == old(meta.parts)
      ensures OthersStaged(uploadId, old(staging), staging)
      ensures calm || err == Done ==>
                err == if id.0 !in keys.keys then NoSuchBucket
                       else if frameSize > MAX_FRAME_SIZE then InternalError
                       else if CiphertextSize(ChosenFrameSize(frameSize), totalSize) > backend.maxObjectSize then
                         EntityTooLarge
                       else if totalSize > |file| then InternalError else Done
    {
      hide *;
      NothingMoved(staging);
      var cipher;
      err, cipher := CipherFor(id.0);
      if err != Done {
        return;
      }
      var src := new Source<Byte>(file, CleanEnd);
      AtStart(src);
      var tag;
      err, tag := SealAndRecord(id, contentType, Some(etag), cipher.value, src, totalSize, nonce, bufSize, calm);
      if err == Done {
        Discard(uploadId, calm);
      }
    }

    /**
     * Completes an upload. On success the object holds what was on disk for the named parts, cut to the
     * total of their acknowledged sizes.
     */
    method CompleteMultipart(bucket: string, key: string, uploadId: string, named: seq<NamedPart>, contentType: string,
                             nonce: Bytes, bufSize: nat -> nat, calm: bool) returns (err: S3Err, tag: Meta.ETag)
      requires Valid() && |nonce| == NONCE_LEN && (forall k :: bufSize(k) > 0)
      modifies this`cipherCache, this`contents, this`writtenWith, this`staging, this`open
      modifies meta`objects, meta`uploads, meta`parts, backend
      ensures Valid()
      ensures
        err == Done ==>
          var id := (bucket, key);
          && Ascending(named) && NamedOk(acked, md5, uploadId, named)
          && uploadId in old(meta.uploads) && old(meta.uploads)[uploadId] == Meta.UploadRow(bucket, key)
          && |Assembled(acked, torn, uploadId, named)| == TotalSize(acked, uploadId, named)
          && contents == old(contents)[id := Assembled(acked, torn, uploadId, named)]
          && id in meta.objects && meta.objects == old(meta.objects)[id := meta.objects[id]]
          && meta.objects[id].size == TotalSize(acked, uploadId, named)
          && meta.objects[id].etag == tag == CombinedTag(acked, md5, uploadId, named)
          && meta.objects[id].contentType == contentType
          && open == old(open) - {uploadId}
      ensures err != Done ==>
                && contents == old(contents) && meta.objects == old(meta.objects) && open == old(open)
                && staging == old(staging) && meta.uploads == old(meta.uploads) && meta.parts == old(meta.parts)
      ensures OthersStaged(uploadId, old(staging), staging)
      ensures !Ascending(named) ==> err == InvalidPartOrder
      ensures (calm || err == Done) && Ascending(named) && uploadId !in used ==> err == NoSuchUpload
      ensures (calm || err == Done) && uploadId in old(open) ==>
                err == CompletionAnswer(acked, torn, md5, uploadId, named, old(open)[uploadId] == (bucket, key),
                                        bucket in keys.keys, frameSize, backend.maxObjectSize)
    {
      hide *;
      NothingMoved(staging);
      CompletionAnswerIs(acked, torn, md5, uploadId, named, uploadId in open && open[uploadId] == (bucket, key),
        bucket in keys.keys, frameSize, backend.maxObjectSize);
      var file, totalSize;
      err, file, totalSize, tag := Assemble(bucket, key, uploadId, named, calm);
      if err == Done {
        err := Publish((bucket, key), uploadId, contentType, file, totalSize, tag, nonce, bufSize, calm);
      }
    }

    /** Drops a completed upload's files and rows, as far as that succeeds. */
    method Discard(uploadId: string, calm: bool)
      requires Valid()
      modifies this`staging, this`open, meta`uploads, meta`parts
      ensures Valid() && open == old(open) - {uploadId}
      ensures StagedWithin(staging, old(staging)) && OthersStaged(uploadId, old(staging), staging)
      ensures meta.uploads == old(meta.uploads) || meta.uploads == old(meta.uploads) - {uploadId}
    {
      hide *;
      CloseUpload(uploadId);
      RemoveAll(uploadId, calm);
      var _ := DeleteRows(uploadId, calm);
    }
  }

  /** What becomes of a part's body: a broken one, one of another length than declared, or a good one. */
  function PartAnswer(size: nat, body: Bytes, tail: Tail): S3Err {
    if |body| <= size && tail.Broken? then InternalError
    else if |body| != size then InvalidArgument
    else Done
  }

  lemma CompletionAnswerIs(
    acked: map<PartId, Bytes>, torn: map<PartId, Bytes>, md5: Bytes -> Bytes, uploadId: string,
    named: seq<NamedPart>, isFor: bool, hasKey: bool, frameSize: int, maxObjectSize: int)
    ensures
      var total, file := TotalSize(acked, uploadId, named), Concat(DiskPieces(acked, torn, uploadId, named));
      && (total <= |file| ==> Assembled(acked, torn, uploadId, named) == file[..total])
      && (|Assembled(acked, torn, uploadId, named)| < total <==> |file| < total)
      && CompletionAnswer(acked, torn, md5, uploadId, named, isFor, hasKey, frameSize, maxObjectSize) ==
         if !Ascending(named) then InvalidPartOrder
         else if !isFor then NoSuchUpload
         else if !NamedOk(acked, md5, uploadId, named) then InvalidPart
         else if !hasKey then NoSuchBucket
         else if frameSize > MAX_FRAME_SIZE then InternalError
         else if CiphertextSize(ChosenFrameSize(frameSize), total) > maxObjectSize then EntityTooLarge
         else if |Assembled(acked, torn, uploadId, named)| < total then InternalError
         else Done
  {
    hide Concat, DiskPieces, TotalSize, NamedOk, Ascending, CiphertextSize;
  }

  lemma CollectedMeans(
    parts: map<PartId, Meta.PartRow>, acked: map<PartId, Bytes>, torn: map<PartId, Bytes>, md5: Bytes -> Bytes,
    uploadId: string, named: seq<NamedPart>, files: seq<Bytes>, totalSize: nat, digests: Bytes)
    requires Collected(parts, acked, torn, md5, uploadId, named, files, totalSize, digests)
    ensures NamedRows(parts, uploadId, named) && NamedOk(acked, md5, uploadId, named)
    ensures files == DiskPieces(acked, torn, uploadId, named) && totalSize == TotalSize(acked, uploadId, named)
    ensures Meta.Combined(md5(digests), |named|) == CombinedTag(acked, md5, uploadId, named)
  {
    hide DiskPieces, TotalSize, NamedRows, NamedOk, Concat;
  }
}
