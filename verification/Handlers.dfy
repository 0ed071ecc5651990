/** The request handlers, each proved to reply as the state demands and to leave the state that follows. */
module Handlers {
  import opened Bytes
  import opened Io
  import opened FrameFormat
  import opened Uploads
  import opened ObjectRows
  import opened ObjectTable
  import opened RollUp
  import opened Listing
  import opened Service
  import opened Requests
  import RangeHeader
  import Meta = Metadata

  // --- the service's state as clients see it ---

  function Versions(contents: map<ObjectId, Bytes>, rows: map<ObjectId, Meta.ObjectRow>): map<ObjectId, Version> {
    map id | id in contents && id in rows :: Version(contents[id], rows[id].etag, rows[id].contentType)
  }

  ghost function StateOf(s: Service): State
    reads s, s.meta
  {
    State(Versions(s.contents, s.meta.objects), s.meta.buckets, s.stray, s.frameSize, s.open, s.used, s.acked, s.torn)
  }

  lemma VersionsPut(contents: map<ObjectId, Bytes>, rows: map<ObjectId, Meta.ObjectRow>, id: ObjectId, bytes: Bytes,
                    row: Meta.ObjectRow)
    ensures Versions(contents[id := bytes], rows[id := row]) ==
            Versions(contents, rows)[id := Version(bytes, row.etag, row.contentType)]
  {
  }

  lemma VersionsDelete(contents: map<ObjectId, Bytes>, rows: map<ObjectId, Meta.ObjectRow>, id: ObjectId)
    ensures Versions(contents - {id}, rows - {id}) == Versions(contents, rows) - {id}
  {
  }

  lemma VersionsHave(contents: map<ObjectId, Bytes>, rows: map<ObjectId, Meta.ObjectRow>)
    requires contents.Keys == rows.Keys
    ensures forall id :: id in Versions(contents, rows) <==> id in contents
    ensures forall id :: id in contents ==>
              Versions(contents, rows)[id] == Version(contents[id], rows[id].etag, rows[id].contentType)
  {
  }

  // --- serving requests ---

  method ServeBucket(s: Service, op: Op, calm: bool) returns (r: Reply)
    requires s.Valid() && OpOk(op) && (op.CreateBucket? || op.DeleteBucket? || op.Restart?)
    modifies s, s.meta, s.keys, s.backend
    ensures s.Valid()
    ensures StateOf(s) == Step(s.md5, old(StateOf(s)), Entry(op, calm, r, false))
    ensures Right(s.md5, s.backend.maxObjectSize, old(StateOf(s)), Entry(op, calm, r, false))
  {
    hide Service.Valid, Versions;
    s.KeysOfBuckets();
    s.KeysOfContents();
    VersionsHave(s.contents, s.meta.objects);
    match op {
      case CreateBucket(bucket, random) =>
        var err := s.CreateBucket(bucket, random, calm);
        r := Plain(err);
      case DeleteBucket(bucket) =>
        var err := s.DeleteBucket(bucket, calm);
        r := Plain(err);
      case Restart(frameSize) =>
        s.Restart(frameSize);
        r := Plain(Done);
    }
  }

  lemma StateIs(s: Service)
    ensures StateOf(s) == State(Versions(s.contents, s.meta.objects), s.meta.buckets, s.stray, s.frameSize, s.open,
                                s.used, s.acked, s.torn)
  {
    hide Versions;
  }

  lemma PutServed(md5: Bytes -> Bytes, max: int, st: State, op: Op, calm: bool, err: S3Err, tag: Meta.ETag)
    requires op.Put? && OpOk(op)
    requires err == Done ==>
               op.id.0 in st.buckets && op.size <= |op.body| && tag == Meta.Single(md5(op.body[..op.size]))
    requires calm || err == Done ==>
               err == if op.size > max then EntityTooLarge
                      else if op.id.0 !in st.buckets then NoSuchBucket
                      else if st.frameSize > MAX_FRAME_SIZE then InternalError
                      else if CiphertextSize(ChosenFrameSize(st.frameSize), op.size) > max then EntityTooLarge
                      else if op.size > |op.body| then InternalError else Done
    ensures
      var e := Entry(op, calm, Reply(err, [], if err == Done then Some(tag) else None, "", None), false);
      && Right(md5, max, st, e)
      && Step(md5, st, e) ==
         (if err == Done then
            st.(objects := st.objects[op.id := Version(op.body[..op.size], tag, op.contentType)])
          else st)
  {
    hide CiphertextSize, ChosenFrameSize;
  }

  lemma OpMeans(op: Op)
    requires OpOk(op)
    ensures op.Put? ==> |op.nonce| == NONCE_LEN && forall k :: op.bufSize(k) > 0
    ensures op.Complete? ==> |op.nonce| == NONCE_LEN && forall k :: op.bufSize(k) > 0
  {
  }

  method ServePut(s: Service, op: Op, calm: bool) returns (r: Reply)
    requires s.Valid() && OpOk(op) && op.Put?
    modifies s, s.meta, s.keys, s.backend
    ensures s.Valid()
    ensures StateOf(s) == Step(s.md5, old(StateOf(s)), Entry(op, calm, r, false))
    ensures Right(s.md5, s.backend.maxObjectSize, old(StateOf(s)), Entry(op, calm, r, false))
  {
    hide *;
    OpMeans(op);
    StateIs(s);
    var src := new Source<Byte>(op.body, op.tail);
    AtStart(src);
    var err, tag := EntityTooLarge, Meta.Single([]);
    if op.size <= s.backend.maxObjectSize {
      err, tag := s.PutObject(op.id.0, op.id.1, op.contentType, op.size, src, op.nonce, op.bufSize, calm);
    }
    StateIs(s);
    r := Reply(err, [], if err == Done then Some(tag) else None, "", None);
    PutServed(s.md5, s.backend.maxObjectSize, old(StateOf(s)), op, calm, err, tag);
    if err == Done {
      VersionsPut(old(s.contents), old(s.meta.objects), op.id, op.body[..op.size], s.meta.objects[op.id]);
    }
  }

  function Described(err: S3Err, row: Option<Meta.ObjectRow>, body: Bytes): Reply {
    if row.None? then Reply(err, body, None, "", None)
    else Reply(err, body, Some(row.value.etag), row.value.contentType, None)
  }

  /** The row describes the version of that object. */
  predicate Describes(st: State, id: ObjectId, row: Option<Meta.ObjectRow>) {
    && id in st.objects && row.Some?
    && st.objects[id].etag == row.value.etag && st.objects[id].contentType == row.value.contentType
  }

  lemma GetServed(md5: Bytes -> Bytes, max: int, st: State, op: Op, calm: bool, err: S3Err,
                  row: Option<Meta.ObjectRow>, body: Bytes)
    requires op.Get?
    requires err == Done ==> Describes(st, op.id, row) && body == st.objects[op.id].bytes
    requires err == NoSuchKey ==> op.id !in st.objects
    requires if op.id in st.objects then body <= st.objects[op.id].bytes else body == []
    requires calm || err == Done ==>
               err == if op.id !in st.objects then NoSuchKey
                      else if st.frameSize > MAX_FRAME_SIZE then InternalError else Done
    ensures
      var e := Entry(op, calm, Described(err, row, body), false);
      Right(md5, max, st, e) && Step(md5, st, e) == st
  {
  }

  lemma RangeServed(md5: Bytes -> Bytes, max: int, st: State, op: Op, calm: bool, err: S3Err,
                    row: Option<Meta.ObjectRow>, body: Bytes)
    requires op.GetRange?
    requires err == Done ==>
               && Describes(st, op.id, row)
               && var plain := st.objects[op.id].bytes;
                  var range := RangeHeader.ParseRange(op.header, |plain|);
                  && range.Some? && 0 <= range.value.0 <= range.value.1 < |plain|
                  && body == plain[range.value.0..range.value.1 + 1]
    requires (err == NoSuchKey ==> op.id !in st.objects) && (err != Done ==> body == [])
    requires calm || err == Done ==>
               err == if op.id !in st.objects then NoSuchKey
                      else if RangeHeader.ParseRange(op.header, |st.objects[op.id].bytes|).None? then InvalidRange
                      else if st.frameSize > MAX_FRAME_SIZE then InternalError else Done
    ensures
      var e := Entry(op, calm, Described(err, row, body), false);
      Right(md5, max, st, e) && Step(md5, st, e) == st
  {
    hide RangeHeader.ParseRange;
  }

  method ServeGet(s: Service, op: Op, calm: bool) returns (r: Reply)
    requires s.Valid() && OpOk(op) && op.Get?
    modifies s`cipherCache
    ensures s.Valid()
    ensures StateOf(s) == Step(s.md5, old(StateOf(s)), Entry(op, calm, r, false))
    ensures Right(s.md5, s.backend.maxObjectSize, old(StateOf(s)), Entry(op, calm, r, false))
  {
    hide Service.Valid, Versions, Step, Right, Described;
    s.KeysOfContents();
    VersionsHave(s.contents, s.meta.objects);
    var err, row, body := s.GetObject(op.id.0, op.id.1, op.lost, op.bufSize, calm);
    r := Described(err, row, body);
    assert op.id == (op.id.0, op.id.1);
    GetServed(s.md5, s.backend.maxObjectSize, old(StateOf(s)), op, calm, err, row, body);
  }

  method ServeRange(s: Service, op: Op, calm: bool) returns (r: Reply)
    requires s.Valid() && op.GetRange?
    modifies s`cipherCache
    ensures s.Valid()
    ensures StateOf(s) == Step(s.md5, old(StateOf(s)), Entry(op, calm, r, false))
    ensures Right(s.md5, s.backend.maxObjectSize, old(StateOf(s)), Entry(op, calm, r, false))
  {
    hide Service.Valid, Versions, Step, Right, Described, RangeHeader.ParseRange;
    s.KeysOfContents();
    VersionsHave(s.contents, s.meta.objects);
    var err, row, body := RangeHeader.GetObjectRange(s, op.id.0, op.id.1, op.header, op.lost, calm);
    r := Described(err, row, body);
    assert op.id == (op.id.0, op.id.1);
    RangeServed(s.md5, s.backend.maxObjectSize, old(StateOf(s)), op, calm, err, row, body);
  }

  lemma VersionKeys(contents: map<ObjectId, Bytes>, rows: map<ObjectId, Meta.ObjectRow>)
    requires contents.Keys == rows.Keys
    ensures Versions(contents, rows).Keys == rows.Keys
  {
  }

  lemma ListServed(md5: Bytes -> Bytes, max: int, st: State, op: Op, calm: bool, err: S3Err, page: Page)
    requires op.List? && (calm || err == Done ==> err == if op.bucket in st.buckets then Done else NoSuchBucket)
    requires err == Done ==>
               IsListed(KeysIn(st.objects.Keys, op.bucket), op.prefix, op.delimiter, op.startAfter,
                        Capped(op.maxKeys), page)
    ensures
      var e := Entry(op, calm, Plain(err).(page := if err == Done then Some(page) else None), false);
      Right(md5, max, st, e) && Step(md5, st, e) == st
  {
    hide IsListed, KeysIn;
  }

  lemma PageIsListed(keys: seq<string>, prefix: string, delimiter: string, startAfter: string, max: nat, page: Page,
                     items: seq<Item>)
    requires max == 0 ==> page == Page([], [], false, "")
    requires max > 0 ==> IsPage(prefix, delimiter, Select(keys, prefix, startAfter), max, page, items)
    ensures IsListed(keys, prefix, delimiter, startAfter, max, page)
  {
    hide IsPage, Select;
  }

  /** listObjectsV2. */
  method ServeList(s: Service, op: Op, calm: bool) returns (r: Reply)
    requires s.Valid() && op.List?
    ensures StateOf(s) == Step(s.md5, StateOf(s), Entry(op, calm, r, false))
    ensures Right(s.md5, s.backend.maxObjectSize, StateOf(s), Entry(op, calm, r, false))
  {
    hide *;
    StateIs(s);
    s.KeysOfContents();
    VersionKeys(s.contents, s.meta.objects);
    var err, page := Done, Page([], [], false, "");
    var m := s.meta.GetBucket(op.bucket, calm);
    if m != Meta.MetaOk {
      err := NoSuchBucket;
    } else {
      var keys := TableKeys(s.meta.objects, op.bucket);
      var max := Capped(op.maxKeys);
      var ok;
      ghost var items;
      ok, page, items := ListPage(keys, op.prefix, op.delimiter, op.startAfter, max, calm);
      if ok {
        PageIsListed(keys, op.prefix, op.delimiter, op.startAfter, max, page, items);
      } else {
        err := InternalError;
      }
    }
    r := Plain(err).(page := if err == Done then Some(page) else None);
    ListServed(s.md5, s.backend.maxObjectSize, StateOf(s), op, calm, err, page);
  }

  method ServeDelete(s: Service, op: Op, calm: bool) returns (r: Reply)
    requires s.Valid() && op.Delete?
    modifies s, s.meta, s.keys, s.backend
    ensures s.Valid()
    ensures StateOf(s) == Step(s.md5, old(StateOf(s)), Entry(op, calm, r, false))
    ensures Right(s.md5, s.backend.maxObjectSize, old(StateOf(s)), Entry(op, calm, r, false))
  {
    hide Service.Valid, Versions;
    VersionsDelete(s.contents, s.meta.objects, op.id);
    var err := s.DeleteObject(op.id.0, op.id.1, calm);
    r := Plain(err);
  }

  lemma UploadServed(md5: Bytes -> Bytes, max: int, st: State, op: Op, calm: bool, err: S3Err)
    requires op.CreateMultipart?
    requires (calm || err == Done) && op.uploadId !in st.used ==>
               err == if op.id.0 in st.buckets then Done else NoSuchBucket
    requires (calm || err == Done) && op.id.0 !in st.buckets ==> err == NoSuchBucket
    ensures
      var e := Entry(op, calm, Plain(err), false);
      && Right(md5, max, st, e)
      && Step(md5, st, e) ==
         (if err == Done then
            st.(open := st.open[op.uploadId := op.id], used := st.used + {op.uploadId},
                acked := Without(st.acked, op.uploadId), torn := Without(st.torn, op.uploadId))
          else st.(open := st.open - {op.uploadId}))
  {
    hide Without;
  }

  lemma AbortServed(md5: Bytes -> Bytes, max: int, st: State, op: Op, calm: bool, err: S3Err)
    requires op.Abort?
    requires (calm || err == Done) && op.uploadId in st.open ==> err == Done
    requires (calm || err == Done) && op.uploadId !in st.open && op.uploadId !in st.used ==> err == NoSuchUpload
    ensures
      var e := Entry(op, calm, Plain(err), false);
      Right(md5, max, st, e) && Step(md5, st, e) == st.(open := st.open - {op.uploadId})
  {
  }

  method ServeCreation(s: Service, op: Op, calm: bool) returns (r: Reply)
    requires s.Valid() && op.CreateMultipart?
    modifies s, s.meta, s.keys, s.backend
    ensures s.Valid()
    ensures StateOf(s) == Step(s.md5, old(StateOf(s)), Entry(op, calm, r, false))
    ensures Right(s.md5, s.backend.maxObjectSize, old(StateOf(s)), Entry(op, calm, r, false))
  {
    hide *;
    StateIs(s);
    var err := NoSuchBucket;
    var m := s.meta.GetBucket(op.id.0, calm);
    if m == Meta.MetaOk {
      err := s.CreateMultipart(op.id.0, op.id.1, op.uploadId, calm);
    } else {
      s.CloseUpload(op.uploadId);
    }
    StateIs(s);
    r := Plain(err);
    assert op.id == (op.id.0, op.id.1);
    UploadServed(s.md5, s.backend.maxObjectSize, old(StateOf(s)), op, calm, err);
  }

  method ServeAbort(s: Service, op: Op, calm: bool) returns (r: Reply)
    requires s.Valid() && op.Abort?
    modifies s, s.meta, s.keys, s.backend
    ensures s.Valid()
    ensures StateOf(s) == Step(s.md5, old(StateOf(s)), Entry(op, calm, r, false))
    ensures Right(s.md5, s.backend.maxObjectSize, old(StateOf(s)), Entry(op, calm, r, false))
  {
    hide *;
    StateIs(s);
    s.UploadIdsAreUsed();
    if op.uploadId in s.open {
      s.OpenUploads(op.uploadId);
    }
    var err := s.AbortMultipart(op.uploadId, calm);
    StateIs(s);
    r := Plain(err);
    AbortServed(s.md5, s.backend.maxObjectSize, old(StateOf(s)), op, calm, err);
  }

  lemma PartServed(md5: Bytes -> Bytes, max: int, st: State, op: Op, calm: bool, err: S3Err, tag: Bytes, tore: bool)
    requires op.UploadPart?
    requires err == Done ==> |op.body| == op.size && op.tail == CleanEnd && tag == md5(op.body)
    requires !(1 <= op.part.1 <= MAX_PARTS) ==> err == InvalidArgument
    requires (calm || err == Done) && 1 <= op.part.1 <= MAX_PARTS && op.part.0 !in st.used ==> err == NoSuchUpload
    requires st.open.Keys <= st.used
    requires (calm || err == Done) && 1 <= op.part.1 <= MAX_PARTS && op.part.0 in st.open ==>
               err == if op.size > max then EntityTooLarge else PartAnswer(op.size, op.body, op.tail)
    requires tore ==> !calm && err != Done
    ensures
      var e := Entry(op, calm, Reply(err, [], if err == Done then Some(Meta.Single(tag)) else None, "", None), tore);
      && Right(md5, max, st, e)
      && Step(md5, st, e) ==
         (if err == Done then st.(acked := st.acked[op.part := op.body], torn := st.torn - {op.part})
          else if tore then st.(torn := st.torn[op.part := op.body])
          else st)
  {
    hide PartAnswer;
  }

  method ServePart(s: Service, op: Op, calm: bool) returns (r: Reply, ghost tore: bool)
    requires s.Valid() && op.UploadPart?
    modifies s, s.meta, s.keys, s.backend
    ensures s.Valid()
    ensures StateOf(s) == Step(s.md5, old(StateOf(s)), Entry(op, calm, r, tore))
    ensures Right(s.md5, s.backend.maxObjectSize, old(StateOf(s)), Entry(op, calm, r, tore))
  {
    hide *;
    StateIs(s);
    var src := new Source<Byte>(op.body, op.tail);
    AtStart(src);
    s.OpenAreUsed();
    var err, tag := InvalidArgument, [];
    if 1 <= op.part.1 <= MAX_PARTS {
      err, tag := s.UploadPart(op.part.0, op.part.1, op.size, src, calm);
    }
    StateIs(s);
    r := Reply(err, [], if err == Done then Some(Meta.Single(tag)) else None, "", None);
    tore := err != Done && s.torn != old(s.torn);
    PartServed(s.md5, s.backend.maxObjectSize, old(StateOf(s)), op, calm, err, tag, tore);
  }

  lemma CompleteServed(md5: Bytes -> Bytes, max: int, st: State, op: Op, calm: bool, err: S3Err, tag: Meta.ETag,
                       hasKey: bool)
    requires op.Complete? && OpOk(op)
    requires err == Done ==>
               && Ascending(op.named) && NamedOk(st.acked, md5, op.uploadId, op.named)
               && |Assembled(st.acked, st.torn, op.uploadId, op.named)| == TotalSize(st.acked, op.uploadId, op.named)
               && tag == CombinedTag(st.acked, md5, op.uploadId, op.named)
    requires !Ascending(op.named) ==> err == InvalidPartOrder
    requires (calm || err == Done) && Ascending(op.named) && op.uploadId !in st.used ==> err == NoSuchUpload
    requires op.id.0 in st.buckets ==> hasKey
    requires hasKey ==> op.id.0 in st.buckets + st.stray
    requires (calm || err == Done) && op.uploadId in st.open ==>
               err == CompletionAnswer(st.acked, st.torn, md5, op.uploadId, op.named,
                                       st.open[op.uploadId] == op.id, hasKey, st.frameSize, max)
    ensures
      var e := Entry(op, calm, Reply(err, [], if err == Done then Some(tag) else None, "", None), false);
      && Right(md5, max, st, e)
      && Step(md5, st, e) ==
         (if err == Done then
            st.(objects := st.objects[op.id := Version(Assembled(st.acked, st.torn, op.uploadId, op.named), tag,
                                                       op.contentType)],
                open := st.open - {op.uploadId})
          else st)
  {
    hide CompletionAnswer, Assembled, CombinedTag, TotalSize, NamedOk, Ascending;
  }

  method ServeComplete(s: Service, op: Op, calm: bool) returns (r: Reply)
    requires s.Valid() && OpOk(op) && op.Complete?
    modifies s, s.meta, s.keys, s.backend
    ensures s.Valid()
    ensures StateOf(s) == Step(s.md5, old(StateOf(s)), Entry(op, calm, r, false))
    ensures Right(s.md5, s.backend.maxObjectSize, old(StateOf(s)), Entry(op, calm, r, false))
  {
    hide *;
    OpMeans(op);
    StateIs(s);
    s.OpenAreUsed();
    s.KeysOfBuckets();
    var err, tag := s.CompleteMultipart(op.id.0, op.id.1, op.uploadId, op.named, op.contentType, op.nonce, op.bufSize,
      calm);
    StateIs(s);
    r := Reply(err, [], if err == Done then Some(tag) else None, "", None);
    assert op.id == (op.id.0, op.id.1);
    CompleteServed(s.md5, s.backend.maxObjectSize, old(StateOf(s)), op, calm, err, tag, op.id.0 in s.keys.keys);
    if err == Done {
      VersionsPut(old(s.contents), old(s.meta.objects), op.id, s.contents[op.id], s.meta.objects[op.id]);
    }
  }

  /** Serves one request. */
  method Serve(s: Service, op: Op, calm: bool) returns (r: Reply, ghost tore: bool)
    requires s.Valid() && OpOk(op)
    modifies s, s.meta, s.keys, s.backend
    ensures s.Valid()
    ensures StateOf(s) == Step(s.md5, old(StateOf(s)), Entry(op, calm, r, tore))
    ensures Right(s.md5, s.backend.maxObjectSize, old(StateOf(s)), Entry(op, calm, r, tore))
  {
    hide *;
    tore := false;
    if op.Put? {
      r := ServePut(s, op, calm);
    } else if op.Get? {
      r := ServeGet(s, op, calm);
    } else if op.GetRange? {
      r := ServeRange(s, op, calm);
    } else if op.Delete? {
      r := ServeDelete(s, op, calm);
    } else if op.List? {
      r := ServeList(s, op, calm);
    } else if op.CreateMultipart? {
      r := ServeCreation(s, op, calm);
    } else if op.Abort? {
      r := ServeAbort(s, op, calm);
    } else if op.UploadPart? {
      r, tore := ServePart(s, op, calm);
    } else if op.Complete? {
      r := ServeComplete(s, op, calm);
    } else {
      r := ServeBucket(s, op, calm);
    }
  }
}
