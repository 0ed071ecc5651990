/**
 * What clients may ask of the store, what they get, and what they must get: a plain state that requests and
 * replies determine, and what it demands of every reply.
 */
module Requests {
  import opened Bytes
  import opened Io
  import opened FrameFormat
  import opened Uploads
  import opened ObjectRows
  import opened ObjectTable
  import opened RollUp
  import opened Listing
  import opened Service
  import RangeHeader
  import Meta = Metadata

  /** A request, with the random values, client data and buffer sizes that go into serving it. */
  datatype Op =
    | CreateBucket(bucket: string, random: Bytes)
    | DeleteBucket(bucket: string)
    | Restart(frameSize: int)
    | Put(id: ObjectId, contentType: string, size: nat, body: Bytes, tail: Tail, nonce: Bytes, bufSize: nat -> nat)
    | Get(id: ObjectId, lost: nat, bufSize: nat -> nat)
    | GetRange(id: ObjectId, header: string, lost: nat)
    | Delete(id: ObjectId)
    | List(bucket: string, prefix: string, delimiter: string, startAfter: string, maxKeys: nat)
    | CreateMultipart(id: ObjectId, uploadId: string)
    | UploadPart(part: PartId, size: nat, body: Bytes, tail: Tail)
    | Complete(id: ObjectId, uploadId: string, named: seq<NamedPart>, contentType: string, nonce: Bytes,
               bufSize: nat -> nat)
    | Abort(uploadId: string)

  /** Random values have their lengths, and every buffer offered to a reader has room for a byte. */
  ghost predicate OpOk(op: Op) {
    match op
    case CreateBucket(_, random) => |random| == 32
    case Put(_, _, _, _, _, nonce, bufSize) => |nonce| == NONCE_LEN && forall k :: bufSize(k) > 0
    case Get(_, _, bufSize) => forall k :: bufSize(k) > 0
    case Complete(_, _, _, _, nonce, bufSize) => |nonce| == NONCE_LEN && forall k :: bufSize(k) > 0
    case _ => true
  }

  /** What the client gets. */
  datatype Reply = Reply(err: S3Err, body: Bytes, etag: Option<Meta.ETag>, contentType: string, page: Option<Page>)

  function Plain(err: S3Err): Reply {
    Reply(err, [], None, "", None)
  }

  const MAX_PARTS := 10000
  const MAX_KEYS := 1000

  function Capped(maxKeys: nat): nat {
    if maxKeys > MAX_KEYS then MAX_KEYS else maxKeys
  }

  /** The page that a listing of these keys shows. */
  ghost predicate IsListed(keys: seq<string>, prefix: string, delimiter: string, startAfter: string, max: nat,
                           page: Page) {
    if max == 0 then page == Page([], [], false, "")
    else
      exists items :: IsPage(prefix, delimiter, Select(keys, prefix, startAfter), max, page, items)
  }

  // --- the plain state that the store refines ---

  /** An object as clients see it. */
  datatype Version = Version(bytes: Bytes, etag: Meta.ETag, contentType: string)

  datatype State = State(
    objects: map<ObjectId, Version>, buckets: set<string>, stray: set<string>, frameSize: int,
    open: map<string, ObjectId>, used: set<string>, acked: map<PartId, Bytes>, torn: map<PartId, Bytes>)

  /**
   * A request that was served: whether it was calm meanwhile, the reply, and the one thing that no reply
   * tells, whether a part whose upload failed has been replaced on disk.
   */
  datatype Entry = Entry(op: Op, calm: bool, reply: Reply, tore: bool)

  /** The version that a successful write makes. */
  function Written(md5: Bytes -> Bytes, st: State, op: Op): Version {
    match op
    case Put(_, contentType, size, body, _, _, _) =>
      var bytes := body[..Min(size, |body|)];
      Version(bytes, Meta.Single(md5(bytes)), contentType)
    case Complete(_, uploadId, named, contentType, _, _) =>
      Version(Assembled(st.acked, st.torn, uploadId, named), CombinedTag(st.acked, md5, uploadId, named), contentType)
    case _ => Version([], Meta.Single([]), "")
  }

  /** What a served request makes of the state. */
  function Step(md5: Bytes -> Bytes, st: State, e: Entry): State {
    var done := e.reply.err == Done;
    match e.op
    case CreateBucket(bucket, _) =>
      st.(buckets := if done then st.buckets + {bucket} else st.buckets,
          stray := if e.calm then st.stray else st.stray + {bucket})
    case DeleteBucket(bucket) =>
      st.(buckets := if done then st.buckets - {bucket} else st.buckets,
          stray := if e.calm then st.stray else st.stray + {bucket})
    case Restart(frameSize) => st.(frameSize := frameSize)
    case Put(id, _, _, _, _, _, _) => if done then st.(objects := st.objects[id := Written(md5, st, e.op)]) else st
    case Delete(id) => if done then st.(objects := st.objects - {id}) else st
    case CreateMultipart(id, uploadId) =>
      if done then
        st.(open := st.open[uploadId := id], used := st.used + {uploadId},
            acked := Without(st.acked, uploadId), torn := Without(st.torn, uploadId))
      else st.(open := st.open - {uploadId})
    case UploadPart(part, _, body, _) =>
      if done then st.(acked := st.acked[part := body], torn := st.torn - {part})
      else if e.tore then st.(torn := st.torn[part := body])
      else st
    case Complete(id, uploadId, _, _, _, _) =>
      if done then st.(objects := st.objects[id := Written(md5, st, e.op)], open := st.open - {uploadId}) else st
    case Abort(uploadId) => st.(open := st.open - {uploadId})
    case _ => st
  }

  // --- what replies must be ---

  /** How a request is answered while it is calm. None: that depends on what went wrong before. */
  function Answer(md5: Bytes -> Bytes, max: int, st: State, op: Op): Option<S3Err> {
    match op
    case CreateBucket(bucket, _) =>
      if bucket in st.buckets then Some(BucketAlreadyOwnedByYou) else if bucket in st.stray then None else Some(Done)
    case DeleteBucket(bucket) =>
      if exists id :: id in st.objects && id.0 == bucket then Some(BucketNotEmpty)
      else if bucket !in st.buckets then Some(NoSuchBucket)
      else Some(Done)
    case Restart(_) => Some(Done)
    case Put(id, _, size, body, _, _, _) =>
      if size > max then Some(EntityTooLarge)
      else if id.0 !in st.buckets then Some(NoSuchBucket)
      else if st.frameSize > MAX_FRAME_SIZE then Some(InternalError)
      else if CiphertextSize(ChosenFrameSize(st.frameSize), size) > max then Some(EntityTooLarge)
      else if size > |body| then Some(InternalError)
      else Some(Done)
    case Get(id, _, _) =>
      if id !in st.objects then Some(NoSuchKey)
      else if st.frameSize > MAX_FRAME_SIZE then Some(InternalError)
      else Some(Done)
    case GetRange(id, header, _) =>
      if id !in st.objects then Some(NoSuchKey)
      else if RangeHeader.ParseRange(header, |st.objects[id].bytes|).None? then Some(InvalidRange)
      else if st.frameSize > MAX_FRAME_SIZE then Some(InternalError)
      else Some(Done)
    case Delete(_) => Some(Done)
    case List(bucket, _, _, _, _) => Some(if bucket in st.buckets then Done else NoSuchBucket)
    case CreateMultipart(id, uploadId) =>
      if id.0 !in st.buckets then Some(NoSuchBucket) else if uploadId in st.used then None else Some(Done)
    case UploadPart(part, size, body, tail) =>
      if !(1 <= part.1 <= MAX_PARTS) then Some(InvalidArgument)
      else if part.0 !in st.used then Some(NoSuchUpload)
      else if part.0 !in st.open then None
      else if size > max then Some(EntityTooLarge)
      else Some(PartAnswer(size, body, tail))
    case Complete(id, uploadId, named, _, _, _) =>
      if !Ascending(named) then Some(InvalidPartOrder)
      else if uploadId !in st.used then Some(NoSuchUpload)
      else if uploadId !in st.open || (id.0 in st.stray && id.0 !in st.buckets) then None
      else
        Some(CompletionAnswer(st.acked, st.torn, md5, uploadId, named, st.open[uploadId] == id, id.0 in st.buckets,
          st.frameSize, max))
    case Abort(uploadId) =>
      if uploadId in st.open then Some(Done) else if uploadId !in st.used then Some(NoSuchUpload) else None
  }

  /** A successful reply's content; a read that fails may have sent a prefix of the object. */
  ghost predicate ContentOk(md5: Bytes -> Bytes, st: State, op: Op, r: Reply) {
    match op
    case Put(id, _, size, body, _, _, _) =>
      r.body == [] &&
      (r.err == Done ==> id.0 in st.buckets && size <= |body| && r.etag == Some(Written(md5, st, op).etag))
    case Get(id, _, _) =>
      && (r.body != [] ==> id in st.objects && r.body <= st.objects[id].bytes)
      && (r.err == Done ==>
            && id in st.objects
            && r == Delivers(st.objects[id]))
      && (r.err == NoSuchKey ==> id !in st.objects)
    case GetRange(id, header, _) =>
      && (r.err == Done ==>
            && id in st.objects
            && var v := st.objects[id];
               var range := RangeHeader.ParseRange(header, |v.bytes|);
               && range.Some? && 0 <= range.value.0 <= range.value.1 < |v.bytes|
               && r == Delivers(v).(body := v.bytes[range.value.0..range.value.1 + 1]))
      && (r.err == NoSuchKey ==> id !in st.objects) && (r.err != Done ==> r.body == [])
    case UploadPart(_, size, body, tail) =>
      r.body == [] && (r.err == Done ==> |body| == size && tail == CleanEnd && r.etag == Some(Meta.Single(md5(body))))
    case Complete(_, uploadId, named, _, _, _) =>
      r.body == [] &&
      (r.err == Done ==>
         && Ascending(named) && NamedOk(st.acked, md5, uploadId, named)
         && |Assembled(st.acked, st.torn, uploadId, named)| == TotalSize(st.acked, uploadId, named)
         && r.etag == Some(CombinedTag(st.acked, md5, uploadId, named)))
    case List(bucket, prefix, delimiter, startAfter, maxKeys) =>
      if r.err != Done then r == Plain(r.err)
      else
        && r.page.Some? && r == Plain(Done).(page := r.page)
        && IsListed(KeysIn(st.objects.Keys, bucket), prefix, delimiter, startAfter, Capped(maxKeys), r.page.value)
    case _ => r == Plain(r.err)
  }

  /** The reply that delivers a version. */
  function Delivers(v: Version): Reply {
    Reply(Done, v.bytes, Some(v.etag), v.contentType, None)
  }

  /**
   * A served request was answered as the state before it demands. What goes wrong meanwhile may turn a success
   * into an error, but never a refusal into a success.
   */
  ghost predicate Right(md5: Bytes -> Bytes, max: int, st: State, e: Entry) {
    && ContentOk(md5, st, e.op, e.reply)
    && (e.calm || e.reply.err == Done ==> var a := Answer(md5, max, st, e.op); a.None? || a == Some(e.reply.err))
    && (e.tore ==> !e.calm && e.op.UploadPart? && e.reply.err != Done)
  }
}
