/**
 * Whole runs of the store behind its request handlers: every reply given to a client, whatever is asked and
 * whatever fails, compared with the state that the requests and replies before it determine.
 */
module Runs {
  import opened Bytes
  import opened Aead
  import opened Io
  import opened FrameFormat
  import opened Uploads
  import opened ObjectRows
  import opened ObjectTable
  import opened RollUp
  import opened Listing
  import opened Service
  import opened Requests
  import opened Handlers
  import KeyOrder
  import RangeHeader
  import Meta = Metadata

  /** The log of a run: requests, weather, replies, and what no reply tells. */
  function Log(ops: seq<Op>, calm: seq<bool>, replies: seq<Reply>, tore: seq<bool>): (log: seq<Entry>)
    requires |ops| == |calm| == |replies| == |tore|
    ensures |log| == |ops|
    ensures forall i :: 0 <= i < |log| ==> log[i] == Entry(ops[i], calm[i], replies[i], tore[i])
  {
    seq(|ops|, i requires 0 <= i < |ops| => Entry(ops[i], calm[i], replies[i], tore[i]))
  }

  /** What a log makes of a state. */
  function After(md5: Bytes -> Bytes, st: State, log: seq<Entry>): State {
    if log == [] then st else Step(md5, After(md5, st, log[..|log| - 1]), log[|log| - 1])
  }

  /** Every reply of the log is right by what the log before it makes of the state. */
  ghost predicate AllRight(md5: Bytes -> Bytes, max: int, st: State, log: seq<Entry>) {
    forall i :: 0 <= i < |log| ==> Right(md5, max, After(md5, st, log[..i]), log[i])
  }

  lemma NothingServed(md5: Bytes -> Bytes, max: int, st: State)
    ensures After(md5, st, []) == st && AllRight(md5, max, st, [])
  {
  }

  lemma OneMoreServed(md5: Bytes -> Bytes, max: int, st: State, log: seq<Entry>, e: Entry)
    requires AllRight(md5, max, st, log) && Right(md5, max, After(md5, st, log), e)
    ensures After(md5, st, log + [e]) == Step(md5, After(md5, st, log), e) && AllRight(md5, max, st, log + [e])
  {
    hide Right, Step;
    var all := log + [e];
    assert all[..|log|] == log;
    forall i | 0 <= i < |all|
      ensures Right(md5, max, After(md5, st, all[..i]), all[i])
    {
      if i < |log| {
        assert all[..i] == log[..i];
      }
    }
  }

  /**
   * Every run: the store's state is what the log makes of the state it started in, and every reply is
   * right by what the log before it makes of it, whatever is asked and whatever fails.
   */
  method Run(s: Service, ops: seq<Op>, calm: seq<bool>) returns (replies: seq<Reply>, ghost tore: seq<bool>)
    requires s.Valid() && |ops| == |calm| && forall i :: 0 <= i < |ops| ==> OpOk(ops[i])
    modifies s, s.meta, s.keys, s.backend
    ensures s.Valid() && |replies| == |tore| == |ops|
    ensures StateOf(s) == After(s.md5, old(StateOf(s)), Log(ops, calm, replies, tore))
    ensures AllRight(s.md5, s.backend.maxObjectSize, old(StateOf(s)), Log(ops, calm, replies, tore))
  {
    hide *;
    replies, tore := [], [];
    ghost var log: seq<Entry> := [];
    NothingServed(s.md5, s.backend.maxObjectSize, StateOf(s));
    for i := 0 to |ops|
      invariant s.Valid() && |replies| == |tore| == |log| == i
      invariant forall j :: 0 <= j < i ==> log[j] == Entry(ops[j], calm[j], replies[j], tore[j])
      invariant StateOf(s) == After(s.md5, old(StateOf(s)), log)
      invariant AllRight(s.md5, s.backend.maxObjectSize, old(StateOf(s)), log)
    {
      var r;
      ghost var t;
      r, t := Serve(s, ops[i], calm[i]);
      OneMoreServed(s.md5, s.backend.maxObjectSize, old(StateOf(s)), log, Entry(ops[i], calm[i], r, t));
      log := log + [Entry(ops[i], calm[i], r, t)];
      replies, tore := replies + [r], tore + [t];
    }
    assert log == Log(ops, calm, replies, tore);
  }

  /** The replies to a run of requests are right, whichever parts the failed uploads among them tore. */
  ghost predicate RightReplies(md5: Bytes -> Bytes, max: int, st: State, ops: seq<Op>, calm: seq<bool>,
                               replies: seq<Reply>) {
    && |replies| == |calm| == |ops|
    && exists tore: seq<bool> :: |tore| == |ops| && AllRight(md5, max, st, Log(ops, calm, replies, tore))
  }

  /** The state of a new store. */
  function Empty(frameSize: int): State {
    State(map[], {}, {}, frameSize, map[], {}, map[], map[])
  }

  /** Every run of a new store. */
  method RunNew(gcm: Bytes -> Aead, md5: Bytes -> Bytes, frameSize: int, max: int, ops: seq<Op>, calm: seq<bool>)
    returns (replies: seq<Reply>)
    requires GcmOk(gcm) && |ops| == |calm| && forall i :: 0 <= i < |ops| ==> OpOk(ops[i])
    ensures RightReplies(md5, max, Empty(frameSize), ops, calm, replies)
  {
    hide Service.Valid, AllRight, After, OpOk, Log;
    var s := new Service(gcm, md5, frameSize, max);
    assert StateOf(s) == Empty(frameSize);
    ghost var tore;
    replies, tore := Run(s, ops, calm);
  }

  // --- what clients read ---

  predicate Writes(e: Entry, id: ObjectId) {
    e.reply.err == Done && (e.op.Put? || e.op.Complete?) && e.op.id == id
  }

  predicate Touches(e: Entry, id: ObjectId) {
    Writes(e, id) || (e.reply.err == Done && e.op.Delete? && e.op.id == id)
  }

  lemma StepOnObjects(md5: Bytes -> Bytes, st: State, e: Entry, id: ObjectId)
    ensures
      var st' := Step(md5, st, e);
      if Writes(e, id) then id in st'.objects && st'.objects[id] == Written(md5, st, e.op)
      else if Touches(e, id) then id !in st'.objects
      else (id in st'.objects <==> id in st.objects) && (id in st.objects ==> st'.objects[id] == st.objects[id])
  {
    hide Written, Without;
  }

  /** Nothing behind entry j, up to entry i, writes or deletes the object. */
  ghost predicate UntouchedSince(log: seq<Entry>, j: int, i: int, id: ObjectId)
    requires -1 <= j && i <= |log|
  {
    forall k :: j < k < i ==> !Touches(log[k], id)
  }

  /** The version that entry j of a log wrote. */
  function WrittenAt(md5: Bytes -> Bytes, st: State, log: seq<Entry>, j: nat): Version
    requires j < |log|
  {
    Written(md5, After(md5, st, log[..j]), log[j].op)
  }

  /** An object is a certain version exactly if the last request that touched it wrote that. */
  lemma {:induction false} LastWriteWins(md5: Bytes -> Bytes, st: State, log: seq<Entry>, id: ObjectId, v: Version)
    ensures
      var objects := After(md5, st, log).objects;
      (id in objects && objects[id] == v) <==>
      || (id in st.objects && st.objects[id] == v && UntouchedSince(log, -1, |log|, id))
      || exists j :: && 0 <= j < |log| && Writes(log[j], id) && WrittenAt(md5, st, log, j) == v
                     && UntouchedSince(log, j, |log|, id)
    decreases |log|
  {
    hide Step, Written, Writes, Touches;
    if log != [] {
      var n := |log| - 1;
      var before, e := log[..n], log[n];
      LastWriteWins(md5, st, before, id, v);
      StepOnObjects(md5, After(md5, st, before), e, id);
      assert forall k :: 0 <= k < n ==> before[k] == log[k] && before[..k] == log[..k];
      WritesTouch(e, id);
      if Touches(e, id) {
        if Writes(e, id) && Written(md5, After(md5, st, before), e.op) == v {
          assert WrittenAt(md5, st, log, n) == v && UntouchedSince(log, n, |log|, id);
        }
      } else {
        assert UntouchedSince(log, -1, |log|, id) == UntouchedSince(before, -1, n, id);
        forall j | 0 <= j < n
          ensures UntouchedSince(log, j, |log|, id) == UntouchedSince(before, j, n, id)
          ensures WrittenAt(md5, st, log, j) == WrittenAt(md5, st, before, j)
        {
        }
      }
    }
  }

  lemma WritesTouch(e: Entry, id: ObjectId)
    ensures Writes(e, id) ==> Touches(e, id)
  {
  }

  lemma RightRead(md5: Bytes -> Bytes, max: int, st: State, e: Entry)
    requires Right(md5, max, st, e) && e.op.Get?
    ensures e.reply.err == Done ==> e.op.id in st.objects && e.reply == Delivers(st.objects[e.op.id])
    ensures e.calm && e.op.id in st.objects && st.frameSize <= MAX_FRAME_SIZE ==> e.reply.err == Done
  {
  }

  /** In a run from an empty store, every successful read delivers the version last written before it. */
  lemma ReadReturnsLastWrite(md5: Bytes -> Bytes, max: int, st: State, log: seq<Entry>, i: nat)
    requires AllRight(md5, max, st, log) && st.objects == map[]
    requires i < |log| && log[i].op.Get? && log[i].reply.err == Done
    ensures exists j ::
              && 0 <= j < i && Writes(log[j], log[i].op.id) && UntouchedSince(log, j, i, log[i].op.id)
              && log[i].reply == Delivers(WrittenAt(md5, st, log, j))
  {
    hide Right, Step, Written, Writes, Touches;
    var before, id := log[..i], log[i].op.id;
    RightRead(md5, max, After(md5, st, before), log[i]);
    var v := After(md5, st, before).objects[id];
    LastWriteWins(md5, st, before, id, v);
    var j :| && 0 <= j < i && Writes(before[j], id) && WrittenAt(md5, st, before, j) == v
             && UntouchedSince(before, j, i, id);
    assert before[..j] == log[..j] && before[j] == log[j];
    assert forall k :: j < k < i ==> before[k] == log[k];
  }

  /** Until the object is written or deleted again, the state holds what entry j wrote. */
  lemma WriteStays(md5: Bytes -> Bytes, st: State, log: seq<Entry>, id: ObjectId, j: nat, i: nat)
    requires j < i <= |log| && Writes(log[j], id) && UntouchedSince(log, j, i, id)
    ensures id in After(md5, st, log[..i]).objects
    ensures After(md5, st, log[..i]).objects[id] == WrittenAt(md5, st, log, j)
  {
    hide Step, Written, Writes, Touches;
    var before, v := log[..i], WrittenAt(md5, st, log, j);
    assert before[..j] == log[..j] && before[j] == log[j];
    assert forall k :: j < k < i ==> before[k] == log[k];
    assert UntouchedSince(before, j, i, id) && WrittenAt(md5, st, before, j) == v;
    LastWriteWins(md5, st, before, id, v);
  }

  /**
   * An acknowledged write is durable: until the object is written or deleted again, every read of it while
   * it is calm delivers what was written. (A frame size that NewCipher refuses makes all reads fail.)
   */
  lemma AcknowledgedWriteIsReadBack(md5: Bytes -> Bytes, max: int, st: State, log: seq<Entry>, id: ObjectId, j: nat,
                                    i: nat)
    requires AllRight(md5, max, st, log)
    requires j < i < |log| && Writes(log[j], id) && UntouchedSince(log, j, i, id)
    requires log[i].op.Get? && log[i].op.id == id && log[i].calm
    requires After(md5, st, log[..i]).frameSize <= MAX_FRAME_SIZE
    ensures log[i].reply == Delivers(WrittenAt(md5, st, log, j))
    ensures log[j].op.Put? ==>
              var op := log[j].op;
              && op.size <= |op.body|
              && log[i].reply == Reply(Done, op.body[..op.size], Some(Meta.Single(md5(op.body[..op.size]))),
                                       op.contentType, None)
  {
    hide Right, Step, Written, Writes, Touches, UntouchedSince;
    WriteStays(md5, st, log, id, j, i);
    RightRead(md5, max, After(md5, st, log[..i]), log[i]);
    if log[j].op.Put? {
      assert Right(md5, max, After(md5, st, log[..j]), log[j]);
      WritesMeans(log[j], id);
      PutMeans(md5, max, After(md5, st, log[..j]), log[j]);
    }
  }

  lemma WritesMeans(e: Entry, id: ObjectId)
    ensures Writes(e, id) ==> e.reply.err == Done && (e.op.Put? || e.op.Complete?)
  {
  }

  lemma PutMeans(md5: Bytes -> Bytes, max: int, st: State, e: Entry)
    requires Right(md5, max, st, e) && e.op.Put? && e.reply.err == Done
    ensures
      var op := e.op;
      && op.size <= |op.body|
      && Written(md5, st, op) ==
         Version(op.body[..op.size], Meta.Single(md5(op.body[..op.size])), op.contentType)
  {
    hide CiphertextSize, ChosenFrameSize;
  }

  /** And every read of a range that its header selects from it delivers just that. */
  lemma AcknowledgedWriteIsReadInParts(md5: Bytes -> Bytes, max: int, st: State, log: seq<Entry>, id: ObjectId, j: nat,
                                       i: nat)
    requires AllRight(md5, max, st, log)
    requires j < i < |log| && Writes(log[j], id) && UntouchedSince(log, j, i, id)
    requires log[i].op.GetRange? && log[i].op.id == id && log[i].calm
    requires After(md5, st, log[..i]).frameSize <= MAX_FRAME_SIZE
    requires RangeHeader.ParseRange(log[i].op.header, |WrittenAt(md5, st, log, j).bytes|).Some?
    ensures
      var v := WrittenAt(md5, st, log, j);
      var range := RangeHeader.ParseRange(log[i].op.header, |v.bytes|).value;
      && 0 <= range.0 <= range.1 < |v.bytes|
      && log[i].reply == Delivers(v).(body := v.bytes[range.0..range.1 + 1])
  {
    hide Step, Written, Writes, Touches, UntouchedSince, WrittenAt, After, RangeHeader.ParseRange;
    WriteStays(md5, st, log, id, j, i);
    assert Right(md5, max, After(md5, st, log[..i]), log[i]);
  }

  // --- when requests succeed while it is calm ---

  /** Buckets: made exactly if they are not there, removed exactly if they are there and empty. */
  lemma CalmBuckets(md5: Bytes -> Bytes, max: int, st: State, e: Entry)
    requires Right(md5, max, st, e) && e.calm
    ensures e.op.CreateBucket? && e.op.bucket in st.buckets ==> e.reply.err == BucketAlreadyOwnedByYou
    ensures e.op.CreateBucket? && e.op.bucket !in st.buckets && e.op.bucket !in st.stray ==> e.reply.err == Done
    ensures
      e.op.DeleteBucket? ==>
        (e.reply.err == Done <==>
         e.op.bucket in st.buckets && forall id :: id in st.objects ==> id.0 != e.op.bucket)
  {
    hide ContentOk;
  }

  /** Objects: read exactly if they are there, always removed, listed exactly if the bucket is there. */
  lemma CalmObjects(md5: Bytes -> Bytes, max: int, st: State, e: Entry)
    requires Right(md5, max, st, e) && e.calm && st.frameSize <= 0x4000_0000
    ensures e.op.Get? ==> e.reply.err == if e.op.id in st.objects then Done else NoSuchKey
    ensures e.op.Delete? ==> e.reply.err == Done
    ensures e.op.List? ==> e.reply.err == if e.op.bucket in st.buckets then Done else NoSuchBucket
  {
    hide ContentOk;
  }

  /** Uploads: begun exactly if the bucket is there, and given up if they are open. */
  lemma CalmUploads(md5: Bytes -> Bytes, max: int, st: State, e: Entry)
    requires Right(md5, max, st, e) && e.calm
    ensures
      e.op.CreateMultipart? && e.op.uploadId !in st.used ==>
        e.reply.err == if e.op.id.0 in st.buckets then Done else NoSuchBucket
    ensures e.op.Abort? && e.op.uploadId in st.open ==> e.reply.err == Done
    ensures e.op.Abort? && e.op.uploadId !in st.open && e.op.uploadId !in st.used ==> e.reply.err == NoSuchUpload
  {
    hide ContentOk;
  }

  /**
   * An open upload to a bucket that is there, none of whose parts is torn, within the ceiling: completed exactly
   * if the parts are named in ascending order, each acknowledged with the ETag named.
   */
  lemma CalmCompletion(md5: Bytes -> Bytes, max: int, st: State, e: Entry)
    requires Right(md5, max, st, e) && e.calm && e.op.Complete? && st.frameSize <= 0x4000_0000
    requires e.op.uploadId in st.used && e.op.uploadId in st.open && st.open[e.op.uploadId] == e.op.id
    requires e.op.id.0 in st.buckets && Intact(st.torn, e.op.uploadId, e.op.named)
    requires CiphertextSize(ChosenFrameSize(st.frameSize), TotalSize(st.acked, e.op.uploadId, e.op.named)) <= max
    ensures
      e.reply.err == Done <==>
      && (forall k, l :: 0 <= k < l < |e.op.named| ==> e.op.named[k].number < e.op.named[l].number)
      && (forall k :: 0 <= k < |e.op.named| ==>
            var p := (e.op.uploadId, e.op.named[k].number);
            p in st.acked && e.op.named[k].tag == Some(md5(st.acked[p])))
  {
    AscendingMeans(e.op.named);
    IntactIsAcknowledged(st.acked, st.torn, e.op.uploadId, e.op.named);
    hide ContentOk, Ascending, Intact, Assembled, Concat, AckedPieces, DiskPieces, CiphertextSize, ChosenFrameSize;
  }

  // --- what listings show ---

  /** In a run from an empty store, an object is there exactly if it was written and not touched since. */
  lemma StoredIffWritten(md5: Bytes -> Bytes, st: State, log: seq<Entry>, id: ObjectId)
    requires st.objects == map[]
    ensures id in After(md5, st, log).objects <==>
            exists j :: 0 <= j < |log| && Writes(log[j], id) && UntouchedSince(log, j, |log|, id)
  {
    hide After, Writes, UntouchedSince, WrittenAt;
    var objects := After(md5, st, log).objects;
    if id in objects {
      LastWriteWins(md5, st, log, id, objects[id]);
    }
    if j :| 0 <= j < |log| && Writes(log[j], id) && UntouchedSince(log, j, |log|, id) {
      LastWriteWins(md5, st, log, id, WrittenAt(md5, st, log, j));
    }
  }

  /** What a listing asks for, as far as its page goes. */
  predicate InScope(op: Op, page: Page, k: string)
    requires op.List?
  {
    && KeyOrder.Less(op.startAfter, k) && Matches(k, op.prefix)
    && (page.truncated ==> !KeyOrder.Less(page.nextToken, k))
  }

  lemma ListedIsPage(md5: Bytes -> Bytes, max: int, st: State, e: Entry)
    requires Right(md5, max, st, e) && e.op.List? && e.reply.err == Done
    ensures e.reply.page.Some?
    ensures IsListed(KeysIn(st.objects.Keys, e.op.bucket), e.op.prefix, e.op.delimiter, e.op.startAfter,
                     Capped(e.op.maxKeys), e.reply.page.value)
  {
    hide IsListed, KeysIn;
  }

  /** A page shows its keys in order, at most as many items as asked for and 1000, and as many if it is truncated. */
  lemma ListedInOrder(md5: Bytes -> Bytes, max: int, st: State, e: Entry)
    requires Right(md5, max, st, e) && e.op.List? && e.reply.err == Done
    ensures e.reply.page.Some?
    ensures
      var page := e.reply.page.value;
      var wanted := if e.op.maxKeys < 1000 then e.op.maxKeys else 1000;
      && KeyOrder.Ascending(page.contents)
      && |page.contents| + |page.commonPrefixes| <= wanted
      && (page.truncated ==> |page.contents| + |page.commonPrefixes| == wanted)
  {
    ListedIsPage(md5, max, st, e);
    hide Right, Matches, IsPage, Select, KeysIn;
    var op, page := e.op, e.reply.page.value;
    var keys := KeysIn(st.objects.Keys, op.bucket);
    if op.maxKeys > 0 {
      var rows := Select(keys, op.prefix, op.startAfter);
      var items :| IsPage(op.prefix, op.delimiter, rows, Capped(op.maxKeys), page, items);
      PageIsFullOrLast(op.prefix, op.delimiter, rows, Capped(op.maxKeys), page, items);
      PageAscends(keys, op.prefix, op.delimiter, op.startAfter, Capped(op.maxKeys), page, items);
    }
  }

  /**
   * A page that a listing shows: of the keys stored in the bucket and in its scope, those that no common
   * prefix covers, and the common prefixes of the others.
   */
  lemma ListedAreStored(md5: Bytes -> Bytes, max: int, st: State, e: Entry)
    requires Right(md5, max, st, e) && e.op.List? && e.reply.err == Done && e.op.maxKeys > 0
    ensures e.reply.page.Some?
    ensures
      var op, page := e.op, e.reply.page.value;
      && (forall k :: k in page.contents <==>
            && (op.bucket, k) in st.objects && InScope(op, page, k)
            && !Covered(op.prefix, op.delimiter, k))
      && (forall p :: p in page.commonPrefixes <==>
            exists k :: && (op.bucket, k) in st.objects && InScope(op, page, k)
                        && RollsUpTo(op.prefix, op.delimiter, k, p))
  {
    ListedIsPage(md5, max, st, e);
    hide Right, Covered, RollsUpTo, Matches, KeyOrder.Less, IsPage, Select;
    var op, page := e.op, e.reply.page.value;
    var keys := KeysIn(st.objects.Keys, op.bucket);
    var rows := Select(keys, op.prefix, op.startAfter);
    var items :| IsPage(op.prefix, op.delimiter, rows, Capped(op.maxKeys), page, items);
    PageMembers(keys, op.prefix, op.delimiter, op.startAfter, Capped(op.maxKeys), page, items);
    hide KeysIn;
    forall k
      ensures GoneThrough(keys, op.prefix, op.startAfter, page, k) <==>
              (op.bucket, k) in st.objects && InScope(op, page, k)
    {
    }
    hide GoneThrough, InScope;
  }

  /**
   * In a run from an empty store, a successful listing shows as a key, within its scope, exactly what was last
   * touched by a successful write and is covered by no common prefix.
   */
  lemma ListedIffWritten(md5: Bytes -> Bytes, max: int, st: State, log: seq<Entry>, i: nat, k: string)
    requires AllRight(md5, max, st, log) && st.objects == map[]
    requires i < |log| && log[i].op.List? && log[i].reply.err == Done && log[i].op.maxKeys > 0
    ensures log[i].reply.page.Some?
    ensures
      var op, page := log[i].op, log[i].reply.page.value;
      k in page.contents <==>
      && InScope(op, page, k) && !Covered(op.prefix, op.delimiter, k)
      && exists j :: 0 <= j < i && Writes(log[j], (op.bucket, k)) && UntouchedSince(log, j, i, (op.bucket, k))
  {
    hide Right, After, Writes, Touches, InScope, Covered, RollsUpTo;
    var before, id := log[..i], (log[i].op.bucket, k);
    assert Right(md5, max, After(md5, st, before), log[i]);
    ListedAreStored(md5, max, After(md5, st, before), log[i]);
    StoredIffWritten(md5, st, before, id);
    forall j | 0 <= j < i
      ensures before[j] == log[j] && UntouchedSince(before, j, i, id) == UntouchedSince(log, j, i, id)
    {
    }
  }

  // --- what multipart uploads come to ---

  predicate Acknowledges(e: Entry, p: PartId) {
    e.op.UploadPart? && e.op.part == p && e.reply.err == Done
  }

  /** A failed upload of the part that replaced it on disk. */
  predicate Tears(e: Entry, p: PartId) {
    e.op.UploadPart? && e.op.part == p && e.reply.err != Done && e.tore
  }

  /** The part's upload was created, so that it has no parts. */
  predicate Begins(e: Entry, p: PartId) {
    e.op.CreateMultipart? && e.op.uploadId == p.0 && e.reply.err == Done
  }

  lemma StepOnParts(md5: Bytes -> Bytes, st: State, e: Entry, p: PartId)
    ensures
      var st' := Step(md5, st, e);
      && (if Acknowledges(e, p) then p in st'.acked && st'.acked[p] == e.op.body
          else if Begins(e, p) then p !in st'.acked
          else (p in st'.acked <==> p in st.acked) && (p in st.acked ==> st'.acked[p] == st.acked[p]))
      && (if Tears(e, p) then p in st'.torn && st'.torn[p] == e.op.body
          else if Acknowledges(e, p) || Begins(e, p) then p !in st'.torn
          else (p in st'.torn <==> p in st.torn) && (p in st.torn ==> st'.torn[p] == st.torn[p]))
  {
    hide Written;
  }

  /** Behind entry j the part's upload was not created anew, nor the part uploaded. */
  ghost predicate NoUploadSince(log: seq<Entry>, j: nat, p: PartId) {
    forall k :: j < k < |log| ==> !Acknowledges(log[k], p) && !Begins(log[k], p)
  }

  /** The acknowledged bytes of a part are those of its last successful upload. */
  lemma {:induction false} AckedIsLastUpload(md5: Bytes -> Bytes, st: State, log: seq<Entry>, p: PartId, b: Bytes)
    requires st.acked == map[]
    ensures
      var acked := After(md5, st, log).acked;
      (p in acked && acked[p] == b) <==>
      exists j :: 0 <= j < |log| && Acknowledges(log[j], p) && log[j].op.body == b && NoUploadSince(log, j, p)
    decreases |log|
  {
    hide Step, Begins;
    if log != [] {
      var n := |log| - 1;
      var before, e := log[..n], log[n];
      AckedIsLastUpload(md5, st, before, p, b);
      StepOnParts(md5, After(md5, st, before), e, p);
      assert forall k :: 0 <= k < n ==> before[k] == log[k];
      if Acknowledges(e, p) || Begins(e, p) {
        if Acknowledges(e, p) && e.op.body == b {
          assert NoUploadSince(log, n, p);
        }
      } else {
        forall j | 0 <= j < n
          ensures NoUploadSince(log, j, p) == NoUploadSince(before, j, p)
        {
        }
      }
    }
  }

  /** A part is torn, with certain bytes on disk, exactly if the last event about it was a failed upload of these. */
  lemma {:induction false} TornIsLastFailure(md5: Bytes -> Bytes, st: State, log: seq<Entry>, p: PartId, b: Bytes)
    requires st.torn == map[]
    ensures
      var torn := After(md5, st, log).torn;
      (p in torn && torn[p] == b) <==>
      exists j :: && 0 <= j < |log| && Tears(log[j], p) && log[j].op.body == b && NoUploadSince(log, j, p)
                  && forall k :: j < k < |log| ==> !Tears(log[k], p)
    decreases |log|
  {
    hide Step, Begins;
    if log != [] {
      var n := |log| - 1;
      var before, e := log[..n], log[n];
      TornIsLastFailure(md5, st, before, p, b);
      StepOnParts(md5, After(md5, st, before), e, p);
      assert forall k :: 0 <= k < n ==> before[k] == log[k];
      if Tears(e, p) {
        assert NoUploadSince(log, n, p);
      } else if !Acknowledges(e, p) && !Begins(e, p) {
        forall j | 0 <= j < n
          ensures NoUploadSince(log, j, p) == NoUploadSince(before, j, p)
          ensures (forall k :: j < k < |log| ==> !Tears(log[k], p)) == (forall k :: j < k < n ==> !Tears(before[k], p))
        {
        }
      }
    }
  }

  /** Parts named twice, or out of order, are refused; so are part numbers outside 1 to 10000. */
  lemma DisorderIsRefused(md5: Bytes -> Bytes, max: int, st: State, e: Entry)
    requires Right(md5, max, st, e)
    ensures
      e.op.Complete? &&
      (exists k, l :: 0 <= k < l < |e.op.named| && e.op.named[k].number >= e.op.named[l].number) ==>
        e.reply.err != Done && (e.calm ==> e.reply.err == InvalidPartOrder)
    ensures
      e.op.UploadPart? && !(1 <= e.op.part.1 <= 10000) ==>
        e.reply.err != Done && (e.calm ==> e.reply.err == InvalidArgument)
  {
    hide ContentOk, Ascending, PartAnswer, CompletionAnswer;
    if e.op.Complete? {
      AscendingMeans(e.op.named);
    }
  }

  /** A part numbered 1 to 10000, of an open upload and not too large, is taken exactly with its declared size. */
  lemma GoodPartIsTaken(md5: Bytes -> Bytes, max: int, st: State, e: Entry)
    requires Right(md5, max, st, e) && e.op.UploadPart? && e.calm
    requires 1 <= e.op.part.1 <= 10000 && e.op.part.0 in st.used && e.op.part.0 in st.open && e.op.size <= max
    ensures e.reply.err == Done <==> |e.op.body| == e.op.size && e.op.tail == CleanEnd
    ensures e.reply.err == Done ==> e.reply.etag == Some(Meta.Single(md5(e.op.body)))
  {
  }

  /**
   * A successfully completed upload: strictly ascending parts, each acknowledged with the ETag named. The
   * object is what was on disk for them, cut to their total size; it is the concatenation of what was
   * acknowledged exactly if that is a prefix of what was on disk, and in any case if no part is torn.
   */
  lemma CompletedUpload(md5: Bytes -> Bytes, max: int, st: State, log: seq<Entry>, i: nat)
    requires AllRight(md5, max, st, log) && i < |log| && log[i].op.Complete? && log[i].reply.err == Done
    ensures
      var op, before, v := log[i].op, After(md5, st, log[..i]), WrittenAt(md5, st, log, i);
      var pieces := Concat(AckedPieces(before.acked, op.uploadId, op.named));
      && (forall k, l :: 0 <= k < l < |op.named| ==> op.named[k].number < op.named[l].number)
      && NamedOk(before.acked, md5, op.uploadId, op.named)
      && |v.bytes| == |pieces| && v.bytes <= Concat(DiskPieces(before.acked, before.torn, op.uploadId, op.named))
      && log[i].reply.etag == Some(v.etag)
      && (v.bytes == pieces <==> pieces <= Concat(DiskPieces(before.acked, before.torn, op.uploadId, op.named)))
      && (Intact(before.torn, op.uploadId, op.named) ==> v.bytes == pieces)
  {
    hide Step, After, Ascending, NamedOk, Intact, Concat, AckedPieces, DiskPieces, CombinedTag, Answer;
    var op, before := log[i].op, After(md5, st, log[..i]);
    assert Right(md5, max, before, log[i]);
    AscendingMeans(op.named);
    TornPartsAreServed(before.acked, before.torn, op.uploadId, op.named);
    if Intact(before.torn, op.uploadId, op.named) {
      IntactIsAcknowledged(before.acked, before.torn, op.uploadId, op.named);
    }
  }
}
