/**
 * Chunk-signed uploads of whole objects: the reader that takes the framing off, in front of the store. What
 * is stored is what one sender signed.
 */
module SignedPut {
  import opened Bytes
  import opened Io
  import opened ChunkFormat
  import opened ChunkReading
  import opened ChunkAuthenticity
  import opened ObjectRows
  import opened Uploads
  import opened Service
  import opened Requests
  import opened Handlers
  import opened Runs
  import FrameFormat

  /** A request body as it arrives, and what its chunks' signatures are checked against. */
  datatype Chunked = Chunked(wire: string, tail: Tail, signer: Signer, at: Stamp, seed: string)

  function Unwrapped(c: Chunked): Decoded {
    Decode(c.signer, c.at, c.wire, c.seed, c.tail)
  }

  /** A byte string as bytes. */
  function Octets(s: string): (b: Bytes)
    ensures |b| == |s|
    ensures forall i :: 0 <= i < |s| && s[i] as int < 256 ==> b[i] as int == s[i] as int
  {
    OctetsAreBytes(s);
    seq(|s|, i requires 0 <= i < |s| => Octet(s[i]))
  }

  function Octet(c: char): Byte {
    (c as int % 256) as Byte
  }

  lemma OctetsAreBytes(s: string)
    ensures forall i :: 0 <= i < |s| && s[i] as int < 256 ==> Octet(s[i]) as int == s[i] as int
  {
    forall i | 0 <= i < |s| && s[i] as int < 256
      ensures Octet(s[i]) as int == s[i] as int
    {
      ByteRoundTrip(s[i] as int);
    }
  }

  /** The stored bytes are the characters' codes, one by one; s is a byte string wherever they are. */
  ghost predicate SameOctets(b: Bytes, s: string) {
    |b| <= |s| && forall i :: 0 <= i < |b| && s[i] as int < 256 ==> b[i] as int == s[i] as int
  }

  lemma OctetsAgree(s: string, n: nat)
    requires n <= |s|
    ensures SameOctets(Octets(s)[..n], s)
  {
  }

  /** An instance: "ABC" is stored as 41 42 43. */
  lemma OctetsExample()
    ensures Octets("ABC") == [0x41, 0x42, 0x43]
  {
    assert "ABC"[0] as int == 0x41 && "ABC"[1] as int == 0x42 && "ABC"[2] as int == 0x43;
  }

  lemma OctetsOfPrefix(s: string, t: string, n: nat)
    requires s <= t && n <= |s|
    ensures Octets(s)[..n] == Octets(t)[..n]
  {
  }

  /** How the chunk reader ends, as far as the store can tell: every error but the end of file is just one. */
  function TailOf(e: Err): Tail {
    match e
    case Eof => CleanEnd
    case SourceErr(code) => Broken(code)
    case _ => Broken(0)
  }

  /** The request for an object that the chunk reader makes of it. */
  function PutOf(id: ObjectId, contentType: string, size: nat, c: Chunked, nonce: Bytes, bufSize: nat -> nat): Op {
    Put(id, contentType, size, Octets(Flat(Unwrapped(c).chunks)), TailOf(Unwrapped(c).err), nonce, bufSize)
  }

  /** Serves a chunk-signed upload, through the chunk reader. */
  method ServeSignedPut(s: Service, id: ObjectId, contentType: string, size: nat, c: Chunked, nonce: Bytes,
                        bufSize: nat -> nat, readSize: nat -> nat, calm: bool) returns (r: Reply)
    requires s.Valid() && OpOk(PutOf(id, contentType, size, c, nonce, bufSize)) && forall k :: readSize(k) > 0
    modifies s, s.meta, s.keys, s.backend
    ensures s.Valid()
    ensures
      var e := Entry(PutOf(id, contentType, size, c, nonce, bufSize), calm, r, false);
      && StateOf(s) == Requests.Step(s.md5, old(StateOf(s)), e)
      && Right(s.md5, s.backend.maxObjectSize, old(StateOf(s)), e)
  {
    hide *;
    PutOfMeans(id, contentType, size, c, nonce, bufSize);
    var br := new Source<char>(c.wire, c.tail);
    AtStart(br);
    var reader := new SignedChunkedReader(br, c.signer, c.at, c.seed);
    var got, e := ReadAll(reader, readSize);
    r := ServePut(s, Put(id, contentType, size, Octets(got), TailOf(e), nonce, bufSize), calm);
  }

  lemma PutOfMeans(id: ObjectId, contentType: string, size: nat, c: Chunked, nonce: Bytes, bufSize: nat -> nat)
    ensures
      var d := Decode(c.signer, c.at, c.wire, c.seed, c.tail);
      PutOf(id, contentType, size, c, nonce, bufSize) ==
      Put(id, contentType, size, Octets(Flat(d.chunks)), TailOf(d.err), nonce, bufSize)
  {
    hide Decode, Flat, Octets, TailOf;
  }

  lemma StoredPut(md5: Bytes -> Bytes, max: int, st: State, e: Entry)
    requires Right(md5, max, st, e) && e.op.Put? && e.reply.err == Done
    ensures e.op.size <= |e.op.body| && Written(md5, st, e.op).bytes == e.op.body[..e.op.size]
  {
  }

  /** The upload k was signed with that time and scope, and with that seed. */
  predicate SeededBy(c: Chunked, uploads: seq<Upload>, k: nat) {
    k < |uploads| && c.at == uploads[k].at && c.seed == Tag(c.signer, uploads[k], 0)
  }

  /**
   * Whatever arrives in place of a chunk-signed upload: if it is acknowledged, what is stored are the first
   * `size` bytes of what one sender signed, behind that very request.
   */
  lemma SignedPutStoresSigned(md5: Bytes -> Bytes, max: int, st: State, e: Entry, c: Chunked, uploads: seq<Upload>,
                              k: nat) returns (l: nat)
    requires Right(md5, max, st, e) && e.op.Put? && e.reply.err == Done
    requires e.op == PutOf(e.op.id, e.op.contentType, e.op.size, c, e.op.nonce, e.op.bufSize)
    requires Ideal(c.signer) && Family(uploads) && Unforged(c.signer, uploads, c.wire) && SeededBy(c, uploads, k)
    ensures l < |uploads| && SameRequest(uploads[l], uploads[k]) && e.op.size <= |Flat(uploads[l].chunks)|
    ensures Written(md5, st, e.op).bytes == Octets(Flat(uploads[l].chunks))[..e.op.size]
    ensures SameOctets(Written(md5, st, e.op).bytes, Flat(uploads[l].chunks))
    ensures |Written(md5, st, e.op).bytes| == e.op.size
  {
    hide Right, Ideal, Family, Unforged, Decode, Flat, Octets, Written, Tag, SameRequest;
    StoredPut(md5, max, st, e);
    l := DeliveredIsSignedPrefix(c.signer, uploads, k, c.wire, c.tail);
    var d := Unwrapped(c);
    assert e.op.body == Octets(Flat(d.chunks));
    OctetsOfPrefix(Flat(d.chunks), Flat(uploads[l].chunks), e.op.size);
    OctetsAgree(Flat(uploads[l].chunks), e.op.size);
  }

  /** And that is what every full read delivers while it is calm, until the object is touched again. */
  lemma SignedPutIsReadBack(md5: Bytes -> Bytes, max: int, st: State, log: seq<Entry>, id: ObjectId, j: nat, i: nat,
                            c: Chunked, uploads: seq<Upload>, k: nat) returns (l: nat)
    requires AllRight(md5, max, st, log)
    requires j < i < |log| && Writes(log[j], id) && log[j].op.Put? && UntouchedSince(log, j, i, id)
    requires var op := log[j].op; op == PutOf(op.id, op.contentType, op.size, c, op.nonce, op.bufSize)
    requires Ideal(c.signer) && Family(uploads) && Unforged(c.signer, uploads, c.wire) && SeededBy(c, uploads, k)
    requires log[i].op.Get? && log[i].op.id == id && log[i].calm
    requires After(md5, st, log[..i]).frameSize <= FrameFormat.MAX_FRAME_SIZE
    ensures l < |uploads| && SameRequest(uploads[l], uploads[k]) && log[j].op.size <= |Flat(uploads[l].chunks)|
    ensures log[i].reply.err == Done
    ensures log[i].reply.body == Octets(Flat(uploads[l].chunks))[..log[j].op.size]
    ensures |log[i].reply.body| == log[j].op.size && SameOctets(log[i].reply.body, Flat(uploads[l].chunks))
  {
    hide Right, Ideal, Family, Unforged, Decode, Flat, Octets, Written, Tag, SameRequest, After, UntouchedSince,
      SeededBy, PutOf;
    assert Right(md5, max, After(md5, st, log[..j]), log[j]);
    l := SignedPutStoresSigned(md5, max, After(md5, st, log[..j]), log[j], c, uploads, k);
    AcknowledgedWriteIsReadBack(md5, max, st, log, id, j, i);
  }

  /**
   * A genuine body is taken: with chunks printed and signed as a sender does, in a bucket that exists, with
   * the right size, and while it is calm, the object stored is what the chunks hold.
   */
  lemma GenuineBodyIsStored(md5: Bytes -> Bytes, max: int, st: State, e: Entry, c: Chunked, chunks: seq<string>,
                            trailer: string)
    requires Right(md5, max, st, e) && e.op.Put? && e.calm
    requires e.op == PutOf(e.op.id, e.op.contentType, e.op.size, c, e.op.nonce, e.op.bufSize)
    requires InHex(c.signer) && Printable(chunks)
    requires c.wire == PrintChunks(c.signer, c.at, chunks + [""], c.seed) + trailer
    requires e.op.size == |Flat(chunks)| && e.op.id.0 in st.buckets
    requires st.frameSize <= FrameFormat.MAX_FRAME_SIZE && e.op.size <= max
    requires FrameFormat.CiphertextSize(FrameFormat.ChosenFrameSize(st.frameSize), e.op.size) <= max
    ensures e.reply.err == Done && Written(md5, st, e.op).bytes == Octets(Flat(chunks))
    ensures SameOctets(Written(md5, st, e.op).bytes, Flat(chunks))
  {
    WholeBodyRoundTrip(c.signer, c.at, chunks, c.seed, trailer, c.tail);
    hide Decode, PrintChunks, Octets, Flat, Right, Written, FrameFormat.CiphertextSize, FrameFormat.ChosenFrameSize;
    CalmPut(md5, max, st, e);
    StoredPut(md5, max, st, e);
    OctetsAgree(Flat(chunks), |Flat(chunks)|);
    var body := Octets(Flat(chunks));
    assert e.op.body == body && body[..|body|] == body;
  }

  lemma CalmPut(md5: Bytes -> Bytes, max: int, st: State, e: Entry)
    requires Right(md5, max, st, e) && e.op.Put? && e.calm
    requires e.op.size <= |e.op.body| && e.op.id.0 in st.buckets
    requires st.frameSize <= FrameFormat.MAX_FRAME_SIZE && e.op.size <= max
    requires FrameFormat.CiphertextSize(FrameFormat.ChosenFrameSize(st.frameSize), e.op.size) <= max
    ensures e.reply.err == Done
  {
    hide ContentOk, FrameFormat.CiphertextSize, FrameFormat.ChosenFrameSize;
  }

  // --- parts ---

  /** The request for a part that the chunk reader makes of it. */
  function PartOf(part: PartId, size: nat, c: Chunked): Op {
    UploadPart(part, size, Octets(Flat(Unwrapped(c).chunks)), TailOf(Unwrapped(c).err))
  }

  lemma PartOfMeans(part: PartId, size: nat, c: Chunked)
    ensures
      var d := Decode(c.signer, c.at, c.wire, c.seed, c.tail);
      PartOf(part, size, c) == UploadPart(part, size, Octets(Flat(d.chunks)), TailOf(d.err))
  {
    hide Decode, Flat, Octets, TailOf;
  }

  /** Serves a chunk-signed upload of a part. */
  method ServeSignedPart(s: Service, part: PartId, size: nat, c: Chunked, readSize: nat -> nat, calm: bool)
    returns (r: Reply, ghost tore: bool)
    requires s.Valid() && forall k :: readSize(k) > 0
    modifies s, s.meta, s.keys, s.backend
    ensures s.Valid()
    ensures
      var e := Entry(PartOf(part, size, c), calm, r, tore);
      && StateOf(s) == Requests.Step(s.md5, old(StateOf(s)), e)
      && Right(s.md5, s.backend.maxObjectSize, old(StateOf(s)), e)
  {
    hide *;
    PartOfMeans(part, size, c);
    var br := new Source<char>(c.wire, c.tail);
    AtStart(br);
    var reader := new SignedChunkedReader(br, c.signer, c.at, c.seed);
    var got, e := ReadAll(reader, readSize);
    r, tore := ServePart(s, UploadPart(part, size, Octets(got), TailOf(e)), calm);
  }

  /**
   * An acknowledged chunk-signed part was read to its end without any error, a wrong signature included; its
   * bytes are a beginning, of the declared size, of what one sender signed behind that request.
   */
  lemma SignedPartIsSigned(md5: Bytes -> Bytes, max: int, st: State, e: Entry, c: Chunked, uploads: seq<Upload>,
                           k: nat) returns (l: nat)
    requires Right(md5, max, st, e) && e.op.UploadPart? && e.reply.err == Done
    requires e.op == PartOf(e.op.part, e.op.size, c)
    requires Ideal(c.signer) && Family(uploads) && Unforged(c.signer, uploads, c.wire) && SeededBy(c, uploads, k)
    ensures Unwrapped(c).err == Eof
    ensures l < |uploads| && SameRequest(uploads[l], uploads[k])
    ensures Flat(Unwrapped(c).chunks) <= Flat(uploads[l].chunks)
    ensures |e.op.body| == e.op.size && SameOctets(e.op.body, Flat(uploads[l].chunks))
  {
    hide Ideal, Family, Unforged, Decode, Flat, Octets, Tag, SameRequest, Answer, Right;
    TakenPart(md5, max, st, e);
    l := DeliveredIsSignedPrefix(c.signer, uploads, k, c.wire, c.tail);
    var d := Unwrapped(c);
    assert e.op.body == Octets(Flat(d.chunks));
    OctetsOfPrefix(Flat(d.chunks), Flat(uploads[l].chunks), |e.op.body|);
    OctetsAgree(Flat(uploads[l].chunks), |e.op.body|);
    assert e.op.body == Octets(Flat(d.chunks))[..|e.op.body|];
  }

  lemma TakenPart(md5: Bytes -> Bytes, max: int, st: State, e: Entry)
    requires Right(md5, max, st, e) && e.op.UploadPart? && e.reply.err == Done
    ensures |e.op.body| == e.op.size && e.op.tail == CleanEnd
  {
    hide Answer;
  }

  /** A genuine part is taken: printed and signed as a sender does, with the right size, while it is calm. */
  lemma GenuinePartIsTaken(md5: Bytes -> Bytes, max: int, st: State, e: Entry, c: Chunked, chunks: seq<string>,
                           trailer: string)
    requires Right(md5, max, st, e) && e.op.UploadPart? && e.calm && e.op == PartOf(e.op.part, e.op.size, c)
    requires InHex(c.signer) && Printable(chunks)
    requires c.wire == PrintChunks(c.signer, c.at, chunks + [""], c.seed) + trailer && e.op.size == |Flat(chunks)|
    requires 1 <= e.op.part.1 <= 10000 && e.op.part.0 in st.used && e.op.part.0 in st.open && e.op.size <= max
    ensures e.reply.err == Done && e.op.body == Octets(Flat(chunks)) && SameOctets(e.op.body, Flat(chunks))
  {
    WholeBodyRoundTrip(c.signer, c.at, chunks, c.seed, trailer, c.tail);
    hide Decode, PrintChunks, Octets, Flat, Right;
    GoodPartIsTaken(md5, max, st, e);
    OctetsAgree(Flat(chunks), |Flat(chunks)|);
    var body := Octets(Flat(chunks));
    assert body[..|body|] == body;
  }
}
