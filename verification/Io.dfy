/** Readers and writers: what the codec and the chunk readers see of Go's io and bufio. */
module Io {
  import opened Bytes

  datatype Err =
    | NoErr
    | Eof
    | UnexpectedEof
    | SourceErr(code: int)
    | BadVersion
    | BadFrameSize
    | ShortInput
    | AuthFailed(frame: nat)
    | BadRange
    | PastEnd(frame: nat)
    | SliceOutOfRange
    | NoExtension
    | NoSignature
    | BadSize
    | Mismatch

  /** What a reader reports once its bytes are used up. */
  datatype Tail = CleanEnd | Broken(code: int)

  /**
   * A reader, as io.ReadFull sees one: some bytes and then an end of file or another error. How the
   * bytes were split over the underlying Read calls cannot be observed through ReadFull.
   */
  class Source<T> {
    const data: seq<T>
    const tail: Tail
    var pos: nat

    ghost predicate Valid()
      reads this
    {
      pos <= |data|
    }

    function Rest(): seq<T>
      requires Valid()
      reads this
    {
      data[pos..]
    }

    constructor (data: seq<T>, tail: Tail)
      ensures this.data == data && this.tail == tail && pos == 0 && Valid()
    {
      this.data, this.tail, pos := data, tail, 0;
    }

    /** io.ReadFull into a buffer of n bytes; buf is what was actually read. */
    method ReadFull(n: nat) returns (buf: seq<T>, err: Err)
      requires Valid()
      modifies this
      ensures Valid()
      ensures |old(Rest())| >= n ==>
                err == NoErr && buf == old(Rest())[..n] && pos == old(pos) + n
      ensures |old(Rest())| < n ==> buf == old(Rest()) && pos == |data| && err == ShortReadErr(tail, |buf|)
    {
      if |data| - pos >= n {
        buf, err := data[pos..pos + n], NoErr;
        pos := pos + n;
      } else {
        buf, err := data[pos..], ShortReadErr(tail, |data| - pos);
        pos := |data|;
      }
    }
  }

  lemma AtStart<T>(src: Source<T>)
    requires src.pos == 0
    ensures src.Valid() && src.Rest() == src.data
  {
  }

  /** io.ReadFull's error when only n of the wanted bytes came. */
  function ShortReadErr(tail: Tail, n: nat): Err {
    match tail
    case Broken(code) => SourceErr(code)
    case CleanEnd => if n == 0 then Eof else UnexpectedEof
  }

  /** Go's copy(p[at:], from): as much of `from` as fits into p behind position `at`. */
  method CopyInto(p: array<Byte>, at: nat, from: Bytes) returns (k: nat)
    requires at <= p.Length
    modifies p
    ensures k == Min(p.Length - at, |from|)
    ensures p[..at + k] == old(p[..at]) + from[..k]
    ensures forall j :: at + k <= j < p.Length ==> p[j] == old(p[j])
  {
    k := Min(p.Length - at, |from|);
    forall j | 0 <= j < k {
      p[at + j] := from[j];
    }
  }

  /** Moving a front piece of what is still to come behind what has been delivered. */
  lemma Deliver(done: Bytes, piece: Bytes, k: nat, rest: Bytes)
    requires k <= |piece|
    ensures done + (piece + rest) == (done + piece[..k]) + (piece[k..] + rest)
  {
    assert piece == piece[..k] + piece[k..];
  }

  /** An io.ReaderAt over a stored blob that remembers which byte ranges were fetched. */
  class BlobAt {
    const data: Bytes
    ghost var fetched: seq<(int, nat)>

    constructor (data: Bytes)
      ensures this.data == data && fetched == []
    {
      this.data, fetched := data, [];
    }

    method ReadAt(n: nat, off: int) returns (buf: Bytes, ok: bool)
      modifies this
      ensures fetched == old(fetched) + [(off, n)]
      ensures ok == (0 <= off && off + n <= |data|)
      ensures ok ==> buf == data[off..off + n]
    {
      fetched := fetched + [(off, n)];
      if 0 <= off && off + n <= |data| {
        buf, ok := data[off..off + n], true;
      } else {
        buf, ok := [], false;
      }
    }
  }

  /** An io.Writer that accepts everything. */
  class Sink {
    var written: Bytes

    constructor ()
      ensures written == []
    {
      written := [];
    }

    method Write(b: Bytes)
      modifies this
      ensures written == old(written) + b
    {
      written := written + b;
    }
  }
}
