/** The streaming encrypter: a reader that turns a plaintext reader into the on-disk layout. */
module Encrypting {
  import opened Bytes
  import opened Aead
  import opened Io
  import opened FrameFormat

  /**
   * The frames still obtainable when `remain` plaintext bytes are declared and `rest` are there to be
   * read. A frame that the source cannot fill is never produced, nor is anything after it.
   */
  function Produces(c: Cipher, base: Bytes, i: nat, rest: Bytes, remain: nat, emitted: bool): Bytes
    requires c.frameSize > 0 && |base| == NONCE_LEN
    decreases remain, !emitted
  {
    var size := Min(c.frameSize, remain);
    if (remain == 0 && emitted) || |rest| < size then []
    else
      SealFrame(c.aead, base, i, rest[..size]) +
      Produces(c, base, i + 1, rest[size..], remain - size, true)
  }

  lemma ProducesNext(c: Cipher, base: Bytes, i: nat, rest: Bytes, remain: nat, emitted: bool)
    requires c.frameSize > 0 && |base| == NONCE_LEN && !(remain == 0 && emitted)
    ensures
      var size := Min(c.frameSize, remain);
      var all := Produces(c, base, i, rest, remain, emitted);
      if |rest| < size then all == [] && Produces(c, base, i, [], remain, emitted) == []
      else all == SealFrame(c.aead, base, i, rest[..size]) + Produces(c, base, i + 1, rest[size..], remain - size, true)
  {
  }

  lemma NothingAfterTheEnd(c: Cipher, base: Bytes, i: nat, rest: Bytes)
    requires c.frameSize > 0 && |base| == NONCE_LEN
    ensures Produces(c, base, i, rest, 0, true) == []
  {
  }

  /** With enough source bytes, what is produced is the layout of exactly the declared plaintext. */
  lemma {:induction false} ProducesFrames(c: Cipher, base: Bytes, i: nat, rest: Bytes, remain: nat)
    requires c.frameSize > 0 && |base| == NONCE_LEN && remain <= |rest|
    ensures Produces(c, base, i, rest, remain, false) == Frames(c, base, i, rest[..remain])
    decreases remain
  {
    var plain := rest[..remain];
    if remain <= c.frameSize {
      assert rest[..Min(c.frameSize, remain)] == plain;
    } else {
      var size := c.frameSize;
      ProducesFrames(c, base, i + 1, rest[size..], remain - size);
      assert rest[size..][..remain - size] == plain[size..];
      assert rest[..size] == plain[..size];
      assert Produces(c, base, i + 1, rest[size..], remain - size, true)
          == Produces(c, base, i + 1, rest[size..], remain - size, false);
    }
  }

  /** A source that ends too early never makes up a whole blob. */
  lemma {:induction false} ShortSourceProducesLess(
    c: Cipher, base: Bytes, i: nat, rest: Bytes, remain: nat, emitted: bool)
    requires c.Valid() && |base| == NONCE_LEN && |rest| < remain
    ensures |Produces(c, base, i, rest, remain, emitted)| < FramesLength(c.frameSize, remain)
    decreases remain
  {
    hide Aead.Correct;
    hide FrameNonce;
    hide FrameAad;
    var size := Min(c.frameSize, remain);
    FramesLengthBounds(c.frameSize, remain);
    if |rest| >= size {
      SealedLength(c.aead, FrameNonce(base, i), FrameAad(i), rest[..size]);
      ShortSourceProducesLess(c, base, i + 1, rest[size..], remain - size, true);
    }
  }

  lemma AllProducedMeansAllRead(c: Cipher, base: Bytes, i: nat, rest: Bytes, remain: nat, emitted: bool)
    requires c.Valid() && |base| == NONCE_LEN && remain <= |rest|
    requires Produces(c, base, i, rest, remain, emitted) == []
    ensures remain == 0
  {
    if !(remain == 0 && emitted) {
      SealedLength(c.aead, FrameNonce(base, i), FrameAad(i), rest[..Min(c.frameSize, remain)]);
      assert false;
    }
  }

  class Encrypter {
    const cipher: Cipher
    const base: Bytes
    const src: Source<Byte>
    const header: Bytes
    var headerN: nat
    var remain: nat
    var idx: nat
    var buf: Bytes
    var out: nat
    var emitted: bool
    var done: bool

    ghost predicate Valid()
      reads this, src
    {
      && cipher.Valid() && |base| == NONCE_LEN && src.Valid()
      && header == Header(base, cipher.frameSize)
      && headerN <= |header|
      && out <= |buf|
      && (done ==> emitted && remain == 0)
    }

    /** Enough plaintext is left in the source for everything still declared. */
    ghost predicate Complete()
      requires Valid()
      reads this, src
    {
      remain <= |src.Rest()|
    }

    /** The frames not yet sealed. */
    ghost function Unsealed(): Bytes
      requires Valid()
      reads this, src
    {
      Produces(cipher, base, idx, src.Rest(), remain, emitted)
    }

    /** What follows the header and has not been delivered. */
    ghost function Body(): Bytes
      requires Valid()
      reads this, src
    {
      buf[out..] + Unsealed()
    }

    /** Every byte this reader has still to deliver. */
    ghost function ToCome(): Bytes
      requires Valid()
      reads this, src
    {
      header[headerN..] + Body()
    }

    constructor (c: Cipher, src: Source<Byte>, plaintextSize: nat, base: Bytes)
      requires c.Valid() && src.Valid() && |base| == NONCE_LEN
      ensures Valid() && cipher == c && this.src == src && this.base == base
      ensures remain == plaintextSize
      ensures Complete() ==> ToCome() == Sealed(c, base, src.Rest()[..plaintextSize])
      ensures !Complete() ==> ToCome() == Header(base, c.frameSize) +
                              Produces(c, base, 0, src.Rest(), plaintextSize, false)
    {
      cipher, this.src, this.base := c, src, base;
      header, headerN := Header(base, c.frameSize), 0;
      remain, idx, buf, out, emitted, done := plaintextSize, 0, [], 0, false, false;
      new;
      if plaintextSize <= |src.Rest()| {
        ProducesFrames(c, base, 0, src.Rest(), plaintextSize);
      }
      assert header[0..] == header;
    }

    /** Seals the next frame into buf. Eof means there is none; any other error leaves none obtainable. */
    method NextFrame() returns (err: Err)
      requires Valid() && out == |buf|
      modifies this, src
      ensures Valid() && headerN == old(headerN) && Complete() == old(Complete())
      ensures err == NoErr ==> out == 0 && buf != [] && buf + Unsealed() == old(Unsealed())
      ensures err != NoErr ==> out == |buf| && Unsealed() == old(Unsealed()) == []
      ensures err == Eof <==> old(remain == 0 && emitted)
      ensures err != NoErr && err != Eof ==> !Complete() && err == StallErr(src.tail)
      ensures Complete() ==> src.pos + remain == old(src.pos + remain)
    {
      hide Aead.Correct;
      hide FrameNonce;
      hide FrameAad;
      hide Produces;
      if remain == 0 && emitted {
        NothingAfterTheEnd(cipher, base, idx, src.Rest());
        done := true;
        return Eof;
      }
      ProducesNext(cipher, base, idx, src.Rest(), remain, emitted);
      var size := Min(cipher.frameSize, remain);
      var plain := [];
      if size > 0 {
        plain, err := src.ReadFull(size);
        if err != NoErr {
          assert src.Rest() == [] && |old(src.Rest())| < size;
          if err == Eof {
            err := UnexpectedEof;
          }
          return err;
        }
      }
      ghost var rest := old(src.Rest());
      assert plain == rest[..size] && src.Rest() == rest[size..];
      remain := remain - size;
      var nonce := DeriveFrameNonce(base, idx);
      var aad := FrameAad(idx);
      buf := cipher.aead.seal(nonce, aad, plain);
      SealedLength(cipher.aead, nonce, aad, plain);
      out := 0;
      idx := idx + 1;
      emitted := true;
      if remain == 0 {
        done := true;
      }
      err := NoErr;
    }

    /** Copies from the sealed frame into p behind its first n bytes. */
    method Serve(p: array<Byte>, n: nat) returns (k: nat)
      requires Valid() && n < p.Length && out < |buf|
      modifies this`out, p
      ensures Valid() && Complete() == old(Complete())
      ensures 0 < k <= p.Length - n
      ensures p[..n + k] + Body() == old(p[..n]) + old(Body())
      ensures forall j :: n + k <= j < p.Length ==> p[j] == old(p[j])
    {
      hide Aead.Correct;
      hide Produces;
      k := CopyInto(p, n, buf[out..]);
      Deliver(old(p[..n]), buf[out..], k, Unsealed());
      assert buf[out..][k..] == buf[out + k..];
      out := out + k;
    }

    /** Read's loop, once the header is out: fills p from position `at` on. */
    method FillFrames(p: array<Byte>, at: nat) returns (written: nat, err: Err)
      requires Valid() && headerN == |header| && at <= p.Length
      modifies this, src, p
      ensures Valid() && headerN == |header| && Complete() == old(Complete())
      ensures at <= written <= p.Length
      ensures p[..written] + Body() == old(p[..at]) + old(Body())
      ensures forall j :: written <= j < p.Length ==> p[j] == old(p[j])
      ensures written < p.Length ==> Body() == []
      ensures err == ReadErr(p.Length, written)
      ensures Complete() ==> src.pos + remain == old(src.pos + remain)
    {
      hide Aead.Correct;
      hide Produces;
      written := at;
      while written < p.Length
        invariant Valid() && headerN == |header|
        invariant at <= written <= p.Length
        invariant p[..written] + Body() == old(p[..at]) + old(Body())
        invariant forall j :: written <= j < p.Length ==> p[j] == old(p[j])
        invariant Complete() == old(Complete())
        invariant Complete() ==> src.pos + remain == old(src.pos + remain)
        decreases p.Length - written, out == |buf|
      {
        if out < |buf| {
          var k := Serve(p, written);
          written := written + k;
          continue;
        }
        if done {
          NothingAfterTheEnd(cipher, base, idx, src.Rest());
          return written, if written == 0 then Eof else NoErr;
        }
        var e := NextFrame();
        if e != NoErr {
          if e == Eof {
            return written, if written == 0 then Eof else NoErr;
          }
          return written, e;
        }
      }
      return written, NoErr;
    }

    /** What a read into a buffer of that length reports when it delivered n bytes. */
    ghost function ReadErr(length: nat, n: nat): Err
      requires Valid()
      reads this, src
    {
      if n == length then NoErr
      else if !Complete() then StallErr(src.tail)
      else if n == 0 then Eof else NoErr
    }

    /**
     * Fills p as far as the stream reaches. The bytes are exactly the next ones of ToCome, for every
     * buffer size; a clean end of file is only ever reported when the source was long enough.
     */
    method Read(p: array<Byte>) returns (n: nat, err: Err)
      requires Valid()
      modifies this, src, p
      ensures Valid() && Complete() == old(Complete())
      ensures n == Min(p.Length, |old(ToCome())|)
      ensures p[..n] + ToCome() == old(ToCome())
      ensures forall j :: n <= j < p.Length ==> p[j] == old(p[j])
      ensures err == ReadErr(p.Length, n)
      ensures Complete() ==> src.pos + remain == old(src.pos + remain)
    {
      hide Aead.Correct;
      hide Produces;
      var written := 0;
      if headerN < |header| {
        var k := CopyInto(p, 0, header[headerN..]);
        Deliver([], header[headerN..], k, Body());
        assert header[headerN..][k..] == header[headerN + k..];
        headerN := headerN + k;
        written := k;
        if k == p.Length {
          return written, NoErr;
        }
      }
      assert ToCome() == Body();
      n, err := FillFrames(p, written);
      assert ToCome() == Body();
    }

    /** Any succession of reads: the buffer sizes change nothing but where the stream is cut. */
    method Drain(sizes: seq<nat>) returns (got: Bytes, err: Err)
      requires Valid()
      modifies this, src
      ensures Valid() && Complete() == old(Complete())
      ensures got + ToCome() == old(ToCome())
      ensures err == NoErr ==> |got| == Min(Sum(sizes), |old(ToCome())|)
      ensures err != NoErr ==> got == old(ToCome()) && ToCome() == []
      ensures err == Eof ==> Complete()
      ensures err != NoErr && err != Eof ==> !Complete() && err == StallErr(src.tail)
      ensures Complete() ==> src.pos + remain == old(src.pos + remain)
    {
      hide Aead.Correct;
      hide Produces;
      got, err := [], NoErr;
      ghost var stream := ToCome();
      var k := 0;
      assert sizes[..0] == [];
      while k < |sizes|
        invariant 0 <= k <= |sizes|
        invariant Valid() && Complete() == old(Complete())
        invariant got + ToCome() == stream
        invariant |got| == Min(Sum(sizes[..k]), |stream|)
        invariant Complete() ==> src.pos + remain == old(src.pos + remain)
      {
        var p := new Byte[sizes[k]];
        var n, e := Read(p);
        Assoc(got, p[..n], ToCome());
        SumAppend(sizes, k);
        got := got + p[..n];
        if e != NoErr {
          assert ToCome() == [];
          return got, e;
        }
        k := k + 1;
      }
      assert sizes[..k] == sizes;
    }
  }

  /**
   * io.CopyN: asks for exactly `size` bytes, with buffers of any sizes. It succeeds only if that many
   * came, and then they are the first ones of the stream.
   */
  method CopyN(e: Encrypter, size: nat, bufSize: nat -> nat) returns (got: Bytes, err: Err)
    requires e.Valid() && forall k :: bufSize(k) > 0
    modifies e, e.src
    ensures e.Valid() && e.Complete() == old(e.Complete())
    ensures got + e.ToCome() == old(e.ToCome())
    ensures err == NoErr <==> |got| == size
    ensures err == NoErr <==> size <= |old(e.ToCome())|
    ensures e.Complete() ==> e.src.pos + e.remain == old(e.src.pos + e.remain)
  {
    hide Aead.Correct;
    hide Produces;
    got, err := [], NoErr;
    var k := 0;
    while |got| < size
      invariant |got| <= size
      invariant e.Valid() && e.Complete() == old(e.Complete())
      invariant got + e.ToCome() == old(e.ToCome())
      invariant e.Complete() ==> e.src.pos + e.remain == old(e.src.pos + e.remain)
      decreases size - |got|
    {
      var p := new Byte[Min(bufSize(k), size - |got|)];
      var n, e' := e.Read(p);
      Assoc(got, p[..n], e.ToCome());
      got := got + p[..n];
      if e' != NoErr && |got| < size {
        return got, if e' == Eof then UnexpectedEof else e';
      }
      k := k + 1;
    }
  }

  /** What a source that ends too early makes of a read. */
  function StallErr(tail: Tail): Err {
    match tail
    case Broken(code) => SourceErr(code)
    case CleanEnd => UnexpectedEof
  }
}
