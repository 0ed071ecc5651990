/** The streaming decrypter: a reader that turns a stored blob back into plaintext. */
module Decrypting {
  import opened Bytes
  import opened Aead
  import opened Io
  import opened FrameFormat

  /**
   * What decrypting up to the first stop comes to: the plaintext released, why it stopped, and the
   * position it stopped in, from which a caller that ignores an error would carry on.
   */
  datatype Run = Run(plain: Bytes, stop: Err, idx: nat, rest: Bytes, atEof: bool)

  /** Decrypting `ct` frame by frame from frame index i on. */
  function OpenRun(aead: Aead, base: Bytes, frameSize: nat, i: nat, ct: Bytes, tail: Tail): Run
    requires frameSize > 0 && |base| == NONCE_LEN
    decreases |ct|
  {
    var unit := frameSize + TAG_LEN;
    if |ct| >= unit then
      match OpenFrame(aead, base, i, ct[..unit])
      case None => Run([], AuthFailed(i), i, ct[unit..], false)
      case Some(p) =>
        var r := OpenRun(aead, base, frameSize, i + 1, ct[unit..], tail);
        r.(plain := p + r.plain)
    else if tail.Broken? then Run([], SourceErr(tail.code), i, [], false)
    else if ct == [] then Run([], Eof, i, [], true)
    else if |ct| < TAG_LEN then Run([], ShortInput, i, [], false)
    else
      match OpenFrame(aead, base, i, ct)
      case None => Run([], AuthFailed(i), i, [], true)
      case Some(p) => Run(p, Eof, i + 1, [], true)
  }

  /** The same from a state that may already have seen the end. */
  function OpenFrom(aead: Aead, base: Bytes, frameSize: nat, i: nat, atEof: bool, ct: Bytes, tail: Tail): Run
    requires frameSize > 0 && |base| == NONCE_LEN
  {
    if atEof then Run([], Eof, i, ct, true) else OpenRun(aead, base, frameSize, i, ct, tail)
  }

  // --- decryption inverts encryption ---

  function FrameCount(frameSize: nat, n: nat): (k: nat)
    requires frameSize > 0
    ensures k > 0
  {
    if n <= frameSize then 1 else 1 + FrameCount(frameSize, n - frameSize)
  }

  lemma {:induction false} OpenRunOfFrames(c: Cipher, base: Bytes, i: nat, plain: Bytes)
    requires c.Valid() && |base| == NONCE_LEN
    ensures OpenRun(c.aead, base, c.frameSize, i, Frames(c, base, i, plain), CleanEnd) ==
            Run(plain, Eof, i + FrameCount(c.frameSize, |plain|), [], true)
    decreases |plain|
  {
    hide Aead.Correct;
    hide FrameNonce;
    hide FrameAad;
    var fs, unit := c.frameSize, c.frameSize + TAG_LEN;
    var ct := Frames(c, base, i, plain);
    var p, rest := plain[..Min(fs, |plain|)], plain[Min(fs, |plain|)..];
    SealedLength(c.aead, FrameNonce(base, i), FrameAad(i), p);
    OpensAsSealed(c.aead, FrameNonce(base, i), FrameAad(i), p);
    if |plain| <= fs {
      assert p == plain && p + [] == p;
      if |plain| == fs {
        assert ct[..unit] == ct && ct[unit..] == [];
      }
    } else {
      assert ct[..unit] == SealFrame(c.aead, base, i, p);
      assert ct[unit..] == Frames(c, base, i + 1, rest);
      OpenRunOfFrames(c, base, i + 1, rest);
      assert p + rest == plain;
    }
  }

  // --- the header ---

  /** A blob's header as readHeader takes it apart. */
  function HeaderBase(blob: Bytes): (base: Bytes)
    requires |blob| >= HEADER_SIZE
    ensures |base| == NONCE_LEN
  {
    blob[1..1 + NONCE_LEN]
  }

  function HeaderFrameSize(blob: Bytes): nat
    requires |blob| >= HEADER_SIZE
  {
    FromBigEndian(blob[1 + NONCE_LEN..HEADER_SIZE])
  }

  /** readHeader's verdict on a reader's bytes. */
  function HeaderErr(blob: Bytes, tail: Tail): Err {
    if |blob| < HEADER_SIZE then ShortReadErr(tail, |blob|)
    else if blob[0] != VERSION then BadVersion
    else if HeaderFrameSize(blob) <= 0 || HeaderFrameSize(blob) > MAX_FRAME_SIZE then BadFrameSize
    else NoErr
  }

  /** A written header is read back, for every frame size that its four bytes can hold. */
  lemma HeaderRoundTrip(base: Bytes, frameSize: nat, body: Bytes, tail: Tail)
    requires |base| == NONCE_LEN && frameSize < UINT32
    ensures var blob := Header(base, frameSize) + body;
            HeaderBase(blob) == base && HeaderFrameSize(blob) == frameSize && blob[HEADER_SIZE..] == body &&
            blob[0] == VERSION && (HeaderErr(blob, tail) == NoErr <==> 1 <= frameSize <= 0x4000_0000)
  {
    var blob := Header(base, frameSize) + body;
    assert blob[1..1 + NONCE_LEN] == base;
    assert blob[1 + NONCE_LEN..HEADER_SIZE] == BigEndian(frameSize, 4);
    FixedWidths();
    BigEndianRoundTrip(frameSize, 4);
  }

  /** Decrypting a whole stored blob. */
  function OpenBlob(aead: Aead, blob: Bytes, tail: Tail): Run {
    var e := HeaderErr(blob, tail);
    if e != NoErr then Run([], e, 0, [], false)
    else OpenRun(aead, HeaderBase(blob), HeaderFrameSize(blob), 0, blob[HEADER_SIZE..], tail)
  }

  /** A sealed blob opens to its plaintext and a clean end, whatever frame size it was written with. */
  lemma OpenBlobOfSealed(c: Cipher, base: Bytes, plain: Bytes)
    requires c.Valid() && |base| == NONCE_LEN
    ensures OpenBlob(c.aead, Sealed(c, base, plain), CleanEnd) ==
            Run(plain, Eof, FrameCount(c.frameSize, |plain|), [], true)
  {
    hide Frames;
    hide OpenRun;
    HeaderRoundTrip(base, c.frameSize, Frames(c, base, 0, plain), CleanEnd);
    OpenRunOfFrames(c, base, 0, plain);
  }

  // --- the reader ---

  class Decrypter {
    const aead: Aead
    const src: Source<Byte>
    const base: Bytes
    const frameSize: nat
    var idx: nat
    var plain: Bytes
    var out: nat
    var atEof: bool

    ghost predicate Valid()
      reads this, src
    {
      |base| == NONCE_LEN && frameSize > 0 && src.Valid() && out <= |plain|
    }

    /** What is left to decrypt, up to the first stop. */
    ghost function Ahead(): Run
      requires Valid()
      reads this, src
    {
      OpenFrom(aead, base, frameSize, idx, atEof, src.Rest(), src.tail)
    }

    /** The plaintext still to be delivered before the first stop. */
    ghost function ToCome(): Bytes
      requires Valid()
      reads this, src
    {
      plain[out..] + Ahead().plain
    }

    /** What is ahead is the rest of that run. */
    ghost predicate SameRun(r: Run)
      requires Valid()
      reads this, src
    {
      Ahead() == r.(plain := Ahead().plain)
    }

    lemma NothingAhead()
      requires Valid() && atEof
      ensures Ahead() == Run([], Eof, idx, src.Rest(), true)
    {
    }

    /** The state a run ends in. */
    ghost predicate StoppedAt(r: Run)
      requires Valid()
      reads this, src
    {
      idx == r.idx && src.Rest() == r.rest && atEof == r.atEof && out == |plain|
    }

    constructor (aead: Aead, src: Source<Byte>, base: Bytes, frameSize: nat)
      requires src.Valid() && |base| == NONCE_LEN && frameSize > 0
      ensures Valid() && this.src == src && this.aead == aead && this.base == base && this.frameSize == frameSize
      ensures idx == 0 && !atEof && plain == [] && out == 0
    {
      this.aead, this.src, this.base, this.frameSize := aead, src, base, frameSize;
      idx, plain, out, atEof := 0, [], 0, false;
    }

    /** Opens the next frame into plain; any error is the stop of the run that was ahead. */
    method NextFrame() returns (err: Err)
      requires Valid() && !atEof && out == |plain|
      modifies this, src
      ensures Valid()
      ensures err == NoErr || err == Eof ==> SameRun(old(Ahead())) && ToCome() == old(ToCome())
      ensures err == NoErr ==> out == 0 && |src.Rest()| < |old(src.Rest())|
      ensures err != NoErr ==> err == old(Ahead()).stop && old(Ahead()).plain == [] && StoppedAt(old(Ahead()))
    {
      hide FrameNonce;
      hide FrameAad;
      var unit := frameSize + TAG_LEN;
      ghost var ct := src.Rest();
      var buf;
      buf, err := src.ReadFull(unit);
      if err == Eof {
        atEof := true;
        return;
      }
      if err == UnexpectedEof {
        if |buf| < TAG_LEN {
          return ShortInput;
        }
        atEof := true;
      } else if err != NoErr {
        return;
      }
      assert |ct| >= unit ==> buf == ct[..unit] && src.Rest() == ct[unit..];
      var nonce := DeriveFrameNonce(base, idx);
      var aad := FrameAad(idx);
      match aead.open(nonce, aad, buf) {
        case None =>
          return AuthFailed(idx);
        case Some(p) =>
          idx := idx + 1;
          plain := p;
          out := 0;
          err := NoErr;
          assert |ct| < unit ==> p + [] == p;
      }
    }

    /** Copies from the opened frame into p behind its first n bytes. */
    method Serve(p: array<Byte>, n: nat) returns (k: nat)
      requires Valid() && n < p.Length && out < |plain|
      modifies this`out, p
      ensures Valid() && Ahead() == old(Ahead())
      ensures 0 < k <= p.Length - n
      ensures p[..n + k] + ToCome() == old(p[..n]) + old(ToCome())
      ensures forall j :: n + k <= j < p.Length ==> p[j] == old(p[j])
    {
      hide OpenRun;
      k := CopyInto(p, n, plain[out..]);
      Deliver(old(p[..n]), plain[out..], k, Ahead().plain);
      assert plain[out..][k..] == plain[out + k..];
      out := out + k;
    }

    /**
     * Fills p with the next bytes of the plaintext. A stop other than the end of file is reported
     * together with the bytes before it, the end of file only on its own.
     */
    method Read(p: array<Byte>) returns (n: nat, err: Err)
      requires Valid()
      modifies this, src, p
      ensures Valid()
      ensures n == Min(p.Length, |old(ToCome())|)
      ensures p[..n] == old(ToCome())[..n]
      ensures forall j :: n <= j < p.Length ==> p[j] == old(p[j])
      ensures err == ReadErr(p.Length, n, old(Ahead()).stop)
      ensures err == NoErr || err == Eof ==> SameRun(old(Ahead())) && p[..n] + ToCome() == old(ToCome())
      ensures err != NoErr ==> StoppedAt(old(Ahead()))
    {
      hide OpenFrom;
      n := 0;
      while n < p.Length
        invariant Valid()
        invariant 0 <= n <= p.Length
        invariant p[..n] + ToCome() == old(ToCome())
        invariant SameRun(old(Ahead()))
        invariant forall j :: n <= j < p.Length ==> p[j] == old(p[j])
        decreases p.Length - n, |src.Rest()|, out == |plain|
      {
        if out < |plain| {
          var k := Serve(p, n);
          n := n + k;
          continue;
        }
        if atEof {
          NothingAhead();
          return n, if n == 0 then Eof else NoErr;
        }
        ghost var delivered := p[..n];
        var e := NextFrame();
        if e != NoErr {
          if e == Eof {
            return n, if n == 0 then Eof else NoErr;
          }
          return n, e;
        }
        assert p[..n] == delivered;
      }
      return n, NoErr;
    }

    /** Any succession of reads up to an error, whatever the buffer sizes. */
    method Drain(sizes: seq<nat>) returns (got: Bytes, err: Err)
      requires Valid()
      modifies this, src
      ensures Valid()
      ensures got <= old(ToCome())
      ensures err == NoErr ==> |got| == Min(Sum(sizes), |old(ToCome())|)
      ensures err != NoErr ==> got == old(ToCome()) && err == old(Ahead()).stop
    {
      hide OpenFrom;
      got, err := [], NoErr;
      ghost var stream, stop := ToCome(), Ahead().stop;
      var k := 0;
      assert sizes[..0] == [];
      while k < |sizes|
        invariant 0 <= k <= |sizes|
        invariant Valid()
        invariant got + ToCome() == stream && Ahead().stop == stop
        invariant |got| == Min(Sum(sizes[..k]), |stream|)
      {
        var p := new Byte[sizes[k]];
        var n, e := Read(p);
        SumAppend(sizes, k);
        Assoc(got, p[..n], ToCome());
        got := got + p[..n];
        if e != NoErr {
          return got, e;
        }
        k := k + 1;
      }
      assert sizes[..k] == sizes;
    }
  }

  /** io.Copy: reads to the end, with buffers of any sizes, and gets everything up to the first stop. */
  method CopyAll(d: Decrypter, bufSize: nat -> nat) returns (got: Bytes, err: Err)
    requires d.Valid() && forall k :: bufSize(k) > 0
    modifies d, d.src
    ensures d.Valid()
    ensures got == old(d.ToCome()) && err == old(d.Ahead()).stop && d.StoppedAt(old(d.Ahead()))
  {
    StopIsAnError(d.aead, d.base, d.frameSize, d.idx, d.src.Rest(), d.src.tail);
    assert d.Ahead().stop != NoErr;
    hide OpenFrom;
    got, err := [], NoErr;
    var k := 0;
    while err == NoErr
      invariant d.Valid()
      invariant err == NoErr ==> got + d.ToCome() == old(d.ToCome()) && d.SameRun(old(d.Ahead()))
      invariant err != NoErr ==> got == old(d.ToCome()) && err == old(d.Ahead()).stop && d.StoppedAt(old(d.Ahead()))
      decreases err == NoErr, |d.ToCome()|
    {
      var p := new Byte[bufSize(k)];
      ghost var before := d.ToCome();
      var n, e := d.Read(p);
      assert p[..n] == before[..n];
      if e == NoErr || e == Eof {
        Assoc(got, p[..n], d.ToCome());
      } else {
        assert before[..n] == before;
      }
      got := got + p[..n];
      err := e;
      k := k + 1;
    }
  }

  lemma {:induction false} StopIsAnError(aead: Aead, base: Bytes, frameSize: nat, i: nat, ct: Bytes, tail: Tail)
    requires frameSize > 0 && |base| == NONCE_LEN
    ensures OpenRun(aead, base, frameSize, i, ct, tail).stop != NoErr
    decreases |ct|
  {
    if |ct| >= frameSize + TAG_LEN {
      StopIsAnError(aead, base, frameSize, i + 1, ct[frameSize + TAG_LEN..], tail);
    }
  }

  /** NewDecrypter: reads and checks the header; on success the reader is at the blob's first frame. */
  method NewDecrypter(aead: Aead, src: Source<Byte>) returns (err: Err, d: Decrypter?)
    requires src.Valid()
    modifies src
    ensures err == HeaderErr(old(src.Rest()), src.tail)
    ensures d != null <==> err == NoErr
    ensures d != null ==> fresh(d) && d.Valid() && d.src == src && d.aead == aead
    ensures d != null ==> d.plain == [] && d.out == 0 && d.idx == 0 && !d.atEof
    ensures d != null ==>
              && d.base == HeaderBase(old(src.Rest())) && d.frameSize == HeaderFrameSize(old(src.Rest()))
              && d.src.Rest() == old(src.Rest())[HEADER_SIZE..]
    ensures d != null ==> d.ToCome() == OpenBlob(aead, old(src.Rest()), src.tail).plain
    ensures d != null ==> d.Ahead() == OpenBlob(aead, old(src.Rest()), src.tail)
  {
    hide OpenRun;
    ghost var blob := src.Rest();
    var hdr;
    d := null;
    hdr, err := src.ReadFull(HEADER_SIZE);
    if err != NoErr {
      return;
    }
    assert hdr == blob[..HEADER_SIZE] && src.Rest() == blob[HEADER_SIZE..];
    if hdr[0] != VERSION {
      return BadVersion, null;
    }
    var base := hdr[1..1 + NONCE_LEN];
    var frameSize := FromBigEndian(hdr[1 + NONCE_LEN..]);
    assert base == HeaderBase(blob);
    assert hdr[1 + NONCE_LEN..] == blob[1 + NONCE_LEN..HEADER_SIZE];
    if frameSize <= 0 || frameSize > MAX_FRAME_SIZE {
      return BadFrameSize, null;
    }
    d := new Decrypter(aead, src, base, frameSize);
    err := NoErr;
  }

  /** What a read into a buffer of that length reports when it delivered n bytes before that stop. */
  function ReadErr(length: nat, n: nat, stop: Err): Err {
    if n == length then NoErr
    else if stop == Eof then if n == 0 then Eof else NoErr
    else stop
  }
}
