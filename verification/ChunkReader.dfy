/** The reader that takes the framing of a chunk-signed body off and checks the signatures. */
module ChunkReading {
  import opened Bytes
  import opened Io
  import opened Text
  import opened Escape
  import opened ChunkFormat

  /** The buffered reader over a request body. */
  type Body = Source<char>

  /** ReadString('\n'): the next line with its line feed, or everything and an error. */
  method ReadLine(br: Body) returns (line: string, err: Err)
    requires br.Valid()
    modifies br
    ensures br.Valid()
    ensures var rest := old(br.Rest());
            var nl := IndexByte(rest, '\n');
            if nl >= 0 then err == NoErr && line == rest[..nl + 1] && br.Rest() == rest[nl + 1..]
            else err == EndErr(br.tail) && line == rest && br.Rest() == ""
  {
    var rest := br.data[br.pos..];
    var nl := IndexByte(rest, '\n');
    if nl < 0 {
      br.pos := |br.data|;
      return rest, EndErr(br.tail);
    }
    br.pos := br.pos + nl + 1;
    assert br.data[br.pos..] == rest[nl + 1..];
    return rest[..nl + 1], NoErr;
  }

  /** Discard: skips n bytes. */
  method Discard(br: Body, n: nat) returns (err: Err)
    requires br.Valid()
    modifies br
    ensures br.Valid()
    ensures var rest := old(br.Rest());
            if |rest| >= n then err == NoErr && br.Rest() == rest[n..] else err == EndErr(br.tail) && br.Rest() == ""
  {
    if |br.data| - br.pos >= n {
      br.pos := br.pos + n;
      assert br.data[br.pos..] == old(br.data[br.pos..])[n..];
      return NoErr;
    }
    br.pos := |br.data|;
    return EndErr(br.tail);
  }

  /** The data of a chunk and the line end behind it, as both chunk readers read them. */
  method ReadData(br: Body, size: nat, sig: string) returns (step: Step)
    requires br.Valid()
    modifies br
    ensures br.Valid()
    ensures step == AfterHeader(size, sig, old(br.Rest()), br.tail)
    ensures step.Chunk? ==> br.Rest() == step.rest
  {
    ghost var body := br.Rest();
    EndIsError(br.tail);
    var data, e := br.ReadFull(size);
    if e != NoErr {
      return Fail(e);
    }
    assert br.Rest() == body[size..];
    e := Discard(br, 2);
    if e != NoErr {
      return Fail(e);
    }
    assert body[size..][2..] == body[size + 2..];
    step := Chunk(data, sig, br.Rest());
  }

  /** What is still to come of a body: the bytes, and how it ends. */
  datatype Ahead = Ahead(bytes: string, err: Err, complete: bool)

  class SignedChunkedReader {
    const br: Body
    const signer: Signer
    const at: Stamp
    var prevSig: string
    var leftover: string
    var eof: bool
    var err: Err

    ghost predicate Valid()
      reads this, br
    {
      && br.Valid()
      && (err != NoErr || eof ==> leftover == "")
      && !(err != NoErr && eof)
    }

    /** What reading on will deliver, by the decoding of the rest of the body. */
    ghost function ToCome(): Ahead
      requires Valid()
      reads this, br
    {
      if err != NoErr then Ahead("", err, false)
      else if eof then Ahead("", Eof, true)
      else
        var d := Decode(signer, at, br.Rest(), prevSig, br.tail);
        Ahead(leftover + Flat(d.chunks), d.err, d.complete)
    }

    constructor (body: Body, signer: Signer, at: Stamp, seed: string)
      requires body.Valid()
      ensures br == body && this.signer == signer && this.at == at && Valid()
      ensures var d := Decode(signer, at, body.Rest(), seed, body.tail);
              ToCome() == Ahead(Flat(d.chunks), d.err, d.complete)
    {
      br, this.signer, this.at, prevSig := body, signer, at, seed;
      leftover, eof, err := "", false, NoErr;
      new;
      var d := Decode(signer, at, body.Rest(), seed, body.tail);
      assert "" + Flat(d.chunks) == Flat(d.chunks);
    }

    /** The first half of nextChunk: reads one chunk, signature unchecked. */
    method ReadChunk() returns (step: Step)
      requires br.Valid()
      modifies br
      ensures br.Valid()
      ensures step == Next(old(br.Rest()), br.tail)
      ensures step.Chunk? ==> br.Rest() == step.rest
    {
      hide *;
      NextUnfolds(br.Rest(), br.tail);
      EndIsError(br.tail);
      var line, e := ReadLine(br);
      if e != NoErr {
        return Fail(e);
      }
      line := TrimEol(line);
      ParseHeaderUnfolds(line);
      var semi := IndexByte(line, ';');
      if semi < 0 {
        return Fail(NoExtension);
      }
      var sizeHex := line[..semi];
      var ext := line[semi + 1..];
      var idx := Index(ext, SIG_PREFIX);
      if idx < 0 {
        return Fail(NoSignature);
      }
      var chunkSig := TrimBytes(ext[idx + |SIG_PREFIX|..]);
      var size := ParseHex(sizeHex);
      if size.None? {
        return Fail(BadSize);
      }
      step := ReadData(br, size.value, chunkSig);
    }

    /** Reads and checks one chunk; the new state is that of the decoding one step on. */
    method NextChunk() returns (e: Err)
      requires Valid() && err == NoErr && !eof && leftover == ""
      modifies this`prevSig, this`leftover, this`eof, br
      ensures br.Valid()
      ensures e != NoErr ==> leftover == "" && !eof && old(ToCome()) == Ahead("", e, false)
      ensures e == NoErr ==> Valid() && ToCome() == old(ToCome()) && (eof <==> leftover == "")
      ensures e == NoErr ==> |br.Rest()| < |old(br.Rest())|
      ensures e == NoErr ==>
                prevSig == signer.mac("AWS4-HMAC-SHA256-PAYLOAD\n" + at.datetime + "\n" + at.scope + "\n" +
                                      old(prevSig) + "\n" + signer.hash("") + "\n" + signer.hash(leftover))
    {
      hide Expected, Next, Flat, StringToSign;
      FlatMeans(Decode(signer, at, br.Rest(), prevSig, br.tail).chunks);
      FailsWithError(br.Rest(), br.tail);
      var step := ReadChunk();
      if step.Fail? {
        return step.err;
      }
      if Expected(signer, at, prevSig, step.data) != step.sig {
        return Mismatch;
      }
      StringToSignMeans(signer, at, prevSig, step.data);
      ExpectedMeans(signer, at, prevSig, step.data);
      prevSig := step.sig;
      if |step.data| == 0 {
        eof := true;
        return NoErr;
      }
      leftover := step.data;
      e := NoErr;
    }

    method Read(p: array<char>) returns (n: nat, e: Err)
      requires Valid()
      modifies this, br, p
      ensures Valid()
      ensures n <= p.Length && (e == NoErr ==> n > 0 || p.Length == 0)
      ensures e == NoErr ==> old(ToCome()) == Ahead(p[..n] + ToCome().bytes, ToCome().err, ToCome().complete)
      ensures e != NoErr ==> n == 0 && old(ToCome().bytes) == "" && e == old(ToCome().err) && ToCome() == old(ToCome())
      ensures forall j :: n <= j < p.Length ==> p[j] == old(p[j])
    {
      hide Decode, Flat;
      if err != NoErr {
        return 0, err;
      }
      if |leftover| == 0 {
        if eof {
          return 0, Eof;
        }
        e := NextChunk();
        if e != NoErr {
          err := e;
          return 0, e;
        }
        if eof && |leftover| == 0 {
          return 0, Eof;
        }
      }
      n := Min(p.Length, |leftover|);
      forall j | 0 <= j < n {
        p[j] := leftover[j];
      }
      ghost var d := Decode(signer, at, br.Rest(), prevSig, br.tail);
      assert p[..n] == leftover[..n];
      Split3(leftover, n, Flat(d.chunks));
      leftover := leftover[n..];
      e := NoErr;
    }

    /** Any succession of reads up to an error, whatever the buffer sizes. */
    method Drain(sizes: seq<nat>) returns (got: string, e: Err)
      requires Valid()
      modifies this, br
      ensures Valid()
      ensures e == NoErr ==> old(ToCome()) == Ahead(got + ToCome().bytes, ToCome().err, ToCome().complete)
      ensures e != NoErr ==> got == old(ToCome()).bytes && e == old(ToCome()).err
    {
      hide *;
      got, e := "", NoErr;
      var k := 0;
      ghost var all := ToCome();
      assert "" + all.bytes == all.bytes;
      while k < |sizes|
        invariant 0 <= k <= |sizes|
        invariant Valid() && e == NoErr
        invariant all == Ahead(got + ToCome().bytes, ToCome().err, ToCome().complete)
      {
        var p := new char[sizes[k]];
        var n;
        n, e := Read(p);
        if e != NoErr {
          assert got + "" == got;
          return;
        }
        Assoc(got, p[..n], ToCome().bytes);
        got := got + p[..n];
        k := k + 1;
      }
    }
  }

  /** io.ReadAll: reads to the end, with buffers of any non-zero sizes. */
  method ReadAll(r: SignedChunkedReader, bufSize: nat -> nat) returns (got: string, e: Err)
    requires r.Valid() && forall k :: bufSize(k) > 0
    modifies r, r.br
    ensures r.Valid()
    ensures e != NoErr && got == old(r.ToCome()).bytes && e == old(r.ToCome()).err
  {
    hide *;
    got, e := "", NoErr;
    var k := 0;
    ghost var all := r.ToCome();
    assert "" + all.bytes == all.bytes;
    while e == NoErr
      invariant r.Valid()
      invariant e == NoErr ==> all == Ahead(got + r.ToCome().bytes, r.ToCome().err, r.ToCome().complete)
      invariant e != NoErr ==> got == all.bytes && e == all.err
      decreases e == NoErr, |r.ToCome().bytes|
    {
      var p := new char[bufSize(k)];
      var n;
      n, e := r.Read(p);
      assert got + "" == got;
      if e == NoErr {
        Assoc(got, p[..n], r.ToCome().bytes);
      } else {
        assert p[..n] == "";
      }
      got := got + p[..n];
      k := k + 1;
    }
  }

  lemma FailsWithError(body: string, tail: Tail)
    ensures var step := Next(body, tail); step.Fail? ==> step.err != NoErr
  {
    hide ParseHex, TrimBytes, Index, TrimEol, IndexByte;
  }

  lemma EndIsError(tail: Tail)
    ensures EndErr(tail) != NoErr
  {
  }

  lemma NextUnfolds(body: string, tail: Tail)
    ensures var nl := IndexByte(body, '\n');
            Next(body, tail) ==
            if nl < 0 then Fail(EndErr(tail))
            else
              var h := ParseHeader(TrimEol(body[..nl + 1]));
              if h.BadHeader? then Fail(h.err) else AfterHeader(h.size, h.sig, body[nl + 1..], tail)
  {
  }

  lemma ParseHeaderUnfolds(line: string)
    ensures var semi := IndexByte(line, ';');
            ParseHeader(line) ==
            if semi < 0 then BadHeader(NoExtension)
            else
              var ext := line[semi + 1..];
              var idx := Index(ext, SIG_PREFIX);
              if idx < 0 then BadHeader(NoSignature)
              else if ParseHex(line[..semi]).None? then BadHeader(BadSize)
              else Header(ParseHex(line[..semi]).value, TrimBytes(ext[idx + |SIG_PREFIX|..]))
    ensures |SIG_PREFIX| > 0
  {
    hide ParseHex, TrimBytes, Index, IndexByte;
  }

  lemma FlatMeans(chunks: seq<string>)
    ensures Flat([]) == ""
    ensures forall c, cs :: Flat([c] + cs) == c + Flat(cs)
  {
    forall c: string, cs: seq<string>
      ensures Flat([c] + cs) == c + Flat(cs)
    {
      assert ([c] + cs)[1..] == cs;
    }
  }

  lemma Split3(s: string, n: nat, t: string)
    requires n <= |s|
    ensures s + t == s[..n] + (s[n..] + t)
  {
    assert s == s[..n] + s[n..];
  }
}
