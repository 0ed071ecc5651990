/** The reader for chunked bodies without chunk signatures, which are followed by trailer lines. */
module UnsignedChunks {
  import opened Bytes
  import opened Io
  import opened Text
  import opened Escape
  import opened ChunkFormat
  import opened ChunkReading

  // --- the format ---

  /** The size on a header line: what is in front of the extensions, if there are any. */
  function SizeText(line: string): string {
    var semi := IndexByte(line, ';');
    if semi < 0 then line else line[..semi]
  }

  /** Reads one chunk off the front of a body. */
  function NextUnsigned(body: string, tail: Tail): (step: Step)
    ensures step.Chunk? ==> |step.rest| < |body|
  {
    var nl := IndexByte(body, '\n');
    if nl < 0 then Fail(EndErr(tail))
    else
      var size := ParseHex(SizeText(TrimEol(body[..nl + 1])));
      if size.None? then Fail(BadSize) else AfterHeader(size.value, "", body[nl + 1..], tail)
  }

  /** How skipping the trailer lines goes: they end at an empty line, or with the body. */
  function TrailerErr(body: string, tail: Tail): Err
    decreases |body|
  {
    var nl := IndexByte(body, '\n');
    if nl < 0 then if EndErr(tail) == Eof then NoErr else EndErr(tail)
    else if TrimEol(body[..nl + 1]) == "" then NoErr
    else TrailerErr(body[nl + 1..], tail)
  }

  function DecodeUnsigned(body: string, tail: Tail): Decoded
    decreases |body|
  {
    match NextUnsigned(body, tail)
    case Fail(e) => Decoded([], e, false)
    case Chunk(data, _, rest) =>
      if data == "" then
        var e := TrailerErr(rest, tail);
        if e == NoErr then Decoded([], Eof, true) else Decoded([], e, false)
      else
        var d := DecodeUnsigned(rest, tail);
        Decoded([data] + d.chunks, d.err, d.complete)
  }

  function PrintUnsigned(chunks: seq<string>): string {
    if chunks == [] then ""
    else HexText(|chunks[0]|) + "\r\n" + (chunks[0] + "\r\n" + PrintUnsigned(chunks[1..]))
  }

  lemma NextOfUnsigned(size: nat, body: string, tail: Tail)
    requires size < SIZE_LIMIT
    ensures NextUnsigned(HexText(size) + "\r\n" + body, tail) == AfterHeader(size, "", body, tail)
  {
    hide TrimEol, IndexByte, AfterHeader, HexText, ParseHex;
    var h := HexText(size);
    var w := h + "\r\n" + body;
    HexHasNone(h, '\n');
    HexHasNone(h, ';');
    assert IsLowerHex(h[|h| - 1]);
    assert w == (h + "\r") + ['\n'] + body;
    IndexOfFirst(h + "\r", '\n', body);
    assert w[..|h| + 2] == h + "\r\n" && w[|h| + 2..] == body;
    TrimEolOf(h);
    ParseHexText(size);
  }

  lemma ZeroText()
    ensures HexText(0) == "0"
  {
  }

  /** The chunks, the zero chunk and whatever trailer follows it are read back as the chunks. */
  lemma {:induction false} UnsignedRoundTrip(chunks: seq<string>, trailer: string)
    requires Printable(chunks) && |trailer| >= 2
    ensures DecodeUnsigned(PrintUnsigned(chunks) + ("0\r\n" + trailer), CleanEnd) == Decoded(chunks, Eof, true)
    decreases |chunks|
  {
    hide NextUnsigned, HexText, TrailerErr;
    var end := "0\r\n" + trailer;
    if chunks == [] {
      ZeroText();
      NextOfUnsigned(0, trailer, CleanEnd);
      assert "0" + "\r\n" + trailer == end && "" + end == end;
      TrailerEndsCleanly(trailer[2..]);
    } else {
      var c, more := chunks[0], chunks[1..];
      UnsignedRoundTrip(more, trailer);
      var body := c + "\r\n" + (PrintUnsigned(more) + end);
      NextOfUnsigned(|c|, body, CleanEnd);
      Regroup(HexText(|c|) + "\r\n", c + "\r\n", PrintUnsigned(more), end);
      DataAndRest(c, PrintUnsigned(more) + end);
      assert chunks == [c] + more;
    }
  }

  lemma Regroup(a: string, b: string, c: string, d: string)
    ensures a + (b + c) + d == a + (b + (c + d))
  {
  }

  lemma DataAndRest(data: string, rest: string)
    ensures var body := data + "\r\n" + rest; body[..|data|] == data && body[|data| + 2..] == rest
  {
  }

  /**
   * The trailer lines are skipped up to the first empty one; a connection that breaks before that is an error,
   * and a body that just ends is none.
   */
  lemma TrailerMeans(line: string, rest: string, tail: Tail)
    requires '\n' !in line && line != "" && line[|line| - 1] != '\r'
    ensures TrailerErr(line + "\r\n" + rest, tail) == TrailerErr(rest, tail)
    ensures TrailerErr("\r\n" + rest, tail) == NoErr
    ensures '\n' !in rest ==> TrailerErr(rest, tail) == if tail.CleanEnd? then NoErr else SourceErr(tail.code)
  {
    hide IndexByte, TrimEol, TrailerErr;
    TrailerLine(line + "\r", rest, tail);
    TrailerLine("\r", rest, tail);
    assert line + "\r" + "\n" == line + "\r\n" && "\r" + "\n" == "\r\n";
    TrimEolOf(line);
    EmptyLine();
    if '\n' !in rest {
      TrailerEnds(rest, tail);
    }
  }

  lemma TrailerLine(h: string, rest: string, tail: Tail)
    requires '\n' !in h
    ensures TrailerErr(h + "\n" + rest, tail) == if TrimEol(h + "\n") == "" then NoErr else TrailerErr(rest, tail)
  {
    hide IndexByte, TrimEol;
    IndexOfFirst(h, '\n', rest);
    var w := h + "\n" + rest;
    assert w[..|h| + 1] == h + "\n" && w[|h| + 1..] == rest;
  }

  lemma EmptyLine()
    ensures TrimEol("\r\n") == ""
  {
    assert "\r\n"[..1] == "\r" && "\r"[..0] == "";
  }

  lemma TrailerEnds(rest: string, tail: Tail)
    requires '\n' !in rest
    ensures TrailerErr(rest, tail) == if tail.CleanEnd? then NoErr else SourceErr(tail.code)
  {
  }

  lemma {:induction false} TrailerEndsCleanly(body: string)
    ensures TrailerErr(body, CleanEnd) == NoErr
    decreases |body|
  {
    var nl := IndexByte(body, '\n');
    if nl >= 0 {
      TrailerEndsCleanly(body[nl + 1..]);
    }
  }

  /**
   * The two readers take off the same framing: whatever the signed reader delivers of a body, the
   * unsigned one delivers too, in front of anything else.
   */
  lemma {:induction false} SameFraming(s: Signer, at: Stamp, body: string, prev: string, tail: Tail)
    ensures Decode(s, at, body, prev, tail).chunks <= DecodeUnsigned(body, tail).chunks
    decreases |body|
  {
    hide Expected, TrimEol, ParseHex, TrimBytes, Index, IndexByte, AfterHeader, TrailerErr;
    var step := Next(body, tail);
    if step.Chunk? && step.data != "" && step.sig == Expected(s, at, prev, step.data) {
      AfterHeaderIgnoresSig(body, tail);
      hide Next, NextUnsigned;
      SameFraming(s, at, step.rest, step.sig, tail);
    }
  }

  lemma AfterHeaderIgnoresSig(body: string, tail: Tail)
    requires Next(body, tail).Chunk?
    ensures NextUnsigned(body, tail) == Next(body, tail).(sig := "")
  {
    hide TrimEol, ParseHex, TrimBytes, Index, IndexByte;
  }

  // --- the reader ---

  class UnsignedChunkedReader {
    const br: Body
    var leftover: string
    var eof: bool
    var err: Err

    ghost predicate Valid()
      reads this, br
    {
      br.Valid() && (err != NoErr || eof ==> leftover == "")
    }

    /** What reading on will deliver, by the decoding of the rest of the body. */
    ghost function ToCome(): Ahead
      requires Valid()
      reads this, br
    {
      if err != NoErr then Ahead("", err, false)
      else if eof then Ahead("", Eof, true)
      else
        var d := DecodeUnsigned(br.Rest(), br.tail);
        Ahead(leftover + Flat(d.chunks), d.err, d.complete)
    }

    constructor (body: Body)
      requires body.Valid()
      ensures br == body && Valid()
      ensures var d := DecodeUnsigned(body.Rest(), body.tail);
              ToCome() == Ahead(Flat(d.chunks), d.err, d.complete)
    {
      br := body;
      leftover, eof, err := "", false, NoErr;
      new;
      var d := DecodeUnsigned(body.Rest(), body.tail);
      assert "" + Flat(d.chunks) == Flat(d.chunks);
    }

    /** The first part of nextChunk: one chunk, up to its line end. */
    method ReadChunk() returns (step: Step)
      requires br.Valid()
      modifies br
      ensures br.Valid()
      ensures step == NextUnsigned(old(br.Rest()), br.tail)
      ensures step.Chunk? ==> br.Rest() == step.rest
    {
      hide ParseHex, TrimEol, AfterHeader;
      var line, e := ReadLine(br);
      if e != NoErr {
        return Fail(e);
      }
      line := TrimEol(line);
      var semi := IndexByte(line, ';');
      if semi >= 0 {
        line := line[..semi];
      }
      var size := ParseHex(line);
      if size.None? {
        return Fail(BadSize);
      }
      step := ReadData(br, size.value, "");
    }

    /** The trailer lines behind the last chunk. */
    method SkipTrailers() returns (e: Err)
      requires br.Valid()
      modifies br
      ensures br.Valid()
      ensures e == TrailerErr(old(br.Rest()), br.tail)
    {
      hide TrimEol, IndexByte;
      while true
        invariant br.Valid()
        invariant TrailerErr(br.Rest(), br.tail) == TrailerErr(old(br.Rest()), br.tail)
        decreases |br.Rest()|
      {
        var line;
        line, e := ReadLine(br);
        if e != NoErr {
          if e == Eof {
            return NoErr;
          }
          return e;
        }
        if TrimEol(line) == "" {
          return NoErr;
        }
      }
    }

    method NextChunk() returns (e: Err)
      requires Valid() && err == NoErr && !eof && leftover == ""
      modifies this`leftover, this`eof, br
      ensures br.Valid()
      ensures e != NoErr ==> leftover == "" && old(ToCome()) == Ahead("", e, false)
      ensures e == NoErr ==> Valid() && ToCome() == old(ToCome()) && (eof <==> leftover == "")
    {
      hide NextUnsigned, Flat, TrailerErr;
      FlatMeans(DecodeUnsigned(br.Rest(), br.tail).chunks);
      FailureIsError(br.Rest(), br.tail);
      var step := ReadChunk();
      if step.Fail? {
        return step.err;
      }
      if |step.data| == 0 {
        eof := true;
        e := SkipTrailers();
        return;
      }
      leftover := step.data;
      e := NoErr;
    }

    method Read(p: array<char>) returns (n: nat, e: Err)
      requires Valid()
      modifies this, br, p
      ensures Valid()
      ensures n <= p.Length && (e == NoErr ==> n > 0 || p.Length == 0)
      ensures e == NoErr ==> old(ToCome()) == Ahead(p[..n] + ToCome().bytes, ToCome().err, ToCome().complete)
      ensures e != NoErr ==> n == 0 && old(ToCome().bytes) == "" && e == old(ToCome().err) && ToCome() == old(ToCome())
      ensures forall j :: n <= j < p.Length ==> p[j] == old(p[j])
    {
      hide DecodeUnsigned, Flat;
      if err != NoErr {
        return 0, err;
      }
      if |leftover| == 0 {
        if eof {
          return 0, Eof;
        }
        e := NextChunk();
        if e != NoErr {
          err := e;
          return 0, e;
        }
        if eof && |leftover| == 0 {
          return 0, Eof;
        }
      }
      n := Min(p.Length, |leftover|);
      forall j | 0 <= j < n {
        p[j] := leftover[j];
      }
      ghost var d := DecodeUnsigned(br.Rest(), br.tail);
      assert p[..n] == leftover[..n];
      Split3(leftover, n, Flat(d.chunks));
      leftover := leftover[n..];
      e := NoErr;
    }
  }

  lemma FailureIsError(body: string, tail: Tail)
    ensures var step := NextUnsigned(body, tail); step.Fail? ==> step.err != NoErr
  {
    hide ParseHex, TrimEol, IndexByte;
  }
}
