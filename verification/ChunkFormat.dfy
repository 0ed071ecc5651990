/**
 * The framing of a chunked, chunk-signed body: its decoding as a function of the whole body, its
 * printing, and that the first undoes the second. Bodies are byte strings.
 */
module ChunkFormat {
  import opened Bytes
  import opened Io
  import opened Text
  import opened Escape

  // --- signatures ---

  /** The keyed hash under one signing key and the plain hash, both in hexadecimal. */
  datatype Signer = Signer(mac: string -> string, hash: string -> string)

  /** What else goes into every chunk's signature: the request's time and credential scope. */
  datatype Stamp = Stamp(datetime: string, scope: string)

  predicate IsLowerHex(c: char) {
    '0' <= c <= '9' || 'a' <= c <= 'f'
  }

  predicate HexOnly(s: string) {
    s != "" && forall i :: 0 <= i < |s| ==> IsLowerHex(s[i])
  }

  ghost predicate InHex(s: Signer) {
    forall x :: HexOnly(s.mac(x)) && HexOnly(s.hash(x))
  }

  function StringToSign(s: Signer, at: Stamp, prev: string, data: string): string {
    Join(["AWS4-HMAC-SHA256-PAYLOAD", at.datetime, at.scope, prev, s.hash(""), s.hash(data)], '\n')
  }

  /** The signature a chunk must carry behind a chunk signed prev. */
  function Expected(s: Signer, at: Stamp, prev: string, data: string): string {
    s.mac(StringToSign(s, at, prev, data))
  }

  /** The lines that a chunk's signature is made of, spelled out. */
  lemma StringToSignMeans(s: Signer, at: Stamp, prev: string, data: string)
    ensures StringToSign(s, at, prev, data) ==
            "AWS4-HMAC-SHA256-PAYLOAD\n" + at.datetime + "\n" + at.scope + "\n" + prev + "\n" + s.hash("") + "\n" +
            s.hash(data)
  {
    var l := ["AWS4-HMAC-SHA256-PAYLOAD", at.datetime, at.scope, prev, s.hash(""), s.hash(data)];
    JoinSix(l[0], l[1], l[2], l[3], l[4], l[5]);
  }

  lemma ExpectedMeans(s: Signer, at: Stamp, prev: string, data: string)
    ensures Expected(s, at, prev, data) == s.mac(StringToSign(s, at, prev, data))
  {
  }

  // --- reading one chunk ---

  /** What reading on reports when the body is used up. */
  function EndErr(tail: Tail): Err {
    match tail
    case CleanEnd => Eof
    case Broken(code) => SourceErr(code)
  }

  /** strings.TrimRight(s, "\r\n"). */
  function TrimEol(s: string): string {
    if s != [] && (s[|s| - 1] == '\r' || s[|s| - 1] == '\n') then TrimEol(s[..|s| - 1]) else s
  }

  predicate IsSpace1(c: char) {
    '\t' <= c <= '\r' || c == ' '
  }

  /** The UTF-8 encodings of U+0085 and U+00A0. */
  predicate IsSpace2(a: char, b: char) {
    a as int == 0xC2 && (b as int == 0x85 || b as int == 0xA0)
  }

  /** Those of U+1680, U+2000 to U+200A, U+2028, U+2029, U+202F, U+205F and U+3000. */
  predicate IsSpace3(a: char, b: char, c: char) {
    var x, y, z := a as int, b as int, c as int;
    || (x == 0xE1 && y == 0x9A && z == 0x80)
    || (x == 0xE2 && y == 0x80 && (0x80 <= z <= 0x8A || z == 0xA8 || z == 0xA9 || z == 0xAF))
    || (x == 0xE2 && y == 0x81 && z == 0x9F)
    || (x == 0xE3 && y == 0x80 && z == 0x80)
  }

  /** How many bytes the white space at the front, and the one at the back, of s takes; 0 without one. */
  function SpaceInFront(s: string): (n: nat)
    ensures n <= |s|
  {
    if |s| >= 1 && IsSpace1(s[0]) then 1
    else if |s| >= 2 && IsSpace2(s[0], s[1]) then 2
    else if |s| >= 3 && IsSpace3(s[0], s[1], s[2]) then 3
    else 0
  }

  function SpaceBehind(s: string): (n: nat)
    ensures n <= |s|
  {
    var k := |s|;
    if k >= 1 && IsSpace1(s[k - 1]) then 1
    else if k >= 2 && IsSpace2(s[k - 2], s[k - 1]) then 2
    else if k >= 3 && IsSpace3(s[k - 3], s[k - 2], s[k - 1]) then 3
    else 0
  }

  /** strings.TrimSpace on a byte string. */
  function TrimBytes(s: string): string
    decreases |s|
  {
    if SpaceInFront(s) > 0 then TrimBytes(s[SpaceInFront(s)..])
    else if SpaceBehind(s) > 0 then TrimBytes(s[..|s| - SpaceBehind(s)])
    else s
  }

  predicate AllHex(s: string) {
    forall i :: 0 <= i < |s| ==> IsHex(s[i])
  }

  function HexNumber(s: string): nat
    requires AllHex(s)
  {
    if s == [] then 0 else HexNumber(s[..|s| - 1]) * 16 + HexValue(s[|s| - 1])
  }

  const SIZE_LIMIT := 0x8000_0000_0000_0000

  /** strconv.ParseUint(s, 16, 63). */
  function ParseHex(s: string): Option<nat> {
    if s == "" || !AllHex(s) || HexNumber(s) >= SIZE_LIMIT then None else Some(HexNumber(s))
  }

  const SIG_PREFIX := "chunk-signature="

  datatype Header = BadHeader(err: Err) | Header(size: nat, sig: string)

  /** A chunk's header line: the size in hexadecimal, and the signature among the extensions. */
  function ParseHeader(line: string): Header {
    var semi := IndexByte(line, ';');
    if semi < 0 then BadHeader(NoExtension)
    else
      var ext := line[semi + 1..];
      var idx := Index(ext, SIG_PREFIX);
      if idx < 0 then BadHeader(NoSignature)
      else
        var size := ParseHex(line[..semi]);
        if size.None? then BadHeader(BadSize) else Header(size.value, TrimBytes(ext[idx + |SIG_PREFIX|..]))
  }

  datatype Step = Fail(err: Err) | Chunk(data: string, sig: string, rest: string)

  /** The data and line end behind a header. */
  function AfterHeader(size: nat, sig: string, body: string, tail: Tail): Step {
    if |body| < size then Fail(ShortReadErr(tail, |body|))
    else if |body| < size + 2 then Fail(EndErr(tail))
    else Chunk(body[..size], sig, body[size + 2..])
  }

  /** Reads one chunk off the front of a body, without looking at the signature. */
  function Next(body: string, tail: Tail): (step: Step)
    ensures step.Chunk? ==> |step.rest| < |body|
  {
    var nl := IndexByte(body, '\n');
    if nl < 0 then Fail(EndErr(tail))
    else
      var h := ParseHeader(TrimEol(body[..nl + 1]));
      if h.BadHeader? then Fail(h.err) else AfterHeader(h.size, h.sig, body[nl + 1..], tail)
  }

  // --- reading them all ---

  /** The verified non-empty chunks, why reading stopped, and whether that was the verified last chunk. */
  datatype Decoded = Decoded(chunks: seq<string>, err: Err, complete: bool)

  function Decode(s: Signer, at: Stamp, body: string, prev: string, tail: Tail): Decoded
    decreases |body|
  {
    match Next(body, tail)
    case Fail(e) => Decoded([], e, false)
    case Chunk(data, sig, rest) =>
      if sig != Expected(s, at, prev, data) then Decoded([], Mismatch, false)
      else if data == "" then Decoded([], Eof, true)
      else
        var d := Decode(s, at, rest, sig, tail);
        Decoded([data] + d.chunks, d.err, d.complete)
  }

  function Flat(chunks: seq<string>): string {
    if chunks == [] then "" else chunks[0] + Flat(chunks[1..])
  }

  // --- printing ---

  function LowerHex(n: nat): char
    requires n < 16
  {
    if n < 10 then '0' + n as char else 'a' + (n - 10) as char
  }

  /** strconv.FormatInt(n, 16). */
  function HexText(n: nat): (t: string)
    ensures HexOnly(t)
  {
    (if n < 16 then "" else HexText(n / 16)) + [LowerHex(n % 16)]
  }

  function HeaderText(size: nat, sig: string): string {
    HexText(size) + ";chunk-signature=" + sig
  }

  function PrintChunk(data: string, sig: string): string {
    HeaderText(|data|, sig) + "\r\n" + (data + "\r\n")
  }

  /** The chunks, signed one behind the other. */
  function PrintChunks(s: Signer, at: Stamp, chunks: seq<string>, prev: string): string {
    if chunks == [] then ""
    else
      var sig := Expected(s, at, prev, chunks[0]);
      PrintChunk(chunks[0], sig) + PrintChunks(s, at, chunks[1..], sig)
  }

  /** The signature of the last of these chunks. */
  function LastSig(s: Signer, at: Stamp, chunks: seq<string>, prev: string): string {
    if chunks == [] then prev else LastSig(s, at, chunks[1..], Expected(s, at, prev, chunks[0]))
  }

  // --- reading undoes printing ---

  lemma LowerHexRoundTrip(n: nat)
    requires n < 16
    ensures IsHex(LowerHex(n)) && HexValue(LowerHex(n)) == n
  {
  }

  lemma {:induction false} HexTextRoundTrip(n: nat)
    ensures AllHex(HexText(n)) && HexNumber(HexText(n)) == n
  {
    var t := HexText(n);
    LowerHexRoundTrip(n % 16);
    hide LowerHex, HexValue, IsHex;
    if n >= 16 {
      HexTextRoundTrip(n / 16);
      assert t[..|t| - 1] == HexText(n / 16);
    } else {
      assert t[..|t| - 1] == "";
    }
  }

  lemma TrimOfHex(s: string)
    requires HexOnly(s)
    ensures TrimBytes(s) == s
  {
    assert IsLowerHex(s[0]) && IsLowerHex(s[|s| - 1]);
  }

  predicate AsciiSpace(s: string) {
    forall i :: 0 <= i < |s| ==> s[i] in "\t\n\U{0B}\U{0C}\r "
  }

  lemma SpacesAreSpace(s: string, i: nat)
    requires AsciiSpace(s) && i < |s|
    ensures IsSpace1(s[i])
  {
  }

  lemma TrimFront(c: char, s: string)
    requires IsSpace1(c)
    ensures TrimBytes([c] + s) == TrimBytes(s)
  {
    hide IsSpace1, IsSpace2, IsSpace3;
    assert ([c] + s)[0] == c && ([c] + s)[1..] == s;
  }

  lemma TrimBack(s: string, c: char)
    requires IsSpace1(c) && SpaceInFront(s + [c]) == 0
    ensures TrimBytes(s + [c]) == TrimBytes(s)
  {
    hide IsSpace1, IsSpace2, IsSpace3;
    assert (s + [c])[|s|] == c && (s + [c])[..|s|] == s;
  }

  lemma HexInFront(sig: string, s: string)
    requires HexOnly(sig)
    ensures SpaceInFront(sig + s) == 0
  {
    assert IsLowerHex(sig[0]) && (sig + s)[0] == sig[0];
    hide HexOnly;
  }

  /** White space around a signature is taken off. */
  lemma {:induction false} TrimsSpaces(front: string, sig: string, back: string)
    requires AsciiSpace(front) && HexOnly(sig) && AsciiSpace(back)
    ensures TrimBytes(front + sig + back) == sig
    decreases |front| + |back|
  {
    hide AsciiSpace, HexOnly, TrimBytes, SpaceInFront, IsSpace1;
    if front != "" {
      SpacesAreSpace(front, 0);
      SpaceTail(front);
      TrimFront(front[0], front[1..] + sig + back);
      assert front + sig + back == [front[0]] + (front[1..] + sig + back);
      TrimsSpaces(front[1..], sig, back);
    } else if back != "" {
      var n := |back| - 1;
      SpacesAreSpace(back, n);
      SpaceTail(back);
      HexInFront(sig, back);
      assert front + sig + back == sig + back == (front + sig + back[..n]) + [back[n]];
      TrimBack(front + sig + back[..n], back[n]);
      TrimsSpaces(front, sig, back[..n]);
    } else {
      assert front + sig + back == sig;
      TrimOfHex(sig);
    }
  }

  lemma SpaceTail(s: string)
    requires AsciiSpace(s) && s != ""
    ensures AsciiSpace(s[1..]) && AsciiSpace(s[..|s| - 1])
  {
  }

  lemma TrimEolOf(h: string)
    requires h != "" && h[|h| - 1] != '\r' && h[|h| - 1] != '\n'
    ensures TrimEol(h + "\r\n") == h
  {
    var l := h + "\r\n";
    assert l[..|l| - 1] == h + "\r";
    assert (h + "\r")[..|h|] == h;
    assert TrimEol(h + "\r") == TrimEol(h);
  }

  lemma IndexInFront(d: string, t: string)
    requires d != ""
    ensures Index(d + t, d) == 0
  {
    assert d <= d + t;
  }

  lemma ParseHeaderOf(n: string, ext: string)
    requires ';' !in n
    ensures ParseHeader(n + ";" + ext) ==
            var idx := Index(ext, SIG_PREFIX);
            if idx < 0 then BadHeader(NoSignature)
            else if ParseHex(n).None? then BadHeader(BadSize)
            else Header(ParseHex(n).value, TrimBytes(ext[idx + |SIG_PREFIX|..]))
  {
    hide TrimBytes, IndexByte, Index, ParseHex;
    IndexOfFirst(n, ';', ext);
    var line := n + ";" + ext;
    assert line[..|n|] == n && line[|n| + 1..] == ext;
  }

  lemma ParseHexText(n: nat)
    requires n < SIZE_LIMIT
    ensures ParseHex(HexText(n)) == Some(n)
  {
    hide HexText, HexNumber, AllHex;
    HexTextRoundTrip(n);
    HexHasNone(HexText(n), ';');
  }

  /** A size of 2^63 or more is refused. */
  lemma HugeSizeIsRefused(size: nat, sig: string)
    requires size >= 0x8000_0000_0000_0000
    ensures ParseHeader(HeaderText(size, sig)) == BadHeader(BadSize)
  {
    hide HexText, TrimBytes, Index, HexOnly, ParseHeader, HexNumber, AllHex;
    HexHasNone(HexText(size), ';');
    ParseHeaderOf(HexText(size), SIG_PREFIX + sig);
    assert HeaderText(size, sig) == HexText(size) + ";" + (SIG_PREFIX + sig);
    IndexInFront(SIG_PREFIX, sig);
    HexTextRoundTrip(size);
  }

  lemma HeaderRoundTrip(size: nat, sig: string)
    requires HexOnly(sig) && size < 0x8000_0000_0000_0000
    ensures ParseHeader(HeaderText(size, sig)) == Header(size, sig)
  {
    hide HexText, TrimBytes, Index, HexOnly, ParseHex, ParseHeader;
    HexHasNone(HexText(size), ';');
    ParseHeaderOf(HexText(size), SIG_PREFIX + sig);
    assert HeaderText(size, sig) == HexText(size) + ";" + (SIG_PREFIX + sig);
    IndexInFront(SIG_PREFIX, sig);
    assert (SIG_PREFIX + sig)[|SIG_PREFIX|..] == sig;
    TrimOfHex(sig);
    ParseHexText(size);
  }

  /** Also with white space around the signature. */
  lemma HeaderWithSpaces(size: nat, front: string, sig: string, back: string)
    requires HexOnly(sig) && size < SIZE_LIMIT && AsciiSpace(front) && AsciiSpace(back)
    ensures ParseHeader(HexText(size) + ";chunk-signature=" + (front + sig + back)) == Header(size, sig)
  {
    hide HexText, TrimBytes, Index, HexOnly, ParseHex, ParseHeader, AsciiSpace;
    var text := front + sig + back;
    HexHasNone(HexText(size), ';');
    ParseHeaderOf(HexText(size), SIG_PREFIX + text);
    assert HexText(size) + ";chunk-signature=" + text == HexText(size) + ";" + (SIG_PREFIX + text);
    IndexInFront(SIG_PREFIX, text);
    assert (SIG_PREFIX + text)[|SIG_PREFIX|..] == text;
    TrimsSpaces(front, sig, back);
    ParseHexText(size);
  }

  lemma HexHasNone(s: string, c: char)
    requires HexOnly(s) && !IsLowerHex(c)
    ensures c !in s && s != ""
  {
  }

  /** Behind a printed header line, reading goes on with the data it announces. */
  lemma NextOfHeader(size: nat, sig: string, body: string, tail: Tail)
    requires HexOnly(sig) && size < SIZE_LIMIT
    ensures Next(HeaderText(size, sig) + "\r\n" + body, tail) == AfterHeader(size, sig, body, tail)
  {
    hide ParseHeader, TrimEol, IndexByte, AfterHeader, HexText;
    var h := HeaderText(size, sig);
    var w := h + "\r\n" + body;
    HexHasNone(HexText(size), '\n');
    HexHasNone(sig, '\n');
    assert IsLowerHex(sig[|sig| - 1]) && h[|h| - 1] == sig[|sig| - 1];
    assert w == (h + "\r") + ['\n'] + body;
    IndexOfFirst(h + "\r", '\n', body);
    assert w[..|h| + 2] == h + "\r\n" && w[|h| + 2..] == body;
    TrimEolOf(h);
    HeaderRoundTrip(size, sig);
  }

  lemma NextOfPrinted(data: string, sig: string, rest: string, tail: Tail)
    requires HexOnly(sig) && |data| < SIZE_LIMIT
    ensures Next(PrintChunk(data, sig) + rest, tail) == Chunk(data, sig, rest)
  {
    hide Next, HeaderText, HexOnly;
    var body := data + "\r\n" + rest;
    NextOfHeader(|data|, sig, body, tail);
    assert PrintChunk(data, sig) + rest == HeaderText(|data|, sig) + "\r\n" + body;
    assert body[..|data|] == data && body[|data| + 2..] == rest;
  }

  predicate Printable(chunks: seq<string>) {
    forall i :: 0 <= i < |chunks| ==> chunks[i] != "" && |chunks[i]| < SIZE_LIMIT
  }

  /** In front of whatever follows, printed chunks are read back as they were. */
  lemma {:induction false} DecodeOfPrinted(s: Signer, at: Stamp, chunks: seq<string>, prev: string, rest: string,
                                           tail: Tail)
    requires InHex(s) && Printable(chunks)
    ensures var d := Decode(s, at, rest, LastSig(s, at, chunks, prev), tail);
            Decode(s, at, PrintChunks(s, at, chunks, prev) + rest, prev, tail) ==
            Decoded(chunks + d.chunks, d.err, d.complete)
    decreases |chunks|
  {
    hide Next, PrintChunk, Expected;
    var d := Decode(s, at, rest, LastSig(s, at, chunks, prev), tail);
    if chunks == [] {
      assert "" + rest == rest && [] + d.chunks == d.chunks;
    } else {
      var c, more := chunks[0], chunks[1..];
      var sig := Expected(s, at, prev, c);
      assert HexOnly(sig) by {
        ExpectedInHex(s, at, prev, c);
      }
      DecodeOfPrinted(s, at, more, sig, rest, tail);
      Assoc(PrintChunk(c, sig), PrintChunks(s, at, more, sig), rest);
      NextOfPrinted(c, sig, PrintChunks(s, at, more, sig) + rest, tail);
      Assoc([c], more, d.chunks);
      assert chunks == [c] + more;
    }
  }

  lemma ExpectedInHex(s: Signer, at: Stamp, prev: string, data: string)
    requires InHex(s)
    ensures HexOnly(Expected(s, at, prev, data))
  {
    hide StringToSign;
  }

  /** A whole body: the chunks, the empty chunk that ends them, and anything behind it. */
  lemma WholeBodyRoundTrip(s: Signer, at: Stamp, chunks: seq<string>, seed: string, trailer: string, tail: Tail)
    requires InHex(s) && Printable(chunks)
    ensures Decode(s, at, PrintChunks(s, at, chunks + [""], seed) + trailer, seed, tail) == Decoded(chunks, Eof, true)
  {
    hide Next, PrintChunk, Expected;
    var last := LastSig(s, at, chunks, seed);
    var sig := Expected(s, at, last, "");
    ExpectedInHex(s, at, last, "");
    PrintChunksSplit(s, at, chunks, [""], seed);
    assert PrintChunks(s, at, [""], last) == PrintChunk("", sig) + "";
    Assoc(PrintChunks(s, at, chunks, seed), PrintChunks(s, at, [""], last), trailer);
    NextOfPrinted("", sig, trailer, tail);
    assert PrintChunk("", sig) + "" == PrintChunk("", sig);
    DecodeOfPrinted(s, at, chunks, seed, PrintChunks(s, at, [""], last) + trailer, tail);
    assert chunks + [] == chunks;
  }

  lemma {:induction false} PrintChunksSplit(s: Signer, at: Stamp, a: seq<string>, b: seq<string>, prev: string)
    ensures PrintChunks(s, at, a + b, prev) ==
            PrintChunks(s, at, a, prev) + PrintChunks(s, at, b, LastSig(s, at, a, prev))
    decreases |a|
  {
    hide PrintChunk, Expected;
    if a == [] {
      assert a + b == b;
    } else {
      var sig := Expected(s, at, prev, a[0]);
      PrintChunksSplit(s, at, a[1..], b, sig);
      assert (a + b)[0] == a[0] && (a + b)[1..] == a[1..] + b;
      Assoc(PrintChunk(a[0], sig), PrintChunks(s, at, a[1..], sig), PrintChunks(s, at, b, LastSig(s, at, a[1..], sig)));
    }
  }

  // --- which signature a chunk must have ---

  /** A chunk as it arrives with some signature: the size in hexadecimal, the signature, and the data. */
  function Arriving(data: string, sig: string): string {
    HexText(|data|) + ";chunk-signature=" + sig + "\r\n" + data + "\r\n"
  }

  lemma ArrivingIsPrinted(data: string, sig: string)
    ensures Arriving(data, sig) == PrintChunk(data, sig)
  {
    hide HexText;
    Assoc(HeaderText(|data|, sig) + "\r\n", data, "\r\n");
  }

  /**
   * A chunk is delivered, and reading goes on behind it, exactly if its signature is the keyed hash of these
   * lines: the algorithm, time, scope, the signature before it, the hash of nothing, and the hash of its data.
   */
  lemma ChunkIsDeliveredIffSigned(s: Signer, at: Stamp, prev: string, data: string, sig: string, rest: string,
                                  tail: Tail)
    requires HexOnly(sig) && data != "" && |data| < 0x8000_0000_0000_0000
    ensures
      var text := "AWS4-HMAC-SHA256-PAYLOAD\n" + at.datetime + "\n" + at.scope + "\n" + prev + "\n" +
                  s.hash("") + "\n" + s.hash(data);
      var d := Decode(s, at, Arriving(data, sig) + rest, prev, tail);
      if sig == s.mac(text) then
        var more := Decode(s, at, rest, sig, tail);
        d == Decoded([data] + more.chunks, more.err, more.complete)
      else d == Decoded([], Mismatch, false)
  {
    hide Next, PrintChunk, HexText, StringToSign;
    ArrivingIsPrinted(data, sig);
    NextOfPrinted(data, sig, rest, tail);
    StringToSignMeans(s, at, prev, data);
  }

  /** And the empty chunk ends the body exactly if it is signed like that. */
  lemma LastChunkEndsIffSigned(s: Signer, at: Stamp, prev: string, sig: string, rest: string, tail: Tail)
    requires HexOnly(sig)
    ensures
      var text := "AWS4-HMAC-SHA256-PAYLOAD\n" + at.datetime + "\n" + at.scope + "\n" + prev + "\n" +
                  s.hash("") + "\n" + s.hash("");
      Decode(s, at, "0;chunk-signature=" + sig + "\r\n\r\n" + rest, prev, tail) ==
      if sig == s.mac(text) then Decoded([], Eof, true) else Decoded([], Mismatch, false)
  {
    hide Next, PrintChunk, StringToSign;
    assert HexText(0) == "0";
    hide HexText;
    ArrivingIsPrinted("", sig);
    assert Arriving("", sig) == "0;chunk-signature=" + sig + "\r\n\r\n";
    NextOfPrinted("", sig, rest, tail);
    StringToSignMeans(s, at, prev, "");
  }

  /** Sizes are hexadecimal, most significant digit first, and read in either case. */
  lemma SizeExamples()
    ensures HexText(0) == "0" && HexText(26) == "1a"
    ensures ParseHex("1a") == ParseHex("1A") == Some(26) && ParseHex("") == None && ParseHex("g") == None
  {
    assert HexText(1) == "1";
    assert "1a"[..1] == "1A"[..1] == "1" && "1"[..0] == "";
    assert HexNumber("1") == 1;
    assert !IsHex("g"[0]);
  }

  // --- bodies cut short ---

  /** What a cut k bytes into a printed chunk reads as: an error only strictly inside the data. */
  function CutErr(data: string, sig: string, k: nat): Err {
    var dataAt := |HeaderText(|data|, sig)| + 2;
    if dataAt < k < dataAt + |data| then UnexpectedEof else Eof
  }

  lemma NextOfCut(data: string, sig: string, k: nat)
    requires HexOnly(sig) && |data| < SIZE_LIMIT && k < |PrintChunk(data, sig)|
    ensures Next(PrintChunk(data, sig)[..k], CleanEnd) == Fail(CutErr(data, sig, k))
  {
    hide HeaderText;
    var h := HeaderText(|data|, sig);
    var w := PrintChunk(data, sig);
    if k < |h| + 2 {
      HeaderHasNoLf(|data|, sig);
      assert w[..k] == (h + "\r")[..k];
      assert '\n' !in w[..k];
    } else {
      var m := k - (|h| + 2);
      var body := (data + "\r\n")[..m];
      assert w[..k] == h + "\r\n" + body;
      hide Next;
      NextOfHeader(|data|, sig, body, CleanEnd);
    }
  }

  lemma HeaderHasNoLf(size: nat, sig: string)
    requires HexOnly(sig)
    ensures '\n' !in HeaderText(size, sig)
  {
    hide HexText, HexOnly;
    HexHasNone(HexText(size), '\n');
    HexHasNone(sig, '\n');
  }

  /**
   * A body cut k bytes into a chunk delivers the chunks before it and is never complete, yet unless the
   * cut is strictly inside the chunk's data, it ends with the same end of file as a complete body.
   */
  lemma CutBody(s: Signer, at: Stamp, chunks: seq<string>, data: string, seed: string, k: nat)
    requires InHex(s) && Printable(chunks) && |data| < SIZE_LIMIT
    requires k < |PrintChunk(data, Expected(s, at, LastSig(s, at, chunks, seed), data))|
    ensures var sig := Expected(s, at, LastSig(s, at, chunks, seed), data);
            Decode(s, at, PrintChunks(s, at, chunks, seed) + PrintChunk(data, sig)[..k], seed, CleanEnd) ==
            Decoded(chunks, CutErr(data, sig, k), false)
  {
    hide Next, PrintChunk, Expected, CutErr;
    var last := LastSig(s, at, chunks, seed);
    var sig := Expected(s, at, last, data);
    ExpectedInHex(s, at, last, data);
    NextOfCut(data, sig, k);
    DecodeOfPrinted(s, at, chunks, seed, PrintChunk(data, sig)[..k], CleanEnd);
    assert chunks + [] == chunks;
  }
}
