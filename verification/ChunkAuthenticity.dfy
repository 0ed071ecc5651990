/**
 * What a chunk-signed body can deliver when the keyed hash is ideal: whatever was done to the bytes on
 * the wire, and whichever other uploads were signed under the same key, those of the same request at the
 * same time included.
 */
module ChunkAuthenticity {
  import opened Bytes
  import opened Io
  import opened Text
  import opened ChunkFormat

  /**
   * One upload as its sender signed it: the canonical request with its time and scope, and the chunks in
   * order. The empty chunk that ends an upload can only be the last; an upload given up midway has none.
   */
  datatype Upload = Upload(request: string, at: Stamp, chunks: seq<string>)

  const SEED_PREFIX := "AWS4-HMAC-SHA256\n"

  ghost predicate Honest(u: Upload) {
    && '\n' !in u.at.datetime && '\n' !in u.at.scope
    && forall i :: 0 <= i < |u.chunks| ==> u.chunks[i] == "" ==> i == |u.chunks| - 1
  }

  /** Two uploads whose requests are signed alike: same canonical request, same second, same scope. */
  predicate SameRequest(u: Upload, v: Upload) {
    u.request == v.request && u.at == v.at
  }

  /** The text behind a seed signature: the string to sign of the request itself. */
  function SeedText(s: Signer, u: Upload): string {
    Join(["AWS4-HMAC-SHA256", u.at.datetime, u.at.scope, s.hash(u.request)], '\n')
  }

  /** Distinct texts have distinct hashes and distinct signatures. */
  ghost predicate Ideal(s: Signer) {
    && InHex(s)
    && (forall x, y :: s.mac(x) == s.mac(y) ==> x == y)
    && (forall x, y :: s.hash(x) == s.hash(y) ==> x == y)
  }

  /** The i-th text the sender of u signed: the request first, then chunk by chunk. */
  function TextSigned(s: Signer, u: Upload, i: nat): string
    requires i <= |u.chunks|
    decreases i, 0
  {
    if i == 0 then SeedText(s, u) else StringToSign(s, u.at, Tag(s, u, i - 1), u.chunks[i - 1])
  }

  function Tag(s: Signer, u: Upload, i: nat): string
    requires i <= |u.chunks|
    decreases i, 1
  {
    s.mac(TextSigned(s, u, i))
  }

  ghost predicate Family(uploads: seq<Upload>) {
    forall k :: 0 <= k < |uploads| ==> Honest(uploads[k])
  }

  ghost predicate WasSigned(s: Signer, uploads: seq<Upload>, x: string) {
    exists k, i :: 0 <= k < |uploads| && 0 <= i <= |uploads[k].chunks| && x == TextSigned(s, uploads[k], i)
  }

  /** No signature appears on the wire but of a text that was signed. */
  ghost predicate Unforged(s: Signer, uploads: seq<Upload>, wire: string) {
    forall x, a, b :: 0 <= a <= b <= |wire| && wire[a..b] == s.mac(x) ==> WasSigned(s, uploads, x)
  }

  // --- texts that were signed differ ---

  lemma StringToSignInjective(s: Signer, at: Stamp, prev: string, data: string, at': Stamp, prev': string,
                              data': string)
    requires InHex(s) && HexOnly(prev) && HexOnly(prev')
    requires '\n' !in at.datetime && '\n' !in at.scope && '\n' !in at'.datetime && '\n' !in at'.scope
    requires StringToSign(s, at, prev, data) == StringToSign(s, at', prev', data')
    ensures at == at' && prev == prev' && s.hash(data) == s.hash(data')
  {
    hide Join, Split, HexOnly;
    var l := ["AWS4-HMAC-SHA256-PAYLOAD", at.datetime, at.scope, prev, s.hash(""), s.hash(data)];
    var l' := ["AWS4-HMAC-SHA256-PAYLOAD", at'.datetime, at'.scope, prev', s.hash(""), s.hash(data')];
    HexHasNone(prev, '\n');
    HexHasNone(prev', '\n');
    HexHasNone(s.hash(""), '\n');
    HexHasNone(s.hash(data), '\n');
    HexHasNone(s.hash(data'), '\n');
    SplitOfJoin(l, '\n');
    SplitOfJoin(l', '\n');
    assert l == l';
    assert l[1] == l'[1] && l[2] == l'[2] && l[3] == l'[3] && l[5] == l'[5];
  }

  /** A chunk's text is never that of a request. */
  lemma ChunkTextIsNoSeedText(s: Signer, at: Stamp, prev: string, data: string)
    ensures !(SEED_PREFIX <= StringToSign(s, at, prev, data))
  {
    var rest := Join([at.datetime, at.scope, prev, s.hash(""), s.hash(data)], '\n');
    assert ["AWS4-HMAC-SHA256-PAYLOAD", at.datetime, at.scope, prev, s.hash(""), s.hash(data)][1..] ==
           [at.datetime, at.scope, prev, s.hash(""), s.hash(data)];
    var t := StringToSign(s, at, prev, data);
    assert t == "AWS4-HMAC-SHA256-PAYLOAD" + ['\n'] + rest;
    assert t[16] == '-' && SEED_PREFIX[16] == '\n';
  }

  /** The lines that a seed signature is made of, spelled out. */
  lemma SeedTextMeans(s: Signer, u: Upload)
    ensures SeedText(s, u) ==
            "AWS4-HMAC-SHA256\n" + u.at.datetime + "\n" + u.at.scope + "\n" + s.hash(u.request)
  {
    var a, b, c, d := "AWS4-HMAC-SHA256", u.at.datetime, u.at.scope, s.hash(u.request);
    JoinAppend([a], b, '\n');
    JoinAppend([a, b], c, '\n');
    JoinAppend([a, b, c], d, '\n');
    assert [a] + [b] == [a, b] && [a, b] + [c] == [a, b, c] && [a, b, c] + [d] == [a, b, c, d];
  }

  lemma SeedTextStarts(s: Signer, u: Upload)
    ensures SEED_PREFIX <= SeedText(s, u)
  {
    var l := ["AWS4-HMAC-SHA256", u.at.datetime, u.at.scope, s.hash(u.request)];
    assert Join(l, '\n') == l[0] + ['\n'] + Join(l[1..], '\n');
  }

  lemma SeedFieldsAgree(s: Signer, u: Upload, v: Upload)
    requires InHex(s) && Honest(u) && Honest(v) && SeedText(s, u) == SeedText(s, v)
    ensures u.at == v.at && s.hash(u.request) == s.hash(v.request)
  {
    hide Join, Split, HexOnly;
    var l := ["AWS4-HMAC-SHA256", u.at.datetime, u.at.scope, s.hash(u.request)];
    var l' := ["AWS4-HMAC-SHA256", v.at.datetime, v.at.scope, s.hash(v.request)];
    HexHasNone(s.hash(u.request), '\n');
    HexHasNone(s.hash(v.request), '\n');
    SplitOfJoin(l, '\n');
    SplitOfJoin(l', '\n');
    hide InHex;
    assert l == l';
    assert l[1] == l'[1] && l[2] == l'[2] && l[3] == l'[3];
  }

  lemma SeedTextInjective(s: Signer, u: Upload, v: Upload)
    requires Ideal(s) && Honest(u) && Honest(v)
    ensures SeedText(s, u) == SeedText(s, v) <==> SameRequest(u, v)
  {
    hide InHex, Honest;
    if SeedText(s, u) == SeedText(s, v) {
      SeedFieldsAgree(s, u, v);
      hide SeedText;
    }
  }

  lemma TagInHex(s: Signer, u: Upload, i: nat)
    requires InHex(s) && i <= |u.chunks|
    ensures HexOnly(Tag(s, u, i))
  {
    hide TextSigned;
  }

  /** Two signatures are the same exactly if they are in the same place behind the same request and chunks. */
  lemma {:induction false} TagsAgree(s: Signer, u: Upload, i: nat, v: Upload, j: nat)
    requires Ideal(s) && Honest(u) && Honest(v) && i <= |u.chunks| && j <= |v.chunks|
    ensures Tag(s, u, i) == Tag(s, v, j) <==> i == j && SameRequest(u, v) && u.chunks[..i] == v.chunks[..j]
    decreases i
  {
    hide StringToSign, InHex, SeedText, Honest;
    assert Tag(s, u, i) == Tag(s, v, j) <==> TextSigned(s, u, i) == TextSigned(s, v, j);
    SeedTextStarts(s, u);
    SeedTextStarts(s, v);
    SeedTextInjective(s, u, v);
    if i > 0 {
      ChunkTextIsNoSeedText(s, u.at, Tag(s, u, i - 1), u.chunks[i - 1]);
    }
    if j > 0 {
      ChunkTextIsNoSeedText(s, v.at, Tag(s, v, j - 1), v.chunks[j - 1]);
    }
    if i > 0 && j > 0 {
      TagsAgree(s, u, i - 1, v, j - 1);
      ChunkTextsAgree(s, u, i, v, j);
      assert u.chunks[..i] == u.chunks[..i - 1] + [u.chunks[i - 1]];
      assert v.chunks[..j] == v.chunks[..j - 1] + [v.chunks[j - 1]];
    }
  }

  lemma ChunkTextsAgree(s: Signer, u: Upload, i: nat, v: Upload, j: nat)
    requires Ideal(s) && Honest(u) && Honest(v) && 0 < i <= |u.chunks| && 0 < j <= |v.chunks|
    ensures TextSigned(s, u, i) == TextSigned(s, v, j) <==>
            u.at == v.at && Tag(s, u, i - 1) == Tag(s, v, j - 1) && u.chunks[i - 1] == v.chunks[j - 1]
  {
    hide Tag, StringToSign;
    TagInHex(s, u, i - 1);
    TagInHex(s, v, j - 1);
    if TextSigned(s, u, i) == TextSigned(s, v, j) {
      StringToSignInjective(s, u.at, Tag(s, u, i - 1), u.chunks[i - 1], v.at, Tag(s, v, j - 1), v.chunks[j - 1]);
    }
  }

  /**
   * A chunk that carries a genuine signature behind the first i of an upload is the next chunk of an
   * upload of the same request that begins with the same i chunks.
   */
  lemma GenuineIsNext(s: Signer, uploads: seq<Upload>, k: nat, i: nat, data: string) returns (l: nat)
    requires Ideal(s) && Family(uploads) && k < |uploads| && i <= |uploads[k].chunks|
    requires WasSigned(s, uploads, StringToSign(s, uploads[k].at, Tag(s, uploads[k], i), data))
    ensures l < |uploads| && SameRequest(uploads[l], uploads[k]) && i < |uploads[l].chunks|
    ensures uploads[l].chunks[..i] == uploads[k].chunks[..i] && uploads[l].chunks[i] == data
    ensures Expected(s, uploads[k].at, Tag(s, uploads[k], i), data) == Tag(s, uploads[l], i + 1)
  {
    hide StringToSign, InHex, Tag, SeedText;
    var u := uploads[k];
    var x := StringToSign(s, u.at, Tag(s, u, i), data);
    var l', j :| 0 <= l' < |uploads| && 0 <= j <= |uploads[l'].chunks| && x == TextSigned(s, uploads[l'], j);
    l := l';
    var v := uploads[l];
    ChunkTextIsNoSeedText(s, u.at, Tag(s, u, i), data);
    SeedTextStarts(s, v);
    assert j > 0;
    TagInHex(s, u, i);
    TagInHex(s, v, j - 1);
    StringToSignInjective(s, u.at, Tag(s, u, i), data, v.at, Tag(s, v, j - 1), v.chunks[j - 1]);
    TagsAgree(s, u, i, v, j - 1);
    TagMeans(s, v, i + 1);
  }

  lemma TagMeans(s: Signer, u: Upload, i: nat)
    requires i <= |u.chunks|
    ensures Tag(s, u, i) == s.mac(TextSigned(s, u, i))
  {
  }

  // --- slices of the wire ---

  ghost predicate SliceOf(t: string, w: string) {
    exists a, b :: 0 <= a <= b <= |w| && w[a..b] == t
  }

  lemma SliceIs(w: string, a: nat, b: nat)
    requires a <= b <= |w|
    ensures SliceOf(w[a..b], w)
  {
  }

  lemma SliceTransitive(r: string, t: string, w: string)
    requires SliceOf(r, t) && SliceOf(t, w)
    ensures SliceOf(r, w)
  {
    var a, b :| 0 <= a <= b <= |w| && w[a..b] == t;
    var c, d :| 0 <= c <= d <= |t| && t[c..d] == r;
    SliceOfSlice(w, a, b, c, d);
    assert w[a + c..a + d] == r;
  }

  lemma {:induction false} TrimBytesSlice(s: string)
    ensures SliceOf(TrimBytes(s), s)
    decreases |s|
  {
    hide SliceOf;
    SliceIs(s, 0, |s|);
    assert s[0..|s|] == s;
    var f, b := SpaceInFront(s), SpaceBehind(s);
    if f > 0 {
      TrimBytesSlice(s[f..]);
      SliceIs(s, f, |s|);
      assert s[f..|s|] == s[f..];
      SliceTransitive(TrimBytes(s), s[f..], s);
    } else if b > 0 {
      TrimBytesSlice(s[..|s| - b]);
      SliceIs(s, 0, |s| - b);
      assert s[0..|s| - b] == s[..|s| - b];
      SliceTransitive(TrimBytes(s), s[..|s| - b], s);
    }
  }

  lemma {:induction false} TrimEolPrefix(s: string)
    ensures TrimEol(s) <= s
    decreases |s|
  {
    if s != [] && (s[|s| - 1] == '\r' || s[|s| - 1] == '\n') {
      TrimEolPrefix(s[..|s| - 1]);
    }
  }

  lemma HeaderSigSlice(line: string)
    requires ParseHeader(line).Header?
    ensures SliceOf(ParseHeader(line).sig, line)
  {
    hide SliceOf, TrimBytes, IndexByte, Index, ParseHex;
    var semi := IndexByte(line, ';');
    var ext := line[semi + 1..];
    var from := Index(ext, SIG_PREFIX) + |SIG_PREFIX|;
    var n := semi + 1 + from;
    assert ext[from..] == line[n..|line|];
    SliceIs(line, n, |line|);
    TrimBytesSlice(ext[from..]);
    SliceTransitive(TrimBytes(ext[from..]), ext[from..], line);
  }

  lemma NextSlices(body: string, tail: Tail)
    requires Next(body, tail).Chunk?
    ensures SliceOf(Next(body, tail).sig, body) && SliceOf(Next(body, tail).rest, body)
  {
    hide SliceOf, ParseHeader, TrimEol, IndexByte;
    var nl := IndexByte(body, '\n');
    var line := TrimEol(body[..nl + 1]);
    var h := ParseHeader(line);
    TrimEolPrefix(body[..nl + 1]);
    assert line == body[0..|line|];
    SliceIs(body, 0, |line|);
    HeaderSigSlice(line);
    SliceTransitive(h.sig, line, body);
    var n := nl + 1 + h.size + 2;
    assert body[nl + 1..][h.size + 2..] == body[n..|body|];
    SliceIs(body, n, |body|);
  }

  lemma UnforgedSlice(s: Signer, uploads: seq<Upload>, wire: string, x: string)
    requires Unforged(s, uploads, wire) && SliceOf(s.mac(x), wire)
    ensures WasSigned(s, uploads, x)
  {
    hide WasSigned;
  }

  // --- the theorem ---

  /** What is delivered of an upload, its last empty chunk counted in when it was verified. */
  function Accepted(d: Decoded): seq<string> {
    if d.complete then d.chunks + [""] else d.chunks
  }

  lemma {:induction false} AcceptedFrom(s: Signer, uploads: seq<Upload>, k: nat, i: nat, wire: string,
                                        body: string, tail: Tail) returns (l: nat)
    requires Ideal(s) && Family(uploads) && k < |uploads| && i <= |uploads[k].chunks|
    requires Unforged(s, uploads, wire) && SliceOf(body, wire)
    ensures l < |uploads| && SameRequest(uploads[l], uploads[k])
    ensures i <= |uploads[l].chunks| && uploads[l].chunks[..i] == uploads[k].chunks[..i]
    ensures Accepted(Decode(s, uploads[k].at, body, Tag(s, uploads[k], i), tail)) <= uploads[l].chunks[i..]
    decreases |body|
  {
    hide Ideal, Family, Unforged, SliceOf, Next, Expected, Tag, SameRequest, StringToSign;
    l := k;
    SameRequestIsEquivalence(uploads, k);
    var u := uploads[k];
    var prev := Tag(s, u, i);
    var step := Next(body, tail);
    if step.Chunk? && step.sig == Expected(s, u.at, prev, step.data) {
      NextSlices(body, tail);
      SliceTransitive(step.sig, body, wire);
      SliceTransitive(step.rest, body, wire);
      ExpectedMeans(s, u.at, prev, step.data);
      UnforgedSlice(s, uploads, wire, StringToSign(s, u.at, prev, step.data));
      l := GenuineIsNext(s, uploads, k, i, step.data);
      var v := uploads[l];
      assert v.chunks[i..] == [step.data] + v.chunks[i + 1..];
      if step.data != "" {
        var m := AcceptedFrom(s, uploads, l, i + 1, wire, step.rest, tail);
        var w := uploads[m];
        ShorterPrefix(w.chunks, v.chunks, i);
        l := m;
        AcceptedCons(Decode(s, u.at, step.rest, step.sig, tail), w.chunks, i);
      }
    }
  }

  lemma ShorterPrefix<T>(a: seq<T>, b: seq<T>, i: nat)
    requires i < |a| && i < |b| && a[..i + 1] == b[..i + 1]
    ensures a[..i] == b[..i] && a[i] == b[i]
  {
    assert a[..i] == a[..i + 1][..i] && b[..i] == b[..i + 1][..i];
    assert a[i] == a[..i + 1][i] && b[i] == b[..i + 1][i];
  }

  lemma AcceptedCons(d: Decoded, chunks: seq<string>, i: nat)
    requires i < |chunks| && Accepted(d) <= chunks[i + 1..]
    ensures Accepted(d.(chunks := [chunks[i]] + d.chunks)) <= chunks[i..]
  {
    Assoc([chunks[i]], d.chunks, [""]);
    assert chunks[i..] == [chunks[i]] + chunks[i + 1..];
  }

  lemma SameRequestIsEquivalence(uploads: seq<Upload>, k: nat)
    requires k < |uploads|
    ensures SameRequest(uploads[k], uploads[k])
    ensures forall l, m :: 0 <= l < |uploads| && 0 <= m < |uploads| && SameRequest(uploads[l], uploads[k]) ==>
              uploads[l].at == uploads[k].at
              && (SameRequest(uploads[m], uploads[l]) ==> SameRequest(uploads[m], uploads[k]))
  {
  }

  /** A decoding delivers a prefix of an upload, and all of it if it is complete. */
  ghost predicate DeliversPrefixOf(d: Decoded, u: Upload) {
    && d.chunks <= u.chunks && Flat(d.chunks) <= Flat(u.chunks)
    && (d.complete ==> u.chunks == d.chunks + [""] && Flat(d.chunks) == Flat(u.chunks))
  }

  /**
   * Whatever arrives in place of an upload's body, what is delivered is a prefix of the chunks that one
   * sender signed, in order, behind that very request; and all of them, once the last empty chunk verifies.
   */
  lemma DeliveredIsSignedPrefix(s: Signer, uploads: seq<Upload>, k: nat, wire: string, tail: Tail) returns (l: nat)
    requires Ideal(s) && Family(uploads) && k < |uploads| && Unforged(s, uploads, wire)
    ensures l < |uploads| && SameRequest(uploads[l], uploads[k])
    ensures DeliversPrefixOf(Decode(s, uploads[k].at, wire, Tag(s, uploads[k], 0), tail), uploads[l])
  {
    hide Ideal, Unforged, Decode, Tag, Flat, SliceOf;
    SliceIs(wire, 0, |wire|);
    assert wire[0..|wire|] == wire;
    l := AcceptedFrom(s, uploads, k, 0, wire, wire, tail);
    var v := uploads[l];
    assert v.chunks[0..] == v.chunks;
    var d := Decode(s, uploads[k].at, wire, Tag(s, uploads[k], 0), tail);
    FlatPrefix(d.chunks, v.chunks);
    if d.complete {
      var n := |d.chunks|;
      assert v.chunks[n] == (d.chunks + [""])[n] == "";
      assert Honest(v);
      assert v.chunks == d.chunks + [""];
      FlatOfTwo(d.chunks, [""]);
      FlatOfEmpty();
    }
  }

  /** Every upload of the same request, time and scope is a beginning of this one. */
  ghost predicate NoneGoesFurther(uploads: seq<Upload>, k: nat)
    requires k < |uploads|
  {
    forall l :: 0 <= l < |uploads| && SameRequest(uploads[l], uploads[k]) ==> uploads[l].chunks <= uploads[k].chunks
  }

  lemma PrefixOfLonger(d: Decoded, v: Upload, u: Upload)
    requires DeliversPrefixOf(d, v) && v.chunks <= u.chunks && Honest(u)
    ensures DeliversPrefixOf(d, u)
  {
    hide Flat;
    FlatPrefix(d.chunks, u.chunks);
    if d.complete {
      assert v.chunks[|d.chunks|] == "" && u.chunks[|d.chunks|] == v.chunks[|d.chunks|];
      assert u.chunks == v.chunks;
    }
  }

  /** Then these are the upload's own chunks: if no other upload has the same request, time and scope, say. */
  lemma DeliveredIsOwnPrefix(s: Signer, uploads: seq<Upload>, k: nat, wire: string, tail: Tail)
    requires Ideal(s) && Family(uploads) && k < |uploads| && Unforged(s, uploads, wire)
    requires NoneGoesFurther(uploads, k)
    ensures DeliversPrefixOf(Decode(s, uploads[k].at, wire, Tag(s, uploads[k], 0), tail), uploads[k])
  {
    hide Ideal, Unforged, Decode, Tag;
    var l := DeliveredIsSignedPrefix(s, uploads, k, wire, tail);
    PrefixOfLonger(Decode(s, uploads[k].at, wire, Tag(s, uploads[k], 0), tail), uploads[l], uploads[k]);
  }

  /** The body as an upload's sender prints it. */
  function Wire(s: Signer, u: Upload): string {
    PrintChunks(s, u.at, u.chunks, Tag(s, u, 0))
  }

  predicate Sizeable(u: Upload) {
    forall i :: 0 <= i < |u.chunks| ==> |u.chunks[i]| < SIZE_LIMIT
  }

  /** Another upload's body is delivered just as its sender meant it. */
  lemma OtherBodyIsDelivered(s: Signer, u: Upload, v: Upload, tail: Tail)
    requires Ideal(s) && SameRequest(u, v) && Honest(v) && Sizeable(v)
    ensures Accepted(Decode(s, u.at, Wire(s, v), Tag(s, u, 0), tail)) == v.chunks
  {
    hide Ideal, Decode, PrintChunks, Next;
    IdealInHex(s);
    SameSeed(s, u, v);
    hide Tag, InHex;
    var n := |v.chunks|;
    if n > 0 && v.chunks[n - 1] == "" {
      var chunks := v.chunks[..n - 1];
      assert v.chunks == chunks + [""];
      EqualRequestsExchange(s, u, v, chunks, tail);
    } else {
      var body, end := Wire(s, v), LastSig(s, v.at, v.chunks, Tag(s, v, 0));
      DecodeOfPrinted(s, v.at, v.chunks, Tag(s, v, 0), "", tail);
      DecodeOfNothing(s, v.at, end, tail);
      assert body + "" == body && v.chunks + [] == v.chunks;
    }
  }

  lemma DecodeOfNothing(s: Signer, at: Stamp, prev: string, tail: Tail)
    ensures Decode(s, at, "", prev, tail) == Decoded([], EndErr(tail), false)
  {
  }

  lemma SameSeed(s: Signer, u: Upload, v: Upload)
    requires SameRequest(u, v)
    ensures Tag(s, u, 0) == Tag(s, v, 0) && u.at == v.at
  {
  }

  lemma AcceptedOfPrefix(d: Decoded, u: Upload)
    requires DeliversPrefixOf(d, u)
    ensures Accepted(d) <= u.chunks
  {
  }

  /**
   * And only then: what is delivered is, on every unforged wire, a prefix of the upload's own chunks exactly
   * if every upload of the same request, time and scope is a beginning of it, provided that what those
   * uploads' senders print is unforged.
   */
  lemma DeliveredIsOwnIffNoneGoesFurther(s: Signer, uploads: seq<Upload>, k: nat, tail: Tail)
    requires Ideal(s) && Family(uploads) && k < |uploads|
    requires forall l :: 0 <= l < |uploads| && SameRequest(uploads[l], uploads[k]) ==>
               Sizeable(uploads[l]) && Unforged(s, uploads, Wire(s, uploads[l]))
    ensures
      (forall wire :: Unforged(s, uploads, wire) ==>
         DeliversPrefixOf(Decode(s, uploads[k].at, wire, Tag(s, uploads[k], 0), tail), uploads[k])) <==>
      NoneGoesFurther(uploads, k)
  {
    hide Ideal, Unforged, Decode, Tag, Wire, DeliversPrefixOf, Honest, Sizeable, SameRequest;
    var u := uploads[k];
    if NoneGoesFurther(uploads, k) {
      forall wire | Unforged(s, uploads, wire)
        ensures DeliversPrefixOf(Decode(s, u.at, wire, Tag(s, u, 0), tail), u)
      {
        DeliveredIsOwnPrefix(s, uploads, k, wire, tail);
      }
    } else {
      var l :| 0 <= l < |uploads| && SameRequest(uploads[l], u) && !(uploads[l].chunks <= u.chunks);
      var wire := Wire(s, uploads[l]);
      SameRequestCommutes(u, uploads[l]);
      OtherBodyIsDelivered(s, u, uploads[l], tail);
      var d := Decode(s, u.at, wire, Tag(s, u, 0), tail);
      if DeliversPrefixOf(d, u) {
        AcceptedOfPrefix(d, u);
      }
      assert Unforged(s, uploads, wire) && !DeliversPrefixOf(d, u);
    }
  }

  lemma SameRequestCommutes(u: Upload, v: Upload)
    ensures SameRequest(u, v) <==> SameRequest(v, u)
  {
  }

  /**
   * What goes wrong otherwise: of two uploads of the same request at the same time and in the same scope, the
   * reader of either accepts the other's body as complete.
   */
  lemma EqualRequestsExchange(s: Signer, u: Upload, v: Upload, chunks: seq<string>, tail: Tail)
    requires InHex(s) && SameRequest(u, v) && v.chunks == chunks + [""] && Printable(chunks)
    ensures Decode(s, u.at, PrintChunks(s, v.at, v.chunks, Tag(s, v, 0)), Tag(s, u, 0), tail) ==
            Decoded(chunks, Eof, true)
  {
    hide Decode, PrintChunks;
    var body := PrintChunks(s, v.at, v.chunks, Tag(s, v, 0));
    WholeBodyRoundTrip(s, v.at, chunks, Tag(s, v, 0), "", tail);
    assert body + "" == body;
  }

  /** An instance: the sender of u signed "A", its reader delivers "B" and a clean, verified end. */
  lemma ExchangedBody(s: Signer, request: string, at: Stamp)
    requires InHex(s)
    ensures
      var u, v := Upload(request, at, ["A", ""]), Upload(request, at, ["B", ""]);
      var d := Decode(s, at, PrintChunks(s, at, v.chunks, Tag(s, v, 0)), Tag(s, u, 0), CleanEnd);
      d == Decoded(["B"], Eof, true) && !DeliversPrefixOf(d, u)
  {
    hide Decode, PrintChunks, Tag;
    var u, v := Upload(request, at, ["A", ""]), Upload(request, at, ["B", ""]);
    assert v.chunks == ["B"] + [""];
    EqualRequestsExchange(s, u, v, ["B"], CleanEnd);
    assert ["B"][0] != u.chunks[0];
  }

  lemma {:induction false} FlatOfTwo(a: seq<string>, b: seq<string>)
    ensures Flat(a + b) == Flat(a) + Flat(b)
    decreases |a|
  {
    if a == [] {
      assert a + b == b;
    } else {
      FlatOfTwo(a[1..], b);
      assert (a + b)[0] == a[0] && (a + b)[1..] == a[1..] + b;
    }
  }

  lemma FlatOfEmpty()
    ensures Flat([""]) == ""
  {
  }

  lemma FlatPrefix(a: seq<string>, b: seq<string>)
    requires a <= b
    ensures Flat(a) <= Flat(b)
  {
    assert b == a + b[|a|..];
    FlatOfTwo(a, b[|a|..]);
  }

  // --- the assumption can be met ---

  function Zeros(n: nat): (z: string)
    ensures |z| == n && forall i :: 0 <= i < n ==> z[i] == '0'
  {
    if n == 0 then "" else "0" + Zeros(n - 1)
  }

  /** A code in hexadecimal digits that loses nothing (and, of course, hides nothing). */
  function Code(x: string): string {
    if x == [] then "f" else Zeros(x[0] as nat) + ("1" + Code(x[1..]))
  }

  lemma FirstDigit(n: nat, c: char, s: string, m: nat, d: char, t: string)
    requires c != '0' && d != '0' && Zeros(n) + ([c] + s) == Zeros(m) + ([d] + t)
    ensures n == m && c == d && s == t
  {
    hide Zeros;
    var l, r := Zeros(n) + ([c] + s), Zeros(m) + ([d] + t);
    assert l[n] == c && r[m] == d;
    assert forall i :: 0 <= i < n ==> l[i] == '0';
    assert forall i :: 0 <= i < m ==> r[i] == '0';
    assert l[n + 1..] == s && r[m + 1..] == t;
  }

  /** Behind either code may come anything: where one ends is plain from the code itself. */
  lemma {:induction false} CodePrefixFree(x: string, r: string, y: string, q: string)
    requires Code(x) + r == Code(y) + q
    ensures x == y
    decreases |x|
  {
    hide Zeros, Code;
    CodeStarts(x, r);
    CodeStarts(y, q);
    if x == [] && y == [] {
    } else if x == [] {
      FirstDigit(0, 'f', r, y[0] as nat, '1', Code(y[1..]) + q);
    } else if y == [] {
      FirstDigit(x[0] as nat, '1', Code(x[1..]) + r, 0, 'f', q);
    } else {
      FirstDigit(x[0] as nat, '1', Code(x[1..]) + r, y[0] as nat, '1', Code(y[1..]) + q);
      CodePrefixFree(x[1..], r, y[1..], q);
      assert x == [x[0]] + x[1..] && y == [y[0]] + y[1..];
    }
  }

  lemma CodeStarts(x: string, r: string)
    ensures x == [] ==> Code(x) + r == Zeros(0) + (['f'] + r)
    ensures x != [] ==> Code(x) + r == Zeros(x[0] as nat) + (['1'] + (Code(x[1..]) + r))
  {
    if x != [] {
      Assoc(Zeros(x[0] as nat), "1" + Code(x[1..]), r);
      Assoc("1", Code(x[1..]), r);
    }
  }

  lemma {:induction false} CodeDigits(x: string)
    ensures Code(x) != "" && Code(x)[0] != '=' && 'e' !in Code(x) && HexOnly(Code(x))
    decreases |x|
  {
    hide Zeros;
    if x != [] {
      CodeDigits(x[1..]);
    }
  }

  function Toy(): Signer {
    Signer(x => "e" + Code(x), Code)
  }

  lemma ToyIsIdeal()
    ensures Ideal(Toy())
  {
    hide Code, HexOnly;
    var s := Toy();
    forall x
      ensures HexOnly(s.mac(x)) && HexOnly(s.hash(x))
    {
      CodeDigits(x);
      ConsHex(Code(x));
    }
    forall x, y | Code(x) == Code(y)
      ensures x == y
    {
      CodePrefixFree(x, "", y, "");
    }
    forall x, y | s.mac(x) == s.mac(y)
      ensures x == y
    {
      assert ("e" + Code(x))[1..] == Code(x) && ("e" + Code(y))[1..] == Code(y);
    }
  }

  lemma ConsHex(t: string)
    requires HexOnly(t)
    ensures HexOnly("e" + t)
  {
  }

  /** Every 'e' is followed by "=" or begins the signature of a text that was signed. */
  ghost predicate Marked(uploads: seq<Upload>, w: string) {
    forall a :: 0 <= a < |w| && w[a] == 'e' ==> MarkAt(uploads, w[a + 1..])
  }

  ghost predicate MarkAt(uploads: seq<Upload>, r: string) {
    "=" <= r || exists y :: Code(y) <= r && WasSigned(Toy(), uploads, y)
  }

  lemma MarkedBehind(uploads: seq<Upload>, p: string, w: string)
    requires Marked(uploads, w) && Plain(p)
    ensures Marked(uploads, p + w)
  {
    hide MarkAt;
    forall a | 0 <= a < |p + w| && (p + w)[a] == 'e'
      ensures MarkAt(uploads, (p + w)[a + 1..])
    {
      if a < |p| {
        MarkedByEquals(uploads, (p + w)[a + 1..]);
      } else {
        assert (p + w)[a + 1..] == w[a - |p| + 1..];
      }
    }
  }

  lemma MarkedByEquals(uploads: seq<Upload>, r: string)
    requires r != "" && r[0] == '='
    ensures MarkAt(uploads, r)
  {
  }

  lemma MarkedTag(uploads: seq<Upload>, y: string, w: string)
    requires Marked(uploads, w) && WasSigned(Toy(), uploads, y)
    ensures Marked(uploads, Toy().mac(y) + w)
  {
    CodeDigits(y);
    hide Code, WasSigned, HexOnly;
    var t := "e" + Code(y) + w;
    assert t[1..] == Code(y) + w;
    forall a | 0 <= a < |t| && t[a] == 'e'
      ensures MarkAt(uploads, t[a + 1..])
    {
      if 0 < a {
        assert a > |Code(y)|;
        assert t[a + 1..] == w[a - 1 - |Code(y)| + 1..];
      }
    }
  }

  lemma MarkedIsUnforged(uploads: seq<Upload>, w: string)
    requires Marked(uploads, w)
    ensures Unforged(Toy(), uploads, w)
  {
    hide Code, WasSigned, HexOnly;
    forall x, a, b | 0 <= a <= b <= |w| && w[a..b] == Toy().mac(x)
      ensures WasSigned(Toy(), uploads, x)
    {
      CodeDigits(x);
      assert w[a..b][0] == 'e';
      assert w[a + 1..b] == w[a..b][1..] == Code(x);
      var r := w[a + 1..];
      assert r == Code(x) + w[b..];
      assert MarkAt(uploads, r);
      var y :| Code(y) <= r && WasSigned(Toy(), uploads, y);
      assert r == Code(y) + r[|Code(y)|..];
      CodePrefixFree(x, w[b..], y, r[|Code(y)|..]);
    }
  }

  const FRONT: string := "1;chunk-signature="
  const MIDDLE: string := "\r\nA\r\n0;chunk-signature="
  const BACK: string := "\r\n\r\n"

  ghost predicate Plain(p: string) {
    forall a :: 0 <= a < |p| && p[a] == 'e' ==> a + 1 < |p| && p[a + 1] == '='
  }

  lemma Plains(uploads: seq<Upload>)
    ensures Plain(FRONT) && Plain(MIDDLE) && Marked(uploads, BACK)
  {
    hide MarkAt;
  }

  lemma PrintedA(x: string, w: string)
    ensures PrintChunk("A", x) + w == FRONT + (x + ("\r\nA\r\n" + w))
  {
    assert HexText(1) == "1";
    hide HexText;
    assert HeaderText(1, x) == FRONT + x;
    hide HeaderText;
    Assoc(FRONT, x, "\r\nA\r\n" + w);
    Assoc(FRONT + x, "\r\nA\r\n", w);
    Assoc(FRONT + x, "\r\n", "A" + "\r\n");
  }

  lemma PrintedLast(y: string)
    ensures PrintChunk("", y) == "0;chunk-signature=" + (y + BACK)
  {
    assert HexText(0) == "0";
    hide HexText;
    assert HeaderText(0, y) == "0;chunk-signature=" + y;
    hide HeaderText;
    Assoc("0;chunk-signature=", y, BACK);
    Assoc("0;chunk-signature=" + y, "\r\n", "" + "\r\n");
  }

  lemma PrintedWire(s: Signer, at: Stamp, seed: string)
    ensures
      var x := Expected(s, at, seed, "A");
      PrintChunks(s, at, ["A", ""], seed) == FRONT + (x + (MIDDLE + (Expected(s, at, x, "") + BACK)))
  {
    hide Expected, PrintChunk;
    var x := Expected(s, at, seed, "A");
    var y := Expected(s, at, x, "");
    assert ["A", ""][1..] == [""] && [""][1..] == [];
    assert PrintChunks(s, at, [""], x) == PrintChunk("", y) + "" == PrintChunk("", y);
    PrintedA(x, PrintChunk("", y));
    PrintedLast(y);
    Assoc("\r\nA\r\n", "0;chunk-signature=", y + BACK);
  }

  lemma Texts(s: Signer, u: Upload)
    requires u.chunks == ["A", ""]
    ensures Expected(s, u.at, Tag(s, u, 0), "A") == s.mac(TextSigned(s, u, 1)) == Tag(s, u, 1)
    ensures Expected(s, u.at, Tag(s, u, 1), "") == s.mac(TextSigned(s, u, 2))
  {
    hide StringToSign, SeedText;
  }

  lemma WireIsMarked(u: Upload, uploads: seq<Upload>)
    requires u.chunks == ["A", ""] && uploads == [u]
    ensures Marked(uploads, PrintChunks(Toy(), u.at, u.chunks, Tag(Toy(), u, 0)))
  {
    var s := Toy();
    var x, y := TextSigned(s, u, 1), TextSigned(s, u, 2);
    hide MarkAt, Toy, StringToSign, SeedText, Tag, TextSigned, Expected, PrintChunks;
    assert uploads[0] == u && WasSigned(s, uploads, x) && WasSigned(s, uploads, y);
    Texts(s, u);
    PrintedWire(s, u.at, Tag(s, u, 0));
    Plains(uploads);
    hide Marked, WasSigned, Plain, FRONT, MIDDLE, BACK;
    MarkedTag(uploads, y, BACK);
    MarkedBehind(uploads, MIDDLE, s.mac(y) + BACK);
    MarkedTag(uploads, x, MIDDLE + (s.mac(y) + BACK));
    MarkedBehind(uploads, FRONT, s.mac(x) + (MIDDLE + (s.mac(y) + BACK)));
  }

  /** All hypotheses together, with an upload delivered to its verified end. */
  lemma WitnessDelivered() returns (s: Signer, uploads: seq<Upload>, wire: string)
    ensures Ideal(s) && Family(uploads) && |uploads| == 1 && Unforged(s, uploads, wire)
    ensures Decode(s, uploads[0].at, wire, Tag(s, uploads[0], 0), CleanEnd) == Decoded(["A"], Eof, true)
  {
    s := Toy();
    var u := Upload("", Stamp("", ""), ["A", ""]);
    uploads := [u];
    hide Toy, Ideal, InHex, Unforged, Decode, PrintChunks, Tag, Marked;
    wire := PrintChunks(s, u.at, u.chunks, Tag(s, u, 0));
    ToyIsIdeal();
    WireIsMarked(u, uploads);
    MarkedIsUnforged(uploads, wire);
    IdealInHex(s);
    assert u.chunks == ["A"] + [""];
    EqualRequestsExchange(s, u, u, ["A"], CleanEnd);
  }

  lemma IdealInHex(s: Signer)
    requires Ideal(s)
    ensures InHex(s)
  {
  }
}
