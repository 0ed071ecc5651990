/**
 * The text of a request that is hashed and signed. Method, header names and header values are strings
 * of characters, path and query byte strings; after escaping these are ASCII, where the two agree.
 */
module CanonicalRequest {
  import opened Bytes
  import opened Text
  import opened Escape
  import opened Sorting
  import opened CanonicalQuery
  import opened HeaderText

  /** What the signature covers of a request. Headers are indexed by lower-case name. */
  datatype Request = Request(httpMethod: string, path: string, rawQuery: string, host: string,
                             contentLength: int, headers: map<string, seq<string>>)

  // --- the path ---

  /** The path as an absolute one. */
  function Rooted(p: string): string {
    if "/" <= p then p else "/" + p
  }

  method CanonicalUri(p: string) returns (out: string)
    ensures out == AwsEscape(Rooted(p), false)
  {
    hide *;
    if p == "" {
      RootEscaped();
      return "/";
    }
    var segs := Split(p, '/');
    ghost var was := segs;
    var i := 0;
    assert MapSeq(EscapedSegment, segs[..i]) == [];
    while i < |segs|
      invariant 0 <= i <= |segs| == |was|
      invariant segs == MapSeq(EscapedSegment, was[..i]) + was[i..]
    {
      SegmentStep(segs, was, i);
      segs := segs[i := AwsEscape(segs[i], false)];
      i := i + 1;
    }
    assert was[..i] == was && was[i..] == [];
    assert segs == MapSeq(EscapedSegment, was);
    EscapeOfSplit(p);
    out := Join(segs, '/');
    RootOfEscaped(p);
    if !("/" <= out) {
      out := "/" + out;
    }
  }

  function EscapedSegment(s: string): string {
    AwsEscape(s, false)
  }

  lemma SegmentStep(segs: seq<string>, was: seq<string>, i: nat)
    requires i < |was| == |segs| && segs == MapSeq(EscapedSegment, was[..i]) + was[i..]
    ensures segs[i] == was[i]
    ensures segs[i := AwsEscape(segs[i], false)] == MapSeq(EscapedSegment, was[..i + 1]) + was[i + 1..]
  {
    hide AwsEscape, MapSeq;
    assert was[..i + 1] == was[..i] + [was[i]];
    MapOfTwo(EscapedSegment, was[..i], [was[i]]);
    MapOfOne(EscapedSegment, was[i]);
  }

  lemma RootEscaped()
    ensures AwsEscape(Rooted(""), false) == "/"
  {
    assert AwsEscape([], false) == [];
  }

  lemma {:induction false} EscapeOfTwo(a: string, b: string, encodeSlash: bool)
    ensures AwsEscape(a + b, encodeSlash) == AwsEscape(a, encodeSlash) + AwsEscape(b, encodeSlash)
    decreases |a|
  {
    if a == [] {
      assert a + b == b;
    } else {
      EscapeOfTwo(a[1..], b, encodeSlash);
      assert (a + b)[0] == a[0] && (a + b)[1..] == a[1..] + b;
      Assoc(EscapeChar(a[0], encodeSlash), AwsEscape(a[1..], encodeSlash), AwsEscape(b, encodeSlash));
    }
  }

  lemma SlashStays()
    ensures AwsEscape("/", false) == "/"
  {
    assert AwsEscape([], false) == [];
  }

  /** Escaping segment by segment is escaping the whole with slashes left alone. */
  lemma {:induction false} EscapeOfSplit(p: string)
    ensures Join(MapSeq(EscapedSegment, Split(p, '/')), '/') == AwsEscape(p, false)
    decreases |p|
  {
    hide *;
    SplitStep(p, '/');
    var i := IndexByte(p, '/');
    if i < 0 {
      MapOfOne(EscapedSegment, p);
      SegmentMeans(p);
      JoinOfOne(AwsEscape(p, false));
    } else {
      var first, rest := p[..i], p[i + 1..];
      EscapeOfSplit(rest);
      SlashStays();
      assert p == first + ("/" + rest);
      EscapeOfTwo(first, "/" + rest, false);
      EscapeOfTwo("/", rest, false);
      MapOfTwo(EscapedSegment, [first], Split(rest, '/'));
      MapOfOne(EscapedSegment, first);
      SegmentMeans(first);
      JoinedFirst(AwsEscape(first, false), MapSeq(EscapedSegment, Split(rest, '/')));
    }
  }

  lemma SegmentMeans(s: string)
    ensures EscapedSegment(s) == AwsEscape(s, false)
  {
  }

  lemma JoinOfOne(s: string)
    ensures Join([s], '/') == s
  {
  }

  lemma JoinedFirst(s: string, rest: seq<string>)
    requires rest != []
    ensures Join([s] + rest, '/') == s + ("/" + Join(rest, '/'))
  {
    assert ([s] + rest)[1..] == rest;
  }

  lemma RootOfEscaped(p: string)
    requires p != ""
    ensures AwsEscape(Rooted(p), false) ==
            if "/" <= AwsEscape(p, false) then AwsEscape(p, false) else "/" + AwsEscape(p, false)
  {
    var c := p[0];
    var e := EscapeChar(c, false);
    assert AwsEscape(p, false)[0] == e[0];
    assert e[0] == '/' <==> c == '/';
    assert "/" <= p <==> c == '/';
    assert AwsEscape("/", false) == "/" by {
      assert AwsEscape([], false) == [];
    }
    EscapeOfTwo("/", p, false);
  }

  // --- the headers ---

  function NameOf(h: string): string {
    Lower(TrimSpace(h))
  }

  /** White space around a name in the list of signed headers is taken off, and its capitals are made small. */
  lemma NameWithSpaces(front: string, h: string, back: string)
    requires AllSpace(front) && AllSpace(back) && (h != "" ==> !IsSpace(h[0]) && !IsSpace(h[|h| - 1]))
    ensures NameOf(front + h + back) == Lower(h)
  {
    hide IsSpace, AllSpace, Lower;
    TrimSpaceMeans(front, h, back);
  }

  /** The signed header names, lower-case and sorted. */
  function SignedNames(signed: seq<string>): seq<string> {
    SortStrings(MapSeq(NameOf, signed))
  }

  /** The value signed for a header; None if the request does not carry it. */
  function HeaderValue(r: Request, name: string): Option<string> {
    if name == "host" then Some(r.host)
    else if name == "content-length" then
      if r.contentLength >= 0 then Some(Decimal(r.contentLength))
      else if "content-length" in r.headers && r.headers["content-length"] != [] then
        Some(r.headers["content-length"][0])
      else Some("")
    else if name in r.headers && r.headers[name] != [] then Some(Join(r.headers[name], ','))
    else None
  }

  predicate AllThere(r: Request, names: seq<string>) {
    forall i :: 0 <= i < |names| ==> HeaderValue(r, names[i]).Some?
  }

  function Line(r: Request, name: string): string {
    var v := HeaderValue(r, name);
    name + ":" + (if v.None? then "" else TrimAll(v.value))
  }

  function LineFor(r: Request): string -> string {
    name => Line(r, name)
  }

  /** The header block: every line and the line feed behind it. */
  function Block(lines: seq<string>): string {
    if lines == [] then [] else lines[0] + "\n" + Block(lines[1..])
  }

  lemma {:induction false} BlockAppend(lines: seq<string>, l: string)
    ensures Block(lines + [l]) == Block(lines) + l + "\n"
    decreases |lines|
  {
    if lines == [] {
      assert lines + [l] == [l];
      assert Block([l]) == l + "\n" + Block([]);
    } else {
      BlockAppend(lines[1..], l);
      assert (lines + [l])[1..] == lines[1..] + [l];
      var h, t := lines[0] + "\n", Block(lines[1..]);
      assert h + (t + l + "\n") == h + t + l + "\n";
    }
  }

  lemma LineMeans(r: Request, names: seq<string>, i: nat)
    requires i < |names| && HeaderValue(r, names[i]).Some?
    ensures MapSeq(LineFor(r), names[..i + 1])
         == MapSeq(LineFor(r), names[..i]) + [names[i] + ":" + TrimAll(HeaderValue(r, names[i]).value)]
  {
    hide MapSeq, TrimAll, HeaderValue;
    assert names[..i + 1] == names[..i] + [names[i]];
    MapOfTwo(LineFor(r), names[..i], [names[i]]);
    MapOfOne(LineFor(r), names[i]);
  }

  datatype Headers = Missing(name: string) | Headers(block: string, list: string)

  /** The value of one header: the cases of canonicalHeaders' loop body. */
  method ValueToSign(r: Request, name: string) returns (val: Option<string>)
    ensures val == HeaderValue(r, name)
  {
    hide Join, Decimal;
    if name == "host" {
      val := Some(r.host);
    } else if name == "content-length" {
      if r.contentLength >= 0 {
        val := Some(Decimal(r.contentLength));
      } else {
        var vals := if "content-length" in r.headers then r.headers["content-length"] else [];
        val := Some(if |vals| == 0 then "" else vals[0]);
      }
    } else {
      var vals := if name in r.headers then r.headers[name] else [];
      val := if |vals| == 0 then None else Some(Join(vals, ','));
    }
  }

  method CanonicalHeaders(r: Request, signed: seq<string>) returns (h: Headers)
    ensures var names := SignedNames(signed);
            if AllThere(r, names) then h == Headers(Block(MapSeq(LineFor(r), names)), Join(names, ';'))
            else h.Missing? && h.name in names && HeaderValue(r, h.name).None?
  {
    hide *;
    var low: seq<string> := [];
    var i := 0;
    NothingYet(r);
    while i < |signed|
      invariant 0 <= i <= |signed|
      invariant low == MapSeq(NameOf, signed[..i])
    {
      assert signed[..i + 1] == signed[..i] + [signed[i]];
      MapOfTwo(NameOf, signed[..i], [signed[i]]);
      MapOfOne(NameOf, signed[i]);
      NameMeans(signed[i]);
      low := low + [Lower(TrimSpace(signed[i]))];
      i := i + 1;
    }
    assert signed[..i] == signed;
    low := SortStrings(low);
    assert low == SignedNames(signed) by {
      SignedNamesMeans(signed);
    }
    var sb := "";
    i := 0;
    while i < |low|
      invariant 0 <= i <= |low|
      invariant forall k :: 0 <= k < i ==> HeaderValue(r, low[k]).Some?
      invariant sb == Block(MapSeq(LineFor(r), low[..i]))
    {
      var name := low[i];
      var val := ValueToSign(r, name);
      if val.None? {
        MissingMeans(r, low, name);
        return Missing(name);
      }
      LineMeans(r, low, i);
      var trimmed := TrimmedAll(val.value);
      BlockAppend(MapSeq(LineFor(r), low[..i]), name + ":" + trimmed);
      ghost var before := sb;
      sb := sb + name;
      sb := sb + ":";
      sb := sb + trimmed;
      sb := sb + "\n";
      assert sb == before + (name + ":" + trimmed) + "\n";
      i := i + 1;
    }
    assert low[..i] == low;
    AllThereMeans(r, low);
    h := Headers(sb, Join(low, ';'));
  }

  lemma NothingYet(r: Request)
    ensures MapSeq(NameOf, []) == [] && Block(MapSeq(LineFor(r), [])) == ""
  {
  }

  lemma SignedNamesMeans(signed: seq<string>)
    ensures SignedNames(signed) == SortStrings(MapSeq(NameOf, signed))
  {
  }

  lemma AllThereMeans(r: Request, names: seq<string>)
    requires forall k :: 0 <= k < |names| ==> HeaderValue(r, names[k]).Some?
    ensures AllThere(r, names)
  {
    hide HeaderValue;
  }

  lemma NameMeans(h: string)
    ensures NameOf(h) == Lower(TrimSpace(h))
  {
  }

  // --- the request ---

  /** The signed text as its lines; the header block is followed by two empty ones. */
  function Lines(r: Request, names: seq<string>, payloadHash: string): seq<string> {
    [r.httpMethod, AwsEscape(Rooted(r.path), false), Canonical(r.rawQuery)]
    + MapSeq(LineFor(r), names) + ["", "", Join(names, ';'), payloadHash]
  }

  /** buildCanonicalRequestWithQuery: None is its error, for a signed header that is missing. */
  function SignedText(r: Request, signed: seq<string>, payloadHash: string): Option<string> {
    var names := SignedNames(signed);
    if AllThere(r, names) then Some(Join(Lines(r, names, payloadHash), '\n')) else None
  }

  lemma {:induction false} JoinBlockFirst(lines: seq<string>, after: seq<string>)
    requires after != []
    ensures Join([Block(lines)] + after, '\n') == Join(lines + [""] + after, '\n')
    decreases |lines|
  {
    assert ([Block(lines)] + after)[1..] == after;
    if lines == [] {
      assert lines + [""] + after == [""] + after;
    } else {
      var l := lines[1..];
      JoinBlockFirst(l, after);
      assert ([Block(l)] + after)[1..] == after;
      assert (lines + [""] + after)[0] == lines[0];
      assert (lines + [""] + after)[1..] == l + [""] + after;
      Assoc(lines[0] + "\n", Block(l), "\n" + Join(after, '\n'));
      Assoc(Block(lines), "\n", Join(after, '\n'));
      Assoc(Block(l), "\n", Join(after, '\n'));
    }
  }

  lemma JoinStep(h: string, a: seq<string>, b: seq<string>)
    requires Join(a, '\n') == Join(b, '\n') && a != [] && b != []
    ensures Join([h] + a, '\n') == Join([h] + b, '\n')
  {
    assert ([h] + a)[1..] == a && ([h] + b)[1..] == b;
  }

  /** A block of lines, joined in among others, is its lines and one empty line. */
  lemma {:induction false} JoinBlock(before: seq<string>, lines: seq<string>, after: seq<string>)
    requires after != []
    ensures Join(before + [Block(lines)] + after, '\n') == Join(before + lines + [""] + after, '\n')
    decreases |before|
  {
    hide *;
    if before == [] {
      JoinBlockFirst(lines, after);
      assert before + [Block(lines)] + after == [Block(lines)] + after;
      assert before + lines + [""] + after == lines + [""] + after;
    } else {
      var b := before[1..];
      JoinBlock(b, lines, after);
      JoinStep(before[0], b + [Block(lines)] + after, b + lines + [""] + after);
      assert before + [Block(lines)] + after == [before[0]] + (b + [Block(lines)] + after);
      assert before + lines + [""] + after == [before[0]] + (b + lines + [""] + after);
    }
  }

  method BuildCanonicalRequest(r: Request, signed: seq<string>, payloadHash: string) returns (text: Option<string>)
    ensures text == SignedText(r, signed, payloadHash)
  {
    hide *;
    var uri := CanonicalUri(r.path);
    var query := CanonicalQueryRaw(r.rawQuery);
    var h := CanonicalHeaders(r, signed);
    SignedTextMeans(r, signed, payloadHash);
    if h.Missing? {
      MissingMeans(r, SignedNames(signed), h.name);
      return None;
    }
    if !AllThere(r, SignedNames(signed)) {
      assert false;
    }
    var lines := MapSeq(LineFor(r), SignedNames(signed));
    JoinBlock([r.httpMethod, uri, query], lines, ["", h.list, payloadHash]);
    var elements := [r.httpMethod, uri, query, h.block, "", h.list, payloadHash];
    assert elements == [r.httpMethod, uri, query] + [h.block] + ["", h.list, payloadHash];
    assert [""] + ["", h.list, payloadHash] == ["", "", h.list, payloadHash];
    Assoc([r.httpMethod, uri, query] + lines, [""], ["", h.list, payloadHash]);
    text := Some(Join(elements, '\n'));
  }

  lemma SignedTextMeans(r: Request, signed: seq<string>, payloadHash: string)
    ensures var names := SignedNames(signed);
            SignedText(r, signed, payloadHash) ==
            if AllThere(r, names) then
              Some(Join([r.httpMethod, AwsEscape(Rooted(r.path), false), Canonical(r.rawQuery)]
                        + MapSeq(LineFor(r), names) + ["", "", Join(names, ';'), payloadHash], '\n'))
            else None
  {
    hide AllThere, SignedNames, Join, MapSeq, AwsEscape, Rooted, Canonical, LineFor;
  }

  lemma MissingMeans(r: Request, names: seq<string>, name: string)
    requires name in names && HeaderValue(r, name).None?
    ensures !AllThere(r, names)
  {
    hide HeaderValue;
    var i :| 0 <= i < |names| && names[i] == name;
    assert HeaderValue(r, names[i]).None?;
  }

  // --- what the text determines ---

  /** What an HTTP server guarantees: lines do not break, header names are tokens, strings are bytes. */
  predicate WellFormed(r: Request) {
    && '\n' !in r.httpMethod && '\n' !in r.host && IsBytes(r.path) && IsBytes(r.rawQuery)
    && forall n :: n in r.headers ==> '\n' !in n && ';' !in n && Free(r.headers[n], '\n')
  }

  lemma DecimalIsFree(n: nat)
    ensures '\n' !in Decimal(n)
  {
    assert !IsDigit('\n');
    hide Decimal;
  }

  lemma LineIsFree(r: Request, name: string)
    requires WellFormed(r) && HeaderValue(r, name).Some?
    ensures '\n' !in name && ';' !in name && '\n' !in Line(r, name)
  {
    hide TrimAll, Join, Decimal;
    var v := HeaderValue(r, name).value;
    assert '\n' !in v by {
      if r.contentLength >= 0 {
        DecimalIsFree(r.contentLength);
      }
      if name in r.headers {
        JoinIsFree(r.headers[name], ',', '\n');
      }
    }
    TrimAllKeepsLine(v);
  }

  lemma QueryIsFree(raw: string)
    requires IsBytes(raw)
    ensures '\n' !in Canonical(raw)
  {
    hide *;
    SortedEscapedMeans(raw);
    var shown := MapSeq(Shown, SortedEscaped(raw));
    forall i | 0 <= i < |shown|
      ensures '\n' !in shown[i]
    {
      EachIsEscaped(raw, i);
      var p :| PairIsBytes(p) && SortedEscaped(raw)[i] == EscapedPair(p);
      ShownIsFree(p);
    }
    FreeMeans(shown, '\n');
    JoinIsFree(shown, '&', '\n');
  }

  lemma ShownIsFree(p: Pair)
    ensures '\n' !in Shown(EscapedPair(p))
  {
    hide AwsEscape;
    EscapedIsFree(p.k, true, '\n');
    EscapedIsFree(p.v, true, '\n');
  }

  lemma FreeMeans(parts: seq<string>, c: char)
    requires forall i :: 0 <= i < |parts| ==> c !in parts[i]
    ensures Free(parts, c)
  {
  }

  lemma LinesAreFree(r: Request, names: seq<string>, payloadHash: string)
    requires WellFormed(r) && AllThere(r, names) && '\n' !in payloadHash
    ensures Free(Lines(r, names, payloadHash), '\n') && Free(names, ';')
  {
    hide MapSeq, Line, Join, AwsEscape, Canonical, HeaderValue, IsBytes;
    forall i | 0 <= i < |names|
      ensures '\n' !in names[i] && ';' !in names[i] && '\n' !in Line(r, names[i])
    {
      LineIsFree(r, names[i]);
    }
    EscapedIsFree(Rooted(r.path), false, '\n');
    QueryIsFree(r.rawQuery);
    JoinIsFree(names, ';', '\n');
  }

  function SignedWords(r: Request, name: string): seq<string> {
    var v := HeaderValue(r, name);
    Words(if v.None? then "" else v.value)
  }

  /** The content length as it is signed: the number if it is known, else what the header says, else nothing. */
  function LengthSent(r: Request): string {
    if r.contentLength >= 0 then Decimal(r.contentLength)
    else if "content-length" in r.headers && r.headers["content-length"] != [] then r.headers["content-length"][0]
    else ""
  }

  /**
   * Two requests agree in a header: in the words of the host they are sent to, in their content length, and of
   * every other header in the words of its values, joined by commas.
   */
  ghost predicate HeaderAgrees(a: Request, b: Request, name: string) {
    if name == "host" then Words(a.host) == Words(b.host)
    else if name == "content-length" then
      if a.contentLength >= 0 && b.contentLength >= 0 then a.contentLength == b.contentLength
      else Words(LengthSent(a)) == Words(LengthSent(b))
    else
      && name in a.headers && a.headers[name] != [] && name in b.headers && b.headers[name] != []
      && Words(Join(a.headers[name], ',')) == Words(Join(b.headers[name], ','))
  }

  ghost predicate HeadersAgree(a: Request, b: Request, names: seq<string>) {
    forall n :: n in names ==> HeaderAgrees(a, b, n)
  }

  lemma WordsOfNumber(n: nat)
    ensures Words(Decimal(n)) == [Decimal(n)]
  {
    var d := Decimal(n);
    hide Decimal;
    assert forall i :: 0 <= i < |d| ==> IsDigit(d[i]);
    assert d + "" == d && "" + d + "" == d;
    SignedForm("", [d], [""], "");
    assert Spaced([d], [""]) == d + "" + Spaced([], []);
  }

  lemma SameNumber(m: nat, n: nat)
    ensures Words(Decimal(m)) == Words(Decimal(n)) <==> m == n
  {
    hide Words, Decimal, Value;
    WordsOfNumber(m);
    WordsOfNumber(n);
    DecimalRoundTrip(m);
    DecimalRoundTrip(n);
  }

  lemma SignedWordsMean(r: Request, name: string)
    requires HeaderValue(r, name).Some?
    ensures name == "host" ==> SignedWords(r, name) == Words(r.host)
    ensures name == "content-length" ==> SignedWords(r, name) == Words(LengthSent(r))
    ensures name != "host" && name != "content-length" ==>
              && name in r.headers && r.headers[name] != []
              && SignedWords(r, name) == Words(Join(r.headers[name], ','))
  {
    hide Words, Join, Decimal;
  }

  lemma SameWordsIffHeaderAgrees(a: Request, b: Request, name: string)
    requires HeaderValue(a, name).Some? && HeaderValue(b, name).Some?
    ensures SignedWords(a, name) == SignedWords(b, name) <==> HeaderAgrees(a, b, name)
  {
    if a.contentLength >= 0 && b.contentLength >= 0 {
      SameNumber(a.contentLength, b.contentLength);
    }
    SignedWordsMean(a, name);
    SignedWordsMean(b, name);
    hide SignedWords, Words, Join, Decimal, HeaderValue;
  }

  lemma IsThere(r: Request, names: seq<string>, name: string)
    requires AllThere(r, names) && name in names
    ensures HeaderValue(r, name).Some?
  {
    hide HeaderValue;
    var i :| 0 <= i < |names| && names[i] == name;
  }

  lemma SameWordsIffHeadersAgree(a: Request, b: Request, names: seq<string>)
    requires AllThere(a, names) && AllThere(b, names)
    ensures (forall n :: n in names ==> SignedWords(a, n) == SignedWords(b, n)) <==> HeadersAgree(a, b, names)
  {
    hide SignedWords, HeaderValue, HeaderAgrees, AllThere;
    forall n | n in names
      ensures SignedWords(a, n) == SignedWords(b, n) <==> HeaderAgrees(a, b, n)
    {
      IsThere(a, names, n);
      IsThere(b, names, n);
      SameWordsIffHeaderAgrees(a, b, n);
    }
  }

  /** A signed header is missing exactly if it is neither of the two that always have a value and was not sent. */
  lemma RefusedIffMissing(r: Request, signed: seq<string>, payloadHash: string)
    ensures SignedText(r, signed, payloadHash).None? <==>
            exists n :: && n in SignedNames(signed) && n != "host" && n != "content-length"
                        && (n !in r.headers || r.headers[n] == [])
  {
    hide SignedNames, Lines, Join, Decimal;
    var names := SignedNames(signed);
    if !AllThere(r, names) {
      var i :| 0 <= i < |names| && HeaderValue(r, names[i]).None?;
      assert names[i] in names;
    } else {
      forall n | n in names
        ensures n == "host" || n == "content-length" || (n in r.headers && r.headers[n] != [])
      {
        var i :| 0 <= i < |names| && names[i] == n;
        assert HeaderValue(r, names[i]).Some?;
      }
    }
  }

  /** Two requests agree in everything a signature is meant to cover. */
  ghost predicate Agree(a: Request, aNames: seq<string>, aHash: string, b: Request, bNames: seq<string>,
                        bHash: string) {
    && a.httpMethod == b.httpMethod
    && Rooted(a.path) == Rooted(b.path)
    && multiset(DecodedPairs(a.rawQuery)) == multiset(DecodedPairs(b.rawQuery))
    && aNames == bNames
    && HeadersAgree(a, b, aNames)
    && aHash == bHash
  }

  lemma SameLineIffSameWords(a: Request, b: Request, name: string)
    ensures Line(a, name) == Line(b, name) <==> SignedWords(a, name) == SignedWords(b, name)
  {
    hide TrimAll, Words, HeaderValue;
    var v, w := HeaderValue(a, name), HeaderValue(b, name);
    var x, y := if v.None? then "" else v.value, if w.None? then "" else w.value;
    SameTrimmedIffSameWords(x, y);
    SameTrimmedIffSameWords("", y);
    SameTrimmedIffSameWords(x, "");
    assert TrimAll("") == "" by {
      EmptyTrims();
    }
    var h := name + ":";
    assert Line(a, name) == h + TrimAll(x) && Line(b, name) == h + TrimAll(y);
    assert Line(a, name)[|h|..] == TrimAll(x) && Line(b, name)[|h|..] == TrimAll(y);
  }

  lemma EmptyTrims()
    ensures TrimAll("") == ""
  {
  }

  lemma RootedIsBytes(p: string)
    requires IsBytes(p)
    ensures IsBytes(Rooted(p))
  {
  }

  lemma LinesMeans(r: Request, names: seq<string>, payloadHash: string)
    ensures var l := Lines(r, names, payloadHash);
            && |l| == |names| + 7
            && l[0] == r.httpMethod && l[1] == AwsEscape(Rooted(r.path), false) && l[2] == Canonical(r.rawQuery)
            && (forall i :: 0 <= i < |names| ==> l[3 + i] == Line(r, names[i]))
            && l[|names| + 3] == "" && l[|names| + 4] == ""
            && l[|names| + 5] == Join(names, ';') && l[|names| + 6] == payloadHash
  {
    hide MapSeq, Line, Join, AwsEscape, Canonical, Rooted;
  }

  lemma SameLinesIffAgree(a: Request, aNames: seq<string>, aHash: string, b: Request, bNames: seq<string>,
                          bHash: string)
    requires WellFormed(a) && WellFormed(b) && Free(aNames, ';') && Free(bNames, ';')
    requires AllThere(a, aNames) && AllThere(b, bNames)
    ensures Lines(a, aNames, aHash) == Lines(b, bNames, bHash) <==> Agree(a, aNames, aHash, b, bNames, bHash)
  {
    hide Lines, Line, Join, Split, AwsEscape, Canonical, DecodedPairs, SignedWords, Rooted, IsBytes, HeadersAgree,
      AllThere;
    if aNames == bNames {
      SameWordsIffHeadersAgree(a, b, aNames);
    }
    var l, m := Lines(a, aNames, aHash), Lines(b, bNames, bHash);
    LinesMeans(a, aNames, aHash);
    LinesMeans(b, bNames, bHash);
    SameCanonicalIffSamePairs(a.rawQuery, b.rawQuery);
    forall n
      ensures Line(a, n) == Line(b, n) <==> SignedWords(a, n) == SignedWords(b, n)
    {
      SameLineIffSameWords(a, b, n);
    }
    if l == m {
      RootedIsBytes(a.path);
      RootedIsBytes(b.path);
      EscapeInjective(Rooted(a.path), Rooted(b.path), false);
      SameNames(aNames, bNames);
      forall n | n in aNames
        ensures Line(a, n) == Line(b, n)
      {
        var i :| 0 <= i < |aNames| && aNames[i] == n;
        assert l[3 + i] == m[3 + i];
      }
    } else if Agree(a, aNames, aHash, b, bNames, bHash) {
      forall i | 0 <= i < |l|
        ensures l[i] == m[i]
      {
        if 3 <= i < |aNames| + 3 {
          assert aNames[i - 3] in aNames;
          assert l[3 + (i - 3)] == Line(a, aNames[i - 3]);
        }
      }
    }
  }

  lemma SameNames(a: seq<string>, b: seq<string>)
    requires Free(a, ';') && Free(b, ';') && |a| == |b| && Join(a, ';') == Join(b, ';')
    ensures a == b
  {
    hide Join, Split;
    if a != [] {
      SplitOfJoin(a, ';');
      SplitOfJoin(b, ';');
    }
  }

  /**
   * The signed text is unambiguous: two requests have the same one exactly when they have the same
   * method, absolute path, query pairs (each as often, in any order), sorted list of signed headers, words in
   * each of these headers (of the host, the content length and the joined values), and payload hash.
   */
  lemma SameTextIffAgree(a: Request, aSigned: seq<string>, aHash: string, b: Request, bSigned: seq<string>,
                         bHash: string)
    requires WellFormed(a) && WellFormed(b) && '\n' !in aHash && '\n' !in bHash
    requires SignedText(a, aSigned, aHash).Some? && SignedText(b, bSigned, bHash).Some?
    ensures SignedText(a, aSigned, aHash) == SignedText(b, bSigned, bHash)
       <==> Agree(a, SignedNames(aSigned), aHash, b, SignedNames(bSigned), bHash)
  {
    hide WellFormed, Lines, Join, Split, AllThere, SignedNames, Agree, Free;
    var an, bn := SignedNames(aSigned), SignedNames(bSigned);
    LinesAreFree(a, an, aHash);
    LinesAreFree(b, bn, bHash);
    LinesMeans(a, an, aHash);
    LinesMeans(b, bn, bHash);
    SplitOfJoin(Lines(a, an, aHash), '\n');
    SplitOfJoin(Lines(b, bn, bHash), '\n');
    SameLinesIffAgree(a, an, aHash, b, bn, bHash);
  }

  // --- the canonical request of AWS Signature Version 4 ---

  /** The form AWS Signature Version 4 defines: one empty line between the headers and their list. */
  function AwsText(r: Request, signed: seq<string>, payloadHash: string): string {
    var names := SignedNames(signed);
    Join([r.httpMethod, AwsEscape(Rooted(r.path), false), Canonical(r.rawQuery),
          Block(MapSeq(LineFor(r), names)), Join(names, ';'), payloadHash], '\n')
  }

  ghost predicate OneLineFeedMore(k: string, j: string) {
    |k| == |j| + 1 && exists at :: 0 <= at < |k| && k[at] == '\n' && k[..at] + k[at + 1..] == j
  }

  lemma LineFeedInFront(j: string)
    ensures OneLineFeedMore("\n" + j, j)
  {
    var k := "\n" + j;
    assert k[0] == '\n' && k[..0] + k[0 + 1..] == j;
  }

  lemma LineFeedBehind(h: string, k: string, j: string)
    requires OneLineFeedMore(k, j)
    ensures OneLineFeedMore(h + k, h + j)
  {
    var at :| 0 <= at < |k| && k[at] == '\n' && k[..at] + k[at + 1..] == j;
    var n := |h| + at;
    assert (h + k)[n] == '\n';
    assert (h + k)[..n] == h + k[..at];
    assert (h + k)[n + 1..] == k[at + 1..];
    Assoc(h, k[..at], k[at + 1..]);
  }

  lemma JoinWithHead(s: string, rest: seq<string>)
    requires rest != []
    ensures Join([s] + rest, '\n') == (s + "\n") + Join(rest, '\n')
  {
    assert ([s] + rest)[1..] == rest;
  }

  lemma {:induction false} JoinInsertEmpty(before: seq<string>, after: seq<string>)
    requires after != []
    ensures OneLineFeedMore(Join(before + [""] + after, '\n'), Join(before + after, '\n'))
    decreases |before|
  {
    hide *;
    if before == [] {
      assert before + after == after && before + [""] + after == [""] + after;
      JoinWithHead("", after);
      assert "" + "\n" == "\n";
      LineFeedInFront(Join(after, '\n'));
    } else {
      var h, b := before[0], before[1..];
      JoinInsertEmpty(b, after);
      JoinWithHead(h, b + after);
      JoinWithHead(h, b + [""] + after);
      assert before + after == [h] + (b + after);
      assert before + [""] + after == [h] + (b + [""] + after);
      LineFeedBehind(h + "\n", Join(b + [""] + after, '\n'), Join(b + after, '\n'));
    }
  }

  lemma MoreIsOther(k: string, j: string)
    ensures OneLineFeedMore(k, j) ==> k != j
  {
  }

  /** The code's text has one more line feed, between the headers and their list, so it is never that form. */
  lemma OneLineFeedMoreThanAws(r: Request, signed: seq<string>, payloadHash: string)
    requires SignedText(r, signed, payloadHash).Some?
    ensures var text, aws := SignedText(r, signed, payloadHash).value, AwsText(r, signed, payloadHash);
            OneLineFeedMore(text, aws) && text != aws
  {
    hide *;
    var names := SignedNames(signed);
    var lines := MapSeq(LineFor(r), names);
    var before := [r.httpMethod, AwsEscape(Rooted(r.path), false), Canonical(r.rawQuery)];
    var after := [Join(names, ';'), payloadHash];
    SignedTextMeans(r, signed, payloadHash);
    JoinBlock(before, lines, after);
    assert before + [Block(lines)] + after == [before[0], before[1], before[2], Block(lines), after[0], after[1]];
    AwsTextMeans(r, signed, payloadHash);
    JoinInsertEmpty(before + lines + [""], after);
    MoreIsOther(SignedText(r, signed, payloadHash).value, AwsText(r, signed, payloadHash));
    assert before + lines + [""] + [""] + after == before + lines + ["", "", Join(names, ';'), payloadHash];
  }

  lemma AwsTextMeans(r: Request, signed: seq<string>, payloadHash: string)
    ensures var names := SignedNames(signed);
            AwsText(r, signed, payloadHash) ==
            Join([r.httpMethod, AwsEscape(Rooted(r.path), false), Canonical(r.rawQuery),
                  Block(MapSeq(LineFor(r), names)), Join(names, ';'), payloadHash], '\n')
  {
  }
}
