/**
 * The canonical query string of a signed request, and the removal of the signature parameter from the
 * query of a presigned one. Queries are byte strings.
 */
module CanonicalQuery {
  import opened Bytes
  import opened Text
  import opened Escape
  import opened Sorting
  import KeyOrder

  predicate Present(part: string) {
    part != ""
  }

  /** The &-separated parts of a query, empty ones dropped. */
  function Parts(raw: string): seq<string> {
    Filter(Present, Split(raw, '&'))
  }

  /** A name or value with its percent escapes undone, or as it stands if they are malformed. */
  function Decoded(s: string): string {
    var d := Unescape(s);
    if d.None? then s else d.value
  }

  function KeyOf(part: string): string {
    var eq := IndexByte(part, '=');
    if eq < 0 then part else part[..eq]
  }

  function ValueOf(part: string): string {
    var eq := IndexByte(part, '=');
    if eq < 0 then "" else part[eq + 1..]
  }

  /** What a part means: a decoded name and a decoded value. */
  function PairOf(part: string): Pair {
    Pair(Decoded(KeyOf(part)), Decoded(ValueOf(part)))
  }

  /** What a query means: its pairs, in order. */
  function DecodedPairs(raw: string): seq<Pair> {
    MapSeq(PairOf, Parts(raw))
  }

  function EscapedPair(p: Pair): Pair {
    Pair(AwsEscape(p.k, true), AwsEscape(p.v, true))
  }

  function Shown(p: Pair): string {
    p.k + "=" + p.v
  }

  /** canonicalQueryRaw, as a function: decode, escape, sort, print. */
  function Canonical(raw: string): string {
    Join(MapSeq(Shown, Sort(MapSeq(EscapedPair, DecodedPairs(raw)))), '&')
  }

  /** A part is split at its first equals sign, and is a name without a value if it has none. */
  lemma PartMeans(k: string, v: string)
    requires '=' !in k
    ensures KeyOf(k + "=" + v) == k && ValueOf(k + "=" + v) == v
    ensures KeyOf(k) == k && ValueOf(k) == ""
  {
    IndexOfFirst(k, '=', v);
    hide IndexByte;
    var part := k + "=" + v;
    assert part == k + ['='] + v && part[..|k|] == k && part[|k| + 1..] == v;
  }

  /** Names and values are unescaped, and stand as they are if they cannot be. */
  lemma PairMeansUnescaped(k: string, v: string)
    requires '=' !in k
    ensures
      var p := PairOf(k + "=" + v);
      && (match Unescape(k) case None => p.k == k case Some(d) => p.k == d)
      && (match Unescape(v) case None => p.v == v case Some(d) => p.v == d)
  {
    hide KeyOf, ValueOf, Unescape;
    PartMeans(k, v);
  }

  // --- canonicalQueryRaw and stripQueryParam, as loops ---

  lemma OneMore<T>(keep: T -> bool, parts: seq<T>, i: nat)
    requires i < |parts|
    ensures Filter(keep, parts[..i + 1]) == Filter(keep, parts[..i]) + (if keep(parts[i]) then [parts[i]] else [])
  {
    assert parts[..i + 1] == parts[..i] + [parts[i]];
    FilterOfTwo(keep, parts[..i], [parts[i]]);
  }

  function PairFor(part: string): Pair {
    EscapedPair(PairOf(part))
  }

  lemma MapTwice<T, U, V>(f: T -> U, g: U -> V, h: T -> V, s: seq<T>)
    requires forall x :: x in s ==> h(x) == g(f(x))
    ensures MapSeq(g, MapSeq(f, s)) == MapSeq(h, s)
  {
    hide MapSeq;
    forall i | 0 <= i < |s|
      ensures MapSeq(g, MapSeq(f, s))[i] == MapSeq(h, s)[i]
    {
      assert s[i] in s;
    }
  }

  method CanonicalQueryRaw(raw: string) returns (out: string)
    ensures out == Canonical(raw)
  {
    hide *;
    if raw == "" {
      assert Canonical("") == "" by {
        EmptyIsCanonical();
      }
      return "";
    }
    var pairs: seq<Pair> := [];
    var parts := Split(raw, '&');
    var i := 0;
    EmptyMaps();
    while i < |parts|
      invariant 0 <= i <= |parts|
      invariant pairs == MapSeq(PairFor, Filter(Present, parts[..i]))
    {
      var part := parts[i];
      OneMore(Present, parts, i);
      i := i + 1;
      if part == "" {
        assert !Present(part) by {
          PresentMeans(part);
        }
        continue;
      }
      var eq := IndexByte(part, '=');
      var k, v := part, "";
      if eq >= 0 {
        k, v := part[..eq], part[eq + 1..];
      }
      var d := Unescape(k);
      var dk := if d.None? then k else d.value;
      d := Unescape(v);
      var dv := if d.None? then v else d.value;
      PairMeans(part);
      PresentMeans(part);
      MapOfTwo(PairFor, Filter(Present, parts[..i - 1]), [part]);
      MapOfOne(PairFor, part);
      pairs := pairs + [Pair(AwsEscape(dk, true), AwsEscape(dv, true))];
    }
    assert parts[..i] == parts;
    pairs := Sort(pairs);
    assert Canonical(raw) == Join(MapSeq(Shown, pairs), '&') by {
      CanonicalMeans(raw);
    }
    out := "";
    i := 0;
    while i < |pairs|
      invariant 0 <= i <= |pairs|
      invariant out == Join(MapSeq(Shown, pairs[..i]), '&')
    {
      var before := MapSeq(Shown, pairs[..i]);
      if i > 0 {
        out := out + "&";
      }
      out := out + pairs[i].k;
      out := out + "=";
      out := out + pairs[i].v;
      assert pairs[..i + 1] == pairs[..i] + [pairs[i]];
      MapOfTwo(Shown, pairs[..i], [pairs[i]]);
      MapOfOne(Shown, pairs[i]);
      ShownAppended(before, pairs[i], out);
      i := i + 1;
    }
    assert pairs[..i] == pairs;
  }

  lemma EmptyIsCanonical()
    ensures Canonical("") == ""
  {
  }

  lemma EmptyMaps()
    ensures MapSeq(PairFor, Filter(Present, [])) == []
    ensures Join(MapSeq(Shown, []), '&') == ""
  {
  }

  lemma PresentMeans(part: string)
    ensures Present(part) <==> part != ""
  {
  }

  lemma PairMeans(part: string)
    ensures PairFor(part) == Pair(AwsEscape(Decoded(KeyOf(part)), true), AwsEscape(Decoded(ValueOf(part)), true))
    ensures KeyOf(part) == if IndexByte(part, '=') < 0 then part else part[..IndexByte(part, '=')]
    ensures ValueOf(part) == if IndexByte(part, '=') < 0 then "" else part[IndexByte(part, '=') + 1..]
    ensures forall s :: Decoded(s) == if Unescape(s).None? then s else Unescape(s).value
  {
    hide AwsEscape, Unescape, IndexByte;
  }

  lemma MapOfOne<T, U>(f: T -> U, x: T)
    ensures MapSeq(f, [x]) == [f(x)]
  {
  }

  lemma CanonicalMeans(raw: string)
    ensures Canonical(raw) == Join(MapSeq(Shown, Sort(MapSeq(PairFor, Filter(Present, Split(raw, '&'))))), '&')
  {
    hide Sort, MapSeq, Filter, Split, Join, Shown, EscapedPair, PairOf;
    MapTwice(PairOf, EscapedPair, PairFor, Parts(raw));
  }

  lemma ShownAppended(before: seq<string>, p: Pair, out: string)
    requires out == (if before == [] then Join(before, '&') else Join(before, '&') + "&") + p.k + "=" + p.v
    ensures out == Join(before + [Shown(p)], '&')
  {
    if before != [] {
      JoinAppend(before, Shown(p), '&');
      var j := Join(before, '&') + "&";
      assert j + p.k + "=" + p.v == j + Shown(p);
    } else {
      assert before + [Shown(p)] == [Shown(p)];
    }
  }

  // --- what the canonical form keeps and forgets ---

  predicate PairIsBytes(p: Pair) {
    IsBytes(p.k) && IsBytes(p.v)
  }

  predicate AllBytes(parts: seq<string>) {
    forall i :: 0 <= i < |parts| ==> IsBytes(parts[i])
  }

  lemma {:induction false} SplitIsBytes(s: string, c: char)
    requires IsBytes(s)
    ensures AllBytes(Split(s, c))
    decreases |s|
  {
    var i := IndexByte(s, c);
    if i >= 0 {
      SplitIsBytes(s[i + 1..], c);
    }
  }

  lemma {:induction false} JoinIsBytes(parts: seq<string>, c: char)
    requires AllBytes(parts) && c as int < 256
    ensures IsBytes(Join(parts, c))
    decreases |parts|
  {
    if |parts| > 1 {
      JoinIsBytes(parts[1..], c);
    }
  }

  lemma PairOfIsBytes(part: string)
    requires IsBytes(part)
    ensures PairIsBytes(PairOf(part))
  {
    forall s | IsBytes(s) && Unescape(s).Some?
      ensures IsBytes(Unescape(s).value)
    {
      UnescapedIsBytes(s);
    }
    hide Unescape;
  }

  lemma DecodedPairsAreBytes(raw: string)
    requires IsBytes(raw)
    ensures forall i :: 0 <= i < |DecodedPairs(raw)| ==> PairIsBytes(DecodedPairs(raw)[i])
  {
    hide IsBytes, PairOf, PairIsBytes, MapSeq, Filter, Split;
    SplitIsBytes(raw, '&');
    FilterMembers(Present, Split(raw, '&'));
    forall i | 0 <= i < |DecodedPairs(raw)|
      ensures PairIsBytes(DecodedPairs(raw)[i])
    {
      assert Parts(raw)[i] in Parts(raw);
      PairOfIsBytes(Parts(raw)[i]);
    }
  }

  /** A printed pair reads back as the pair, and cannot be mistaken for more or less than one part. */
  lemma PairRoundTrip(p: Pair)
    requires PairIsBytes(p)
    ensures PairOf(Shown(EscapedPair(p))) == p
    ensures Present(Shown(EscapedPair(p))) && '&' !in Shown(EscapedPair(p))
  {
    hide AwsEscape, Unescape, IndexByte, IsBytes;
    var k, v := AwsEscape(p.k, true), AwsEscape(p.v, true);
    EscapedIsFree(p.k, true, '=');
    EscapedIsFree(p.k, true, '&');
    EscapedIsFree(p.v, true, '&');
    UnescapeOfEscape(p.k, true);
    UnescapeOfEscape(p.v, true);
    IndexOfFirst(k, '=', v);
    var s := k + "=" + v;
    assert s[..|k|] == k && s[|k| + 1..] == v;
  }

  function SortedEscaped(raw: string): seq<Pair> {
    Sort(MapSeq(EscapedPair, DecodedPairs(raw)))
  }

  lemma EachIsEscaped(raw: string, i: nat)
    requires IsBytes(raw) && i < |SortedEscaped(raw)|
    ensures exists p :: PairIsBytes(p) && SortedEscaped(raw)[i] == EscapedPair(p)
  {
    hide Sort, MapSeq, DecodedPairs, EscapedPair, PairIsBytes, IsBytes;
    var d := DecodedPairs(raw);
    var e := MapSeq(EscapedPair, d);
    SortSorts(e);
    assert SortedEscaped(raw)[i] in multiset(e);
    var j :| 0 <= j < |e| && e[j] == SortedEscaped(raw)[i];
    DecodedPairsAreBytes(raw);
    assert PairIsBytes(d[j]);
  }

  lemma PartsOfJoin(parts: seq<string>)
    requires Free(parts, '&')
    ensures Parts(Join(parts, '&')) == Filter(Present, parts)
  {
    if parts == [] {
      assert Split("", '&') == [""];
      assert Filter(Present, [""]) == [];
    } else {
      hide Split, Join, Filter;
      SplitOfJoin(parts, '&');
    }
  }

  /** The parts of the canonical form are the printed pairs, sorted by escaped name and then value. */
  lemma PartsOfCanonical(raw: string)
    requires IsBytes(raw)
    ensures Parts(Canonical(raw)) == MapSeq(Shown, SortedEscaped(raw))
    ensures Sorted(SortedEscaped(raw))
  {
    hide Sort, MapSeq, DecodedPairs, EscapedPair, Shown, IsBytes, Join, Split, Filter, Sorted, Parts, PairIsBytes;
    SortSorts(MapSeq(EscapedPair, DecodedPairs(raw)));
    var shown := MapSeq(Shown, SortedEscaped(raw));
    forall i | 0 <= i < |shown|
      ensures '&' !in shown[i] && Present(shown[i])
    {
      EachIsEscaped(raw, i);
      var p :| PairIsBytes(p) && SortedEscaped(raw)[i] == EscapedPair(p);
      PairRoundTrip(p);
    }
    PartsOfJoin(shown);
    FilterKeepsAll(Present, shown);
  }

  /** The order of the printed pairs: by name, and by value where the names are equal, byte by byte. */
  lemma CanonicalOrder(raw: string, i: nat, j: nat)
    requires i < j < |SortedEscaped(raw)|
    ensures
      var p, q := SortedEscaped(raw)[i], SortedEscaped(raw)[j];
      && (p.k == q.k || exists n :: KeyOrder.SmallerAt(p.k, q.k, n))
      && (p.k == q.k ==> p.v == q.v || exists n :: KeyOrder.SmallerAt(p.v, q.v, n))
  {
    hide Sort, MapSeq, DecodedPairs, EscapedPair, KeyOrder.Less, KeyOrder.SmallerAt;
    var s := SortedEscaped(raw);
    SortSorts(MapSeq(EscapedPair, DecodedPairs(raw)));
    assert AtMost(s[i], s[j]);
    KeyOrder.LessMeans(s[i].k, s[j].k);
    KeyOrder.LessMeans(s[i].v, s[j].v);
    KeyOrder.LessIrreflexive(s[i].k);
    LessTotal(s[i].v, s[j].v);
  }

  function ReadBack(p: Pair): Pair {
    PairOf(Shown(p))
  }

  /** Canonicalising keeps the meaning: the same pairs, each as often, in another order. */
  lemma CanonicalKeepsPairs(raw: string)
    requires IsBytes(raw)
    ensures multiset(DecodedPairs(Canonical(raw))) == multiset(DecodedPairs(raw))
  {
    hide *;
    var d := DecodedPairs(raw);
    var e := MapSeq(EscapedPair, d);
    var s := SortedEscaped(raw);
    assert s == Sort(e) by {
      SortedEscapedMeans(raw);
    }
    PartsOfCanonical(raw);
    assert DecodedPairs(Canonical(raw)) == MapSeq(PairOf, MapSeq(Shown, s)) by {
      DecodedMeans(Canonical(raw));
    }
    ReadBackMeans();
    MapTwice(Shown, PairOf, ReadBack, s);
    SortSorts(e);
    MapPermuted(ReadBack, s, e);
    forall i | 0 <= i < |d|
      ensures MapSeq(ReadBack, e)[i] == d[i]
    {
      DecodedPairsAreBytes(raw);
      PairRoundTrip(d[i]);
    }
    assert MapSeq(ReadBack, e) == d;
  }

  lemma SortedEscapedMeans(raw: string)
    ensures SortedEscaped(raw) == Sort(MapSeq(EscapedPair, DecodedPairs(raw)))
    ensures Canonical(raw) == Join(MapSeq(Shown, SortedEscaped(raw)), '&')
  {
  }

  lemma DecodedMeans(raw: string)
    ensures DecodedPairs(raw) == MapSeq(PairOf, Parts(raw))
  {
  }

  lemma ReadBackMeans()
    ensures forall p :: ReadBack(p) == PairOf(Shown(p))
  {
    hide PairOf, Shown;
  }

  /** Two queries canonicalise alike exactly when they mean the same pairs, each as often. */
  lemma SameCanonicalIffSamePairs(a: string, b: string)
    requires IsBytes(a) && IsBytes(b)
    ensures Canonical(a) == Canonical(b) <==> multiset(DecodedPairs(a)) == multiset(DecodedPairs(b))
  {
    hide *;
    CanonicalKeepsPairs(a);
    CanonicalKeepsPairs(b);
    if multiset(DecodedPairs(a)) == multiset(DecodedPairs(b)) {
      MapPermuted(EscapedPair, DecodedPairs(a), DecodedPairs(b));
      SortIsCanonical(MapSeq(EscapedPair, DecodedPairs(a)), MapSeq(EscapedPair, DecodedPairs(b)));
      SortedEscapedMeans(a);
      SortedEscapedMeans(b);
    }
  }

  lemma CanonicalIsBytes(raw: string)
    requires IsBytes(raw)
    ensures IsBytes(Canonical(raw))
  {
    hide *;
    SortedEscapedMeans(raw);
    var shown := MapSeq(Shown, SortedEscaped(raw));
    forall i | 0 <= i < |shown|
      ensures IsBytes(shown[i])
    {
      EachIsEscaped(raw, i);
      var p :| PairIsBytes(p) && SortedEscaped(raw)[i] == EscapedPair(p);
      ShownIsBytes(p);
    }
    AllBytesMeans(shown);
    JoinIsBytes(shown, '&');
  }

  lemma AllBytesMeans(parts: seq<string>)
    requires forall i :: 0 <= i < |parts| ==> IsBytes(parts[i])
    ensures AllBytes(parts)
  {
  }

  lemma {:induction false} EscapedIsBytes(s: string, encodeSlash: bool)
    requires IsBytes(s)
    ensures IsBytes(AwsEscape(s, encodeSlash))
    decreases |s|
  {
    if s != [] {
      EscapedIsBytes(s[1..], encodeSlash);
      assert IsBytes(EscapeChar(s[0], encodeSlash));
    }
  }

  lemma ShownIsBytes(p: Pair)
    requires PairIsBytes(p)
    ensures IsBytes(Shown(EscapedPair(p)))
  {
    EscapedIsBytes(p.k, true);
    EscapedIsBytes(p.v, true);
    hide AwsEscape;
  }

  /** Canonicalising twice is canonicalising once. */
  lemma CanonicalIdempotent(raw: string)
    requires IsBytes(raw)
    ensures Canonical(Canonical(raw)) == Canonical(raw)
  {
    hide *;
    CanonicalIsBytes(raw);
    CanonicalKeepsPairs(raw);
    SameCanonicalIffSamePairs(Canonical(raw), raw);
  }

  /** The order of the parts, and empty parts between them, do not matter. */
  lemma OrderAndEmptyPartsDoNotMatter(ps: seq<string>, qs: seq<string>)
    requires Free(ps, '&') && Free(qs, '&')
    requires multiset(Filter(Present, ps)) == multiset(Filter(Present, qs))
    ensures Canonical(Join(ps, '&')) == Canonical(Join(qs, '&'))
  {
    hide *;
    var a, b := Join(ps, '&'), Join(qs, '&');
    PartsOfJoin(ps);
    PartsOfJoin(qs);
    DecodedMeans(a);
    DecodedMeans(b);
    MapPermuted(PairOf, Parts(a), Parts(b));
    MapPermuted(EscapedPair, DecodedPairs(a), DecodedPairs(b));
    SortIsCanonical(MapSeq(EscapedPair, DecodedPairs(a)), MapSeq(EscapedPair, DecodedPairs(b)));
    SortedEscapedMeans(a);
    SortedEscapedMeans(b);
  }

  // --- removing the signature ---

  /**
   * strings.EqualFold with an ASCII name. Besides the other case of a letter, Unicode folding equates
   * the long s (bytes C5 BF) with s and the Kelvin sign (bytes E2 84 AA) with k.
   */
  predicate EqualFold(s: string, name: string)
    decreases |name|
  {
    if name == "" then s == ""
    else
      || (s != "" && LowerAscii(s[0]) == LowerAscii(name[0]) && EqualFold(s[1..], name[1..]))
      || (LowerAscii(name[0]) == 's' && "\U{C5}\U{BF}" <= s && EqualFold(s[2..], name[1..]))
      || (LowerAscii(name[0]) == 'k' && "\U{E2}\U{84}\U{AA}" <= s && EqualFold(s[3..], name[1..]))
  }

  predicate IsAscii(s: string) {
    forall i :: 0 <= i < |s| ==> s[i] as int < 128
  }

  /** A byte string with its letters made small, the long s and the Kelvin sign included. */
  function Folded(s: string): string {
    if s == "" then ""
    else if "\U{C5}\U{BF}" <= s then "s" + Folded(s[2..])
    else if "\U{E2}\U{84}\U{AA}" <= s then "k" + Folded(s[3..])
    else [LowerAscii(s[0])] + Folded(s[1..])
  }

  /** Folding equates a text with an ASCII name exactly if both are the same in small letters. */
  lemma {:induction false} EqualFoldIsFolded(s: string, name: string)
    requires IsAscii(name)
    ensures EqualFold(s, name) <==> Folded(s) == Lower(name)
    decreases |name|
  {
    if name != "" {
      var n := LowerAscii(name[0]);
      assert IsAscii(name[1..]);
      if s != "" {
        EqualFoldIsFolded(s[1..], name[1..]);
        HeadAndRest(LowerAscii(s[0]), Folded(s[1..]), n, Lower(name[1..]));
      }
      if "\U{C5}\U{BF}" <= s {
        EqualFoldIsFolded(s[2..], name[1..]);
        HeadAndRest('s', Folded(s[2..]), n, Lower(name[1..]));
      } else if "\U{E2}\U{84}\U{AA}" <= s {
        EqualFoldIsFolded(s[3..], name[1..]);
        HeadAndRest('k', Folded(s[3..]), n, Lower(name[1..]));
      }
    }
  }

  lemma HeadAndRest(c: char, s: string, d: char, t: string)
    ensures [c] + s == [d] + t <==> c == d && s == t
  {
    if [c] + s == [d] + t {
      assert ([c] + s)[0] == c && ([d] + t)[0] == d;
      assert ([c] + s)[1..] == s && ([d] + t)[1..] == t;
    }
  }

  /** An ASCII text is just lower-cased. */
  lemma {:induction false} FoldedOfAscii(s: string)
    requires IsAscii(s)
    ensures Folded(s) == Lower(s)
    decreases |s|
  {
    if s != "" {
      assert IsAscii(s[1..]);
      FoldedOfAscii(s[1..]);
    }
  }

  predicate Named(part: string, name: string) {
    EqualFold(Decoded(KeyOf(part)), name)
  }

  /** A part has an ASCII name if its decoded name, its capitals made small, is that name in small letters. */
  lemma NamedMeans(part: string, name: string)
    requires IsAscii(name)
    ensures Named(part, name) <==> Folded(Decoded(KeyOf(part))) == Lower(name)
    ensures IsAscii(Decoded(KeyOf(part))) ==> (Named(part, name) <==> Lower(Decoded(KeyOf(part))) == Lower(name))
  {
    hide EqualFold, Decoded, KeyOf, Folded, Lower;
    var k := Decoded(KeyOf(part));
    EqualFoldIsFolded(k, name);
    if IsAscii(k) {
      FoldedOfAscii(k);
    }
  }

  function Kept(name: string): string -> bool {
    part => !Named(part, name)
  }

  /** stripQueryParam, as a function. */
  function Stripped(raw: string, name: string): string {
    Join(Filter(Kept(name), Parts(raw)), '&')
  }

  method StripQueryParam(raw: string, name: string) returns (out: string)
    ensures out == Stripped(raw, name)
  {
    if raw == "" {
      return "";
    }
    hide *;
    var keep: seq<string> := [];
    var parts := Split(raw, '&');
    var i := 0;
    NothingKept(name);
    while i < |parts|
      invariant 0 <= i <= |parts|
      invariant keep == Filter(Kept(name), Filter(Present, parts[..i]))
    {
      var part := parts[i];
      KeepStep(parts, i, name);
      i := i + 1;
      if part == "" {
        continue;
      }
      var eq := IndexByte(part, '=');
      var key := part;
      if eq >= 0 {
        key := part[..eq];
      }
      var dk := Unescape(key);
      if EqualFold(if dk.None? then key else dk.value, name) {
        continue;
      }
      keep := keep + [part];
    }
    assert parts[..i] == parts;
    StrippedMeans(raw, name);
    out := Join(keep, '&');
  }

  lemma NothingKept(name: string)
    ensures Filter(Kept(name), Filter(Present, [])) == []
  {
  }

  lemma KeptMeans(part: string, name: string)
    ensures Filter(Kept(name), [part]) == if Named(part, name) then [] else [part]
    ensures Named(part, name) <==> EqualFold(Decoded(KeyOf(part)), name)
    ensures KeyOf(part) == if IndexByte(part, '=') < 0 then part else part[..IndexByte(part, '=')]
    ensures Decoded(KeyOf(part)) ==
            var d := Unescape(KeyOf(part)); if d.None? then KeyOf(part) else d.value
  {
    hide EqualFold, Unescape, IndexByte;
  }

  lemma KeepStep(parts: seq<string>, i: nat, name: string)
    requires i < |parts|
    ensures var eq := IndexByte(parts[i], '=');
            var key := if eq < 0 then parts[i] else parts[i][..eq];
            var d := Unescape(key);
            Filter(Kept(name), Filter(Present, parts[..i + 1])) ==
            Filter(Kept(name), Filter(Present, parts[..i])) +
            (if parts[i] == "" || EqualFold(if d.None? then key else d.value, name) then [] else [parts[i]])
  {
    hide *;
    OneMore(Present, parts, i);
    PresentMeans(parts[i]);
    var f := Filter(Present, parts[..i]);
    assert f + [] == f && Filter(Kept(name), f) + [] == Filter(Kept(name), f);
    FilterOfTwo(Kept(name), f, [parts[i]]);
    KeptMeans(parts[i], name);
  }

  lemma StrippedMeans(raw: string, name: string)
    ensures Stripped(raw, name) == Join(Filter(Kept(name), Filter(Present, Split(raw, '&'))), '&')
  {
  }

  /** Stripping removes the parts of that name and keeps the others, in order. */
  lemma StripKeepsTheRest(raw: string, name: string)
    ensures Parts(Stripped(raw, name)) == Filter(Kept(name), Parts(raw))
  {
    hide Split, Join, Filter, Named;
    var kept := Filter(Kept(name), Parts(raw));
    SplitIsFree(raw, '&');
    FilterMembers(Present, Split(raw, '&'));
    FilterMembers(Kept(name), Parts(raw));
    forall i | 0 <= i < |kept|
      ensures '&' !in kept[i] && Present(kept[i])
    {
      assert kept[i] in kept;
      assert kept[i] in Split(raw, '&');
    }
    PartsOfJoin(kept);
    FilterKeepsAll(Present, kept);
  }

  /** Of the query's parts, exactly those are dropped whose decoded name is the name, capitals or not. */
  lemma StrippedParts(raw: string, name: string, part: string)
    requires IsAscii(name)
    ensures part in Parts(Stripped(raw, name)) <==>
            part in Parts(raw) && Folded(Decoded(KeyOf(part))) != Lower(name)
    ensures IsAscii(Decoded(KeyOf(part))) ==> Folded(Decoded(KeyOf(part))) == Lower(Decoded(KeyOf(part)))
  {
    hide Parts, Stripped, Filter, Named, Folded, Decoded, KeyOf, Lower, IsAscii;
    StripKeepsTheRest(raw, name);
    FilterMembers(Kept(name), Parts(raw));
    NamedMeans(part, name);
    if IsAscii(Decoded(KeyOf(part))) {
      FoldedOfAscii(Decoded(KeyOf(part)));
    }
  }

  const SIGNATURE := "X-Amz-Signature"

  lemma {:induction false} UnescapePlain(s: string)
    requires '%' !in s && '+' !in s
    ensures Unescape(s) == Some(s)
    decreases |s|
  {
    if s != [] {
      UnescapePlain(s[1..]);
      assert s == [s[0]] + s[1..];
    }
  }

  predicate NoCapital(s: string) {
    forall i :: 0 <= i < |s| ==> !('A' <= s[i] <= 'Z')
  }

  lemma {:induction false} LowerOfTwo(a: string, b: string)
    ensures Lower(a + b) == Lower(a) + Lower(b)
    ensures NoCapital(a) ==> Lower(a) == a
    decreases |a|
  {
    if a == "" {
      assert a + b == b;
    } else {
      LowerOfTwo(a[1..], b);
      assert (a + b)[0] == a[0] && (a + b)[1..] == a[1..] + b;
      Assoc([LowerAscii(a[0])], Lower(a[1..]), Lower(b));
    }
  }

  lemma LowerCapital(c: char, d: char, rest: string)
    requires 'A' <= c <= 'Z' && d == c - 'A' + 'a'
    ensures Lower([c] + rest) == [d] + Lower(rest)
  {
    LowerOfTwo([c], rest);
    assert Lower([c]) == [d] + Lower("");
  }

  lemma LowerAmz()
    ensures Lower("X-Amz-") == "x-amz-"
  {
    LowerCapital('A', 'a', "mz-");
    LowerCapital('X', 'x', "-" + ("A" + "mz-"));
    LowerOfTwo("mz-", "");
    LowerOfTwo("-", "A" + "mz-");
    hide Lower, LowerAscii;
    assert "X-Amz-" == "X" + ("-" + ("A" + "mz-")) && "x-amz-" == "x" + ("-" + ("a" + "mz-"));
    assert "mz-" + "" == "mz-";
  }

  lemma LowerWord(c: char, d: char, rest: string)
    requires 'A' <= c <= 'Z' && d == c - 'A' + 'a' && NoCapital(rest)
    ensures Lower([c] + rest) == [d] + rest
  {
    LowerCapital(c, d, rest);
    LowerOfTwo(rest, "");
    assert rest + "" == rest;
  }

  lemma SignatureText()
    ensures SIGNATURE == "X-Amz-" + ("S" + "ignature")
  {
  }

  lemma SmallSignatureText()
    ensures "x-amz-signature" == "x-amz-" + ("s" + "ignature")
  {
  }

  lemma SmallWord()
    ensures NoCapital("ignature")
  {
  }

  lemma LowerSignature()
    ensures Lower(SIGNATURE) == "x-amz-signature"
  {
    hide *;
    SmallWord();
    LowerAmz();
    LowerWord('S', 's', "ignature");
    LowerOfTwo("X-Amz-", "S" + "ignature");
    SignatureText();
    SmallSignatureText();
  }

  lemma SignatureIsAscii()
    ensures IsAscii(SIGNATURE)
  {
  }

  /** The parts that are signatures: those whose decoded name, in small letters, is just this. */
  lemma SignatureMeans(part: string)
    ensures Named(part, SIGNATURE) <==> Folded(Decoded(KeyOf(part))) == "x-amz-signature"
  {
    hide Named, Folded, Decoded, KeyOf, Lower;
    LowerSignature();
    SignatureIsAscii();
    NamedMeans(part, SIGNATURE);
  }

  lemma {:induction false} EqualFoldReflexive(s: string)
    ensures EqualFold(s, s)
    decreases |s|
  {
    if s != [] {
      EqualFoldReflexive(s[1..]);
    }
  }

  lemma SignatureIsNamed(sig: string)
    ensures Named(SIGNATURE + "=" + sig, SIGNATURE)
  {
    hide EqualFold, Unescape;
    var part := SIGNATURE + "=" + sig;
    IndexOfFirst(SIGNATURE, '=', sig);
    assert part[..|SIGNATURE|] == SIGNATURE;
    UnescapePlain(SIGNATURE);
    EqualFoldReflexive(SIGNATURE);
  }

  /** The query with a signature parameter inserted before its i-th part. */
  function Signed(raw: string, i: nat, sig: string): string
    requires i <= |Split(raw, '&')|
  {
    var parts := Split(raw, '&');
    Join(parts[..i] + [SIGNATURE + "=" + sig] + parts[i..], '&')
  }

  /** Wherever it was inserted, stripping the signature leaves the parts of other names, in order. */
  lemma StripOfSigned(raw: string, i: nat, sig: string)
    requires i <= |Split(raw, '&')| && '&' !in sig
    ensures Parts(Stripped(Signed(raw, i, sig), SIGNATURE)) == Filter(Kept(SIGNATURE), Parts(raw))
    ensures forall part :: part in Parts(Stripped(Signed(raw, i, sig), SIGNATURE)) <==>
              part in Parts(raw) && Folded(Decoded(KeyOf(part))) != "x-amz-signature"
  {
    hide *;
    FilterMembers(Kept(SIGNATURE), Parts(raw));
    forall part
      ensures Kept(SIGNATURE)(part) <==> Folded(Decoded(KeyOf(part))) != "x-amz-signature"
    {
      KeptIs(part);
      SignatureMeans(part);
    }
    var parts := Split(raw, '&');
    var part := SIGNATURE + "=" + sig;
    SplitIsFree(raw, '&');
    SignedMeans(raw, i, sig);
    FreeWith(parts, i, part);
    PartsOfJoin(parts[..i] + [part] + parts[i..]);
    var keep := Kept(SIGNATURE);
    var f, g := Filter(Present, parts[..i]), Filter(Present, parts[i..]);
    assert Filter(Present, [part]) == [part] by {
      KeepsOne(Present, part);
      PresentMeans(part);
    }
    FilterOfTwo(Present, parts[..i] + [part], parts[i..]);
    FilterOfTwo(Present, parts[..i], [part]);
    FilterOfTwo(Present, parts[..i], parts[i..]);
    assert parts == parts[..i] + parts[i..];
    FilterOfTwo(keep, f + [part], g);
    FilterOfTwo(keep, f, [part]);
    FilterOfTwo(keep, f, g);
    SignatureIsNamed(sig);
    KeptMeans(part, SIGNATURE);
    StripKeepsTheRest(Signed(raw, i, sig), SIGNATURE);
    PartsMeans(raw);
  }

  lemma FreeWith(parts: seq<string>, i: nat, part: string)
    requires Free(parts, '&') && i <= |parts| && '&' !in part
    ensures Free(parts[..i] + [part] + parts[i..], '&')
  {
  }

  lemma KeepsOne(keep: string -> bool, part: string)
    ensures Filter(keep, [part]) == if keep(part) then [part] else []
  {
  }

  lemma PartsMeans(raw: string)
    ensures Parts(raw) == Filter(Present, Split(raw, '&'))
  {
  }

  lemma SignedMeans(raw: string, i: nat, sig: string)
    requires i <= |Split(raw, '&')| && '&' !in sig
    ensures Signed(raw, i, sig) ==
            Join(Split(raw, '&')[..i] + [SIGNATURE + "=" + sig] + Split(raw, '&')[i..], '&')
    ensures '&' !in SIGNATURE + "=" + sig
  {
  }

  /**
   * Stripping undoes the insertion, as far as signing can tell, exactly when the query had no
   * parameter to begin with whose decoded name, in small letters, is x-amz-signature.
   */
  lemma StripUndoesSigningIffNameUnused(raw: string, i: nat, sig: string)
    requires IsBytes(raw) && i <= |Split(raw, '&')| && '&' !in sig
    ensures Canonical(Stripped(Signed(raw, i, sig), SIGNATURE)) == Canonical(raw)
       <==> forall part :: part in Parts(raw) ==> Folded(Decoded(KeyOf(part))) != "x-amz-signature"
  {
    hide *;
    forall part
      ensures Named(part, SIGNATURE) <==> Folded(Decoded(KeyOf(part))) == "x-amz-signature"
    {
      SignatureMeans(part);
    }
    var stripped := Stripped(Signed(raw, i, sig), SIGNATURE);
    StripOfSigned(raw, i, sig);
    DecodedMeans(stripped);
    DecodedMeans(raw);
    FilterKeepsAll(Kept(SIGNATURE), Parts(raw));
    forall part
      ensures Kept(SIGNATURE)(part) == !Named(part, SIGNATURE)
    {
      KeptIs(part);
    }
    if Canonical(stripped) == Canonical(raw) {
      StrippedIsBytes(raw, i, sig);
      SameCanonicalIffSamePairs(stripped, raw);
      SameSize(DecodedPairs(stripped), DecodedPairs(raw));
    } else if forall part :: part in Parts(raw) ==> !Named(part, SIGNATURE) {
      SortedEscapedMeans(stripped);
      SortedEscapedMeans(raw);
    }
  }

  lemma KeptIs(part: string)
    ensures Kept(SIGNATURE)(part) == !Named(part, SIGNATURE)
  {
    hide Named;
  }

  lemma StrippedIsBytes(raw: string, i: nat, sig: string)
    requires IsBytes(raw) && i <= |Split(raw, '&')| && '&' !in sig
    ensures IsBytes(Stripped(Signed(raw, i, sig), SIGNATURE))
  {
    hide IsBytes, Split, Filter, Join, Named, Signed;
    var s := Signed(raw, i, sig);
    var kept := Filter(Kept(SIGNATURE), Parts(s));
    assert kept == Filter(Kept(SIGNATURE), Parts(raw)) by {
      StripOfSigned(raw, i, sig);
      StripKeepsTheRest(s, SIGNATURE);
    }
    SplitIsBytes(raw, '&');
    FilterMembers(Present, Split(raw, '&'));
    FilterMembers(Kept(SIGNATURE), Parts(raw));
    forall j | 0 <= j < |kept|
      ensures IsBytes(kept[j])
    {
      assert kept[j] in kept;
    }
    JoinIsBytes(kept, '&');
  }

  /** A name in front of the signature stays, unless it is a signature's too. */
  lemma FirstStays(kept: string, sig: string)
    requires kept != "" && '&' !in kept && '&' !in sig && !Named(kept, SIGNATURE)
    ensures Stripped(kept + "&" + (SIGNATURE + "=" + sig), SIGNATURE) == kept
  {
    var gone := SIGNATURE + "=" + sig;
    SignatureIsNamed(sig);
    SignatureIsFree(sig);
    hide *;
    TwoParts(kept, gone);
    KeptMeans(kept, SIGNATURE);
    KeptMeans(gone, SIGNATURE);
    FirstOnly(Kept(SIGNATURE), kept, gone);
    StrippedOf(kept + "&" + gone, SIGNATURE);
    OnlyOne(kept);
  }

  lemma FirstOnly(keep: string -> bool, a: string, b: string)
    requires Filter(keep, [a]) == [a] && Filter(keep, [b]) == []
    ensures Filter(keep, [a, b]) == [a]
  {
    hide *;
    FilterOfTwo(keep, [a], [b]);
    assert [a] + [b] == [a, b];
  }

  lemma SignatureIsFree(sig: string)
    requires '&' !in sig
    ensures '&' !in SIGNATURE + "=" + sig && SIGNATURE + "=" + sig != ""
  {
  }

  lemma TwoParts(a: string, b: string)
    requires a != "" && b != "" && '&' !in a && '&' !in b
    ensures Parts(a + "&" + b) == [a, b]
  {
    hide Split;
    SplitOfJoin([a, b], '&');
    assert [a, b][1..] == [b];
    assert Join([a, b], '&') == a + "&" + b;
    assert Filter(Present, [b]) == [b] + Filter(Present, []);
    assert Filter(Present, [a, b]) == [a] + Filter(Present, [b]);
  }

  lemma StrippedOf(raw: string, name: string)
    ensures Stripped(raw, name) == Join(Filter(Kept(name), Parts(raw)), '&')
  {
  }

  lemma OnlyOne(a: string)
    ensures Join([a], '&') == a
  {
  }

  /** An instance: of a presigned query, the signature goes and the parameter before it stays. */
  lemma AlgorithmStays()
    ensures Stripped("X-Amz-Algorithm=AWS4-HMAC-SHA256&X-Amz-Signature=ab", "X-Amz-Signature") ==
            "X-Amz-Algorithm=AWS4-HMAC-SHA256"
  {
    hide *;
    var v := "AWS4-HMAC-SHA256";
    AlgorithmPart();
    AlgorithmIsOther(v);
    FirstStays(ALGORITHM + "=" + v, "ab");
    PresignedText();
  }

  const ALGORITHM := "X-Amz-Algorithm"

  lemma AlgorithmText()
    ensures ALGORITHM == "X-Amz-" + ("A" + "lgorithm") && NoCapital("lgorithm")
    ensures '=' !in ALGORITHM && '%' !in ALGORITHM && '+' !in ALGORITHM && IsAscii(ALGORITHM)
  {
  }

  lemma AlgorithmPart()
    ensures ALGORITHM + "=" + "AWS4-HMAC-SHA256" != "" && '&' !in ALGORITHM + "=" + "AWS4-HMAC-SHA256"
  {
  }

  lemma PresignedText()
    ensures SIGNATURE == "X-Amz-Signature"
    ensures ALGORITHM + "=" + "AWS4-HMAC-SHA256" == "X-Amz-Algorithm=AWS4-HMAC-SHA256"
    ensures ALGORITHM + "=" + "AWS4-HMAC-SHA256" + "&" + (SIGNATURE + "=" + "ab") ==
            "X-Amz-Algorithm=AWS4-HMAC-SHA256&X-Amz-Signature=ab"
  {
  }

  lemma AlgorithmIsOther(v: string)
    ensures !Named(ALGORITHM + "=" + v, SIGNATURE)
  {
    hide *;
    AlgorithmText();
    LowerWord('A', 'a', "lgorithm");
    WordsDiffer();
    OtherAmzName(ALGORITHM, "A" + "lgorithm", "a" + "lgorithm", v);
  }

  lemma WordsDiffer()
    ensures "a" + "lgorithm" != "s" + "ignature"
  {
    assert ("a" + "lgorithm")[0] != ("s" + "ignature")[0];
  }

  lemma OtherAmzName(name: string, word: string, lower: string, v: string)
    requires '=' !in name && '%' !in name && '+' !in name && IsAscii(name)
    requires name == "X-Amz-" + word && Lower(word) == lower && lower != "s" + "ignature"
    ensures !Named(name + "=" + v, SIGNATURE)
  {
    hide Lower, LowerAscii, Named, Folded, Unescape, EqualFold, SIGNATURE, IsAscii, KeyOf;
    PartMeans(name, v);
    UnescapePlain(name);
    FoldedOfAscii(name);
    LowerOfTwo("X-Amz-", word);
    LowerAmz();
    SmallSignatureText();
    SignatureMeans(name + "=" + v);
    SameBehind("x-amz-", lower, "s" + "ignature");
  }

  lemma SameBehind(a: string, b: string, c: string)
    ensures a + b == a + c <==> b == c
  {
    assert (a + b)[|a|..] == b && (a + c)[|a|..] == c;
  }
}
