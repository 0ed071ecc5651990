/** Sorting lists of strings and of pairs of strings, and what is independent of their order. */
module Sorting {
  import opened Bytes
  import opened KeyOrder

  datatype Pair = Pair(k: string, v: string)

  lemma {:induction false} LessTotal(a: string, b: string)
    ensures Less(a, b) || Less(b, a) || a == b
    decreases |a|
  {
    if a != [] && b != [] && a[0] == b[0] {
      LessTotal(a[1..], b[1..]);
      assert a == [a[0]] + a[1..] && b == [b[0]] + b[1..];
    }
  }

  /** By key, then by value. */
  predicate AtMost(p: Pair, q: Pair) {
    Less(p.k, q.k) || (p.k == q.k && !Less(q.v, p.v))
  }

  lemma AtMostTotal(p: Pair, q: Pair)
    ensures AtMost(p, q) || AtMost(q, p)
    ensures AtMost(p, q) && AtMost(q, p) ==> p == q
  {
    LessTotal(p.k, q.k);
    LessTotal(p.v, q.v);
    LessIrreflexive(p.v);
    if Less(p.k, q.k) {
      LessAsymmetric(p.k, q.k);
      LessIrreflexive(p.k);
    }
    if Less(p.v, q.v) {
      LessAsymmetric(p.v, q.v);
    }
    if Less(q.k, p.k) {
      LessAsymmetric(q.k, p.k);
    }
  }

  lemma AtMostTransitive(p: Pair, q: Pair, r: Pair)
    requires AtMost(p, q) && AtMost(q, r)
    ensures AtMost(p, r)
  {
    if Less(p.k, q.k) && Less(q.k, r.k) {
      LessTransitive(p.k, q.k, r.k);
    } else if p.k == q.k == r.k && Less(r.v, p.v) {
      LessTotal(p.v, q.v);
      if Less(p.v, q.v) {
        LessTransitive(r.v, p.v, q.v);
      }
    }
  }

  ghost predicate Sorted(s: seq<Pair>) {
    forall i, j :: 0 <= i < j < |s| ==> AtMost(s[i], s[j])
  }

  function Insert(p: Pair, s: seq<Pair>): seq<Pair> {
    if s == [] || AtMost(p, s[0]) then [p] + s else [s[0]] + Insert(p, s[1..])
  }

  /** sort.Slice on pairs, up to its choice among equals, of which there is none here. */
  function Sort(s: seq<Pair>): seq<Pair> {
    if s == [] then [] else Insert(s[0], Sort(s[1..]))
  }

  ghost predicate Below(p: Pair, s: seq<Pair>) {
    forall x :: x in multiset(s) ==> AtMost(p, x)
  }

  lemma SortedCons(p: Pair, s: seq<Pair>)
    ensures Sorted([p] + s) <==> Below(p, s) && Sorted(s)
  {
    hide AtMost;
    var t := [p] + s;
    assert t[1..] == s;
    if Sorted(t) {
      forall x | x in multiset(s)
        ensures AtMost(p, x)
      {
        var j :| 0 <= j < |s| && s[j] == x;
        assert t[0] == p && t[j + 1] == x;
      }
      assert forall j :: 0 <= j < |s| ==> t[j + 1] == s[j];
    }
  }

  lemma SwapHeads<T>(p: T, h: T, t: seq<T>, u: seq<T>)
    requires multiset(u) == multiset(t) + multiset{p}
    ensures multiset([h] + u) == multiset([h] + t) + multiset{p}
  {
  }

  lemma {:induction false} InsertAdds(p: Pair, s: seq<Pair>)
    ensures multiset(Insert(p, s)) == multiset(s) + multiset{p}
    decreases |s|
  {
    hide AtMost;
    if s != [] && !AtMost(p, s[0]) {
      InsertAdds(p, s[1..]);
      SwapHeads(p, s[0], s[1..], Insert(p, s[1..]));
      assert s == [s[0]] + s[1..];
    }
  }

  lemma BelowAll(p: Pair, h: Pair, t: seq<Pair>)
    requires AtMost(p, h) && Below(h, t)
    ensures Below(p, [h] + t)
  {
    hide AtMost;
    forall x | x in multiset([h] + t)
      ensures AtMost(p, x)
    {
      if x != h {
        AtMostTransitive(p, h, x);
      }
    }
  }

  lemma NothingBelow(p: Pair)
    ensures Below(p, []) && Sorted([])
  {
  }

  lemma BelowMore(h: Pair, p: Pair, t: seq<Pair>)
    requires AtMost(h, p) && Below(h, t) && multiset(Insert(p, t)) == multiset(t) + multiset{p}
    ensures Below(h, Insert(p, t))
  {
    hide AtMost, Insert;
  }

  lemma {:induction false} InsertSorts(p: Pair, s: seq<Pair>)
    requires Sorted(s)
    ensures Sorted(Insert(p, s))
    decreases |s|
  {
    hide AtMost, Sorted, Below;
    if s == [] {
      NothingBelow(p);
      SortedCons(p, s);
    } else {
      var h, t := s[0], s[1..];
      assert s == [h] + t;
      SortedCons(h, t);
      AtMostTotal(p, h);
      if AtMost(p, h) {
        BelowAll(p, h, t);
        SortedCons(p, s);
      } else {
        InsertSorts(p, t);
        InsertAdds(p, t);
        BelowMore(h, p, t);
        SortedCons(h, Insert(p, t));
      }
    }
  }

  lemma {:induction false} SortSorts(s: seq<Pair>)
    ensures Sorted(Sort(s)) && multiset(Sort(s)) == multiset(s)
    decreases |s|
  {
    if s != [] {
      SortSorts(s[1..]);
      InsertSorts(s[0], Sort(s[1..]));
      InsertAdds(s[0], Sort(s[1..]));
      assert s == [s[0]] + s[1..];
    }
  }

  lemma HeadAndTail<T>(s: seq<T>)
    requires s != []
    ensures multiset(s) == multiset(s[1..]) + multiset{s[0]}
  {
    assert s == [s[0]] + s[1..];
  }

  lemma Without<T>(s: seq<T>, i: nat)
    requires i < |s|
    ensures multiset(s) == multiset(s[..i] + s[i + 1..]) + multiset{s[i]}
  {
    assert s == s[..i] + [s[i]] + s[i + 1..];
  }

  lemma Cancel<T>(a: multiset<T>, b: multiset<T>, x: T)
    requires a + multiset{x} == b + multiset{x}
    ensures a == b
  {
    assert a == (a + multiset{x}) - multiset{x};
    assert b == (b + multiset{x}) - multiset{x};
  }

  lemma SameSize<T>(a: seq<T>, b: seq<T>)
    requires multiset(a) == multiset(b)
    ensures |a| == |b|
  {
    assert |multiset(a)| == |a| && |multiset(b)| == |b|;
  }

  lemma FirstAtMost(a: seq<Pair>, x: Pair)
    requires Sorted(a) && x in multiset(a)
    ensures a != [] && AtMost(a[0], x)
  {
    AtMostTotal(x, x);
    hide AtMost;
    var i :| 0 <= i < |a| && a[i] == x;
  }

  /** Sorted lists of the same elements are the same list. */
  lemma {:induction false} SortedUnique(a: seq<Pair>, b: seq<Pair>)
    requires Sorted(a) && Sorted(b) && multiset(a) == multiset(b)
    ensures a == b
    decreases |a|
  {
    hide AtMost;
    SameSize(a, b);
    if a != [] {
      HeadAndTail(a);
      HeadAndTail(b);
      FirstAtMost(b, a[0]);
      FirstAtMost(a, b[0]);
      AtMostTotal(a[0], b[0]);
      Cancel(multiset(a[1..]), multiset(b[1..]), a[0]);
      SortedUnique(a[1..], b[1..]);
      assert a == [a[0]] + a[1..] && b == [b[0]] + b[1..];
    }
  }

  /** Sorting forgets the order and nothing else. */
  lemma SortIsCanonical(a: seq<Pair>, b: seq<Pair>)
    ensures multiset(a) == multiset(b) <==> Sort(a) == Sort(b)
  {
    SortSorts(a);
    SortSorts(b);
    if multiset(a) == multiset(b) {
      SortedUnique(Sort(a), Sort(b));
    }
  }

  // --- maps over lists, up to order ---

  function MapSeq<T, U>(f: T -> U, s: seq<T>): (r: seq<U>)
    ensures |r| == |s| && forall i :: 0 <= i < |s| ==> r[i] == f(s[i])
  {
    if s == [] then [] else [f(s[0])] + MapSeq(f, s[1..])
  }

  lemma MapOfTwo<T, U>(f: T -> U, a: seq<T>, b: seq<T>)
    ensures MapSeq(f, a + b) == MapSeq(f, a) + MapSeq(f, b)
  {
    hide MapSeq;
    var l, r := MapSeq(f, a + b), MapSeq(f, a) + MapSeq(f, b);
    forall k | 0 <= k < |a| + |b|
      ensures l[k] == r[k]
    {
      if k < |a| {
        assert (a + b)[k] == a[k];
      } else {
        assert (a + b)[k] == b[k - |a|];
      }
    }
  }

  lemma Middle<T>(a: seq<T>, x: T, b: seq<T>)
    ensures multiset(a + ([x] + b)) == multiset(a + b) + multiset{x}
  {
    assert multiset([x] + b) == multiset{x} + multiset(b);
  }

  lemma CutAt<T>(s: seq<T>, i: nat)
    requires i < |s|
    ensures s == s[..i] + ([s[i]] + s[i + 1..])
  {
  }

  lemma MapWithout<T, U>(f: T -> U, s: seq<T>, i: nat)
    requires i < |s|
    ensures multiset(MapSeq(f, s)) == multiset(MapSeq(f, s[..i] + s[i + 1..])) + multiset{f(s[i])}
  {
    hide *;
    CutAt(s, i);
    MapOfTwo(f, s[..i], [s[i]] + s[i + 1..]);
    MapOfTwo(f, [s[i]], s[i + 1..]);
    MapOfTwo(f, s[..i], s[i + 1..]);
    assert MapSeq(f, [s[i]]) == [f(s[i])];
    Middle(MapSeq(f, s[..i]), f(s[i]), MapSeq(f, s[i + 1..]));
  }

  /** Rearranging a list rearranges its image. */
  lemma {:induction false} MapPermuted<T, U>(f: T -> U, a: seq<T>, b: seq<T>)
    requires multiset(a) == multiset(b)
    ensures multiset(MapSeq(f, a)) == multiset(MapSeq(f, b))
    decreases |a|
  {
    SameSize(a, b);
    if a != [] {
      HeadAndTail(a);
      assert a[0] in multiset(b);
      var i :| 0 <= i < |b| && b[i] == a[0];
      var rest := b[..i] + b[i + 1..];
      Without(b, i);
      Cancel(multiset(a[1..]), multiset(rest), a[0]);
      MapPermuted(f, a[1..], rest);
      MapWithout(f, b, i);
      HeadAndTail(MapSeq(f, a));
      assert MapSeq(f, a)[1..] == MapSeq(f, a[1..]);
    } else {
      assert b == [];
    }
  }

  // --- filters ---

  function Filter<T>(keep: T -> bool, s: seq<T>): seq<T> {
    if s == [] then [] else (if keep(s[0]) then [s[0]] else []) + Filter(keep, s[1..])
  }

  lemma {:induction false} FilterOfTwo<T>(keep: T -> bool, a: seq<T>, b: seq<T>)
    ensures Filter(keep, a + b) == Filter(keep, a) + Filter(keep, b)
    decreases |a|
  {
    if a == [] {
      assert a + b == b;
    } else {
      FilterOfTwo(keep, a[1..], b);
      assert (a + b)[0] == a[0] && (a + b)[1..] == a[1..] + b;
      Assoc(if keep(a[0]) then [a[0]] else [], Filter(keep, a[1..]), Filter(keep, b));
    }
  }

  lemma {:induction false} FilterMembers<T>(keep: T -> bool, s: seq<T>)
    ensures |Filter(keep, s)| <= |s|
    ensures forall x :: x in Filter(keep, s) <==> x in s && keep(x)
  {
    if s != [] {
      FilterMembers(keep, s[1..]);
    }
  }

  /** A filter that drops nothing changes nothing, and one that drops something shortens the list. */
  lemma {:induction false} FilterKeepsAll<T>(keep: T -> bool, s: seq<T>)
    ensures (forall x :: x in s ==> keep(x)) <==> |Filter(keep, s)| == |s|
    ensures (forall x :: x in s ==> keep(x)) ==> Filter(keep, s) == s
  {
    FilterMembers(keep, s);
    if s != [] {
      FilterKeepsAll(keep, s[1..]);
      FilterMembers(keep, s[1..]);
      assert s == [s[0]] + s[1..];
    }
  }

  // --- the same for single strings ---

  function Lone(s: string): Pair {
    Pair(s, "")
  }

  function Key(p: Pair): string {
    p.k
  }

  /** sort.Strings. */
  function SortStrings(s: seq<string>): seq<string> {
    MapSeq(Key, Sort(MapSeq(Lone, s)))
  }

  /** It rearranges, into ascending order. */
  lemma SortStringsSorts(s: seq<string>)
    ensures multiset(SortStrings(s)) == multiset(s)
    ensures forall i, j :: 0 <= i < j < |s| ==> |SortStrings(s)| == |s| && !Less(SortStrings(s)[j], SortStrings(s)[i])
  {
    var l := MapSeq(Lone, s);
    var t := Sort(l);
    SortSorts(l);
    SameSize(t, l);
    MapPermuted(Key, t, l);
    assert MapSeq(Key, l) == s;
    forall i, j | 0 <= i < j < |s|
      ensures !Less(SortStrings(s)[j], SortStrings(s)[i])
    {
      assert AtMost(t[i], t[j]);
      if Less(t[i].k, t[j].k) {
        LessAsymmetric(t[i].k, t[j].k);
      } else {
        LessIrreflexive(t[i].k);
      }
    }
  }
}
