/** The operations of package strings and strconv that the parsers use, on sequences of characters. */
module Text {
  import opened Bytes

  /** strings.IndexByte: the first position of c, or -1. */
  function IndexByte(s: string, c: char): (r: int)
    ensures -1 <= r < |s|
    ensures r >= 0 ==> s[r] == c && c !in s[..r]
    ensures r == -1 <==> c !in s
  {
    if s == [] then -1
    else if s[0] == c then 0
    else
      var r := IndexByte(s[1..], c);
      if r < 0 then -1
      else
        assert s[..r + 1] == [s[0]] + s[1..][..r];
        r + 1
  }

  /** strings.Index: the first position of a non-empty d, or -1. */
  function Index(s: string, d: string): (r: int)
    requires d != []
    ensures -1 <= r && (r >= 0 ==> r + |d| <= |s| && s[r..r + |d|] == d)
  {
    if |s| < |d| then -1
    else if d <= s then 0
    else
      var r := Index(s[1..], d);
      if r < 0 then -1
      else
        assert s[1..][r..r + |d|] == s[r + 1..r + 1 + |d|];
        r + 1
  }

  /** d stands in s at that place. */
  predicate OccursAt(d: string, s: string, at: int) {
    0 <= at <= at + |d| <= |s| && s[at..at + |d|] == d
  }

  /** strings.Index finds the first place at which d stands, if there is one. */
  lemma {:induction false} IndexIsFirst(s: string, d: string)
    requires d != []
    ensures Index(s, d) >= 0 ==> OccursAt(d, s, Index(s, d))
    ensures forall k :: OccursAt(d, s, k) ==> 0 <= Index(s, d) <= k
    decreases |s|
  {
    if |s| >= |d| && !(d <= s) {
      IndexIsFirst(s[1..], d);
      forall k | OccursAt(d, s, k)
        ensures 0 <= Index(s, d) <= k
      {
        assert k > 0;
        assert s[1..][k - 1..k - 1 + |d|] == s[k..k + |d|];
        assert OccursAt(d, s[1..], k - 1);
      }
    }
  }

  /** The first c of s + [c] + t is the middle one when s has none. */
  lemma IndexOfFirst(s: string, c: char, t: string)
    requires c !in s
    ensures IndexByte(s + [c] + t, c) == |s|
  {
    var all := s + [c] + t;
    assert all[|s|] == c;
    assert forall k :: 0 <= k < |s| ==> all[k] == s[k];
    FirstIndexUnique(all, c, |s|);
  }

  lemma FirstIndexUnique(s: string, c: char, k: nat)
    requires k < |s| && s[k] == c && forall j :: 0 <= j < k ==> s[j] != c
    ensures IndexByte(s, c) == k
  {
    var r := IndexByte(s, c);
    assert forall j :: 0 <= j < r ==> s[j] == s[..r][j];
  }

  /** strings.ToLower on ASCII. */
  function Lower(s: string): string {
    if s == [] then [] else [LowerAscii(s[0])] + Lower(s[1..])
  }

  function LowerAscii(c: char): char {
    if 'A' <= c <= 'Z' then c - 'A' + 'a' else c
  }

  const UPPER_CASE := "ABCDEFGHIJKLMNOPQRSTUVWXYZ"
  const LOWER_CASE := "abcdefghijklmnopqrstuvwxyz"

  lemma LowerOfLetter(n: nat)
    requires n < 26
    ensures |UPPER_CASE| == |LOWER_CASE| == 26 && LowerAscii(UPPER_CASE[n]) == LOWER_CASE[n]
  {
    assert UPPER_CASE[n] as nat == 'A' as nat + n && LOWER_CASE[n] as nat == 'a' as nat + n;
  }

  lemma CapitalAt(n: nat)
    requires n < 26
    ensures |UPPER_CASE| == 26 && UPPER_CASE[n] as nat == 'A' as nat + n
  {
  }

  lemma CapitalIsLetter(c: char)
    requires 'A' <= c <= 'Z'
    ensures c in UPPER_CASE
  {
    hide UPPER_CASE;
    var n := c as nat - 'A' as nat;
    CapitalAt(n);
    assert UPPER_CASE[n] == c;
  }

  lemma LowerOfOther(c: char)
    requires c !in UPPER_CASE
    ensures LowerAscii(c) == c
  {
    if 'A' <= c <= 'Z' {
      CapitalIsLetter(c);
    }
  }

  /** Lower-casing replaces every capital by its small letter and nothing else. */
  lemma {:induction false} LowerMeans(s: string)
    ensures |Lower(s)| == |s| && |UPPER_CASE| == |LOWER_CASE| == 26
    ensures forall i, n :: 0 <= i < |s| && 0 <= n < 26 && s[i] == UPPER_CASE[n] ==> Lower(s)[i] == LOWER_CASE[n]
    ensures forall i :: 0 <= i < |s| && s[i] !in UPPER_CASE ==> Lower(s)[i] == s[i]
    decreases |s|
  {
    LettersDiffer();
    hide UPPER_CASE, LOWER_CASE, LowerAscii;
    if s != [] {
      LowerMeans(s[1..]);
      if s[0] !in UPPER_CASE {
        LowerOfOther(s[0]);
      }
    }
  }

  lemma LettersDiffer()
    ensures |UPPER_CASE| == |LOWER_CASE| == 26
    ensures forall n :: 0 <= n < 26 ==> LowerAscii(UPPER_CASE[n]) == LOWER_CASE[n]
  {
    hide LowerAscii;
    forall n | 0 <= n < 26
      ensures LowerAscii(UPPER_CASE[n]) == LOWER_CASE[n]
    {
      LowerOfLetter(n);
    }
  }

  // --- splitting and joining ---

  /** strings.Split on one character. */
  function Split(s: string, c: char): (parts: seq<string>)
    ensures parts != []
  {
    var i := IndexByte(s, c);
    if i < 0 then [s] else [s[..i]] + Split(s[i + 1..], c)
  }

  /** strings.Join with one character. */
  function Join(parts: seq<string>, c: char): string {
    if parts == [] then []
    else if |parts| == 1 then parts[0]
    else parts[0] + [c] + Join(parts[1..], c)
  }

  predicate Free(parts: seq<string>, c: char) {
    forall i :: 0 <= i < |parts| ==> c !in parts[i]
  }

  lemma {:induction false} SplitIsFree(s: string, c: char)
    ensures Free(Split(s, c), c)
    decreases |s|
  {
    var i := IndexByte(s, c);
    if i >= 0 {
      SplitIsFree(s[i + 1..], c);
    }
  }

  /** Splitting undoes joining for pieces without the separator. */
  lemma {:induction false} SplitOfJoin(parts: seq<string>, c: char)
    requires parts != [] && Free(parts, c)
    ensures Split(Join(parts, c), c) == parts
    decreases |parts|
  {
    if |parts| > 1 {
      var rest := Join(parts[1..], c);
      assert Free(parts[1..], c) by {
        assert forall i :: 0 <= i < |parts[1..]| ==> parts[1..][i] == parts[i + 1];
      }
      SplitOfJoin(parts[1..], c);
      IndexOfFirst(parts[0], c, rest);
      var all := parts[0] + [c] + rest;
      assert all[..|parts[0]|] == parts[0] && all[|parts[0]| + 1..] == rest;
      assert parts == [parts[0]] + parts[1..];
    }
  }

  lemma SplitStep(s: string, c: char)
    ensures var i := IndexByte(s, c);
            Split(s, c) == if i < 0 then [s] else [s[..i]] + Split(s[i + 1..], c)
  {
  }

  /** Joining brings no character but the separator. */
  lemma {:induction false} JoinIsFree(parts: seq<string>, sep: char, c: char)
    requires Free(parts, c) && c != sep
    ensures c !in Join(parts, sep)
    decreases |parts|
  {
    if parts != [] {
      assert c !in parts[0];
      if |parts| > 1 {
        assert Free(parts[1..], c) by {
          assert forall i :: 0 <= i < |parts[1..]| ==> parts[1..][i] == parts[i + 1];
        }
        JoinIsFree(parts[1..], sep, c);
      }
    }
  }

  /** Joining undoes splitting. */
  lemma {:induction false} JoinOfSplit(s: string, c: char)
    ensures Join(Split(s, c), c) == s
    decreases |s|
  {
    var i := IndexByte(s, c);
    if i >= 0 {
      JoinOfSplit(s[i + 1..], c);
      assert s == s[..i] + [c] + s[i + 1..];
    }
  }

  /** One more piece at the end. */
  lemma {:induction false} JoinAppend(parts: seq<string>, p: string, c: char)
    requires parts != []
    ensures Join(parts + [p], c) == Join(parts, c) + [c] + p
    decreases |parts|
  {
    if |parts| == 1 {
      assert (parts + [p])[1..] == [p];
    } else {
      JoinAppend(parts[1..], p, c);
      assert (parts + [p])[1..] == parts[1..] + [p];
      assert (parts + [p])[0] == parts[0];
      var t := Join(parts[1..], c);
      assert parts[0] + [c] + (t + [c] + p) == (parts[0] + [c] + t) + [c] + p;
    }
  }

  lemma JoinSix(a: string, b: string, c: string, d: string, e: string, f: string)
    ensures Join([a, b, c, d, e, f], '\n') ==
            a + "\n" + b + "\n" + c + "\n" + d + "\n" + e + "\n" + f
  {
    var l := [a, b, c, d, e, f];
    JoinAppend([a], b, '\n');
    JoinAppend([a, b], c, '\n');
    JoinAppend([a, b, c], d, '\n');
    JoinAppend([a, b, c, d], e, '\n');
    JoinAppend([a, b, c, d, e], f, '\n');
    assert [a] + [b] == [a, b] && [a, b] + [c] == [a, b, c] && [a, b, c] + [d] == [a, b, c, d];
    assert [a, b, c, d] + [e] == [a, b, c, d, e] && [a, b, c, d, e] + [f] == l;
  }

  // --- decimal numbers ---

  predicate IsDigit(c: char) {
    '0' <= c <= '9'
  }

  predicate AllDigits(s: string) {
    forall i :: 0 <= i < |s| ==> IsDigit(s[i])
  }

  function DigitValue(c: char): nat
    requires IsDigit(c)
  {
    c as nat - '0' as nat
  }

  function Value(s: string): nat
    requires AllDigits(s)
  {
    if s == [] then 0 else Value(s[..|s| - 1]) * 10 + DigitValue(s[|s| - 1])
  }

  /** strconv.FormatInt of a natural number, base 10. */
  function Decimal(n: nat): (s: string)
    ensures s != [] && AllDigits(s)
  {
    (if n < 10 then [] else Decimal(n / 10)) + ['0' + (n % 10) as char]
  }

  lemma {:induction false} DecimalRoundTrip(n: nat)
    ensures Value(Decimal(n)) == n
  {
    var s := Decimal(n);
    assert DigitValue(s[|s| - 1]) == n % 10;
    if n >= 10 {
      DecimalRoundTrip(n / 10);
      assert s[..|s| - 1] == Decimal(n / 10);
    } else {
      assert s[..|s| - 1] == [];
    }
  }

  /** Most significant digit first. */
  lemma DecimalExample()
    ensures Decimal(120) == "120" && Value("120") == 120
  {
    assert Decimal(1) == "1" && Decimal(12) == "12";
    assert "120"[..2] == "12" && "12"[..1] == "1" && "1"[..0] == "";
  }

  const INT64_LIMIT := 0x8000_0000_0000_0000

  predicate HasSign(s: string) {
    s != [] && (s[0] == '-' || s[0] == '+')
  }

  /** The number that digits with an optional sign denote. */
  function SignedValue(s: string): Option<int> {
    var digits := if HasSign(s) then s[1..] else s;
    if digits == [] || !AllDigits(digits) then None
    else
      var v: int := Value(digits);
      Some(if s[0] == '-' then -v else v)
  }

  /** strconv.ParseInt(s, 10, 64). */
  function ParseInt(s: string): Option<int> {
    var v := SignedValue(s);
    if v.Some? && -INT64_LIMIT <= v.value < INT64_LIMIT then v else None
  }

  lemma ParseDecimal(n: nat)
    ensures ParseInt(Decimal(n)) == if n < INT64_LIMIT then Some(n) else None
    ensures '-' !in Decimal(n) && ',' !in Decimal(n)
  {
    DecimalRoundTrip(n);
    assert IsDigit(Decimal(n)[0]);
  }
}
