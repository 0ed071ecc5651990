/** One small request, and the whole text that is signed for it. */
module RequestExample {
  import opened Bytes
  import opened Text
  import opened Escape
  import opened KeyOrder
  import opened Sorting
  import opened CanonicalQuery
  import opened HeaderText
  import opened CanonicalRequest

  function Example(): Request {
    Request("GET", "/a b", "b=2&a=/", "s3.example", 5, map["x-b" := [" 1  2", "3 "]])
  }

  // --- the path ---

  lemma EscapedLetter(c: char, s: string, encodeSlash: bool)
    requires 'a' <= c <= 'z' || '0' <= c <= '9'
    ensures AwsEscape([c] + s, encodeSlash) == [c] + AwsEscape(s, encodeSlash)
  {
    assert ([c] + s)[0] == c && ([c] + s)[1..] == s;
  }

  lemma EscapedSpace(s: string, encodeSlash: bool)
    ensures AwsEscape(" " + s, encodeSlash) == "%20" + AwsEscape(s, encodeSlash)
  {
    assert (" " + s)[0] == ' ' && (" " + s)[1..] == s;
    assert EscapeChar(' ', encodeSlash) == ['%', '2', '0'];
  }

  lemma EscapedSlash(s: string)
    ensures AwsEscape("/" + s, true) == "%2F" + AwsEscape(s, true)
    ensures AwsEscape("/" + s, false) == "/" + AwsEscape(s, false)
  {
    assert ("/" + s)[0] == '/' && ("/" + s)[1..] == s;
    assert EscapeChar('/', true) == ['%', '2', 'F'];
  }

  lemma EscapedPath()
    ensures AwsEscape(Rooted("/a b"), false) == "/a%20b"
  {
    EscapedSlash("a b");
    EscapedLetter('a', " b", false);
    EscapedSpace("b", false);
    EscapedLetter('b', "", false);
    assert AwsEscape("", false) == "";
    hide AwsEscape;
    assert "/a b" == ['/'] + "a b" && "a b" == ['a'] + " b" && " b" == [' '] + "b" && "b" == ['b'] + "";
  }

  // --- the query ---

  lemma EscapedParts()
    ensures AwsEscape("a", true) == "a" && AwsEscape("b", true) == "b" && AwsEscape("2", true) == "2"
    ensures AwsEscape("/", true) == "%2F"
  {
    EscapedLetter('a', "", true);
    EscapedLetter('b', "", true);
    EscapedLetter('2', "", true);
    EscapedSlash("");
    assert AwsEscape("", true) == "";
    hide AwsEscape;
    assert ['a'] + "" == "a" && ['b'] + "" == "b" && ['2'] + "" == "2" && ['/'] + "" == "/";
  }

  lemma PartPair(k: string, v: string)
    requires '=' !in k && '%' !in k && '+' !in k && '%' !in v && '+' !in v
    ensures PairOf(k + "=" + v) == Pair(k, v)
  {
    hide KeyOf, ValueOf, Unescape;
    PartMeans(k, v);
    UnescapePlain(k);
    UnescapePlain(v);
  }

  lemma Pairs()
    ensures DecodedPairs("b=2&a=/") == [Pair("b", "2"), Pair("a", "/")]
  {
    hide *;
    QueryText();
    PartPair("b", "2");
    PartPair("a", "/");
    TwoParts("b=2", "a=/");
    MapPair(PairOf, "b=2", "a=/");
    DecodedMeans("b=2&a=/");
  }

  lemma QueryText()
    ensures "b" + "=" + "2" == "b=2" && "a" + "=" + "/" == "a=/"
    ensures "b=2" + "&" + "a=/" == "b=2&a=/" && '&' !in "b=2" && '&' !in "a=/"
    ensures '=' !in "b" && '=' !in "a" && '%' !in "/" && '+' !in "/" && '%' !in "2" && '+' !in "2"
    ensures '%' !in "a" && '+' !in "a" && '%' !in "b" && '+' !in "b"
  {
  }

  lemma MapPair<T, U>(f: T -> U, x: T, y: T)
    ensures MapSeq(f, [x, y]) == [f(x), f(y)]
  {
    hide MapSeq;
    MapOfOne(f, x);
    MapOfOne(f, y);
    MapOfTwo(f, [x], [y]);
    assert [x] + [y] == [x, y];
  }

  lemma SortedTwo(p: Pair, q: Pair)
    requires Less(q.k, p.k)
    ensures Sort([p, q]) == [q, p]
  {
    LessAsymmetric(q.k, p.k);
    LessIrreflexive(p.k);
    assert !AtMost(p, q);
    hide AtMost;
    assert [p, q][1..] == [q] && [q][1..] == [];
    assert Sort([q]) == [q];
    assert Insert(p, []) == [p];
  }

  lemma CanonicalOfExample()
    ensures Canonical("b=2&a=/") == "a=%2F&b=2"
  {
    Pairs();
    EscapedParts();
    hide AwsEscape, DecodedPairs, Sort;
    var p, q := Pair("b", "2"), Pair("a", "%2F");
    MapPair(EscapedPair, Pair("b", "2"), Pair("a", "/"));
    assert Less(q.k, p.k);
    SortedTwo(p, q);
    MapPair(Shown, q, p);
    hide MapSeq;
    assert Shown(q) == "a=%2F" && Shown(p) == "b=2";
    JoinedTwo("a=%2F", "b=2");
    assert "a=%2F" + "&" + "b=2" == "a=%2F&b=2";
  }

  lemma JoinedTwo(a: string, b: string)
    ensures Join([a, b], '&') == a + "&" + b
  {
    assert [a, b][1..] == [b];
  }

  // --- the headers ---

  lemma TrimmedName(h: string)
    requires h != "" && !IsSpace(h[0]) && !IsSpace(h[|h| - 1])
    ensures TrimSpace(h) == h
  {
  }

  lemma Names()
    ensures NameOf("X-B") == "x-b" && NameOf("Host") == "host" && NameOf("Content-Length") == "content-length"
  {
    NameXb();
    NameHost();
    NameLength();
  }

  lemma NameXb()
    ensures NameOf("X-B") == "x-b"
  {
    TrimmedName("X-B");
    hide TrimSpace;
    LowerCapital('B', 'b', "");
    LowerCapital('X', 'x', "-" + ("B" + ""));
    LowerOfTwo("-", "B" + "");
    assert Lower("") == "";
    hide Lower, LowerAscii;
    assert "X-B" == "X" + ("-" + ("B" + "")) && "x-b" == "x" + ("-" + ("b" + ""));
  }

  lemma NameHost()
    ensures NameOf("Host") == "host"
  {
    TrimmedName("Host");
    hide TrimSpace;
    LowerWord('H', 'h', "ost");
    hide Lower, LowerAscii;
    assert "Host" == "H" + "ost" && "host" == "h" + "ost";
  }

  lemma NameLength()
    ensures NameOf("Content-Length") == "content-length"
  {
    LengthText();
    TrimmedName("Content-Length");
    LowerWord('L', 'l', "ength");
    LowerCapital('C', 'c', "ontent-" + ("L" + "ength"));
    LowerOfTwo("ontent-", "L" + "ength");
    hide *;
    NameMeans("Content-Length");
  }

  lemma LengthText()
    ensures "Content-Length" == "C" + ("ontent-" + ("L" + "ength"))
    ensures "content-length" == "c" + ("ontent-" + ("l" + "ength"))
    ensures NoCapital("ength") && NoCapital("ontent-")
    ensures !IsSpace('C') && !IsSpace('h')
  {
  }

  lemma SortedThree(a: string, b: string, c: string)
    requires Less(a, b) && Less(b, c)
    ensures SortStrings([c, b, a]) == [a, b, c]
  {
    LessTransitive(a, b, c);
    LessAsymmetric(a, b);
    LessAsymmetric(a, c);
    LessAsymmetric(b, c);
    LessIrreflexive(a);
    LessIrreflexive(b);
    var x, y, z := Lone(a), Lone(b), Lone(c);
    assert !AtMost(y, x) && !AtMost(z, x) && !AtMost(z, y);
    hide AtMost, Less;
    SortedTwo'(y, x);
    InsertedLast(z, x, y);
    MapThree(Lone, c, b, a);
    MapThree(Key, x, y, z);
    hide MapSeq, Insert;
    assert [z, y, x][1..] == [y, x];
  }

  lemma SortedTwo'(y: Pair, x: Pair)
    requires !AtMost(y, x)
    ensures Sort([y, x]) == [x, y]
  {
    hide AtMost;
    assert [y, x][1..] == [x] && [x][1..] == [];
    assert Sort([x]) == [x];
    assert Insert(y, []) == [y];
  }

  lemma InsertedLast(z: Pair, x: Pair, y: Pair)
    requires !AtMost(z, x) && !AtMost(z, y)
    ensures Insert(z, [x, y]) == [x, y, z]
  {
    hide AtMost;
    assert [x, y][1..] == [y] && [y][1..] == [];
    assert Insert(z, []) == [z];
    assert Insert(z, [y]) == [y, z];
  }

  lemma MapThree<T, U>(f: T -> U, x: T, y: T, z: T)
    ensures MapSeq(f, [x, y, z]) == [f(x), f(y), f(z)]
  {
    hide MapSeq;
    MapPair(f, x, y);
    MapOfOne(f, z);
    MapOfTwo(f, [x, y], [z]);
    assert [x, y] + [z] == [x, y, z];
  }

  lemma NamesInOrder()
    ensures SignedNames(["X-B", "Host", "Content-Length"]) == ["content-length", "host", "x-b"]
  {
    Names();
    assert Less("content-length", "host") && Less("host", "x-b");
    hide Less, NameOf, SortStrings;
    MapThree(NameOf, "X-B", "Host", "Content-Length");
    SortedThree("content-length", "host", "x-b");
  }

  lemma Plain(s: string)
    requires s != "" && !IsSpace(s[0]) && !IsSpace(s[|s| - 1]) && ' ' !in s && '\t' !in s
    ensures TrimAll(s) == s
  {
    hide IsSpace, TrimAll, Words;
    SignedForm("", [s], [""], "");
    assert Spaced([s], [""]) == s + "" + Spaced([], []);
    assert "" + s + "" == s && s + "" + "" == s;
    assert Join([s], ' ') == s;
  }

  lemma TwoValues()
    ensures TrimAll(" 1  2,3 ") == "1 2,3"
  {
    hide TrimAll, Words;
    var ws, gaps: seq<string> := ["1", "2,3"], ["  ", ""];
    SignedForm(" ", ws, gaps, " ");
    assert ws[1..] == ["2,3"] && gaps[1..] == [""] && ws[1..][1..] == [] && gaps[1..][1..] == [];
    assert Spaced(["2,3"], [""]) == "2,3" + "" + "";
    assert Spaced(ws, gaps) == "1" + "  " + "2,3";
    assert " " + ("1" + "  " + "2,3") + " " == " 1  2,3 ";
    assert Join(["2,3"], ' ') == "2,3";
    assert Join(ws, ' ') == "1" + " " + "2,3" == "1 2,3";
  }

  lemma LineOfLength()
    ensures HeaderValue(Example(), "content-length") == Some("5")
    ensures Line(Example(), "content-length") == "content-length:5"
  {
    assert Decimal(5) == "5";
    Plain("5");
    hide TrimAll, Decimal;
    assert "content-length" + ":" + "5" == "content-length:5";
  }

  lemma LineOfHost()
    ensures HeaderValue(Example(), "host") == Some("s3.example") && Line(Example(), "host") == "host:s3.example"
  {
    HostText();
    Plain("s3.example");
    hide TrimAll, Decimal, Join;
  }

  lemma HostText()
    ensures "host" + ":" + "s3.example" == "host:s3.example"
    ensures !IsSpace("s3.example"[0]) && !IsSpace("s3.example"[9]) && |"s3.example"| == 10
    ensures ' ' !in "s3.example" && '\t' !in "s3.example"
  {
  }

  lemma LineOfValues()
    ensures HeaderValue(Example(), "x-b") == Some(" 1  2,3 ") && Line(Example(), "x-b") == "x-b:1 2,3"
  {
    TwoValues();
    hide TrimAll;
    var vals := [" 1  2", "3 "];
    assert vals[1..] == ["3 "];
    assert Join(vals, ',') == " 1  2" + "," + "3 " == " 1  2,3 ";
    assert "x-b" + ":" + "1 2,3" == "x-b:1 2,3";
  }

  // --- the text ---

  lemma JoinedNames()
    ensures Join(["content-length", "host", "x-b"], ';') == "content-length;host;x-b"
  {
    var l := ["content-length", "host", "x-b"];
    assert l[1..] == ["host", "x-b"] && ["host", "x-b"][1..] == ["x-b"];
    assert Join(["x-b"], ';') == "x-b";
    assert Join(["host", "x-b"], ';') == "host;x-b";
    assert "content-length" + ";" + "host;x-b" == "content-length;host;x-b";
  }

  function ExampleLines(): seq<string> {
    ["GET", "/a%20b", "a=%2F&b=2", "content-length:5", "host:s3.example", "x-b:1 2,3", "", "",
     "content-length;host;x-b", "UNSIGNED-PAYLOAD"]
  }

  lemma LinesOfExample()
    ensures SignedText(Example(), ["X-B", "Host", "Content-Length"], "UNSIGNED-PAYLOAD") ==
            Some(Join(ExampleLines(), '\n'))
  {
    var r, names := Example(), ["content-length", "host", "x-b"];
    NamesInOrder();
    EscapedPath();
    CanonicalOfExample();
    LineOfLength();
    LineOfHost();
    LineOfValues();
    JoinedNames();
    SignedTextMeans(r, ["X-B", "Host", "Content-Length"], "UNSIGNED-PAYLOAD");
    hide SignedNames, AwsEscape, Rooted, Canonical, Line, HeaderValue, Join, SignedText, MapSeq;
    assert AllThere(r, names);
    MapThree(LineFor(r), "content-length", "host", "x-b");
    var front, back := ["GET", "/a%20b", "a=%2F&b=2"], ["", "", "content-length;host;x-b", "UNSIGNED-PAYLOAD"];
    var mid := ["content-length:5", "host:s3.example", "x-b:1 2,3"];
    assert ExampleLines() == front + mid + back;
  }

  lemma JoinTen(a: string, b: string, c: string, d: string, e: string, f: string, g: string, h: string, i: string,
                j: string)
    ensures Join([a, b, c, d, e, f, g, h, i, j], '\n') ==
            a + "\n" + b + "\n" + c + "\n" + d + "\n" + e + "\n" + f + "\n" + g + "\n" + h + "\n" + i + "\n" + j
  {
    hide Join;
    JoinSix(a, b, c, d, e, f);
    JoinAppend([a, b, c, d, e, f], g, '\n');
    JoinAppend([a, b, c, d, e, f, g], h, '\n');
    JoinAppend([a, b, c, d, e, f, g, h], i, '\n');
    JoinAppend([a, b, c, d, e, f, g, h, i], j, '\n');
    assert [a, b, c, d, e, f] + [g] == [a, b, c, d, e, f, g];
    assert [a, b, c, d, e, f, g] + [h] == [a, b, c, d, e, f, g, h];
    assert [a, b, c, d, e, f, g, h] + [i] == [a, b, c, d, e, f, g, h, i];
    assert [a, b, c, d, e, f, g, h, i] + [j] == [a, b, c, d, e, f, g, h, i, j];
  }

  /** The whole text; behind the headers it has the line feed that AWS Signature Version 4 does not have. */
  lemma TextOfExample()
    ensures
      SignedText(Request("GET", "/a b", "b=2&a=/", "s3.example", 5, map["x-b" := [" 1  2", "3 "]]),
                 ["X-B", "Host", "Content-Length"], "UNSIGNED-PAYLOAD") ==
      Some("GET" + "\n" + "/a%20b" + "\n" + "a=%2F&b=2" + "\n" +
           "content-length:5" + "\n" + "host:s3.example" + "\n" + "x-b:1 2,3" + "\n" + "" + "\n" + "" + "\n" +
           "content-length;host;x-b" + "\n" + "UNSIGNED-PAYLOAD")
  {
    LinesOfExample();
    hide SignedText, Join;
    JoinTen("GET", "/a%20b", "a=%2F&b=2", "content-length:5", "host:s3.example", "x-b:1 2,3", "", "",
      "content-length;host;x-b", "UNSIGNED-PAYLOAD");
  }
}
