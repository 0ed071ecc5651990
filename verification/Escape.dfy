/**
 * Percent-escaping of byte strings. A byte string is a string whose characters stand for bytes, that
 * is, are below 256.
 */
module Escape {
  import opened Bytes
  import opened Text

  predicate IsBytes(s: string) {
    forall i :: 0 <= i < |s| ==> s[i] as int < 256
  }

  /** The unreserved characters of section 2.3 of RFC 3986. */
  predicate Unreserved(c: char) {
    'A' <= c <= 'Z' || 'a' <= c <= 'z' || '0' <= c <= '9' || c == '-' || c == '_' || c == '.' || c == '~'
  }

  function HexDigit(n: nat): char
    requires n < 16
  {
    if n < 10 then '0' + n as char else 'A' + (n - 10) as char
  }

  predicate IsHex(c: char) {
    '0' <= c <= '9' || 'a' <= c <= 'f' || 'A' <= c <= 'F'
  }

  function HexValue(c: char): (n: nat)
    requires IsHex(c)
    ensures n < 16
  {
    if c <= '9' then c as nat - '0' as nat
    else if c >= 'a' then c as nat - 'a' as nat + 10
    else c as nat - 'A' as nat + 10
  }

  function EscapeChar(c: char, encodeSlash: bool): string {
    if Unreserved(c) || (!encodeSlash && c == '/') then [c]
    else ['%', HexDigit(c as nat / 16 % 16), HexDigit(c as nat % 16)]
  }

  /** awsEscape as a function of the string. */
  function AwsEscape(s: string, encodeSlash: bool): string {
    if s == [] then [] else EscapeChar(s[0], encodeSlash) + AwsEscape(s[1..], encodeSlash)
  }

  /** url.QueryUnescape; None is its error, for a percent sign without two hexadecimal digits behind it. */
  function Unescape(s: string): Option<string> {
    if s == [] then Some([])
    else if s[0] == '%' then
      if |s| < 3 || !IsHex(s[1]) || !IsHex(s[2]) then None
      else
        var rest := Unescape(s[3..]);
        if rest.None? then None else Some([(HexValue(s[1]) * 16 + HexValue(s[2])) as char] + rest.value)
    else
      var rest := Unescape(s[1..]);
      if rest.None? then None else Some([if s[0] == '+' then ' ' else s[0]] + rest.value)
  }

  // --- the alphabet, spelled out ---

  const DIGITS := "0123456789"
  const HEX_UPPER := "0123456789ABCDEF"
  const HEX_LOWER := "0123456789abcdef"

  lemma HexTables()
    ensures |HEX_UPPER| == |HEX_LOWER| == 16
    ensures forall n: nat :: n < 16 ==>
              && HexDigit(n) == HEX_UPPER[n]
              && IsHex(HEX_UPPER[n]) && HexValue(HEX_UPPER[n]) == n
              && IsHex(HEX_LOWER[n]) && HexValue(HEX_LOWER[n]) == n
  {
    forall n: nat | n < 16
      ensures HexDigit(n) == HEX_UPPER[n]
      ensures IsHex(HEX_UPPER[n]) && HexValue(HEX_UPPER[n]) == n
      ensures IsHex(HEX_LOWER[n]) && HexValue(HEX_LOWER[n]) == n
    {
      HexTable(n);
    }
  }

  lemma HexTable(n: nat)
    requires n < 16
    ensures HexDigit(n) == HEX_UPPER[n]
    ensures IsHex(HEX_UPPER[n]) && HexValue(HEX_UPPER[n]) == n
    ensures IsHex(HEX_LOWER[n]) && HexValue(HEX_LOWER[n]) == n
  {
    assert HEX_UPPER[n] as nat == if n < 10 then '0' as nat + n else 'A' as nat + n - 10;
    assert HEX_LOWER[n] as nat == if n < 10 then '0' as nat + n else 'a' as nat + n - 10;
  }

  lemma DigitTable(c: char)
    ensures '0' <= c <= '9' <==> c in DIGITS
  {
    if '0' <= c <= '9' {
      assert DIGITS[c as nat - '0' as nat] == c;
    }
  }

  /** Of all others, no character is a hexadecimal digit. */
  lemma HexIsInTables(c: char)
    requires IsHex(c)
    ensures c in HEX_UPPER || c in HEX_LOWER
  {
    var n := HexValue(c);
    HexTable(n);
    assert c == HEX_UPPER[n] || c == HEX_LOWER[n];
  }

  lemma UnreservedTable(c: char)
    ensures Unreserved(c) <==> c in UPPER_CASE || c in LOWER_CASE || c in DIGITS || c in "-_.~"
  {
    DigitTable(c);
    if 'A' <= c <= 'Z' {
      CapitalIsLetter(c);
    }
    if 'a' <= c <= 'z' {
      SmallIsLetter(c);
    }
    LettersAreLetters(c);
    hide UPPER_CASE, LOWER_CASE, DIGITS;
  }

  lemma SmallAt(n: nat)
    requires n < 26
    ensures |LOWER_CASE| == 26 && LOWER_CASE[n] as nat == 'a' as nat + n
  {
  }

  lemma SmallIsLetter(c: char)
    requires 'a' <= c <= 'z'
    ensures c in LOWER_CASE
  {
    hide LOWER_CASE;
    var n := c as nat - 'a' as nat;
    SmallAt(n);
    assert LOWER_CASE[n] == c;
  }

  lemma LettersAreLetters(c: char)
    ensures c in UPPER_CASE ==> 'A' <= c <= 'Z'
    ensures c in LOWER_CASE ==> 'a' <= c <= 'z'
  {
  }

  /**
   * What escaping does to every character of a byte string: letters, digits and - _ . ~ stay, a slash stays
   * where it is to be left alone, and all else becomes a percent sign and two hexadecimal digits in upper case.
   */
  lemma EscapeMeans(c: char, s: string, encodeSlash: bool)
    requires c as int < 256
    ensures AwsEscape("", encodeSlash) == ""
    ensures |HEX_UPPER| == 16
    ensures AwsEscape([c] + s, encodeSlash) ==
            (if c in UPPER_CASE || c in LOWER_CASE || c in DIGITS || c in "-_.~" || (c == '/' && !encodeSlash) then [c]
             else ['%', HEX_UPPER[c as nat / 16], HEX_UPPER[c as nat % 16]]) + AwsEscape(s, encodeSlash)
  {
    hide UPPER_CASE, LOWER_CASE, DIGITS, HEX_UPPER, EscapeChar;
    EscapedByte(c, encodeSlash);
    assert ([c] + s)[0] == c && ([c] + s)[1..] == s;
  }

  lemma EscapedByte(c: char, encodeSlash: bool)
    requires c as int < 256
    ensures |HEX_UPPER| == 16
    ensures EscapeChar(c, encodeSlash) ==
            if c in UPPER_CASE || c in LOWER_CASE || c in DIGITS || c in "-_.~" || (c == '/' && !encodeSlash) then [c]
            else ['%', HEX_UPPER[c as nat / 16], HEX_UPPER[c as nat % 16]]
  {
    UnreservedTable(c);
    HexTables();
    hide UPPER_CASE, LOWER_CASE, DIGITS, HEX_UPPER, HexDigit, Unreserved;
    assert c as nat / 16 % 16 == c as nat / 16;
  }

  /**
   * What unescaping does: a plus sign is a space, a percent sign and two hexadecimal digits in either case are
   * a byte, a percent sign without them an error, and all else stays.
   */
  lemma UnescapeMeans(c: char, s: string)
    ensures Unescape("") == Some("")
    ensures c != '%' ==>
              Unescape([c] + s) == if Unescape(s).None? then None
                                   else Some([if c == '+' then ' ' else c] + Unescape(s).value)
  {
    assert ([c] + s)[0] == c && ([c] + s)[1..] == s;
  }

  lemma UnescapePercent(h: char, l: char, m: nat, n: nat, s: string)
    requires m < 16 && n < 16
    requires |HEX_UPPER| == |HEX_LOWER| == 16
    requires (h == HEX_UPPER[m] || h == HEX_LOWER[m]) && (l == HEX_UPPER[n] || l == HEX_LOWER[n])
    ensures Unescape(['%', h, l] + s) == if Unescape(s).None? then None
                                         else Some([(16 * m + n) as char] + Unescape(s).value)
  {
    HexTables();
    hide HEX_UPPER, HEX_LOWER, IsHex, HexValue, Unescape;
    assert IsHex(h) && IsHex(l) && HexValue(h) == m && HexValue(l) == n;
    PercentStep(h, l, s);
  }

  lemma PercentStep(h: char, l: char, s: string)
    requires IsHex(h) && IsHex(l)
    ensures Unescape(['%', h, l] + s) == if Unescape(s).None? then None
                                         else Some([(HexValue(h) * 16 + HexValue(l)) as char] + Unescape(s).value)
  {
    hide IsHex, HexValue;
    var e := ['%', h, l] + s;
    assert e[0] == '%' && e[1] == h && e[2] == l && e[3..] == s;
  }

  /** A percent sign that two hexadecimal digits do not follow. */
  lemma UnescapeMalformed(s: string)
    requires |s| < 2 || !(s[0] in HEX_UPPER || s[0] in HEX_LOWER) || !(s[1] in HEX_UPPER || s[1] in HEX_LOWER)
    ensures Unescape("%" + s) == None
  {
    var e := "%" + s;
    if |e| >= 3 && IsHex(e[1]) && IsHex(e[2]) {
      HexIsInTables(e[1]);
      HexIsInTables(e[2]);
    }
  }

  lemma HexRoundTrip(n: nat)
    requires n < 16
    ensures IsHex(HexDigit(n)) && HexValue(HexDigit(n)) == n
  {
  }

  lemma PlainDecodes(c: char, s: string)
    requires c != '%' && c != '+' && Unescape(s).Some?
    ensures Unescape([c] + s) == Some([c] + Unescape(s).value)
  {
    assert ([c] + s)[1..] == s;
  }

  lemma PercentDecodes(h: char, l: char, s: string)
    requires IsHex(h) && IsHex(l) && Unescape(s).Some?
    ensures Unescape(['%', h, l] + s) == Some([(HexValue(h) * 16 + HexValue(l)) as char] + Unescape(s).value)
  {
    hide IsHex, HexValue, Unescape;
    PercentStep(h, l, s);
  }

  lemma EscapedCharDecodes(c: char, encodeSlash: bool, s: string)
    requires c as int < 256 && Unescape(s).Some?
    ensures Unescape(EscapeChar(c, encodeSlash) + s) == Some([c] + Unescape(s).value)
  {
    hide Unescape, HexDigit, HexValue, IsHex;
    if Unreserved(c) || (!encodeSlash && c == '/') {
      PlainDecodes(c, s);
    } else {
      var n := c as nat;
      HexRoundTrip(n / 16);
      HexRoundTrip(n % 16);
      assert n / 16 % 16 == n / 16;
      PercentDecodes(HexDigit(n / 16), HexDigit(n % 16), s);
    }
  }

  /** Unescaping undoes escaping, for every byte string. */
  lemma {:induction false} UnescapeOfEscape(s: string, encodeSlash: bool)
    requires IsBytes(s)
    ensures Unescape(AwsEscape(s, encodeSlash)) == Some(s)
    decreases |s|
  {
    if s != [] {
      UnescapeOfEscape(s[1..], encodeSlash);
      EscapedCharDecodes(s[0], encodeSlash, AwsEscape(s[1..], encodeSlash));
      assert [s[0]] + s[1..] == s;
    }
  }

  /** So escaping loses nothing. */
  lemma EscapeInjective(a: string, b: string, encodeSlash: bool)
    requires IsBytes(a) && IsBytes(b) && AwsEscape(a, encodeSlash) == AwsEscape(b, encodeSlash)
    ensures a == b
  {
    UnescapeOfEscape(a, encodeSlash);
    UnescapeOfEscape(b, encodeSlash);
  }

  /** A character that is neither unreserved nor a percent sign nor a slash never shows in escaped text. */
  lemma {:induction false} EscapedIsFree(s: string, encodeSlash: bool, c: char)
    requires !Unreserved(c) && c != '%' && (c != '/' || encodeSlash)
    ensures c !in AwsEscape(s, encodeSlash)
    decreases |s|
  {
    if s != [] {
      EscapedIsFree(s[1..], encodeSlash, c);
      assert c !in EscapeChar(s[0], encodeSlash);
    }
  }

  lemma {:induction false} UnescapedIsBytes(s: string)
    requires IsBytes(s) && Unescape(s).Some?
    ensures IsBytes(Unescape(s).value)
    decreases |s|
  {
    if s != [] {
      if s[0] == '%' {
        UnescapedIsBytes(s[3..]);
      } else {
        UnescapedIsBytes(s[1..]);
      }
    }
  }

  /** awsEscape's loop. */
  method Escaped(s: string, encodeSlash: bool) returns (b: string)
    ensures b == AwsEscape(s, encodeSlash)
  {
    b := [];
    var i := 0;
    while i < |s|
      invariant 0 <= i <= |s|
      invariant b + AwsEscape(s[i..], encodeSlash) == AwsEscape(s, encodeSlash)
    {
      var c := s[i];
      assert s[i..][0] == c && s[i..][1..] == s[i + 1..];
      Assoc(b, EscapeChar(c, encodeSlash), AwsEscape(s[i + 1..], encodeSlash));
      b := b + EscapeChar(c, encodeSlash);
      i := i + 1;
    }
    assert s[i..] == [];
  }
}
