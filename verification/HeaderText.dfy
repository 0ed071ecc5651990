/** Header values as they are signed: ends trimmed, inner runs of blanks made one space. */
module HeaderText {
  import opened Bytes
  import opened Text

  /** unicode.IsSpace. */
  predicate IsSpace(c: char) {
    var n := c as int;
    || 0x09 <= n <= 0x0d || n == 0x20 || n == 0x85 || n == 0xA0 || n == 0x1680 || 0x2000 <= n <= 0x200A
    || n == 0x2028 || n == 0x2029 || n == 0x202F || n == 0x205F || n == 0x3000
  }

  /** The white space of Unicode, spelled out. */
  const SPACES: seq<int> := [
    0x09, 0x0A, 0x0B, 0x0C, 0x0D, 0x20, 0x85, 0xA0, 0x1680, 0x2000, 0x2001, 0x2002, 0x2003, 0x2004, 0x2005, 0x2006,
    0x2007, 0x2008, 0x2009, 0x200A, 0x2028, 0x2029, 0x202F, 0x205F, 0x3000]

  lemma SpaceTable(c: char)
    ensures IsSpace(c) <==> c as int in SPACES
  {
    var n := c as int;
    if 0x09 <= n <= 0x0D {
      assert SPACES[n - 0x09] == n;
    } else if n == 0x20 || n == 0x85 || n == 0xA0 || n == 0x1680 {
      assert n == SPACES[5] || n == SPACES[6] || n == SPACES[7] || n == SPACES[8];
    } else if 0x2000 <= n <= 0x200A {
      assert SPACES[n - 0x2000 + 9] == n;
    } else if n == 0x2028 || n == 0x2029 || n == 0x202F || n == 0x205F || n == 0x3000 {
      assert n == SPACES[20] || n == SPACES[21] || n == SPACES[22] || n == SPACES[23] || n == SPACES[24];
    }
  }

  predicate AllSpace(s: string) {
    forall i :: 0 <= i < |s| ==> IsSpace(s[i])
  }

  predicate Blank(c: char) {
    c == ' ' || c == '\t'
  }

  /** strings.TrimSpace. */
  function TrimSpace(s: string): (t: string)
    ensures t != [] ==> !IsSpace(t[0]) && !IsSpace(t[|t| - 1])
    decreases |s|
  {
    if s == [] then []
    else if IsSpace(s[0]) then TrimSpace(s[1..])
    else if IsSpace(s[|s| - 1]) then TrimSpace(s[..|s| - 1])
    else s
  }

  /** Trimming takes the white space off both ends, and nothing else. */
  lemma {:induction false} TrimSpaceMeans(front: string, t: string, back: string)
    requires AllSpace(front) && AllSpace(back)
    requires t != "" ==> !IsSpace(t[0]) && !IsSpace(t[|t| - 1])
    ensures TrimSpace(front + t + back) == t
    decreases |front| + |back|
  {
    hide IsSpace;
    var s := front + t + back;
    if front != "" {
      assert s[0] == front[0] && s[1..] == front[1..] + t + back;
      TrimSpaceMeans(front[1..], t, back);
    } else if t == "" && back != "" {
      assert s[0] == back[0] && s[1..] == "" + t + back[1..];
      TrimSpaceMeans("", t, back[1..]);
    } else if back != "" {
      var n := |back| - 1;
      assert s[|s| - 1] == back[n] && s[..|s| - 1] == "" + t + back[..n] && s[0] == t[0];
      TrimSpaceMeans("", t, back[..n]);
    } else {
      assert s == t;
    }
  }

  /** trimAll's loop on the trimmed value: every run of blanks becomes one space, or none behind a space. */
  function Squeeze(s: string, prevSpace: bool): string {
    if s == [] then []
    else if Blank(s[0]) then (if prevSpace then [] else " ") + Squeeze(s[1..], true)
    else [s[0]] + Squeeze(s[1..], false)
  }

  function TrimAll(s: string): string {
    Squeeze(TrimSpace(s), false)
  }

  lemma SqueezeStep(b: string, t: string, i: nat, prevSpace: bool)
    requires i < |t|
    ensures var added := if !Blank(t[i]) then [t[i]] else if prevSpace then [] else " ";
            b + Squeeze(t[i..], prevSpace) == b + added + Squeeze(t[i + 1..], Blank(t[i]))
  {
    var s := t[i..];
    assert s[0] == t[i] && s[1..] == t[i + 1..];
    var added := if !Blank(t[i]) then [t[i]] else if prevSpace then [] else " ";
    assert Squeeze(s, prevSpace) == added + Squeeze(t[i + 1..], Blank(t[i]));
    hide Squeeze;
    Assoc(b, added, Squeeze(t[i + 1..], Blank(t[i])));
  }

  method TrimmedAll(s: string) returns (b: string)
    ensures b == TrimAll(s)
  {
    var t := TrimSpace(s);
    b := [];
    var prevSpace := false;
    var i := 0;
    assert t[i..] == t;
    while i < |t|
      invariant 0 <= i <= |t|
      invariant b + Squeeze(t[i..], prevSpace) == Squeeze(t, false)
    {
      hide Squeeze;
      var r := t[i];
      SqueezeStep(b, t, i, prevSpace);
      i := i + 1;
      if r == ' ' || r == '\t' {
        if !prevSpace {
          b := b + " ";
          prevSpace := true;
        } else {
          assert b + [] == b;
        }
        continue;
      }
      prevSpace := false;
      b := b + [r];
    }
    assert t[i..] == [];
  }

  // --- words ---

  function WordsFrom(s: string, word: string): seq<string> {
    var done := if word == "" then [] else [word];
    if s == [] then done
    else if Blank(s[0]) then done + WordsFrom(s[1..], "")
    else WordsFrom(s[1..], word + [s[0]])
  }

  /** The words of a value: the maximal runs of non-blanks between its trimmed ends. */
  function Words(s: string): seq<string> {
    WordsFrom(TrimSpace(s), "")
  }

  predicate IsWord(w: string) {
    w != "" && forall i :: 0 <= i < |w| ==> !Blank(w[i])
  }

  lemma {:induction false} WordsAreWords(s: string, word: string)
    requires word == "" || IsWord(word)
    ensures forall i :: 0 <= i < |WordsFrom(s, word)| ==> IsWord(WordsFrom(s, word)[i])
    ensures s != [] && !Blank(s[|s| - 1]) ==> WordsFrom(s, word) != []
    ensures word != "" ==> WordsFrom(s, word) != []
    decreases |s|
  {
    if s != [] {
      if Blank(s[0]) {
        WordsAreWords(s[1..], "");
      } else {
        WordsAreWords(s[1..], word + [s[0]]);
      }
    }
  }

  /** Words with gaps between them. */
  function Spaced(ws: seq<string>, gaps: seq<string>): string
    requires |gaps| == |ws|
  {
    if ws == [] then "" else ws[0] + gaps[0] + Spaced(ws[1..], gaps[1..])
  }

  predicate IsGap(g: string) {
    forall i :: 0 <= i < |g| ==> g[i] == ' ' || g[i] == '\t'
  }

  lemma {:induction false} WordGoesOn(w: string, word: string, s: string)
    requires forall i :: 0 <= i < |w| ==> w[i] != ' ' && w[i] != '\t'
    ensures WordsFrom(w + s, word) == WordsFrom(s, word + w)
    decreases |w|
  {
    if w == "" {
      assert w + s == s && word + w == word;
    } else {
      WordGoesOn(w[1..], word + [w[0]], s);
      assert (w + s)[0] == w[0] && (w + s)[1..] == w[1..] + s;
      assert word + [w[0]] + w[1..] == word + w;
    }
  }

  lemma {:induction false} GapGoesOn(g: string, s: string)
    requires IsGap(g)
    ensures WordsFrom(g + s, "") == WordsFrom(s, "")
    decreases |g|
  {
    if g == "" {
      assert g + s == s;
    } else {
      GapGoesOn(g[1..], s);
      assert (g + s)[0] == g[0] && (g + s)[1..] == g[1..] + s;
    }
  }

  /** Words are what stands between gaps of spaces and tabs; the last gap may be missing. */
  lemma {:induction false} WordsOfSpaced(ws: seq<string>, gaps: seq<string>)
    requires |gaps| == |ws|
    requires forall i :: 0 <= i < |ws| ==> ws[i] != "" && ' ' !in ws[i] && '\t' !in ws[i]
    requires forall i :: 0 <= i < |ws| ==> IsGap(gaps[i]) && (i < |ws| - 1 ==> gaps[i] != "")
    ensures WordsFrom(Spaced(ws, gaps), "") == ws
    decreases |ws|
  {
    if ws != [] {
      hide IsGap;
      var w, g, rest := ws[0], gaps[0], Spaced(ws[1..], gaps[1..]);
      WordsOfSpaced(ws[1..], gaps[1..]);
      assert w + g + rest == w + (g + rest) && "" + w == w;
      WordGoesOn(w, "", g + rest);
      if g != "" {
        assert (g + rest)[0] == g[0] && (g + rest)[1..] == g[1..] + rest;
        GapTail(g);
        GapGoesOn(g[1..], rest);
        assert WordsFrom(g + rest, w) == [w] + WordsFrom(g[1..] + rest, "");
      } else {
        assert ws[1..] == [] && g + rest == "";
      }
      assert ws == [w] + ws[1..];
    }
  }

  lemma GapTail(g: string)
    requires IsGap(g) && g != ""
    ensures IsGap(g[1..]) && Blank(g[0])
  {
  }

  /**
   * What is signed of a header value: with any white space around it, and any gaps of spaces and tabs inside,
   * the words between them with one space each.
   */
  lemma SignedForm(front: string, ws: seq<string>, gaps: seq<string>, back: string)
    requires |gaps| == |ws| && AllSpace(front) && AllSpace(back)
    requires forall i :: 0 <= i < |ws| ==> ws[i] != "" && ' ' !in ws[i] && '\t' !in ws[i]
    requires forall i :: 0 <= i < |ws| ==> IsGap(gaps[i]) && (gaps[i] != "" <==> i < |ws| - 1)
    requires ws != [] ==> !IsSpace(ws[0][0]) && !IsSpace(ws[|ws| - 1][|ws[|ws| - 1]| - 1])
    ensures Words(front + Spaced(ws, gaps) + back) == ws
    ensures TrimAll(front + Spaced(ws, gaps) + back) == Join(ws, ' ')
  {
    hide IsSpace, AllSpace, IsGap, WordsFrom, Join;
    SpacedEnds(ws, gaps);
    TrimSpaceMeans(front, Spaced(ws, gaps), back);
    WordsOfSpaced(ws, gaps);
    TrimAllJoinsWords(front + Spaced(ws, gaps) + back);
  }

  lemma {:induction false} SpacedEnds(ws: seq<string>, gaps: seq<string>)
    requires |gaps| == |ws| && forall i :: 0 <= i < |ws| ==> ws[i] != ""
    requires forall i :: 0 <= i < |ws| ==> (gaps[i] != "" <==> i < |ws| - 1)
    ensures
      var s := Spaced(ws, gaps);
      if ws == [] then s == "" else s != "" && s[0] == ws[0][0] && s[|s| - 1] == ws[|ws| - 1][|ws[|ws| - 1]| - 1]
    decreases |ws|
  {
    if ws != [] {
      SpacedEnds(ws[1..], gaps[1..]);
    }
  }

  lemma JoinCons(w: string, rest: seq<string>)
    requires rest != []
    ensures Join([w] + rest, ' ') == w + " " + Join(rest, ' ')
  {
    assert ([w] + rest)[1..] == rest;
  }

  lemma {:induction false} SqueezeJoinsWords(s: string, word: string)
    requires s != [] ==> !Blank(s[|s| - 1])
    requires word == "" || IsWord(word)
    ensures word == "" ==> Squeeze(s, true) == Join(WordsFrom(s, ""), ' ')
    ensures word != "" ==> word + Squeeze(s, false) == Join(WordsFrom(s, word), ' ')
    decreases |s|
  {
    if s == [] {
    } else if Blank(s[0]) {
      hide IsWord;
      var t := s[1..];
      SqueezeJoinsWords(t, "");
      assert [] + WordsFrom(t, "") == WordsFrom(t, "") && [] + Squeeze(t, true) == Squeeze(t, true);
      if word != "" {
        WordsAreWords(t, "");
        JoinCons(word, WordsFrom(t, ""));
        Assoc(word, " ", Squeeze(t, true));
      }
    } else {
      SqueezeJoinsWords(s[1..], word + [s[0]]);
      Assoc(word, [s[0]], Squeeze(s[1..], false));
    }
  }

  /** The signed form of a header value is its words with one space between them. */
  lemma TrimAllJoinsWords(s: string)
    ensures TrimAll(s) == Join(Words(s), ' ')
  {
    var t := TrimSpace(s);
    if t != [] {
      assert !Blank(t[0]) && !Blank(t[|t| - 1]);
      SqueezeJoinsWords(t, "");
    }
  }

  /** Two values are signed alike exactly when they have the same words. */
  lemma SameTrimmedIffSameWords(a: string, b: string)
    ensures TrimAll(a) == TrimAll(b) <==> Words(a) == Words(b)
  {
    hide WordsFrom, Squeeze, Join, Split;
    TrimAllJoinsWords(a);
    TrimAllJoinsWords(b);
    if TrimAll(a) == TrimAll(b) {
      WordsAreWords(TrimSpace(a), "");
      WordsAreWords(TrimSpace(b), "");
      JoinedWords(Words(a));
      JoinedWords(Words(b));
    }
  }

  lemma JoinedWords(ws: seq<string>)
    requires forall i :: 0 <= i < |ws| ==> IsWord(ws[i])
    ensures Join(ws, ' ') == "" <==> ws == []
    ensures ws != [] ==> Split(Join(ws, ' '), ' ') == ws
  {
    if ws != [] {
      assert IsWord(ws[0]);
      hide Split;
      assert Free(ws, ' ');
      SplitOfJoin(ws, ' ');
    }
  }

  lemma {:induction false} TrimSpaceKeeps(s: string, c: char)
    ensures c in TrimSpace(s) ==> c in s
    decreases |s|
  {
    if s != [] {
      if IsSpace(s[0]) {
        TrimSpaceKeeps(s[1..], c);
      } else if IsSpace(s[|s| - 1]) {
        TrimSpaceKeeps(s[..|s| - 1], c);
      }
    }
  }

  lemma {:induction false} SqueezeKeeps(s: string, prevSpace: bool, c: char)
    requires !Blank(c)
    ensures c in Squeeze(s, prevSpace) ==> c in s
    decreases |s|
  {
    if s != [] {
      if Blank(s[0]) {
        SqueezeKeeps(s[1..], true, c);
      } else {
        SqueezeKeeps(s[1..], false, c);
      }
    }
  }

  /** A value of one line stays on one line. */
  lemma TrimAllKeepsLine(s: string)
    requires '\n' !in s
    ensures '\n' !in TrimAll(s)
  {
    TrimSpaceKeeps(s, '\n');
    SqueezeKeeps(TrimSpace(s), false, '\n');
  }
}
