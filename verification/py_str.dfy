/** Python's whitespace table and the two `str` methods that title
    normalisation is built from: `s.split()` (no separator argument) and
    `" ".join(words)`. */
module PyStr {

  /** `c.isspace()` in Python: the characters that `str.split()` with no
      argument treats as separators. */
  predicate IsSpace(c: char) {
    || c == ' '
    || '\t' <= c <= '\r'
    || '\U{1C}' <= c <= '\U{1F}'
    || c == '\U{85}'
    || c == '\U{A0}'
    || c == '\U{1680}'
    || '\U{2000}' <= c <= '\U{200A}'
    || c == '\U{2028}'
    || c == '\U{2029}'
    || c == '\U{202F}'
    || c == '\U{205F}'
    || c == '\U{3000}'
  }

  /** A string holding no whitespace at all. */
  predicate Spaceless(s: string) {
    forall i :: 0 <= i < |s| ==> !IsSpace(s[i])
  }

  /** What `str.split()` yields: a non-empty run of non-whitespace. */
  predicate IsWord(w: string) {
    |w| > 0 && Spaceless(w)
  }

  predicate AllWords(ws: seq<string>) {
    forall i :: 0 <= i < |ws| ==> IsWord(ws[i])
  }

  /** The string with its leading whitespace removed (`s.lstrip()`). */
  function LStrip(s: string): (r: string)
    ensures |r| <= |s|
    ensures r == [] || !IsSpace(r[0])
    ensures forall i :: 0 <= i < |s| - |r| ==> IsSpace(s[i])
  {
    if s != [] && IsSpace(s[0]) then LStrip(s[1..]) else s
  }

  /** The longest prefix of `s` that holds no whitespace. */
  function WordPrefix(s: string): (w: string)
    ensures |w| <= |s| && w == s[..|w|]
    ensures Spaceless(w)
    ensures |w| == |s| || IsSpace(s[|w|])
  {
    if s == [] || IsSpace(s[0]) then [] else [s[0]] + WordPrefix(s[1..])
  }

  /** `s.split()`: the maximal runs of non-whitespace of `s`, left to right. */
  function Split(s: string): (ws: seq<string>)
    ensures AllWords(ws)
    decreases |s|
  {
    var t := LStrip(s);
    if t == [] then []
    else
      var w := WordPrefix(t);
      assert IsWord(w) by { assert w[0] == t[0]; }
      [w] + Split(t[|w|..])
  }

  /** `" ".join(ws)`: the strings of `ws` with one space between neighbours. */
  function Join(ws: seq<string>): (r: string)
    ensures |ws| > 0 ==> |r| == |Concat(ws)| + |ws| - 1
  {
    if |ws| == 0 then []
    else if |ws| == 1 then ws[0]
    else ws[0] + " " + Join(ws[1..])
  }

  /** The strings of `ws` glued together with nothing between them. */
  function Concat(ws: seq<string>): string {
    if ws == [] then [] else ws[0] + Concat(ws[1..])
  }

  /** The characters of `s` that are not whitespace, in their order. */
  function NonSpace(s: string): string {
    if s == [] then []
    else (if IsSpace(s[0]) then [] else [s[0]]) + NonSpace(s[1..])
  }

  /** Neither the first nor the last character is whitespace. */
  predicate NoEdgeSpace(t: string) {
    t == [] || (!IsSpace(t[0]) && !IsSpace(t[|t| - 1]))
  }

  /** The only whitespace character that occurs is the plain space. */
  predicate OnlyPlainSpaces(t: string) {
    forall i :: 0 <= i < |t| && IsSpace(t[i]) ==> t[i] == ' '
  }

  /** No two whitespace characters stand next to each other. */
  predicate NoDoubleSpace(t: string) {
    forall i :: 0 < i < |t| && IsSpace(t[i]) ==> !IsSpace(t[i - 1])
  }

  /** The normal form of a title: words separated by exactly one plain space,
      nothing before the first word or after the last. */
  predicate SingleSpaced(t: string) {
    NoEdgeSpace(t) && OnlyPlainSpaces(t) && NoDoubleSpace(t)
  }

  // ---------------------------------------------------------------------
  // Lemmas

  lemma {:induction false} NonSpaceAppend(a: string, b: string)
    ensures NonSpace(a + b) == NonSpace(a) + NonSpace(b)
    decreases |a|
  {
    if a == [] {
      assert a + b == b;
    } else {
      assert (a + b)[1..] == a[1..] + b;
      NonSpaceAppend(a[1..], b);
    }
  }

  lemma {:induction false} NonSpaceOfSpaceless(w: string)
    requires Spaceless(w)
    ensures NonSpace(w) == w
    decreases |w|
  {
    if w != [] {
      NonSpaceOfSpaceless(w[1..]);
    }
  }

  lemma {:induction false} NonSpaceOfLStrip(s: string)
    ensures NonSpace(LStrip(s)) == NonSpace(s)
    decreases |s|
  {
    if s != [] && IsSpace(s[0]) {
      NonSpaceOfLStrip(s[1..]);
    }
  }

  /** Leading whitespace does not change what `split()` returns. */
  lemma SplitSkipsSpace(c: char, s: string)
    requires IsSpace(c)
    ensures Split([c] + s) == Split(s)
  {
    assert ([c] + s)[1..] == s;
    assert LStrip([c] + s) == LStrip(s);
  }

  /** A string that starts with a word splits into that word first. */
  lemma WordPrefixOfWordThenSpace(w: string, rest: string)
    requires Spaceless(w)
    requires rest == [] || IsSpace(rest[0])
    ensures WordPrefix(w + rest) == w
    decreases |w|
  {
    if w == [] {
      assert w + rest == rest;
    } else {
      assert (w + rest)[1..] == w[1..] + rest;
      WordPrefixOfWordThenSpace(w[1..], rest);
    }
  }

  /** Splitting keeps every non-whitespace character, in order, and nothing
      else. */
  lemma {:induction false} SplitContent(s: string)
    ensures Concat(Split(s)) == NonSpace(s)
    decreases |s|
  {
    var t := LStrip(s);
    NonSpaceOfLStrip(s);
    if t != [] {
      var w := WordPrefix(t);
      var rest := t[|w|..];
      assert t == w + rest;
      SplitContent(rest);
      NonSpaceAppend(w, rest);
      NonSpaceOfSpaceless(w);
      assert Split(s) == [w] + Split(rest);
      assert ([w] + Split(rest))[1..] == Split(rest);
    }
  }

  /** Joining words keeps every non-whitespace character and adds only
      spaces. */
  lemma {:induction false} JoinContent(ws: seq<string>)
    requires AllWords(ws)
    ensures NonSpace(Join(ws)) == Concat(ws)
    decreases |ws|
  {
    if |ws| == 1 {
      NonSpaceOfSpaceless(ws[0]);
      assert Concat(ws[1..]) == [];
    } else if |ws| > 1 {
      JoinContent(ws[1..]);
      NonSpaceOfSpaceless(ws[0]);
      NonSpaceAppend(ws[0] + " ", Join(ws[1..]));
      NonSpaceAppend(ws[0], " ");
    }
  }

  /** A joined non-empty list of words starts with the first word's first
      character and ends with the last word's last character. */
  lemma {:induction false} JoinEdges(ws: seq<string>)
    requires AllWords(ws) && |ws| > 0
    ensures |Join(ws)| > 0
    ensures Join(ws)[0] == ws[0][0]
    ensures Join(ws)[|Join(ws)| - 1] == ws[|ws| - 1][|ws[|ws| - 1]| - 1]
    decreases |ws|
  {
    if |ws| > 1 {
      JoinEdges(ws[1..]);
    }
  }

  /** `" ".join` of words is in normal form. */
  lemma {:induction false} JoinSingleSpaced(ws: seq<string>)
    requires AllWords(ws)
    ensures SingleSpaced(Join(ws))
    decreases |ws|
  {
    if |ws| > 1 {
      var w := ws[0];
      var x := Join(ws[1..]);
      JoinSingleSpaced(ws[1..]);
      JoinEdges(ws[1..]);
      JoinEdges(ws);
      var t := w + " " + x;
      assert Join(ws) == t;
      forall i | 0 <= i < |t|
        ensures IsSpace(t[i]) ==> t[i] == ' '
      {
        if i > |w| {
          assert t[i] == x[i - |w| - 1];
        } else if i < |w| {
          assert t[i] == w[i];
        }
      }
      forall i | 0 < i < |t|
        ensures IsSpace(t[i]) ==> !IsSpace(t[i - 1])
      {
        if i > |w| + 1 {
          assert t[i] == x[i - |w| - 1];
          assert t[i - 1] == x[i - 1 - |w| - 1];
        } else if i == |w| + 1 {
          assert t[i] == x[0];
        } else if i == |w| {
          assert t[i - 1] == w[i - 1];
        } else {
          assert t[i] == w[i];
        }
      }
    }
  }

  /** A lone word splits into itself. */
  lemma SplitWord(w: string)
    requires IsWord(w)
    ensures Split(w) == [w]
  {
    assert w + [] == w;
    WordPrefixOfWordThenSpace(w, []);
    assert LStrip(w) == w;
    assert w[|w|..] == [];
  }

  /** A word followed by any whitespace character splits into that word and
      then the words of what follows: a word ends at the first whitespace. */
  lemma SplitWordWs(w: string, c: char, x: string)
    requires IsWord(w) && IsSpace(c)
    ensures Split(w + [c] + x) == [w] + Split(x)
  {
    var t := w + [c] + x;
    assert t == w + ([c] + x);
    WordPrefixOfWordThenSpace(w, [c] + x);
    assert LStrip(t) == t;
    assert t[|w|..] == [c] + x;
    SplitSkipsSpace(c, x);
  }

  /** `split()` undoes `" ".join` on a list of words. */
  lemma {:induction false} SplitJoin(ws: seq<string>)
    requires AllWords(ws)
    ensures Split(Join(ws)) == ws
    decreases |ws|
  {
    if |ws| == 1 {
      SplitWord(ws[0]);
    } else if |ws| > 1 {
      SplitWordWs(ws[0], ' ', Join(ws[1..]));
      SplitJoin(ws[1..]);
    }
  }

  /** A string in normal form is exactly its words joined by single spaces:
      `" ".join(t.split()) == t`. */
  lemma {:induction false} JoinSplitOfSingleSpaced(t: string)
    requires SingleSpaced(t)
    ensures Join(Split(t)) == t
    decreases |t|
  {
    if t != [] {
      var w := WordPrefix(t);
      assert w[0] == t[0];
      if |w| == |t| {
        assert w == t;
        SplitWord(w);
      } else {
        var t' := SingleSpacedAfterWord(t, w);
        SplitWordWs(w, ' ', t');
        JoinSplitOfSingleSpaced(t');
        var rest := Split(t');
        assert LStrip(t') == t';
        assert |rest| > 0;
        assert ([w] + rest)[1..] == rest;
      }
    }
  }

  /** In a single-spaced string, a word that is not the whole string is
      followed by exactly one plain space and a single-spaced, non-empty
      remainder that starts with a non-whitespace character. */
  lemma SingleSpacedAfterWord(t: string, w: string) returns (t': string)
    requires SingleSpaced(t)
    requires w == WordPrefix(t) && |w| < |t|
    ensures t == w + " " + t'
    ensures SingleSpaced(t') && t' != [] && !IsSpace(t'[0])
  {
    assert t[|w|] == ' ';
    assert |w| + 1 < |t|;
    t' := t[|w| + 1..];
    assert t == w + " " + t';
    assert t'[0] == t[|w| + 1];
    assert NoEdgeSpace(t');
    forall i | 0 <= i < |t'| && IsSpace(t'[i]) ensures t'[i] == ' ' {
      assert t'[i] == t[i + |w| + 1];
    }
    forall i | 0 < i < |t'| && IsSpace(t'[i]) ensures !IsSpace(t'[i - 1]) {
      assert t'[i] == t[i + |w| + 1];
      assert t'[i - 1] == t[i - 1 + |w| + 1];
    }
  }

  /** Every word holds at least one character. */
  lemma {:induction false} WordCountBound(ws: seq<string>)
    requires AllWords(ws)
    ensures |ws| <= |Concat(ws)|
    decreases |ws|
  {
    if ws != [] {
      WordCountBound(ws[1..]);
    }
  }

  /** `" ".join(s.split())` is never longer than `s`. */
  lemma {:induction false} JoinSplitShrinks(s: string)
    ensures |Join(Split(s))| <= |s|
    decreases |s|
  {
    var t := LStrip(s);
    if t != [] {
      var w := WordPrefix(t);
      var rest := t[|w|..];
      assert Split(s) == [w] + Split(rest);
      if Split(rest) != [] {
        assert rest != [];
        assert IsSpace(rest[0]);
        assert rest == [rest[0]] + rest[1..];
        SplitSkipsSpace(rest[0], rest[1..]);
        JoinSplitShrinks(rest[1..]);
        assert ([w] + Split(rest))[1..] == Split(rest);
      }
    }
  }
}
