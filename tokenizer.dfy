/**
 * The single tokenizer of the text-metrics engine (`preprocess_text`):
 * lowercase, turn every character that is neither a word character nor
 * whitespace into a space, collapse whitespace runs to one space, strip, and
 * split on whitespace.  Each stage is a function of its own, so that the
 * stages can be related to each other: collapsing and stripping never change
 * the final token list, every token is a non-empty run of lowercase word
 * characters, and tokenizing the space-joined tokens gives them back.
 */
module Tokenizer {
  import opened Chars

  /** No character of `s` is whitespace. */
  predicate NoSpace(s: string) {
    forall i :: 0 <= i < |s| ==> !IsSpace(s[i])
  }

  /** Every character of `s` is whitespace. */
  predicate AllSpace(s: string) {
    forall i :: 0 <= i < |s| ==> IsSpace(s[i])
  }

  /** A character the cleaning stages can leave behind: a lowercase word character or a space. */
  predicate IsTokenChar(c: char) {
    IsWordChar(c) && Lower(c) == c
  }

  /** What the tokenizer promises of each token: non-empty, only lowercase word characters. */
  predicate IsToken(w: string) {
    w != [] && forall i :: 0 <= i < |w| ==> IsTokenChar(w[i])
  }

  // ---------------------------------------------------------------------
  // The stages

  /** `text.lower()`, one character at a time. */
  function Lowercase(s: string): (r: string)
    ensures |r| == |s|
    ensures forall i :: 0 <= i < |s| ==> r[i] == Lower(s[i])
  {
    seq(|s|, i requires 0 <= i < |s| => Lower(s[i]))
  }

  /** `re.sub(r'[^\w\s]', ' ', text)`: each character outside `\w` and `\s` becomes a space. */
  function ReplaceNonWord(s: string): (r: string)
    ensures |r| == |s|
    ensures forall i :: 0 <= i < |s| ==> r[i] == if IsWordChar(s[i]) || IsSpace(s[i]) then s[i] else ' '
  {
    seq(|s|, i requires 0 <= i < |s| => if IsWordChar(s[i]) || IsSpace(s[i]) then s[i] else ' ')
  }

  /** Length of the leading whitespace run of `s`. */
  function SpaceRun(s: string): (n: nat)
    ensures n <= |s|
    ensures AllSpace(s[..n])
    ensures n < |s| ==> !IsSpace(s[n])
  {
    if s == [] || !IsSpace(s[0]) then 0 else 1 + SpaceRun(s[1..])
  }

  /** Length of the leading non-whitespace run of `s`. */
  function WordRun(s: string): (n: nat)
    ensures n <= |s|
    ensures NoSpace(s[..n])
    ensures n < |s| ==> IsSpace(s[n])
  {
    if s == [] || IsSpace(s[0]) then 0 else 1 + WordRun(s[1..])
  }

  /** `re.sub(r'\s+', ' ', text)`: every maximal whitespace run becomes one space. */
  function CollapseSpaces(s: string): (r: string)
    ensures |r| <= |s|
    ensures (r == []) == (s == [])
    ensures s != [] ==> (IsSpace(r[0]) <==> IsSpace(s[0]))
    ensures forall i :: 0 <= i < |r| && IsSpace(r[i]) ==> r[i] == ' '
    ensures forall i :: 0 <= i < |r| - 1 ==> !IsSpace(r[i]) || !IsSpace(r[i + 1])
    decreases |s|
  {
    if s == [] then []
    else if IsSpace(s[0]) then
      var m := SpaceRun(s);
      [' '] + CollapseSpaces(s[m..])
    else
      var n := WordRun(s);
      assert !IsSpace(s[..n][0]);
      s[..n] + CollapseSpaces(s[n..])
  }

  /** `lstrip()`: drop the leading whitespace. */
  function LStrip(s: string): (r: string)
    ensures r == [] || !IsSpace(r[0])
  {
    s[SpaceRun(s)..]
  }

  /** Length of the trailing whitespace run of `s`. */
  function TrailingSpaceRun(s: string): (n: nat)
    ensures n <= |s|
    ensures forall i :: |s| - n <= i < |s| ==> IsSpace(s[i])
    ensures n < |s| ==> !IsSpace(s[|s| - n - 1])
  {
    if s == [] || !IsSpace(s[|s| - 1]) then 0
    else 1 + TrailingSpaceRun(s[..|s| - 1])
  }

  /** `rstrip()`: drop the trailing whitespace. */
  function RStrip(s: string): (r: string)
    ensures r == [] || !IsSpace(r[|r| - 1])
  {
    s[..|s| - TrailingSpaceRun(s)]
  }

  /** `strip()`: drop leading and trailing whitespace. */
  function Strip(s: string): (r: string)
    ensures r == [] || (!IsSpace(r[0]) && !IsSpace(r[|r| - 1]))
  {
    RStrip(LStrip(s))
  }

  /** `split()` with no separator: the maximal runs of non-whitespace, in order. */
  function SplitWhitespace(s: string): (ws: seq<string>)
    ensures forall k :: 0 <= k < |ws| ==> ws[k] != [] && NoSpace(ws[k])
    ensures forall k, i :: 0 <= k < |ws| && 0 <= i < |ws[k]| ==> ws[k][i] in s
    decreases |s|
  {
    if s == [] then []
    else if IsSpace(s[0]) then SplitWhitespace(s[1..])
    else
      var n := WordRun(s);
      [s[..n]] + SplitWhitespace(s[n..])
  }

  /** `" ".join(ws)`. */
  function Join(ws: seq<string>): (r: string)
    ensures ws == [] ==> r == []
    ensures ws != [] ==> |r| >= |ws[0]|
    ensures forall i :: 0 <= i < |r| ==> r[i] == ' ' || exists k :: 0 <= k < |ws| && r[i] in ws[k]
  {
    if ws == [] then []
    else if |ws| == 1 then ws[0]
    else
      var rest := Join(ws[1..]);
      var r := ws[0] + [' '] + rest;
      assert forall i :: |ws[0]| < i < |r| ==> r[i] == rest[i - |ws[0]| - 1];
      r
  }

  /** The characters the cleaning stages produce before any whitespace handling. */
  function Clean(text: string): (r: string)
    ensures |r| == |text|
    ensures forall i :: 0 <= i < |r| ==> IsSpace(r[i]) || IsTokenChar(r[i])
  {
    var r := ReplaceNonWord(Lowercase(text));
    assert forall i :: 0 <= i < |r| && IsWordChar(r[i]) ==> r[i] == Lower(text[i]) by {
      forall i | 0 <= i < |r| && IsWordChar(r[i]) ensures r[i] == Lower(text[i]) { }
    }
    forall i | 0 <= i < |r| && IsWordChar(r[i]) ensures Lower(r[i]) == r[i] {
      LowerIdempotent(text[i]);
    }
    r
  }

  /** `preprocess_text`: the token list every metric is computed from. */
  function Preprocess(text: string): (ws: seq<string>)
    ensures text == [] ==> ws == []
    ensures forall k :: 0 <= k < |ws| ==> IsToken(ws[k])
  {
    if text == [] then []
    else
      var ws := SplitWhitespace(Strip(CollapseSpaces(ReplaceNonWord(Lowercase(text)))));
      PreprocessIsSplitOfClean(text);
      TokensOfClean(text);
      ws
  }

  // ---------------------------------------------------------------------
  // How the stages relate

  /** Leading whitespace never produces a token. */
  lemma {:induction false} SplitAfterSpaces(p: string, t: string)
    requires AllSpace(p)
    ensures SplitWhitespace(p + t) == SplitWhitespace(t)
    decreases |p|
  {
    if p == [] {
      assert p + t == t;
    } else {
      assert (p + t)[0] == p[0];
      assert (p + t)[1..] == p[1..] + t;
      SplitAfterSpaces(p[1..], t);
    }
  }

  /** Trailing whitespace never produces a token. */
  lemma {:induction false} SplitBeforeSpaces(t: string, p: string)
    requires AllSpace(p)
    ensures SplitWhitespace(t + p) == SplitWhitespace(t)
    decreases |t|
  {
    if t == [] {
      assert t + p == p + [];
      SplitAfterSpaces(p, []);
    } else if IsSpace(t[0]) {
      assert (t + p)[1..] == t[1..] + p;
      SplitBeforeSpaces(t[1..], p);
    } else {
      var n := WordRun(t);
      WordRunOfConcat(t, p);
      assert (t + p)[..n] == t[..n];
      assert (t + p)[n..] == t[n..] + p;
      SplitBeforeSpaces(t[n..], p);
    }
  }

  /** Appending whitespace (or nothing) does not lengthen the leading word. */
  lemma WordRunOfConcat(t: string, p: string)
    requires AllSpace(p)
    requires t != [] && !IsSpace(t[0])
    ensures WordRun(t + p) == WordRun(t)
    decreases |t|
  {
    if |t| > 1 && !IsSpace(t[1]) {
      assert (t + p)[1..] == t[1..] + p;
      WordRunOfConcat(t[1..], p);
    } else if |t| == 1 {
      assert (t + p)[1..] == p;
    } else {
      assert (t + p)[1..] == t[1..] + p;
    }
  }

  /** A word followed by whitespace (or nothing) splits into that word and the rest. */
  lemma SplitWordThen(w: string, t: string)
    requires w != [] && NoSpace(w)
    requires t == [] || IsSpace(t[0])
    ensures SplitWhitespace(w + t) == [w] + SplitWhitespace(t)
  {
    WordRunOfWord(w, t);
    assert (w + t)[..|w|] == w;
    assert (w + t)[|w|..] == t;
  }

  lemma {:induction false} WordRunOfWord(w: string, t: string)
    requires NoSpace(w)
    requires t == [] || IsSpace(t[0])
    ensures WordRun(w + t) == |w|
    decreases |w|
  {
    if w == [] {
      assert w + t == t;
    } else {
      assert (w + t)[1..] == w[1..] + t;
      WordRunOfWord(w[1..], t);
    }
  }

  /** Collapsing whitespace runs never changes the tokens. */
  lemma {:induction false} CollapseKeepsTokens(s: string)
    ensures SplitWhitespace(CollapseSpaces(s)) == SplitWhitespace(s)
    decreases |s|
  {
    if s == [] {
    } else if IsSpace(s[0]) {
      var m := SpaceRun(s);
      CollapseKeepsTokens(s[m..]);
      assert s == s[..m] + s[m..];
      SplitAfterSpaces(s[..m], s[m..]);
      assert ([' '] + CollapseSpaces(s[m..]))[1..] == CollapseSpaces(s[m..]);
    } else {
      var n := WordRun(s);
      CollapseKeepsTokens(s[n..]);
      SplitWordThen(s[..n], CollapseSpaces(s[n..]));
    }
  }

  /** Stripping never changes the tokens. */
  lemma StripKeepsTokens(s: string)
    ensures SplitWhitespace(Strip(s)) == SplitWhitespace(s)
  {
    LStripKeepsTokens(s);
    RStripKeepsTokens(LStrip(s));
  }

  lemma LStripKeepsTokens(s: string)
    ensures SplitWhitespace(LStrip(s)) == SplitWhitespace(s)
  {
    var k := SpaceRun(s);
    assert s == s[..k] + s[k..];
    SplitAfterSpaces(s[..k], s[k..]);
  }

  lemma RStripKeepsTokens(s: string)
    ensures SplitWhitespace(RStrip(s)) == SplitWhitespace(s)
  {
    var j := |s| - TrailingSpaceRun(s);
    assert s == s[..j] + s[j..];
    assert AllSpace(s[j..]);
    SplitBeforeSpaces(s[..j], s[j..]);
  }

  /** The tokens are the whitespace-separated runs of the cleaned text. */
  lemma PreprocessIsSplitOfClean(text: string)
    ensures SplitWhitespace(Strip(CollapseSpaces(ReplaceNonWord(Lowercase(text))))) == SplitWhitespace(Clean(text))
  {
    var c := ReplaceNonWord(Lowercase(text));
    StripKeepsTokens(CollapseSpaces(c));
    CollapseKeepsTokens(c);
  }

  /** Every token of the cleaned text is made of lowercase word characters. */
  lemma TokensOfClean(text: string)
    ensures forall k :: 0 <= k < |SplitWhitespace(Clean(text))| ==> IsToken(SplitWhitespace(Clean(text))[k])
  {
    var c := Clean(text);
    var ws := SplitWhitespace(c);
    forall k, i | 0 <= k < |ws| && 0 <= i < |ws[k]| ensures IsTokenChar(ws[k][i]) {
      assert ws[k][i] in c;
      assert !IsSpace(ws[k][i]);
    }
  }

  /** Splitting words joined by single spaces gives the words back. */
  lemma {:induction false} SplitJoin(ws: seq<string>)
    requires forall k :: 0 <= k < |ws| ==> ws[k] != [] && NoSpace(ws[k])
    ensures SplitWhitespace(Join(ws)) == ws
  {
    if ws == [] {
    } else if |ws| == 1 {
      SplitWordThen(ws[0], []);
      assert ws[0] + [] == ws[0];
    } else {
      var tail := ws[1..];
      assert forall k :: 0 <= k < |tail| ==> tail[k] == ws[k + 1];
      SplitJoin(tail);
      var rest := [' '] + Join(tail);
      SplitWordThen(ws[0], rest);
      SplitAfterSpaces([' '], Join(tail));
      calc {
        SplitWhitespace(Join(ws));
        { assert Join(ws) == ws[0] + [' '] + Join(tail);
          ConcatAssociative(ws[0], [' '], Join(tail)); }
        SplitWhitespace(ws[0] + rest);
        [ws[0]] + SplitWhitespace(rest);
        [ws[0]] + tail;
        { HeadTail(ws); }
        ws;
      }
    }
  }

  lemma ConcatAssociative<T>(a: seq<T>, b: seq<T>, c: seq<T>)
    ensures a + b + c == a + (b + c)
  {
  }

  /** A non-empty list is its head followed by its tail. */
  lemma HeadTail<T>(s: seq<T>)
    requires s != []
    ensures [s[0]] + s[1..] == s
  {
  }

  /** Cleaning leaves text made of tokens and single spaces untouched. */
  lemma CleanFixesJoin(ws: seq<string>)
    requires forall k :: 0 <= k < |ws| ==> IsToken(ws[k])
    ensures Clean(Join(ws)) == Join(ws)
  {
    var j := Join(ws);
    forall i | 0 <= i < |j| ensures Clean(j)[i] == j[i] {
      if j[i] != ' ' {
        var k :| 0 <= k < |ws| && j[i] in ws[k];
        var p :| 0 <= p < |ws[k]| && ws[k][p] == j[i];
        assert IsTokenChar(ws[k][p]);
      }
    }
  }

  /**
   * The tokenizer is idempotent: tokenizing the tokens joined by single
   * spaces gives the same token list.
   */
  lemma PreprocessIdempotent(text: string)
    ensures Preprocess(Join(Preprocess(text))) == Preprocess(text)
  {
    var ws := Preprocess(text);
    if ws != [] {
      CleanFixesJoin(ws);
      PreprocessIsSplitOfClean(Join(ws));
      forall k | 0 <= k < |ws| ensures ws[k] != [] && NoSpace(ws[k]) {
        assert IsToken(ws[k]);
      }
      SplitJoin(ws);
    }
  }

  /** A character of the text that is a word character once lowercased lies inside some token. */
  lemma {:induction false} WordCharGivesToken(text: string, i: nat)
    requires i < |text| && IsWordChar(Lower(text[i]))
    ensures Preprocess(text) != []
  {
    PreprocessIsSplitOfClean(text);
    var c := Clean(text);
    assert !IsSpace(c[i]);
    NonSpaceGivesToken(c, i);
  }

  lemma {:induction false} NonSpaceGivesToken(s: string, i: nat)
    requires i < |s| && !IsSpace(s[i])
    ensures SplitWhitespace(s) != []
    decreases |s|
  {
    if IsSpace(s[0]) {
      NonSpaceGivesToken(s[1..], i - 1);
    }
  }
}
