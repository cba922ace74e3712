/**
 * The per-document metrics of the text-metrics engine.  Every metric is a
 * function of the token list produced by `Preprocess`, except the line and
 * sentence counts, which work on the raw text.  Ratios are exact reals; the
 * rounding to 2 or 4 decimals that the program applies afterwards is left out.
 */
module TextMetrics {
  import opened Chars
  import opened Tokenizer
  import Extremes
  import opened WordFrequency

  // ---------------------------------------------------------------------
  // Word counts and the type-token ratio

  /** `count_words`: the number of tokens. */
  function CountWords(text: string): (n: nat)
    ensures n == 0 <==> text == [] || Preprocess(text) == []
  {
    |Preprocess(text)|
  }

  /** `count_unique_words`: the number of distinct tokens. */
  function CountUniqueWords(text: string): (n: nat)
    ensures n <= CountWords(text)
    ensures n == 0 <==> CountWords(text) == 0
  {
    var ws := Preprocess(text);
    DistinctBounds(ws);
    |Distinct(ws)|
  }

  /** `calculate_ttr`: unique / total, and 0 when there are no words. */
  function Ttr(text: string): (r: real)
    ensures 0.0 <= r <= 1.0
  {
    Share(CountUniqueWords(text), CountWords(text))
  }

  /** The ratio times the word count is the unique-word count. */
  lemma TtrIsRatio(text: string)
    ensures IsShare(Ttr(text), CountUniqueWords(text), CountWords(text))
  {
    assert Ttr(text) == Share(CountUniqueWords(text), CountWords(text));
  }

  /** The ratio is 0 exactly for a text without words. */
  lemma TtrZeroIffNoWords(text: string)
    ensures Ttr(text) == 0.0 <==> CountWords(text) == 0
  {
    var u, t := CountUniqueWords(text), CountWords(text);
    assert Ttr(text) == Share(u, t);
    assert u == 0 <==> t == 0;
  }

  /** `q` is the share `part` makes of `whole`: times the whole, it gives the part. */
  predicate IsShare(q: real, part: int, whole: int) {
    q * whole as real == part as real
  }

  /** `part / whole` for counts, and 0 when the whole is empty. */
  function Share(part: int, whole: int): (q: real)
    requires 0 <= part <= whole
    ensures 0.0 <= q <= 1.0
    ensures IsShare(q, part, whole)
    ensures q == 0.0 <==> part == 0
  {
    if whole == 0 then 0.0
    else
      Ratio(part, whole);
      part as real / whole as real
  }

  /**
   * `get_most_common_words`: no pairs for a text without tokens; otherwise the
   * Counter's `most_common(n)` over the tokens: `n` tokens, or all distinct
   * ones when there are fewer, with their numbers of occurrences, ranked.
   */
  function MostCommonWords(text: string, n: int): (r: seq<(string, nat)>)
    ensures n <= 0 || CountWords(text) == 0 ==> r == []
    ensures n >= 0 ==> |r| == if n < CountUniqueWords(text) then n else CountUniqueWords(text)
    ensures CountedPairs(Preprocess(text), r) && Ranked(Preprocess(text), r)
    ensures n >= CountUniqueWords(text) ==>
      forall w :: w in Preprocess(text) ==> exists k :: 0 <= k < |r| && r[k].0 == w
  {
    var ws := Preprocess(text);
    if ws == [] then []
    else MostCommon(ws, n)
  }

  /** Every most common word is a token that occurs at least once. */
  lemma MostCommonAreTokens(text: string, n: int)
    ensures forall k :: 0 <= k < |MostCommonWords(text, n)| ==>
      IsToken(MostCommonWords(text, n)[k].0) && MostCommonWords(text, n)[k].1 >= 1
  {
    var ws, r := Preprocess(text), MostCommonWords(text, n);
    forall k | 0 <= k < |r| ensures IsToken(r[k].0) && r[k].1 >= 1 {
      assert r[k].0 in ws && r[k].1 == multiset(ws)[r[k].0];
    }
  }

  /** What a ratio of two counts is: a share between 0 and 1 that times the whole gives the part. */
  lemma Ratio(part: nat, whole: nat)
    requires 0 < whole && part <= whole
    ensures 0.0 <= part as real / whole as real <= 1.0
    ensures (part as real / whole as real) * whole as real == part as real
    ensures part as real / whole as real == 0.0 <==> part == 0
  {
    QuotientBetween(part as real, whole as real, 0.0, 1.0);
  }

  /** A quotient by a positive divisor lies between bounds that bracket the dividend. */
  lemma QuotientBetween(t: real, k: real, lo: real, hi: real)
    requires k > 0.0 && lo * k <= t <= hi * k
    ensures (t / k) * k == t
    ensures lo <= t / k <= hi
  {
    var q := t / k;
    Quotient(t, k);
    assert (q - hi) * k == t - hi * k;
    assert (lo - q) * k == lo * k - t;
    PositiveProduct(q - hi, k);
    PositiveProduct(lo - q, k);
  }

  /** The product of two positive reals is positive. */
  lemma PositiveProduct(a: real, b: real)
    ensures a > 0.0 && b > 0.0 ==> a * b > 0.0
  {
  }

  // ---------------------------------------------------------------------
  // Splitting on a separator, and counting non-blank pieces

  /** `s.split(sep)` for a one-character separator. */
  function SplitOn(s: string, sep: char): (pieces: seq<string>)
    ensures |pieces| == 1 + multiset(s)[sep]
    ensures forall k :: 0 <= k < |pieces| ==> sep !in pieces[k]
    decreases |s|
  {
    if s == [] then [[]]
    else
      var rest := SplitOn(s[1..], sep);
      assert s == [s[0]] + s[1..];
      if s[0] == sep then [[]] + rest else [[s[0]] + rest[0]] + rest[1..]
  }

  /** `sep.join(pieces)`. */
  function JoinOn(pieces: seq<string>, sep: char): string {
    if pieces == [] then []
    else if |pieces| == 1 then pieces[0]
    else pieces[0] + [sep] + JoinOn(pieces[1..], sep)
  }

  /** Splitting on a separator and joining with it gives the text back. */
  lemma {:induction false} SplitOnRoundTrip(s: string, sep: char)
    ensures JoinOn(SplitOn(s, sep), sep) == s
    decreases |s|
  {
    if s != [] {
      var rest := SplitOn(s[1..], sep);
      SplitOnRoundTrip(s[1..], sep);
      assert |rest| >= 1;
      if s[0] == sep {
        calc {
          JoinOn(SplitOn(s, sep), sep);
          JoinOn([[]] + rest, sep);
          { JoinOnEmptyFirst(rest, sep); }
          [sep] + s[1..];
          { HeadTail(s); }
          s;
        }
      } else {
        calc {
          JoinOn(SplitOn(s, sep), sep);
          JoinOn([[s[0]] + rest[0]] + rest[1..], sep);
          { JoinOnPrepend(s[0], rest, sep); }
          [s[0]] + s[1..];
          { HeadTail(s); }
          s;
        }
      }
    }
  }

  lemma JoinOnEmptyFirst(pieces: seq<string>, sep: char)
    requires pieces != []
    ensures JoinOn([[]] + pieces, sep) == [sep] + JoinOn(pieces, sep)
  {
    assert ([[]] + pieces)[1..] == pieces;
  }

  lemma JoinOnPrepend(c: char, pieces: seq<string>, sep: char)
    requires pieces != []
    ensures JoinOn([[c] + pieces[0]] + pieces[1..], sep) == [c] + JoinOn(pieces, sep)
  {
    var first := [c] + pieces[0];
    if |pieces| > 1 {
      assert ([first] + pieces[1..])[1..] == pieces[1..];
      assert JoinOn([first] + pieces[1..], sep) == first + [sep] + JoinOn(pieces[1..], sep);
    }
  }

  /** Python's `s.strip()` is empty exactly when `s` is all whitespace. */
  lemma StripEmptyIffAllSpace(s: string)
    ensures Strip(s) == [] <==> AllSpace(s)
  {
    var k := SpaceRun(s);
    var l := LStrip(s);
    assert s == s[..k] + l;
    if AllSpace(s) {
      assert k == |s|;
    }
    if Strip(s) == [] {
      assert TrailingSpaceRun(l) == |l|;
      assert l == [];
      assert s == s[..k];
    }
  }

  /** The number of pieces `p` with `p.strip()` non-empty. */
  function CountNonBlank(pieces: seq<string>): (n: nat)
    ensures n <= |pieces|
  {
    if pieces == [] then 0
    else (if Strip(pieces[0]) != [] then 1 else 0) + CountNonBlank(pieces[1..])
  }

  // ---------------------------------------------------------------------
  // Lines

  /** `count_lines`: the number of `'\n'`-separated lines that are not blank. */
  function CountLines(text: string): (n: nat)
    ensures text == [] ==> n == 0
    ensures n <= 1 + multiset(text)['\n']
  {
    if text == [] then 0 else CountNonBlank(SplitOn(text, '\n'))
  }

  /** There are no lines exactly when the text is all whitespace (or empty). */
  lemma {:induction false} NoLinesIffBlank(text: string)
    ensures CountLines(text) == 0 <==> AllSpace(text)
  {
    if text != [] {
      BlankPiecesIffBlank(text);
    }
  }

  lemma {:induction false} BlankPiecesIffBlank(s: string)
    ensures CountNonBlank(SplitOn(s, '\n')) == 0 <==> AllSpace(s)
    decreases |s|
  {
    if s == [] {
      StripEmptyIffAllSpace([]);
    } else {
      BlankPiecesIffBlank(s[1..]);
      AllSpaceCons(s);
      var rest := SplitOn(s[1..], '\n');
      assert |rest| >= 1;
      if s[0] == '\n' {
        assert SplitOn(s, '\n') == [[]] + rest;
        StripEmptyIffAllSpace([]);
        assert ([[]] + rest)[1..] == rest;
      } else {
        assert SplitOn(s, '\n') == [[s[0]] + rest[0]] + rest[1..];
        FirstPieceBlank(s[0], rest);
      }
    }
  }

  /** A text is all whitespace when its first character and the rest are. */
  lemma AllSpaceCons(s: string)
    requires s != []
    ensures AllSpace(s) <==> IsSpace(s[0]) && AllSpace(s[1..])
  {
    assert forall i :: 1 <= i < |s| ==> s[i] == s[1..][i - 1];
  }

  /** Prepending a character to the first piece: no piece is non-blank exactly when the character is whitespace and no piece was. */
  lemma FirstPieceBlank(c: char, rest: seq<string>)
    requires rest != []
    ensures CountNonBlank([[c] + rest[0]] + rest[1..]) == 0 <==> IsSpace(c) && CountNonBlank(rest) == 0
  {
    var first := [c] + rest[0];
    StripEmptyIffAllSpace(first);
    StripEmptyIffAllSpace(rest[0]);
    AllSpaceCons(first);
    assert first[1..] == rest[0];
    assert ([first] + rest[1..])[1..] == rest[1..];
  }

  // ---------------------------------------------------------------------
  // Sentences

  predicate NoTerminator(s: string) {
    forall i :: 0 <= i < |s| ==> !IsTerminator(s[i])
  }

  /** The text with every sentence terminator removed. */
  function DropTerminators(s: string): (r: string)
    ensures NoTerminator(r)
  {
    if s == [] then []
    else if IsTerminator(s[0]) then DropTerminators(s[1..])
    else [s[0]] + DropTerminators(s[1..])
  }

  function Concat(pieces: seq<string>): string {
    if pieces == [] then [] else pieces[0] + Concat(pieces[1..])
  }

  /** `re.split(r'[.!?]+', s)`: the pieces between maximal runs of terminators. */
  function SplitOnTerminatorRuns(s: string): (pieces: seq<string>)
    ensures |pieces| >= 1
    ensures forall k :: 0 <= k < |pieces| ==> NoTerminator(pieces[k])
    ensures s != [] && !IsTerminator(s[0]) ==> pieces[0] != []
    ensures forall k :: 0 < k < |pieces| - 1 ==> pieces[k] != []
    decreases |s|
  {
    if s == [] then [[]]
    else if IsTerminator(s[0]) then
      if |s| > 1 && IsTerminator(s[1]) then SplitOnTerminatorRuns(s[1..])
      else [[]] + SplitOnTerminatorRuns(s[1..])
    else
      var rest := SplitOnTerminatorRuns(s[1..]);
      [[s[0]] + rest[0]] + rest[1..]
  }

  /** Every character of `s` is a sentence terminator. */
  predicate AllTerminators(s: string) {
    forall i :: 0 <= i < |s| ==> IsTerminator(s[i])
  }

  /**
   * The maximal runs of terminators of `s`, left to right: the separators
   * `re.split(r'[.!?]+', s)` splits at.
   */
  function TerminatorRuns(s: string): (runs: seq<string>)
    ensures |runs| + 1 == |SplitOnTerminatorRuns(s)|
    ensures forall k :: 0 <= k < |runs| ==> runs[k] != [] && AllTerminators(runs[k])
    ensures s != [] && IsTerminator(s[0]) ==> |runs| >= 1 && SplitOnTerminatorRuns(s)[0] == []
    decreases |s|
  {
    if s == [] then []
    else if IsTerminator(s[0]) then
      var rest := TerminatorRuns(s[1..]);
      if |s| > 1 && IsTerminator(s[1]) then
        [[s[0]] + rest[0]] + rest[1..]
      else
        [[s[0]]] + rest
    else
      TerminatorRuns(s[1..])
  }

  /** The pieces with the separators put back between them. */
  function Weave(pieces: seq<string>, runs: seq<string>): string
    requires |pieces| == |runs| + 1
    decreases |runs|
  {
    if runs == [] then pieces[0] else pieces[0] + runs[0] + Weave(pieces[1..], runs[1..])
  }

  /**
   * The split is exact: putting the terminator runs back between the pieces
   * gives the text.  As the pieces hold no terminator, the runs nothing else,
   * and no inner piece is empty, the pieces break at exactly the maximal
   * terminator runs.
   */
  lemma {:induction false} SplitOnTerminatorRunsWeave(s: string)
    ensures Weave(SplitOnTerminatorRuns(s), TerminatorRuns(s)) == s
    decreases |s|
  {
    if s != [] {
      var ps, rs := SplitOnTerminatorRuns(s[1..]), TerminatorRuns(s[1..]);
      SplitOnTerminatorRunsWeave(s[1..]);
      if IsTerminator(s[0]) && |s| > 1 && IsTerminator(s[1]) {
        assert SplitOnTerminatorRuns(s) == ps;
        assert TerminatorRuns(s) == [[s[0]] + rs[0]] + rs[1..];
        WeaveLongerRun(s[0], ps, rs);
      } else if IsTerminator(s[0]) {
        assert SplitOnTerminatorRuns(s) == [[]] + ps;
        assert TerminatorRuns(s) == [[s[0]]] + rs;
        WeaveNewRun(s[0], ps, rs);
      } else {
        assert SplitOnTerminatorRuns(s) == [[s[0]] + ps[0]] + ps[1..];
        assert TerminatorRuns(s) == rs;
        WeaveFirst(s[0], ps, rs);
      }
      assert [s[0]] + s[1..] == s;
    }
  }

  /** A terminator put in front of the first run, after an empty first piece, comes first. */
  lemma WeaveLongerRun(c: char, ps: seq<string>, rs: seq<string>)
    requires |ps| == |rs| + 1 && rs != [] && ps[0] == []
    ensures Weave(ps, [[c] + rs[0]] + rs[1..]) == [c] + Weave(ps, rs)
  {
    var qs := [[c] + rs[0]] + rs[1..];
    var w := Weave(ps[1..], rs[1..]);
    assert qs[0] == [c] + rs[0] && qs[1..] == rs[1..];
    assert ps[0] + qs[0] == qs[0] && ps[0] + rs[0] == rs[0];
    calc {
      Weave(ps, qs);
      ps[0] + qs[0] + w;
      qs[0] + w;
      [c] + rs[0] + w;
      { ConcatAssociative([c], rs[0], w); }
      [c] + (rs[0] + w);
      [c] + (ps[0] + rs[0] + w);
      [c] + Weave(ps, rs);
    }
  }

  /** A new run of one terminator, after an empty first piece, comes first. */
  lemma WeaveNewRun(c: char, ps: seq<string>, rs: seq<string>)
    requires |ps| == |rs| + 1
    ensures Weave([[]] + ps, [[c]] + rs) == [c] + Weave(ps, rs)
  {
    assert ([[]] + ps)[1..] == ps && ([[c]] + rs)[1..] == rs;
  }

  /** A character put in front of the first piece comes first in the weave. */
  lemma WeaveFirst(c: char, ps: seq<string>, rs: seq<string>)
    requires |ps| == |rs| + 1
    ensures Weave([[c] + ps[0]] + ps[1..], rs) == [c] + Weave(ps, rs)
  {
    var qs := [[c] + ps[0]] + ps[1..];
    assert qs[1..] == ps[1..];
    if rs != [] {
      assert Weave(qs, rs) == ([c] + ps[0]) + rs[0] + Weave(ps[1..], rs[1..]);
      assert Weave(ps, rs) == ps[0] + rs[0] + Weave(ps[1..], rs[1..]);
    }
  }

  /** Nothing but the terminators is lost by the split. */
  lemma {:induction false} SplitOnTerminatorRunsKeepsText(s: string)
    ensures Concat(SplitOnTerminatorRuns(s)) == DropTerminators(s)
    decreases |s|
  {
    if s != [] {
      var rest := SplitOnTerminatorRuns(s[1..]);
      SplitOnTerminatorRunsKeepsText(s[1..]);
      if IsTerminator(s[0]) {
        if !(|s| > 1 && IsTerminator(s[1])) {
          assert Concat([[]] + rest) == [] + Concat(rest);
        }
      } else {
        assert rest == [rest[0]] + rest[1..];
        assert Concat(rest) == rest[0] + Concat(rest[1..]);
        assert Concat([[s[0]] + rest[0]] + rest[1..]) == [s[0]] + rest[0] + Concat(rest[1..]);
      }
    }
  }

  /** `calculate_sentence_count`: the number of non-blank pieces between terminator runs. */
  function SentenceCount(text: string): (n: nat)
    ensures text == [] ==> n == 0
  {
    if text == [] then 0 else CountNonBlank(SplitOnTerminatorRuns(text))
  }

  /** A character that is neither whitespace nor a terminator makes some sentence. */
  lemma {:induction false} SomeSentence(s: string, i: nat)
    requires i < |s| && !IsSpace(s[i]) && !IsTerminator(s[i])
    ensures CountNonBlank(SplitOnTerminatorRuns(s)) >= 1
    decreases |s|
  {
    var rest := SplitOnTerminatorRuns(s[1..]);
    if i == 0 {
      var first := [s[0]] + rest[0];
      StripEmptyIffAllSpace(first);
      assert !IsSpace(first[0]);
    } else {
      SomeSentence(s[1..], i - 1);
      if !IsTerminator(s[0]) {
        var first := [s[0]] + rest[0];
        assert rest == [rest[0]] + rest[1..];
        if Strip(rest[0]) != [] {
          StripEmptyIffAllSpace(rest[0]);
          StripEmptyIffAllSpace(first);
          var j :| 0 <= j < |rest[0]| && !IsSpace(rest[0][j]);
          assert first[j + 1] == rest[0][j];
        }
      }
    }
  }

  /** A token comes from a character of the text that lowercases to a word character. */
  lemma TokenHasSource(text: string)
    requires Preprocess(text) != []
    ensures exists i :: 0 <= i < |text| && IsWordChar(Lower(text[i]))
  {
    PreprocessIsSplitOfClean(text);
    var c := Clean(text);
    var ws := SplitWhitespace(c);
    assert ws[0][0] in c;
    var i :| 0 <= i < |c| && c[i] == ws[0][0];
    assert !IsSpace(c[i]);
  }

  /** Text that has tokens has at least one sentence. */
  lemma SentencesOfWords(text: string)
    ensures Preprocess(text) != [] ==> SentenceCount(text) >= 1
  {
    if Preprocess(text) != [] {
      TokenHasSource(text);
      var i :| 0 <= i < |text| && IsWordChar(Lower(text[i]));
      SomeSentence(text, i);
    }
  }

  // ---------------------------------------------------------------------
  // Readability

  /** `analyze_text_readability`: the score only, or the score with its inputs. */
  datatype Readability = Unrated | Rated(score: real, wordsPerSentence: real, sentences: nat)
  {
    /** The `readability_score` entry, present in both shapes. */
    function Score(): real {
      if Unrated? then 0.0 else score
    }

    /**
     * A rating of a text with `words` words: at least one sentence, the
     * words per sentence times the sentences is the word count, and the
     * score is the clamped score of the words per sentence.
     */
    predicate RatedFor(words: nat) {
      Rated? ==>
        && sentences >= 1
        && wordsPerSentence * sentences as real == words as real
        && score == ClampedScore(wordsPerSentence)
    }
  }

  /** `max(0, min(100, 100 - (wps - 10) * 2))`. */
  function ClampedScore(wps: real): (r: real)
    ensures 0.0 <= r <= 100.0
    ensures r == 100.0 <==> wps <= 10.0
    ensures r == 0.0 <==> wps >= 60.0
    ensures 10.0 < wps < 60.0 ==> r == 100.0 - (wps - 10.0) * 2.0
  {
    var raw := 100.0 - (wps - 10.0) * 2.0;
    var capped := if raw < 100.0 then raw else 100.0;
    if capped > 0.0 then capped else 0.0
  }

  /** Longer sentences never score higher. */
  lemma ScoreMonotone(a: real, b: real)
    requires a <= b
    ensures ClampedScore(b) <= ClampedScore(a)
  {
  }

  /**
   * `analyze_text_readability`: unrated for empty text, no tokens or no
   * sentences; otherwise words per sentence and the clamped score.
   */
  function AnalyzeReadability(text: string): (r: Readability)
    ensures r.Rated? ==> r.sentences >= 1 && 0.0 <= r.score <= 100.0
    ensures r.Rated? ==> r.sentences == SentenceCount(text)
    ensures r.Unrated? <==> Preprocess(text) == []
  {
    if text == [] then Unrated
    else
      var words := Preprocess(text);
      SentencesOfWords(text);
      Rate(|words|, SentenceCount(text))
  }

  /** The rating for a word count and a sentence count: none when either is 0. */
  function Rate(words: nat, sentences: nat): (r: Readability)
    ensures r.Rated? <==> words > 0 && sentences > 0
    ensures r.Rated? ==> r.sentences == sentences
    ensures r.RatedFor(words)
  {
    if words == 0 || sentences == 0 then Unrated
    else
      var wps := PerSentence(words, sentences);
      Rated(ClampedScore(wps), wps, sentences)
  }

  /** `words / sentences`: the words per sentence times the sentences is the words. */
  function PerSentence(words: nat, sentences: nat): (q: real)
    requires sentences >= 1
    ensures q * sentences as real == words as real
  {
    Quotient(words as real, sentences as real);
    words as real / sentences as real
  }

  /** A quotient times its positive divisor gives back the dividend. */
  lemma Quotient(t: real, k: real)
    requires k > 0.0
    ensures (t / k) * k == t
  {
  }

  /**
   * The rating of a text is a rating for its word count: the words per
   * sentence times the sentences is the word count, and the score is the
   * clamped score of the words per sentence.
   */
  lemma ReadabilityRatedFor(text: string)
    ensures AnalyzeReadability(text).RatedFor(CountWords(text))
  {
    if text != [] {
      assert AnalyzeReadability(text) == Rate(CountWords(text), SentenceCount(text));
    }
  }

  // ---------------------------------------------------------------------
  // Word lengths

  /** `sum(len(word) for word in words)`. */
  function TotalLength(ws: seq<string>): nat {
    if ws == [] then 0 else |ws[0]| + TotalLength(ws[1..])
  }

  /** Bounded word lengths bound the total. */
  lemma {:induction false} TotalLengthBounds(ws: seq<string>, m: nat)
    requires forall k :: 0 <= k < |ws| ==> 1 <= |ws[k]| <= m
    ensures |ws| <= TotalLength(ws) <= |ws| * m
    decreases |ws|
  {
    if ws != [] {
      TotalLengthBounds(ws[1..], m);
    }
  }

  /** `average_word_length`: total token length over the token count, 0 without tokens. */
  function AverageWordLength(text: string): (r: real)
    ensures Preprocess(text) == [] ==> r == 0.0
  {
    var ws := Preprocess(text);
    if ws == [] then 0.0 else TotalLength(ws) as real / |ws| as real
  }

  /** The token lengths as keys for `max(words, key=len)`. */
  function Lengths(ws: seq<string>): (keys: seq<real>)
    ensures |keys| == |ws|
    ensures forall k :: 0 <= k < |ws| ==> keys[k] == |ws[k]| as real
  {
    seq(|ws|, k requires 0 <= k < |ws| => |ws[k]| as real)
  }

  /** `find_longest_word`: the first token of greatest length, "" without tokens. */
  function LongestWord(text: string): (r: string)
    ensures r == [] <==> Preprocess(text) == []
    ensures Preprocess(text) != [] ==>
      exists i :: 0 <= i < |Preprocess(text)| && Preprocess(text)[i] == r
        && (forall j :: 0 <= j < |Preprocess(text)| ==> |Preprocess(text)[j]| <= |r|)
        && (forall j :: 0 <= j < i ==> |Preprocess(text)[j]| < |r|)
  {
    var ws := Preprocess(text);
    if ws == [] then []
    else
      var i := Extremes.FirstMaxIndex(Lengths(ws));
      assert IsToken(ws[i]);
      ws[i]
  }

  /** The mean token length lies between 1 and the length of the longest token. */
  lemma AverageWordLengthBounds(text: string)
    ensures Preprocess(text) != [] ==> 1.0 <= AverageWordLength(text) <= |LongestWord(text)| as real
  {
    var ws := Preprocess(text);
    if ws == [] {
      return;
    }
    var m := |LongestWord(text)|;
    forall k | 0 <= k < |ws| ensures 1 <= |ws[k]| <= m {
      assert IsToken(ws[k]);
    }
    TotalLengthBounds(ws, m);
    MeanBounds(TotalLength(ws), |ws|, m);
  }

  /** A total between n and n * m, shared by n items, gives a mean between 1 and m. */
  lemma MeanBounds(total: nat, n: nat, m: nat)
    requires 0 < n && n <= total <= n * m
    ensures 1.0 <= total as real / n as real <= m as real
  {
    assert (n * m) as real == m as real * n as real;
    QuotientBetween(total as real, n as real, 1.0, m as real);
  }

  // ---------------------------------------------------------------------
  // Lexical density

  /** The number of tokens longer than 3 characters. */
  function LongCount(ws: seq<string>): (n: nat)
    ensures n <= |ws|
  {
    if ws == [] then 0 else (if |ws[0]| > 3 then 1 else 0) + LongCount(ws[1..])
  }

  /** The share of long tokens in a token list, 0 for no tokens. */
  function DensityOf(ws: seq<string>): (r: real)
    ensures 0.0 <= r <= 1.0
    ensures r * |ws| as real == LongCount(ws) as real
  {
    Share(LongCount(ws), |ws|)
  }

  /** `calculate_lexical_density`: the share of tokens longer than 3 characters. */
  function LexicalDensity(text: string): (r: real)
    ensures 0.0 <= r <= 1.0
    ensures Preprocess(text) == [] ==> r == 0.0
  {
    DensityOf(Preprocess(text))
  }

  /** The density is 1 exactly when every token is long, and 0 exactly when none is. */
  lemma {:induction false} LongCountExtremes(ws: seq<string>)
    ensures LongCount(ws) == |ws| <==> forall k :: 0 <= k < |ws| ==> |ws[k]| > 3
    ensures LongCount(ws) == 0 <==> forall k :: 0 <= k < |ws| ==> |ws[k]| <= 3
    decreases |ws|
  {
    if ws != [] {
      LongCountExtremes(ws[1..]);
      assert forall k :: 1 <= k < |ws| ==> ws[k] == ws[1..][k - 1];
    }
  }

  /**
   * The density is 0 exactly when no token is longer than 3 characters,
   * which includes, but is not limited to, a text without tokens.
   */
  lemma LexicalDensityZero(text: string)
    ensures LexicalDensity(text) == 0.0 <==> forall k :: 0 <= k < |Preprocess(text)| ==> |Preprocess(text)[k]| <= 3
  {
    var ws := Preprocess(text);
    LongCountExtremes(ws);
    assert LexicalDensity(text) == Share(LongCount(ws), |ws|);
  }
}
