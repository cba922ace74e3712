/**
 * The corpus summary that `generate_report` computes before formatting it:
 * totals and unweighted means over the records, the first record with the
 * most and the fewest words and with the highest and lowest type-token
 * ratio (Python's `max`/`min` with a key), the range of text sizes, and the
 * qualitative labels.  A missing column reads as 0 (`r.get(key, 0)`).
 */
module CorpusReport {
  import opened Records
  import opened TextMetrics
  import Extremes

  // ---------------------------------------------------------------------
  // Columns

  /**
   * `r.get(key, 0)`.  Only numeric columns are ever read (the summary
   * requires it, as Python's `sum` and comparisons do), so the 0 for a
   * non-numeric value is never used.
   */
  function Get(r: Fields, key: string): real {
    if key in r && IsNumeric(r[key]) then AsReal(r[key]) else 0.0
  }

  /** Every record holds a number in column `key`, or nothing. */
  predicate NumericColumn(rs: seq<Fields>, key: string) {
    forall k :: 0 <= k < |rs| ==> (key in rs[k] ==> IsNumeric(rs[k][key]))
  }

  /** The columns the summary reads. */
  predicate Summarizable(rs: seq<Fields>) {
    && NumericColumn(rs, "word_count") && NumericColumn(rs, "unique_words")
    && NumericColumn(rs, "ttr") && NumericColumn(rs, "avg_word_length")
  }

  /** `[r.get(key, 0) for r in results]`. */
  function Column(rs: seq<Fields>, key: string): (xs: seq<real>)
    ensures |xs| == |rs|
    ensures forall k :: 0 <= k < |rs| ==> xs[k] == Get(rs[k], key)
  {
    seq(|rs|, k requires 0 <= k < |rs| => Get(rs[k], key))
  }

  /** `sum(xs)`. */
  function Sum(xs: seq<real>): real {
    if xs == [] then 0.0 else xs[0] + Sum(xs[1..])
  }

  /** `sum(xs) / len(xs)`. */
  function Mean(xs: seq<real>): (m: real)
    requires |xs| > 0
    ensures m * |xs| as real == Sum(xs)
  {
    var s, n := Sum(xs), |xs| as real;
    assert (s / n) * n == s;
    s / n
  }

  // ---------------------------------------------------------------------
  // Labels

  /** The diversity verdict of the conclusions section. */
  datatype Diversity = HighDiversity | MediumDiversity | LowDiversity

  /** The word-length verdict of the conclusions section. */
  datatype WordLength = LongWords | MediumWords | ShortWords

  /** The readability level printed next to a record's score. */
  datatype Level = Hard | Moderate | Easy

  /** Above 0.7 high, above 0.5 medium, otherwise low. */
  function DiversityLabel(avgTtr: real): (d: Diversity)
    ensures d == HighDiversity <==> avgTtr > 0.7
    ensures d == MediumDiversity <==> 0.5 < avgTtr <= 0.7
    ensures d == LowDiversity <==> avgTtr <= 0.5
  {
    if avgTtr > 0.7 then HighDiversity
    else if avgTtr > 0.5 then MediumDiversity
    else LowDiversity
  }

  /** Above 6 long, above 4 medium, otherwise short. */
  function WordLengthLabel(avgLength: real): (w: WordLength)
    ensures w == LongWords <==> avgLength > 6.0
    ensures w == MediumWords <==> 4.0 < avgLength <= 6.0
    ensures w == ShortWords <==> avgLength <= 4.0
  {
    if avgLength > 6.0 then LongWords
    else if avgLength > 4.0 then MediumWords
    else ShortWords
  }

  /** Below 50 hard, below 70 moderate, otherwise easy. */
  function LevelOf(score: real): (l: Level)
    ensures l == Hard <==> score < 50.0
    ensures l == Moderate <==> 50.0 <= score < 70.0
    ensures l == Easy <==> score >= 70.0
  {
    if score < 50.0 then Hard
    else if score < 70.0 then Moderate
    else Easy
  }

  function DiversityRank(d: Diversity): nat {
    match d
    case LowDiversity => 0
    case MediumDiversity => 1
    case HighDiversity => 2
  }

  function WordLengthRank(w: WordLength): nat {
    match w
    case ShortWords => 0
    case MediumWords => 1
    case LongWords => 2
  }

  function LevelRank(l: Level): nat {
    match l
    case Hard => 0
    case Moderate => 1
    case Easy => 2
  }

  /** A higher mean ratio never gets a lower diversity verdict. */
  lemma DiversityMonotone(a: real, b: real)
    requires a <= b
    ensures DiversityRank(DiversityLabel(a)) <= DiversityRank(DiversityLabel(b))
  {
  }

  /** Longer words on average never get a shorter verdict. */
  lemma WordLengthMonotone(a: real, b: real)
    requires a <= b
    ensures WordLengthRank(WordLengthLabel(a)) <= WordLengthRank(WordLengthLabel(b))
  {
  }

  /** A higher score never gets a harder level. */
  lemma LevelMonotone(a: real, b: real)
    requires a <= b
    ensures LevelRank(LevelOf(a)) <= LevelRank(LevelOf(b))
  {
  }

  /**
   * In terms of sentence length: a text is hard exactly when it averages
   * more than 35 words per sentence, and easy exactly when it averages at
   * most 25.
   */
  lemma LevelOfSentenceLength(wps: real)
    ensures LevelOf(ClampedScore(wps)) == Hard <==> wps > 35.0
    ensures LevelOf(ClampedScore(wps)) == Easy <==> wps <= 25.0
  {
  }

  /** The level shown for a record: only when it has a `readability_score`. */
  function RecordLevel(r: Fields): (l: Option<Level>)
    requires "readability_score" in r ==> IsNumeric(r["readability_score"])
    ensures l.Some? <==> "readability_score" in r
    ensures l.Some? ==> l.value == LevelOf(Get(r, "readability_score"))
  {
    if "readability_score" in r then Some(LevelOf(Get(r, "readability_score"))) else None
  }

  datatype Option<T> = None | Some(value: T)

  /** An analysed document always shows a level: the level of its readability score. */
  lemma AnalyzedLevel(filename: string, content: string)
    ensures RecordLevel(AnalyzeText(filename, content)) == Some(LevelOf(AnalyzeReadability(content).Score()))
  {
    var r := AnalyzeText(filename, content);
    assert "readability_score" in r && r["readability_score"] == Real(AnalyzeReadability(content).Score());
  }

  // ---------------------------------------------------------------------
  // The summary

  datatype Summary = Summary(
    texts: nat,
    totalWords: real, totalUniqueWords: real,
    avgTtr: real, avgWordLength: real,
    mostWords: nat, fewestWords: nat, highestTtr: nat, lowestTtr: nat,
    diversity: Diversity, wordLength: WordLength,
    smallestText: real, largestText: real)

  /** `generate_report`: the "no data" message for no records, the summary otherwise. */
  datatype Report = NoData | Report(summary: Summary)

  /** The first record whose `key` column is largest. */
  function FirstMax(rs: seq<Fields>, key: string): (i: nat)
    requires |rs| > 0
    ensures i < |rs|
    ensures forall j :: 0 <= j < |rs| ==> Get(rs[j], key) <= Get(rs[i], key)
    ensures forall j :: 0 <= j < i ==> Get(rs[j], key) < Get(rs[i], key)
  {
    Extremes.FirstMaxIndex(Column(rs, key))
  }

  /** The first record whose `key` column is smallest. */
  function FirstMin(rs: seq<Fields>, key: string): (i: nat)
    requires |rs| > 0
    ensures i < |rs|
    ensures forall j :: 0 <= j < |rs| ==> Get(rs[i], key) <= Get(rs[j], key)
    ensures forall j :: 0 <= j < i ==> Get(rs[i], key) < Get(rs[j], key)
  {
    Extremes.FirstMinIndex(Column(rs, key))
  }

  /**
   * The summary of a non-empty corpus.  The totals are the column sums, the
   * averages are the unweighted means of the columns, the four extreme
   * records are the first with the extreme value, the size range runs
   * between the word counts of the fewest- and the most-words records, and
   * the verdicts are the labels of the means.
   */
  function Summarize(rs: seq<Fields>): (s: Summary)
    requires |rs| > 0 && Summarizable(rs)
    ensures s.texts == |rs|
    ensures s.totalWords == Sum(Column(rs, "word_count"))
    ensures s.totalUniqueWords == Sum(Column(rs, "unique_words"))
    ensures s.avgTtr == Mean(Column(rs, "ttr"))
    ensures s.avgWordLength == Mean(Column(rs, "avg_word_length"))
    ensures s.mostWords == FirstMax(rs, "word_count") && s.fewestWords == FirstMin(rs, "word_count")
    ensures s.highestTtr == FirstMax(rs, "ttr") && s.lowestTtr == FirstMin(rs, "ttr")
    ensures s.smallestText == Get(rs[s.fewestWords], "word_count")
    ensures s.largestText == Get(rs[s.mostWords], "word_count")
    ensures s.diversity == DiversityLabel(s.avgTtr) && s.wordLength == WordLengthLabel(s.avgWordLength)
  {
    var avgTtr := Mean(Column(rs, "ttr"));
    var avgLength := Mean(Column(rs, "avg_word_length"));
    var sizes := Column(rs, "word_count");
    MaxIsFirstMax(sizes);
    MinIsFirstMin(sizes);
    Summary(
      |rs|,
      Sum(sizes), Sum(Column(rs, "unique_words")),
      avgTtr, avgLength,
      FirstMax(rs, "word_count"), FirstMin(rs, "word_count"), FirstMax(rs, "ttr"), FirstMin(rs, "ttr"),
      DiversityLabel(avgTtr), WordLengthLabel(avgLength),
      Extremes.MinOf(sizes), Extremes.MaxOf(sizes))
  }

  /** `generate_report` without the formatting. */
  function GenerateReport(rs: seq<Fields>): (rep: Report)
    requires Summarizable(rs)
    ensures rep.NoData? <==> rs == []
    ensures rep.Report? ==> rep.summary == Summarize(rs)
  {
    if rs == [] then NoData else Report(Summarize(rs))
  }

  /** `max(values)` is the value at the first maximal position. */
  lemma MaxIsFirstMax(xs: seq<real>)
    requires |xs| > 0
    ensures Extremes.MaxOf(xs) == xs[Extremes.FirstMaxIndex(xs)]
  {
    var m := Extremes.MaxOf(xs);
    var i := Extremes.FirstMaxIndex(xs);
    var j :| 0 <= j < |xs| && xs[j] == m;
    assert xs[j] <= xs[i] && xs[i] <= m;
  }

  /** `min(values)` is the value at the first minimal position. */
  lemma MinIsFirstMin(xs: seq<real>)
    requires |xs| > 0
    ensures Extremes.MinOf(xs) == xs[Extremes.FirstMinIndex(xs)]
  {
    var m := Extremes.MinOf(xs);
    var i := Extremes.FirstMinIndex(xs);
    var j :| 0 <= j < |xs| && xs[j] == m;
    assert xs[i] <= xs[j] && m <= xs[i];
  }

  // ---------------------------------------------------------------------
  // Properties of the summary

  /** Every item between `lo` and `hi` puts the sum between n * lo and n * hi. */
  lemma {:induction false} SumBounds(xs: seq<real>, lo: real, hi: real)
    requires forall k :: 0 <= k < |xs| ==> lo <= xs[k] <= hi
    ensures |xs| as real * lo <= Sum(xs) <= |xs| as real * hi
    decreases |xs|
  {
    if xs != [] {
      SumBounds(xs[1..], lo, hi);
    }
  }

  /** Every item between `lo` and `hi` puts the mean between them. */
  lemma MeanBetween(xs: seq<real>, lo: real, hi: real)
    requires |xs| > 0
    requires forall k :: 0 <= k < |xs| ==> lo <= xs[k] <= hi
    ensures lo <= Mean(xs) <= hi
  {
    SumBounds(xs, lo, hi);
    var n := |xs| as real;
    assert lo * n <= Sum(xs) <= hi * n;
    QuotientBetween(Sum(xs), n, lo, hi);
  }

  /** Item-wise smaller sequences have smaller sums. */
  lemma {:induction false} SumMonotone(xs: seq<real>, ys: seq<real>)
    requires |xs| == |ys|
    requires forall k :: 0 <= k < |xs| ==> xs[k] <= ys[k]
    ensures Sum(xs) <= Sum(ys)
    decreases |xs|
  {
    if xs != [] {
      SumMonotone(xs[1..], ys[1..]);
    }
  }

  /**
   * Over records produced by `analyze_single_text` the mean ratio lies in
   * [0, 1], the totals are not negative, and there are no more distinct
   * words in total than words.
   */
  lemma SummaryBounds(rs: seq<Fields>)
    requires |rs| > 0
    requires forall k :: 0 <= k < |rs| ==> MetricRecord(rs[k])
    ensures Summarizable(rs)
    ensures 0.0 <= Summarize(rs).avgTtr <= 1.0
    ensures 0.0 <= Summarize(rs).totalUniqueWords <= Summarize(rs).totalWords
  {
    assert Summarizable(rs);
    var ttrs := Column(rs, "ttr");
    forall k | 0 <= k < |rs| ensures 0.0 <= ttrs[k] <= 1.0 {
      assert MetricRecord(rs[k]);
    }
    MeanBetween(ttrs, 0.0, 1.0);
    var words, unique := Column(rs, "word_count"), Column(rs, "unique_words");
    forall k | 0 <= k < |rs| ensures 0.0 <= unique[k] <= words[k] {
      assert MetricRecord(rs[k]);
    }
    SumMonotone(unique, words);
    SumNonNegative(unique);
  }

  lemma {:induction false} SumNonNegative(xs: seq<real>)
    requires forall k :: 0 <= k < |xs| ==> 0.0 <= xs[k]
    ensures 0.0 <= Sum(xs)
    decreases |xs|
  {
    if xs != [] {
      SumNonNegative(xs[1..]);
    }
  }

  // ---------------------------------------------------------------------
  // Invariance under reordering the records

  lemma {:induction false} SumAppend(xs: seq<real>, ys: seq<real>)
    ensures Sum(xs + ys) == Sum(xs) + Sum(ys)
    decreases |xs|
  {
    if xs != [] {
      assert (xs + ys)[0] == xs[0];
      assert (xs + ys)[1..] == xs[1..] + ys;
      SumAppend(xs[1..], ys);
    } else {
      assert xs + ys == ys;
    }
  }

  /** Reordering the items does not change the sum. */
  lemma {:induction false} SumPermutation(xs: seq<real>, ys: seq<real>)
    requires multiset(xs) == multiset(ys)
    ensures Sum(xs) == Sum(ys)
    decreases |xs|
  {
    if xs == [] {
      assert |ys| == |multiset(ys)| == 0;
    } else {
      var j := MatchFirst(xs, ys);
      SumPermutation(xs[1..], ys[..j] + ys[j + 1..]);
      SumWithout(ys, j);
    }
  }

  /**
   * The first item of a list occurs in any reordering of it, and the rest of
   * the list is a reordering of what remains there.
   */
  lemma MatchFirst<T>(xs: seq<T>, ys: seq<T>) returns (j: nat)
    requires xs != [] && multiset(xs) == multiset(ys)
    ensures j < |ys| && ys[j] == xs[0]
    ensures multiset(xs[1..]) == multiset(ys[..j] + ys[j + 1..])
  {
    assert xs[0] in multiset(ys);
    j :| 0 <= j < |ys| && ys[j] == xs[0];
    assert ys == ys[..j] + [ys[j]] + ys[j + 1..];
    assert xs == [xs[0]] + xs[1..];
    assert multiset(xs[1..]) == multiset(xs) - multiset{xs[0]};
  }

  /** Taking one item out of a list takes it out of the sum. */
  lemma SumWithout(ys: seq<real>, j: nat)
    requires j < |ys|
    ensures Sum(ys) == ys[j] + Sum(ys[..j] + ys[j + 1..])
  {
    var before, after := ys[..j], ys[j + 1..];
    var rest := [ys[j]] + after;
    assert ys == before + rest;
    SumAppend(before, rest);
    assert rest[0] == ys[j] && rest[1..] == after;
    assert Sum(rest) == ys[j] + Sum(after);
    SumAppend(before, after);
  }

  lemma ColumnAppend(rs: seq<Fields>, ts: seq<Fields>, key: string)
    ensures Column(rs + ts, key) == Column(rs, key) + Column(ts, key)
  {
    var l, r := Column(rs + ts, key), Column(rs, key) + Column(ts, key);
    forall k | 0 <= k < |l| ensures l[k] == r[k] {
      if k < |rs| { assert (rs + ts)[k] == rs[k]; } else { assert (rs + ts)[k] == ts[k - |rs|]; }
    }
  }

  /** Reordering the records reorders each column the same way. */
  lemma {:induction false} ColumnPermutation(rs: seq<Fields>, ts: seq<Fields>, key: string)
    requires multiset(rs) == multiset(ts)
    ensures multiset(Column(rs, key)) == multiset(Column(ts, key))
    decreases |rs|
  {
    if rs == [] {
      assert |ts| == |multiset(ts)| == 0;
    } else {
      var j := MatchFirst(rs, ts);
      var before, after := ts[..j], ts[j + 1..];
      ColumnPermutation(rs[1..], before + after, key);
      assert ts == before + ([ts[j]] + after);
      assert rs == [rs[0]] + rs[1..];
      ColumnAppend(before, after, key);
      ColumnAppend(before, [ts[j]] + after, key);
      ColumnAppend([ts[j]], after, key);
      ColumnAppend([rs[0]], rs[1..], key);
    }
  }

  lemma NumericPermutation(rs: seq<Fields>, ts: seq<Fields>, key: string)
    requires multiset(rs) == multiset(ts) && NumericColumn(rs, key)
    ensures NumericColumn(ts, key)
  {
    forall k | 0 <= k < |ts| && key in ts[k] ensures IsNumeric(ts[k][key]) {
      assert ts[k] in multiset(rs);
    }
  }

  /** Reordering the items does not change the largest or the smallest value. */
  lemma ExtremesPermutation(xs: seq<real>, ys: seq<real>)
    requires |xs| > 0 && multiset(xs) == multiset(ys)
    ensures |ys| > 0
    ensures Extremes.MaxOf(xs) == Extremes.MaxOf(ys) && Extremes.MinOf(xs) == Extremes.MinOf(ys)
  {
    assert |ys| == |multiset(ys)| == |multiset(xs)| == |xs|;
    var a, b := Extremes.MaxOf(xs), Extremes.MaxOf(ys);
    assert a in multiset(ys) && b in multiset(xs);
    var c, d := Extremes.MinOf(xs), Extremes.MinOf(ys);
    assert c in multiset(ys) && d in multiset(xs);
  }

  /**
   * The totals, the means, the verdicts and the size range do not depend on
   * the order of the records (only which record is reported as an extreme
   * does, through the first-occurrence tie-break).
   */
  lemma SummaryPermutation(rs: seq<Fields>, ts: seq<Fields>)
    requires multiset(rs) == multiset(ts) && |rs| > 0 && Summarizable(rs)
    ensures |ts| > 0 && Summarizable(ts)
    ensures Summarize(rs).totalWords == Summarize(ts).totalWords
    ensures Summarize(rs).totalUniqueWords == Summarize(ts).totalUniqueWords
    ensures Summarize(rs).avgTtr == Summarize(ts).avgTtr
    ensures Summarize(rs).avgWordLength == Summarize(ts).avgWordLength
    ensures Summarize(rs).diversity == Summarize(ts).diversity
    ensures Summarize(rs).wordLength == Summarize(ts).wordLength
    ensures Summarize(rs).smallestText == Summarize(ts).smallestText
    ensures Summarize(rs).largestText == Summarize(ts).largestText
  {
    assert |ts| == |multiset(ts)| == |multiset(rs)| == |rs|;
    NumericPermutation(rs, ts, "word_count");
    NumericPermutation(rs, ts, "unique_words");
    NumericPermutation(rs, ts, "ttr");
    NumericPermutation(rs, ts, "avg_word_length");
    ColumnPermutation(rs, ts, "word_count");
    ColumnPermutation(rs, ts, "unique_words");
    ColumnPermutation(rs, ts, "ttr");
    ColumnPermutation(rs, ts, "avg_word_length");
    SumPermutation(Column(rs, "word_count"), Column(ts, "word_count"));
    SumPermutation(Column(rs, "unique_words"), Column(ts, "unique_words"));
    SumPermutation(Column(rs, "ttr"), Column(ts, "ttr"));
    SumPermutation(Column(rs, "avg_word_length"), Column(ts, "avg_word_length"));
    ExtremesPermutation(Column(rs, "word_count"), Column(ts, "word_count"));
    MeanOfPermutation(Column(rs, "ttr"), Column(ts, "ttr"));
    MeanOfPermutation(Column(rs, "avg_word_length"), Column(ts, "avg_word_length"));
    MaxIsFirstMax(Column(rs, "word_count"));
    MinIsFirstMin(Column(rs, "word_count"));
    MaxIsFirstMax(Column(ts, "word_count"));
    MinIsFirstMin(Column(ts, "word_count"));
  }

  /** Two lists of the same length with the same sum have the same mean. */
  lemma MeanOfPermutation(xs: seq<real>, ys: seq<real>)
    requires |xs| > 0 && |xs| == |ys| && Sum(xs) == Sum(ys)
    ensures Mean(xs) == Mean(ys)
  {
    var n := |xs| as real;
    assert Mean(xs) * n == Mean(ys) * n;
    assert (Mean(xs) - Mean(ys)) * n == 0.0;
  }
}
