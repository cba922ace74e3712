/**
 * The metric record of one document, as `analyze_single_text` assembles it:
 * a dictionary from column names to values.  Metadata merged in later adds
 * string columns, so a record is a map from names to tagged values.
 */
module Records {
  import opened Tokenizer
  import opened TextMetrics

  /** A value stored in a record. */
  datatype Value =
    | Int(i: int)
    | Real(x: real)
    | Str(s: string)
    /** The `top_words` column: the (word, count) pairs it is formatted from. */
    | TopWords(pairs: seq<(string, nat)>)

  /** A record: column name to value (a Python dict). */
  type Fields = map<string, Value>

  /** The columns every analysed document has. */
  const MetricKeys: set<string> := {
    "filename", "word_count", "unique_words", "ttr", "line_count", "avg_word_length",
    "longest_word", "lexical_density", "readability_score", "top_words"
  }

  /** The number of most frequent words kept in `top_words`. */
  const TopWordsCount: nat := 3

  predicate IsNumeric(v: Value) {
    v.Int? || v.Real?
  }

  /** A numeric value as a number. */
  function AsReal(v: Value): real
    requires IsNumeric(v)
  {
    if v.Int? then v.i as real else v.x
  }

  /**
   * What holds of every record produced by `analyze_single_text`: the
   * columns are there with the right kinds of values, the counts are
   * consistent with each other, the shares lie in [0, 1], the score in
   * [0, 100], and the sentence columns are present exactly when the document
   * has words.
   */
  predicate MetricRecord(r: Fields) {
    && MetricKeys <= r.Keys
    && r["filename"].Str?
    && r["word_count"].Int? && r["unique_words"].Int? && r["line_count"].Int?
    && 0 <= r["unique_words"].i <= r["word_count"].i
    && r["line_count"].i >= 0
    && r["ttr"].Real? && r["ttr"].x == Share(r["unique_words"].i, r["word_count"].i)
    && r["avg_word_length"].Real? && r["longest_word"].Str?
    && (r["word_count"].i == 0 <==> r["longest_word"].s == [])
    && (r["word_count"].i == 0 ==> r["avg_word_length"].x == 0.0)
    && (r["word_count"].i > 0 ==> 1.0 <= r["avg_word_length"].x <= |r["longest_word"].s| as real)
    && r["lexical_density"].Real? && 0.0 <= r["lexical_density"].x <= 1.0
    && r["readability_score"].Real? && 0.0 <= r["readability_score"].x <= 100.0
    && ("sentences" in r <==> r["word_count"].i > 0)
    && ("words_per_sentence" in r <==> r["word_count"].i > 0)
    && (r["word_count"].i > 0 ==>
          && r["sentences"].Int? && r["sentences"].i >= 1 && r["words_per_sentence"].Real?
          && r["words_per_sentence"].x * r["sentences"].i as real == r["word_count"].i as real)
    && r["top_words"].TopWords? && |r["top_words"].pairs| <= TopWordsCount
    && (r["word_count"].i == 0 ==> r["top_words"].pairs == [])
  }

  /** The dictionary returned by `analyze_text_readability`. */
  function ReadabilityFields(rd: Readability): (r: Fields)
    ensures "readability_score" in r && r["readability_score"] == Real(rd.Score())
    ensures rd.Unrated? ==> r.Keys == {"readability_score"}
    ensures rd.Rated? ==> r.Keys == {"readability_score", "words_per_sentence", "sentences"}
  {
    match rd
    case Unrated => map["readability_score" := Real(0.0)]
    case Rated(score, wps, sentences) =>
      map["readability_score" := Real(score), "words_per_sentence" := Real(wps), "sentences" := Int(sentences)]
  }

  /** The values `analyze_single_text` computes for one document. */
  datatype Metrics = Metrics(
    filename: string, wordCount: nat, uniqueWords: nat, ttr: real, lineCount: nat,
    avgWordLength: real, longestWord: string, lexicalDensity: real,
    readability: Readability, topWords: seq<(string, nat)>)

  /** The metric-record invariant, stated on the computed values. */
  predicate Consistent(m: Metrics) {
    CountsAgree(m) && LengthsAgree(m) && ScoresAgree(m) && TopAgrees(m)
  }

  /** At most as many distinct words as words, and the ratio between them. */
  predicate CountsAgree(m: Metrics) {
    && m.uniqueWords <= m.wordCount
    && m.ttr == Share(m.uniqueWords, m.wordCount)
  }

  /** The longest word is "" exactly without words; the mean length lies between 1 and its length. */
  predicate LengthsAgree(m: Metrics) {
    && (m.wordCount == 0 <==> m.longestWord == [])
    && (m.wordCount == 0 ==> m.avgWordLength == 0.0)
    && (m.wordCount > 0 ==> 1.0 <= m.avgWordLength <= |m.longestWord| as real)
  }

  /** Density in [0, 1], score in [0, 100], and a rating exactly when there are words. */
  predicate ScoresAgree(m: Metrics) {
    && 0.0 <= m.lexicalDensity <= 1.0
    && 0.0 <= m.readability.Score() <= 100.0
    && (m.readability.Rated? <==> m.wordCount > 0)
    && m.readability.RatedFor(m.wordCount)
  }

  /** At most three top words, none without words. */
  predicate TopAgrees(m: Metrics) {
    && |m.topWords| <= TopWordsCount
    && (m.wordCount == 0 ==> m.topWords == [])
  }

  /** The metrics of one document; they are consistent with each other. */
  function ComputeMetrics(filename: string, content: string): (m: Metrics)
    ensures Consistent(m)
    ensures m.filename == filename
    ensures m.wordCount == CountWords(content) && m.uniqueWords == CountUniqueWords(content)
    ensures m.ttr == Ttr(content) && m.lineCount == CountLines(content)
    ensures m.avgWordLength == AverageWordLength(content) && m.longestWord == LongestWord(content)
    ensures m.lexicalDensity == LexicalDensity(content)
    ensures m.readability == AnalyzeReadability(content)
    ensures m.topWords == MostCommonWords(content, TopWordsCount as int)
  {
    var m := Metrics(
      filename, CountWords(content), CountUniqueWords(content), Ttr(content), CountLines(content),
      AverageWordLength(content), LongestWord(content), LexicalDensity(content),
      AnalyzeReadability(content), MostCommonWords(content, TopWordsCount as int));
    CountsOf(content, m);
    LengthsOf(content, m);
    ScoresOf(content, m);
    TopOf(content, m);
    m
  }

  lemma CountsOf(content: string, m: Metrics)
    requires m.wordCount == CountWords(content) && m.uniqueWords == CountUniqueWords(content)
    requires m.ttr == Ttr(content)
    ensures CountsAgree(m)
  {
  }

  lemma LengthsOf(content: string, m: Metrics)
    requires m.wordCount == CountWords(content)
    requires m.avgWordLength == AverageWordLength(content) && m.longestWord == LongestWord(content)
    ensures LengthsAgree(m)
  {
    AverageWordLengthBounds(content);
  }

  lemma ScoresOf(content: string, m: Metrics)
    requires m.wordCount == CountWords(content)
    requires m.lexicalDensity == LexicalDensity(content) && m.readability == AnalyzeReadability(content)
    ensures ScoresAgree(m)
  {
    ReadabilityRatedFor(content);
  }

  lemma TopOf(content: string, m: Metrics)
    requires m.wordCount == CountWords(content)
    requires m.topWords == MostCommonWords(content, TopWordsCount as int)
    ensures TopAgrees(m)
  {
  }

  /**
   * Every column of `r` holds the metric it is named after, and the sentence
   * columns hold the rating's values when there is a rating.
   */
  predicate Carries(r: Fields, m: Metrics) {
    && "filename" in r && r["filename"] == Str(m.filename)
    && "word_count" in r && r["word_count"] == Int(m.wordCount)
    && "unique_words" in r && r["unique_words"] == Int(m.uniqueWords)
    && "ttr" in r && r["ttr"] == Real(m.ttr)
    && "line_count" in r && r["line_count"] == Int(m.lineCount)
    && "avg_word_length" in r && r["avg_word_length"] == Real(m.avgWordLength)
    && "longest_word" in r && r["longest_word"] == Str(m.longestWord)
    && "lexical_density" in r && r["lexical_density"] == Real(m.lexicalDensity)
    && "readability_score" in r && r["readability_score"] == Real(m.readability.Score())
    && ("sentences" in r <==> m.readability.Rated?)
    && ("words_per_sentence" in r <==> m.readability.Rated?)
    && (m.readability.Rated? ==>
          && r["sentences"] == Int(m.readability.sentences)
          && r["words_per_sentence"] == Real(m.readability.wordsPerSentence))
    && "top_words" in r && r["top_words"] == TopWords(m.topWords)
  }

  /** The dictionary `analyze_single_text` builds from the metrics. */
  function ToFields(m: Metrics): (r: Fields)
    requires Consistent(m)
    ensures MetricRecord(r)
    ensures Carries(r, m)
  {
    AssembledRecord(m);
    AssembledCarries(m);
    Assemble(m)
  }

  /** The assembled dictionary holds every metric under its column name. */
  lemma AssembledCarries(m: Metrics)
    ensures Carries(Assemble(m), m)
  {
    CountColumns(m);
    LengthColumns(m);
    ScoreColumns(m);
    SentenceColumns(m);
  }

  /** Consistent metrics assemble into a metric record. */
  lemma AssembledRecord(m: Metrics)
    requires Consistent(m)
    ensures MetricRecord(Assemble(m))
  {
    CountColumns(m);
    LengthColumns(m);
    ScoreColumns(m);
    SentenceColumns(m);
  }

  /** The metric columns, then the readability columns, then `top_words`. */
  function Assemble(m: Metrics): Fields {
    var metrics := map[
      "filename" := Str(m.filename),
      "word_count" := Int(m.wordCount),
      "unique_words" := Int(m.uniqueWords),
      "ttr" := Real(m.ttr),
      "line_count" := Int(m.lineCount),
      "avg_word_length" := Real(m.avgWordLength),
      "longest_word" := Str(m.longestWord),
      "lexical_density" := Real(m.lexicalDensity)
    ];
    var withReadability := metrics + ReadabilityFields(m.readability);
    withReadability["top_words" := TopWords(m.topWords)]
  }

  lemma CountColumns(m: Metrics)
    ensures var r := Assemble(m);
      && "filename" in r && r["filename"] == Str(m.filename)
      && "word_count" in r && r["word_count"] == Int(m.wordCount)
      && "unique_words" in r && r["unique_words"] == Int(m.uniqueWords)
      && "ttr" in r && r["ttr"] == Real(m.ttr)
  {
  }

  lemma LengthColumns(m: Metrics)
    ensures var r := Assemble(m);
      && "line_count" in r && r["line_count"] == Int(m.lineCount)
      && "avg_word_length" in r && r["avg_word_length"] == Real(m.avgWordLength)
      && "longest_word" in r && r["longest_word"] == Str(m.longestWord)
      && "lexical_density" in r && r["lexical_density"] == Real(m.lexicalDensity)
  {
  }

  lemma ScoreColumns(m: Metrics)
    ensures var r := Assemble(m);
      && "readability_score" in r && r["readability_score"] == Real(m.readability.Score())
      && "top_words" in r && r["top_words"] == TopWords(m.topWords)
  {
  }

  lemma SentenceColumns(m: Metrics)
    ensures var r := Assemble(m);
      && ("sentences" in r <==> m.readability.Rated?)
      && ("words_per_sentence" in r <==> m.readability.Rated?)
      && (m.readability.Rated? ==>
            r["sentences"] == Int(m.readability.sentences)
            && r["words_per_sentence"] == Real(m.readability.wordsPerSentence))
  {
  }

  /**
   * The record of document `filename` with text `content`: each column holds
   * the metric of the text it is named after; the sentence columns are there
   * exactly when the text is rated, holding its sentence count and its words
   * per sentence.
   */
  predicate Describes(r: Fields, filename: string, content: string) {
    && "filename" in r && r["filename"] == Str(filename)
    && "word_count" in r && r["word_count"] == Int(CountWords(content))
    && "unique_words" in r && r["unique_words"] == Int(CountUniqueWords(content))
    && "ttr" in r && r["ttr"] == Real(Ttr(content))
    && "line_count" in r && r["line_count"] == Int(CountLines(content))
    && "avg_word_length" in r && r["avg_word_length"] == Real(AverageWordLength(content))
    && "longest_word" in r && r["longest_word"] == Str(LongestWord(content))
    && "lexical_density" in r && r["lexical_density"] == Real(LexicalDensity(content))
    && "readability_score" in r && r["readability_score"] == Real(AnalyzeReadability(content).Score())
    && ("sentences" in r <==> AnalyzeReadability(content).Rated?)
    && ("words_per_sentence" in r <==> AnalyzeReadability(content).Rated?)
    && (AnalyzeReadability(content).Rated? ==>
          && r["sentences"] == Int(SentenceCount(content))
          && r["words_per_sentence"] == Real(PerSentence(CountWords(content), SentenceCount(content))))
    && "top_words" in r && r["top_words"] == TopWords(MostCommonWords(content, TopWordsCount as int))
  }

  /**
   * `analyze_single_text` on a document that could be read: the metric
   * columns, the readability columns and the top three words.  The record
   * satisfies the metric-record invariant, and its columns carry the
   * document's metrics.
   */
  function AnalyzeText(filename: string, content: string): (r: Fields)
    ensures MetricRecord(r)
    ensures Describes(r, filename, content)
  {
    var m := ComputeMetrics(filename, content);
    var r := ToFields(m);
    CarriesDescribes(r, filename, content, m);
    r
  }

  /** A record carrying the metrics of a text describes that text. */
  lemma CarriesDescribes(r: Fields, filename: string, content: string, m: Metrics)
    requires m == ComputeMetrics(filename, content) && Carries(r, m)
    ensures Describes(r, filename, content)
  {
    var rd := AnalyzeReadability(content);
    if rd.Rated? {
      assert rd == Rate(CountWords(content), SentenceCount(content));
    }
  }
}
