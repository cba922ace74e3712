# Analysis-poems text metrics, in Dafny

This project models the text-metrics engine of Analysis-poems, a tool that
computes lexical statistics for a folder of poems. It also models the glue
in `main.py` that turns those statistics into records, merges metadata into
them, summarises the corpus and orders the columns of the CSV export.

The modules follow the program's structure:

- `Chars` (`chars.dfy`) holds the character classes the tokenizer relies on:
  Python's `\s`, `\w` and `str.lower` for ASCII, Latin-1 and Cyrillic, and the
  sentence terminators `.`, `!` and `?`.
- `Tokenizer` (`tokenizer.dfy`) models `preprocess_text`, stage by stage:
  - lowercase;
  - replace every non-word, non-space character by a space;
  - collapse runs of whitespace;
  - strip;
  - split.
- `WordFrequency` (`word_frequency.dfy`) models `collections.Counter` and
  `Counter.most_common`. Counts are sorted in descending order. Equal counts
  keep their first-occurrence order.
- `Extremes` (`extremes.dfy`) models Python's `max`/`min` with a key. Each
  returns the first extreme element.
- `TextMetrics` (`text_metrics.dfy`) holds the metrics of one text:
  - word counts and type-token ratio;
  - most common words;
  - line and sentence counts;
  - readability;
  - average word length;
  - longest word;
  - lexical density.
- `Records` (`records.dfy`) models the metric record `analyze_single_text`
  builds, together with the invariant every such record satisfies.
- `Metadata` (`metadata.dfy`) models `load_metadata` as a loop over the rows.
  It models `enrich_results_with_metadata` as an in-place update of an array
  of records.
- `CorpusReport` (`corpus_report.dfy`) models what `generate_report`
  computes before formatting:
  - totals;
  - means;
  - extreme records;
  - the size range;
  - the verdict labels;
  - the per-text difficulty level.
- `CsvHeaders` (`csv_headers.dfy`) models the header row of
  `save_statistics_csv`. The basic columns come first, then the first
  record's other keys in Python's string order.

Ratios are exact rationals (`real`). A Python dict is a Dafny `map`. A record
value is a tagged `Value`: an integer, a real, a string, or the top-word
pairs.

`calculate_lexical_density` returns 0.0 whenever no token is longer than
three characters (`text_utils.py:183-189`), not only for a text without
words. `TextMetrics.LexicalDensityZero` states this.

## Model

| member | source | states |
|---|---|---|
| Chars.IsWordChar | text_utils.py:23 | no word character is whitespace or a terminator, and every capital is a word character |
| Chars.Lower | text_utils.py:20 | a character changes exactly when it is a capital (ASCII, Latin-1, basic Cyrillic and the Cyrillic case pairs up to U+052F); word characters stay word characters, whitespace and terminators stay, and no capital is left |
| Chars.LowerIdempotent | text_utils.py:20 | lowercasing twice is lowercasing once |
| Tokenizer.Lowercase | text_utils.py:20 | same length, each character lowercased |
| Tokenizer.ReplaceNonWord | text_utils.py:23 | same length; every character that is neither a word character nor whitespace becomes a space, the rest stay |
| Tokenizer.CollapseSpaces | text_utils.py:26 | not longer; empty iff the input is; every whitespace left is a single space and no two are adjacent |
| Tokenizer.Strip | text_utils.py:29 | the result neither starts nor ends with whitespace |
| Tokenizer.SplitWhitespace | text_utils.py:29 | every piece is non-empty, contains no whitespace, and is made of characters of the input |
| Tokenizer.Clean | text_utils.py:20-26 | same length; every character is whitespace or a lowercase word character |
| Tokenizer.Preprocess | text_utils.py:6-31 | the empty text has no tokens; every token is non-empty and made only of lowercase word characters |
| Tokenizer.CollapseKeepsTokens | text_utils.py:26-29 | collapsing whitespace runs does not change the split |
| Tokenizer.StripKeepsTokens | text_utils.py:29 | stripping does not change the split |
| Tokenizer.PreprocessIsSplitOfClean | text_utils.py:20-29 | the tokens are the whitespace split of the cleaned text |
| Tokenizer.TokensOfClean | text_utils.py:20-29 | every piece of the cleaned text's split is a token |
| Tokenizer.SplitJoin | text_utils.py:29 | joining space-free non-empty words with spaces and splitting gives the words back |
| Tokenizer.CleanFixesJoin | text_utils.py:20-26 | cleaning the space-joined tokens changes nothing |
| Tokenizer.PreprocessIdempotent | text_utils.py:6-31 | tokenizing the space-joined tokens of a text gives the same tokens |
| Tokenizer.WordCharGivesToken | text_utils.py:6-31 | a text with a character that lowercases to a word character has at least one token |
| Tokenizer.NonSpaceGivesToken | text_utils.py:29 | a string with a non-whitespace character splits into at least one piece |
| WordFrequency.FirstIndex | text_utils.py:120 | the first position of a word: it is there and not earlier |
| WordFrequency.Counter | text_utils.py:120 | one entry per distinct word, each with its exact count and first position, in first-occurrence order, none missing |
| WordFrequency.TalliesComplete | text_utils.py:120 | every word first occurring at or after a position has an entry |
| WordFrequency.SortByCount | text_utils.py:123 | the sorted entries are a permutation of the entries |
| WordFrequency.SortByCountSorted | text_utils.py:123 | entries in first-occurrence order sort into descending count, ties in first-occurrence order |
| WordFrequency.MostCommon | text_utils.py:120-123 | none for n <= 0, otherwise exactly min(n, number of distinct words) pairs, each a word with its exact count, no word twice, counts descending with ties in first-occurrence order, and no omitted word more frequent than a taken one or as frequent and occurring first earlier; every word when n covers them all |
| WordFrequency.MostCommonFacts | text_utils.py:120-123 | any stable count-sorted permutation of the counter gives pairs with these properties, and has one entry per distinct word |
| WordFrequency.TopComplete | text_utils.py:123 | a word left out of a prefix of the sorted table occurs less often than each word taken, or as often and first later; taking the whole table leaves nothing out |
| WordFrequency.DistinctBounds | text_utils.py:59 | there are at most as many distinct words as words, and at least one when there are words |
| Extremes.FirstMaxIndex | main.py:195 | a position of the largest key, and no earlier position reaches it |
| Extremes.FirstMinIndex | main.py:196 | a position of the smallest key, and no earlier position reaches it |
| Extremes.MaxOf | main.py:269 | an element of the keys that no key exceeds |
| Extremes.MinOf | main.py:269 | an element of the keys that exceeds no key |
| TextMetrics.CountWords | text_utils.py:34-45 | zero exactly when the text is empty or has no tokens |
| TextMetrics.CountUniqueWords | text_utils.py:48-60 | at most the word count, and zero exactly when it is |
| TextMetrics.Share | text_utils.py:79-82 | a count's share of a larger count lies in [0, 1], times the whole gives the part, is 0 exactly when the part is, and is 0 for an empty whole |
| TextMetrics.Ttr | text_utils.py:63-82 | the ratio lies in [0, 1] |
| TextMetrics.TtrIsRatio | text_utils.py:75-82 | the ratio times the word count is the number of distinct words |
| TextMetrics.TtrZeroIffNoWords | text_utils.py:79-82 | the ratio is 0 exactly when there are no words |
| TextMetrics.MostCommonWords | text_utils.py:103-123 | none for n <= 0 or no words, otherwise exactly min(n, distinct tokens) pairs with exact counts, no word twice, ranked by count with first-occurrence ties, no omitted word more frequent or as frequent and earlier, all words when n covers them |
| TextMetrics.MostCommonAreTokens | text_utils.py:114-123 | every reported word is a token occurring at least once |
| TextMetrics.SplitOn | text_utils.py:99 | one more piece than separators, none containing the separator |
| TextMetrics.SplitOnRoundTrip | text_utils.py:99 | joining the pieces with the separator gives the text back |
| TextMetrics.StripEmptyIffAllSpace | text_utils.py:99 | a line strips to nothing exactly when it is all whitespace |
| TextMetrics.CountLines | text_utils.py:85-100 | 0 for the empty text; at most one more than the newlines |
| TextMetrics.NoLinesIffBlank | text_utils.py:95-100 | no non-blank line exactly when the text is all whitespace |
| TextMetrics.SplitOnTerminatorRuns | text_utils.py:206 | at least one piece, none containing a terminator, no inner piece empty, and a non-empty first piece when the text starts with a non-terminator |
| TextMetrics.TerminatorRuns | text_utils.py:206 | one run fewer than pieces, each a non-empty string of terminators; a text starting with a terminator has an empty first piece |
| TextMetrics.SplitOnTerminatorRunsWeave | text_utils.py:206 | the pieces with the terminator runs put back between them give the text, so the pieces break at exactly the maximal terminator runs |
| TextMetrics.SplitOnTerminatorRunsKeepsText | text_utils.py:206 | the pieces put together are the text without its terminators |
| TextMetrics.SentenceCount | text_utils.py:192-209 | 0 for the empty text |
| TextMetrics.SentencesOfWords | text_utils.py:202-209 | a text with tokens has at least one sentence |
| TextMetrics.ClampedScore | text_utils.py:235 | the score lies in [0, 100]; it is 100 exactly up to 10 words per sentence, 0 exactly from 60, and linear between |
| TextMetrics.ScoreMonotone | text_utils.py:235 | longer sentences never score higher |
| TextMetrics.PerSentence | text_utils.py:232 | words per sentence times sentences is the word count |
| TextMetrics.Rate | text_utils.py:228-240 | a rating exactly when there are words and sentences, for that many sentences, with the words-per-sentence relation and the clamped score |
| TextMetrics.AnalyzeReadability | text_utils.py:212-241 | unrated exactly when the text has no tokens; a rating counts the text's sentences (at least one) and has a score in [0, 100] |
| TextMetrics.ReadabilityRatedFor | text_utils.py:225-240 | a rating's words per sentence times its sentences is the word count, and its score is the clamped score |
| TextMetrics.TotalLengthBounds | text_utils.py:141 | with word lengths between 1 and m, the total lies between the count and the count times m |
| TextMetrics.AverageWordLength | text_utils.py:126-142 | 0 for no tokens |
| TextMetrics.AverageWordLengthBounds | text_utils.py:136-142 | with tokens, the mean length lies between 1 and the longest word's length |
| TextMetrics.LongestWord | text_utils.py:145-161 | empty exactly without tokens; otherwise a token no token is longer than, and the first such |
| TextMetrics.DensityOf | text_utils.py:183-189 | the share lies in [0, 1] and times the token count is the number of long tokens |
| TextMetrics.LexicalDensity | text_utils.py:164-189 | lies in [0, 1]; 0 without tokens |
| TextMetrics.LongCountExtremes | text_utils.py:183 | all tokens are long exactly when every token is longer than 3 characters, none exactly when none is |
| TextMetrics.LexicalDensityZero | text_utils.py:177-189 | the density is 0 exactly when no token is longer than 3 characters |
| Records.ReadabilityFields | text_utils.py:222-240 | always the score; the sentence columns exactly for a rating |
| Records.ComputeMetrics | main.py:35-53 | each metric is the text_utils function of the text, and together they are consistent: the counts, the ratio, the length bounds, the density and score ranges, a rating exactly with words, at most three top words |
| Records.ToFields | main.py:35-53 | consistent metrics make a record satisfying the metric-record invariant in which every column holds its metric, the sentence columns exactly for a rating |
| Records.AssembledCarries | main.py:35-53 | the assembled dictionary holds every metric under its column name |
| Records.CarriesDescribes | main.py:35-53 | a record holding a text's computed metrics holds, column by column, the text_utils result for that text |
| Records.AssembledRecord | main.py:35-53 | the assembled dictionary satisfies the metric-record invariant |
| Records.SentenceColumns | main.py:48-49 | the sentence columns are present exactly for a rating and hold its values |
| Records.AnalyzeText | main.py:11-57 | the record of a document satisfies the metric-record invariant, and every column is the text's metric: name, counts, ratio, lines, mean and longest word, density, score, the sentence count and words per sentence exactly when rated, and the top three words |
| Metadata.KeyRows | main.py:111-127 | the loop builds the keyed dictionary of the rows |
| Metadata.KeyedDomain | main.py:118-121 | the keys are exactly the non-empty names occurring in the rows |
| Metadata.KeyedLast | main.py:118-121 | each key maps to the last row carrying that name |
| Metadata.RowFields | main.py:148 | a metadata row as record columns holds the same cells as strings |
| Metadata.EnrichOne | main.py:145-148 | without an entry the record is unchanged; with one, the metadata columns are set, overwriting, and the other columns kept |
| Metadata.EnrichWithMetadata | main.py:130-150 | empty metadata changes nothing; otherwise every record, in place, is enriched with its entry |
| Metadata.EnrichIdempotent | main.py:141-150 | enriching twice with loaded metadata is enriching once |
| Metadata.EnrichEmpty | main.py:141-142 | empty metadata leaves a record as it is |
| CorpusReport.Column | main.py:182-185 | one value per record, the column or 0 |
| CorpusReport.Mean | main.py:184-185 | the mean times the count is the sum |
| CorpusReport.DiversityLabel | main.py:248-253 | high exactly above 0.7, medium exactly above 0.5 up to 0.7, low otherwise |
| CorpusReport.WordLengthLabel | main.py:259-264 | long exactly above 6, medium exactly above 4 up to 6, short otherwise |
| CorpusReport.LevelOf | main.py:232 | hard exactly below 50, moderate exactly from 50 below 70, easy from 70 |
| CorpusReport.DiversityMonotone | main.py:248-253 | a higher mean ratio never gets a lower diversity label |
| CorpusReport.WordLengthMonotone | main.py:259-264 | a higher mean length never gets a shorter label |
| CorpusReport.LevelMonotone | main.py:232 | a higher score never gets a harder level |
| CorpusReport.LevelOfSentenceLength | main.py:232 | in terms of words per sentence, the level is hard exactly above 35 and easy exactly up to 25 |
| CorpusReport.RecordLevel | main.py:230-233 | a level exactly when the record has a score, the level of that score |
| CorpusReport.AnalyzedLevel | main.py:230-233 | an analysed document always shows the level of its readability score |
| CorpusReport.FirstMax | main.py:195 | the first record with the largest value in the column |
| CorpusReport.FirstMin | main.py:196 | the first record with the smallest value in the column |
| CorpusReport.Summarize | main.py:182-269 | totals are column sums, averages column means, extremes the first extreme records, the size range the word counts of the fewest- and most-words records, the verdicts the labels of the means |
| CorpusReport.GenerateReport | main.py:153-281 | no data exactly for no records; otherwise the summary |
| CorpusReport.MaxIsFirstMax | main.py:269 | the largest value is the value of the first largest record |
| CorpusReport.MinIsFirstMin | main.py:269 | the smallest value is the value of the first smallest record |
| CorpusReport.SumBounds | main.py:182-183 | values between lo and hi sum to between count times lo and count times hi |
| CorpusReport.MeanBetween | main.py:184-185 | the mean of values between lo and hi lies between them |
| CorpusReport.SumMonotone | main.py:182-183 | pointwise larger values have a larger sum |
| CorpusReport.SummaryBounds | main.py:182-185 | for analysed records, the mean ratio lies in [0, 1] and the distinct-word total lies between 0 and the word total |
| CorpusReport.SumPermutation | main.py:182-183 | reordering values does not change their sum |
| CorpusReport.ColumnPermutation | main.py:182-185 | reordering records reorders their column |
| CorpusReport.ExtremesPermutation | main.py:269 | reordering values does not change their maximum or minimum |
| CorpusReport.SummaryPermutation | main.py:182-269 | reordering records changes no total, mean, label or size bound of the summary |
| CsvHeaders.LessIrreflexive | main.py:313 | no string comes before itself |
| CsvHeaders.LessAsymmetric | main.py:313 | two strings are not each before the other |
| CsvHeaders.LessTransitive | main.py:313 | the string order is transitive |
| CsvHeaders.LessTotal | main.py:313 | two different strings are ordered one way or the other |
| CsvHeaders.SortStrings | main.py:313 | sorting permutes the list |
| CsvHeaders.SortStringsSorted | main.py:313 | a list without repetitions sorts into a strictly increasing one |
| CsvHeaders.SortedUnique | main.py:313 | two sorted lists with the same elements are equal, so the sorted order is determined |
| CsvHeaders.StatisticsHeaders | main.py:284-314 | false and no headers exactly for no records; otherwise the four basic columns, then exactly the first record's other keys, sorted, no column twice |
| CsvHeaders.BasicThenSortedDistinct | main.py:301-314 | the basic columns followed by sorted other names repeat nothing |

## Left out

- Rounding: `round(x, 4)` for the type-token ratio and the lexical density, and `round(x, 2)` for the mean word length, the words per sentence and the readability score. The model keeps exact rationals, so `TextMetrics.Ttr`, `TextMetrics.LexicalDensity`, `TextMetrics.AverageWordLength` and `TextMetrics.AnalyzeReadability` are the unrounded values.
- Chars.Lower: case mapping agrees with Python on U+0000-U+00FF and U+0400-U+052F. Other scripts (Greek, Latin Extended, and so on) and lowercasings that change the length (such as U+0130) are not modelled; such characters are left as they are.
- Chars.IsWordChar: Python's `\w` is modelled on U+0000-U+00FF and U+0400-U+052F. Every other character counts as a non-word character, so the model turns a Greek or CJK letter into a space where Python keeps it.
- Tokenizer.Preprocess: the `isinstance(text, str)` guard is not modelled, because every input here is a string.
- File reading and writing are not modelled: `read_text_file`, `read_csv_file`, `write_csv_file` and `file_utils.py`. An unreadable document (the `{}` of `analyze_single_text`) and a missing metadata file (an empty dictionary) are not modelled either. `load_metadata` is modelled from the rows onward.
- CsvHeaders.StatisticsHeaders: `ok` is `false` only for an empty result list. The outcome of the file write is not modelled, and neither is the filling of missing cells when the rows are written.
- The `file_size` column (main.py:44) is not modelled, because it comes from the file system.
- `analyze_corpus` and `main` are not modelled: the directory traversal, the progress messages and the prompts.
- The report text is not modelled: timestamps, headings, number formatting and the per-file lines other than the difficulty level. `CorpusReport.Summarize` holds the values the text is built from.
- The `top_words` column holds the (word, count) pairs. The `", "`-joined string built from them is not modelled.
- Dictionary insertion order is not modelled. The only consumer in the modelled core that depends on it, the CSV header, sorts the extra keys.
- Records are values. A record shared between two lists would not see another list's updates.
- CorpusReport.Summarize: requires the four columns it reads to be numbers where present, because Python's `sum` and comparisons raise an error on strings; that error is not modelled. Totals are reals. The mean ratio that main.py:184 and main.py:246 each compute is modelled once.
- CorpusReport.RecordLevel: requires a present `readability_score` to be a number; the error main.py:232 raises when a string score is compared is not modelled.
- Records.MetricRecord: `readability_score` is always a real. When the score is clamped, Python stores the integer 0 or 100, because `max` and `min` return their int operand (text_utils.py:235); the model stores 0.0 or 100.0, the same number.
- Metadata.RowFields: a metadata row maps column names to strings. The `None` cells that a CSV reader gives for a short row, which `result.update` copies into the record, are not modelled.
- WordFrequency.MostCommon: `Counter.most_common` is modelled as a stable sort by descending count over first-occurrence order. Its internal heap for small `n` gives the same list.
