/**
 * Character classes used by the tokenizer: Python's `\s` (str.isspace), `\w`
 * (str.isalnum() or '_') and the per-character lowercasing of str.lower().
 *
 * IsSpace is Python's whitespace set exactly.  IsWordChar and Lower agree
 * with Python on ASCII, Latin-1 (U+0000-U+00FF) and the Cyrillic blocks
 * (U+0400-U+052F); every other character counts as neither a word character
 * nor a capital.  Every proof about the tokenizer uses only the facts stated
 * in the contracts below.
 */
module Chars {

  /** Python's `str.isspace()` (and the `\s` class of `re` on str patterns). */
  predicate IsSpace(c: char) {
    || c == ' ' || c == '\t' || c == '\n' || c == '\r'
    || c == '\U{0B}' || c == '\U{0C}'
    || ('\U{1C}' <= c <= '\U{1F}')
    || c == '\U{85}' || c == '\U{A0}' || c == '\U{1680}'
    || ('\U{2000}' <= c <= '\U{200A}')
    || c == '\U{2028}' || c == '\U{2029}' || c == '\U{202F}' || c == '\U{205F}'
    || c == '\U{3000}'
  }

  /** Sentence terminators of `re.split(r'[.!?]+', text)`. */
  predicate IsTerminator(c: char) {
    c == '.' || c == '!' || c == '?'
  }

  /**
   * The characters `str.lower()` changes: the ASCII and Latin-1 capitals,
   * the basic Cyrillic capitals U+0400-U+042F, and the capitals of the
   * Cyrillic case pairs above them.
   */
  predicate IsUpper(c: char) {
    || ('A' <= c <= 'Z')
    || ('\U{C0}' <= c <= '\U{DE}' && c != '\U{D7}')
    || ('\U{400}' <= c <= '\U{42F}')
    || IsPairedUpper(c)
    || c == '\U{4C0}'
  }

  /**
   * The capital of a Cyrillic case pair whose small letter follows it:
   * even code points in U+0460-U+0480, U+048A-U+04BE and U+04D0-U+052E, odd
   * ones in U+04C1-U+04CD.
   */
  predicate IsPairedUpper(c: char) {
    || ((('\U{460}' <= c <= '\U{480}') || ('\U{48A}' <= c <= '\U{4BE}') || ('\U{4D0}' <= c <= '\U{52E}'))
        && c as int % 2 == 0)
    || ('\U{4C1}' <= c <= '\U{4CD}' && c as int % 2 == 1)
  }

  /**
   * The Latin-1 characters Python's `\w` accepts beyond ASCII: the ordinal
   * indicators, the superscript digits, the micro sign, the vulgar fractions
   * and the letters.
   */
  predicate IsLatin1WordChar(c: char) {
    || c == '\U{AA}' || c == '\U{B2}' || c == '\U{B3}' || c == '\U{B5}' || c == '\U{B9}' || c == '\U{BA}'
    || ('\U{BC}' <= c <= '\U{BE}')
    || ('\U{C0}' <= c <= '\U{FF}' && c != '\U{D7}' && c != '\U{F7}')
  }

  /** Python's `\w` (str.isalnum() or '_'), on ASCII, Latin-1 and Cyrillic. */
  predicate IsWordChar(c: char)
    ensures IsWordChar(c) ==> !IsSpace(c) && !IsTerminator(c)
    ensures IsUpper(c) ==> IsWordChar(c)
  {
    || ('0' <= c <= '9') || c == '_' || ('A' <= c <= 'Z') || ('a' <= c <= 'z')
    || IsLatin1WordChar(c)
    || ('\U{400}' <= c <= '\U{481}') || ('\U{48A}' <= c <= '\U{52F}')
  }

  /**
   * Per-character `str.lower()`: a capital becomes its small letter, and
   * every other character stays as it is.
   */
  function Lower(c: char): (r: char)
    ensures r == c <==> !IsUpper(c)
    ensures IsWordChar(r) <==> IsWordChar(c)
    ensures IsSpace(c) || IsTerminator(c) ==> r == c
    ensures !IsUpper(r)
  {
    if 'A' <= c <= 'Z' || ('\U{C0}' <= c <= '\U{DE}' && c != '\U{D7}') || ('\U{410}' <= c <= '\U{42F}') then
      (c as int + 32) as char
    else if '\U{400}' <= c <= '\U{40F}' then
      (c as int + 80) as char
    else if IsPairedUpper(c) then
      (c as int + 1) as char
    else if c == '\U{4C0}' then
      '\U{4CF}'
    else
      c
  }

  /** Lowercasing twice is lowercasing once. */
  lemma LowerIdempotent(c: char)
    ensures Lower(Lower(c)) == Lower(c)
  {
  }
}
