/** Character-level view of a NUL-terminated C string, and the character
    classes leptjson.c tests (its IS_DIGIT and IS_DIGIT_1_TO_9 macros and the
    whitespace set of lept_parse_whitespace). */
module CText {

  /** The character at index `i` of the C string whose characters before the
      terminator are `s`: at or past the end the terminator '\0' is read. */
  function At(s: seq<char>, i: nat): char {
    if i < |s| then s[i] else '\0'
  }

  /** A sequence that is the content of a C string: it holds no '\0'. */
  predicate IsCString(s: seq<char>) {
    forall k :: 0 <= k < |s| ==> s[k] != '\0'
  }

  /** The four whitespace characters JSON allows between tokens. */
  predicate IsWhitespace(ch: char) {
    ch == ' ' || ch == '\t' || ch == '\n' || ch == '\r'
  }

  predicate AllWhitespace(t: seq<char>) {
    forall k :: 0 <= k < |t| ==> IsWhitespace(t[k])
  }

  /** IS_DIGIT */
  predicate IsDigit(ch: char) {
    '0' <= ch <= '9'
  }

  /** IS_DIGIT_1_TO_9 */
  predicate IsDigit1To9(ch: char) {
    '1' <= ch <= '9'
  }
}
