/** The number grammar of section 6 of RFC 8259 (JSON), stated declaratively:
      number = [ minus ] int [ frac ] [ exp ]
      int    = zero / ( digit1-9 *DIGIT )
      frac   = decimal-point 1*DIGIT
      exp    = e [ minus / plus ] 1*DIGIT
    A token is a number when it splits into these four parts. This is the
    reference against which the scanner of leptjson.c is proved. */
module NumberGrammar {
  import opened CText

  predicate IsMinusPart(t: seq<char>) {
    |t| == 0 || (|t| == 1 && t[0] == '-')
  }

  /** Every character of `t` from index `d` on is a digit. */
  predicate DigitsFrom(t: seq<char>, d: nat) {
    forall k :: d <= k < |t| ==> IsDigit(t[k])
  }

  predicate IsIntPart(t: seq<char>) {
    (|t| == 1 && t[0] == '0') || (|t| >= 1 && IsDigit1To9(t[0]) && DigitsFrom(t, 1))
  }

  predicate IsFracPart(t: seq<char>) {
    |t| == 0 || (|t| >= 2 && t[0] == '.' && DigitsFrom(t, 1))
  }

  /** Index of the first exponent digit: past the marker and an optional sign. */
  function ExpDigitsIndex(t: seq<char>): nat
    requires |t| >= 2
  {
    if t[1] == '+' || t[1] == '-' then 2 else 1
  }

  predicate IsExpPart(t: seq<char>) {
    |t| == 0 ||
    (|t| >= 2 && (t[0] == 'e' || t[0] == 'E') && ExpDigitsIndex(t) < |t| && DigitsFrom(t, ExpDigitsIndex(t)))
  }

  /** `t` is minus part `t[..k1]`, integer part `t[k1..k2]`, fraction part
      `t[k2..k3]` and exponent part `t[k3..]`. */
  predicate IsNumberSplit(t: seq<char>, k1: int, k2: int, k3: int) {
    0 <= k1 <= k2 <= k3 <= |t| &&
    IsMinusPart(t[..k1]) && IsIntPart(t[k1..k2]) && IsFracPart(t[k2..k3]) && IsExpPart(t[k3..])
  }

  ghost predicate IsNumber(t: seq<char>) {
    exists k1, k2, k3 :: IsNumberSplit(t, k1, k2, k3)
  }

  /** A character that could extend a number token that ends just before it. */
  predicate ContinuesNumber(ch: char) {
    IsDigit(ch) || ch == '.' || ch == 'e' || ch == 'E'
  }
}
