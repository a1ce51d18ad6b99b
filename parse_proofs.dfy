/** What lept_parse promises about a whole text: the result codes in terms of
    the JSON grammar, and the behaviour on the texts the tutorial discusses. */
module ParseProofs {
  import opened CText
  import opened NumberGrammar
  import opened Scanner
  import opened LeptJson

  /** `s` is whitespace, then one scalar of type `tag` at `s[a..b]`, then
      whitespace; a number is one that strtod converts in range. */
  ghost predicate SingularAt(s: seq<char>, a: int, b: int, tag: LeptType, strtod: seq<char> -> Double) {
    0 <= a < b <= |s| && AllWhitespace(s[..a]) && IsScalar(s[a..b], tag) && AllWhitespace(s[b..]) &&
    (tag == Number ==> strtod(s[a..]).Finite?)
  }

  ghost predicate IsSingular(s: seq<char>, tag: LeptType, strtod: seq<char> -> Double) {
    exists a, b :: SingularAt(s, a, b, tag, strtod)
  }

  /** Every number starts with '-' or a digit. */
  lemma NumberHead(t: seq<char>)
    requires IsNumber(t)
    ensures |t| >= 1 && (t[0] == '-' || IsDigit(t[0]))
  {
  }

  /** A scalar starts with a character that is neither whitespace nor the
      terminator, and its first character tells which literal it is. */
  lemma ScalarHead(t: seq<char>, tag: LeptType)
    requires IsScalar(t, tag)
    ensures |t| >= 1 && !IsWhitespace(t[0]) && t[0] != '\0'
    ensures tag == Null <==> t[0] == 'n'
    ensures tag == True <==> t[0] == 't'
    ensures tag == False <==> t[0] == 'f'
  {
  }

  /** Leading whitespace before a non-whitespace character at `a` is skipped
      up to `a`. */
  lemma SkipLeading(s: seq<char>, a: nat)
    requires a < |s| && AllWhitespace(s[..a]) && !IsWhitespace(s[a])
    ensures SkipWhitespace(s, 0) == a
  {
    forall k | 0 <= k < a
      ensures IsWhitespace(At(s, k))
    {
      assert s[..a][k] == s[k];
    }
    assert !IsWhitespace(At(s, a));
  }

  /** Trailing whitespace is skipped to the terminator. */
  lemma SkipTrailing(s: seq<char>, b: nat)
    requires b <= |s| && AllWhitespace(s[b..])
    ensures SkipWhitespace(s, b) == |s|
  {
  }

  /** What the skipper passes over is whitespace, as a slice. */
  lemma SkippedIsWhitespace(s: seq<char>, i: nat, j: nat)
    requires i <= j <= |s| && forall k :: i <= k < j ==> IsWhitespace(At(s, k))
    ensures AllWhitespace(s[i..j])
  {
    forall k | 0 <= k < j - i
      ensures IsWhitespace(s[i..j][k])
    {
      assert s[i..j][k] == At(s, i + k);
    }
  }

  /** A scalar that starts at `a` and, if a number, is not extended by the
      character after it, is what the dispatcher at `a` recognizes. */
  lemma ScalarRecognized(s: seq<char>, a: nat, b: nat, tag: LeptType, w: LeptValue, strtod: seq<char> -> Double)
    requires a < b <= |s| && IsScalar(s[a..b], tag)
    requires tag == Number ==> !ContinuesNumber(At(s, b))
    ensures ValueStep(s, a, w, strtod).status == Ok || ValueStep(s, a, w, strtod).status == NumberTooBig
    ensures ValueStep(s, a, w, strtod).status == Ok ==>
              ValueStep(s, a, w, strtod).pos == b && ValueStep(s, a, w, strtod).v.tag == tag
  {
    ScalarHead(s[a..b], tag);
    assert s[a..b][0] == s[a];
    if tag == Number {
      NumberHead(s[a..b]);
      NumberEndCovers(s, a, b);
    } else {
      assert s[a..b] == s[a..a + (b - a)];
    }
  }

  /** An OK result of type `tag` comes from a singular text: the value
      spans from the first non-whitespace character to the cursor, and only
      whitespace follows. */
  lemma ParseOkSound(s: seq<char>, v: LeptValue, strtod: seq<char> -> Double)
    returns (a: nat, b: nat)
    requires IsCString(s) && ParseSpec(s, v, strtod).status == Ok
    ensures SingularAt(s, a, b, ParseSpec(s, v, strtod).v.tag, strtod)
  {
    a := SkipWhitespace(s, 0);
    var st := ValueStep(s, a, v.(tag := Null), strtod);
    b := st.pos;
    assert SkipWhitespace(s, b) == |s|;
    SkippedIsWhitespace(s, 0, a);
    SkippedIsWhitespace(s, b, |s|);
    assert s[0..a] == s[..a] && s[b..|s|] == s[b..];
  }

  /** A singular text is parsed OK, with the type of its scalar. */
  lemma ParseOkComplete(s: seq<char>, v: LeptValue, strtod: seq<char> -> Double, a: nat, b: nat, tag: LeptType)
    requires SingularAt(s, a, b, tag, strtod)
    ensures ParseSpec(s, v, strtod).status == Ok && ParseSpec(s, v, strtod).v.tag == tag
  {
    ScalarHead(s[a..b], tag);
    assert s[a..b][0] == s[a];
    SkipLeading(s, a);
    SkipTrailing(s, b);
    assert At(s, b) == '\0' || s[b..][0] == s[b];
    ScalarRecognized(s, a, b, tag, v.(tag := Null), strtod);
  }

  /** lept_parse returns OK with type `tag` exactly when the text is one
      scalar of that type between whitespace (and, for a number, strtod does
      not overflow on it). */
  lemma ParseOkIff(s: seq<char>, v: LeptValue, strtod: seq<char> -> Double, tag: LeptType)
    requires IsCString(s)
    ensures (ParseSpec(s, v, strtod).status == Ok && ParseSpec(s, v, strtod).v.tag == tag)
            <==> IsSingular(s, tag, strtod)
  {
    if ParseSpec(s, v, strtod).status == Ok && ParseSpec(s, v, strtod).v.tag == tag {
      var a, b := ParseOkSound(s, v, strtod);
    }
    if IsSingular(s, tag, strtod) {
      var a, b :| SingularAt(s, a, b, tag, strtod);
      ParseOkComplete(s, v, strtod, a, b, tag);
    }
  }

  /** EXPECT_VALUE is returned exactly for empty or whitespace-only text. */
  lemma ParseExpectValueIff(s: seq<char>, v: LeptValue, strtod: seq<char> -> Double)
    requires IsCString(s)
    ensures ParseSpec(s, v, strtod).status == ExpectValue <==> AllWhitespace(s)
  {
    var i := SkipWhitespace(s, 0);
    if AllWhitespace(s) {
      assert s[0..] == s;
      SkipTrailing(s, 0);
    }
    if ParseSpec(s, v, strtod).status == ExpectValue {
      SkippedIsWhitespace(s, 0, |s|);
      assert s[0..|s|] == s;
    }
  }

  /** A text that lept_parse rejects with INVALID_VALUE holds no scalar at
      its first non-whitespace character, except a number that the character
      after it would extend (as in `1.` or `1e`). */
  lemma ParseInvalidValueHasNoScalar(s: seq<char>, v: LeptValue, strtod: seq<char> -> Double, b: nat, tag: LeptType)
    requires ParseSpec(s, v, strtod).status == InvalidValue
    requires SkipWhitespace(s, 0) <= b <= |s|
    ensures !IsScalar(s[SkipWhitespace(s, 0)..b], tag) || (tag == Number && ContinuesNumber(At(s, b)))
  {
    var a := SkipWhitespace(s, 0);
    var st := ValueStep(s, a, v.(tag := Null), strtod);
    assert st.status == InvalidValue;
    if IsScalar(s[a..b], tag) {
      ScalarHead(s[a..b], tag);
      if tag == Number ==> !ContinuesNumber(At(s, b)) {
        ScalarRecognized(s, a, b, tag, v.(tag := Null), strtod);
      }
    }
  }

  /** ROOT_NOT_SINGULAR: a whole scalar was recognized after the leading
      whitespace, and something other than whitespace follows it. */
  lemma ParseRootNotSingularWitness(s: seq<char>, v: LeptValue, strtod: seq<char> -> Double)
    returns (a: nat, b: nat, tag: LeptType)
    requires ParseSpec(s, v, strtod).status == RootNotSingular
    ensures a < b <= |s| && AllWhitespace(s[..a]) && IsScalar(s[a..b], tag)
    ensures !AllWhitespace(s[b..])
  {
    a := SkipWhitespace(s, 0);
    var st := ValueStep(s, a, v.(tag := Null), strtod);
    b, tag := st.pos, st.v.tag;
    SkippedIsWhitespace(s, 0, a);
    assert s[0..a] == s[..a];
    var j := SkipWhitespace(s, b);
    assert s[b..][j - b] == s[j];
  }

  /** Conversely, a complete scalar after the leading whitespace that is
      followed by something other than whitespace (and, for a number, by a
      character that cannot extend it, and converted in range) gives
      ROOT_NOT_SINGULAR, as `true x` and `truee` do. */
  lemma ParseRootNotSingularFromTrailing(s: seq<char>, v: LeptValue, strtod: seq<char> -> Double, a: nat, b: nat, tag: LeptType)
    requires IsCString(s) && a < b < |s| && AllWhitespace(s[..a]) && IsScalar(s[a..b], tag)
    requires !IsWhitespace(s[b])
    requires tag == Number ==> !ContinuesNumber(s[b]) && strtod(s[a..]).Finite?
    ensures ParseSpec(s, v, strtod).status == RootNotSingular
  {
    ScalarHead(s[a..b], tag);
    assert s[a..b][0] == s[a];
    SkipLeading(s, a);
    ScalarRecognized(s, a, b, tag, v.(tag := Null), strtod);
  }

  /** NUMBER_TOO_BIG: a valid number follows the leading whitespace, and
      strtod overflows on the text from its first character on. */
  lemma ParseNumberTooBigWitness(s: seq<char>, v: LeptValue, strtod: seq<char> -> Double)
    returns (a: nat, b: nat)
    requires ParseSpec(s, v, strtod).status == NumberTooBig
    ensures a < b <= |s| && AllWhitespace(s[..a]) && IsNumber(s[a..b])
    ensures strtod(s[a..]).HugeVal?
  {
    a := SkipWhitespace(s, 0);
    b := NumberEnd(s, a).value;
    SkippedIsWhitespace(s, 0, a);
    assert s[0..a] == s[..a];
    NumberEndSound(s, a);
  }

  /** The literals, with and without surrounding whitespace. */
  lemma LiteralExamples(v: LeptValue, strtod: seq<char> -> Double)
    ensures ParseSpec("null", v, strtod) == Parsed(Ok, v.(tag := Null))
    ensures ParseSpec("true", v, strtod) == Parsed(Ok, v.(tag := True))
    ensures ParseSpec("false", v, strtod) == Parsed(Ok, v.(tag := False))
    ensures ParseSpec("  true  ", v, strtod) == Parsed(Ok, v.(tag := True))
  {
  }

  /** The ways a literal goes wrong, and texts with no value. */
  lemma LiteralErrorExamples(v: LeptValue, strtod: seq<char> -> Double)
    ensures ParseSpec("tru", v, strtod) == Parsed(InvalidValue, v.(tag := Null))
    ensures ParseSpec("nul", v, strtod).status == InvalidValue
    ensures ParseSpec("truee", v, strtod) == Parsed(RootNotSingular, v.(tag := Null))
    ensures ParseSpec("true x", v, strtod).status == RootNotSingular
    ensures ParseSpec("", v, strtod).status == ExpectValue
    ensures ParseSpec(" \t\n\r", v, strtod).status == ExpectValue
  {
  }

  /** Numbers the validator rejects: no integer part; then a '.' or an
      exponent marker or sign without digits after it. */
  lemma InvalidIntegerExamples(v: LeptValue, strtod: seq<char> -> Double)
    ensures ParseSpec(".1", v, strtod).status == InvalidValue
    ensures ParseSpec("+1", v, strtod).status == InvalidValue
    ensures ParseSpec("-", v, strtod).status == InvalidValue
    ensures ParseSpec("INF", v, strtod).status == InvalidValue
  {
  }

  lemma InvalidFractionExponentExamples(v: LeptValue, strtod: seq<char> -> Double)
    ensures ParseSpec("1.", v, strtod).status == InvalidValue
    ensures ParseSpec("1e", v, strtod).status == InvalidValue
    ensures ParseSpec("1e+", v, strtod).status == InvalidValue
  {
  }

  /** After a leading '0' the validator stops at once, so `0123` has
      trailing content. */
  lemma LeadingZeroExample(v: LeptValue, strtod: seq<char> -> Double)
    requires strtod("0123").Finite?
    ensures NumberEnd("0123", 0) == Some(1)
    ensures ParseSpec("0123", v, strtod) == Parsed(RootNotSingular, LeptValue(Null, strtod("0123")))
  {
  }

  /** `0` and `-0` are numbers when strtod converts them in range. */
  lemma ZeroExamples(v: LeptValue, strtod: seq<char> -> Double)
    requires strtod("0").Finite? && strtod("-0").Finite?
    ensures ParseSpec("0", v, strtod) == Parsed(Ok, LeptValue(Number, strtod("0")))
    ensures ParseSpec("-0", v, strtod) == Parsed(Ok, LeptValue(Number, strtod("-0")))
  {
    assert NumberEnd("0", 0) == Some(1);
    assert NumberEnd("-0", 0) == Some(2);
  }

  /** A number with fraction and signed exponent between whitespace is
      converted from its first character on. */
  lemma FractionExponentExample(v: LeptValue, strtod: seq<char> -> Double)
    requires strtod("1.5e-3 ").Finite?
    ensures ParseSpec(" 1.5e-3 ", v, strtod) == Parsed(Ok, LeptValue(Number, strtod("1.5e-3 ")))
  {
    var s := " 1.5e-3 ";
    assert SkipWhitespace(s, 0) == 1;
    assert IntEnd(s, 1) == Some(2);
    assert FracEnd(s, 2) == Some(4);
    assert ExpEnd(s, 4) == Some(7);
    assert s[1..] == "1.5e-3 ";
    assert SkipWhitespace(s, 7) == 8;
  }

  /** An out-of-range number is NUMBER_TOO_BIG and leaves the type NULL. */
  lemma TooBigExample(v: LeptValue, strtod: seq<char> -> Double)
    requires strtod("1e309").HugeVal?
    ensures ParseSpec("1e309", v, strtod) == Parsed(NumberTooBig, LeptValue(Null, strtod("1e309")))
  {
  }

  /** strtod is applied to the text from the cursor on, not to the validated
      token: in `0123e400` the token is `0`, yet an overflow of strtod on the
      whole text makes the result NUMBER_TOO_BIG rather than
      ROOT_NOT_SINGULAR. */
  lemma ConversionReadsPastToken(v: LeptValue, strtod: seq<char> -> Double)
    requires strtod("0123e400").HugeVal?
    ensures NumberEnd("0123e400", 0) == Some(1)
    ensures ParseSpec("0123e400", v, strtod).status == NumberTooBig
  {
  }
}
