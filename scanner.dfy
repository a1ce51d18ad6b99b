/** The positions the scanning loops of leptjson.c stop at, as functions of
    the text and a start index: the whitespace run of lept_parse_whitespace
    and the validation part of lept_parse_number. The loops of the parser
    classes are proved to stop exactly here; the lemmas below prove that the
    number scan agrees with the RFC 8259 grammar of NumberGrammar. */
module Scanner {
  import opened CText
  import opened NumberGrammar

  datatype Option<T> = None | Some(value: T)

  /** Where a cursor at `i` stops after skipping space, tab, LF and CR: the
      first position at or after `i` that holds none of them (possibly the
      terminator). */
  function SkipWhitespace(s: seq<char>, i: nat): (j: nat)
    decreases |s| - i
    ensures i <= j
    ensures forall k :: i <= k < j ==> IsWhitespace(At(s, k))
    ensures !IsWhitespace(At(s, j))
    ensures i <= |s| ==> j <= |s|
  {
    if IsWhitespace(At(s, i)) then SkipWhitespace(s, i + 1) else i
  }

  /** Where a `while (IS_DIGIT(*tmp)) tmp++;` loop started at `i` stops. */
  function SkipDigits(s: seq<char>, i: nat): (j: nat)
    decreases |s| - i
    ensures i <= j
    ensures forall k :: i <= k < j ==> IsDigit(At(s, k))
    ensures !IsDigit(At(s, j))
    ensures i <= |s| ==> j <= |s|
  {
    if IsDigit(At(s, i)) then SkipDigits(s, i + 1) else i
  }

  /** Sign step: past a leading '-' if there is one. */
  function MinusEnd(s: seq<char>, i: nat): (a: nat)
    requires i <= |s|
    ensures i <= a <= |s| && IsMinusPart(s[i..a])
    ensures a == i + 1 <==> At(s, i) == '-'
  {
    if At(s, i) == '-' then i + 1 else i
  }

  /** Integer step: a lone '0', or a nonzero digit and every digit after it;
      None (INVALID_VALUE) when no digit starts the integer part. */
  function IntEnd(s: seq<char>, a: nat): (r: Option<nat>)
    requires a <= |s|
    ensures r.None? <==> !IsDigit(At(s, a))
    ensures r.Some? ==> a < r.value <= |s|
  {
    if IsDigit1To9(At(s, a)) then Some(SkipDigits(s, a + 1))
    else if At(s, a) == '0' then Some(a + 1)
    else None
  }

  /** Fraction step: nothing unless a '.' is next; after a '.', one or more
      digits, else None (INVALID_VALUE). */
  function FracEnd(s: seq<char>, b: nat): (r: Option<nat>)
    requires b <= |s|
    ensures r.None? <==> At(s, b) == '.' && !IsDigit(At(s, b + 1))
    ensures r.Some? ==> b <= r.value <= |s|
    ensures r.Some? && At(s, b) == '.' ==> b + 1 < r.value
  {
    if At(s, b) == '.' then
      if IsDigit(At(s, b + 1)) then Some(SkipDigits(s, b + 1)) else None
    else
      Some(b)
  }

  /** Position of the first exponent digit after the marker at `c` and an
      optional sign. */
  function ExpDigitsStart(s: seq<char>, c: nat): nat {
    if At(s, c + 1) == '+' || At(s, c + 1) == '-' then c + 2 else c + 1
  }

  /** Exponent step: nothing unless 'e' or 'E' is next; after the marker and
      an optional sign, one or more digits, else None (INVALID_VALUE). */
  function ExpEnd(s: seq<char>, c: nat): (r: Option<nat>)
    requires c <= |s|
    ensures r.None? <==> (At(s, c) == 'e' || At(s, c) == 'E') && !IsDigit(At(s, ExpDigitsStart(s, c)))
    ensures r.Some? ==> c <= r.value <= |s|
    ensures r.Some? && (At(s, c) == 'e' || At(s, c) == 'E') ==> c + 1 < r.value
  {
    if At(s, c) == 'e' || At(s, c) == 'E' then
      var d := ExpDigitsStart(s, c);
      if IsDigit(At(s, d)) then Some(SkipDigits(s, d)) else None
    else
      Some(c)
  }

  /** What the integer step accepts is an RFC 8259 integer part. */
  lemma IntEndSound(s: seq<char>, a: nat)
    requires a <= |s| && IntEnd(s, a).Some?
    ensures IsIntPart(s[a..IntEnd(s, a).value])
  {
    var b := IntEnd(s, a).value;
    var u := s[a..b];
    assert u[0] == At(s, a);
    if IsDigit1To9(At(s, a)) {
      forall k | 1 <= k < |u|
        ensures IsDigit(u[k])
      {
        assert u[k] == At(s, a + k);
      }
    }
  }

  /** What the fraction step accepts is an RFC 8259 fraction part. */
  lemma FracEndSound(s: seq<char>, b: nat)
    requires b <= |s| && FracEnd(s, b).Some?
    ensures IsFracPart(s[b..FracEnd(s, b).value])
  {
    var c := FracEnd(s, b).value;
    var u := s[b..c];
    if At(s, b) == '.' {
      assert u[0] == At(s, b);
      forall k | 1 <= k < |u|
        ensures IsDigit(u[k])
      {
        assert u[k] == At(s, b + k);
      }
    }
  }

  /** What the exponent step accepts is an RFC 8259 exponent part. */
  lemma ExpEndSound(s: seq<char>, c: nat)
    requires c <= |s| && ExpEnd(s, c).Some?
    ensures IsExpPart(s[c..ExpEnd(s, c).value])
  {
    var e := ExpEnd(s, c).value;
    var u := s[c..e];
    if At(s, c) == 'e' || At(s, c) == 'E' {
      var d := ExpDigitsStart(s, c);
      assert u[0] == At(s, c) && u[1] == At(s, c + 1);
      assert ExpDigitsIndex(u) == d - c;
      forall k | d - c <= k < |u|
        ensures IsDigit(u[k])
      {
        assert u[k] == At(s, c + k);
      }
    }
  }

  /** The validation part of lept_parse_number: the end of the number token
      starting at `i`, or None when the validator returns INVALID_VALUE. */
  function NumberEnd(s: seq<char>, i: nat): (r: Option<nat>)
    requires i <= |s|
    ensures r.Some? ==> i < r.value <= |s|
  {
    match IntEnd(s, MinusEnd(s, i))
    case None => None
    case Some(b) =>
      match FracEnd(s, b)
      case None => None
      case Some(c) => ExpEnd(s, c)
  }

  /** Skipping whitespace a second time does not move the cursor. */
  lemma SkipWhitespaceIdempotent(s: seq<char>, i: nat)
    ensures SkipWhitespace(s, SkipWhitespace(s, i)) == SkipWhitespace(s, i)
  {
  }

  /** A slice of a slice is a slice of the original text. */
  lemma SubSlice(s: seq<char>, i: nat, e: nat, x: nat, y: nat)
    requires i <= x <= y <= e <= |s|
    ensures s[i..e][x - i..y - i] == s[x..y]
    ensures x == i ==> s[i..e][..y - i] == s[x..y]
    ensures y == e ==> s[i..e][x - i..] == s[x..y]
  {
    assert forall k :: 0 <= k < y - x ==> s[i..e][x - i..y - i][k] == s[x..y][k];
  }

  /** Every token the validator accepts is an RFC 8259 number. */
  lemma NumberEndSound(s: seq<char>, i: nat)
    requires i <= |s|
    ensures NumberEnd(s, i).Some? ==> IsNumber(s[i..NumberEnd(s, i).value])
  {
    if NumberEnd(s, i).Some? {
      var a := MinusEnd(s, i);
      var b := IntEnd(s, a).value;
      var c := FracEnd(s, b).value;
      var e := ExpEnd(s, c).value;
      IntEndSound(s, a);
      FracEndSound(s, b);
      ExpEndSound(s, c);
      SubSlice(s, i, e, i, a);
      SubSlice(s, i, e, a, b);
      SubSlice(s, i, e, b, c);
      SubSlice(s, i, e, c, e);
      assert IsNumberSplit(s[i..e], a - i, b - i, c - i);
    }
  }

  /** An integer part `s[a..q]` followed, inside the window ending at `f`, by
      a fraction or an exponent: the integer step stops at `q`, or the part
      reaches `f` and digits beyond the window carry the step past `f`. */
  lemma IntStage(s: seq<char>, a: nat, q: nat, f: nat)
    requires a < q <= f <= |s| && IsIntPart(s[a..q])
    requires q < f ==> s[q] == '.' || s[q] == 'e' || s[q] == 'E'
    ensures IntEnd(s, a).Some?
    ensures IntEnd(s, a).value == q || (q == f && IsDigit(At(s, f)) && IntEnd(s, a).value > f)
  {
    var u := s[a..q];
    assert u[0] == s[a];
    if s[a] != '0' {
      forall k | a + 1 <= k < q
        ensures IsDigit(At(s, k))
      {
        assert u[k - a] == s[k];
      }
      var x := SkipDigits(s, a + 1);
      assert x >= q;
      if !IsDigit(At(s, q)) {
        assert x == q;
      }
    } else {
      assert |u| == 1;
    }
  }

  /** A fraction part `s[p..q]` followed, inside the window, only by an
      exponent: the fraction step stops at `q`, or `q` is the window end and
      what follows it could extend the fraction. */
  lemma FracStage(s: seq<char>, p: nat, q: nat, f: nat)
    requires p <= q <= f <= |s| && IsFracPart(s[p..q])
    requires q < f ==> s[q] == 'e' || s[q] == 'E'
    ensures FracEnd(s, p) == Some(q) ||
            (q == f && (At(s, f) == '.' || IsDigit(At(s, f))) &&
             (FracEnd(s, p).Some? ==> FracEnd(s, p).value > f))
  {
    if p < q {
      var u := s[p..q];
      assert u[0] == s[p];
      forall k | p + 1 <= k < q
        ensures IsDigit(At(s, k))
      {
        assert u[k - p] == s[k];
      }
      assert IsDigit(At(s, p + 1));
      var x := SkipDigits(s, p + 1);
      assert x >= q;
      if !IsDigit(At(s, q)) {
        assert x == q;
      }
    }
  }

  /** An exponent part `s[p..f]` ending the window: the exponent step stops
      at `f`, or what follows `f` could extend the number. */
  lemma ExpStage(s: seq<char>, p: nat, f: nat)
    requires p <= f <= |s| && IsExpPart(s[p..f])
    ensures ExpEnd(s, p) == Some(f) ||
            (ContinuesNumber(At(s, f)) && (ExpEnd(s, p).Some? ==> ExpEnd(s, p).value > f))
  {
    if p < f {
      var u := s[p..f];
      assert u[0] == s[p] && u[1] == s[p + 1];
      var d := ExpDigitsStart(s, p);
      assert d - p == ExpDigitsIndex(u);
      forall k | d <= k < f
        ensures IsDigit(At(s, k))
      {
        assert u[k - p] == s[k];
      }
      var x := SkipDigits(s, d);
      assert x >= f;
      if !IsDigit(At(s, f)) {
        assert x == f;
      }
    }
  }

  /** The first character of a nonempty slice. */
  lemma SliceHead(s: seq<char>, x: nat, y: nat)
    requires x < y <= |s|
    ensures s[x..y][0] == s[x]
  {
  }

  /** The minus part of a split of the window starting at `i`, read in the
      text: one character, and then a '-'. */
  lemma MinusPartAt(s: seq<char>, i: nat, f: nat, k1: nat)
    requires i + k1 <= f <= |s| && IsMinusPart(s[i..f][..k1])
    ensures k1 <= 1 && (k1 == 1 ==> s[i] == '-')
  {
  }

  /** The integer part `s[i..f][k1..k2]` of a split, read in the text. */
  lemma IntPartAt(s: seq<char>, i: nat, f: nat, k1: nat, k2: nat)
    requires i + k1 <= i + k2 <= f <= |s| && IsIntPart(s[i..f][k1..k2])
    ensures k1 < k2 && IsIntPart(s[i + k1..i + k2]) && IsDigit(s[i + k1])
  {
    SubSlice(s, i, f, i + k1, i + k2);
    SliceHead(s, i + k1, i + k2);
  }

  /** The fraction part `s[i..f][k2..k3]` of a split, read in the text: when
      nonempty it starts with '.'. */
  lemma FracPartAt(s: seq<char>, i: nat, f: nat, k2: nat, k3: nat)
    requires i + k2 <= i + k3 <= f <= |s| && IsFracPart(s[i..f][k2..k3])
    ensures IsFracPart(s[i + k2..i + k3]) && (k2 < k3 ==> s[i + k2] == '.')
  {
    SubSlice(s, i, f, i + k2, i + k3);
    if k2 < k3 {
      SliceHead(s, i + k2, i + k3);
    }
  }

  /** The exponent part `s[i..f][k3..]` of a split, read in the text: when
      nonempty it starts with 'e' or 'E'. */
  lemma ExpPartAt(s: seq<char>, i: nat, f: nat, k3: nat)
    requires i + k3 <= f <= |s| && IsExpPart(s[i..f][k3..])
    ensures IsExpPart(s[i + k3..f]) && (i + k3 < f ==> s[i + k3] == 'e' || s[i + k3] == 'E')
  {
    SubSlice(s, i, f, i + k3, f);
    if i + k3 < f {
      SliceHead(s, i + k3, f);
    }
  }

  /** A number `s[i..f]` split into its four parts, at positions relative to
      `i`: the integer part is `s[i + k1..i + k2]`, the fraction
      `s[i + k2..i + k3]`, the exponent `s[i + k3..f]`. */
  lemma SplitPositions(s: seq<char>, i: nat, f: nat) returns (k1: nat, k2: nat, k3: nat)
    requires i <= f <= |s| && IsNumber(s[i..f])
    ensures k1 < k2 <= k3 <= f - i && MinusEnd(s, i) == i + k1
    ensures IsIntPart(s[i + k1..i + k2])
    ensures IsFracPart(s[i + k2..i + k3]) && (k2 < k3 ==> s[i + k2] == '.')
    ensures IsExpPart(s[i + k3..f]) && (i + k3 < f ==> s[i + k3] == 'e' || s[i + k3] == 'E')
  {
    k1, k2, k3 :| IsNumberSplit(s[i..f], k1, k2, k3);
    MinusPartAt(s, i, f, k1);
    IntPartAt(s, i, f, k1, k2);
    FracPartAt(s, i, f, k2, k3);
    ExpPartAt(s, i, f, k3);
  }

  /** If `s[i..f]` is an RFC 8259 number, the validator never stops short of
      `f`, and it stops exactly at `f` when the character there cannot
      extend a number. */
  lemma NumberEndCovers(s: seq<char>, i: nat, f: nat)
    requires i <= f <= |s| && IsNumber(s[i..f])
    ensures NumberEnd(s, i).Some? ==> f <= NumberEnd(s, i).value
    ensures !ContinuesNumber(At(s, f)) ==> NumberEnd(s, i) == Some(f)
  {
    var k1, k2, k3 := SplitPositions(s, i, f);
    StagesCover(s, i, f, i + k1, i + k2, i + k3);
  }

  /** The three validation stages run over the parts of a number split at
      absolute positions `a`, `q2`, `q3` of the window `s[i..f]`. */
  lemma StagesCover(s: seq<char>, i: nat, f: nat, a: nat, q2: nat, q3: nat)
    requires i <= a < q2 <= q3 <= f <= |s| && MinusEnd(s, i) == a
    requires IsIntPart(s[a..q2]) && IsFracPart(s[q2..q3]) && IsExpPart(s[q3..f])
    requires q2 < f ==> s[q2] == '.' || s[q2] == 'e' || s[q2] == 'E'
    requires q3 < f ==> s[q3] == 'e' || s[q3] == 'E'
    ensures NumberEnd(s, i).Some? ==> f <= NumberEnd(s, i).value
    ensures !ContinuesNumber(At(s, f)) ==> NumberEnd(s, i) == Some(f)
  {
    IntStage(s, a, q2, f);
    if IntEnd(s, a).value == q2 {
      FracStage(s, q2, q3, f);
      if FracEnd(s, q2) == Some(q3) {
        ExpStage(s, q3, f);
      }
    }
  }

  /** The validator consumes the longest prefix that is a number: no longer
      prefix of the text is one. */
  lemma NumberEndLongest(s: seq<char>, i: nat, f: nat)
    requires i <= |s| && NumberEnd(s, i).Some? && NumberEnd(s, i).value < f <= |s|
    ensures !IsNumber(s[i..f])
  {
    if IsNumber(s[i..f]) {
      NumberEndCovers(s, i, f);
    }
  }

  /** A whole C string is a number exactly when the validator, started at its
      first character, accepts it up to the terminator. */
  lemma NumberEndWholeText(t: seq<char>)
    ensures NumberEnd(t, 0) == Some(|t|) <==> IsNumber(t)
  {
    assert t[0..|t|] == t;
    NumberEndSound(t, 0);
    if IsNumber(t) {
      NumberEndCovers(t, 0, |t|);
    }
  }
}
