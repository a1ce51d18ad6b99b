/** The parser of leptjson.c (tutorial 2): `null`, `true`, `false` and
    numbers. The caller's value slot (lept_value) and the parse context
    (lept_context) are objects whose fields the parsing methods update in
    place; each method is proved against a pure step function on the text,
    and the step functions carry what the parser promises. */
module LeptJson {
  import opened CText
  import opened NumberGrammar
  import opened Scanner

  /** lept_type, as far as this parser produces it. */
  datatype LeptType = Null | False | True | Number

  /** The LEPT_PARSE_* result codes. */
  datatype Status = Ok | ExpectValue | InvalidValue | RootNotSingular | NumberTooBig

  /** A double as strtod returns it: a finite value, or HUGE_VAL / -HUGE_VAL
      when the text is out of range. */
  datatype Double = Finite(x: real) | HugeVal(negative: bool)

  /** The contents of a value slot: its tag and its number field. */
  datatype LeptValue = LeptValue(tag: LeptType, n: Double)

  /** Outcome of one parsing routine: result code, cursor and value slot. */
  datatype Step = Step(status: Status, pos: nat, v: LeptValue)

  /** Outcome of lept_parse: result code and value slot. */
  datatype Parsed = Parsed(status: Status, v: LeptValue)

  /** `t` is a complete JSON scalar whose value has type `tag`. */
  ghost predicate IsScalar(t: seq<char>, tag: LeptType) {
    match tag
    case Null => t == "null"
    case True => t == "true"
    case False => t == "false"
    case Number => IsNumber(t)
  }

  /** The text at `i` begins with the whole keyword `word`. */
  predicate MatchesAt(s: seq<char>, i: nat, word: seq<char>) {
    i + |word| <= |s| && s[i..i + |word|] == word
  }

  /** The first index `m >= k` at which the keyword and the text at `i`
      differ, or |word| when they agree from `k` on. */
  function MismatchIndex(s: seq<char>, i: nat, word: seq<char>, k: nat): (m: nat)
    requires k <= |word|
    decreases |word| - k
    ensures k <= m <= |word|
    ensures forall p :: k <= p < m ==> At(s, i + p) == word[p]
    ensures m < |word| ==> At(s, i + m) != word[m]
  {
    if k == |word| || At(s, i + k) != word[k] then k else MismatchIndex(s, i, word, k + 1)
  }

  /** A keyword matched from its first character up to, not including, the
      first mismatch `m`: the characters matched lie in the text, and the
      whole keyword matched exactly when there is no mismatch. */
  lemma MismatchFacts(s: seq<char>, i: nat, word: seq<char>, m: nat)
    requires 1 <= m <= |word| && '\0' !in word
    requires forall p :: 0 <= p < m ==> At(s, i + p) == word[p]
    requires m < |word| ==> At(s, i + m) != word[m]
    ensures i + m <= |s| && s[i..i + m] == word[..m]
    ensures m == |word| <==> MatchesAt(s, i, word)
  {
    assert word[m - 1] in word && At(s, i + m - 1) == word[m - 1];
    assert forall p :: 0 <= p < m ==> s[i..i + m][p] == word[..m][p] by {
      forall p | 0 <= p < m
        ensures s[i..i + m][p] == word[..m][p]
      {
        assert At(s, i + p) == word[p];
      }
    }
  }

  /** lept_parse_literal: the cursor at `i` already holds word[0]. */
  function LiteralStep(s: seq<char>, i: nat, word: seq<char>, tag: LeptType, v: LeptValue): (st: Step)
    requires 1 <= |word| && '\0' !in word && At(s, i) == word[0]
    ensures st.status == Ok <==> MatchesAt(s, i, word)
    ensures st.status == Ok ==> st.pos == i + |word| && st.v == v.(tag := tag)
    ensures st.status != Ok ==>
              st.status == InvalidValue && st.v == v && i < st.pos < i + |word| && st.pos <= |s| &&
              s[i..st.pos] == word[..st.pos - i] && At(s, st.pos) != word[st.pos - i]
  {
    var m := MismatchIndex(s, i, word, 1);
    MismatchFacts(s, i, word, m);
    if m == |word| then Step(Ok, i + |word|, v.(tag := tag)) else Step(InvalidValue, i + m, v)
  }

  /** lept_parse_number: validate, then convert the text from the cursor on
      with `strtod`; an out-of-range conversion is NUMBER_TOO_BIG. */
  function NumberStep(s: seq<char>, i: nat, v: LeptValue, strtod: seq<char> -> Double): (st: Step)
    requires i <= |s|
    ensures st.status == InvalidValue <==> NumberEnd(s, i).None?
    ensures st.status == NumberTooBig <==> NumberEnd(s, i).Some? && strtod(s[i..]).HugeVal?
    ensures st.status == Ok || st.status == InvalidValue || st.status == NumberTooBig
    ensures st.status == Ok ==>
              i < st.pos <= |s| && IsNumber(s[i..st.pos]) &&
              st.v == LeptValue(Number, strtod(s[i..])) && st.v.n.Finite?
    ensures st.status == Ok ==> NumberEnd(s, i) == Some(st.pos)
    ensures st.status == NumberTooBig ==> st.v == v.(n := strtod(s[i..]))
    ensures st.status != Ok ==> st.pos == i && st.v.tag == v.tag
    ensures st.status == InvalidValue ==> st.v == v
  {
    NumberEndSound(s, i);
    match NumberEnd(s, i)
    case None => Step(InvalidValue, i, v)
    case Some(e) =>
      var d := strtod(s[i..]);
      if d.HugeVal? then Step(NumberTooBig, i, v.(n := d)) else Step(Ok, e, LeptValue(Number, d))
  }

  /** lept_parse_value: dispatch on the character at the cursor. */
  function ValueStep(s: seq<char>, i: nat, v: LeptValue, strtod: seq<char> -> Double): (st: Step)
    requires i <= |s|
    ensures st.status == ExpectValue <==> At(s, i) == '\0'
    ensures st.status != RootNotSingular
    ensures st.status == Ok ==>
              i < st.pos <= |s| && IsScalar(s[i..st.pos], st.v.tag) &&
              (st.v.tag == Number ==> st.v.n == strtod(s[i..]) && st.v.n.Finite?) &&
              (st.v.tag != Number ==> st.v.n == v.n)
    ensures st.status != Ok ==> st.v.tag == v.tag
  {
    match At(s, i)
    case 't' => LiteralStep(s, i, "true", True, v)
    case 'f' => LiteralStep(s, i, "false", False, v)
    case 'n' => LiteralStep(s, i, "null", Null, v)
    case '\0' => Step(ExpectValue, i, v)
    case _ => NumberStep(s, i, v, strtod)
  }

  /** lept_parse on the text `s`, with `v` the slot's contents on entry. */
  function ParseSpec(s: seq<char>, v: LeptValue, strtod: seq<char> -> Double): (p: Parsed)
    ensures p.status != Ok ==> p.v.tag == Null
    ensures p.status == Ok && p.v.tag == Number ==> p.v.n.Finite?
  {
    var st := ValueStep(s, SkipWhitespace(s, 0), v.(tag := Null), strtod);
    if st.status != Ok then Parsed(st.status, st.v)
    else if At(s, SkipWhitespace(s, st.pos)) != '\0' then Parsed(RootNotSingular, st.v.(tag := Null))
    else Parsed(Ok, st.v)
  }

  /** lept_value: the caller's value slot. */
  class Value {
    var tag: LeptType
    var n: Double

    function Model(): LeptValue
      reads this
    {
      LeptValue(tag, n)
    }
  }

  /** lept_context: the text being parsed and the cursor into it. */
  class Context {
    const text: seq<char>
    var cursor: nat

    ghost predicate Valid()
      reads this
    {
      cursor <= |text|
    }

    constructor (json: seq<char>)
      ensures Valid() && text == json && cursor == 0
    {
      text := json;
      cursor := 0;
    }

    /** lept_parse_whitespace */
    method ParseWhitespace()
      requires Valid()
      modifies this
      ensures Valid() && cursor == SkipWhitespace(text, old(cursor))
    {
      var p := cursor;
      while IsWhitespace(At(text, p))
        invariant p <= |text|
        invariant SkipWhitespace(text, p) == SkipWhitespace(text, cursor)
        decreases |text| - p
      {
        p := p + 1;
      }
      cursor := p;
    }

    /** lept_parse_literal */
    method ParseLiteral(v: Value, word: seq<char>, tag: LeptType) returns (r: Status)
      requires Valid() && 1 <= |word| && '\0' !in word && At(text, cursor) == word[0]
      modifies this, v
      ensures Valid()
      ensures var st := LiteralStep(text, old(cursor), word, tag, old(v.Model()));
              r == st.status && cursor == st.pos && v.Model() == st.v
    {
      ghost var start := cursor;
      cursor := cursor + 1;
      var i := 1;
      while i != |word|
        invariant 1 <= i <= |word|
        invariant cursor == start + i <= |text|
        invariant MismatchIndex(text, start, word, i) == MismatchIndex(text, start, word, 1)
        modifies this
      {
        if At(text, cursor) != word[i] {
          return InvalidValue;
        }
        cursor := cursor + 1;
        i := i + 1;
      }
      v.tag := tag;
      return Ok;
    }

    /** Integer block of lept_parse_number: a lone '0', or a nonzero digit
        and the digits after it. */
    method ScanInt(p: nat) returns (r: Option<nat>)
      requires p <= |text|
      ensures r == IntEnd(text, p)
    {
      var tmp := p;
      if IsDigit1To9(At(text, tmp)) {
        tmp := tmp + 1;
        while IsDigit(At(text, tmp))
          invariant p < tmp <= |text|
          invariant SkipDigits(text, tmp) == SkipDigits(text, p + 1)
          decreases |text| - tmp
        {
          tmp := tmp + 1;
        }
      } else if At(text, tmp) == '0' {
        tmp := tmp + 1;
      } else {
        return None;
      }
      return Some(tmp);
    }

    /** Fraction block of lept_parse_number: '.' and one or more digits. */
    method ScanFrac(p: nat) returns (r: Option<nat>)
      requires p <= |text|
      ensures r == FracEnd(text, p)
    {
      var tmp := p;
      if At(text, tmp) == '.' {
        tmp := tmp + 1;
        if !IsDigit(At(text, tmp)) {
          return None;
        }
        while IsDigit(At(text, tmp))
          invariant p < tmp <= |text|
          invariant SkipDigits(text, tmp) == SkipDigits(text, p + 1)
          decreases |text| - tmp
        {
          tmp := tmp + 1;
        }
      }
      return Some(tmp);
    }

    /** Exponent block of lept_parse_number: 'e' or 'E', an optional sign
        and one or more digits. */
    method ScanExp(p: nat) returns (r: Option<nat>)
      requires p <= |text|
      ensures r == ExpEnd(text, p)
    {
      var tmp := p;
      if At(text, tmp) == 'e' || At(text, tmp) == 'E' {
        tmp := tmp + 1;
        if At(text, tmp) == '+' || At(text, tmp) == '-' {
          tmp := tmp + 1;
        }
        if !IsDigit(At(text, tmp)) {
          return None;
        }
        ghost var d := tmp;
        while IsDigit(At(text, tmp))
          invariant d <= tmp <= |text|
          invariant SkipDigits(text, tmp) == SkipDigits(text, d)
          decreases |text| - tmp
        {
          tmp := tmp + 1;
        }
      }
      return Some(tmp);
    }

    /** The validation part of lept_parse_number: a local pointer runs over
        the optional '-' and the three blocks; the cursor stays where it is. */
    method ValidateNumber() returns (r: Option<nat>)
      requires Valid()
      ensures r == NumberEnd(text, cursor)
    {
      var tmp := cursor;
      if At(text, tmp) == '-' {
        tmp := tmp + 1;
      }
      var intEnd := ScanInt(tmp);
      if intEnd.None? {
        return None;
      }
      var fracEnd := ScanFrac(intEnd.value);
      if fracEnd.None? {
        return None;
      }
      r := ScanExp(fracEnd.value);
    }

    /** lept_parse_number: validate first; only a valid token is converted,
        and only an in-range conversion moves the cursor and sets the tag. */
    method ParseNumber(v: Value, strtod: seq<char> -> Double) returns (r: Status)
      requires Valid()
      modifies this, v
      ensures Valid()
      ensures var st := NumberStep(text, old(cursor), old(v.Model()), strtod);
              r == st.status && cursor == st.pos && v.Model() == st.v
    {
      var end := ValidateNumber();
      if end.None? {
        return InvalidValue;
      }
      var x := strtod(text[cursor..]);
      v.n := x;
      if x.HugeVal? {
        return NumberTooBig;
      }
      cursor := end.value;
      v.tag := Number;
      return Ok;
    }

    /** lept_parse_value */
    method ParseValue(v: Value, strtod: seq<char> -> Double) returns (r: Status)
      requires Valid()
      modifies this, v
      ensures Valid()
      ensures var st := ValueStep(text, old(cursor), old(v.Model()), strtod);
              r == st.status && cursor == st.pos && v.Model() == st.v
    {
      match At(text, cursor)
      case 't' => r := ParseLiteral(v, "true", True);
      case 'f' => r := ParseLiteral(v, "false", False);
      case 'n' => r := ParseLiteral(v, "null", Null);
      case '\0' => r := ExpectValue;
      case _ => r := ParseNumber(v, strtod);
    }
  }

  /** lept_parse: parse the C string `json` into the slot `v`. */
  method Parse(v: Value, json: seq<char>, strtod: seq<char> -> Double) returns (r: Status)
    modifies v
    ensures var p := ParseSpec(json, old(v.Model()), strtod);
            r == p.status && v.Model() == p.v
    ensures r != Ok ==> v.tag == Null
  {
    var c := new Context(json);
    v.tag := Null;
    c.ParseWhitespace();
    r := c.ParseValue(v, strtod);
    if r == Ok {
      c.ParseWhitespace();
      if At(c.text, c.cursor) != '\0' {
        v.tag := Null;
        r := RootNotSingular;
      }
    }
  }

  /** lept_get_type */
  function GetType(v: Value): (t: LeptType)
    reads v
    ensures t == v.Model().tag
  {
    v.tag
  }

  /** lept_get_number: only a NUMBER value may be asked for its number. */
  function GetNumber(v: Value): (d: Double)
    reads v
    requires v.tag == Number
    ensures d == v.Model().n
  {
    v.n
  }
}
