# leptjson, tutorial 2: a verified model of the scalar JSON parser

This project models `tutorial02_my/leptjson.c` of json-tutorial. That file is a
parser for one JSON value that is `null`, `true`, `false` or a number, surrounded
by optional whitespace. The model mirrors the C code routine by routine, and it
proves what the parser promises:

- which texts give each `LEPT_PARSE_*` result code;
- where the cursor stops;
- what the caller's `lept_value` holds afterwards.

Layout:

- `ctext.dfy` (`CText`): the C string seen as characters. `At(s, i)` reads
  the terminator `'\0'` at or past the end of `s`, exactly as the C code does
  when it dereferences its pointer. It also holds the character classes as
  plain predicates: `IsDigit` is `IS_DIGIT` (line 9), `IsDigit1To9` is
  `IS_DIGIT_1_TO_9` (line 10), and `IsWhitespace` is the set of line 18. They
  carry no contract of their own; the contracts below are stated with them.
- `grammar.dfy` (`NumberGrammar`): the number grammar of section 6 of RFC 8259,
  stated declaratively. A token is a number when it splits into an optional
  minus, an integer part, an optional fraction and an optional exponent. This
  is the independent reference for the validator.
- `scanner.dfy` (`Scanner`): the stopping positions of the scanning loops as
  pure functions. `SkipWhitespace` models `lept_parse_whitespace`. `NumberEnd`
  composes the four steps of the validation part of `lept_parse_number`. Lemmas
  prove that the validator accepts exactly RFC 8259 numbers, and that it stops
  at the longest one.
- `leptjson.dfy` (`LeptJson`): the parser itself. `lept_context` is the class
  `Context`, with the text and a cursor that the parsing methods advance in
  place. `lept_value` is the class `Value`, with the fields `tag` and `n` that
  the methods write. Each method's loop is proved against a pure step function
  (`LiteralStep`, `NumberStep`, `ValueStep`, `ParseSpec`). Those functions'
  contracts state the result codes, the cursor movement and which fields are
  written.
- `parse_proofs.dfy` (`ParseProofs`): what `lept_parse` promises about a
  whole text. Each result code is characterised by the grammar. Worked
  examples cover the literals, the rejected numbers, `0123` and overflow.

Modelling decisions:

- A `const char *` argument is a `seq<char>`: the characters before the
  terminator. Reading past the end yields `'\0'`. Where a property needs the
  text to contain no embedded `'\0'`, its lemma requires `IsCString`.
- `strtod` is a parameter, `strtod: seq<char> -> Double`. A `Double` is either
  a finite value or `HUGE_VAL` / `-HUGE_VAL`, so the overflow test of lines
  110-111 is `HugeVal?`. The code calls `strtod(c->json, NULL)` on the text
  from the cursor on, not on the validated token, so the model applies
  `strtod` to `s[i..]`. A consequence is proved in
  `ParseProofs.ConversionReadsPastToken`. In `0123e400` the validated token
  is only `0`, yet an overflow reported by `strtod` on the whole text gives
  `LEPT_PARSE_NUMBER_TOO_BIG` instead of `LEPT_PARSE_ROOT_NOT_SINGULAR`.
- On `truee` the code returns `LEPT_PARSE_ROOT_NOT_SINGULAR`.
  `lept_parse_literal` matches the whole keyword `true`, and the trailing
  `e` is then left over for the root check. A reading of the literal rule as
  "keyword, then a delimiter" would report `LEPT_PARSE_INVALID_VALUE` instead.
  The model follows the code, and `ParseProofs.LiteralErrorExamples` proves
  the code's answer.
- `lept_parse_literal` moves the cursor on a mismatch as well. `LiteralStep`
  records the position of the first differing character. `lept_parse` never
  looks at that position, because it returns at once.
- The C `assert`s become preconditions:
  - `EXPECT` needs the cursor on the keyword's first character;
  - `lept_get_number` needs a `LEPT_NUMBER` value;
  - `v != NULL` holds because a `Value` reference is never null.

## Model

| member | source | states |
|---|---|---|
| Scanner.SkipWhitespace | tutorial02_my/leptjson.c:16-21 | the skip never moves backwards; every character it passes is space, tab, LF or CR; it stops on one that is not; it stays inside the text |
| Scanner.SkipWhitespaceIdempotent | tutorial02_my/leptjson.c:16-21 | skipping whitespace a second time does not move the cursor |
| LeptJson.Context.ParseWhitespace | tutorial02_my/leptjson.c:16-21 | the loop leaves the cursor where `SkipWhitespace` stops, and the context stays valid |
| LeptJson.MismatchIndex | tutorial02_my/leptjson.c:33-37 | the keyword comparison stops at the first position where text and keyword differ, or at the keyword's end |
| LeptJson.MismatchFacts | tutorial02_my/leptjson.c:31-39 | the characters compared before the mismatch lie inside the text and equal the keyword's prefix; no mismatch holds exactly when the whole keyword is present |
| LeptJson.LiteralStep | tutorial02_my/leptjson.c:28-40 | OK exactly when the whole keyword is at the cursor; then the cursor moves past it and only the tag is set; otherwise INVALID_VALUE, the slot is unchanged, and the cursor stops strictly inside the keyword at the first differing character |
| LeptJson.Context.ParseLiteral | tutorial02_my/leptjson.c:28-40 | the `EXPECT` step and the comparison loop give the code, cursor and slot of `LiteralStep` |
| Scanner.MinusEnd | tutorial02_my/leptjson.c:76-77 | one character is skipped exactly when it is '-'; what is skipped is a minus part of the grammar |
| Scanner.SkipDigits | tutorial02_my/leptjson.c:86-87 | the `while (IS_DIGIT(*tmp)) tmp++` loops (also lines 97-98 and 106-107) stop at the first non-digit at or after the start, every character passed being a digit, inside the text |
| Scanner.IntEnd | tutorial02_my/leptjson.c:78-92 | INVALID_VALUE exactly when no digit starts the integer part; otherwise the step advances and stays inside the text |
| Scanner.IntEndSound | tutorial02_my/leptjson.c:78-92 | what the integer step accepts is an RFC 8259 integer part (a lone 0, or a nonzero digit and digits) |
| LeptJson.Context.ScanInt | tutorial02_my/leptjson.c:78-92 | the integer block's loop stops where `IntEnd` says |
| Scanner.FracEnd | tutorial02_my/leptjson.c:93-99 | INVALID_VALUE exactly when a '.' is not followed by a digit; after a '.' at least one digit is consumed |
| Scanner.FracEndSound | tutorial02_my/leptjson.c:93-99 | what the fraction step accepts is empty, or '.' and one or more digits |
| LeptJson.Context.ScanFrac | tutorial02_my/leptjson.c:93-99 | the fraction block's loop stops where `FracEnd` says |
| Scanner.ExpEnd | tutorial02_my/leptjson.c:100-108 | INVALID_VALUE exactly when an exponent marker (and optional sign) is not followed by a digit; after a marker at least one more character is consumed |
| Scanner.ExpEndSound | tutorial02_my/leptjson.c:100-108 | what the exponent step accepts is empty, or 'e'/'E', an optional sign and one or more digits |
| LeptJson.Context.ScanExp | tutorial02_my/leptjson.c:100-108 | the exponent block's loops stop where `ExpEnd` says |
| Scanner.NumberEnd | tutorial02_my/leptjson.c:74-108 | an accepted token is nonempty and lies inside the text |
| Scanner.NumberEndSound | tutorial02_my/leptjson.c:74-108 | every token the validator accepts is an RFC 8259 number |
| Scanner.NumberEndCovers | tutorial02_my/leptjson.c:74-108 | if the text from the cursor to `f` is an RFC 8259 number, the validator does not stop before `f`; it stops exactly at `f` when the next character cannot extend a number |
| Scanner.NumberEndLongest | tutorial02_my/leptjson.c:74-108 | no prefix longer than the accepted token is a number |
| Scanner.NumberEndWholeText | tutorial02_my/leptjson.c:74-108 | a whole C string is accepted up to its terminator exactly when it is an RFC 8259 number |
| LeptJson.Context.ValidateNumber | tutorial02_my/leptjson.c:74-108 | the local pointer runs the four steps and ends where `NumberEnd` says; the cursor is not moved |
| LeptJson.NumberStep | tutorial02_my/leptjson.c:71-114 | INVALID_VALUE exactly when validation fails; NUMBER_TOO_BIG exactly when validation succeeds and `strtod` returns ±HUGE_VAL; on OK the cursor moves to the end of the validated token (line 112), that token is an RFC 8259 number, the tag is NUMBER and the number is the finite conversion; on NUMBER_TOO_BIG only `n` is written; on every error the cursor stays and the tag is not written |
| LeptJson.Context.ParseNumber | tutorial02_my/leptjson.c:71-114 | the method gives the code, cursor and slot of `NumberStep` |
| LeptJson.ValueStep | tutorial02_my/leptjson.c:126-139 | EXPECT_VALUE exactly at the terminator; never ROOT_NOT_SINGULAR; on OK the consumed text is a scalar of the new tag (a finite conversion for a number, and `n` kept for a literal); on error the tag is not written |
| ParseProofs.ScalarRecognized | tutorial02_my/leptjson.c:126-139 | a scalar starting at the cursor (a number not extended by the next character) is recognized by the dispatcher: the result is OK or NUMBER_TOO_BIG, and on OK the cursor lands at its end with its type |
| LeptJson.Context.ParseValue | tutorial02_my/leptjson.c:126-139 | the dispatch on the current character gives the code, cursor and slot of `ValueStep` |
| LeptJson.ParseSpec | tutorial02_my/leptjson.c:141-156 | every result other than OK leaves the tag NULL; an OK number is finite |
| LeptJson.Parse | tutorial02_my/leptjson.c:141-156 | `lept_parse` gives the code and slot of `ParseSpec`; on every error the tag is NULL |
| ParseProofs.ParseOkSound | tutorial02_my/leptjson.c:141-156 | an OK result comes from whitespace, one scalar of the reported type (a number in range), and whitespace |
| ParseProofs.ParseOkComplete | tutorial02_my/leptjson.c:141-156 | every such singular text is parsed OK with its scalar's type |
| ParseProofs.ParseOkIff | tutorial02_my/leptjson.c:141-156 | OK with type `tag` if and only if the text is exactly one scalar of that type between whitespace |
| ParseProofs.ParseExpectValueIff | tutorial02_my/leptjson.c:137 | EXPECT_VALUE if and only if the text is empty or whitespace only |
| ParseProofs.ParseInvalidValueHasNoScalar | tutorial02_my/leptjson.c:126-139 | after INVALID_VALUE, no scalar starts at the first non-whitespace character, except a number that the next character would extend (`1.`, `1e`) |
| ParseProofs.ParseRootNotSingularWitness | tutorial02_my/leptjson.c:148-153 | ROOT_NOT_SINGULAR comes from a complete scalar after the leading whitespace, followed by something other than whitespace |
| ParseProofs.ParseRootNotSingularFromTrailing | tutorial02_my/leptjson.c:148-153 | conversely, a complete scalar after the leading whitespace followed by a character that is not whitespace (and, after a number, cannot extend it, the number being in range) gives ROOT_NOT_SINGULAR |
| ParseProofs.ParseNumberTooBigWitness | tutorial02_my/leptjson.c:109-111 | NUMBER_TOO_BIG comes from a valid number after the leading whitespace on which `strtod` overflows |
| ParseProofs.LiteralExamples | tutorial02_my/leptjson.c:133-135 | `null`, `true`, `false` and `  true  ` parse OK with their types, and `n` is kept |
| ParseProofs.LiteralErrorExamples | tutorial02_my/leptjson.c:28-40 | `tru` and `nul` give INVALID_VALUE; `truee` and `true x` give ROOT_NOT_SINGULAR; empty and whitespace-only text gives EXPECT_VALUE |
| ParseProofs.InvalidIntegerExamples | tutorial02_my/leptjson.c:88-91 | `.1`, `+1`, `-` and `INF` give INVALID_VALUE |
| ParseProofs.InvalidFractionExponentExamples | tutorial02_my/leptjson.c:93-105 | `1.`, `1e` and `1e+` give INVALID_VALUE |
| ParseProofs.LeadingZeroExample | tutorial02_my/leptjson.c:88-89 | the validator stops after the `0` of `0123`, so the text is ROOT_NOT_SINGULAR and only `n` has been written |
| ParseProofs.ZeroExamples | tutorial02_my/leptjson.c:88-89 | `0` and `-0` (a lone zero after an optional minus) parse to NUMBER with the in-range conversion of the text |
| ParseProofs.FractionExponentExample | tutorial02_my/leptjson.c:93-114 | ` 1.5e-3 ` (fraction and signed exponent between whitespace) parses to NUMBER, converted from the number's first character on |
| ParseProofs.TooBigExample | tutorial02_my/leptjson.c:109-111 | `1e309` with an overflowing conversion gives NUMBER_TOO_BIG, tag NULL and `n` written |
| ParseProofs.ConversionReadsPastToken | tutorial02_my/leptjson.c:109-111 | the overflow test judges the text from the cursor on: `0123e400` validates only `0` and still gives NUMBER_TOO_BIG when `strtod` overflows on the rest |
| LeptJson.GetType | tutorial02_my/leptjson.c:158-161 | `lept_get_type` returns the slot's tag |
| LeptJson.GetNumber | tutorial02_my/leptjson.c:163-171 | `lept_get_number` may be called only on a NUMBER value, and returns its number |

## Left out

- `strtod`: its digit-to-double conversion and rounding are not modelled. The
  conversion is a parameter, and only its overflow outcome is distinguished,
  because it is floating point inside the C library.
- The `#if 0` blocks of leptjson.c are not compiled. They are the separate
  `lept_parse_true`/`false`/`null` routines, their dispatch cases, the old
  number conversion and the old combined assert.
- leptjson.h is not part of this model. `lept_type` is modelled only with the
  four tags this parser produces. Its other members belong to later
  tutorials.
- `LEPT_PARSE_INVALID_VALUE` from `strtod` consuming nothing is not modelled.
  Only the disabled `#if 0` conversion returns it.
- Pointers: the context holds an index into the text rather than a pointer,
  and a null `lept_value` cannot be expressed.
