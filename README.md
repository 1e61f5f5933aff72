# Base encoder

A Dafny model of the integer base converter in `session3.py` and of the
duplicate-character check in `helpers.py` that it relies on.

A `BaseEncoder` holds four settings:

- a source base and a target base, each in [2, 36];
- a target digit map, whose length must equal the target base and which must
  have no repeated character;
- a source digit map, which defaults to the first `source_base` characters of
  `0-9A-Z`.

`encode` takes an integer when the source base is 10. Otherwise it takes a
digit string, which it first reads into an integer with `decode_to_decimal`
(Horner's rule over the source digit map). It then writes the magnitude out
by repeated `%` and `//` in the target base and puts back a `-` for negative
numbers. `encoded_from_base10(n, base, digit_map)` builds an encoder from
base 10 and encodes `n`.

Nothing stops `-` from being a digit of the digit map. When it is one, the sign
cannot be told from a digit and two integers can share an encoding
(`MinusDigitBreaksSign`). The signed round trips therefore assume `-` is not a
digit.

Files:

- `wrappers.dfy`: `Option`, `Result` and `Outcome`.
- `helpers.dfy`, module `Helpers`: `has_unique_characters`, as a method that
  counts characters into a map and scans the counts. It is specified by
  `Distinct` (every multiset count is at most 1) and proved equal to an
  independent reading, `NoRepeats` (no two positions hold the same character).
- `base_encoder.dfy`, module `BaseEncoding`:
  - the specification functions `IndexOf` (`str.index`), `Decode`, `Digits`,
    `Encoded` and `Convert`;
  - the lemmas about them: Horner's step, the first bad digit, the canonical
    form of encodings, the sign rule, and both round trips between `Decode`
    and `Digits`;
  - the class `BaseEncoder`, whose setters, loops and constructor are proved
    against those functions;
  - the free method `EncodedFromBase10`.

Python exceptions become values:

- A `ValueError` from a setter is an `Outcome.Fail` carrying an `Error`
  variant; `Create`, which runs the setters as `__init__` does, passes the first
  one on as a `Failure`. A `ValueError` from `str.index` in `decode_to_decimal`
  is a `Failure` directly. There is one variant per check, without the message
  text.
- The `TypeError` from handing `encode` a string when the source base is 10,
  or an integer when it is not, is `WrongNumberKind`. The input is a `Number`
  datatype that is either `Decimal(int)` or `Numeral(string)`.

## Model

| member | source | states |
|---|---|---|
| Helpers.CountCharacters | helpers.py:4 | the count table holds exactly the characters of the string, each with its number of occurrences |
| Helpers.HasUniqueCharacters | helpers.py:3-8 | answers true exactly when no character's count exceeds 1, and equivalently exactly when no two positions hold the same character |
| Helpers.DistinctIffNoRepeats | helpers.py:3-8 | "every count is at most 1" and "no two positions are equal" are the same property, in both directions |
| Helpers.EmptyIsDistinct | helpers.py:5-8 | the empty string passes the check: there are no counts to inspect |
| Helpers.RepeatedCharacterIsNotDistinct | helpers.py:6-7 | a character found at two positions makes the check fail |
| Helpers.PermutationKeepsNoRepeats | helpers.py:4 | the answer depends only on the character counts, so two strings with the same multiset get the same answer |
| BaseEncoding.DefaultSourceDigitMap | session3.py:51-52 | the default source map has exactly `source_base` characters, they are the leading characters of 0-9A-Z, and none repeats |
| BaseEncoding.DefaultPrefixes | session3.py:5 | the default maps of the constructor are the prefixes "0123456789ABCDEF" and "0123456789" |
| BaseEncoding.IndexOf | session3.py:62 | `str.index`: absent exactly when the character is not in the map; otherwise a position holding it with no earlier occurrence |
| BaseEncoding.IndexOfNoRepeats | session3.py:62 | in a map without repeats, every character is found at its own position |
| BaseEncoding.DecodeSucceeds | session3.py:61-62 | decoding succeeds exactly when every digit occurs in the source map |
| BaseEncoding.DecodeAppendDigit | session3.py:61-62 | Horner's step: decode(s + [d]) is decode(s) * base + index(d) |
| BaseEncoding.DecodeReportsFirstBadDigit | session3.py:61-62 | the error names the leftmost digit that is missing from the map |
| BaseEncoding.DecodeNonNegative | session3.py:59-63 | with a non-negative base, a decoded value is never negative |
| BaseEncoding.Digits | session3.py:71-73 | the digit loop produces nothing exactly when the number is 0 |
| BaseEncoding.DigitsInAlphabet | session3.py:71-73 | every output digit is one of the first `to_base` characters of the digit map |
| BaseEncoding.DigitsLeadingDigit | session3.py:71-73 | with a repeat-free map, the first digit of a positive number is never the zero digit `digit_map[0]` |
| BaseEncoding.DecodeDigits | session3.py:71-73 | round trip: decoding the digits of n in the same base and map gives n back |
| BaseEncoding.DigitsDecode | session3.py:71-73 | the converse round trip: a non-empty digit string over the map with no leading zero digit is the encoding of its own value |
| BaseEncoding.EncodedSign | session3.py:69-77 | encode(n) for n < 0 is "-" + encode(-n); encode(0) is ""; for n > 0 the output is non-empty and has no sign |
| BaseEncoding.EncodedRoundTrip | session3.py:69-77 | when '-' is not a digit, reading an optional '-' and then the digits gives back every integer, negative ones included |
| BaseEncoding.MinusDigitBreaksSign | session3.py:36-43 | the digit_map setter lets '-' be a digit; with '-' as the digit for 1, both -1 and base + 1 encode to "--", which is why the round trips require '-' not to be a digit |
| BaseEncoding.ConvertNumeral | session3.py:66-67 | with a source base other than 10, every integer input is refused, a digit string succeeds exactly when all its digits are in the source map, and the output is the encoding of its decoded value |
| BaseEncoding.ConvertPreservesValue | session3.py:65-78 | reading the output of encode back in the target base gives the integer that was given, or the value of the numeral that was given |
| BaseEncoding.BaseEncoder.EncodeRoundTrip | session3.py:65-78 | a valid encoder from base 10 encodes every integer, and when '-' is not a digit, reading the output back in the target base gives that integer |
| BaseEncoding.BaseEncoder.constructor | session3.py:5 | the default-argument encoder: base 10 to base 16, hexadecimal digits, decimal source digits, and valid |
| BaseEncoding.BaseEncoder.SetSourceBase | session3.py:14-19 | a base outside [2, 36] is refused and the field keeps its value; one inside is stored unchanged |
| BaseEncoding.BaseEncoder.SetToBase | session3.py:25-30 | as for the source base; nothing else is touched, and the stored digit map is not re-checked |
| BaseEncoding.BaseEncoder.SetDigitMap | session3.py:36-43 | accepted exactly when its length is `to_base` and it has no repeats; the length error wins over the repeat error; a refused map leaves the field unchanged |
| BaseEncoding.BaseEncoder.SetSourceDigitMap | session3.py:49-54 | an absent or empty map becomes the default prefix for `source_base`; any other map is stored as given, unchecked |
| BaseEncoding.BaseEncoder.Create | session3.py:5-9 | the setters run in order and the first failure is reported; success exactly when both bases are in range and the digit map fits and is repeat-free; then the fields hold the given values and the encoder is valid |
| BaseEncoding.BaseEncoder.DecodeToDecimal | session3.py:59-63 | the Horner loop computes `Decode` of the input over the source base and source map, error included |
| BaseEncoding.BaseEncoder.Encode | session3.py:65-78 | the result is `Convert` of the input: a dispatch on the source base, then the sign and the digits of the magnitude |
| BaseEncoding.BaseEncoder.EncodeMagnitude | session3.py:71-75 | the prepend loop computes `Digits` of the magnitude |
| BaseEncoding.EncodedFromBase10 | session3.py:80-97 | the target-base error, the length error and the repeat error come in the constructor's order; success exactly when all checks pass, and then the output is the signed encoding of the number |

## Left out

- `float_equality_testing`, `manual_truncation_function`,
  `manual_rounding_function` and `rounding_away_from_zero` (session3.py:100-154)
  are not modelled. They work on floating point and on `fractions.Fraction`.
- `__repr__` and the text of the error messages are not modelled. Each error
  is a variant of `Error`; the variants carry the offending value where there
  is one (the base, the lengths, the digit), which the Python messages do not
  always show.
- `collections.Counter` is modelled by its result only (`CountCharacters`),
  not by its internals.
- The source digit map is never validated. Its length is not compared with the
  source base, and its characters are not checked for repeats. Neither check
  is made, and the model follows the code. `Decode` therefore accepts any map. `str.index` returns the
  first occurrence of a repeated digit, and an index beyond the base is used
  as it is.
- BaseEncoding.BaseEncoder.Encode: requires `to_base <= len(digit_map)`. The
  constructor guarantees this, but a later `to_base` assignment can break it.
  In that case the source may raise `IndexError`, and that case is not modelled.
- Inputs that are neither an `int` nor a `str`, such as a float or a list
  passed to `encode` or to a setter, are not modelled. Nor are the type errors
  they raise. Bases are integers.
- EncodedFromBase10: takes only an integer `number`. The `TypeError` that
  `encoded_from_base10` raises when given a string (from `number < 0` at
  session3.py:69) is not modelled; `Encode` models that case as
  `WrongNumberKind`.
- When `__init__` raises partway through, a half-initialised object exists
  only until the exception unwinds. `Create` returns the error and no object.
