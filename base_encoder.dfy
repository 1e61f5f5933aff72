/**
 * The arbitrary-base integer encoder of session3.py: the `BaseEncoder` class
 * (validated bases and digit maps, `decode_to_decimal`, `encode`) and the
 * free function `encoded_from_base10` that wraps it.
 *
 * The specification functions (IndexOf, Decode, Digits, Encoded, Convert) state
 * what the class's loops compute; the lemmas after them state what the
 * encoding means: its canonical form, its sign rule and its round trips.
 */
module BaseEncoding {
  import opened Wrappers
  import opened Helpers

  /** The alphabet whose prefix is the default source digit map. */
  const ALPHANUMERICS := "0123456789ABCDEFGHIJKLMNOPQRSTUVWXYZ"

  /** The ValueErrors the encoder raises, one variant per check, without the message text. */
  datatype Error =
    | SourceBaseOutOfRange(base: int)
    | TargetBaseOutOfRange(base: int)
    | DigitMapWrongLength(expected: int, actual: int)
    | DigitMapRepeats
    | DigitNotInSourceMap(digit: char)
    | WrongNumberKind  // the TypeError of passing an int where digits are expected, or the reverse

  /**
   * What `encode` is given: an integer when the source base is 10, otherwise a
   * string of digits in the source alphabet.
   */
  datatype Number = Decimal(value: int) | Numeral(digits: string)

  predicate InBaseRange(base: int) {
    2 <= base <= 36
  }

  /** The first `base` characters of 0-9A-Z. */
  function DefaultSourceDigitMap(base: int): (m: string)
    requires InBaseRange(base)
    ensures |m| == base && NoRepeats(m)
    ensures forall k :: 0 <= k < |m| ==> m[k] == ALPHANUMERICS[k]
  {
    AlphanumericsAscending();
    ALPHANUMERICS[..base]
  }

  /** 0-9A-Z is in strictly increasing character order, hence free of repeats. */
  lemma AlphanumericsAscending()
    ensures forall i, j :: 0 <= i < j < |ALPHANUMERICS| ==> ALPHANUMERICS[i] < ALPHANUMERICS[j]
  {
    var a := ALPHANUMERICS;
    assert forall i :: 0 <= i < |a| - 1 ==> a[i] < a[i + 1];
    forall i, j | 0 <= i < j < |a| ensures a[i] < a[j] {
      var k := i;
      while k < j
        invariant i <= k <= j
        invariant a[i] <= a[k]
        invariant k > i ==> a[i] < a[k]
      {
        k := k + 1;
      }
    }
  }

  /** The constructor's default maps are prefixes of the alphanumerics. */
  lemma DefaultPrefixes()
    ensures DefaultSourceDigitMap(16) == "0123456789ABCDEF"
    ensures DefaultSourceDigitMap(10) == "0123456789"
  {
  }

  // ---------------------------------------------------------------------------
  // Decoding: str.index and the Horner loop of decode_to_decimal
  // ---------------------------------------------------------------------------

  /** str.index on a single character: the position of its first occurrence, or None (a ValueError). */
  function IndexOf(m: string, c: char): (r: Option<nat>)
    ensures r.None? <==> c !in m
    ensures r.Some? ==> r.value < |m| && m[r.value] == c && c !in m[..r.value]
  {
    if m == [] then None
    else if m[0] == c then Some(0)
    else match IndexOf(m[1..], c)
      case None => None
      case Some(k) =>
        assert m[..k + 1] == [m[0]] + m[1..][..k];
        Some(k + 1)
  }

  /** In a map without repeats, every character is found at its own position. */
  lemma IndexOfNoRepeats(m: string, k: nat)
    requires NoRepeats(m) && k < |m|
    ensures IndexOf(m, m[k]) == Some(k)
  {
    var r := IndexOf(m, m[k]).value;
    assert m[r] == m[k];
  }

  /**
   * The value of a digit string read most significant digit first:
   * each digit multiplies the value so far by `base` and adds the digit's index.
   * The first digit (from the left) missing from `m` is the one reported.
   */
  function Decode(base: int, m: string, s: string): Result<int, Error>
    decreases |s|
  {
    if s == [] then Success(0)
    else
      var prefix := Decode(base, m, s[..|s| - 1]);
      var last := s[|s| - 1];
      var index := IndexOf(m, last);
      if prefix.Failure? then prefix
      else if index.None? then Failure(DigitNotInSourceMap(last))
      else Success(prefix.value * base + index.value)
  }

  /** Decoding fails exactly when some digit is missing from the map. */
  lemma {:induction false} DecodeSucceeds(base: int, m: string, s: string)
    ensures Decode(base, m, s).Success? <==> forall k :: 0 <= k < |s| ==> s[k] in m
    decreases |s|
  {
    if s != [] {
      var prefix := s[..|s| - 1];
      DecodeSucceeds(base, m, prefix);
      assert forall k :: 0 <= k < |prefix| ==> prefix[k] == s[k];
    }
  }

  /** With a non-negative base every decoded value is non-negative: digit indices are never negative. */
  lemma {:induction false} DecodeNonNegative(base: int, m: string, s: string)
    requires base >= 0 && Decode(base, m, s).Success?
    ensures Decode(base, m, s).value >= 0
    decreases |s|
  {
    if s != [] {
      var prefix := s[..|s| - 1];
      assert Decode(base, m, prefix).Success?;
      DecodeNonNegative(base, m, prefix);
      var v, k := Decode(base, m, prefix).value, IndexOf(m, s[|s| - 1]).value;
      assert Decode(base, m, s) == Success(v * base + k);
      MultipleNonNegative(v, base);
    }
  }

  /** Horner's step: appending a digit of the map multiplies the value by the base and adds the digit's index. */
  lemma DecodeAppendDigit(base: int, m: string, s: string, c: char, v: int, k: nat)
    requires Decode(base, m, s) == Success(v) && IndexOf(m, c) == Some(k)
    ensures Decode(base, m, s + [c]) == Success(v * base + k)
  {
    var t := s + [c];
    assert t[..|t| - 1] == s && t[|t| - 1] == c;
  }

  /** A failing decode names the leftmost digit that is not in the map. */
  lemma {:induction false} DecodeReportsFirstBadDigit(base: int, m: string, s: string, k: nat)
    requires k < |s| && s[k] !in m
    requires forall j :: 0 <= j < k ==> s[j] in m
    ensures Decode(base, m, s) == Failure(DigitNotInSourceMap(s[k]))
    decreases |s|
  {
    var prefix := s[..|s| - 1];
    if k == |s| - 1 {
      assert forall j :: 0 <= j < |prefix| ==> prefix[j] == s[j];
      DecodeSucceeds(base, m, prefix);
    } else {
      assert prefix[k] == s[k];
      assert forall j :: 0 <= j < k ==> prefix[j] == s[j];
      DecodeReportsFirstBadDigit(base, m, prefix, k);
    }
  }

  /** The loop of decode_to_decimal after i digits: the next digit extends the value Horner-style. */
  lemma DecodeExtendsPrefix(base: int, m: string, s: string, i: nat, v: int, k: nat)
    requires i < |s| && Decode(base, m, s[..i]) == Success(v) && IndexOf(m, s[i]) == Some(k)
    ensures Decode(base, m, s[..i + 1]) == Success(v * base + k)
  {
    assert s[..i + 1] == s[..i] + [s[i]];
    DecodeAppendDigit(base, m, s[..i], s[i], v, k);
  }

  /** The loop of decode_to_decimal after i good digits meets a digit missing from the map. */
  lemma DecodeStopsAt(base: int, m: string, s: string, i: nat, v: int)
    requires i < |s| && Decode(base, m, s[..i]) == Success(v) && s[i] !in m
    ensures Decode(base, m, s) == Failure(DigitNotInSourceMap(s[i]))
  {
    DecodeSucceeds(base, m, s[..i]);
    assert forall j :: 0 <= j < i ==> s[..i][j] == s[j];
    DecodeReportsFirstBadDigit(base, m, s, i);
  }

  lemma MultipleNonNegative(v: int, base: int)
    requires v >= 0 && base >= 0
    ensures v * base >= 0
  {
  }


  // ---------------------------------------------------------------------------
  // Encoding: the repeated % and // of encode
  // ---------------------------------------------------------------------------

  /**
   * The digits of n in `base`, most significant first: one digit per step of
   * `while number > 0`, so zero has no digits at all.
   */
  function Digits(base: int, m: string, n: nat): (r: string)
    requires 2 <= base <= |m|
    ensures r == [] <==> n == 0
    decreases n
  {
    if n == 0 then [] else Digits(base, m, n / base) + [m[n % base]]
  }

  /** Every character of an encoding is one of the first `base` characters of the map. */
  lemma {:induction false} DigitsInAlphabet(base: int, m: string, n: nat)
    requires 2 <= base <= |m|
    ensures forall k :: 0 <= k < |Digits(base, m, n)| ==> Digits(base, m, n)[k] in m[..base]
    decreases n
  {
    if n > 0 {
      QuotientSmaller(n, base);
      DigitsInAlphabet(base, m, n / base);
      assert m[n % base] == m[..base][n % base];
    }
  }

  /** The output of encode for a decimal integer: the digits of |n|, with a leading '-' when n < 0. */
  function Encoded(base: int, m: string, n: int): string
    requires 2 <= base <= |m|
  {
    if n < 0 then "-" + Digits(base, m, -n) else Digits(base, m, n)
  }

  /** The outcome of encode for either kind of input. */
  function Convert(sourceBase: int, toBase: int, digitMap: string, sourceDigitMap: string, number: Number): Result<string, Error>
    requires 2 <= toBase <= |digitMap|
  {
    if sourceBase != 10 then
      match number
      case Decimal(_) => Failure(WrongNumberKind)
      case Numeral(s) =>
        match Decode(sourceBase, sourceDigitMap, s)
        case Failure(e) => Failure(e)
        case Success(v) => Success(Encoded(toBase, digitMap, v))
    else
      match number
      case Numeral(_) => Failure(WrongNumberKind)
      case Decimal(n) => Success(Encoded(toBase, digitMap, n))
  }

  /** Euclidean division by the base recovers the digit and the value before it. */
  lemma DivModDigit(v: int, base: int, k: int)
    requires base > 0 && 0 <= k < base
    ensures (v * base + k) / base == v && (v * base + k) % base == k
  {
    var n := v * base + k;
    var q, r := n / base, n % base;
    var d := q - v;
    assert d * base == k - r by {
      assert n == q * base + r;
      assert d * base == q * base - v * base;
    }
    if d > 0 {
      MultipleAtLeast(d, base);
    } else if d < 0 {
      MultipleAtLeast(-d, base);
    }
  }

  lemma {:induction false} MultipleAtLeast(d: int, base: int)
    requires d >= 1 && base > 0
    ensures d * base >= base
    decreases d
  {
    if d > 1 {
      MultipleAtLeast(d - 1, base);
      assert d * base == (d - 1) * base + base;
    }
  }

  /** Euclidean division splits n into its last digit and the number before it. */
  lemma Euclid(n: int, base: int)
    requires base > 0
    ensures n == (n / base) * base + n % base && 0 <= n % base < base
  {
  }

  /** Dropping the last digit shrinks a positive number. */
  lemma QuotientSmaller(n: int, base: int)
    requires n > 0 && base >= 2
    ensures 0 <= n / base < n
  {
  }

  /** Canonical form: a positive number's first digit is never the zero digit m[0]. */
  lemma {:induction false} DigitsLeadingDigit(base: int, m: string, n: nat)
    requires 2 <= base <= |m| && Distinct(m) && n > 0
    ensures Digits(base, m, n)[0] != m[0]
    decreases n
  {
    var q, k := n / base, n % base;
    Euclid(n, base);
    assert Digits(base, m, n) == Digits(base, m, q) + [m[k]];
    if q == 0 {
      assert k == n;
      assert m[k] != m[0] by {
        DistinctIffNoRepeats(m);
      }
    } else {
      QuotientSmaller(n, base);
      DigitsLeadingDigit(base, m, q);
    }
  }

  /** Round trip: reading the digits of n back in the same base and alphabet gives n. */
  lemma {:induction false} DecodeDigits(base: int, m: string, n: nat)
    requires 2 <= base <= |m| && Distinct(m)
    ensures Decode(base, m, Digits(base, m, n)) == Success(n)
    decreases n
  {
    if n > 0 {
      var q, k := n / base, n % base;
      var d := Digits(base, m, q);
      assert Digits(base, m, n) == d + [m[k]];
      assert Decode(base, m, d) == Success(q) by {
        QuotientSmaller(n, base);
        DecodeDigits(base, m, q);
      }
      assert IndexOf(m, m[k]) == Some(k) by {
        DistinctIffNoRepeats(m);
        IndexOfNoRepeats(m, k);
      }
      DecodeAppendDigit(base, m, d, m[k], q, k);
      Euclid(n, base);
    }
  }

  /**
   * The other round trip: a canonical digit string (non-empty, over the alphabet,
   * no leading zero digit) is the encoding of the value it denotes.
   */
  lemma {:induction false} DigitsDecode(base: int, m: string, s: string)
    requires 2 <= base == |m|
    requires s != [] && s[0] != m[0]
    requires forall k :: 0 <= k < |s| ==> s[k] in m
    ensures Decode(base, m, s).Success?
    ensures Decode(base, m, s).value > 0 && Digits(base, m, Decode(base, m, s).value) == s
    decreases |s|
  {
    var p, c := s[..|s| - 1], s[|s| - 1];
    assert s == p + [c];
    if p == [] {
      DigitsDecodeStep(base, m, [], c, 0);
    } else {
      assert p[0] == s[0];
      assert forall j :: 0 <= j < |p| ==> p[j] in m by {
        forall j | 0 <= j < |p| ensures p[j] in m {
          assert p[j] == s[j];
        }
      }
      DigitsDecode(base, m, p);
      DigitsDecodeStep(base, m, p, c, Decode(base, m, p).value);
    }
  }

  /** One step of DigitsDecode: a canonical prefix followed by one more digit. */
  lemma DigitsDecodeStep(base: int, m: string, p: string, c: char, v: nat)
    requires 2 <= base == |m| && c in m
    requires Decode(base, m, p) == Success(v) && Digits(base, m, v) == p
    requires v == 0 ==> c != m[0]
    ensures Decode(base, m, p + [c]).Success?
    ensures Decode(base, m, p + [c]).value > 0 && Digits(base, m, Decode(base, m, p + [c]).value) == p + [c]
  {
    var k := IndexOf(m, c).value;
    assert m[k] == c;
    var n := v * base + k;
    assert n > 0 by {
      if v > 0 {
        MultipleAtLeast(v, base);
      }
    }
    DecodeAppendDigit(base, m, p, c, v, k);
    assert Digits(base, m, n) == p + [c] by {
      DigitsAppend(base, m, v, k, n);
    }
  }

  /** The last digit of n's encoding is n % base, and the rest encodes the smaller n / base. */
  lemma DigitsLastDigit(base: int, m: string, n: nat)
    requires 2 <= base <= |m| && n > 0
    ensures 0 <= n / base < n
    ensures Digits(base, m, n) == Digits(base, m, n / base) + [m[n % base]]
  {
    QuotientSmaller(n, base);
  }

  /** Appending the digit k to the digits of v gives the digits of v * base + k. */
  lemma DigitsAppend(base: int, m: string, v: nat, k: nat, n: nat)
    requires 2 <= base <= |m| && k < base && n == v * base + k && n > 0
    ensures Digits(base, m, n) == Digits(base, m, v) + [m[k]]
  {
    DivModDigit(v, base, k);
  }

  /** The sign rule: negatives are '-' followed by the encoding of the magnitude; zero encodes to "". */
  lemma EncodedSign(base: int, m: string, n: int)
    requires 2 <= base <= |m|
    ensures n < 0 ==> Encoded(base, m, n) == "-" + Encoded(base, m, -n)
    ensures n == 0 ==> Encoded(base, m, n) == ""
    ensures n > 0 && '-' !in m ==> Encoded(base, m, n) != "" && Encoded(base, m, n)[0] != '-'
  {
    if n > 0 {
      DigitsInAlphabet(base, m, n);
      assert Digits(base, m, n)[0] in m[..base];
    }
  }

  /**
   * Why the round trips exclude '-' as a digit: the digit_map setter accepts it,
   * and then -1 and base + 1 both encode to "--", so the output cannot be read back.
   */
  lemma MinusDigitBreaksSign(base: int, m: string)
    requires 2 <= base <= |m| && m[1] == '-'
    ensures Encoded(base, m, -1) == "--" && Encoded(base, m, base + 1) == "--"
  {
    DivModDigit(1, base, 1);
    assert Digits(base, m, 1) == [m[1]] by {
      DivModDigit(0, base, 1);
    }
  }

  /** Reads an encoder output back: an optional '-' followed by digits. */
  function SignedDecode(base: int, m: string, s: string): Result<int, Error> {
    if s != [] && s[0] == '-' then
      match Decode(base, m, s[1..])
      case Failure(e) => Failure(e)
      case Success(v) => Success(-v)
    else Decode(base, m, s)
  }

  /** Round trip with the sign: when '-' is not itself a digit, every integer is recovered. */
  lemma EncodedRoundTrip(base: int, m: string, n: int)
    requires 2 <= base <= |m| && Distinct(m) && '-' !in m
    ensures SignedDecode(base, m, Encoded(base, m, n)) == Success(n)
  {
    if n < 0 {
      DecodeDigits(base, m, -n);
      assert ("-" + Digits(base, m, -n))[1..] == Digits(base, m, -n);
    } else {
      DecodeDigits(base, m, n);
      if n > 0 {
        DigitsInAlphabet(base, m, n);
        assert Digits(base, m, n)[0] in m[..base];
      }
    }
  }

  /**
   * Conversion keeps the number: reading the output of encode back in the target
   * base gives the integer that was given, or the value of the given numeral.
   */
  lemma ConvertPreservesValue(sourceBase: int, toBase: int, digitMap: string, sourceDigitMap: string, number: Number)
    requires 2 <= toBase <= |digitMap| && Distinct(digitMap) && '-' !in digitMap
    requires Convert(sourceBase, toBase, digitMap, sourceDigitMap, number).Success?
    ensures number.Decimal? ==>
      SignedDecode(toBase, digitMap, Convert(sourceBase, toBase, digitMap, sourceDigitMap, number).value)
        == Success(number.value)
    ensures number.Numeral? ==>
      SignedDecode(toBase, digitMap, Convert(sourceBase, toBase, digitMap, sourceDigitMap, number).value)
        == Decode(sourceBase, sourceDigitMap, number.digits)
  {
    match number
    case Decimal(n) => EncodedRoundTrip(toBase, digitMap, n);
    case Numeral(s) => EncodedRoundTrip(toBase, digitMap, Decode(sourceBase, sourceDigitMap, s).value);
  }

  /**
   * With a non-decimal source base, encode takes only digit strings, fails exactly
   * when a digit is missing from the source map, and never produces a sign.
   */
  lemma ConvertNumeral(sourceBase: int, toBase: int, digitMap: string, sourceDigitMap: string, n: int, s: string)
    requires 2 <= toBase <= |digitMap| && InBaseRange(sourceBase) && sourceBase != 10
    ensures Convert(sourceBase, toBase, digitMap, sourceDigitMap, Decimal(n)) == Failure(WrongNumberKind)
    ensures Convert(sourceBase, toBase, digitMap, sourceDigitMap, Numeral(s)).Success?
      <==> forall k :: 0 <= k < |s| ==> s[k] in sourceDigitMap
    ensures Convert(sourceBase, toBase, digitMap, sourceDigitMap, Numeral(s)).Success? ==>
      var decoded := Decode(sourceBase, sourceDigitMap, s);
      decoded.Success? && decoded.value >= 0 &&
      Convert(sourceBase, toBase, digitMap, sourceDigitMap, Numeral(s)).value == Digits(toBase, digitMap, decoded.value)
  {
    DecodeSucceeds(sourceBase, sourceDigitMap, s);
    if Decode(sourceBase, sourceDigitMap, s).Success? {
      DecodeNonNegative(sourceBase, sourceDigitMap, s);
    }
  }

  // ---------------------------------------------------------------------------
  // The BaseEncoder class
  // ---------------------------------------------------------------------------

  class BaseEncoder {
    var sourceBase: int
    var toBase: int
    var digitMap: string
    var sourceDigitMap: string

    /** Both bases went through their range-checking setters. */
    ghost predicate BasesInRange()
      reads this
    {
      InBaseRange(sourceBase) && InBaseRange(toBase)
    }

    /** The state construction establishes: the digit map was checked against the target base. */
    ghost predicate Valid()
      reads this
    {
      BasesInRange() && |digitMap| == toBase && Distinct(digitMap)
    }

    /**
     * What a validly constructed encoder from base 10 promises: every integer is
     * encoded, and reading the output back in the target base gives it again.
     */
    lemma EncodeRoundTrip(n: int)
      requires Valid() && sourceBase == 10 && '-' !in digitMap
      ensures Convert(sourceBase, toBase, digitMap, sourceDigitMap, Decimal(n)).Success?
      ensures SignedDecode(toBase, digitMap, Convert(sourceBase, toBase, digitMap, sourceDigitMap, Decimal(n)).value)
        == Success(n)
    {
      EncodedRoundTrip(toBase, digitMap, n);
    }

    /** BaseEncoder() with every argument left at its default. */
    constructor ()
      ensures Valid()
      ensures sourceBase == 10 && toBase == 16
      ensures digitMap == DefaultSourceDigitMap(16) && sourceDigitMap == DefaultSourceDigitMap(10)
    {
      var hexadecimal := DefaultSourceDigitMap(16);
      DistinctIffNoRepeats(hexadecimal);
      sourceBase, toBase := 10, 16;
      digitMap := hexadecimal;
      sourceDigitMap := DefaultSourceDigitMap(10);
    }

    /** The source_base setter: a base outside [2,36] is refused and nothing is stored. */
    method SetSourceBase(base: int) returns (o: Outcome<Error>)
      modifies this`sourceBase
      ensures o == if InBaseRange(base) then Pass else Fail(SourceBaseOutOfRange(base))
      ensures sourceBase == if o.Pass? then base else old(sourceBase)
    {
      if base < 2 || base > 36 {
        return Fail(SourceBaseOutOfRange(base));
      }
      sourceBase := base;
      return Pass;
    }

    /** The to_base setter; it does not look at the digit map already stored. */
    method SetToBase(base: int) returns (o: Outcome<Error>)
      modifies this`toBase
      ensures o == if InBaseRange(base) then Pass else Fail(TargetBaseOutOfRange(base))
      ensures toBase == if o.Pass? then base else old(toBase)
    {
      if base < 2 || base > 36 {
        return Fail(TargetBaseOutOfRange(base));
      }
      toBase := base;
      return Pass;
    }

    /** The digit_map setter: the length is checked against the current to_base first, then repeats. */
    method SetDigitMap(m: string) returns (o: Outcome<Error>)
      modifies this`digitMap
      ensures o.Pass? <==> |m| == toBase && Distinct(m)
      ensures |m| != toBase ==> o == Fail(DigitMapWrongLength(toBase, |m|))
      ensures |m| == toBase && !Distinct(m) ==> o == Fail(DigitMapRepeats)
      ensures digitMap == if o.Pass? then m else old(digitMap)
    {
      if |m| != toBase {
        return Fail(DigitMapWrongLength(toBase, |m|));
      }
      var unique := HasUniqueCharacters(m);
      if !unique {
        return Fail(DigitMapRepeats);
      }
      digitMap := m;
      return Pass;
    }

    /** The source_digit_map setter: absent or empty means the default prefix; anything else is kept unchecked. */
    method SetSourceDigitMap(m: Option<string>)
      requires InBaseRange(sourceBase)
      modifies this`sourceDigitMap
      ensures sourceDigitMap ==
        if m == None || m == Some("") then DefaultSourceDigitMap(sourceBase) else m.value
    {
      if m == None || m == Some("") {
        sourceDigitMap := DefaultSourceDigitMap(sourceBase);
      } else {
        sourceDigitMap := m.value;
      }
    }

    /**
     * BaseEncoder(source_base, to_base, digit_map, source_digit_map): runs the
     * four setters in order and raises the first error met.
     */
    static method Create(sourceBase: int, toBase: int, digitMap: string, sourceDigitMap: Option<string>)
      returns (r: Result<BaseEncoder, Error>)
      ensures !InBaseRange(sourceBase) ==> r == Failure(SourceBaseOutOfRange(sourceBase))
      ensures InBaseRange(sourceBase) && !InBaseRange(toBase) ==> r == Failure(TargetBaseOutOfRange(toBase))
      ensures InBaseRange(sourceBase) && InBaseRange(toBase) && |digitMap| != toBase ==>
        r == Failure(DigitMapWrongLength(toBase, |digitMap|))
      ensures InBaseRange(sourceBase) && InBaseRange(toBase) && |digitMap| == toBase && !Distinct(digitMap) ==>
        r == Failure(DigitMapRepeats)
      ensures r.Success? <==>
        InBaseRange(sourceBase) && InBaseRange(toBase) && |digitMap| == toBase && Distinct(digitMap)
      ensures r.Success? ==> fresh(r.value) && r.value.Valid()
      ensures r.Success? ==>
        && r.value.sourceBase == sourceBase && r.value.toBase == toBase && r.value.digitMap == digitMap
        && r.value.sourceDigitMap ==
             if sourceDigitMap == None || sourceDigitMap == Some("") then DefaultSourceDigitMap(sourceBase)
             else sourceDigitMap.value
    {
      var encoder := new BaseEncoder();
      var o := encoder.SetSourceBase(sourceBase);
      if o.Fail? {
        return Failure(o.error);
      }
      o := encoder.SetToBase(toBase);
      if o.Fail? {
        return Failure(o.error);
      }
      o := encoder.SetDigitMap(digitMap);
      if o.Fail? {
        return Failure(o.error);
      }
      assert encoder.sourceBase == sourceBase && encoder.toBase == toBase && encoder.digitMap == digitMap;
      encoder.SetSourceDigitMap(sourceDigitMap);
      assert encoder.sourceBase == sourceBase && encoder.toBase == toBase && encoder.digitMap == digitMap;
      return Success(encoder);
    }

    /** decode_to_decimal: Horner accumulation over the digits, left to right. */
    method DecodeToDecimal(number: string) returns (r: Result<int, Error>)
      ensures r == Decode(sourceBase, sourceDigitMap, number)
    {
      var decimal := 0;
      for i := 0 to |number|
        invariant Decode(sourceBase, sourceDigitMap, number[..i]) == Success(decimal)
      {
        var index := IndexOf(sourceDigitMap, number[i]);
        if index.None? {
          DecodeStopsAt(sourceBase, sourceDigitMap, number, i, decimal);
          return Failure(DigitNotInSourceMap(number[i]));
        }
        DecodeExtendsPrefix(sourceBase, sourceDigitMap, number, i, decimal, index.value);
        decimal := decimal * sourceBase + index.value;
      }
      assert number[..|number|] == number;
      return Success(decimal);
    }

    /**
     * encode: decode first when the source base is not 10, then peel digits off
     * the magnitude with % and //, prepending each, and put back a '-' sign.
     */
    method Encode(number: Number) returns (r: Result<string, Error>)
      requires 2 <= toBase <= |digitMap|
      ensures r == Convert(sourceBase, toBase, digitMap, sourceDigitMap, number)
    {
      var n: int;
      if sourceBase != 10 {
        if number.Decimal? {
          return Failure(WrongNumberKind);
        }
        var decoded := DecodeToDecimal(number.digits);
        if decoded.Failure? {
          return Failure(decoded.error);
        }
        n := decoded.value;
      } else {
        if number.Numeral? {
          return Failure(WrongNumberKind);
        }
        n := number.value;
      }
      assert Convert(sourceBase, toBase, digitMap, sourceDigitMap, number) == Success(Encoded(toBase, digitMap, n));
      var isNegative := n < 0;
      var encoded := EncodeMagnitude(if isNegative then -n else n);
      if isNegative {
        encoded := "-" + encoded;
      }
      return Success(encoded);
    }

    /** The digit loop of encode: peel digits off with % and //, prepending each; zero gives "". */
    method EncodeMagnitude(magnitude: nat) returns (output: string)
      requires 2 <= toBase <= |digitMap|
      ensures output == Digits(toBase, digitMap, magnitude)
    {
      output := [];
      var rest := magnitude;
      while rest > 0
        invariant 0 <= rest <= magnitude
        invariant Digits(toBase, digitMap, rest) + output == Digits(toBase, digitMap, magnitude)
        decreases rest
      {
        var digit := digitMap[rest % toBase];
        DigitsLastDigit(toBase, digitMap, rest);
        assert Digits(toBase, digitMap, rest / toBase) + ([digit] + output)
            == Digits(toBase, digitMap, rest) + output;
        output := [digit] + output;
        rest := rest / toBase;
      }
    }
  }

  /** encoded_from_base10(number, base, digit_map) is BaseEncoder(10, base, digit_map).encode(number). */
  method EncodedFromBase10(number: int, base: int, digitMap: string) returns (r: Result<string, Error>)
    ensures !InBaseRange(base) ==> r == Failure(TargetBaseOutOfRange(base))
    ensures InBaseRange(base) && |digitMap| != base ==> r == Failure(DigitMapWrongLength(base, |digitMap|))
    ensures InBaseRange(base) && |digitMap| == base && !Distinct(digitMap) ==> r == Failure(DigitMapRepeats)
    ensures r.Success? <==> InBaseRange(base) && |digitMap| == base && Distinct(digitMap)
    ensures r.Success? ==> r.value == Encoded(base, digitMap, number)
  {
    var encoder := BaseEncoder.Create(10, base, digitMap, None);
    if encoder.Failure? {
      return Failure(encoder.error);
    }
    r := encoder.value.Encode(Decimal(number));
  }
}
