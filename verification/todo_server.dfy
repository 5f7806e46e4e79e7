/** `String?.asId()`: validation of the `id` request parameter and its
    conversion to a 64-bit `Long`. */
module IdParam {
  import opened Wrappers
  import opened Errors

  const LongMin: int := -0x8000_0000_0000_0000
  const LongMax: int := 0x7FFF_FFFF_FFFF_FFFF

  /** What a call may do besides returning: `toLong` throws
      `NumberFormatException` on a digit string outside the `Long` range. */
  datatype Call<+T> = Returns(value: T) | ThrowsNumberFormat

  predicate IsDigit(c: char) {
    '0' <= c <= '9'
  }

  predicate AllDigits(s: string) {
    forall i :: 0 <= i < |s| ==> IsDigit(s[i])
  }

  /** The whole string matches the regular expression `-?[0-9]+`. */
  predicate MatchesId(s: string) {
    if |s| > 0 && s[0] == '-' then |s| > 1 && AllDigits(s[1..])
    else |s| > 0 && AllDigits(s)
  }

  /** The value of a string of decimal digits, most significant first. */
  function DigitsValue(d: string): nat
    requires AllDigits(d)
  {
    if d == [] then 0
    else DigitsValue(d[..|d| - 1]) * 10 + (d[|d| - 1] as int - '0' as int)
  }

  /** The mathematical value of a string that matches `-?[0-9]+`. */
  function SignedValue(s: string): int
    requires MatchesId(s)
  {
    if s[0] == '-' then -(DigitsValue(s[1..]) as int) else DigitsValue(s)
  }

  /** `toLong` on a string that matches `-?[0-9]+`: its value when that fits
      in a `Long`, a thrown `NumberFormatException` otherwise. */
  function ToLong(s: string): (r: Call<int>)
    requires MatchesId(s)
    ensures r.Returns? ==> LongMin <= r.value <= LongMax && r.value == SignedValue(s)
    ensures r.ThrowsNumberFormat? <==> !(LongMin <= SignedValue(s) <= LongMax)
  {
    var v := SignedValue(s);
    if LongMin <= v <= LongMax then Returns(v) else ThrowsNumberFormat
  }

  /** `asId`: `InvalidParam` for a missing parameter and for any text that is
      not `-?[0-9]+`; otherwise the result of `toLong`. */
  function AsId(param: Option<string>): (r: Call<Either<TodoError, int>>)
    ensures r == Returns(Left(InvalidParam)) <==> param.None? || !MatchesId(param.value)
    ensures r.Returns? && r.value.Right? ==>
      param.Some? && MatchesId(param.value) && r.value.right == SignedValue(param.value)
    ensures r.ThrowsNumberFormat? ==> param.Some? && MatchesId(param.value)
    ensures param.Some? && MatchesId(param.value) ==>
      r == (if LongMin <= SignedValue(param.value) <= LongMax
            then Returns(Right(SignedValue(param.value)))
            else ThrowsNumberFormat)
  {
    if param.Some? && MatchesId(param.value) then
      match ToLong(param.value)
      case Returns(v) => Returns(Right(v))
      case ThrowsNumberFormat => ThrowsNumberFormat
    else Returns(Left(InvalidParam))
  }

  function DigitChar(d: nat): char
    requires d < 10
  {
    ('0' as int + d) as char
  }

  /** `Long.toString` of a non-negative value: its decimal digits. */
  function NaturalString(n: nat): string
  {
    if n < 10 then [DigitChar(n)] else NaturalString(n / 10) + [DigitChar(n % 10)]
  }

  /** `Long.toString`: a minus sign before the digits of a negative value. */
  function DecimalString(n: int): string {
    if n < 0 then "-" + NaturalString(-n) else NaturalString(n)
  }

  lemma {:induction false} NaturalStringRoundTrip(n: nat)
    ensures |NaturalString(n)| > 0 && AllDigits(NaturalString(n))
    ensures NaturalString(n)[0] != '-'
    ensures DigitsValue(NaturalString(n)) == n
  {
    if n >= 10 {
      NaturalStringRoundTrip(n / 10);
      var d := NaturalString(n);
      assert d[..|d| - 1] == NaturalString(n / 10);
    }
  }

  /** The decimal text of any integer matches `-?[0-9]+` and has that integer
      as its value. */
  lemma DecimalStringRoundTrip(n: int)
    ensures MatchesId(DecimalString(n)) && SignedValue(DecimalString(n)) == n
  {
    NaturalStringRoundTrip(if n < 0 then -n else n);
    if n < 0 {
      assert DecimalString(n)[1..] == NaturalString(-n);
    }
  }

  /** Round trip: `asId` reads back every `Long` from its decimal text. */
  lemma AsIdRoundTrip(n: int)
    requires LongMin <= n <= LongMax
    ensures AsId(Some(DecimalString(n))) == Returns(Right(n))
  {
    DecimalStringRoundTrip(n);
  }

  /** A digit string outside the `Long` range passes the pattern but makes
      `toLong` throw: it is not reported as `InvalidParam`. */
  lemma OutOfRangeThrows(n: int)
    requires n < LongMin || LongMax < n
    ensures AsId(Some(DecimalString(n))) == ThrowsNumberFormat
  {
    DecimalStringRoundTrip(n);
  }

  lemma {:induction false} LeadingZeroIgnored(d: string)
    requires AllDigits(d)
    ensures AllDigits("0" + d) && DigitsValue("0" + d) == DigitsValue(d)
    decreases |d|
  {
    if d != [] {
      var z := "0" + d;
      assert z[..|z| - 1] == "0" + d[..|d| - 1];
      LeadingZeroIgnored(d[..|d| - 1]);
    }
  }

  /** Leading zeros are accepted and do not change the id, with or without
      a minus sign. */
  lemma LeadingZerosAccepted(d: string)
    requires |d| > 0 && AllDigits(d)
    ensures AsId(Some("0" + d)) == AsId(Some(d))
    ensures AsId(Some("-0" + d)) == AsId(Some("-" + d))
  {
    LeadingZeroIgnored(d);
    assert ("-0" + d)[1..] == "0" + d;
    assert ("-" + d)[1..] == d;
  }

  /** Negative ids are accepted: a minus sign before digits whose value is
      at most 2^63 gives the negated value. */
  lemma NegativeAccepted(d: string)
    requires |d| > 0 && AllDigits(d) && DigitsValue(d) <= -LongMin
    ensures AsId(Some("-" + d)) == Returns(Right(-(DigitsValue(d) as int)))
  {
  }

  /** The texts the pattern turns away, among them the one used against the
      `/todo/{id}` route. */
  lemma RejectedExamples()
    ensures AsId(None) == Returns(Left(InvalidParam))
    ensures AsId(Some("")) == Returns(Left(InvalidParam))
    ensures AsId(Some("-")) == Returns(Left(InvalidParam))
    ensures AsId(Some("zupka")) == Returns(Left(InvalidParam))
    ensures AsId(Some("+1")) == Returns(Left(InvalidParam))
  {
  }
}
