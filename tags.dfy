/**
  The tag set the ingestion path attaches to every backed-up revision, and the
  decimal text form in which the event time travels inside it: the backup side
  writes `str(int(...))` (through URL encoding) and the restore side reads it
  back with `int(...)`.
 */
module Tags {
  import opened Wrappers

  /** Tag holding the event time, in whole UTC seconds, as decimal text. */
  const TimeTag: string := "ssmbakTime"
  /** Tag holding the parameter type (String, SecureString, StringList). */
  const TypeTag: string := "ssmbakType"
  /** Tag holding the parameter description, present only when the event had one. */
  const DescriptionTag: string := "ssmbakDescription"

  /** A tag set the restore side can read: a type tag and a time tag that parses as an integer. */
  predicate TagsReadable(tags: map<string, string>)
  {
    TypeTag in tags && TimeTag in tags && ParseInt(tags[TimeTag]).Some?
  }

  predicate IsDigit(c: char) {
    '0' <= c <= '9'
  }

  predicate AllDigits(s: string) {
    forall i | 0 <= i < |s| :: IsDigit(s[i])
  }

  function DigitChar(d: nat): (c: char)
    requires d < 10
    ensures IsDigit(c) && c as int - '0' as int == d
  {
    ('0' as int + d) as char
  }

  /** Decimal digits of a natural number, without leading zeros. */
  function NatToString(n: nat): (s: string)
    ensures |s| >= 1 && AllDigits(s)
    ensures n >= 10 ==> s[0] != '0'
  {
    if n < 10 then [DigitChar(n)] else NatToString(n / 10) + [DigitChar(n % 10)]
  }

  /** `str(n)` for a Python int. */
  function IntToString(n: int): (s: string)
    ensures |s| >= 1
  {
    if n < 0 then "-" + NatToString(-n) else NatToString(n)
  }

  /** Value of a string of decimal digits, most significant first. */
  function DigitsValue(s: string): nat
    requires AllDigits(s)
  {
    if s == [] then 0
    else DigitsValue(s[..|s| - 1]) * 10 + (s[|s| - 1] as int - '0' as int)
  }

  /**
    `int(s)` for the forms `str` produces: an optional minus sign followed by
    at least one decimal digit. Anything else is `None` (Python raises).
   */
  function ParseInt(s: string): (r: Option<int>)
    ensures r.Some? ==> |s| >= 1
    ensures |s| >= 1 && AllDigits(s) ==> r == Some(DigitsValue(s))
  {
    if |s| >= 2 && s[0] == '-' && AllDigits(s[1..]) then Some(0 - DigitsValue(s[1..]) as int)
    else if |s| >= 1 && AllDigits(s) then Some(DigitsValue(s))
    else None
  }

  lemma {:induction false} NatToStringValue(n: nat)
    ensures DigitsValue(NatToString(n)) == n
  {
    if n >= 10 {
      var s := NatToString(n);
      var prefix := NatToString(n / 10);
      assert s[..|s| - 1] == prefix;
      NatToStringValue(n / 10);
    }
  }

  /** What the backup side writes as the time tag, the restore side reads back unchanged. */
  lemma IntRoundTrip(n: int)
    ensures ParseInt(IntToString(n)) == Some(n)
  {
    var digits := NatToString(if n < 0 then -n else n);
    NatToStringValue(if n < 0 then -n else n);
    assert IsDigit(digits[0]);
    if n < 0 {
      var s := "-" + digits;
      assert s[1..] == digits;
      assert ParseInt(s) == Some(0 - DigitsValue(digits) as int);
    } else {
      assert ParseInt(digits) == Some(DigitsValue(digits));
    }
  }
}
