/** Decimal text of integers, as the serializer writes the integer
    coordinates of a bounding box. */
module Decimal {
  predicate IsDigits(s: string) {
    |s| > 0 && forall i :: 0 <= i < |s| ==> '0' <= s[i] <= '9'
  }

  /** The shortest decimal text of `n`: no leading zeros. */
  function DigitsText(n: nat): (s: string)
    ensures IsDigits(s)
    ensures |s| > 1 ==> s[0] != '0'
  {
    if n < 10 then [('0' as int + n) as char]
    else DigitsText(n / 10) + [('0' as int + n % 10) as char]
  }

  /** The value a digit string denotes. */
  function DigitsValue(s: string): (n: nat)
    requires IsDigits(s)
  {
    var d := s[|s| - 1] as int - '0' as int;
    if |s| == 1 then d else 10 * DigitsValue(s[..|s| - 1]) + d
  }

  /** Reading back the decimal text gives the number written. */
  lemma {:induction false} DigitsRoundTrip(n: nat)
    ensures DigitsValue(DigitsText(n)) == n
  {
    if n >= 10 {
      var s := DigitsText(n);
      assert s[..|s| - 1] == DigitsText(n / 10);
      DigitsRoundTrip(n / 10);
    }
  }

  /** An optional minus sign, then the digits of the magnitude. */
  function IntText(x: int): (s: string)
    ensures |s| > 0
    ensures (s[0] == '-') <==> x < 0
  {
    if x < 0 then "-" + DigitsText(-x) else DigitsText(x)
  }

  /** The value of an integer text with optional minus sign. */
  function IntValue(s: string): (x: int)
    requires |s| > 0
    requires s[0] == '-' ==> IsDigits(s[1..])
    requires s[0] != '-' ==> IsDigits(s)
  {
    if s[0] == '-' then -(DigitsValue(s[1..]) as int) else DigitsValue(s)
  }

  /** `s` is integer text that reads as `x`. */
  predicate Denotes(s: string, x: int) {
    && |s| > 0
    && (s[0] == '-' ==> IsDigits(s[1..]))
    && (s[0] != '-' ==> IsDigits(s))
    && IntValue(s) == x
  }

  /** The text written for an integer reads back as that integer. */
  lemma IntRoundTrip(x: int)
    ensures Denotes(IntText(x), x)
  {
    if x < 0 {
      assert IntText(x)[1..] == DigitsText(-x);
      DigitsRoundTrip(-x);
    } else {
      DigitsRoundTrip(x);
    }
  }
}
