/** Decimal printing and parsing of integers, as Rust's `to_string` and
    `parse` do it. */
module Numbers {
  import opened Wrappers
  import opened Text

  const I64_MIN := -0x8000_0000_0000_0000
  const I64_MAX := 0x7FFF_FFFF_FFFF_FFFF

  predicate IsDigit(c: char) { '0' <= c <= '9' }

  predicate AreDigits(s: string) {
    s != [] && forall i :: 0 <= i < |s| ==> IsDigit(s[i])
  }

  function NatText(n: nat): (s: string)
    ensures AreDigits(s)
  {
    var last := ('0' as int + n % 10) as char;
    if n < 10 then [last] else NatText(n / 10) + [last]
  }

  function IntText(i: int): (s: string)
    ensures s != [] && HasNoWhitespace(s)
  {
    if i < 0 then "-" + NatText(-i) else NatText(i)
  }

  function DigitsValue(s: string): nat
    requires AreDigits(s)
  {
    var last := s[|s| - 1] as int - '0' as int;
    if |s| == 1 then last else 10 * DigitsValue(s[..|s| - 1]) + last
  }

  lemma {:induction false} NatTextRoundTrip(n: nat)
    ensures DigitsValue(NatText(n)) == n
  {
    if n >= 10 {
      NatTextRoundTrip(n / 10);
      assert NatText(n)[..|NatText(n)| - 1] == NatText(n / 10);
    }
  }

  /** `str::parse` for an integer type with the given bounds: an optional sign,
      then at least one ASCII digit, and the value in range. */
  function ParseInt(s: string, low: int, high: int): (r: Option<int>)
    ensures r.Some? ==> low <= r.value <= high
  {
    var negative := s != [] && s[0] == '-';
    var digits := if s != [] && s[0] in "+-" then s[1..] else s;
    if !AreDigits(digits) then None
    else
      var magnitude: int := DigitsValue(digits);
      var value: int := if negative then 0 - magnitude else magnitude;
      if low <= value <= high then Some(value) else None
  }

  /** Printing an integer and parsing the text gives it back. */
  lemma IntTextRoundTrip(i: int, low: int, high: int)
    requires low <= i <= high
    ensures ParseInt(IntText(i), low, high) == Some(i)
  {
    if i < 0 {
      NatTextRoundTrip(-i);
      assert IntText(i)[1..] == NatText(-i);
    } else {
      NatTextRoundTrip(i);
      assert IsDigit(NatText(i)[0]);
    }
  }

  /** One more digit. */
  lemma DigitsValueByDigit(s: string, c: char)
    requires IsDigit(c)
    ensures DigitsValue([c]) == c as int - '0' as int
    ensures AreDigits(s) ==> DigitsValue(s + [c]) == 10 * DigitsValue(s) + (c as int - '0' as int)
  {
    assert (s + [c])[..|s|] == s;
  }

  /** The texts that are read as an integer, and as which: digits with at most one sign
      before them, leading zeros allowed, whose value lies within the bounds. */
  lemma {:induction false} ParseIntExactly(s: string, low: int, high: int, i: int)
    ensures ParseInt(s, low, high) == Some(i)
       <==> low <= i <= high && exists d ::
              AreDigits(d)
              && (((s == d || s == "+" + d) && i == DigitsValue(d)) || (s == "-" + d && -i == DigitsValue(d)))
  {
    hide DigitsValue;
    if ParseInt(s, low, high) == Some(i) {
      var d := if s[0] in "+-" then s[1..] else s;
      assert AreDigits(d) && (s == d || s == "+" + d || s == "-" + d);
    }
    forall d | AreDigits(d) && (s == d || s == "+" + d || s == "-" + d)
      ensures d == if s[0] in "+-" then s[1..] else s
    {
      assert IsDigit(d[0]);
    }
  }
}
