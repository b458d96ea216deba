/** Decimal numbers: std::to_string and std::from_chars as the protocol code uses them. */
module Decimals {
  import opened Options
  import opened Words

  predicate IsDigit(c: char) {
    '0' <= c <= '9'
  }

  predicate AllDigits(s: string) {
    forall i | 0 <= i < |s| :: IsDigit(s[i])
  }

  function DigitChar(d: nat): (c: char)
    requires d < 10
    ensures IsDigit(c) && c as int - '0' as int == d
  {
    ('0' as int + d) as char
  }

  function Value(s: string): nat
    requires AllDigits(s)
  {
    if s == [] then 0 else Value(s[..|s| - 1]) * 10 + (s[|s| - 1] as int - '0' as int)
  }

  function FromNat(n: nat): string {
    if n < 10 then [DigitChar(n)] else FromNat(n / 10) + [DigitChar(n % 10)]
  }

  /** std::to_string */
  function ToString(n: int): string {
    if n < 0 then "-" + FromNat(-n) else FromNat(n)
  }

  /** std::from_chars into a signed 64-bit integer, consuming the whole of `s`. */
  function ParseInt64(s: string): Option<int> {
    if s == "" then None
    else if s[0] == '-' then
      if s[1..] != "" && AllDigits(s[1..]) && Value(s[1..]) <= INT64_MAX + 1 then Some(0 - Value(s[1..])) else None
    else if AllDigits(s) && Value(s) <= INT64_MAX then Some(Value(s))
    else None
  }

  /** std::from_chars into an unsigned 64-bit integer: no sign is accepted. */
  function ParseUInt64(s: string): Option<nat> {
    if s != "" && AllDigits(s) && Value(s) <= UINT64_MAX then Some(Value(s)) else None
  }

  lemma {:induction false} FromNatValue(n: nat)
    ensures FromNat(n) != "" && AllDigits(FromNat(n)) && Value(FromNat(n)) == n
  {
    if n >= 10 {
      FromNatValue(n / 10);
      assert FromNat(n)[..|FromNat(n)| - 1] == FromNat(n / 10);
    }
  }

  /** Printing then parsing gives the number back, over the whole 64-bit range. */
  lemma DecimalRoundTrip(n: int)
    ensures -INT64_MAX - 1 <= n <= INT64_MAX ==> ParseInt64(ToString(n)) == Some(n)
    ensures 0 <= n <= UINT64_MAX ==> ParseUInt64(ToString(n)) == Some(n)
  {
    FromNatValue(if n < 0 then -n else n);
    if n < 0 {
      assert ToString(n)[1..] == FromNat(-n);
    } else {
      assert IsDigit(ToString(n)[0]);
    }
  }

  /** A printed number contains no line break. */
  lemma DecimalHasNoCr(n: int)
    ensures forall i | 0 <= i < |ToString(n)| :: ToString(n)[i] != '\r' && ToString(n)[i] != '\n'
  {
    FromNatValue(if n < 0 then -n else n);
  }
}
