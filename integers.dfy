/** Decimal text of 64-bit integers: Rust's `i64::from_str` and `Display for i64`. */
module Integers {
  import opened Entry

  predicate IsDigit(c: char) { '0' <= c <= '9' }

  predicate AllDigits(s: string) { forall i :: 0 <= i < |s| ==> IsDigit(s[i]) }

  /** The value of a string of decimal digits, most significant first. */
  function DigitsValue(s: string): (n: nat)
    requires AllDigits(s)
  {
    if s == [] then 0
    else DigitsValue(s[..|s| - 1]) * 10 + (s[|s| - 1] as int - '0' as int)
  }

  /**
   * `s.parse::<i64>().ok()`: an optional `+` or `-` sign followed by one or
   * more ASCII digits, whose value lies in the `i64` range; anything else
   * (the empty string, a lone sign, a space, an overflow) is `None`.
   */
  function ParseI64(s: string): Option<I64>
  {
    if |s| == 0 then None
    else if s[0] == '-' || s[0] == '+' then
      var digits := s[1..];
      if |digits| == 0 || !AllDigits(digits) then None
      else
        var v: int := if s[0] == '-' then 0 - DigitsValue(digits) as int else DigitsValue(digits);
        if I64_MIN <= v <= I64_MAX then Some(v) else None
    else if AllDigits(s) && DigitsValue(s) <= I64_MAX then Some(DigitsValue(s))
    else None
  }

  /** The shortest decimal digits of `n`. */
  function ShowNat(n: nat): (s: string)
    ensures |s| >= 1 && AllDigits(s)
  {
    var last := ['0' + (n % 10) as char];
    if n < 10 then last else ShowNat(n / 10) + last
  }

  /** `format!("{}", n)` for an `i64`: a `-` sign for negatives, no `+`. */
  function ShowI64(n: I64): (s: string)
    ensures |s| >= 1 && (n >= 0 <==> IsDigit(s[0]))
  {
    if n < 0 then "-" + ShowNat(-(n as int)) else ShowNat(n)
  }

  /** The text of an `i64` is a sign and digits only. */
  lemma ShowI64Chars(n: I64)
    ensures forall i :: 0 <= i < |ShowI64(n)| ==> ShowI64(n)[i] == '-' || IsDigit(ShowI64(n)[i])
  {
  }

  lemma {:induction false} ShowNatValue(n: nat)
    ensures DigitsValue(ShowNat(n)) == n
  {
    var s := ShowNat(n);
    if n >= 10 {
      ShowNatValue(n / 10);
      assert s[..|s| - 1] == ShowNat(n / 10);
    }
  }

  /** Displaying an `i64` and parsing it back gives the same number. */
  lemma ParseShowI64(n: I64)
    ensures ParseI64(ShowI64(n)) == Some(n)
  {
    if n < 0 {
      ShowNatValue(-(n as int));
      assert ShowI64(n)[1..] == ShowNat(-(n as int));
    } else {
      ShowNatValue(n);
    }
  }
}
