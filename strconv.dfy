/**
 * Go's strconv.Atoi as the query layer uses it: a decimal integer literal with
 * an optional leading sign. Any other text (the empty string included) is a
 * syntax error, modelled as None; Go then yields the value 0.
 */
module Strconv {
  import opened Wrappers

  predicate IsDigit(c: char) {
    '0' <= c <= '9'
  }

  predicate AllDigits(s: string) {
    forall i :: 0 <= i < |s| ==> IsDigit(s[i])
  }

  /** The grammar Atoi accepts: an optional '+' or '-', then one or more digits. */
  predicate IsDecimalLiteral(s: string) {
    if |s| > 0 && (s[0] == '+' || s[0] == '-') then |s| > 1 && AllDigits(s[1..])
    else |s| > 0 && AllDigits(s)
  }

  /** The value of a digit string, read left to right as Atoi's loop does (n = n*10 + digit). */
  function DigitsValue(s: string): nat
    requires AllDigits(s)
  {
    if |s| == 0 then 0 else 10 * DigitsValue(s[..|s| - 1]) + (s[|s| - 1] as int - '0' as int)
  }

  function Atoi(s: string): (r: Option<int>)
    ensures r.Some? <==> IsDecimalLiteral(s)
    ensures r.Some? && s[0] == '-' ==> r.value <= 0
    ensures r.Some? && s[0] != '-' ==> r.value >= 0
  {
    if |s| == 0 then None
    else
      var digits := if s[0] == '+' || s[0] == '-' then s[1..] else s;
      if |digits| == 0 || !AllDigits(digits) then None
      else
        var magnitude: int := DigitsValue(digits);
        Some(if s[0] == '-' then -magnitude else magnitude)
  }

  /** The digits of n, most significant first, without leading zeros. */
  function FormatNat(n: nat): string
  {
    if n < 10 then [('0' as int + n) as char]
    else FormatNat(n / 10) + [('0' as int + n % 10) as char]
  }

  /** Go's strconv.Itoa, the inverse of Atoi on the integers. */
  function FormatInt(n: int): string
  {
    if n < 0 then "-" + FormatNat(-n) else FormatNat(n)
  }

  lemma {:induction false} FormatNatDigits(n: nat)
    ensures |FormatNat(n)| > 0 && AllDigits(FormatNat(n))
    ensures FormatNat(n)[0] != '-' && FormatNat(n)[0] != '+'
    ensures DigitsValue(FormatNat(n)) == n
  {
    if n >= 10 {
      FormatNatDigits(n / 10);
      var s := FormatNat(n);
      assert s[..|s| - 1] == FormatNat(n / 10);
    }
  }

  /** Formatting an integer and parsing it back gives the integer. */
  lemma {:induction false} AtoiFormatInt(n: int)
    ensures Atoi(FormatInt(n)) == Some(n)
  {
    var s := FormatInt(n);
    if n < 0 {
      FormatNatDigits(-n);
      assert s[0] == '-' && s[1..] == FormatNat(-n);
    } else {
      FormatNatDigits(n);
      assert s == FormatNat(n) && s[0] != '+' && s[0] != '-';
    }
  }
}
