/** Decimal numerals without sign. */
module Numerals {
  predicate IsDigit(c: char) {
    '0' <= c <= '9'
  }

  predicate AllDigits(s: string) {
    forall i :: 0 <= i < |s| ==> IsDigit(s[i])
  }

  function ParseNat(s: string): nat
    requires AllDigits(s)
  {
    if s == [] then 0 else ParseNat(s[..|s| - 1]) * 10 + (s[|s| - 1] as int - '0' as int)
  }

  function FormatNat(n: nat): (s: string)
    ensures AllDigits(s) && s != []
  {
    var last := ('0' as int + n % 10) as char;
    if n < 10 then [last] else FormatNat(n / 10) + [last]
  }

  // The digits count in tens, and leading zeros for nothing.
  lemma {:induction false} DecimalDigits(s: string, c: char)
    requires AllDigits(s) && IsDigit(c)
    ensures ParseNat([]) == 0 && ParseNat(s + [c]) == 10 * ParseNat(s) + (c as int - '0' as int)
    ensures ParseNat(['0'] + s) == ParseNat(s)
  {
    assert (s + [c])[..|s|] == s;
    if s == [] {
      assert ['0'] + s == [] + ['0'] && ['0'][..0] == [];
    } else {
      DecimalDigits(s[..|s| - 1], c);
      assert (['0'] + s)[..|s|] == ['0'] + s[..|s| - 1];
    }
  }

  // Printing a number and reading it back yields the number.
  lemma {:induction false} NumeralRoundTrip(n: nat)
    ensures ParseNat(FormatNat(n)) == n
  {
    var s := FormatNat(n);
    if n >= 10 {
      NumeralRoundTrip(n / 10);
      assert s[..|s| - 1] == FormatNat(n / 10);
    } else {
      assert s[..|s| - 1] == [];
    }
  }
}
