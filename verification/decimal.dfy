/** Decimal notation of natural numbers: the digit count that the stone
    rule reads off `to_string().len()`, the strings that `format!` writes and
    the digit runs that a number parser reads back. */
module Decimal {

  predicate IsDigit(c: char)
  {
    '0' <= c <= '9'
  }

  predicate AllDigits(s: string)
  {
    forall i :: 0 <= i < |s| ==> IsDigit(s[i])
  }

  function DigitValue(c: char): nat
    requires IsDigit(c)
  {
    c as int - '0' as int
  }

  function DigitChar(d: nat): (c: char)
    requires d < 10
    ensures IsDigit(c) && DigitValue(c) == d
  {
    ('0' as int + d) as char
  }

  function Pow10(n: nat): (p: nat)
    ensures p >= 1
  {
    if n == 0 then 1 else 10 * Pow10(n - 1)
  }

  /** One more than the largest `u64`: the numbers `str::parse` accepts
      into a `u64` lie below it. */
  const U64Limit: nat := 0x1_0000_0000_0000_0000

  /** Number of characters of the decimal notation of `n`; zero is written
      "0", so it has one digit. */
  function NumDigits(n: nat): (d: nat)
    ensures d >= 1
  {
    if n < 10 then 1 else 1 + NumDigits(n / 10)
  }

  /** Decimal notation without leading zeros. */
  function Show(n: nat): (s: string)
    ensures AllDigits(s) && |s| == NumDigits(n)
  {
    if n < 10 then [DigitChar(n)] else Show(n / 10) + [DigitChar(n % 10)]
  }

  /** Value of a run of decimal digits, most significant first; leading
      zeros are allowed. */
  function Value(s: string): nat
    requires AllDigits(s)
  {
    if |s| == 0 then 0 else Value(s[..|s| - 1]) * 10 + DigitValue(s[|s| - 1])
  }

  lemma Pow10Add(a: nat, b: nat)
    ensures Pow10(a + b) == Pow10(a) * Pow10(b)
  {
    if b > 0 {
      Pow10Add(a, b - 1);
    }
  }

  /** A number with `NumDigits(n)` digits lies in the matching decade. */
  lemma {:induction false} NumDigitsBounds(n: nat)
    ensures n < Pow10(NumDigits(n))
    ensures n >= 10 ==> Pow10(NumDigits(n) - 1) <= n
  {
    if n >= 10 {
      NumDigitsBounds(n / 10);
    }
  }

  /** Reading back what `Show` writes gives the number. */
  lemma {:induction false} ValueShow(n: nat)
    ensures Value(Show(n)) == n
  {
    if n >= 10 {
      ValueShow(n / 10);
      var s := Show(n);
      assert s[..|s| - 1] == Show(n / 10);
    }
  }

  /** Reading a concatenation of digit runs: the left run is shifted by the
      length of the right one. */
  lemma {:induction false} ValueAppend(s: string, t: string)
    requires AllDigits(s) && AllDigits(t)
    ensures AllDigits(s + t)
    ensures Value(s + t) == Value(s) * Pow10(|t|) + Value(t)
    decreases |t|
  {
    if |t| == 0 {
      assert s + t == s;
    } else {
      var u, t' := s + t, t[..|t| - 1];
      assert u[..|u| - 1] == s + t';
      ValueAppend(s, t');
      assert u[|u| - 1] == t[|t| - 1];
      assert Pow10(|t|) == 10 * Pow10(|t'|);
      ShiftDigit(Value(s), Pow10(|t'|), Value(t'), DigitValue(t[|t| - 1]));
    }
  }

  lemma ShiftDigit(a: nat, b: nat, c: nat, d: nat)
    ensures (a * b + c) * 10 + d == a * (10 * b) + (c * 10 + d)
  {
  }
}
