/** Decimal rendering of a natural number, as `f"{n}"` prints it. */
module Decimal {

  predicate IsDigit(c: char)
  {
    '0' <= c <= '9'
  }

  function DigitChar(d: nat): (c: char)
    requires d < 10
    ensures IsDigit(c)
  {
    (48 + d) as char
  }

  function DigitValue(c: char): nat
    requires IsDigit(c)
  {
    c as int - 48
  }

  /** `str(n)` for a natural number: decimal digits, most significant first, no leading zero. */
  function FromNat(n: nat): (s: string)
    ensures |s| > 0
    ensures forall i :: 0 <= i < |s| ==> IsDigit(s[i])
    ensures s[0] == '0' ==> n == 0 && s == "0"
    decreases n
  {
    if n < 10 then [DigitChar(n)]
    else FromNat(n / 10) + [DigitChar(n % 10)]
  }

  /** The number a string of decimal digits denotes (`int(s)`). */
  function ToNat(s: string): nat
    requires forall i :: 0 <= i < |s| ==> IsDigit(s[i])
  {
    if |s| == 0 then 0
    else 10 * ToNat(s[..|s| - 1]) + DigitValue(s[|s| - 1])
  }

  /** Reading back the rendering gives the number: the decimal text names each number exactly. */
  lemma {:induction false} RoundTrip(n: nat)
    ensures ToNat(FromNat(n)) == n
    decreases n
  {
    var s := FromNat(n);
    if n >= 10 {
      RoundTrip(n / 10);
      assert s[..|s| - 1] == FromNat(n / 10);
    }
  }

  /** Distinct numbers render differently. */
  lemma Injective(m: nat, n: nat)
    ensures FromNat(m) == FromNat(n) ==> m == n
  {
    RoundTrip(m);
    RoundTrip(n);
  }
}
