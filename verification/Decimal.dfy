/** Decimal numerals: how integers are printed, and the value of a run of digits. */
module Decimal {
  import opened Text

  /** `%d` for a non-negative number. */
  function PrintNat(n: nat): (s: Bytes)
    ensures s != []
  {
    if n < 10 then [ZERO + n] else PrintNat(n / 10) + [ZERO + n % 10]
  }

  function PrintInt(n: int): (s: Bytes)
    ensures s != []
  {
    if n < 0 then [MINUS] + PrintNat(-n) else PrintNat(n)
  }

  function DigitsValue(s: Bytes): int {
    if s == [] then 0 else DigitsValue(s[..|s| - 1]) * 10 + (s[|s| - 1] - ZERO)
  }

  predicate AllDigits(s: Bytes) {
    forall k :: 0 <= k < |s| ==> IsDigit(s[k])
  }

  /** A printed number is digits of that value, with no leading zero. */
  lemma {:induction false} PrintNatDigits(n: nat)
    ensures AllDigits(PrintNat(n)) && DigitsValue(PrintNat(n)) == n
    ensures |PrintNat(n)| > 1 ==> PrintNat(n)[0] != ZERO
    ensures n > 0 ==> PrintNat(n)[0] != ZERO
  {
    var s := PrintNat(n);
    if n < 10 {
      assert s[..0] == [];
    } else {
      PrintNatDigits(n / 10);
      assert s[..|s| - 1] == PrintNat(n / 10);
    }
  }

  function Pow10(k: nat): (r: nat)
    ensures r > 0
  {
    if k == 0 then 1 else 10 * Pow10(k - 1)
  }

  lemma MultipleAtLeast(x: int, d: nat)
    ensures x >= 1 ==> x * d >= d
    ensures x <= -1 ==> x * d + d <= 0
  {}

  lemma Quotient(n: nat, d: nat, q: nat, r: nat)
    requires r < d && n == q * d + r
    ensures n / d == q
  {
    assert (n / d - q) * d == r - n % d;
    MultipleAtLeast(n / d - q, d);
  }

  lemma DivTwice(n: nat, p: nat)
    requires p > 0
    ensures n / 10 / p == n / (10 * p)
  {
    var q := n / 10 / p;
    var r := n / 10 % p * 10 + n % 10;
    assert n / 10 == q * p + n / 10 % p && n == n / 10 * 10 + n % 10;
    assert q * (10 * p) == q * p * 10;
    Quotient(n, 10 * p, q, r);
  }

  lemma LastDigit(n: nat)
    ensures PrintNat(n)[|PrintNat(n)| - 1] == Spell("0123456789")[n / Pow10(0) % 10]
  {
    assert Spell("0123456789")[n % 10] == ZERO + n % 10;
  }

  /** The byte `k` places from the right is the decimal digit of that place. */
  lemma {:induction false} PrintedDigit(n: nat, k: nat)
    requires k < |PrintNat(n)|
    ensures PrintNat(n)[|PrintNat(n)| - 1 - k] == Spell("0123456789")[n / Pow10(k) % 10]
    decreases k
  {
    if k > 0 {
      PrintedDigit(n / 10, k - 1);
      DivTwice(n, Pow10(k - 1));
    } else {
      LastDigit(n);
    }
  }

  /** There are as many digits as the number needs. */
  lemma {:induction false} PrintedLength(n: nat)
    ensures n < Pow10(|PrintNat(n)|)
    ensures n > 0 ==> Pow10(|PrintNat(n)| - 1) <= n
  {
    if n >= 10 {
      PrintedLength(n / 10);
    }
  }

  lemma PrintedSign(n: int)
    requires n < 0
    ensures PrintInt(n) == Spell("-") + PrintInt(-n)
  {}
}
