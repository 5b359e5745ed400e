/** Decimal numerals in ASCII. */
module Decimals {
  import opened Bytes

  predicate IsDigit(c: u8) { 48 <= c <= 57 }

  predicate AllDigits(s: seq<u8>) {
    forall i :: 0 <= i < |s| ==> IsDigit(s[i])
  }

  predicate IsDecimal(s: seq<u8>) { s != [] && AllDigits(s) }

  function Decimal(s: seq<u8>): nat
    requires AllDigits(s)
  {
    if s == [] then 0
    else
      assert IsDigit(s[|s| - 1]);
      Decimal(s[..|s| - 1]) * 10 + s[|s| - 1] - 48
  }

  /** The numeral that `%llu` prints. */
  function Numeral(n: nat): (s: seq<u8>)
    ensures IsDecimal(s)
  {
    if n < 10 then [48 + n] else Numeral(n / 10) + [48 + n % 10]
  }

  lemma {:induction false} DecimalOfNumeral(n: nat)
    ensures Decimal(Numeral(n)) == n
  {
    if n >= 10 {
      DecimalOfNumeral(n / 10);
      assert Numeral(n)[..|Numeral(n)| - 1] == Numeral(n / 10);
    } else {
      assert Numeral(n)[..0] == [];
    }
  }

  function Pow10(k: nat): nat { if k == 0 then 1 else 10 * Pow10(k - 1) }

  lemma {:induction false} NumeralLength(n: nat, k: nat)
    requires 0 < k && n < Pow10(k)
    ensures |Numeral(n)| <= k
  {
    if n < 10 {
    } else {
      NumeralLength(n / 10, k - 1);
    }
  }

  /** A 64-bit value has at most twenty digits. */
  lemma U64Length(n: u64)
    ensures |Numeral(n)| <= 20
  {
    assert Pow10(4) == 10000;
    assert Pow10(8) == 100000000;
    assert Pow10(12) == 1000000000000;
    assert Pow10(16) == 10000000000000000;
    assert Pow10(20) == 100000000000000000000;
    NumeralLength(n, 20);
  }
}
