/** Decimal rendering of numbers, as std::to_string does for the keys the file system builds. */
module Decimal {

  const DIGITS := "0123456789"

  function ToString(n: nat): (s: string)
    ensures s != ""
    ensures forall c :: c in s ==> c in DIGITS
  {
    if n < 10 then [DIGITS[n]] else ToString(n / 10) + [DIGITS[n % 10]]
  }

  /** Different numbers have different renderings. */
  lemma {:induction false} ToStringInjective(m: nat, n: nat)
    requires ToString(m) == ToString(n)
    ensures m == n
  {
    var a, b := ToString(m), ToString(n);
    assert DIGITS[m % 10] == a[|a| - 1] == b[|b| - 1] == DIGITS[n % 10];
    assert m % 10 == n % 10;
    if m >= 10 && n >= 10 {
      assert ToString(m / 10) == a[..|a| - 1] == b[..|b| - 1] == ToString(n / 10);
      ToStringInjective(m / 10, n / 10);
    }
  }
}
