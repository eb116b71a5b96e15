/** Bitwise operations on natural numbers, as the source applies them to machine words. */
module Bits {
  import opened Arith

  /** Bitwise or. */
  function Or(x: nat, y: nat): (r: nat)
    decreases x + y
  {
    if x == 0 && y == 0 then 0
    else 2 * Or(x / 2, y / 2) + (if x % 2 == 1 || y % 2 == 1 then 1 else 0)
  }

  lemma {:induction false} OrZero(x: nat)
    ensures Or(x, 0) == x && Or(0, x) == x
  {
    if x > 0 { OrZero(x / 2); }
  }

  lemma {:induction false} OrComm(x: nat, y: nat)
    ensures Or(x, y) == Or(y, x)
    decreases x + y
  {
    if x != 0 || y != 0 { OrComm(x / 2, y / 2); }
  }

  /** Numbers with no set bit in common: or is addition. */
  lemma {:induction false} OrDisjoint(x: nat, y: nat, k: nat)
    requires x < Pow(2, k)
    ensures Or(x, y * Pow(2, k)) == x + y * Pow(2, k)
    decreases k
  {
    if k == 0 {
      OrZero(y);
    } else if x == 0 {
      OrZero(y * Pow(2, k));
    } else {
      var h := y * Pow(2, k - 1);
      assert y * Pow(2, k) == 2 * h;
      OrDisjoint(x / 2, y, k - 1);
      assert Or(x, 2 * h) == 2 * Or(x / 2, h) + x % 2;
    }
  }

  /** The least number of bits that represent x: the word width minus its leading zeros. */
  function BitLen(x: nat): (n: nat)
    ensures x < Pow(2, n)
    ensures x > 0 ==> n > 0 && Pow(2, n - 1) <= x
    ensures x == 0 ==> n == 0
  {
    if x == 0 then 0 else BitLen(x / 2) + 1
  }

  lemma {:induction false} BitLenUnique(x: nat, n: nat)
    requires x < Pow(2, n) && (n > 0 ==> Pow(2, n - 1) <= x)
    ensures BitLen(x) == n
  {
    var m := BitLen(x);
    if m < n { PowMono(2, m, n - 1); }
    if n < m { PowMono(2, n, m - 1); }
  }

  /** A number shifted left. */
  function Shl(x: nat, k: nat): (r: nat)
    ensures r == x * Pow(2, k)
  {
    Times(x, Pow(2, k))
  }
}
