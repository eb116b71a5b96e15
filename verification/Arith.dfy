/** Integer arithmetic shared by the models: powers, Euclidean division, bitwise or. */
module Arith {

  const TWO32: nat := 0x1_0000_0000
  const TWO64: nat := 0x1_0000_0000_0000_0000

  type byte = x: nat | x < 256
  type u32 = x: nat | x < TWO32
  type u64 = x: nat | x < TWO64

  type Bytes = seq<byte>

  function Pow(b: nat, e: nat): (p: nat)
    ensures b > 0 ==> p > 0
    decreases e
  {
    if e == 0 then 1 else b * Pow(b, e - 1)
  }

  lemma {:induction false} PowAdd(b: nat, m: nat, n: nat)
    ensures Pow(b, m + n) == Pow(b, m) * Pow(b, n)
  {
    if m > 0 {
      PowAdd(b, m - 1, n);
      MulAssoc(b, Pow(b, m - 1), Pow(b, n));
    }
  }

  lemma {:induction false} PowDouble(b: nat, k: nat, v: nat)
    requires Pow(b, k) == v
    ensures Pow(b, k + k) == v * v
  {
    PowAdd(b, k, k);
  }

  lemma {:induction false} Pow64()
    ensures Pow(2, 64) == TWO64
  {
    assert Pow(2, 4) == 16;
    PowDouble(2, 4, 16);
    PowDouble(2, 8, 0x100);
    PowDouble(2, 16, 0x1_0000);
    PowDouble(2, 32, TWO32);
  }

  lemma {:induction false} PowMono(b: nat, m: nat, n: nat)
    requires b > 0 && m <= n
    ensures Pow(b, m) <= Pow(b, n)
  {
    PowAdd(b, m, n - m);
    MulMono(Pow(b, m), 1, Pow(b, n - m));
  }

  lemma {:induction false} PowMul(b: nat, m: nat, n: nat)
    ensures Pow(b, m * n) == Pow(Pow(b, m), n)
    decreases n
  {
    if n > 0 {
      assert m * n == m + m * (n - 1);
      PowAdd(b, m, m * (n - 1));
      PowMul(b, m, n - 1);
    }
  }

  lemma {:induction false} PowBaseMono(a: nat, b: nat, e: nat)
    requires a <= b
    ensures Pow(a, e) <= Pow(b, e)
    decreases e
  {
    if e > 0 {
      PowBaseMono(a, b, e - 1);
      MulMono(a, Pow(a, e - 1), Pow(b, e - 1));
      MulMono(Pow(b, e - 1), a, b);
    }
  }

  lemma {:induction false} MulAssoc(a: int, b: int, c: int)
    ensures a * (b * c) == (a * b) * c
  {}

  /** The product, as a natural number. */
  function Times(x: nat, y: nat): (p: nat)
    ensures p == x * y
  {
    MulMono(x, 0, y);
    x * y
  }

  lemma {:induction false} MulSwap(a: int, b: int, c: int)
    ensures (a * b) * c == (a * c) * b
  {
    MulAssoc(a, b, c);
    MulAssoc(a, c, b);
  }

  lemma {:induction false} MulMono(a: int, x: int, y: int)
    requires 0 <= a && x <= y
    ensures a * x <= a * y
  {}

  lemma {:induction false} MulCancel(a: int, x: int, y: int)
    requires 0 < a && a * x <= a * y
    ensures x <= y
  {}

  /** Quotient and remainder are determined by the division equation. */
  lemma {:induction false} DivModUnique(n: int, d: int, q: int, r: int)
    requires d > 0 && n == q * d + r && 0 <= r < d
    ensures n / d == q && n % d == r
  {
    var q', r' := n / d, n % d;
    assert n == q' * d + r';
    assert (q - q') * d == r' - r;
    if q - q' >= 1 { MulMono(d, 1, q - q'); }
    if q' - q >= 1 { MulMono(d, 1, q' - q); }
  }

  lemma {:induction false} DivMod(n: int, d: int)
    requires d > 0
    ensures n == (n / d) * d + n % d && 0 <= n % d < d
  {}

  lemma {:induction false} DivMono(a: int, b: int, d: int)
    requires d > 0 && a <= b
    ensures a / d <= b / d
  {
    if a / d > b / d { MulMono(d, b / d + 1, a / d); }
  }

  /** q <= n / d exactly when q * d <= n. */
  lemma {:induction false} DivGe(n: int, d: int, q: int)
    requires d > 0
    ensures q <= n / d <==> q * d <= n
  {
    DivMod(n, d);
    if q <= n / d { MulMono(d, q, n / d); }
    if q > n / d { MulMono(d, n / d + 1, q); }
  }

  lemma {:induction false} DivLt(n: int, d: int, q: int)
    requires d > 0
    ensures n / d < q <==> n < q * d
  {
    DivGe(n, d, q);
  }

  lemma {:induction false} DivShrinks(n: int, d: int)
    requires n > 0 && d >= 2
    ensures 0 <= n / d < n
  {}

  lemma {:induction false} DivOfMul(x: int, d: int)
    requires d > 0
    ensures x * d / d == x && (x * d) % d == 0
  {
    DivModUnique(x * d, d, x, 0);
  }

  lemma {:induction false} DivAddMul(x: int, k: int, d: int)
    requires d > 0
    ensures (x + k * d) / d == x / d + k && (x + k * d) % d == x % d
  {
    DivModUnique(x + k * d, d, x / d + k, x % d);
  }

  lemma {:induction false} DivDiv(x: int, a: int, b: int)
    requires 0 <= x && a > 0 && b > 0
    ensures a * b > 0 && x / a / b == x / (a * b)
    ensures x % (a * b) == (x / a % b) * a + x % a
  {
    var q, r := x / a / b, x / a % b;
    assert x == (q * b + r) * a + x % a;
    assert (q * b) * a == q * (a * b);
    assert 0 <= r * a <= (b - 1) * a by { MulMono(a, r, b - 1); MulMono(a, 0, r); }
    assert a * b > 0;
    DivModUnique(x, a * b, q, r * a + x % a);
  }

  /** Reducing modulo a multiple first changes nothing. */
  lemma {:induction false} ModMod(x: int, a: int, b: int)
    requires 0 <= x && a > 0 && b > 0
    ensures a * b > 0 && (x % (a * b)) % a == x % a
  {
    DivDiv(x, a, b);
    RemainderOf(x % (a * b), a, x / a % b, x % a);
  }

  lemma {:induction false} RemainderOf(n: int, d: int, q: int, r: int)
    requires d > 0 && n == q * d + r && 0 <= r < d
    ensures n % d == r
  {
    DivModUnique(n, d, q, r);
  }

  lemma {:induction false} ModAdd(x: int, y: int, m: int)
    requires m > 0
    ensures (x % m + y) % m == (x + y) % m
  {
    DivAddMul(x % m + y, x / m, m);
    assert x % m + y + x / m * m == x + y;
  }

  lemma {:induction false} ModMul(x: int, y: int, m: int)
    requires m > 0
    ensures ((x % m) * y) % m == (x * y) % m
  {
    DivAddMul((x % m) * y, (x / m) * y, m);
    calc {
      (x % m) * y + ((x / m) * y) * m;
      (x % m) * y + ((x / m) * m) * y;
      (x % m + (x / m) * m) * y;
      x * y;
    }
  }

  lemma {:induction false} SmallMod(x: int, m: int)
    requires 0 <= x < m
    ensures x % m == x && x / m == 0
  {}

  lemma {:induction false} ModOnce(x: int, m: int)
    requires 0 <= x < 2 * m
    ensures x % m == if x < m then x else x - m
  {}

  /** Scaling by p inside a range of size p * d. */
  lemma {:induction false} ScaleMod(x: nat, p: nat, d: nat)
    requires p > 0 && d > 0
    ensures p * d > 0 && (x * p) / (p * d) == x / d && (x * p) % (p * d) == (x % d) * p <= p * d - p
  {
    var q, r := x / d, x % d;
    calc {
      x * p;
      (q * d + r) * p;
      (q * d) * p + r * p;
      q * (p * d) + r * p;
    }
    MulMono(p, r, d - 1);
    DivModUnique(x * p, p * d, q, r * p);
  }

  lemma {:induction false} MultipleGap(l: nat, p: nat, c: nat)
    requires p > 0 && l % p == 0 && l < p * c
    ensures l == (l / p) * p && l + p <= p * c
  {
    DivMod(l, p);
    DivLt(l, p, c);
    MulMono(p, l / p + 1, c);
    assert p * (l / p + 1) == l + p;
  }

  lemma {:induction false} BytePower(k: nat)
    ensures Pow(2, 8 * k) == Pow(256, k)
  {
    PowMul(2, 8, k);
    assert Pow(2, 8) == 256;
  }

  /** Division of natural numbers. */
  function Quotient(n: nat, d: nat): (q: nat)
    requires d > 0
    ensures q == n / d
  {
    DivGe(n, d, 0);
    n / d
  }

  function Remainder(n: nat, d: nat): (r: nat)
    requires d > 0
    ensures r == n % d && r < d && Quotient(n, d) * d + r == n
  {
    DivMod(n, d);
    n % d
  }
}
