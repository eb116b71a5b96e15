/** The two-limb 256-bit unsigned integer of the proof-of-work code (bitcoin/src/pow.rs). */
module Uint256 {
  import opened Arith
  import opened Bits

  const TWO128: nat := 0x1_0000_0000_0000_0000_0000_0000_0000_0000
  const TWO192: nat := 0x1_0000_0000_0000_0000_0000_0000_0000_0000_0000_0000_0000_0000
  const TWO256: nat :=
    0x1_0000_0000_0000_0000_0000_0000_0000_0000_0000_0000_0000_0000_0000_0000_0000_0000

  type u128 = x: nat | x < TWO128

  /** `hi` holds the high 128 bits, `lo` the low ones. */
  datatype U256 = U256(hi: u128, lo: u128)

  const ZERO := U256(0, 0)
  const ONE := U256(0, 1)
  const MAX := U256(TWO128 - 1, TWO128 - 1)

  /** The number that the two limbs stand for. */
  function Val(x: U256): (n: nat)
    ensures n < TWO256
  {
    x.hi * TWO128 + x.lo
  }

  lemma {:induction false} Pow128()
    ensures Pow(2, 128) == TWO128
  {
    Pow64();
    PowAdd(2, 64, 64);
  }

  lemma {:induction false} Pow256()
    ensures Pow(2, 256) == TWO256
  {
    Pow128();
    PowAdd(2, 128, 128);
  }

  /** The derived order compares the high limb first. */
  predicate Less(x: U256, y: U256)
  {
    x.hi < y.hi || (x.hi == y.hi && x.lo < y.lo)
  }

  lemma {:induction false} LessIsNumeric(x: U256, y: U256)
    ensures Less(x, y) <==> Val(x) < Val(y)
  {}

  // ---- single-limb primitives of the u128 type ----

  function Shl128(x: u128, k: nat): (r: u128)
  {
    (x * Pow(2, k)) % TWO128
  }

  function Shr128(x: u128, k: nat): (r: u128)
    ensures r == x / Pow(2, k)
  {
    DivLt(x, Pow(2, k), TWO128);
    MulMono(TWO128, 1, Pow(2, k));
    x / Pow(2, k)
  }

  // ---- bits, complement, addition, subtraction ----

  function NumBits(x: U256): (n: nat)
    ensures n == BitLen(Val(x)) <= 256
  {
    Pow128();
    if x.hi > 0 then
      var k := BitLen(x.hi);
      HighBits(x);
      128 + k
    else
      var k := BitLen(x.lo);
      BitLenAtMost(x.lo, 128);
      k
  }

  lemma {:induction false} BitLenAtMost(x: nat, n: nat)
    requires x < Pow(2, n)
    ensures BitLen(x) <= n
  {
    if BitLen(x) > n { PowMono(2, n, BitLen(x) - 1); }
  }

  lemma {:induction false} HighBits(x: U256)
    requires x.hi > 0
    ensures BitLen(Val(x)) == 128 + BitLen(x.hi) <= 256
  {
    Pow128();
    var k := BitLen(x.hi);
    BitLenAtMost(x.hi, 128);
    PowAdd(2, 128, k);
    PowAdd(2, 128, k - 1);
    MulMono(TWO128, x.hi + 1, Pow(2, k));
    MulMono(TWO128, Pow(2, k - 1), x.hi);
    BitLenUnique(Val(x), 128 + k);
  }

  function Not(x: U256): (r: U256)
    ensures Val(r) == TWO256 - 1 - Val(x)
  {
    U256(TWO128 - 1 - x.hi, TWO128 - 1 - x.lo)
  }

  function OverflowingAdd128(x: u128, y: u128): (r: (u128, bool))
    ensures r.0 + (if r.1 then TWO128 else 0) == x + y
  {
    if x + y >= TWO128 then (x + y - TWO128, true) else (x + y, false)
  }

  function OverflowingAdd(x: U256, y: U256): (r: (U256, bool))
    ensures Val(r.0) + (if r.1 then TWO256 else 0) == Val(x) + Val(y)
  {
    var (high, highOverflow) := OverflowingAdd128(x.hi, y.hi);
    var (low, lowOverflow) := OverflowingAdd128(x.lo, y.lo);
    if lowOverflow then
      var (high', overflow) := OverflowingAdd128(high, 1);
      (U256(high', low), highOverflow || overflow)
    else
      (U256(high, low), highOverflow)
  }

  function WrappingAdd(x: U256, y: U256): (r: U256)
    ensures Val(r) == (Val(x) + Val(y)) % TWO256
  {
    ModOnce(Val(x) + Val(y), TWO256);
    OverflowingAdd(x, y).0
  }

  function OverflowingSub(x: U256, y: U256): (r: (U256, bool))
    ensures Val(r.0) == Val(x) - Val(y) + (if r.1 then TWO256 else 0)
    ensures r.1 <==> Val(x) < Val(y)
  {
    var sum := WrappingAdd(x, Not(y));
    ModOnce(Val(x) + Val(Not(y)), TWO256);
    ModOnce(Val(sum) + 1, TWO256);
    LessIsNumeric(x, y);
    (WrappingAdd(sum, ONE), Less(x, y))
  }

  function WrappingSub(x: U256, y: U256): (r: U256)
    ensures Val(r) == Val(x) - Val(y) + (if Val(x) < Val(y) then TWO256 else 0)
  {
    OverflowingSub(x, y).0
  }

  function WrappingInc(x: U256): (r: U256)
    ensures Val(r) == if x == MAX then 0 else Val(x) + 1
  {
    var low := OverflowingAdd128(x.lo, 1).0;
    U256(if low == 0 then OverflowingAdd128(x.hi, 1).0 else x.hi, low)
  }

  // ---- shifts, whose amount is masked to eight bits ----

  function WrappingShl(x: U256, amount: nat): (r: U256)
    ensures Val(r) == (Val(x) * Pow(2, amount % 256)) % TWO256
  {
    var shift := amount % 256;
    var bitShift := shift % 128;
    ModOnce(shift, 128);
    if shift >= 128 then
      ShlWord(x, bitShift);
      U256(Shl128(x.lo, bitShift), 0)
    else if bitShift > 0 then
      ShlBits(x, bitShift);
      U256(Shl128(x.hi, bitShift) + Shr128(x.lo, 128 - bitShift), Shl128(x.lo, bitShift))
    else
      SmallMod(Val(x), TWO256);
      x
  }

  lemma {:induction false} ShlWord(x: U256, k: nat)
    requires k < 128
    ensures Shl128(x.lo, k) * TWO128 == (Val(x) * Pow(2, 128 + k)) % TWO256
  {
    Pow128();
    PowAdd(2, 128, k);
    ShlWordLimbs(x.hi, x.lo, Pow(2, k), TWO128);
  }

  lemma {:induction false} ShlWordLimbs(hi: nat, lo: nat, p: nat, w: nat)
    requires w > 0
    ensures w * w > 0 && (lo * p) % w * w == ((hi * w + lo) * (w * p)) % (w * w)
  {
    var q, r := lo * p / w, (lo * p) % w;
    DivMod(lo * p, w);
    WordProduct(hi, lo, p, w, q, r);
    MulMono(w, r + 1, w);
    RemainderOf((hi * w + lo) * (w * p), w * w, hi * p + q, r * w);
  }

  lemma {:induction false} WordProduct(hi: int, lo: int, p: int, w: int, q: int, r: int)
    requires lo * p == q * w + r
    ensures (hi * w + lo) * (w * p) == (hi * p + q) * (w * w) + r * w
  {
    calc {
      (hi * w + lo) * (w * p);
      { MulAssoc(hi * w + lo, w, p); MulSwap(hi * w + lo, w, p); }
      ((hi * w + lo) * p) * w;
      { MulSwap(hi, w, p); }
      ((hi * p) * w + lo * p) * w;
      ((hi * p + q) * w + r) * w;
      { MulAssoc(hi * p + q, w, w); }
      (hi * p + q) * (w * w) + r * w;
    }
  }

  lemma {:induction false} ShlBits(x: U256, k: nat)
    requires 0 < k < 128
    ensures Shl128(x.hi, k) + Shr128(x.lo, 128 - k) < TWO128
    ensures (Shl128(x.hi, k) + Shr128(x.lo, 128 - k)) * TWO128 + Shl128(x.lo, k)
         == (Val(x) * Pow(2, k)) % TWO256
  {
    Pow128();
    PowAdd(2, k, 128 - k);
    ShlLimbs(x.hi, x.lo, Pow(2, k), Pow(2, 128 - k), TWO128);
  }

  lemma {:induction false} ShlLimbs(hi: nat, lo: nat, p: nat, d: nat, w: nat)
    requires p > 0 && d > 0 && w == p * d && hi < w && lo < w
    ensures (hi * p) % w + lo / d < w
    ensures w * w > 0 && ((hi * p) % w + lo / d) * w + (lo * p) % w == ((hi * w + lo) * p) % (w * w)
  {
    ScaleMod(hi, p, d);
    ScaleMod(lo, p, d);
    DivLt(lo, d, p);
    DivMod(hi * p, w);
    DivMod(lo * p, w);
    Carry(hi, lo, p, hi / d, (hi * p) % w, lo / d, w, (lo * p) % w);
  }

  lemma {:induction false} Carry(hi: nat, lo: nat, p: nat, t: nat, a: nat, b: nat, w: nat, c: nat)
    requires hi * p == t * w + a && lo * p == b * w + c && a + b < w && c < w
    ensures w * w > 0 && (a + b) * w + c == ((hi * w + lo) * p) % (w * w)
  {
    Regroup(hi, lo, p, t, a, b, w, c);
    MulMono(w, a + b, w - 1);
    RemainderOf((hi * w + lo) * p, w * w, t, (a + b) * w + c);
  }

  lemma {:induction false} Regroup(hi: int, lo: int, p: int, t: int, a: int, b: int, w: int, c: int)
    requires hi * p == t * w + a && lo * p == b * w + c
    ensures (hi * w + lo) * p == t * (w * w) + ((a + b) * w + c)
  {}

  function WrappingShr(x: U256, amount: nat): (r: U256)
    ensures Val(r) == Val(x) / Pow(2, amount % 256)
  {
    var shift := amount % 256;
    var bitShift := shift % 128;
    ModOnce(shift, 128);
    if shift >= 128 then
      ShrWord(x, bitShift);
      U256(0, Shr128(x.hi, bitShift))
    else if bitShift > 0 then
      ShrBits(x, bitShift);
      U256(Shr128(x.hi, bitShift), Shr128(x.lo, bitShift) + Shl128(x.hi, 128 - bitShift))
    else
      x
  }

  lemma {:induction false} ShrWord(x: U256, k: nat)
    requires k < 128
    ensures Pow(2, 128 + k) > 0 && Shr128(x.hi, k) == Val(x) / Pow(2, 128 + k)
  {
    Pow128();
    PowAdd(2, 128, k);
    DivDiv(Val(x), TWO128, Pow(2, k));
    DivModUnique(Val(x), TWO128, x.hi, x.lo);
  }

  lemma {:induction false} ShrBits(x: U256, k: nat)
    requires 0 < k < 128
    ensures Shr128(x.lo, k) + Shl128(x.hi, 128 - k) < TWO128
    ensures Shr128(x.hi, k) * TWO128 + Shr128(x.lo, k) + Shl128(x.hi, 128 - k) == Val(x) / Pow(2, k)
  {
    Pow128();
    PowAdd(2, k, 128 - k);
    ShrLimbs(x.hi, x.lo, Pow(2, k), Pow(2, 128 - k), TWO128);
  }

  lemma {:induction false} ShrLimbs(hi: nat, lo: nat, p: nat, d: nat, w: nat)
    requires p > 0 && d > 0 && w == p * d && hi < w && lo < w
    ensures lo / p + (hi * d) % w < w
    ensures (hi / p) * w + (lo / p + (hi * d) % w) == (hi * w + lo) / p
  {
    var t, a, b, c := hi / p, hi % p, lo / p, lo % p;
    DivMod(hi, p);
    DivMod(lo, p);
    DivLt(lo, p, d);
    HighRest(hi, t, a, p, d, w);
    ShrProduct(hi, lo, p, d, w, t, a, b, c);
    DivModUnique(hi * w + lo, p, t * w + (b + a * d), c);
  }

  /** What the high limb leaves over moves down by the complementary shift. */
  lemma {:induction false} HighRest(hi: nat, t: nat, a: nat, p: nat, d: nat, w: nat)
    requires hi == t * p + a && a < p && d > 0 && w == p * d
    ensures (hi * d) % w == a * d <= w - d
  {
    MulMono(d, a + 1, p);
    assert d * (a + 1) == a * d + d && d * p == w;
    MulAssoc(t, p, d);
    assert (t * p + a) * d == t * p * d + a * d;
    RemainderOf(hi * d, w, t, a * d);
  }

  lemma {:induction false} ShrProduct(hi: int, lo: int, p: int, d: int, w: int, t: int, a: int, b: int, c: int)
    requires hi == t * p + a && lo == b * p + c && w == p * d
    ensures hi * w + lo == (t * w + (b + a * d)) * p + c
  {
    calc {
      hi * w + lo;
      (t * p + a) * w + b * p + c;
      { MulSwap(t, p, w); MulSwap(a, d, p); MulAssoc(a, p, d); }
      (t * w) * p + (a * d) * p + b * p + c;
      (t * w + (b + a * d)) * p + c;
    }
  }
}
