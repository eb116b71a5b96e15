/** The looping operations of the 256-bit integer: multiplication, division, decimal output, inversion. */
module Uint256Ops {
  import opened Arith
  import opened Bits
  import opened Radix
  import Decimal
  import opened Uint256

  // ---- multiplication by one word ----

  /** Wrapping product with an exact overflow flag. */
  method MulU64(x: U256, rhs: u64) returns (r: U256, overflow: bool)
    ensures Val(r) == (Val(x) * rhs) % TWO256
    ensures overflow <==> Val(x) * rhs >= TWO256
  {
    var splitLe := new u64[4];
    splitLe[0], splitLe[1] := x.lo % TWO64, x.lo / TWO64;
    splitLe[2], splitLe[3] := x.hi % TWO64, x.hi / TWO64;
    SplitVal(x, splitLe[..]);
    var carry := MulInPlace(splitLe, rhs);
    MulResult(Val(x), rhs, splitLe[..], carry);
    assert splitLe[..] == [splitLe[0], splitLe[1], splitLe[2], splitLe[3]];
    r, overflow := JoinWords(splitLe[0], splitLe[1], splitLe[2], splitLe[3]), carry != 0;
  }

  lemma {:induction false} SplitVal(x: U256, w: seq<nat>)
    requires w == [x.lo % TWO64, x.lo / TWO64, x.hi % TWO64, x.hi / TWO64]
    ensures Le(w, TWO64) == Val(x)
  {
    FourWords(w);
  }

  /** Multiplies the words, least significant first, leaving the part that does not fit in the carry. */
  method MulInPlace(words: array<u64>, rhs: u64) returns (carry: u64)
    modifies words
    ensures Le(words[..], TWO64) + Pow(TWO64, words.Length) * carry == rhs * Le(old(words[..]), TWO64)
  {
    carry := 0;
    for i := 0 to words.Length
      invariant forall j :: i <= j < words.Length ==> words[j] == old(words[j])
      invariant Le(words[..i], TWO64) + Pow(TWO64, i) * carry == rhs * Le(old(words[..])[..i], TWO64)
    {
      var n := MulAddWord(carry, rhs, words[i]);
      MulStep(words[..i], old(words[..])[..i], rhs, words[i], carry, n);
      ghost var before: seq<nat> := words[..i];
      words[i] := n % TWO64;
      carry := n / TWO64;
      assert words[..i + 1] == before + [n % TWO64];
      assert old(words[..])[..i + 1] == old(words[..])[..i] + [old(words[i])];
    }
    assert words[..words.Length] == words[..];
    assert old(words[..])[..words.Length] == old(words[..]);
  }

  /** The four words put back into two limbs with shifts and or. */
  function JoinWords(w0: u64, w1: u64, w2: u64, w3: u64): (r: U256)
    ensures Val(r) == Le([w0, w1, w2, w3], TWO64)
  {
    Pow64();
    OrDisjoint(w0, w1, 64);
    OrDisjoint(w2, w3, 64);
    FourWords([w0, w1, w2, w3]);
    U256(Or(w2, w3 * TWO64), Or(w0, w1 * TWO64))
  }

  lemma {:induction false} FourWords(w: seq<nat>)
    requires |w| == 4
    ensures Le(w, TWO64) == (w[3] * TWO64 + w[2]) * TWO128 + w[1] * TWO64 + w[0]
  {
    var w1 := w[1..];
    var w2 := w1[1..];
    var w3 := w2[1..];
    assert Le(w3, TWO64) == w[3] by { assert w3 == [w[3]] && Le(w3[1..], TWO64) == 0; }
    assert Le(w2, TWO64) == w[2] + TWO64 * w[3];
    assert Le(w1, TWO64) == w[1] + TWO64 * Le(w2, TWO64);
  }

  /** The widening step never leaves 128 bits. */
  function MulAddWord(carry: u64, rhs: u64, word: u64): (n: u128)
    ensures n == carry + rhs * word && n / TWO64 < TWO64
  {
    MulMono(rhs, word, TWO64 - 1);
    DivLt(carry + rhs * word, TWO64, TWO64);
    carry + rhs * word
  }

  lemma {:induction false} MulStep(done: seq<nat>, src: seq<nat>, rhs: nat, word: nat, carry: nat, n: nat)
    requires |done| == |src| && n == carry + rhs * word
    requires Le(done, TWO64) + Pow(TWO64, |src|) * carry == rhs * Le(src, TWO64)
    ensures Le(done + [n % TWO64], TWO64) + Pow(TWO64, |src| + 1) * (n / TWO64) == rhs * Le(src + [word], TWO64)
  {
    LeAppend(done, n % TWO64, TWO64);
    LeAppend(src, word, TWO64);
    MulStepArith(Pow(TWO64, |src|), TWO64, carry, rhs, word, Le(done, TWO64), Le(src, TWO64), n / TWO64, n % TWO64);
  }

  lemma {:induction false} MulStepArith(p: nat, b: nat, carry: nat, rhs: nat, word: nat, d: nat, s: nat, q: nat, r: nat)
    requires carry + rhs * word == q * b + r && d + p * carry == rhs * s
    ensures d + p * r + (b * p) * q == rhs * (s + p * word)
  {}

  lemma {:induction false} MulResult(v: nat, rhs: nat, w: seq<nat>, carry: nat)
    requires |w| == 4 && AllBelow(w, TWO64)
    requires Le(w, TWO64) + Pow(TWO64, 4) * carry == rhs * v
    ensures (v * rhs) % TWO256 == Le(w, TWO64)
    ensures carry != 0 <==> v * rhs >= TWO256
  {
    LeBound(w, TWO64);
    assert Pow(TWO64, 4) == TWO256;
    DivModUnique(v * rhs, TWO256, carry, Le(w, TWO64));
  }

  // ---- full multiplication ----

  /** The fourth word's partial product is added without being shifted into place. */
  method OverflowingMul(x: U256, rhs: U256) returns (r: U256, overflow: bool)
    ensures Val(r) == (Val(x) * (Val(rhs) % TWO192 + Val(rhs) / TWO192)) % TWO256
    ensures overflow <==> MulFlag(Val(x), Val(rhs))
  {
    r := ZERO;
    SmallMod(0, TWO256);
    for i := 0 to 3
      invariant Val(r) == (Val(x) * (Val(rhs) % Pow(2, 64 * i))) % TWO256
    {
      var toMul: u64 := WrappingShr(rhs, 64 * i).lo % TWO64;
      var mulRes, _ := MulU64(x, toMul);
      AddWord(x, rhs, i, r, toMul, mulRes);
      r := WrappingAdd(r, WrappingShl(mulRes, 64 * i));
    }
    Pow192();
    r, overflow := AddTopWord(x, rhs, r);
  }

  method AddTopWord(x: U256, rhs: U256, low: U256) returns (r: U256, overflow: bool)
    requires Val(low) == (Val(x) * (Val(rhs) % TWO192)) % TWO256
    ensures Val(r) == (Val(x) * (Val(rhs) % TWO192 + Val(rhs) / TWO192)) % TWO256
    ensures overflow <==> MulFlag(Val(x), Val(rhs))
  {
    Pow192();
    TopWord(rhs);
    var toMul: u64 := WrappingShr(rhs, 192).lo % TWO64;
    var mulRes, wide := MulU64(x, toMul);
    var (sum, carried) := OverflowingAdd(low, mulRes);
    ModSum(Val(x), Val(rhs) % TWO192, Val(rhs) / TWO192, Val(sum), if carried then 1 else 0);
    r, overflow := sum, wide || carried;
  }

  lemma {:induction false} TopWord(rhs: U256)
    ensures WrappingShr(rhs, 192).lo % TWO64 == Val(rhs) / TWO192
  {
    Pow192();
    SmallMod(192, 256);
    DivLt(Val(rhs), TWO192, TWO64);
    SmallWord(WrappingShr(rhs, 192));
  }

  lemma {:induction false} Pow192()
    ensures Pow(2, 192) == TWO192
  {
    Pow64();
    Pow128();
    PowAdd(2, 128, 64);
  }

  lemma {:induction false} SmallWord(y: U256)
    requires Val(y) < TWO64
    ensures y.lo % TWO64 == Val(y)
  {}

  lemma {:induction false} ModSum(x: nat, a: nat, b: nat, s: nat, c: nat)
    requires s < TWO256 && s + c * TWO256 == (x * a) % TWO256 + (x * b) % TWO256
    ensures s == (x * (a + b)) % TWO256
  {
    ModAdd(x * a, (x * b) % TWO256, TWO256);
    ModAdd(x * b, x * a, TWO256);
    RemainderOf((x * a) % TWO256 + (x * b) % TWO256, TWO256, c, s);
    assert x * (a + b) == x * b + x * a;
  }

  lemma {:induction false} LowWord(y: U256)
    ensures y.lo % TWO64 == Val(y) % TWO64
  {
    DivAddMul(y.lo, y.hi * TWO64, TWO64);
  }

  lemma {:induction false} AddWord(x: U256, rhs: U256, i: nat, r: U256, word: nat, mulRes: U256)
    requires i < 3
    requires Val(r) == (Val(x) * (Val(rhs) % Pow(2, 64 * i))) % TWO256
    requires word == WrappingShr(rhs, 64 * i).lo % TWO64 && Val(mulRes) == (Val(x) * word) % TWO256
    ensures Val(WrappingAdd(r, WrappingShl(mulRes, 64 * i))) == (Val(x) * (Val(rhs) % Pow(2, 64 * (i + 1)))) % TWO256
  {
    PartialProduct(x, rhs, i, Val(r), word);
  }

  lemma {:induction false} PartialProduct(x: U256, rhs: U256, i: nat, acc: nat, word: nat)
    requires i < 3
    requires acc == (Val(x) * (Val(rhs) % Pow(2, 64 * i))) % TWO256
    requires word == WrappingShr(rhs, 64 * i).lo % TWO64
    ensures (acc + ((Val(x) * word) % TWO256 * Pow(2, (64 * i) % 256)) % TWO256) % TWO256
         == (Val(x) * (Val(rhs) % Pow(2, 64 * (i + 1)))) % TWO256
  {
    SmallMod(64 * i, 256);
    LowWord(WrappingShr(rhs, 64 * i));
    NextWord(Val(rhs), i);
    AccumulateMod(Val(x), Val(rhs) % Pow(2, 64 * i), word, Pow(2, 64 * i), TWO256);
  }

  lemma {:induction false} NextWord(v: nat, i: nat)
    ensures v % Pow(2, 64 * (i + 1)) == (v / Pow(2, 64 * i) % TWO64) * Pow(2, 64 * i) + v % Pow(2, 64 * i)
  {
    Pow64();
    PowAdd(2, 64 * i, 64);
    DivDiv(v, Pow(2, 64 * i), TWO64);
  }

  lemma {:induction false} AccumulateMod(x: nat, low: nat, word: nat, p: nat, m: nat)
    requires m > 0
    ensures ((x * low) % m + ((x * word) % m * p) % m) % m == (x * (word * p + low)) % m
  {
    ModMul(x * word, p, m);
    ModAdd(x * low, (x * word * p) % m, m);
    ModAdd(x * word * p, x * low, m);
    assert x * (word * p + low) == x * word * p + x * low;
  }

  /** What the overflow flag of the product reports. */
  ghost predicate MulFlag(x: nat, y: nat)
  {
    x * (y / TWO192) >= TWO256 ||
    (x * (y % TWO192)) % TWO256 + (x * (y / TWO192)) % TWO256 >= TWO256
  }

  /** For a right operand below 2^192 the product is exact modulo 2^256, but the flag is never set:
      it is right exactly when nothing overflows. */
  lemma {:induction false} MulBelow192(x: nat, y: nat)
    requires y < TWO192
    ensures (x * (y % TWO192 + y / TWO192)) % TWO256 == (x * y) % TWO256
    ensures !MulFlag(x, y)
    ensures (MulFlag(x, y) <==> x * y >= TWO256) <==> x * y < TWO256
  {}

  /** 2^255 times two wraps to zero with the flag clear. */
  lemma {:induction false} MulFlagCounterexample()
    ensures var x := TWO256 / 2; x * 2 >= TWO256 && !MulFlag(x, 2)
  {}

  /** The low product, wrapped, and the unshifted fourth one together reach 2^256. */
  predicate PartialsOverflow(x: nat, y: nat)
  {
    (x * (y % TWO192)) % TWO256 + x * (y / TWO192) >= TWO256
  }

  /** `PartialsOverflow` is the flag without its wrapping additions. What is new here is that the flag
      never gives a false alarm, so it is right exactly when it is set or the product fits, and that
      setting it takes operands of at least 2^64 and 2^192. */
  lemma {:induction false} MulFlagRightIff(x: nat, y: nat)
    requires y < TWO256
    ensures MulFlag(x, y) ==> x * y >= TWO256
    ensures (MulFlag(x, y) <==> x * y >= TWO256) <==> x * y < TWO256 || PartialsOverflow(x, y)
    ensures PartialsOverflow(x, y) ==> x >= TWO64 && y >= TWO192
  {
    var l, h := y % TWO192, y / TWO192;
    DivMod(y, TWO192);
    FlagOfPartials(x * l, x * h);
    PartialsBelowProduct(x, l, h, TWO192);
    if x < TWO64 { SmallPartials(x, l, h); }
    if y < TWO192 { SmallMod(y, TWO192); }
    DivMod(x * l, TWO256);
  }

  lemma {:induction false} FlagOfPartials(a: nat, b: nat)
    ensures b >= TWO256 || a % TWO256 + b % TWO256 >= TWO256 <==> a % TWO256 + b >= TWO256
    ensures a % TWO256 <= a
  {}

  lemma {:induction false} PartialsBelowProduct(x: nat, l: nat, h: nat, w: nat)
    requires w > 0
    ensures x * l + x * h <= x * (h * w + l)
  {
    MulMono(h, 1, w);
    MulMono(x, h, h * w);
    assert x * (h * w + l) == x * (h * w) + x * l;
  }

  lemma {:induction false} SmallPartials(x: nat, l: nat, h: nat)
    requires x < TWO64 && l < TWO192 && h < TWO64
    ensures x * l + x * h < TWO256
  {
    MulMono(x, l + h, TWO192 + TWO64);
    MulMono(TWO192 + TWO64, x, TWO64 - 1);
    assert x * (l + h) == x * l + x * h;
  }

  /** The product is the right one exactly when the fourth word contributes nothing modulo 2^256. */
  lemma {:induction false} MulExactIff(x: nat, y: nat)
    ensures (x * (y % TWO192 + y / TWO192)) % TWO256 == (x * y) % TWO256
       <==> (x * (y / TWO192)) % TWO256 == 0
  {
    var h := x * (y / TWO192);
    var got, want := x * (y % TWO192 + y / TWO192), x * y;
    assert want == got + (TWO192 - 1) * h by {
      DivMod(y, TWO192);
      assert y == y % TWO192 + y / TWO192 + (TWO192 - 1) * (y / TWO192);
      assert x * ((TWO192 - 1) * (y / TWO192)) == (TWO192 - 1) * h;
    }
    var d := (TWO192 - 1) * h;
    if h % TWO256 == 0 {
      DivMod(h, TWO256);
      assert d == ((TWO192 - 1) * (h / TWO256)) * TWO256;
      DivAddMul(got, (TWO192 - 1) * (h / TWO256), TWO256);
    }
    if got % TWO256 == want % TWO256 {
      SameRemainder(got, want, TWO256);
      var k := want / TWO256 - got / TWO256;
      // 2^192 - 1 is invertible: (2^192 - 1) * (2^192 + 1) = 2^384 - 1
      assert h == h * TWO128 * TWO256 - (TWO192 + 1) * d;
      assert h == (h * TWO128 - (TWO192 + 1) * k) * TWO256;
      DivOfMul(h * TWO128 - (TWO192 + 1) * k, TWO256);
    }
  }

  lemma {:induction false} SameRemainder(a: int, b: int, m: int)
    requires m > 0 && a % m == b % m
    ensures b - a == (b / m - a / m) * m
  {}

  // ---- division ----

  /** `|= 1 << shift` on the limb that holds bit `shift`, all bits up to it being clear. */
  function SetBit(x: U256, shift: nat): (r: U256)
    requires shift < 256 && Val(x) % Pow(2, shift + 1) == 0
    ensures Val(r) == Val(x) + Pow(2, shift)
  {
    if shift < 128 then SetLowBit(x, shift) else SetHighBit(x, shift - 128)
  }

  function SetLowBit(x: U256, k: nat): (r: U256)
    requires k < 128 && Val(x) % Pow(2, k + 1) == 0
    ensures Val(r) == Val(x) + Pow(2, k)
  {
    LowLimbClear(x, k);
    LimbBit(x.lo, k);
    U256(x.hi, Or(x.lo, Pow(2, k)))
  }

  function SetHighBit(x: U256, k: nat): (r: U256)
    requires k < 128 && Val(x) % Pow(2, 128 + k + 1) == 0
    ensures Val(r) == Val(x) + Pow(2, 128 + k)
  {
    HighLimbClear(x, k);
    LimbBit(x.hi, k);
    HighPower(k);
    U256(Or(x.hi, Pow(2, k)), x.lo)
  }

  lemma {:induction false} HighPower(k: nat)
    ensures Pow(2, 128 + k) == TWO128 * Pow(2, k)
  {
    Pow128();
    PowAdd(2, 128, k);
  }

  lemma {:induction false} LowLimbClear(x: U256, k: nat)
    requires k < 128 && Val(x) % Pow(2, k + 1) == 0
    ensures x.lo % Pow(2, k + 1) == 0
  {
    Pow128();
    PowAdd(2, k + 1, 127 - k);
    LowPart(x.hi, x.lo, Pow(2, k + 1), Pow(2, 127 - k));
  }

  lemma {:induction false} LowPart(hi: nat, lo: nat, d: nat, e: nat)
    requires d > 0
    ensures (hi * (d * e) + lo) % d == lo % d
  {
    assert hi * (d * e) == (hi * e) * d by {
      MulAssoc(hi, e, d);
    }
    DivAddMul(lo, hi * e, d);
  }

  lemma {:induction false} HighLimbClear(x: U256, k: nat)
    requires Val(x) % Pow(2, 128 + k + 1) == 0
    ensures x.hi % Pow(2, k + 1) == 0
  {
    Pow128();
    PowAdd(2, 128, k + 1);
    DivDiv(Val(x), TWO128, Pow(2, k + 1));
    DivModUnique(Val(x), TWO128, x.hi, x.lo);
  }

  lemma {:induction false} LimbBit(l: u128, k: nat)
    requires k < 128 && l % Pow(2, k + 1) == 0
    ensures Or(l, Pow(2, k)) == l + Pow(2, k) < TWO128
  {
    var p, b := Pow(2, k + 1), l / Pow(2, k + 1);
    Pow128();
    PowAdd(2, k + 1, 127 - k);
    MultipleGap(l, p, Pow(2, 127 - k));
    OrDisjoint(Pow(2, k), b, k + 1);
    OrComm(l, Pow(2, k));
  }

  lemma {:induction false} DivisionStart(x: nat, y: nat, shift: nat)
    requires 0 < y && BitLen(x) <= 256 && BitLen(x) == BitLen(y) + shift
    ensures shift < 256 && (y * Pow(2, shift % 256)) % TWO256 == y * Pow(2, shift)
    ensures x < y * Pow(2, shift + 1)
  {
    ShiftBounds(y, BitLen(y), shift);
    Pow2AtMost(BitLen(x));
    NoShiftLoss(y, shift);
  }

  lemma {:induction false} NoShiftLoss(y: nat, shift: nat)
    requires shift < 256 && y * Pow(2, shift) < TWO256
    ensures (y * Pow(2, shift % 256)) % TWO256 == y * Pow(2, shift)
  {
    SmallMod(y * Pow(2, shift), TWO256);
  }

  lemma {:induction false} Pow2AtMost(e: nat)
    requires e <= 256
    ensures Pow(2, e) <= TWO256
  {
    Pow256();
    PowMono(2, e, 256);
  }

  lemma {:induction false} ShiftBounds(y: nat, n: nat, shift: nat)
    requires n > 0 && Pow(2, n - 1) <= y < Pow(2, n)
    ensures y * Pow(2, shift) < Pow(2, n + shift) <= y * Pow(2, shift + 1)
  {
    PowAdd(2, n, shift);
    PowAdd(2, n - 1, shift + 1);
    MulMono(Pow(2, shift), y + 1, Pow(2, n));
    assert Pow(2, shift) * (y + 1) == y * Pow(2, shift) + Pow(2, shift);
    MulMono(Pow(2, shift + 1), Pow(2, n - 1), y);
  }

  /** What the loop keeps: the quotient bits found so far, all above bit `p`, and what is left to divide. */
  ghost predicate Divided(x: nat, y: nat, ret: nat, sub: nat, p: nat)
  {
    p > 0 && ret % p == 0 && x == ret * y + sub && sub < y * p
  }

  lemma {:induction false} DividedStart(x: nat, y: nat, p: nat)
    requires p > 0 && x < y * p
    ensures Divided(x, y, 0, x, p)
  {}

  /** Either branch of the loop body halves the open range. */
  lemma {:induction false} DividedStep(x: nat, y: nat, ret: nat, sub: nat, p: nat)
    requires p > 0 && Divided(x, y, ret, sub, 2 * p)
    ensures sub >= y * p ==> Divided(x, y, ret + p, sub - y * p, p)
    ensures sub < y * p ==> Divided(x, y, ret, sub, p)
  {
    assert y * (2 * p) == y * p + y * p;
    assert ret % p == 0 by {
      ModMod(ret, p, 2);
      assert p * 2 == 2 * p;
      SmallMod(0, p);
    }
    DivAddMul(ret, 1, p);
    assert (ret + p) * y == ret * y + y * p;
  }

  lemma {:induction false} HalveShifted(y: nat, p: nat)
    ensures (y * (2 * p)) / Pow(2, 1 % 256) == y * p
  {
    SmallMod(1, 256);
    assert Pow(2, 1) == 2;
    assert y * (2 * p) == (y * p) * 2;
    DivOfMul(y * p, 2);
  }

  /** Bitwise long division. The source panics on a zero divisor. */
  method DivRem(x: U256, rhs: U256) returns (q: U256, r: U256)
    requires Val(rhs) != 0
    ensures Val(q) == Val(x) / Val(rhs)
    ensures Val(r) == Val(x) % Val(rhs)
  {
    var myBits, yourBits := NumBits(x), NumBits(rhs);
    if myBits < yourBits {
      PowMono(2, myBits, yourBits - 1);
      SmallMod(Val(x), Val(rhs));
      return ZERO, x;
    }
    var shift := myBits - yourBits;
    DivisionStart(Val(x), Val(rhs), shift);
    q, r := LongDivision(x, rhs, WrappingShl(rhs, shift), shift);
    DivModUnique(Val(x), Val(rhs), Val(q), Val(r));
  }

  /** The quotient bit at `shift`: set it and subtract when the shifted divisor fits. */
  function DivisionRound(
      ghost x: nat, ghost y: nat, ret: U256, subCopy: U256, shiftCopy: U256, shift: nat)
      : (r: (U256, U256))
    requires shift < 256 && Val(shiftCopy) == y * Pow(2, shift)
    requires Divided(x, y, Val(ret), Val(subCopy), Pow(2, shift + 1))
    ensures Divided(x, y, Val(r.0), Val(r.1), Pow(2, shift))
  {
    DividedStep(x, y, Val(ret), Val(subCopy), Pow(2, shift));
    LessIsNumeric(subCopy, shiftCopy);
    if Less(subCopy, shiftCopy) then (ret, subCopy)
    else (SetBit(ret, shift), WrappingSub(subCopy, shiftCopy))
  }

  method LongDivision(x: U256, ghost rhs: U256, shifted: U256, topShift: nat) returns (ret: U256, subCopy: U256)
    requires topShift < 256 && Val(shifted) == Val(rhs) * Pow(2, topShift)
    requires Val(x) < Val(rhs) * Pow(2, topShift + 1)
    ensures Divided(Val(x), Val(rhs), Val(ret), Val(subCopy), 1)
  {
    var shift, shiftCopy := topShift, shifted;
    ret, subCopy := ZERO, x;
    DividedStart(Val(x), Val(rhs), Pow(2, shift + 1));
    while true
      invariant shift < 256
      invariant Val(shiftCopy) == Val(rhs) * Pow(2, shift)
      invariant Divided(Val(x), Val(rhs), Val(ret), Val(subCopy), Pow(2, shift + 1))
      decreases shift
    {
      var round := DivisionRound(Val(x), Val(rhs), ret, subCopy, shiftCopy, shift);
      ret, subCopy := round.0, round.1;
      shiftCopy := WrappingShr(shiftCopy, 1);
      if shift == 0 {
        break;
      }
      HalveShifted(Val(rhs), Pow(2, shift - 1));
      shift := shift - 1;
    }
  }

  // ---- inversion ----

  /** Work from target and target from work: the quotient of 2^256 by one more than x, the ends pinned. */
  method Inverse(x: U256) returns (r: U256)
    ensures Val(r) == if Val(x) < 2 then TWO256 - 1 else TWO256 / (Val(x) + 1)
  {
    if x == ZERO || x == ONE {
      return MAX;
    }
    if x == MAX {
      return ONE;
    }
    var q, _ := DivRem(Not(x), WrappingInc(x));
    InverseIdentity(Val(x));
    ValInjectiveAt(x);
    r := WrappingInc(q);
  }

  lemma {:induction false} ValInjectiveAt(x: U256)
    ensures x != MAX ==> Val(x) < TWO256 - 1
    ensures x != ZERO && x != ONE ==> Val(x) >= 2
  {}

  /** 2^256 / (n + 1) == (2^256 - 1 - n) / (n + 1) + 1 */
  lemma {:induction false} InverseIdentity(n: nat)
    requires 1 < n < TWO256 - 1
    ensures (TWO256 - 1 - n) / (n + 1) + 1 == TWO256 / (n + 1) < TWO256 - 1
  {
    DivAddMul(TWO256 - 1 - n, 1, n + 1);
    DivLt(TWO256, n + 1, TWO256 - 1);
    MulMono(TWO256 - 1, 3, n + 1);
  }

  // ---- decimal output ----

  const DIGITS := 78

  /** Some of the digits of n are still to be taken from v, the others are written. */
  ghost predicate Peeled(n: nat, v: nat, written: string, room: nat)
  {
    v < Pow(10, room) && Decimal.Digits(n) == Decimal.Digits(v) + written
  }

  method SplitDigit(x: U256) returns (rest: U256, digit: nat)
    ensures Val(rest) == Val(x) / 10 && digit == Val(x) % 10
    ensures rest != ZERO ==> Val(rest) > 0
  {
    var rem;
    rest, rem := DivRem(x, U256(0, 10));
    digit := rem.lo;
  }

  method EmitDigit(ghost n: nat, cur: U256, buf: array<char>, i: nat) returns (rest: U256)
    requires i < buf.Length && 0 < Val(cur) && Peeled(n, Val(cur), buf[i + 1..], i + 1)
    modifies buf
    ensures Peeled(n, Val(rest), buf[i..], i)
    ensures rest != ZERO ==> 0 < Val(rest) && 0 < i
  {
    PeelDigit(n, Val(cur), buf[i + 1..], i);
    ghost var tail := buf[i + 1..];
    var digit;
    rest, digit := SplitDigit(cur);
    buf[i] := Decimal.DigitChar(digit);
    assert buf[i..] == [Decimal.DigitChar(digit)] + tail;
  }

  lemma {:induction false} PeelDigit(n: nat, v: nat, tail: string, i: nat)
    requires 0 < v && Peeled(n, v, tail, i + 1)
    ensures Peeled(n, v / 10, [Decimal.DigitChar(v % 10)] + tail, i)
    ensures v / 10 > 0 ==> i > 0
  {
    var c := Decimal.DigitChar(v % 10);
    assert Decimal.Digits(v) == Decimal.Digits(v / 10) + [c];
    Assoc(Decimal.Digits(v / 10), [c], tail);
    DivLt(v, 10, Pow(10, i));
  }

  /** Digits are produced backwards into a 78-character buffer, which is always long enough. */
  method FmtDecimal(x: U256) returns (s: string)
    ensures s == Decimal.Text(Val(x))
  {
    if x == ZERO {
      return "0";
    }
    DecimalBound();
    var buf := new char[DIGITS](_ => '\0');
    var i := WriteDigits(x, buf);
    s := buf[i..];
  }

  method WriteDigits(x: U256, buf: array<char>) returns (i: nat)
    requires 0 < Val(x) < Pow(10, buf.Length)
    modifies buf
    ensures i < buf.Length && buf[i..] == Decimal.Digits(Val(x))
  {
    i := buf.Length - 1;
    var cur := x;
    while true
      invariant i < buf.Length && 0 < Val(cur)
      invariant Peeled(Val(x), Val(cur), buf[i + 1..], i + 1)
      decreases i
    {
      cur := EmitDigit(Val(x), cur, buf, i);
      if cur == ZERO {
        break;
      }
      i := i - 1;
    }
  }

  lemma {:induction false} TenTo24()
    ensures Pow(10, 24) == 1_000_000_000_000_000_000_000_000
  {
    assert Pow(10, 3) == 1000;
    PowAdd(10, 3, 3);
    PowAdd(10, 6, 6);
    PowAdd(10, 12, 12);
  }

  lemma {:induction false} DecimalBound()
    ensures TWO256 <= Pow(10, 78)
  {
    TenTo24();
    assert Pow(10, 6) == 1_000_000;
    PowAdd(10, 24, 24);
    PowAdd(10, 48, 24);
    PowAdd(10, 72, 6);
  }
}
