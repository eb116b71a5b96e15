/** The 32-bit compact form of a 256-bit target ("nBits"), bitcoin/src/pow.rs. */
module Compact {
  import opened Arith
  import opened Bits
  import opened Uint256

  const TWO15: nat := 0x8000
  const TWO23: nat := 0x80_0000
  const TWO24: nat := 0x100_0000


  // ---- what the two conversions compute ----

  /** The target that a compact value stands for; shift amounts keep only their low eight bits. */
  function TargetOf(bits: u32): (t: nat)
    ensures t < TWO256
  {
    var e, m := bits / TWO24, bits % TWO24;
    if e <= 3 then
      var mant := m / Pow(256, 3 - e);
      MantissaShrinks(m, 3 - e);
      if mant >= TWO23 then 0 else mant
    else if m >= TWO23 then 0
    else (m * Pow(2, (8 * (e - 3)) % 256)) % TWO256
  }

  lemma {:induction false} MantissaShrinks(m: nat, k: nat)
    ensures m / Pow(256, k) <= m
  {
    DivLt(m, Pow(256, k), m + 1);
    MulMono(m + 1, 1, Pow(256, k));
  }

  /** The least number of bytes that hold n. */
  function ByteLen(n: nat): (z: nat)
    ensures n < Pow(256, z)
    ensures n > 0 ==> z > 0 && Pow(256, z - 1) <= n
    ensures n == 0 ==> z == 0
  {
    var z := (BitLen(n) + 7) / 8;
    BytePower(z);
    PowMono(2, BitLen(n), 8 * z);
    if n > 0 then
      BytePower(z - 1);
      PowMono(2, 8 * (z - 1), BitLen(n) - 1);
      z
    else z
  }

  /** The three most significant bytes. */
  function TopBytes(n: nat): (m: nat)
  {
    var z := ByteLen(n);
    if z <= 3 then Times(n, Pow(256, 3 - z)) else Quotient(n, Pow(256, z - 3))
  }

  function CompactOf(n: nat): (c: nat)
  {
    var z, m := ByteLen(n), TopBytes(n);
    if m >= TWO23 then m / 256 + (z + 1) * TWO24 else m + z * TWO24
  }

  // ---- the normal form of a compact value ----

  /** Mantissa m with exponent s is n rounded down: m * 256^(s - 3) <= n < (m + 1) * 256^(s - 3). */
  ghost predicate Rounds(n: nat, m: nat, s: nat)
  {
    TWO15 <= m < TWO23 && m * Pow(256, s) <= n * TWO24 < (m + 1) * Pow(256, s)
  }

  lemma {:induction false} TopBytesRound(n: nat)
    requires n > 0
    ensures 0x1_0000 <= TopBytes(n) < TWO24
    ensures TopBytes(n) * Pow(256, ByteLen(n)) <= n * TWO24 < (TopBytes(n) + 1) * Pow(256, ByteLen(n))
  {
    var z := ByteLen(n);
    assert Pow(256, 3) == TWO24 && Pow(256, 2) == 0x1_0000;
    if z <= 3 {
      PowAdd(256, 3 - z, z);
      PowAdd(256, 3 - z, z - 1);
      PadBytes(n, Pow(256, 3 - z), Pow(256, z - 1), Pow(256, z));
    } else {
      PowAdd(256, z - 3, 3);
      PowAdd(256, z - 3, 2);
      CutBytes(n, Pow(256, z - 3));
    }
  }

  lemma {:induction false} PadBytes(n: nat, p: nat, v: nat, w: nat)
    requires p > 0 && v <= n < w && p * v == 0x1_0000 && p * w == TWO24
    ensures 0x1_0000 <= n * p < TWO24
    ensures (n * p) * w == n * TWO24 < (n * p + 1) * w
  {}

  lemma {:induction false} CutBytes(n: nat, p: nat)
    requires p > 0 && p * 0x1_0000 <= n < p * TWO24
    ensures 0x1_0000 <= n / p < TWO24
    ensures (n / p) * (p * TWO24) <= n * TWO24 < (n / p + 1) * (p * TWO24)
  {}

  /** Every positive target has a normal form, the one the encoder produces. */
  lemma {:induction false} CompactRounds(n: nat)
    requires n > 0
    ensures var c := CompactOf(n); Rounds(n, c % TWO24, c / TWO24) && c / TWO24 >= 1
  {
    var z, m := ByteLen(n), TopBytes(n);
    TopBytesRound(n);
    if m >= TWO23 {
      RoundsNextByte(n, m, z);
      DivModUnique(CompactOf(n), TWO24, z + 1, m / 256);
    } else {
      DivModUnique(CompactOf(n), TWO24, z, m);
    }
  }

  lemma {:induction false} RoundsNextByte(n: nat, m: nat, z: nat)
    requires TWO23 <= m < TWO24 && m * Pow(256, z) <= n * TWO24 < (m + 1) * Pow(256, z)
    ensures Rounds(n, m / 256, z + 1)
  {
    DropByte(n * TWO24, m, Pow(256, z));
  }

  lemma {:induction false} DropByte(n: nat, m: nat, p: nat)
    requires m * p <= n < (m + 1) * p
    ensures (m / 256) * (256 * p) <= n < (m / 256 + 1) * (256 * p)
  {
    var q := m / 256;
    MulMono(p, 256 * q, m);
    MulMono(p, m + 1, 256 * q + 256);
    MulAssoc(q, 256, p);
    MulAssoc(q + 1, 256, p);
  }

  /** Normal forms are ordered like the numbers they round. */
  lemma {:induction false} RoundsOrdered(n1: nat, m1: nat, s1: nat, n2: nat, m2: nat, s2: nat)
    requires n1 <= n2 && Rounds(n1, m1, s1) && Rounds(n2, m2, s2)
    ensures s1 < s2 || (s1 == s2 && m1 <= m2)
  {
    var p1, p2 := Pow(256, s1), Pow(256, s2);
    if s1 > s2 {
      PowMono(256, s2 + 1, s1);
      MulMono(m1, 256 * p2, p1);
      MulMono(256 * p2, TWO15, m1);
      MulMono(p2, m2 + 1, TWO23);
      assert false;
    }
    if s1 == s2 && m1 > m2 {
      MulMono(p1, m2 + 1, m1);
      assert false;
    }
  }

  /** A normal form below exponent three is exact; above, it scales back without the low bytes. */
  lemma {:induction false} RoundsSmall(n: nat, m: nat, s: nat)
    requires s <= 3 && Rounds(n, m, s)
    ensures m == n * Pow(256, 3 - s) && m / Pow(256, 3 - s) == n
  {}

  lemma {:induction false} RoundsLarge(n: nat, m: nat, s: nat)
    requires s >= 3
    ensures (m + 1) * Pow(256, s) == ((m + 1) * Pow(256, s - 3)) * TWO24
    ensures Rounds(n, m, s) <==>
      TWO15 <= m < TWO23 && m * Pow(256, s - 3) <= n < (m + 1) * Pow(256, s - 3)
  {
    assert Pow(256, 3) == TWO24;
    PowAdd(256, s - 3, 3);
    MulAssoc(m, Pow(256, s - 3), TWO24);
    MulAssoc(m + 1, Pow(256, s - 3), TWO24);
  }

  lemma {:induction false} ShiftInRange(m: nat, k: nat)
    requires m >= TWO15 && m * Pow(256, k) < TWO256
    ensures k <= 30 && (8 * k) % 256 == 8 * k && Pow(2, 8 * k) == Pow(256, k)
  {
    if k > 30 {
      PowMono(256, 31, k);
      BytePower(31);
      BigByte();
      MulMono(m, Pow(256, 31), Pow(256, k));
      MulMono(Pow(256, 31), TWO15, m);
      assert false;
    }
    SmallMod(8 * k, 256);
    BytePower(k);
  }

  lemma {:induction false} BigByte()
    ensures Pow(2, 248) * 256 == TWO256
  {
    Pow256();
    PowAdd(2, 248, 8);
    assert Pow(2, 8) == 256;
  }

  /** Decoding a normal compact value of a target that fits. */
  lemma {:induction false} DecodeNormal(bits: u32, n: nat)
    requires Rounds(n, bits % TWO24, bits / TWO24) && n < TWO256
    ensures var m, s := bits % TWO24, bits / TWO24;
      TargetOf(bits) == if s < 3 then n else m * Pow(256, s - 3)
  {
    var m, s := bits % TWO24, bits / TWO24;
    if s <= 3 {
      RoundsSmall(n, m, s);
      MantissaShrinks(m, 3 - s);
    } else {
      ShiftExact(n, m, s);
    }
  }

  lemma {:induction false} ShiftExact(n: nat, m: nat, s: nat)
    requires 3 < s && Rounds(n, m, s) && n < TWO256
    ensures (m * Pow(2, (8 * (s - 3)) % 256)) % TWO256 == m * Pow(256, s - 3)
  {
    RoundsLarge(n, m, s);
    ExactShift(m, s - 3);
  }

  lemma {:induction false} ExactShift(m: nat, k: nat)
    requires m >= TWO15 && m * Pow(256, k) < TWO256
    ensures (m * Pow(2, (8 * k) % 256)) % TWO256 == m * Pow(256, k)
  {
    ShiftInRange(m, k);
    SmallProduct(m, Pow(256, k), Pow(2, (8 * k) % 256));
  }

  lemma {:induction false} SmallProduct(m: nat, p: nat, q: nat)
    requires p == q && m * p < TWO256
    ensures (m * q) % TWO256 == m * p
  {
    SmallMod(Times(m, p), TWO256);
  }

  // ---- the properties ----

  lemma {:induction false} CompactFits(n: nat)
    requires n < TWO256
    ensures CompactOf(n) < 0x2200_0000
  {
    if n > 0 {
      CompactRounds(n);
      ExponentFits(n, CompactOf(n) % TWO24, CompactOf(n) / TWO24);
    }
  }

  lemma {:induction false} ExponentFits(n: nat, m: nat, s: nat)
    requires n < TWO256 && Rounds(n, m, s)
    ensures s <= 33
  {
    if s > 33 {
      RoundsLarge(n, m, s);
      ShiftInRange(m, s - 3);
    }
  }

  /** Encoding keeps the order of targets. */
  lemma {:induction false} CompactOrdered(n1: nat, n2: nat)
    requires n1 <= n2
    ensures CompactOf(n1) <= CompactOf(n2)
  {
    if n1 > 0 {
      var c1, c2 := CompactOf(n1), CompactOf(n2);
      CompactRounds(n1);
      CompactRounds(n2);
      RoundsOrdered(n1, c1 % TWO24, c1 / TWO24, n2, c2 % TWO24, c2 / TWO24);
    }
  }

  /** A normal form determines the encoding. */
  lemma {:induction false} RoundsUnique(n: nat, bits: u32)
    requires Rounds(n, bits % TWO24, bits / TWO24)
    ensures CompactOf(n) == bits
  {
    if n == 0 {
      MulMono(bits % TWO24, 1, Pow(256, bits / TWO24));
      assert false;
    }
    var c := CompactOf(n);
    CompactRounds(n);
    RoundsOrdered(n, c % TWO24, c / TWO24, n, bits % TWO24, bits / TWO24);
    RoundsOrdered(n, bits % TWO24, bits / TWO24, n, c % TWO24, c / TWO24);
  }

  /** Decoding what was encoded loses less than one part in 2^15, never rounds up, and is stable. */
  lemma {:induction false} DecodeEncode(n: nat)
    requires n < TWO256
    ensures CompactOf(n) < TWO32
    ensures var t := TargetOf(CompactOf(n));
      t <= n && (n - t) * TWO15 <= t && CompactOf(t) == CompactOf(n)
  {
    CompactFits(n);
    if n == 0 {
      ZeroCompact();
    } else {
      CompactRounds(n);
      DecodeRounded(CompactOf(n), n);
    }
  }

  lemma {:induction false} ZeroCompact()
    ensures CompactOf(0) == 0 && TargetOf(0) == 0
  {}

  lemma {:induction false} DecodeRounded(c: u32, n: nat)
    requires n < TWO256 && Rounds(n, c % TWO24, c / TWO24)
    ensures var t := TargetOf(c); t <= n && (n - t) * TWO15 <= t && CompactOf(t) == c
  {
    var m, s := c % TWO24, c / TWO24;
    DecodeNormal(c, n);
    if s >= 3 {
      RoundedDown(n, m, s);
      RoundsUnique(m * Pow(256, s - 3), c);
    } else {
      RoundsUnique(n, c);
    }
  }

  lemma {:induction false} RoundedDown(n: nat, m: nat, s: nat)
    requires s >= 3 && Rounds(n, m, s)
    ensures var t := m * Pow(256, s - 3); t <= n && (n - t) * TWO15 <= t && Rounds(t, m, s)
  {
    var p := Pow(256, s - 3);
    RoundsLarge(n, m, s);
    RoundsLarge(m * p, m, s);
    MulMono(p, TWO15, m);
    assert (m + 1) * p == m * p + p;
  }

  /** Targets below 2^23 survive the compact form unchanged. */
  lemma {:induction false} SmallTargetsExact(n: nat)
    requires n < TWO23
    ensures CompactOf(n) < TWO32 && TargetOf(CompactOf(n)) == n
  {
    CompactFits(n);
    if n > 0 {
      var c := CompactOf(n);
      var m, s := c % TWO24, c / TWO24;
      CompactRounds(n);
      DecodeNormal(c, n);
      if s >= 3 {
        RoundsLarge(n, m, s);
        if s > 3 {
          PowMono(256, 1, s - 3);
          MulMono(m, 256, Pow(256, s - 3));
          assert false;
        }
      }
    }
  }

  /** The compact values that the encoder can produce. */
  predicate Canonical(bits: u32)
  {
    var m, s := bits % TWO24, bits / TWO24;
    || bits == 0
    || (TWO15 <= m < TWO23 && 3 <= s && m * Pow(256, s - 3) < TWO256)
    || (TWO15 <= m < TWO23 && 1 <= s < 3 && m % Pow(256, 3 - s) == 0)
  }

  /** Encoding undoes decoding exactly on the canonical compact values. */
  lemma {:induction false} EncodeDecodeIff(bits: u32)
    ensures CompactOf(TargetOf(bits)) == bits <==> Canonical(bits)
  {
    if CompactOf(TargetOf(bits)) == bits { StableIsCanonical(bits); }
    if Canonical(bits) && bits != 0 { CanonicalIsStable(bits); }
  }

  lemma {:induction false} StableIsCanonical(bits: u32)
    requires CompactOf(TargetOf(bits)) == bits
    ensures Canonical(bits)
  {
    var m, s := bits % TWO24, bits / TWO24;
    var t := TargetOf(bits);
    if t > 0 {
      CompactRounds(t);
      RoundsCanonical(t, m, s);
    }
  }

  lemma {:induction false} RoundsCanonical(t: nat, m: nat, s: nat)
    requires t < TWO256 && Rounds(t, m, s)
    ensures s >= 3 ==> m * Pow(256, s - 3) < TWO256
    ensures s < 3 ==> m % Pow(256, 3 - s) == 0
  {
    if s >= 3 {
      RoundsLarge(t, m, s);
    } else {
      RoundsSmall(t, m, s);
      DivOfMul(t, Pow(256, 3 - s));
    }
  }

  lemma {:induction false} CanonicalIsStable(bits: u32)
    requires Canonical(bits) && bits != 0
    ensures CompactOf(TargetOf(bits)) == bits
  {
    var m, s := bits % TWO24, bits / TWO24;
    var t := if s >= 3 then m * Pow(256, s - 3) else m / Pow(256, 3 - s);
    assert Rounds(t, m, s) by {
      if s >= 3 { RoundsLarge(t, m, s); } else { CanonicalSmall(m, s); }
    }
    if s < 3 { CanonicalSmall(m, s); }
    DecodeNormal(bits, t);
    RoundsUnique(t, bits);
  }

  lemma {:induction false} CanonicalSmall(m: nat, s: nat)
    requires TWO15 <= m < TWO23 && 1 <= s < 3 && m % Pow(256, 3 - s) == 0
    ensures Rounds(m / Pow(256, 3 - s), m, s) && m / Pow(256, 3 - s) < TWO256
  {}

  // ---- the value of every compact number ----

  /** Exponents up to 3 drop low bytes of the mantissa, larger ones shift it up, by their count of bytes
      modulo 32 and within 256 bits; up to 32 nothing is lost. */
  lemma {:induction false} TargetValue(bits: u32)
    ensures var e, m, t := bits / TWO24, bits % TWO24, TargetOf(bits);
      && (e <= 3 && (m < TWO23 || e < 3) ==> t * Pow(256, 3 - e) <= m < (t + 1) * Pow(256, 3 - e))
      && (e > 3 && m < TWO23 ==> t == (m * Pow(256, (e - 3) % 32)) % TWO256)
      && (3 <= e <= 32 && m < TWO23 ==> t == m * Pow(256, e - 3))
  {
    var e, m := bits / TWO24, bits % TWO24;
    if e <= 3 {
      SmallExponent(bits, e, m);
    } else if m < TWO23 {
      ShiftBytes(e - 3);
      BytePower((e - 3) % 32);
      if e <= 32 { ShiftedFits(m, e - 3); }
    }
  }

  lemma {:induction false} ShiftBytes(k: nat)
    ensures (8 * k) % 256 == 8 * (k % 32)
  {}

  lemma {:induction false} ShiftedFits(m: nat, k: nat)
    requires m < TWO23 && k <= 29
    ensures k % 32 == k && (m * Pow(256, k)) % TWO256 == m * Pow(256, k)
  {
    PowMono(256, k, 29);
    MulMono(m, Pow(256, k), Pow(256, 29));
    TwentyNineBytes();
    MulMono(Pow(256, 29), m, TWO23);
    SmallMod(m * Pow(256, k), TWO256);
  }

  lemma {:induction false} TwentyNineBytes()
    ensures TWO24 * Pow(256, 29) == TWO256
  {
    assert Pow(256, 1) == 256;
    PowDouble(256, 1, 256);
    PowDouble(256, 2, 0x1_0000);
    PowDouble(256, 4, TWO32);
    PowDouble(256, 8, TWO64);
    PowDouble(256, 16, TWO128);
    PowAdd(256, 3, 29);
    assert Pow(256, 3) == TWO24;
  }

  lemma {:induction false} SmallExponent(bits: u32, e: nat, m: nat)
    requires e == bits / TWO24 <= 3 && m == bits % TWO24
    ensures m < TWO23 || e < 3 ==> TargetOf(bits) * Pow(256, 3 - e) <= m < (TargetOf(bits) + 1) * Pow(256, 3 - e)
  {
    var q := m / Pow(256, 3 - e);
    DivGe(m, Pow(256, 3 - e), q);
    DivLt(m, Pow(256, 3 - e), q + 1);
    MantissaShrinks(m, 3 - e);
    if e < 3 { DroppedByte(m, 3 - e); }
  }

  lemma {:induction false} DroppedByte(m: nat, k: nat)
    requires m < TWO24 && k >= 1
    ensures m / Pow(256, k) < 0x1_0000
  {
    PowMono(256, 1, k);
    assert Pow(256, 1) == 256;
    DivLt(m, Pow(256, k), 0x1_0000);
    MulMono(0x1_0000, 256, Pow(256, k));
  }

  /** The sign bit makes a target zero, except with exponents 1 and 2, whose shift moves it out of place. */
  lemma {:induction false} SignBitIff(bits: u32)
    requires bits % TWO24 >= TWO23
    ensures TargetOf(bits) == 0 <==> bits / TWO24 != 1 && bits / TWO24 != 2
  {
    var e, m := bits / TWO24, bits % TWO24;
    assert Pow(256, 1) == 256 && Pow(256, 2) == 0x1_0000 && Pow(256, 3) == TWO24 && Pow(256, 0) == 1;
  }

  // ---- the code, on limbs ----

  function FromCompact(bits: u32): (t: U256)
    ensures Val(t) == TargetOf(bits)
  {
    var unshifted := bits / TWO24;
    if unshifted <= 3 then
      var mant := bits % TWO24 / Pow(2, 8 * (3 - unshifted));
      BytePower(3 - unshifted);
      MantissaShrinks(bits % TWO24, 3 - unshifted);
      SmallMod(mant, TWO256);
      if mant > 0x7F_FFFF then ZERO else WrappingShl(U256(0, mant), 0)
    else
      var mant := bits % TWO24;
      if mant > 0x7F_FFFF then ZERO else WrappingShl(U256(0, mant), 8 * (unshifted - 3))
  }

  function ToCompactLossy(t: U256): (c: u32)
    ensures c == CompactOf(Val(t))
  {
    var size := (NumBits(t) + 7) / 8;
    var compact := ThreeBytes(t, size);
    CompactFits(Val(t));
    SignBit(compact);
    AttachSize(compact / 256, size + 1);
    AttachSize(compact, size);
    if compact / TWO23 % 2 != 0 then Or(compact / 256, (size + 1) * TWO24)
    else Or(compact, size * TWO24)
  }

  lemma {:induction false} SignBit(c: nat)
    requires c < TWO24
    ensures c / TWO23 % 2 != 0 <==> c >= TWO23
  {}

  function ThreeBytes(t: U256, size: nat): (compact: u32)
    requires size == (NumBits(t) + 7) / 8
    ensures compact == TopBytes(Val(t)) < TWO24 && size == ByteLen(Val(t))
  {
    assert size == ByteLen(Val(t));
    CompactBytes(t, size);
    if size <= 3 then (t.lo % TWO64 * Pow(2, 8 * (3 - size))) % TWO64 % TWO32
    else WrappingShr(t, 8 * (size - 3)).lo % TWO32
  }

  lemma {:induction false} LowBytes(t: U256, size: nat)
    requires size == ByteLen(Val(t)) <= 3
    ensures (t.lo % TWO64 * Pow(2, 8 * (3 - size))) % TWO64 % TWO32 == TopBytes(Val(t)) < TWO24
  {
    var n := Val(t);
    BytePower(3 - size);
    if n > 0 { TopBytesRound(n); }
    PowMono(256, size, 3);
    assert Pow(256, 3) == TWO24;
    assert t.lo == n;
    SmallMod(n, TWO64);
    SmallMod(TopBytes(n), TWO64);
    SmallMod(TopBytes(n), TWO32);
  }

  lemma {:induction false} HighBytes(t: U256, size: nat)
    requires 3 < size == ByteLen(Val(t)) <= 32
    ensures WrappingShr(t, 8 * (size - 3)).lo % TWO32 == TopBytes(Val(t)) < TWO24
  {
    BytePower(size - 3);
    TopBytesRound(Val(t));
    SmallMod(8 * (size - 3), 256);
    var r := WrappingShr(t, 8 * (size - 3));
    assert r.lo == Val(r);
    SmallMod(r.lo, TWO32);
  }

  lemma {:induction false} AttachSize(c: nat, size: nat)
    requires c < TWO24
    ensures Or(c, size * TWO24) == c + size * TWO24
  {
    assert Pow(2, 24) == TWO24 by {
      assert Pow(2, 12) == 4096;
      PowAdd(2, 12, 12);
    }
    OrDisjoint(c, size, 24);
  }

  lemma {:induction false} CompactBytes(t: U256, size: nat)
    requires size == ByteLen(Val(t)) <= 32
    ensures TopBytes(Val(t)) < TWO24
    ensures size <= 3 ==> (t.lo % TWO64 * Pow(2, 8 * (3 - size))) % TWO64 % TWO32 == TopBytes(Val(t))
    ensures size > 3 ==> WrappingShr(t, 8 * (size - 3)).lo % TWO32 == TopBytes(Val(t))
  {
    if size <= 3 { LowBytes(t, size); } else { HighBytes(t, size); }
  }
}
