/** What FIPS 180-4 says of padding and of the initial state, in bits (hashes/src/sha256.rs). */
module Fips180 {
  import opened Arith
  import opened Radix
  import opened BitSeq
  import opened Sha256

  // ---- bytes as bits ----

  lemma {:induction false} BytesBitsConcat(s: seq<byte>, t: seq<byte>)
    ensures BytesBits(s + t) == BytesBits(s) + BytesBits(t)
  {
    if s == [] {
      assert s + t == t;
    } else {
      assert (s + t)[1..] == s[1..] + t;
      BytesBitsConcat(s[1..], t);
    }
  }

  lemma {:induction false} ZeroBytesBits(n: nat)
    ensures BytesBits(Repeat<byte>(0, n)) == Repeat(false, 8 * n)
  {
    if n > 0 {
      assert Repeat<byte>(0, n)[1..] == Repeat<byte>(0, n - 1);
      ZeroBytesBits(n - 1);
      ToBitsZero(8);
      assert Repeat(false, 8) + Repeat(false, 8 * (n - 1)) == Repeat(false, 8 * n);
    }
  }

  /** Big-endian bytes are the number's bits, the most significant first. */
  lemma {:induction false} BigEndianBits(n: nat, k: nat)
    ensures BytesBits(BeBytes(n, k)) == ToBits(n, 8 * k)
    decreases k
  {
    if k > 0 {
      BigEndianBits(n / 256, k - 1);
      BytesBitsAppend(BeBytes(n / 256, k - 1), n % 256);
      assert Pow(2, 8) == 256;
      ToBitsSplit(n, 8 * (k - 1), 8);
      ToBitsOfMod(n, 8);
    }
  }

  lemma {:induction false} MarkerBits()
    ensures ToBits(0x80, 8) == [true] + Repeat(false, 7)
  {
    assert Pow(2, 7) == 128;
    ToBitsSplit(0x80, 1, 7);
    ToBitsOfMod(0x80, 7);
    ToBitsZero(7);
    assert ToBits(1, 1) == [true];
  }

  // ---- section 5.1.1 ----

  predicate LeavesRoom(l: nat, k: nat)
  {
    (l + 1 + k) % 512 == 448
  }

  /** The least number of clear bits after which 64 are left in the block. */
  ghost predicate ZeroBits(l: nat, k: nat)
  {
    LeavesRoom(l, k) && forall j: nat :: LeavesRoom(l, j) ==> k <= j
  }

  /** The padded message, in bits, is the message, a set bit, the least number of clear bits that leaves
      64 in the last block, and the number of bits of the message in those 64. */
  lemma {:induction false} PaddedBits(msg: seq<byte>) returns (k: nat)
    ensures ZeroBits(|BytesBits(msg)|, k)
    ensures BytesBits(msg + Padding(|msg|))
      == BytesBits(msg) + [true] + Repeat(false, k) + ToBits(|BytesBits(msg)|, 64)
  {
    k := 7 + 8 * PadZeros(|msg|);
    PadBitsLeast(|msg|, k);
    PaddingInBits(|msg|);
    BytesBitsConcat(msg, Padding(|msg|));
    Regroup(BytesBits(msg), [true], Repeat(false, k), ToBits(8 * |msg|, 64));
  }

  lemma {:induction false} Regroup<T>(a: seq<T>, b: seq<T>, c: seq<T>, d: seq<T>)
    ensures a + (b + c + d) == a + b + c + d
  {}

  lemma {:induction false} PadBitsLeast(n: nat, k: nat)
    requires k == 7 + 8 * PadZeros(n)
    ensures ZeroBits(8 * n, k)
  {
    InBytes(n, PadZeros(n));
    forall j: nat | LeavesRoom(8 * n, j) ensures k <= j {
      var y := WholeBytes(n, j);
      PadZerosLeast(n, y);
    }
  }

  lemma {:induction false} InBytes(n: nat, z: nat)
    requires (n + 1 + z) % 64 == 56
    ensures LeavesRoom(8 * n, 7 + 8 * z)
  {
    DivMod(n + 1 + z, 64);
    RemainderOf(8 * n + 1 + (7 + 8 * z), 512, (n + 1 + z) / 64, 448);
  }

  lemma {:induction false} WholeBytes(n: nat, j: nat) returns (y: nat)
    requires LeavesRoom(8 * n, j)
    ensures j == 7 + 8 * y && (n + 1 + y) % 64 == 56
  {
    var q := (8 * n + 1 + j) / 512;
    DivMod(8 * n + 1 + j, 512);
    y := 64 * q + 55 - n;
    RemainderOf(n + 1 + y, 64, q, 56);
  }

  lemma {:induction false} PaddingInBits(n: nat)
    ensures BytesBits(Padding(n)) == [true] + Repeat(false, 7 + 8 * PadZeros(n)) + ToBits(8 * n, 64)
  {
    var z := PadZeros(n);
    BytesBitsConcat([0x80] + Repeat<byte>(0, z), BeBytes(WrappedBits(n), 8));
    FrontBits(z);
    LengthBits(n);
  }

  lemma {:induction false} FrontBits(z: nat)
    ensures BytesBits([0x80] + Repeat<byte>(0, z)) == [true] + Repeat(false, 7 + 8 * z)
  {
    BytesBitsConcat([0x80], Repeat<byte>(0, z));
    assert BytesBits([0x80]) == ToBits(0x80, 8) + BytesBits([]);
    MarkerBits();
    ZeroBytesBits(z);
    assert Repeat(false, 7) + Repeat(false, 8 * z) == Repeat(false, 7 + 8 * z);
  }

  lemma {:induction false} LengthBits(n: nat)
    ensures BytesBits(BeBytes(WrappedBits(n), 8)) == ToBits(8 * n, 64)
  {
    BigEndianBits(WrappedBits(n), 8);
    Pow64();
    ToBitsOfMod(8 * n, 64);
  }

  // ---- section 5.3.3 ----

  /** The first 32 bits after the point of the square root of p. */
  ghost predicate RootFraction(h: nat, p: nat)
  {
    exists whole: nat {:trigger Root(whole, h)} :: h < TWO32
      && Root(whole, h) * Root(whole, h) <= p * TWO64 < (Root(whole, h) + 1) * (Root(whole, h) + 1)
  }

  function Root(whole: nat, h: nat): (r: nat)
  {
    whole * TWO32 + h
  }

  const PRIMES: seq<nat> := [2, 3, 5, 7, 11, 13, 17, 19]

  /** The initial state holds the fractional parts of the square roots of the first eight primes. */
  lemma {:induction false} InitialState(i: nat)
    requires i < 8
    ensures RootFraction(IV[i], PRIMES[i])
  {
    var whole := if i == 0 || i == 1 then 1 else if i == 2 || i == 3 then 2 else if i < 6 then 3 else 4;
    var r := Root(whole, IV[i]);
    assert r * r <= PRIMES[i] * TWO64 < (r + 1) * (r + 1);
  }
}
