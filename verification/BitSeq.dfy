/** Numbers as sequences of bits, most significant first, and bytes as bits. */
module BitSeq {
  import opened Arith
  import opened Radix

  /** The low n bits of v. */
  function ToBits(v: nat, n: nat): (s: seq<bool>)
    ensures |s| == n
  {
    if n == 0 then [] else ToBits(v / 2, n - 1) + [v % 2 == 1]
  }

  function FromBits(s: seq<bool>): (v: nat)
  {
    if s == [] then 0 else 2 * FromBits(s[..|s| - 1]) + (if s[|s| - 1] then 1 else 0)
  }

  lemma {:induction false} FromToBits(v: nat, n: nat)
    ensures FromBits(ToBits(v, n)) == v % Pow(2, n)
  {
    if n > 0 {
      var s := ToBits(v, n);
      assert s[..|s| - 1] == ToBits(v / 2, n - 1);
      FromToBits(v / 2, n - 1);
      DivDiv(v, 2, Pow(2, n - 1));
    }
  }

  lemma {:induction false} FromBitsAppend(s: seq<bool>, t: seq<bool>)
    ensures FromBits(s + t) == FromBits(s) * Pow(2, |t|) + FromBits(t)
    decreases |t|
  {
    if t == [] {
      assert s + t == s;
    } else {
      var t' := t[..|t| - 1];
      assert (s + t)[..|s + t| - 1] == s + t';
      FromBitsAppend(s, t');
      Horner(FromBits(s), Pow(2, |t'|), FromBits(t'), 2, if t[|t| - 1] then 1 else 0);
    }
  }

  lemma {:induction false} FromBitsBound(s: seq<bool>)
    ensures FromBits(s) < Pow(2, |s|)
  {
    if s != [] { FromBitsBound(s[..|s| - 1]); }
  }

  /** The high bits come first. */
  lemma {:induction false} ToBitsSplit(v: nat, a: nat, b: nat)
    ensures ToBits(v, a + b) == ToBits(v / Pow(2, b), a) + ToBits(v, b)
    decreases b
  {
    if b > 0 {
      ToBitsSplit(v / 2, a, b - 1);
      DivDiv(v, 2, Pow(2, b - 1));
    }
  }

  lemma {:induction false} ToBitsMod(v: nat, k: nat, n: nat)
    ensures ToBits(v + k * Pow(2, n), n) == ToBits(v, n)
    decreases n
  {
    if n > 0 {
      var h := k * Pow(2, n - 1);
      assert k * Pow(2, n) == h * 2;
      DivAddMul(v, h, 2);
      ToBitsMod(v / 2, k, n - 1);
    }
  }

  /** Only the value modulo 2^n matters. */
  lemma {:induction false} ToBitsOfMod(v: nat, n: nat)
    ensures ToBits(v % Pow(2, n), n) == ToBits(v, n)
  {
    DivMod(v, Pow(2, n));
    ToBitsMod(v % Pow(2, n), v / Pow(2, n), n);
  }

  lemma {:induction false} JoinBits(h: nat, x: nat, a: nat, b: nat)
    requires x < Pow(2, b)
    ensures ToBits(h * Pow(2, b) + x, a + b) == ToBits(h, a) + ToBits(x, b)
  {
    var v := h * Pow(2, b) + x;
    ToBitsSplit(v, a, b);
    DivModUnique(v, Pow(2, b), h, x);
    ToBitsMod(x, h, b);
  }

  lemma {:induction false} LowBitsOfMod(v: nat, k: nat, n: nat)
    requires k <= n
    ensures ToBits(v % Pow(2, n), k) == ToBits(v, k)
  {
    PowAdd(2, k, n - k);
    ModMod(v, Pow(2, k), Pow(2, n - k));
    ToBitsOfMod(v, k);
    ToBitsOfMod(v % Pow(2, n), k);
  }

  lemma {:induction false} SplitLow(v: nat, a: nat, b: nat)
    ensures ToBits(v, a + b) == ToBits(v % Pow(2, a + b) / Pow(2, b), a) + ToBits(v, b)
  {
    ToBitsOfMod(v, a + b);
    ToBitsSplit(v % Pow(2, a + b), a, b);
    LowBitsOfMod(v, b, a + b);
  }

  lemma {:induction false} ToBitsZero(n: nat)
    ensures ToBits(0, n) == Repeat(false, n)
  {
    if n > 0 {
      ToBitsZero(n - 1);
      assert Repeat(false, n) == Repeat(false, n - 1) + [false];
    }
  }

  /** The bits of a byte string, each byte from its most significant bit. */
  function BytesBits(s: seq<byte>): (b: seq<bool>)
    ensures |b| == 8 * |s|
  {
    if s == [] then [] else ToBits(s[0], 8) + BytesBits(s[1..])
  }

  lemma {:induction false} BytesBitsAppend(s: seq<byte>, x: byte)
    ensures BytesBits(s + [x]) == BytesBits(s) + ToBits(x, 8)
  {
    if s == [] {
      assert [] + [x] == [x] && BytesBits([x][1..]) == [];
    } else {
      assert (s + [x])[1..] == s[1..] + [x];
      BytesBitsAppend(s[1..], x);
    }
  }
}
