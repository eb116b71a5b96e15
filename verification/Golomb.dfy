/** Golomb-Rice coding on the bit stream (bitcoin/src/bip158.rs). */
module Golomb {
  import opened Wrappers
  import opened Arith
  import opened Radix
  import opened BitSeq
  import opened BitStream

  // ---- the code as bits ----

  /** The quotient in unary, a zero, then the p remainder bits. */
  function RiceBits(n: nat, p: nat): (s: seq<bool>)
  {
    Repeat(true, Quotient(n, Pow(2, p))) + [false] + ToBits(n, p)
  }

  /** How many set bits come first. */
  function Ones(s: seq<bool>): (q: nat)
    ensures q <= |s|
    ensures forall i :: 0 <= i < q ==> s[i]
    ensures q < |s| ==> !s[q]
  {
    if s == [] || !s[0] then 0 else 1 + Ones(s[1..])
  }

  /** The number at the front of a bit sequence and what follows it, or an error when the bits run out. */
  function RiceDecode(s: seq<bool>, p: nat): (r: Result<(u64, seq<bool>), StreamError>)
    requires p < 64
  {
    var q := Ones(s);
    if q + 1 + p > |s| then Err(EndOfInput)
    else
      var low := s[q + 1..q + 1 + p];
      RiceFits(q, low);
      Ok(((q * Pow(2, p)) % TWO64 + FromBits(low), s[q + 1 + p..]))
  }

  /** The unary part and the low bits, read one after the other. */
  lemma {:induction false} RiceDecodeSplit(s: seq<bool>, p: nat)
    requires p < 64
    ensures var q := Ones(s);
      if q == |s| || |s[q + 1..]| < p then RiceDecode(s, p) == Err(EndOfInput)
      else
        var (t, high) := (s[q + 1..], (q * Pow(2, p)) % TWO64);
        high + FromBits(t[..p]) < TWO64 && RiceDecode(s, p) == Ok((high + FromBits(t[..p]), t[p..]))
  {
    var k := Ones(s) + 1;
    if k + p <= |s| {
      assert s[k..][..p] == s[k..k + p] && s[k..][p..] == s[k + p..];
      RiceFits(Ones(s), s[k..k + p]);
    }
  }

  lemma {:induction false} RiceRest(s: seq<bool>, q: nat, t: seq<bool>, p: nat)
    requires p < 64 && q == Ones(s) < |s| && t == s[q + 1..]
    ensures if |t| < p then RiceDecode(s, p) == Err(EndOfInput)
      else
        var n := (q * Pow(2, p)) % TWO64 + FromBits(t[..p]);
        n < TWO64 && RiceDecode(s, p) == Ok((n, t[p..]))
  {
    RiceDecodeSplit(s, p);
  }

  lemma {:induction false} RiceFits(q: nat, low: seq<bool>)
    requires |low| < 64
    ensures (q * Pow(2, |low|)) % TWO64 + FromBits(low) < TWO64
  {
    var p := Pow(2, |low|);
    FromBitsBound(low);
    Pow64();
    PowAdd(2, |low|, 64 - |low|);
    ScaleMod(q, p, Pow(2, 64 - |low|));
  }

  lemma {:induction false} OnesOfRice(n: nat, p: nat, rest: seq<bool>)
    ensures Ones(RiceBits(n, p) + rest) == Quotient(n, Pow(2, p))
  {
    OnesOfRepeat(Quotient(n, Pow(2, p)), ToBits(n, p) + rest);
    assert RiceBits(n, p) + rest == Repeat(true, Quotient(n, Pow(2, p))) + [false] + (ToBits(n, p) + rest);
  }

  lemma {:induction false} OnesOfRepeat(q: nat, rest: seq<bool>)
    ensures Ones(Repeat(true, q) + [false] + rest) == q
  {
    var s := Repeat(true, q) + [false] + rest;
    if q > 0 {
      assert s[1..] == Repeat(true, q - 1) + [false] + rest;
      OnesOfRepeat(q - 1, rest);
    }
  }

  /** Decoding undoes encoding for every 64-bit number, wherever it stands in the stream. */
  lemma {:induction false} RiceRoundTrip(n: u64, p: nat, rest: seq<bool>)
    requires p < 64
    ensures RiceDecode(RiceBits(n, p) + rest, p) == Ok((n, rest))
  {
    RiceDecodeSplit(RiceBits(n, p) + rest, p);
    OnesOfRice(n, p, rest);
    RiceSlices(n, p, rest);
    FromToBits(n, p);
    RiceSum(n, Pow(2, p));
  }

  lemma {:induction false} RiceSum(n: u64, d: nat)
    requires d > 0
    ensures (Quotient(n, d) * d) % TWO64 + n % d == n
  {
    DivMod(n, d);
    SmallMod(Quotient(n, d) * d, TWO64);
  }

  lemma {:induction false} RiceSlices(n: nat, p: nat, rest: seq<bool>)
    ensures var s, q := RiceBits(n, p) + rest, Quotient(n, Pow(2, p));
      |s| == q + 1 + p + |rest| && s[q + 1..][..p] == ToBits(n, p) && s[q + 1..][p..] == rest
  {}

  // ---- the code ----

  /** Writes the code of n. Widths are at most 64, so no write fails. */
  method RiceEncode(writer: BitStreamWriter, n: u64, p: nat) returns (wrote: nat)
    requires writer.Valid() && p < 64
    modifies writer
    ensures writer.Valid()
    ensures writer.Contents() == old(writer.Contents()) + RiceBits(n, p)
    ensures |writer.out| == |old(writer.out)| + wrote
  {
    ghost var start := writer.Contents();
    wrote := WriteUnary(writer, Quotient(n, Pow(2, p)));
    var r := writer.Write(0, 1);
    assert ToBits(0, 1) == [false];
    wrote := wrote + r.value;
    r := writer.Write(n, p);
    wrote := wrote + r.value;
    Assoc4(start, Repeat(true, Quotient(n, Pow(2, p))), [false], ToBits(n, p));
  }

  lemma {:induction false} Assoc4<T>(a: seq<T>, b: seq<T>, c: seq<T>, d: seq<T>)
    ensures ((a + b) + c) + d == a + (b + c + d)
  {}

  /** Set bits, at most 64 at a time. */
  method WriteUnary(writer: BitStreamWriter, count: nat) returns (wrote: nat)
    requires writer.Valid()
    modifies writer
    ensures writer.Valid()
    ensures writer.Contents() == old(writer.Contents()) + Repeat(true, count)
    ensures |writer.out| == |old(writer.out)| + wrote
  {
    wrote := 0;
    var q := count;
    while q > 0
      invariant 0 <= q <= count && writer.Valid()
      invariant writer.Contents() + Repeat(true, q) == old(writer.Contents()) + Repeat(true, count)
      invariant |writer.out| == |old(writer.out)| + wrote
    {
      var nbits := Min(q, 64);
      SplitRepeat(writer.Contents(), nbits, q);
      AllOnes(nbits);
      var r := writer.Write(TWO64 - 1, nbits);
      wrote := wrote + r.value;
      q := q - nbits;
    }
    assert writer.Contents() + Repeat(true, 0) == writer.Contents();
  }

  lemma {:induction false} SplitRepeat(before: seq<bool>, k: nat, q: nat)
    requires k <= q
    ensures (before + Repeat(true, k)) + Repeat(true, q - k) == before + Repeat(true, q)
  {}

  lemma {:induction false} AllOnes(n: nat)
    requires n <= 64
    ensures ToBits(TWO64 - 1, n) == Repeat(true, n)
  {
    Pow64();
    PowAdd(2, 64 - n, n);
    OnesBits(Pow(2, 64 - n), n);
  }

  lemma {:induction false} OnesBits(k: nat, n: nat)
    requires k > 0
    ensures k * Pow(2, n) > 0 && ToBits(k * Pow(2, n) - 1, n) == Repeat(true, n)
    decreases n
  {
    if n > 0 {
      var h := k * Pow(2, n - 1);
      assert k * Pow(2, n) == 2 * h;
      OnesBits(k, n - 1);
      DivModUnique(2 * h - 1, 2, h - 1, 1);
      assert Repeat(true, n) == Repeat(true, n - 1) + [true];
    }
  }

  /** Reads one number; fails exactly when the bits run out. */
  method RiceDecodeFrom(reader: BitStreamReader, p: nat) returns (r: Result<u64, StreamError>)
    requires reader.Valid() && p < 64
    modifies reader
    ensures reader.Valid()
    ensures match RiceDecode(old(reader.Remaining()), p)
      case Ok((n, rest)) => r == Ok(n) && reader.Remaining() == rest
      case Err(e) => r == Err(e)
  {
    ghost var s := reader.Remaining();
    RiceDecodeSplit(s, p);
    var q := ReadUnary(reader);
    if q.Err? {
      return Err(q.error);
    }
    RiceRest(s, q.value, reader.Remaining(), p);
    var low := reader.Read(p);
    if low.Err? {
      return Err(low.error);
    }
    r := Ok((q.value * Pow(2, p)) % TWO64 + low.value);
  }

  /** Counts set bits up to and including the first clear one, which is consumed. */
  method ReadUnary(reader: BitStreamReader) returns (r: Result<nat, StreamError>)
    requires reader.Valid()
    modifies reader
    ensures reader.Valid()
    ensures var s := old(reader.Remaining()); var q := Ones(s);
      if q == |s| then r == Err(EndOfInput) else r == Ok(q) && reader.Remaining() == s[q + 1..]
  {
    var q := 0;
    ghost var s := reader.Remaining();
    var bit := ReadBit(reader);
    while bit == Ok(true)
      invariant reader.Valid() && Unary(s, q, bit, reader.Remaining())
      decreases |s| - q
    {
      ghost var rest := reader.Remaining();
      bit := ReadBit(reader);
      UnaryNext(s, q, rest, bit, reader.Remaining());
      q := q + 1;
    }
    UnaryEnds(s, q, bit, reader.Remaining());
    r := if bit.Err? then Err(bit.error) else Ok(q);
  }

  /** q set bits have been read and then one more bit, or none was left. */
  ghost predicate Unary(s: seq<bool>, q: nat, bit: Result<bool, StreamError>, rest: seq<bool>)
  {
    && q <= |s| && (forall i :: 0 <= i < q ==> s[i])
    && if q == |s| then bit == Err(EndOfInput) else bit == Ok(s[q]) && rest == s[q + 1..]
  }

  lemma {:induction false} UnaryNext(
    s: seq<bool>, q: nat, rest: seq<bool>, bit: Result<bool, StreamError>, rest': seq<bool>)
    requires Unary(s, q, Ok(true), rest)
    requires if rest == [] then bit == Err(EndOfInput) else bit == Ok(rest[0]) && rest' == rest[1..]
    ensures q < |s| && Unary(s, q + 1, bit, rest')
  {}

  lemma {:induction false} UnaryEnds(s: seq<bool>, q: nat, bit: Result<bool, StreamError>, rest: seq<bool>)
    requires Unary(s, q, bit, rest) && bit != Ok(true)
    ensures Ones(s) == q
  {
    var k := Ones(s);
    assert k < |s| ==> !s[k];
    assert q < |s| ==> !s[q];
  }

  method ReadBit(reader: BitStreamReader) returns (bit: Result<bool, StreamError>)
    requires reader.Valid()
    modifies reader
    ensures reader.Valid()
    ensures var s := old(reader.Remaining());
      if s == [] then bit == Err(EndOfInput) else bit == Ok(s[0]) && reader.Remaining() == s[1..]
  {
    OneBit(reader.Remaining());
    var r := reader.Read(1);
    bit := if r.Err? then Err(r.error) else Ok(r.value == 1);
  }

  lemma {:induction false} OneBit(s: seq<bool>)
    ensures s != [] ==> FromBits(s[..1]) == if s[0] then 1 else 0
  {
    if s != [] { assert s[..1][..0] == []; }
  }
}
