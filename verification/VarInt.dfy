/** Variable-length integers of the consensus encoding (bitcoin/src/consensus/encode.rs). */
module VarInt {
  import opened Wrappers
  import opened Arith
  import opened Radix

  lemma {:induction false} BytePowers()
    ensures Pow(256, 2) == 0x1_0000 && Pow(256, 4) == 0x1_0000_0000 && Pow(256, 8) == TWO64
  {
    assert Pow(256, 1) == 256;
    PowDouble(256, 1, 256);
    PowDouble(256, 2, 0x1_0000);
    PowDouble(256, 4, TWO32);
  }

  /** The first byte of an encoding: the number itself, or how many bytes follow. */
  function Tag(n: u64): (tag: byte)
  {
    if n <= 0xFC then n else if n <= 0xFFFF then 0xFD else if n <= 0xFFFF_FFFF then 0xFE else 0xFF
  }

  function Width(tag: byte): (k: nat)
    ensures k <= 8
  {
    if tag == 0xFF then 8 else if tag == 0xFE then 4 else if tag == 0xFD then 2 else 0
  }

  /** The least number that needs this first byte. */
  function Least(tag: byte): (n: nat)
  {
    if tag == 0xFF then 0x1_0000_0000 else if tag == 0xFE then 0x1_0000 else 0xFD
  }

  function Encode(n: u64): (s: seq<byte>)
  {
    [Tag(n)] + LeBytes(n, Width(Tag(n)))
  }

  /** One byte up to 252, and above that 253, 254 or 255 followed by two, four or eight bytes. */
  lemma {:induction false} EncodeForm(n: u64)
    ensures var s := Encode(n);
      if n < 253 then s == [n]
      else if n < 0x1_0000 then |s| == 3 && s[0] == 253 && Le(s[1..], 256) == n
      else if n < 0x1_0000_0000 then |s| == 5 && s[0] == 254 && Le(s[1..], 256) == n
      else |s| == 9 && s[0] == 255 && Le(s[1..], 256) == n
  {
    BytePowers();
    assert Encode(n)[1..] == LeBytes(n, Width(Tag(n)));
    if n >= 253 { LeOfLeBytes(n, Width(Tag(n))); }
  }

  /** Reads a fixed number of bytes, failing when the input is too short. */
  function ReadLe(s: seq<byte>, k: nat): (r: Option<(nat, seq<byte>)>)
  {
    if |s| < k then None else Some((Le(s[..k], 256), s[k..]))
  }

  /** The value and the bytes after it; an encoding longer than needed is refused. */
  function Decode(s: seq<byte>): (r: Option<(nat, seq<byte>)>)
  {
    if s == [] then None
    else if Width(s[0]) == 0 then Some((s[0], s[1..]))
    else AtLeast(ReadLe(s[1..], Width(s[0])), Least(s[0]))
  }

  function AtLeast(r: Option<(nat, seq<byte>)>, min: nat): (r': Option<(nat, seq<byte>)>)
  {
    if r.Some? && r.value.0 < min then None else r
  }

  lemma {:induction false} ReadBack(n: nat, k: nat, rest: seq<byte>, tag: byte)
    requires n < Pow(256, k)
    ensures var s := [tag] + LeBytes(n, k) + rest;
      s[1..] == LeBytes(n, k) + rest && ReadLe(s[1..], k) == Some((n, rest))
  {
    LeOfLeBytes(n, k);
    var t := LeBytes(n, k) + rest;
    assert ([tag] + LeBytes(n, k) + rest)[1..] == t;
    assert t[..k] == LeBytes(n, k) && t[k..] == rest;
  }

  /** The first byte fits exactly the numbers from its least one up to its width. */
  lemma {:induction false} TagFits(n: nat, tag: byte)
    requires Width(tag) > 0
    ensures n < TWO64 && Tag(n) == tag <==> Least(tag) <= n < Pow(256, Width(tag))
  {
    BytePowers();
  }

  /** A prefix code: decoding reads exactly what encoding wrote, whatever follows. */
  lemma {:induction false} DecodeEncode(n: u64, rest: seq<byte>)
    ensures Decode(Encode(n) + rest) == Some((n, rest))
  {
    var tag := Tag(n);
    if Width(tag) == 0 {
      assert LeBytes(n, 0) == [] && ([n] + [] + rest)[1..] == rest;
    } else {
      TagFits(n, tag);
      ReadBack(n, Width(tag), rest, tag);
    }
  }

  lemma {:induction false} TakeLe(s: seq<byte>, k: nat)
    requires |s| > k
    ensures [s[0]] + LeBytes(Le(s[1..][..k], 256), k) + s[1..][k..] == s
    ensures Le(s[1..][..k], 256) < Pow(256, k)
  {
    LeBytesOfLe(s[1..][..k]);
    assert s == [s[0]] + s[1..][..k] + s[1..][k..];
  }

  /** Only canonical encodings are accepted. */
  lemma {:induction false} EncodeDecode(s: seq<byte>)
    requires Decode(s).Some?
    ensures Decode(s).value.0 < TWO64
    ensures Encode(Decode(s).value.0) + Decode(s).value.1 == s
  {
    if Width(s[0]) == 0 {
      assert LeBytes(s[0], 0) == [] && s == [s[0]] + [] + s[1..];
    } else {
      TakeLe(s, Width(s[0]));
      TagFits(Decode(s).value.0, s[0]);
    }
  }

  /** Numbers as bytes and back. */
  datatype Code = Code(put: u64 -> seq<byte>, take: seq<byte> -> Option<(nat, seq<byte>)>)
  {
    predicate Returns(n: u64, rest: seq<byte>)
    {
      take(put(n) + rest) == Some((n, rest))
    }

    predicate Minimal(s: seq<byte>)
    {
      take(s).Some? ==> take(s).value.0 < TWO64 && put(take(s).value.0) + take(s).value.1 == s
    }

    /** What is put can be taken whatever follows, and only what would be put can be taken. */
    ghost predicate Prefix()
    {
      (forall n: u64, rest: seq<byte> :: Returns(n, rest)) && (forall s: seq<byte> :: Minimal(s))
    }
  }

  function CompactSize(): (c: Code)
  {
    Code((n: u64) => Encode(n), s => Decode(s))
  }

  lemma {:induction false} CompactSizeIsPrefix()
    ensures CompactSize().Prefix()
  {
    forall n: u64, rest: seq<byte> ensures CompactSize().Returns(n, rest) {
      DecodeEncode(n, rest);
    }
    forall s: seq<byte> ensures CompactSize().Minimal(s) {
      if Decode(s).Some? { EncodeDecode(s); }
    }
  }
}
