/** How the texts of extended keys begin, and their length (bitcoin/src/bip32.rs). */
module Bip32Text {
  import opened Arith
  import opened Radix
  import opened Bip32
  import opened Bip32Codec
  import Base58

  // ---- leading digits ----

  /** A number of q * b^k up to (q + 1) * b^k starts with the digits of q, and k more follow. */
  lemma {:induction false} LeadingDigits(n: nat, b: nat, k: nat, q: nat)
    requires b >= 2 && q > 0 && q * Pow(b, k) <= n < (q + 1) * Pow(b, k)
    ensures |ToBe(n, b)| == |ToBe(q, b)| + k && ToBe(n, b)[..|ToBe(q, b)|] == ToBe(q, b)
    decreases k
  {
    if k == 0 {
      assert n == q;
    } else {
      ShorterBy(n, b, Pow(b, k - 1), q);
      LeadingDigits(n / b, b, k - 1, q);
    }
  }

  lemma {:induction false} ShorterBy(n: nat, b: nat, p: nat, q: nat)
    requires b >= 2 && p > 0 && q > 0 && q * (b * p) <= n < (q + 1) * (b * p)
    ensures n > 0 && q * p <= n / b < (q + 1) * p
  {
    MulSwap(q, b, p);
    MulSwap(q + 1, b, p);
    MulAssoc(q, b, p);
    MulAssoc(q + 1, b, p);
    DivGe(n, b, q * p);
    DivLt(n, b, (q + 1) * p);
    MulMono(q * p, 1, b);
    MulMono(p, 1, q);
  }

  // ---- powers ----

  const P13: nat := 0x11CC_A26E_7102_4579_A000
  const P26: nat := 0x13C_D125_F216_5F85_10DB_A460_0801_4A08_A400_0000
  const P53: nat :=
    0x58_D4C2_1FDC_BC34_A87A_D92F_ADFF_745B_2A46_8CF6_CF8C_B954_FAAD_AFDD_B834_1C0A_4DA0_0000_0000_0000

  lemma {:induction false} Powers58()
    ensures Pow(58, 107) == (P53 * P53) * 58
  {
    assert Pow(58, 3) == 195_112;
    PowDouble(58, 3, 195_112);
    PowDouble(58, 6, 38_068_692_544);
    assert Pow(58, 13) == 58 * Pow(58, 12);
    PowDouble(58, 13, P13);
    PowDouble(58, 26, P26);
    assert Pow(58, 53) == 58 * Pow(58, 52);
    PowDouble(58, 53, P53);
    assert Pow(58, 107) == 58 * Pow(58, 106);
  }

  const Q13: nat := 0x100_0000_0000_0000_0000_0000_0000
  const Q39: nat := 0x100_0000_0000_0000_0000_0000_0000_0000_0000_0000_0000_0000_0000_0000_0000_0000_0000_0000_0000_0000

  lemma {:induction false} Powers256()
    ensures Pow(256, 78) == Q39 * Q39
  {
    assert Pow(256, 3) == 0x100_0000;
    PowDouble(256, 3, 0x100_0000);
    PowDouble(256, 6, 0x1_0000_0000_0000);
    assert Pow(256, 13) == 256 * Pow(256, 12);
    PowDouble(256, 13, Q13);
    PowAdd(256, 26, 13);
    PowDouble(256, 39, Q39);
  }

  /** Payloads of 82 bytes that start with v all start with the same four digits q. */
  predicate StartsAs(v: nat, q: nat)
  {
    q * ((P53 * P53) * 58) <= v * (Q39 * Q39) && (v + 1) * (Q39 * Q39) <= (q + 1) * ((P53 * P53) * 58)
  }

  lemma {:induction false} VersionDigits()
    ensures StartsAs(0x0488_B21E, 10_892_318) && StartsAs(0x0488_ADE4, 10_892_163)
    ensures StartsAs(0x0435_87CF, 10_111_870) && StartsAs(0x0435_8394, 10_111_715)
  {}

  /** The digits of a payload, by its range. */
  lemma {:induction false} PayloadDigits(data: seq<byte>, ds: seq<nat>, q: nat)
    requires data != [] && data[0] > 0 && |ds| == 4 && AllBelow(ds, 58) && ds[0] > 0 && q == Be(ds, 58)
    requires q * Pow(58, 107) <= Be(data, 256) < (q + 1) * Pow(58, 107)
    ensures |Base58.Encoded(data)| == 111 && Base58.Encoded(data)[..4] == Base58.CharsOf(ds)
  {
    NumberDigits(Be(data, 256), q, ds);
    NoLeadingZeros(data);
    FirstChars(ToBe(Be(data, 256), 58), ds);
  }

  lemma {:induction false} NumberDigits(n: nat, q: nat, ds: seq<nat>)
    requires |ds| == 4 && AllBelow(ds, 58) && ds[0] > 0 && q == Be(ds, 58)
    requires q * Pow(58, 107) <= n < (q + 1) * Pow(58, 107)
    ensures |ToBe(n, 58)| == 111 && ToBe(n, 58)[..4] == ds
  {
    ToBeOfBe(ds, 58);
    assert q > 0;
    LeadingDigits(n, 58, 107, q);
  }

  lemma {:induction false} FirstChars(s: seq<nat>, ds: seq<nat>)
    requires AllBelow(s, 58) && AllBelow(ds, 58) && ds <= s
    ensures Base58.CharsOf(s)[..|ds|] == Base58.CharsOf(ds)
  {}

  lemma {:induction false} PayloadStarts(data: seq<byte>, v: nat, ds: seq<nat>, q: nat)
    requires |data| == 82 && data[0] > 0 && Be(data[..4], 256) == v
    requires |ds| == 4 && AllBelow(ds, 58) && ds[0] > 0 && q == Be(ds, 58) && StartsAs(v, q)
    ensures |Base58.Encoded(data)| == 111 && Base58.Encoded(data)[..4] == Base58.CharsOf(ds)
  {
    PayloadRange(data, v, q);
    PayloadDigits(data, ds, q);
  }

  lemma {:induction false} NoLeadingZeros(data: seq<byte>)
    requires data != [] && data[0] > 0
    ensures Base58.Convert(data, 256, 58) == ToBe(Be(data, 256), 58)
  {}

  lemma {:induction false} PayloadRange(data: seq<byte>, v: nat, q: nat)
    requires |data| == 82 && Be(data[..4], 256) == v && StartsAs(v, q)
    ensures q * Pow(58, 107) <= Be(data, 256) < (q + 1) * Pow(58, 107)
  {
    var rest := data[4..];
    assert data == data[..4] + rest;
    BeAppend(data[..4], rest, 256);
    BeBound(rest, 256);
    Powers58();
    Powers256();
  }

  predicate StartsWith(text: seq<byte>, prefix: string)
  {
    |prefix| <= |text| && forall i :: 0 <= i < |prefix| ==> text[i] == prefix[i] as int
  }

  lemma {:induction false} FourDigits(a: nat, b: nat, c: nat, d: nat, base: nat)
    ensures Be([a, b, c, d], base) == ((a * base + b) * base + c) * base + d
  {
    assert Be([], base) == 0;
    Push([], a, [a], base);
    Push([a], b, [a, b], base);
    Push([a, b], c, [a, b, c], base);
    Push([a, b, c], d, [a, b, c, d], base);
  }

  lemma {:induction false} Push(s: seq<nat>, d: nat, t: seq<nat>, base: nat)
    requires t == s + [d]
    ensures Be(t, base) == Be(s, base) * base + d
  {
    assert t[..|t| - 1] == s;
  }

  lemma {:induction false} StartsXpub(data: seq<byte>)
    requires |data| == 82 && data[..4] == [0x04, 0x88, 0xB2, 0x1E]
    ensures |Base58.Encoded(data)| == 111 && StartsWith(Base58.Encoded(data), "xpub")
  {
    VersionDigits();
    FourDigits(0x04, 0x88, 0xB2, 0x1E, 256);
    FourDigits(55, 47, 52, 34, 58);
    assert data[0] == data[..4][0];
    PayloadStarts(data, 0x0488_B21E, [55, 47, 52, 34], 10_892_318);
  }

  lemma {:induction false} StartsXprv(data: seq<byte>)
    requires |data| == 82 && data[..4] == [0x04, 0x88, 0xAD, 0xE4]
    ensures |Base58.Encoded(data)| == 111 && StartsWith(Base58.Encoded(data), "xprv")
  {
    VersionDigits();
    FourDigits(0x04, 0x88, 0xAD, 0xE4, 256);
    FourDigits(55, 47, 49, 53, 58);
    assert data[0] == data[..4][0];
    PayloadStarts(data, 0x0488_ADE4, [55, 47, 49, 53], 10_892_163);
  }

  lemma {:induction false} StartsTpub(data: seq<byte>)
    requires |data| == 82 && data[..4] == [0x04, 0x35, 0x87, 0xCF]
    ensures |Base58.Encoded(data)| == 111 && StartsWith(Base58.Encoded(data), "tpub")
  {
    VersionDigits();
    FourDigits(0x04, 0x35, 0x87, 0xCF, 256);
    FourDigits(51, 47, 52, 34, 58);
    assert data[0] == data[..4][0];
    PayloadStarts(data, 0x0435_87CF, [51, 47, 52, 34], 10_111_870);
  }

  lemma {:induction false} StartsTprv(data: seq<byte>)
    requires |data| == 82 && data[..4] == [0x04, 0x35, 0x83, 0x94]
    ensures |Base58.Encoded(data)| == 111 && StartsWith(Base58.Encoded(data), "tprv")
  {
    VersionDigits();
    FourDigits(0x04, 0x35, 0x83, 0x94, 256);
    FourDigits(51, 47, 49, 53, 58);
    assert data[0] == data[..4][0];
    PayloadStarts(data, 0x0435_8394, [51, 47, 49, 53], 10_111_715);
  }

  /** Every text of a main network public key starts with "xpub", of a test network one with "tpub",
      and has 111 characters. */
  lemma {:induction false} PubTextStarts<Sk(!new), Pk(!new)>(
    hash: Bytes -> Base58.Digest, c: Curve<Sk, Pk>, pk: Xpub<Pk>)
    requires Coded(c) && Sized(pk.parentFingerprint, pk.chainCode)
    ensures |DisplayPub(hash, c, pk)| == 111
    ensures StartsWith(DisplayPub(hash, c, pk), if pk.network.Main? then "xpub" else "tpub")
  {
    var payload := EncodePub(c, pk);
    var data := payload + hash(payload)[..4];
    assert data[..4] == if pk.network.Main? then [0x04, 0x88, 0xB2, 0x1E] else [0x04, 0x35, 0x87, 0xCF];
    if pk.network.Main? { StartsXpub(data); } else { StartsTpub(data); }
  }

  /** The same for private keys, with "xprv" and "tprv". */
  lemma {:induction false} PrivTextStarts<Sk(!new), Pk(!new)>(
    hash: Bytes -> Base58.Digest, c: Curve<Sk, Pk>, sk: Xpriv<Sk>)
    requires Coded(c) && Sized(sk.parentFingerprint, sk.chainCode)
    ensures |DisplayPriv(hash, c, sk)| == 111
    ensures StartsWith(DisplayPriv(hash, c, sk), if sk.network.Main? then "xprv" else "tprv")
  {
    var payload := EncodePriv(c, sk);
    var data := payload + hash(payload)[..4];
    assert data[..4] == if sk.network.Main? then [0x04, 0x88, 0xAD, 0xE4] else [0x04, 0x35, 0x83, 0x94];
    if sk.network.Main? { StartsXprv(data); } else { StartsTprv(data); }
  }
}
