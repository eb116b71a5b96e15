/** What a derivation step hashes and where the result goes (bitcoin/src/bip32.rs). */
module Bip32Data {
  import opened Wrappers
  import opened Arith
  import opened Radix
  import opened Bip32
  import opened Bip32Codec

  /** A keyed hash that hands out its key and its data instead of mixing them. */
  ghost predicate ShowsData<Sk(!new), Pk(!new)>(c: Curve<Sk, Pk>)
  {
    forall key, data :: c.hmac(key, data).1 == data
  }

  ghost predicate ShowsKey<Sk(!new), Pk(!new)>(c: Curve<Sk, Pk>)
  {
    forall key, data :: c.hmac(key, data).1 == key
  }

  /** The last four bytes are the child number. */
  predicate EndsWith(data: Bytes, number: nat)
  {
    |data| >= 4 && Be(data[|data| - 4..], 256) == number
  }

  lemma {:induction false} NumberAtEnd(front: Bytes, n: u32)
    ensures EndsWith(front + BeBytes(n, 4), n) && (front + BeBytes(n, 4))[..|front|] == front
  {
    var s := front + BeBytes(n, 4);
    assert s[|s| - 4..] == BeBytes(n, 4);
    FourBytes();
    BeOfBeBytes(n, 4);
  }

  /** A hardened step hashes 37 bytes: zero, the secret key, and the index with its top bit set. */
  lemma {:induction false} HardenedData<Sk(!new), Pk(!new)>(c: Curve<Sk, Pk>, sk: Xpriv<Sk>, i: u32)
    requires Coded(c) && ShowsData(c) && i < 0x8000_0000
    ensures var r := CkdPriv(c, sk, Hardened(i));
      r.Ok? ==>
        var data := r.value.chainCode;
        && |data| == 37 && data[0] == 0 && data[1..33] == c.secretBytes(sk.privateKey)
        && EndsWith(data, 0x8000_0000 + i)
  {
    var front: Bytes := [0] + c.secretBytes(sk.privateKey);
    NumberAtEnd(front, ToU32(Hardened(i)));
    var data := front + BeBytes(ToU32(Hardened(i)), 4);
    assert data[1..33] == c.secretBytes(sk.privateKey);
  }

  /** A normal step hashes 37 bytes: the serialized public key and the index. */
  lemma {:induction false} NormalData<Sk(!new), Pk(!new)>(c: Curve<Sk, Pk>, sk: Xpriv<Sk>, i: u32)
    requires Coded(c) && ShowsData(c)
    ensures var r := CkdPriv(c, sk, Normal(i));
      r.Ok? ==>
        var data := r.value.chainCode;
        |data| == 37 && data[..33] == c.serialize(c.publicKey(sk.privateKey)) && EndsWith(data, i)
  {
    NumberAtEnd(c.serialize(c.publicKey(sk.privateKey)), i);
  }

  /** Every step is keyed with the parent's chain code and records its place in the tree. */
  lemma {:induction false} StepRecords<Sk(!new), Pk(!new)>(c: Curve<Sk, Pk>, sk: Xpriv<Sk>, i: ChildNumber)
    ensures var r := CkdPriv(c, sk, i);
      r.Ok? ==>
        && (ShowsKey(c) ==> r.value.chainCode == sk.chainCode)
        && r.value.network == sk.network && r.value.depth == sk.depth + 1 && r.value.childNumber == i
        && r.value.parentFingerprint == c.fingerprint(c.serialize(c.publicKey(sk.privateKey)))
  {}

  /** The public side of a key is the same place in the tree with the public key. */
  lemma {:induction false} PublicSide<Sk(!new), Pk(!new)>(c: Curve<Sk, Pk>, sk: Xpriv<Sk>)
    ensures var pk := FromPriv(c, sk);
      && pk.network == sk.network && pk.depth == sk.depth && pk.parentFingerprint == sk.parentFingerprint
      && pk.childNumber == sk.childNumber && pk.chainCode == sk.chainCode && pk.publicKey == c.publicKey(sk.privateKey)
  {}

  // ---- a curve on which every public key is the same ----

  type Secret = b: Bytes | |b| == 32 witness seq(32, i => 0)

  type Point = b: Bytes | |b| == 33 witness seq(33, i => 0)

  function Flat(): (c: Curve<Secret, Point>)
  {
    Curve<Secret, Point>.Curve(
      (k: Secret) => Repeat<byte>(0, 33),
      (b: Bytes) => if |b| == 32 then Some(b) else None,
      (k: Secret) => k,
      (p: Point) => p,
      (b: Bytes) => if |b| == 33 then Some(b) else None,
      (t: Secret, k: Secret) => Some(k),
      (p: Point, t: Secret) => Some(p),
      (key: Bytes, data: Bytes) => (Repeat<byte>(0, 32), data),
      (b: Bytes) => b)
  }

  /** The public side of a parent does not determine its hardened children: on some lawful curve two
      parents with the same extended public key have the same normal and different hardened children. */
  lemma {:induction false} HardenedNeedsSecret(i: u32)
    returns (c: Curve<Secret, Point>, a: Xpriv<Secret>, b: Xpriv<Secret>)
    ensures c.Lawful() && Coded(c) && ShowsData(c) && FromPriv(c, a) == FromPriv(c, b)
    ensures CkdPriv(c, a, Hardened(i)).Ok? && CkdPriv(c, b, Hardened(i)).Ok?
    ensures CkdPriv(c, a, Hardened(i)).value.chainCode != CkdPriv(c, b, Hardened(i)).value.chainCode
    ensures CkdPriv(c, a, Normal(i)).Ok? && CkdPriv(c, b, Normal(i)).Ok?
    ensures CkdPriv(c, a, Normal(i)).value.chainCode == CkdPriv(c, b, Normal(i)).value.chainCode
  {
    c := Flat();
    var k, k': Secret := Repeat<byte>(0, 32), Repeat<byte>(1, 32);
    a := Xpriv<Secret>.Xpriv(Main, 0, [0, 0, 0, 0], Normal(0), k, Repeat<byte>(0, 32));
    b := a.(privateKey := k');
    var n := BeBytes(ToU32(Hardened(i)), 4);
    assert ([0] + k + n)[1] == 0 && ([0] + k' + n)[1] == 1;
  }
}
