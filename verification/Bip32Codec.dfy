/** The 78-byte and Base58 forms of extended keys (bitcoin/src/bip32.rs). */
module Bip32Codec {
  import opened Wrappers
  import opened Arith
  import opened Radix
  import opened Bip32
  import Base58

  const MAINNET_PUBLIC: Bytes := [0x04, 0x88, 0xB2, 0x1E]
  const MAINNET_PRIVATE: Bytes := [0x04, 0x88, 0xAD, 0xE4]
  const TESTNETS_PUBLIC: Bytes := [0x04, 0x35, 0x87, 0xCF]
  const TESTNETS_PRIVATE: Bytes := [0x04, 0x35, 0x83, 0x94]

  /** Secret keys have 32 bytes and public keys 33, and each form denotes at most one key. */
  ghost predicate Coded<Sk(!new), Pk(!new)>(c: Curve<Sk, Pk>)
  {
    && (forall k :: |c.secretBytes(k)| == 32 && c.secretKey(c.secretBytes(k)) == Some(k))
    && (forall b :: |b| == 32 && c.secretKey(b).Some? ==> c.secretBytes(c.secretKey(b).value) == b)
    && (forall p :: |c.serialize(p)| == 33 && c.parsePublic(c.serialize(p)) == Some(p))
    && (forall b :: |b| == 33 && c.parsePublic(b).Some? ==> c.serialize(c.parsePublic(b).value) == b)
  }

  /** The fields whose width is fixed by their type. */
  ghost predicate Sized(fingerprint: Bytes, chainCode: Bytes)
  {
    |fingerprint| == 4 && |chainCode| == 32
  }

  // ---- writing ----

  /** Everything before the key material: 45 bytes. */
  function Head(version: Bytes, depth: byte, fingerprint: Bytes, child: ChildNumber, chainCode: Bytes): (s: Bytes)
    requires |version| == 4 && Sized(fingerprint, chainCode)
    ensures |s| == 45
  {
    version + [depth] + fingerprint + BeBytes(ToU32(child), 4) + chainCode
  }

  function EncodePriv<Sk(!new), Pk(!new)>(c: Curve<Sk, Pk>, sk: Xpriv<Sk>): (s: Bytes)
    requires Coded(c) && Sized(sk.parentFingerprint, sk.chainCode)
    ensures |s| == 78
  {
    var version := if sk.network.Main? then MAINNET_PRIVATE else TESTNETS_PRIVATE;
    Head(version, sk.depth, sk.parentFingerprint, sk.childNumber, sk.chainCode) + [0] + c.secretBytes(sk.privateKey)
  }

  function EncodePub<Sk(!new), Pk(!new)>(c: Curve<Sk, Pk>, pk: Xpub<Pk>): (s: Bytes)
    requires Coded(c) && Sized(pk.parentFingerprint, pk.chainCode)
    ensures |s| == 78
  {
    var version := if pk.network.Main? then MAINNET_PUBLIC else TESTNETS_PUBLIC;
    Head(version, pk.depth, pk.parentFingerprint, pk.childNumber, pk.chainCode) + c.serialize(pk.publicKey)
  }

  // ---- reading ----

  /** Four big-endian bytes as a number. */
  function FromBe4(s: Bytes): (n: u32)
    requires |s| == 4
  {
    BeBound(s, 256);
    FourBytes();
    Be(s, 256)
  }

  lemma {:induction false} FourBytes()
    ensures Pow(256, 4) == TWO32
  {}

  function DecodePriv<Sk(!new), Pk(!new)>(c: Curve<Sk, Pk>, data: Bytes): (r: Outcome<Xpriv<Sk>>)
    ensures r.Ok? ==> |data| == 78 && Sized(r.value.parentFingerprint, r.value.chainCode)
  {
    if |data| != 78 then Err(WrongExtendedKeyLength(|data|))
    else if data[..4] != MAINNET_PRIVATE && data[..4] != TESTNETS_PRIVATE then Err(UnknownVersion(data[..4]))
    else
      var network := if data[..4] == MAINNET_PRIVATE then Main else Test;
      match c.secretKey(data[46..78])
      case None => Err(Secp256k1)
      case Some(k) => Ok(Xpriv(network, data[4], data[5..9], FromU32(FromBe4(data[9..13])), k, data[13..45]))
  }

  function DecodePub<Sk(!new), Pk(!new)>(c: Curve<Sk, Pk>, data: Bytes): (r: Outcome<Xpub<Pk>>)
    ensures r.Ok? ==> |data| == 78 && Sized(r.value.parentFingerprint, r.value.chainCode)
  {
    if |data| != 78 then Err(WrongExtendedKeyLength(|data|))
    else if data[..4] != MAINNET_PUBLIC && data[..4] != TESTNETS_PUBLIC then Err(UnknownVersion(data[..4]))
    else
      var network := if data[..4] == MAINNET_PUBLIC then Main else Test;
      match c.parsePublic(data[45..78])
      case None => Err(Secp256k1)
      case Some(p) => Ok(Xpub(network, data[4], data[5..9], FromU32(FromBe4(data[9..13])), p, data[13..45]))
  }

  // ---- round trips ----

  /** The fields sit where the reader looks for them, whatever follows. */
  lemma {:induction false} HeadFields(
      version: Bytes, depth: byte, fingerprint: Bytes, child: ChildNumber, chainCode: Bytes, rest: Bytes)
    requires |version| == 4 && Sized(fingerprint, chainCode)
    ensures var s := Head(version, depth, fingerprint, child, chainCode) + rest;
      && s[..4] == version && s[4] == depth && s[5..9] == fingerprint
      && FromBe4(s[9..13]) == ToU32(child) && s[13..45] == chainCode
  {
    var be := BeBytes(ToU32(child), 4);
    var s := Head(version, depth, fingerprint, child, chainCode) + rest;
    assert s[..4] == version && s[5..9] == fingerprint && s[9..13] == be && s[13..45] == chainCode;
    FourBytes();
    BeOfBeBytes(ToU32(child), 4);
  }

  /** Writing the fields just read restores the head. */
  lemma {:induction false} HeadRestored(data: Bytes)
    requires |data| == 78
    ensures Head(data[..4], data[4], data[5..9], FromU32(FromBe4(data[9..13])), data[13..45]) == data[..45]
  {
    var n := FromBe4(data[9..13]);
    ChildNumberRoundTrip(n, FromU32(n));
    BeBytesOfBe(data[9..13]);
    var s := data[..4] + [data[4]] + data[5..9] + data[9..13] + data[13..45];
    assert s == data[..45];
  }

  /** A written private key reads back as itself exactly when its child index is below 2^31;
      otherwise the child number alone changes. */
  lemma {:induction false} PrivRoundTrip<Sk(!new), Pk(!new)>(c: Curve<Sk, Pk>, sk: Xpriv<Sk>)
    requires Coded(c) && Sized(sk.parentFingerprint, sk.chainCode)
    ensures DecodePriv(c, EncodePriv(c, sk)) == Ok(sk.(childNumber := FromU32(ToU32(sk.childNumber))))
    ensures DecodePriv(c, EncodePriv(c, sk)) == Ok(sk) <==> sk.childNumber.index < TWO31
  {
    var version := if sk.network.Main? then MAINNET_PRIVATE else TESTNETS_PRIVATE;
    var key := c.secretBytes(sk.privateKey);
    HeadFields(version, sk.depth, sk.parentFingerprint, sk.childNumber, sk.chainCode, [0] + key);
    var s := EncodePriv(c, sk);
    assert s == Head(version, sk.depth, sk.parentFingerprint, sk.childNumber, sk.chainCode) + ([0] + key);
    assert s[46..78] == key;
    ChildNumberRoundTrip(0, sk.childNumber);
  }

  lemma {:induction false} PubRoundTrip<Sk(!new), Pk(!new)>(c: Curve<Sk, Pk>, pk: Xpub<Pk>)
    requires Coded(c) && Sized(pk.parentFingerprint, pk.chainCode)
    ensures DecodePub(c, EncodePub(c, pk)) == Ok(pk.(childNumber := FromU32(ToU32(pk.childNumber))))
    ensures DecodePub(c, EncodePub(c, pk)) == Ok(pk) <==> pk.childNumber.index < TWO31
  {
    var version := if pk.network.Main? then MAINNET_PUBLIC else TESTNETS_PUBLIC;
    var key := c.serialize(pk.publicKey);
    HeadFields(version, pk.depth, pk.parentFingerprint, pk.childNumber, pk.chainCode, key);
    var s := EncodePub(c, pk);
    assert s[45..78] == key;
    ChildNumberRoundTrip(0, pk.childNumber);
  }

  /** The reader never looks at byte 45, so a private key read from data is written back as that
      data exactly when the byte is zero. */
  lemma {:induction false} PrivReencode<Sk(!new), Pk(!new)>(c: Curve<Sk, Pk>, data: Bytes)
    requires Coded(c) && DecodePriv(c, data).Ok?
    ensures EncodePriv(c, DecodePriv(c, data).value) == data[45 := 0]
    ensures EncodePriv(c, DecodePriv(c, data).value) == data <==> data[45] == 0
  {
    HeadRestored(data);
    assert data[45 := 0] == data[..45] + [0] + data[46..78];
    assert data[45 := 0][45] == 0;
  }

  /** A public key read from data is written back as exactly that data. */
  lemma {:induction false} PubReencode<Sk(!new), Pk(!new)>(c: Curve<Sk, Pk>, data: Bytes)
    requires Coded(c) && DecodePub(c, data).Ok?
    ensures EncodePub(c, DecodePub(c, data).value) == data
  {
    var pk := DecodePub(c, data).value;
    assert c.serialize(pk.publicKey) == data[45..78];
    assert data[..4] == if pk.network.Main? then MAINNET_PUBLIC else TESTNETS_PUBLIC;
    HeadRestored(data);
    assert data == data[..45] + data[45..78];
  }

  /** What is wrong with bytes that are no key: their number, their version, or the key material. */
  ghost predicate Refused<T>(r: Outcome<T>, data: Bytes, versions: set<Bytes>)
  {
    if |data| != 78 then r == Err(WrongExtendedKeyLength(|data|))
    else
      var version := [data[0], data[1], data[2], data[3]];
      if version !in versions then r == Err(UnknownVersion(version)) else r.Ok? || r.error == Secp256k1
  }

  lemma {:induction false} DecodeErrors<Sk(!new), Pk(!new)>(c: Curve<Sk, Pk>, data: Bytes)
    ensures Refused(DecodePub(c, data), data, {[0x04, 0x88, 0xB2, 0x1E], [0x04, 0x35, 0x87, 0xCF]})
    ensures Refused(DecodePriv(c, data), data, {[0x04, 0x88, 0xAD, 0xE4], [0x04, 0x35, 0x83, 0x94]})
    ensures |data| == 78 ==> (DecodePub(c, data) == Err(Secp256k1) ==> c.parsePublic(data[45..]).None?)
    ensures |data| == 78 ==> (DecodePriv(c, data) == Err(Secp256k1) ==> c.secretKey(data[46..]).None?)
  {
    if |data| == 78 {
      assert data[45..] == data[45..78] && data[46..] == data[46..78];
      assert data[..4] == [data[0], data[1], data[2], data[3]];
    }
  }

  // ---- text ----

  function DisplayPub<Sk(!new), Pk(!new)>(hash: Bytes -> Base58.Digest, c: Curve<Sk, Pk>, pk: Xpub<Pk>): (s: Bytes)
    requires Coded(c) && Sized(pk.parentFingerprint, pk.chainCode)
  {
    Base58.EncodedCheck(hash, EncodePub(c, pk))
  }

  function ParsePub<Sk(!new), Pk(!new)>(
      hash: Bytes -> Base58.Digest, c: Curve<Sk, Pk>, text: Bytes)
      : (r: Outcome<Xpub<Pk>>)
  {
    match Base58.DecodedCheck(hash, text)
    case Err(e) => Err(Bip32.Base58(e))
    case Ok(data) =>
      if |data| != 78 then Err(InvalidBase58PayloadLength(|data|)) else DecodePub(c, data)
  }

  /** On keys with 31-bit child indexes, text and keys correspond one to one. */
  lemma {:induction false} PubTextIff<Sk(!new), Pk(!new)>(
      hash: Bytes -> Base58.Digest, c: Curve<Sk, Pk>, text: Bytes, pk: Xpub<Pk>)
    requires Coded(c) && Sized(pk.parentFingerprint, pk.chainCode) && pk.childNumber.index < TWO31
    ensures ParsePub(hash, c, text) == Ok(pk) <==> text == DisplayPub(hash, c, pk)
  {
    var data := EncodePub(c, pk);
    PubRoundTrip(c, pk);
    Base58.CheckAccepts(hash, text, data);
    if ParsePub(hash, c, text) == Ok(pk) {
      PubReencode(c, Base58.DecodedCheck(hash, text).value);
    }
  }

  function DisplayPriv<Sk(!new), Pk(!new)>(hash: Bytes -> Base58.Digest, c: Curve<Sk, Pk>, sk: Xpriv<Sk>): (s: Bytes)
    requires Coded(c) && Sized(sk.parentFingerprint, sk.chainCode)
  {
    Base58.EncodedCheck(hash, EncodePriv(c, sk))
  }

  function ParsePriv<Sk(!new), Pk(!new)>(hash: Bytes -> Base58.Digest, c: Curve<Sk, Pk>, text: Bytes)
    : (r: Outcome<Xpriv<Sk>>)
  {
    match Base58.DecodedCheck(hash, text)
    case Err(e) => Err(Bip32.Base58(e))
    case Ok(data) =>
      if |data| != 78 then Err(InvalidBase58PayloadLength(|data|)) else DecodePriv(c, data)
  }

  /** A text parses to a private key with a 31-bit child index exactly when its checked payload is the
      78 bytes written for the key, up to the byte that the reader ignores. */
  lemma {:induction false} PrivTextIff<Sk(!new), Pk(!new)>(
    hash: Bytes -> Base58.Digest, c: Curve<Sk, Pk>, text: Bytes, sk: Xpriv<Sk>)
    requires Coded(c) && Sized(sk.parentFingerprint, sk.chainCode) && sk.childNumber.index < TWO31
    ensures var payload := Base58.DecodedCheck(hash, text);
      ParsePriv(hash, c, text) == Ok(sk) <==>
        payload.Ok? && |payload.value| == 78 && payload.value[45 := 0] == EncodePriv(c, sk)
    ensures ParsePriv(hash, c, DisplayPriv(hash, c, sk)) == Ok(sk)
  {
    var data, payload := EncodePriv(c, sk), Base58.DecodedCheck(hash, text);
    PrivRoundTrip(c, sk);
    Base58.CheckRoundTrip(hash, data);
    if ParsePriv(hash, c, text) == Ok(sk) {
      PrivReencode(c, payload.value);
    }
    if payload.Ok? && |payload.value| == 78 && payload.value[45 := 0] == data {
      IgnoredByte(c, payload.value, 0);
    }
  }

  lemma {:induction false} IgnoredByte<Sk(!new), Pk(!new)>(c: Curve<Sk, Pk>, data: Bytes, b: byte)
    requires |data| == 78
    ensures DecodePriv(c, data[45 := b]) == DecodePriv(c, data)
  {}
}
