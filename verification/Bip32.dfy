/** Hierarchical key derivation over an abstract curve (bitcoin/src/bip32.rs). */
module Bip32 {
  import opened Wrappers
  import opened Arith
  import opened Bits
  import opened Radix
  import Base58

  // ---- child numbers ----

  const TWO31: nat := 0x8000_0000


  datatype ChildNumber = Normal(index: u32) | Hardened(index: u32)

  function FromU32(number: u32): (c: ChildNumber)
    ensures c == if number < TWO31 then Normal(number) else Hardened(number - TWO31)
  {
    TopBitSet(number);
    if number / TWO31 % 2 != 0 then Hardened(number - TWO31) else Normal(number)
  }

  lemma {:induction false} TopBitSet(n: u32)
    ensures n / TWO31 == if n < TWO31 then 0 else 1
  {
    if n < TWO31 { DivModUnique(n, TWO31, 0, n); } else { DivModUnique(n, TWO31, 1, n - TWO31); }
  }

  function ToU32(c: ChildNumber): (n: u32)
    ensures c.Normal? ==> n == c.index
    ensures c.Hardened? ==> n == if c.index < TWO31 then c.index + TWO31 else c.index
  {
    match c
    case Normal(i) => i
    case Hardened(i) =>
      TopBitOr(i);
      Or(i, TWO31)
  }

  lemma {:induction false} Pow31()
    ensures Pow(2, 31) == TWO31
  {
    assert Pow(2, 8) == 256;
    PowAdd(2, 8, 8);
    PowAdd(2, 16, 8);
    assert Pow(2, 7) == 128;
    PowAdd(2, 24, 7);
  }

  lemma {:induction false} TopBitOr(i: u32)
    ensures Or(i, TWO31) == if i < TWO31 then i + TWO31 else i
  {
    Pow31();
    if i < TWO31 {
      OrDisjoint(i, 1, 31);
    } else {
      // both have bit 31: the low part or-ed onto the same top bit
      OrDisjoint(i - TWO31, 1, 31);
      OrIdempotentTop(i - TWO31, 31);
    }
  }

  lemma {:induction false} OrIdempotentTop(low: nat, k: nat)
    requires low < Pow(2, k)
    ensures Or(low + Pow(2, k), Pow(2, k)) == low + Pow(2, k)
  {
    if k == 0 {
      assert Or(0, 0) == 0;
    } else {
      var p := Pow(2, k - 1);
      assert (low + 2 * p) / 2 == low / 2 + p && (low + 2 * p) % 2 == low % 2;
      OrIdempotentTop(low / 2, k - 1);
    }
  }

  /** Every 32-bit number survives; a child number does exactly when its index is below 2^31. */
  lemma {:induction false} ChildNumberRoundTrip(n: u32, c: ChildNumber)
    ensures ToU32(FromU32(n)) == n
    ensures FromU32(ToU32(c)) == c <==> c.index < TWO31
  {}

  // ---- the curve, as far as derivation needs it ----

  /** Key generation, tweaking and hashing; every operation that can fail says so. */
  datatype Curve<!Sk(!new, ==), !Pk(!new, ==)> = Curve(
    publicKey: Sk -> Pk,
    secretKey: Bytes -> Option<Sk>,
    secretBytes: Sk -> Bytes,
    serialize: Pk -> Bytes,
    parsePublic: Bytes -> Option<Pk>,
    tweakSecret: (Sk, Sk) -> Option<Sk>,
    tweakPublic: (Pk, Sk) -> Option<Pk>,
    hmac: (Bytes, Bytes) -> (Bytes, Bytes),
    fingerprint: Bytes -> Bytes)
  {
    /** Adding a tweak to a secret key adds it to the public key: they fail together or agree. */
    ghost predicate Lawful()
    {
      forall k, t :: tweakPublic(publicKey(k), t) ==
        (match tweakSecret(t, k) case None => None case Some(k') => Some(publicKey(k')))
    }
  }

  /** The last case is a panic of the private derivation rather than an error value. */
  datatype Error =
    | CannotDeriveFromHardenedKey
    | MaximumDepthExceeded
    | Secp256k1
    | UnknownVersion(version: Bytes)
    | WrongExtendedKeyLength(length: nat)
    | Base58(error: Base58.CheckError)
    | InvalidBase58PayloadLength(payload: nat)
    | Panic

  type Outcome<+T> = Result<T, Error>

  datatype NetworkKind = Main | Test

  datatype Xpriv<Sk> = Xpriv(
    network: NetworkKind, depth: byte, parentFingerprint: Bytes, childNumber: ChildNumber, privateKey: Sk,
      chainCode: Bytes)

  datatype Xpub<Pk> = Xpub(
    network: NetworkKind, depth: byte, parentFingerprint: Bytes, childNumber: ChildNumber, publicKey: Pk,
      chainCode: Bytes)

  function FromPriv<Sk(!new), Pk(!new)>(c: Curve<Sk, Pk>, sk: Xpriv<Sk>): (pk: Xpub<Pk>)
  {
    Xpub(sk.network, sk.depth, sk.parentFingerprint, sk.childNumber, c.publicKey(sk.privateKey), sk.chainCode)
  }

  /** Private parent to private child. */
  function CkdPriv<Sk(!new), Pk(!new)>(c: Curve<Sk, Pk>, sk: Xpriv<Sk>, i: ChildNumber): (r: Outcome<Xpriv<Sk>>)
  {
    var data := match i
      case Normal(_) => c.serialize(c.publicKey(sk.privateKey))
      case Hardened(_) => [0] + c.secretBytes(sk.privateKey);
    var (left, chain) := c.hmac(sk.chainCode, data + BeBytes(ToU32(i), 4));
    var tweak := c.secretKey(left);
    if tweak.None? then Err(Panic)
    else
      var tweaked := c.tweakSecret(tweak.value, sk.privateKey);
      if tweaked.None? then Err(Panic)
      else if sk.depth == 255 then Err(MaximumDepthExceeded)
      else
        var parent := c.fingerprint(c.serialize(c.publicKey(sk.privateKey)));
        Ok(Xpriv(sk.network, sk.depth + 1, parent, i, tweaked.value, chain))
  }

  /** The scalar added to a public parent, and the child's chain code. */
  function CkdPubTweak<Sk(!new), Pk(!new)>(c: Curve<Sk, Pk>, pk: Xpub<Pk>, i: ChildNumber): (r: Outcome<(Sk, Bytes)>)
  {
    match i
    case Hardened(_) => Err(CannotDeriveFromHardenedKey)
    case Normal(n) =>
      var (left, chain) := c.hmac(pk.chainCode, c.serialize(pk.publicKey) + BeBytes(n, 4));
      var tweak := c.secretKey(left);
      if tweak.None? then Err(Secp256k1) else Ok((tweak.value, chain))
  }

  /** Public parent to public child. */
  function CkdPub<Sk(!new), Pk(!new)>(c: Curve<Sk, Pk>, pk: Xpub<Pk>, i: ChildNumber): (r: Outcome<Xpub<Pk>>)
  {
    match CkdPubTweak(c, pk, i)
    case Err(e) => Err(e)
    case Ok((tweak, chain)) =>
      var tweaked := c.tweakPublic(pk.publicKey, tweak);
      if tweaked.None? then Err(Secp256k1)
      else if pk.depth == 255 then Err(MaximumDepthExceeded)
      else Ok(Xpub(pk.network, pk.depth + 1, c.fingerprint(c.serialize(pk.publicKey)), i, tweaked.value, chain))
  }

  function DerivePriv<Sk(!new), Pk(!new)>(
      c: Curve<Sk, Pk>, sk: Xpriv<Sk>, path: seq<ChildNumber>)
      : (r: Outcome<Xpriv<Sk>>)
    decreases |path|
  {
    if path == [] then Ok(sk)
    else match CkdPriv(c, sk, path[0])
      case Ok(child) => DerivePriv(c, child, path[1..])
      case Err(e) => Err(e)
  }

  function DerivePub<Sk(!new), Pk(!new)>(c: Curve<Sk, Pk>, pk: Xpub<Pk>, path: seq<ChildNumber>): (r: Outcome<Xpub<Pk>>)
    decreases |path|
  {
    if path == [] then Ok(pk)
    else match CkdPub(c, pk, path[0])
      case Ok(child) => DerivePub(c, child, path[1..])
      case Err(e) => Err(e)
  }

  // ---- the two derivations agree ----

  /** The public side of a private outcome: keys map to their public keys, panics to curve errors. */
  function Neutered<Sk(!new), Pk(!new)>(c: Curve<Sk, Pk>, r: Outcome<Xpriv<Sk>>): (r': Outcome<Xpub<Pk>>)
  {
    match r
    case Ok(sk) => Ok(FromPriv(c, sk))
    case Err(e) => Err(if e == Panic then Secp256k1 else e)
  }

  lemma {:induction false} StepCommutes<Sk(!new), Pk(!new)>(c: Curve<Sk, Pk>, sk: Xpriv<Sk>, i: ChildNumber)
    requires c.Lawful() && i.Normal?
    ensures CkdPub(c, FromPriv(c, sk), i) == Neutered(c, CkdPriv(c, sk, i))
  {}

  ghost predicate AllNormal(path: seq<ChildNumber>)
  {
    forall i :: 0 <= i < |path| ==> path[i].Normal?
  }

  /** Along every path of normal children, deriving and then taking the public key is taking the
      public key and then deriving, failures included. */
  lemma {:induction false} DerivationCommutes<Sk(!new), Pk(!new)>(
      c: Curve<Sk, Pk>, sk: Xpriv<Sk>, path: seq<ChildNumber>)
    requires c.Lawful() && AllNormal(path)
    ensures DerivePub(c, FromPriv(c, sk), path) == Neutered(c, DerivePriv(c, sk, path))
    decreases |path|
  {
    if path != [] {
      StepCommutes(c, sk, path[0]);
      var child := CkdPriv(c, sk, path[0]);
      if child.Ok? {
        DerivationCommutes(c, child.value, path[1..]);
      }
    }
  }

  /** A path with a hardened step never derives publicly. */
  lemma {:induction false} HardenedFails<Sk(!new), Pk(!new)>(c: Curve<Sk, Pk>, pk: Xpub<Pk>, path: seq<ChildNumber>)
    requires !AllNormal(path)
    ensures DerivePub(c, pk, path).Err?
    decreases |path|
  {
    if path[0].Normal? {
      assert !AllNormal(path[1..]) by {
        var i :| 0 <= i < |path| && !path[i].Normal?;
        assert path[1..][i - 1] == path[i];
      }
      var child := CkdPub(c, pk, path[0]);
      if child.Ok? {
        HardenedFails(c, child.value, path[1..]);
      }
    }
  }

  /** Public derivation reaches a hardened step only to report it. */
  lemma {:induction false} HardenedReported<Sk(!new), Pk(!new)>(
      c: Curve<Sk, Pk>, pk: Xpub<Pk>, path: seq<ChildNumber>, i: ChildNumber, rest: seq<ChildNumber>)
    requires i.Hardened? && DerivePub(c, pk, path).Ok?
    ensures DerivePub(c, pk, path + [i] + rest) == Err(CannotDeriveFromHardenedKey)
  {
    DerivePubConcat(c, pk, path, [i] + rest);
    assert path + [i] + rest == path + ([i] + rest);
  }

  /** Derivation composes over path concatenation. */
  lemma {:induction false} DerivePrivConcat<Sk(!new), Pk(!new)>(
      c: Curve<Sk, Pk>, sk: Xpriv<Sk>, a: seq<ChildNumber>, b: seq<ChildNumber>)
    ensures DerivePriv(c, sk, a + b) ==
      (match DerivePriv(c, sk, a) case Ok(k) => DerivePriv(c, k, b) case Err(e) => Err(e))
    decreases |a|
  {
    if a == [] {
      assert a + b == b;
    } else {
      assert (a + b)[1..] == a[1..] + b;
      var child := CkdPriv(c, sk, a[0]);
      if child.Ok? { DerivePrivConcat(c, child.value, a[1..], b); }
    }
  }

  lemma {:induction false} DerivePubConcat<Sk(!new), Pk(!new)>(
      c: Curve<Sk, Pk>, pk: Xpub<Pk>, a: seq<ChildNumber>, b: seq<ChildNumber>)
    ensures DerivePub(c, pk, a + b) ==
      (match DerivePub(c, pk, a) case Ok(k) => DerivePub(c, k, b) case Err(e) => Err(e))
    decreases |a|
  {
    if a == [] {
      assert a + b == b;
    } else {
      assert (a + b)[1..] == a[1..] + b;
      var child := CkdPub(c, pk, a[0]);
      if child.Ok? { DerivePubConcat(c, child.value, a[1..], b); }
    }
  }

  // ---- the loops ----

  method DerivePrivPath<Sk(!new), Pk(!new)>(
      c: Curve<Sk, Pk>, master: Xpriv<Sk>, path: seq<ChildNumber>)
      returns (r: Outcome<Xpriv<Sk>>)
    ensures r == DerivePriv(c, master, path)
  {
    var sk := master;
    assert path[0..] == path;
    for i := 0 to |path|
      invariant DerivePriv(c, sk, path[i..]) == DerivePriv(c, master, path)
    {
      assert path[i..][0] == path[i] && path[i..][1..] == path[i + 1..];
      var child := CkdPriv(c, sk, path[i]);
      if !child.Ok? {
        return child;
      }
      sk := child.value;
    }
    r := Ok(sk);
  }

  method DerivePubPath<Sk(!new), Pk(!new)>(
      c: Curve<Sk, Pk>, parent: Xpub<Pk>, path: seq<ChildNumber>)
      returns (r: Outcome<Xpub<Pk>>)
    ensures r == DerivePub(c, parent, path)
  {
    var pk := parent;
    assert path[0..] == path;
    for i := 0 to |path|
      invariant DerivePub(c, pk, path[i..]) == DerivePub(c, parent, path)
    {
      assert path[i..][0] == path[i] && path[i..][1..] == path[i + 1..];
      var child := CkdPub(c, pk, path[i]);
      if !child.Ok? {
        return child;
      }
      pk := child.value;
    }
    r := Ok(pk);
  }
}
