/** The SHA-256 engine around an arbitrary compression function (hashes/src/sha256.rs, hashes/src/util.rs). */
module Sha256 {
  import opened Arith
  import opened Radix
  import opened Blocks

  const BLOCK_SIZE: nat := 64

  /** Eight 32-bit words. */
  type State = s: seq<nat> | |s| == 8 && forall i :: 0 <= i < 8 ==> s[i] < 0x1_0000_0000
    witness [0, 0, 0, 0, 0, 0, 0, 0]

  type Compress = (State, seq<byte>) -> State

  const IV: State := [
    0x6a09e667, 0xbb67ae85, 0x3c6ef372, 0xa54ff53a, 0x510e527f, 0x9b05688c, 0x1f83d9ab, 0x5be0cd19]

  function Start(): (v: View<State>)
  {
    Snapshot(IV, 0, [])
  }

  // ---- padding ----

  /** How many zero bytes follow the marker: the least number that leaves eight bytes in the last block. */
  function PadZeros(n: nat): (z: nat)
    ensures z == if n % BLOCK_SIZE <= 55 then 55 - n % BLOCK_SIZE else 119 - n % BLOCK_SIZE
    ensures (n + 1 + z) % BLOCK_SIZE == 56
  {
    (55 - n) % BLOCK_SIZE
  }

  lemma {:induction false} PadZerosLeast(n: nat, y: nat)
    requires (n + 1 + y) % BLOCK_SIZE == 56
    ensures PadZeros(n) <= y
  {}

  /** Section 5.1.1 of FIPS 180-4 for a message of n bytes; the bit length is kept modulo 2^64. */
  function Padding(n: nat): (s: seq<byte>)
    ensures |s| == PadZeros(n) + 9
    ensures (n + |s|) % BLOCK_SIZE == 0
  {
    EightMore(n + 1 + PadZeros(n));
    [0x80] + Repeat<byte>(0, PadZeros(n)) + BeBytes(WrappedBits(n), 8)
  }

  /** The bit length of n bytes in 64 bits. */
  function WrappedBits(n: nat): (b: u64)
  {
    (8 * n) % TWO64
  }

  lemma {:induction false} WrappedTwice(n: nat)
    ensures WrappedBits(n % TWO64) == WrappedBits(n)
  {
    ModMul(n, 8, TWO64);
  }

  lemma {:induction false} EightMore(x: nat)
    requires x % 64 == 56
    ensures (x + 8) % 64 == 0
  {}

  /** The hash of section 6.2 of FIPS 180-4: the blocks of the padded message, folded. */
  function Hash(f: Compress, msg: seq<byte>): (h: State)
  {
    Fold(f, BLOCK_SIZE, IV, msg + Padding(|msg|))
  }

  /** The state that finishing an engine reaches. */
  function Finished(f: Compress, v: View<State>): (h: State)
  {
    Absorb(f, BLOCK_SIZE, v, Padding(v.length)).h
  }

  /** An engine fed with any pieces of a message and finished gives the hash of the message. */
  lemma {:induction false} FinishedIsHash(f: Compress, chunks: seq<seq<byte>>)
    ensures Finished(f, AbsorbAll(f, BLOCK_SIZE, Start(), chunks)) == Hash(f, Concat(chunks))
  {
    var msg := Concat(chunks);
    SplitInvariant(f, BLOCK_SIZE, Start(), chunks);
    AbsorbTwice(f, BLOCK_SIZE, Start(), msg, Padding(|msg|));
    assert [] + (msg + Padding(|msg|)) == msg + Padding(|msg|);
  }

  // ---- the state as bytes ----

  /** Four big-endian bytes per word. */
  function StateBytes(words: seq<nat>): (s: seq<byte>)
    ensures |s| == 4 * |words|
  {
    if words == [] then [] else BeBytes(words[0], 4) + StateBytes(words[1..])
  }

  function StateFromBytes(s: seq<byte>): (words: seq<nat>)
    requires |s| % 4 == 0
    ensures |words| == |s| / 4
    ensures forall i :: 0 <= i < |words| ==> words[i] < 0x1_0000_0000
  {
    if s == [] then []
    else
      BeBound(s[..4], 256);
      assert Pow(256, 4) == 0x1_0000_0000;
      [Be(s[..4], 256)] + StateFromBytes(s[4..])
  }

  lemma {:induction false} StateRoundTrip(words: seq<nat>)
    requires forall i :: 0 <= i < |words| ==> words[i] < 0x1_0000_0000
    ensures StateFromBytes(StateBytes(words)) == words
  {
    if words != [] {
      var s := StateBytes(words);
      assert s[..4] == BeBytes(words[0], 4) && s[4..] == StateBytes(words[1..]);
      assert Pow(256, 4) == 0x1_0000_0000;
      BeOfBeBytes(words[0], 4);
      StateRoundTrip(words[1..]);
    }
  }

  /** An engine that has consumed some whole blocks and reached this state. */
  function Resumed(midstate: seq<byte>, length: nat): (v: View<State>)
    requires |midstate| == 32
  {
    var h: State := StateFromBytes(midstate);
    Snapshot(h, length, [])
  }

  // ---- the engine ----

  class HashEngine {
    const compress: Compress
    const buffer: array<byte>
    var h: State
    var length: nat

    ghost predicate Valid()
      reads this
    {
      buffer.Length == BLOCK_SIZE
    }

    ghost function View(): (v: View<State>)
      requires Valid()
      reads this, buffer
      ensures Good(BLOCK_SIZE, v)
    {
      Snapshot(h, length, buffer[..length % BLOCK_SIZE])
    }

    constructor (f: Compress)
      ensures Valid() && fresh(buffer) && compress == f && View() == Start()
    {
      compress, h, length := f, IV, 0;
      buffer := new byte[BLOCK_SIZE](_ => 0);
    }

    /** Resumes from a state; the source panics unless the length is a whole number of blocks. */
    constructor FromMidstate(f: Compress, midstate: seq<byte>, len: nat)
      requires |midstate| == 32 && len % BLOCK_SIZE == 0
      ensures Valid() && fresh(buffer) && compress == f
      ensures View() == Resumed(midstate, len)
    {
      compress, h, length := f, StateFromBytes(midstate), len;
      buffer := new byte[BLOCK_SIZE](_ => 0);
    }

    /** Copies into the block buffer and compresses whenever it is full. */
    method Input(data: seq<byte>)
      requires Valid()
      modifies this, buffer
      ensures Valid() && View() == Absorb(compress, BLOCK_SIZE, old(View()), data)
    {
      ghost var goal := Absorb(compress, BLOCK_SIZE, View(), data);
      var i := 0;
      assert data[0..] == data;
      while i < |data|
        invariant 0 <= i <= |data| && Valid()
        invariant Absorb(compress, BLOCK_SIZE, View(), data[i..]) == goal
      {
        i := FillFrom(data, i);
      }
      assert data[i..] == [];
      AbsorbNothing(compress, BLOCK_SIZE, View());
    }

    method FillFrom(data: seq<byte>, i: nat) returns (next: nat)
      requires Valid() && i < |data|
      modifies this, buffer
      ensures Valid() && i < next <= |data|
      ensures Absorb(compress, BLOCK_SIZE, View(), data[next..]) == Absorb(compress, BLOCK_SIZE, old(View()), data[i..])
    {
      var n := Fill(data[i..]);
      next := i + n;
      assert data[i..][n..] == data[next..];
    }

    /** One round of the loop. */
    method Fill(inp: seq<byte>) returns (writeLen: nat)
      requires Valid() && inp != []
      modifies this, buffer
      ensures Valid() && 0 < writeLen <= |inp|
      ensures Absorb(compress, BLOCK_SIZE, View(), inp[writeLen..]) == Absorb(compress, BLOCK_SIZE, old(View()), inp)
    {
      var bufIdx := length % BLOCK_SIZE;
      var remLen := BLOCK_SIZE - bufIdx;
      writeLen := if remLen <= |inp| then remLen else |inp|;
      TopUp(compress, BLOCK_SIZE, View(), inp, writeLen);
      CopyInto(bufIdx, inp[..writeLen]);
      NextIndex(length, writeLen);
      length := length + writeLen;
      ProcessFull(bufIdx + writeLen);
    }

    /** Compresses the buffer when it holds a whole block. */
    method ProcessFull(filled: nat)
      requires Valid() && 0 < filled <= BLOCK_SIZE
      requires length % BLOCK_SIZE == if filled == BLOCK_SIZE then 0 else filled
      modifies this`h
      ensures View() == if filled < BLOCK_SIZE then Snapshot(old(h), length, buffer[..filled])
        else Snapshot(compress(old(h), buffer[..filled]), length, [])
    {
      if length % BLOCK_SIZE == 0 {
        assert buffer[..filled] == buffer[..];
        h := compress(h, buffer[..]);
      }
    }

    method CopyInto(at: nat, src: seq<byte>)
      requires Valid() && at + |src| <= BLOCK_SIZE
      modifies buffer
      ensures buffer[..at + |src|] == old(buffer[..at]) + src
    {
      for k := 0 to |src|
        invariant buffer[..at + k] == old(buffer[..at]) + src[..k]
      {
        buffer[at + k] := src[k];
      }
    }
  }

  lemma {:induction false} NextIndex(length: nat, n: nat)
    requires length % BLOCK_SIZE + n <= BLOCK_SIZE
    ensures (length + n) % BLOCK_SIZE == if length % BLOCK_SIZE + n == BLOCK_SIZE then 0 else length % BLOCK_SIZE + n
  {
    assert length == 64 * (length / 64) + length % 64;
  }

  // ---- finishing ----

  /** The 0x80 byte, and a first run of zeros when the block has no room for the length. */
  method FeedMarker(e: HashEngine)
    requires e.Valid()
    modifies e, e.buffer
    ensures e.Valid()
    ensures var n := old(e.length);
      var pad := if (n + 1) % BLOCK_SIZE > 56 then [0x80] + Repeat<byte>(0, 56) else [0x80];
      e.length == n + |pad| && e.View() == Absorb(e.compress, BLOCK_SIZE, old(e.View()), pad)
  {
    ghost var v := e.View();
    var zeroes := Repeat<byte>(0, 56);
    e.Input([0x80]);
    if e.length % BLOCK_SIZE > 56 {
      AbsorbTwice(e.compress, BLOCK_SIZE, v, [0x80], zeroes);
      e.Input(zeroes);
    }
  }

  lemma {:induction false} PadPieces(n: nat, first: nat, second: nat)
    requires first + second == PadZeros(n) && second <= 56
    ensures ([0x80] + Repeat<byte>(0, first)) + Repeat<byte>(0, 56)[..second] == [0x80] + Repeat<byte>(0, PadZeros(n))
  {}

  /** Feeds the 0x80 byte and zeros until eight bytes are left in the block. */
  method FeedPadding(e: HashEngine)
    requires e.Valid()
    modifies e, e.buffer
    ensures e.Valid() && e.length % BLOCK_SIZE == 56
    ensures e.View() == Absorb(e.compress, BLOCK_SIZE, old(e.View()), [0x80] + Repeat<byte>(0, PadZeros(old(e.length))))
  {
    ghost var v, n := e.View(), e.length;
    ghost var first := if (n + 1) % BLOCK_SIZE > 56 then 56 else 0;
    ghost var pad := [0x80] + Repeat<byte>(0, first);
    assert [0x80] + Repeat<byte>(0, 0) == [0x80];
    FeedMarker(e);
    ZerosCount(n, first);
    var padLength := 56 - e.length % BLOCK_SIZE;
    var zeroes := Repeat<byte>(0, 56)[..padLength];
    AbsorbTwice(e.compress, BLOCK_SIZE, v, pad, zeroes);
    PadPieces(n, first, padLength);
    e.Input(zeroes);
  }

  /** Pads the message in the engine and returns the state as bytes. */
  method FromEngine(e: HashEngine) returns (digest: seq<byte>)
    requires e.Valid()
    modifies e, e.buffer
    ensures digest == StateBytes(Finished(e.compress, old(e.View())))
  {
    ghost var v := e.View();
    var dataLen: u64 := e.length % TWO64;
    WrappedTwice(e.length);
    FeedPadding(e);
    var bitLength := BeBytes(WrappedBits(dataLen), 8);
    AbsorbTwice(e.compress, BLOCK_SIZE, v, [0x80] + Repeat<byte>(0, PadZeros(v.length)), bitLength);
    e.Input(bitLength);
    assert e.length % BLOCK_SIZE == 0;
    digest := StateBytes(e.h);
  }

  lemma {:induction false} ZerosCount(n: nat, z: nat)
    requires z == if (n + 1) % BLOCK_SIZE > 56 then 56 else 0
    ensures (n + 1 + z) % BLOCK_SIZE <= 56 && z + (56 - (n + 1 + z) % BLOCK_SIZE) == PadZeros(n)
  {
    var q, r := n / 64, n % 64;
    assert n == 64 * q + r;
    assert (n + 1) % 64 == if r == 63 then 0 else r + 1;
    assert r >= 56 && r < 63 ==> n + 57 == 64 * (q + 1) + (r - 7);
  }

  /** Stopping at a block boundary and resuming from the state changes nothing. */
  lemma {:induction false} ResumeFromMidstate(f: Compress, a: seq<byte>, b: seq<byte>)
    requires |a| % BLOCK_SIZE == 0
    ensures var mid := Absorb(f, BLOCK_SIZE, Start(), a);
      Absorb(f, BLOCK_SIZE, Resumed(StateBytes(mid.h), |a|), b) == Absorb(f, BLOCK_SIZE, Start(), a + b)
  {
    var mid := Absorb(f, BLOCK_SIZE, Start(), a);
    StateRoundTrip(mid.h);
    assert [] + a == a;
    assert mid == Snapshot(mid.h, |a|, []);
    AbsorbTwice(f, BLOCK_SIZE, Start(), a, b);
  }

  // ---- the second implementation, for evaluation in `const` context ----

  function NumChunks(n: nat): (k: nat)
  {
    (n + 9 + 63) / BLOCK_SIZE
  }

  lemma {:induction false} PaddedLength(n: nat)
    ensures n + |Padding(n)| == BLOCK_SIZE * NumChunks(n)
    ensures NumChunks(n) == n / BLOCK_SIZE + (if n % BLOCK_SIZE <= 55 then 1 else 2)
  {
    var q, r := n / 64, n % 64;
    assert n == 64 * q + r;
    assert NumChunks(n) == (64 * q + (r + 72)) / 64;
    DivAddMul(r + 72, q, 64);
    assert NumChunks(n) == q + if r <= 55 then 1 else 2;
  }

  lemma {:induction false} BeBytesAt(n: nat, k: nat, j: nat)
    requires j < k
    ensures BeBytes(n, k)[j] == n / Pow(256, k - 1 - j) % 256
  {
    if j < k - 1 {
      BeBytesAt(n / 256, k - 1, j);
      DivDiv(n, 256, Pow(256, k - 2 - j));
    }
  }

  /** The padded message, byte by byte. */
  lemma {:induction false} PaddedAt(msg: seq<byte>, k: nat)
    requires k < BLOCK_SIZE * NumChunks(|msg|)
    ensures var p, end := msg + Padding(|msg|), BLOCK_SIZE * NumChunks(|msg|);
      |p| == end &&
      p[k] == if k < |msg| then msg[k] else if k == |msg| then 0x80
              else if k < end - 8 then 0 else BeBytes(WrappedBits(|msg|), 8)[k - (end - 8)]
  {
    PaddedLength(|msg|);
  }

  /** One block of the padded message, built the way the loop does it. */
  method ChunkBlock(bytes: seq<byte>, chunk: nat) returns (block: seq<byte>)
    requires chunk < NumChunks(|bytes|)
    ensures var p := bytes + Padding(|bytes|);
      |p| == BLOCK_SIZE * NumChunks(|bytes|) && block == p[BLOCK_SIZE * chunk..BLOCK_SIZE * chunk + BLOCK_SIZE]
  {
    var n, numChunks := |bytes|, NumChunks(|bytes|);
    PaddedLength(n);
    if chunk * BLOCK_SIZE + BLOCK_SIZE <= n {
      return bytes[chunk * BLOCK_SIZE..chunk * BLOCK_SIZE + BLOCK_SIZE];
    }
    var offset := chunk * BLOCK_SIZE;
    var buf := new byte[BLOCK_SIZE](_ => 0);
    var i := 0;
    while offset + i < n
      invariant 0 <= i <= BLOCK_SIZE && (offset <= n ==> offset + i <= n) && (offset > n ==> i == 0)
      invariant forall j :: 0 <= j < i ==> buf[j] == bytes[offset + j]
      invariant forall j :: i <= j < BLOCK_SIZE ==> buf[j] == 0
    {
      buf[i] := bytes[offset + i];
      i := i + 1;
    }
    if n % BLOCK_SIZE <= BLOCK_SIZE - 9 || chunk + 2 == numChunks {
      buf[i] := 0x80;
    }
    if chunk + 1 == numChunks {
      WriteLength(buf, WrappedBits(n));
    }
    BlockIsPadded(bytes, chunk, buf[..]);
    block := buf[..];
  }

  method WriteLength(buf: array<byte>, bitLen: u64)
    requires buf.Length == BLOCK_SIZE
    modifies buf
    ensures forall j :: 0 <= j < 56 ==> buf[j] == old(buf[j])
    ensures buf[56..] == BeBytes(bitLen, 8)
  {
    for j := 0 to 8
      invariant forall i :: 0 <= i < 56 ==> buf[i] == old(buf[i])
      invariant forall i :: 0 <= i < j ==> buf[56 + i] == BeBytes(bitLen, 8)[i]
    {
      BeBytesAt(bitLen, 8, j);
      buf[56 + j] := bitLen / Pow(256, 7 - j) % 256;
    }
  }

  /** What the block must hold, position by position. */
  ghost predicate BlockOf(bytes: seq<byte>, chunk: nat, buf: seq<byte>)
    requires |buf| == BLOCK_SIZE
  {
    var n, end := |bytes|, BLOCK_SIZE * NumChunks(|bytes|);
    forall j :: 0 <= j < BLOCK_SIZE ==>
      var k := BLOCK_SIZE * chunk + j;
      buf[j] == if k < n then bytes[k] else if k == n then 0x80 else if k < end - 8 then 0
                else if k < end then BeBytes(WrappedBits(n), 8)[k - (end - 8)] else 0
  }

  lemma {:induction false} BlockIsPadded(bytes: seq<byte>, chunk: nat, buf: seq<byte>)
    requires chunk < NumChunks(|bytes|) && |buf| == BLOCK_SIZE && BlockOf(bytes, chunk, buf)
    ensures var p := bytes + Padding(|bytes|);
      |p| == BLOCK_SIZE * NumChunks(|bytes|) && buf == p[BLOCK_SIZE * chunk..BLOCK_SIZE * chunk + BLOCK_SIZE]
  {
    PaddedLength(|bytes|);
    var p := bytes + Padding(|bytes|);
    forall j | 0 <= j < BLOCK_SIZE ensures buf[j] == p[BLOCK_SIZE * chunk..BLOCK_SIZE * chunk + BLOCK_SIZE][j] {
      PaddedAt(bytes, BLOCK_SIZE * chunk + j);
    }
  }

  lemma {:induction false} FoldBlock(f: Compress, h: State, s: seq<byte>, k: nat)
    requires BLOCK_SIZE * k + BLOCK_SIZE <= |s|
    ensures Fold(f, BLOCK_SIZE, h, s[..BLOCK_SIZE * k + BLOCK_SIZE])
      == f(Fold(f, BLOCK_SIZE, h, s[..BLOCK_SIZE * k]), s[BLOCK_SIZE * k..BLOCK_SIZE * k + BLOCK_SIZE])
  {
    var a, b := s[..BLOCK_SIZE * k], s[BLOCK_SIZE * k..BLOCK_SIZE * k + BLOCK_SIZE];
    assert s[..BLOCK_SIZE * k + BLOCK_SIZE] == a + b;
    FoldAppend(f, BLOCK_SIZE, h, a, b);
    assert |Tail(BLOCK_SIZE, a)| == 0 && Tail(BLOCK_SIZE, a) + b == b && b[..BLOCK_SIZE] == b;
  }

  /** The state before the last block of the padded message. */
  function AllButLast(f: Compress, bytes: seq<byte>): (h: State)
  {
    PaddedLength(|bytes|);
    Fold(f, BLOCK_SIZE, IV, (bytes + Padding(|bytes|))[..BLOCK_SIZE * (NumChunks(|bytes|) - 1)])
  }

  /** The second implementation: without `finalize` it stops before the last padded block. */
  method ConstHash(f: Compress, bytes: seq<byte>, finalize: bool) returns (out: seq<byte>)
    ensures finalize ==> out == StateBytes(Hash(f, bytes))
    ensures !finalize ==> out == StateBytes(AllButLast(f, bytes))
  {
    var state: State := IV;
    var numChunks := NumChunks(|bytes|);
    var chunk := 0;
    ghost var p := bytes + Padding(|bytes|);
    PaddedLength(|bytes|);
    while chunk < numChunks
      invariant 0 <= chunk <= numChunks && |p| == BLOCK_SIZE * numChunks
      invariant state == Fold(f, BLOCK_SIZE, IV, p[..BLOCK_SIZE * chunk])
      invariant !finalize ==> chunk < numChunks
    {
      if !finalize && chunk + 1 == numChunks {
        break;
      }
      var w := ChunkBlock(bytes, chunk);
      FoldBlock(f, IV, p, chunk);
      chunk := chunk + 1;
      state := f(state, w);
    }
    assert p[..BLOCK_SIZE * numChunks] == p;
    out := StateBytes(state);
  }

  /** Without `finalize` the result is the engine's midstate, for every message of a length and every
      compression function, exactly when the length ends at most 55 bytes into a block. */
  ghost predicate MidstateAgrees(f: Compress, bytes: seq<byte>)
  {
    AllButLast(f, bytes) == Absorb(f, BLOCK_SIZE, Start(), bytes).h
  }

  lemma {:induction false} ConstMidstateIff(n: nat)
    ensures (forall f: Compress, bytes | |bytes| == n :: MidstateAgrees(f, bytes)) <==> n % BLOCK_SIZE <= 55
  {
    if n % BLOCK_SIZE <= 55 {
      forall f: Compress, bytes | |bytes| == n ensures MidstateAgrees(f, bytes) {
        var _ := WholeBlocks(f, bytes);
      }
    } else {
      var f: Compress := (h, b) => if h[0] == 0 then [1, 0, 0, 0, 0, 0, 0, 0] else [0, 0, 0, 0, 0, 0, 0, 0];
      var bytes := Repeat<byte>(0, n);
      var _ := WholeBlocks(f, bytes);
      assert !MidstateAgrees(f, bytes);
    }
  }

  lemma {:induction false} WholeBlocks(f: Compress, bytes: seq<byte>) returns (block: seq<byte>)
    ensures |bytes| % BLOCK_SIZE <= 55 ==> MidstateAgrees(f, bytes)
    ensures |bytes| % BLOCK_SIZE > 55 ==> AllButLast(f, bytes) == f(Absorb(f, BLOCK_SIZE, Start(), bytes).h, block)
  {
    PaddedLength(|bytes|);
    var k := |bytes| / BLOCK_SIZE;
    var a, b, p := bytes[..BLOCK_SIZE * k], bytes[BLOCK_SIZE * k..], bytes + Padding(|bytes|);
    block := p[BLOCK_SIZE * k..BLOCK_SIZE * k + BLOCK_SIZE];
    assert p[..BLOCK_SIZE * k] == a;
    assert bytes == a + b && [] + bytes == bytes;
    FoldAppend(f, BLOCK_SIZE, IV, a, b);
    assert |Tail(BLOCK_SIZE, a)| == 0 && Tail(BLOCK_SIZE, a) + b == b;
    FoldBlock(f, IV, p, k);
    assert |bytes| % BLOCK_SIZE > 55 ==> BLOCK_SIZE * (NumChunks(|bytes|) - 1) == BLOCK_SIZE * k + BLOCK_SIZE;
  }

  /** The tagged-hash midstate: the tag's hash twice is one block, so this is the state of an engine
      that was fed the two. */
  method HashTag(f: Compress, tag: seq<byte>) returns (out: seq<byte>)
    ensures var hash := StateBytes(Hash(f, tag));
      out == StateBytes(Absorb(f, BLOCK_SIZE, Start(), hash + hash).h)
  {
    var hash := ConstHash(f, tag, true);
    var buf := Twice(hash);
    var _ := WholeBlocks(f, buf);
    out := ConstHash(f, buf, false);
  }

  method Twice(hash: seq<byte>) returns (s: seq<byte>)
    requires |hash| == 32
    ensures s == hash + hash
  {
    var buf := new byte[BLOCK_SIZE](_ => 0);
    for i := 0 to BLOCK_SIZE
      invariant forall j :: 0 <= j < i ==> buf[j] == (hash + hash)[j]
    {
      buf[i] := hash[i % |hash|];
    }
    s := buf[..];
  }
}
