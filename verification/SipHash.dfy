/** The SipHash-2-4 engine around arbitrary rounds (hashes/src/siphash24.rs). */
module SipHash {
  import opened Arith
  import opened Bits
  import opened Radix
  import opened Blocks
  import VarInt

  /** Absorbing one block is absorbing its little-endian word. */
  function OnWords<S>(absorb: (S, nat) -> S): (f: (S, seq<byte>) -> S)
  {
    (s, b) => absorb(s, Le(b, 256))
  }

  // ---- loading up to seven bytes ----

  /** Or-ing a shifted part onto the bytes loaded so far. */
  lemma {:induction false} OrPart(s: seq<byte>, i: nat, k: nat)
    requires i + k <= |s|
    ensures Or(Le(s[..i], 256), Le(s[i..i + k], 256) * Pow(2, 8 * i)) == Le(s[..i + k], 256)
  {
    LeBound(s[..i], 256);
    BytePower(i);
    OrDisjoint(Le(s[..i], 256), Le(s[i..i + k], 256), 8 * i);
    assert s[..i + k] == s[..i] + s[i..i + k];
    LeConcat(s[..i], s[i..i + k], 256);
  }

  function LoadPart(s: seq<byte>, i: nat, k: nat, out: nat): (r: nat)
    requires i + k <= |s| && out == Le(s[..i], 256)
    ensures r == Le(s[..i + k], 256)
  {
    OrPart(s, i, k);
    Or(out, Shl(Le(s[i..i + k], 256), 8 * i))
  }

  /** Four, then two, then one byte, as far as they go; every load stays inside the given range. */
  function U8to64Le(buf: seq<byte>, start: nat, len: nat): (out: nat)
    requires len < 8 && start + len <= |buf|
    ensures out == Le(buf[start..start + len], 256) < TWO64
  {
    var s := buf[start..start + len];
    var i4 := if 3 < len then 4 else 0;
    var out4 := if 3 < len then Le(s[..4], 256) else 0;
    var i2 := if i4 + 1 < len then i4 + 2 else i4;
    var out2 := if i4 + 1 < len then LoadPart(s, i4, 2, out4) else out4;
    var out1 := if i2 < len then LoadPart(s, i2, 1, out2) else out2;
    assert s[..len] == s;
    WordBound(s);
    out1
  }

  lemma {:induction false} WordBound(s: seq<byte>)
    requires |s| <= 8
    ensures Le(s, 256) < TWO64
  {
    LeBound(s, 256);
    PowMono(256, |s|, 8);
    VarInt.BytePowers();
  }

  // ---- the engine ----

  class HashEngine<S> {
    const absorb: (S, nat) -> S
    var length: nat
    var state: S
    var tail: u64
    var ntail: nat

    ghost predicate Shape()
      reads this
    {
      ntail < 8 && tail < Pow(256, ntail)
    }

    /** Reachable engines: the tail holds what does not fill a word. */
    ghost predicate Valid()
      reads this
    {
      Shape() && ntail == length % 8
    }

    ghost function View(): (v: View<S>)
      requires Shape()
      reads this
      ensures Good(8, v)
    {
      Snapshot(state, length, LeBytes(tail, ntail))
    }

    constructor (absorb: (S, nat) -> S, init: S)
      ensures Valid() && this.absorb == absorb && View() == Snapshot(init, 0, [])
    {
      this.absorb, this.state, this.length, this.tail, this.ntail := absorb, init, 0, 0, 0;
    }

    /** Completes the buffered tail, absorbs whole words, buffers the rest. */
    method Input(msg: seq<byte>)
      requires Valid()
      modifies this
      ensures Valid() && View() == Absorb(OnWords(absorb), 8, old(View()), msg)
    {
      ModAdd(length, |msg|, 8);
      Feed(msg);
      assert ntail == |View().pending|;
    }

    method Feed(msg: seq<byte>)
      requires Shape()
      modifies this
      ensures Shape() && View() == Absorb(OnWords(absorb), 8, old(View()), msg)
    {
      ghost var v := View();
      length := length + |msg|;
      var needed := 0;
      if ntail != 0 {
        needed := 8 - ntail;
        FillTail(msg, needed, v);
        if |msg| < needed {
          return;
        }
      } else {
        assert msg[0..] == msg && LeBytes(tail, 0) == [];
      }
      Words(msg, needed, v);
    }

    /** Adds bytes to the tail, and absorbs it when it is a whole word. */
    method FillTail(msg: seq<byte>, needed: nat, ghost v: View<S>)
      requires Shape() && ntail != 0 && needed == 8 - ntail && length == v.length + |msg|
      requires v == Snapshot(state, v.length, LeBytes(tail, ntail))
      modifies this`tail, this`ntail, this`state
      ensures |msg| < needed ==> Shape() && View() == Absorb(OnWords(absorb), 8, v, msg)
      ensures |msg| >= needed ==> ntail == 0
      ensures |msg| >= needed ==>
        Absorb(OnWords(absorb), 8, Snapshot(state, v.length + needed, []), msg[needed..])
          == Absorb(OnWords(absorb), 8, v, msg)
    {
      ghost var f := OnWords(absorb);
      var take := if |msg| <= needed then |msg| else needed;
      TopUp(f, 8, v, msg, take);
      tail := TailWith(tail, ntail, msg, take);
      if |msg| < needed {
        ntail := ntail + |msg|;
        assert msg[take..] == [];
        AbsorbNothing(f, 8, View());
      } else {
        state := absorb(state, tail);
        ntail := 0;
      }
    }

    /** The word loop and the new tail. Its bound omits `needed`, which is less than one word. */
    method Words(msg: seq<byte>, needed: nat, ghost v: View<S>)
      requires needed < 8 && needed <= |msg| && length == v.length + |msg| && ntail == 0
      requires Absorb(OnWords(absorb), 8, Snapshot(state, v.length + needed, []), msg[needed..])
        == Absorb(OnWords(absorb), 8, v, msg)
      modifies this
      ensures Shape() && View() == Absorb(OnWords(absorb), 8, v, msg)
    {
      var len := |msg| - needed;
      var left := len % 8;
      var i := WordLoop(msg, needed, len, left, v);
      NewTail(msg, i, v);
    }

    method WordLoop(msg: seq<byte>, needed: nat, len: nat, left: nat, ghost v: View<S>) returns (i: nat)
      requires needed < 8 && needed + len == |msg| && left == len % 8
      requires Absorb(OnWords(absorb), 8, Snapshot(state, v.length + needed, []), msg[needed..])
        == Absorb(OnWords(absorb), 8, v, msg)
      modifies this`state
      ensures i + left == |msg|
      ensures Absorb(OnWords(absorb), 8, Snapshot(state, v.length + i, []), msg[i..])
        == Absorb(OnWords(absorb), 8, v, msg)
    {
      ghost var goal, words, w := Absorb(OnWords(absorb), 8, v, msg), len / 8, 0;
      i := needed;
      while i < len - left
        invariant w <= words && i == needed + 8 * w
        invariant Absorb(OnWords(absorb), 8, Snapshot(state, v.length + i, []), msg[i..]) == goal
        decreases words - w
      {
        WordStep(absorb, state, v.length + i, msg, i);
        state := absorb(state, Le(msg[i..i + 8], 256));
        i, w := i + 8, w + 1;
      }
    }

    /** Buffers what remains, less than one word. */
    method NewTail(msg: seq<byte>, i: nat, ghost v: View<S>)
      requires i <= |msg| < i + 8 && length == v.length + |msg|
      requires Absorb(OnWords(absorb), 8, Snapshot(state, v.length + i, []), msg[i..])
        == Absorb(OnWords(absorb), 8, v, msg)
      modifies this
      ensures Shape() && View() == Absorb(OnWords(absorb), 8, v, msg)
    {
      var left := |msg| - i;
      LeTail(msg, i, left);
      TopUp(OnWords(absorb), 8, Snapshot(state, v.length + i, []), msg[i..], left);
      assert [] + msg[i..][..left] == msg[i..] && msg[i..][left..] == [];
      tail := U8to64Le(msg, i, left);
      ntail := left;
      AbsorbNothing(OnWords(absorb), 8, View());
    }
  }

  /** Absorbing the word at place i and the rest is absorbing from i. */
  lemma {:induction false} WordStep<S>(absorb: (S, nat) -> S, state: S, length: nat, msg: seq<byte>, i: nat)
    requires i + 8 <= |msg|
    ensures Absorb(OnWords(absorb), 8, Snapshot(absorb(state, Le(msg[i..i + 8], 256)), length + 8, []), msg[i + 8..])
         == Absorb(OnWords(absorb), 8, Snapshot(state, length, []), msg[i..])
  {
    TopUp(OnWords(absorb), 8, Snapshot(state, length, []), msg[i..], 8);
    assert [] + msg[i..][..8] == msg[i..i + 8] && msg[i..][8..] == msg[i + 8..];
  }

  lemma {:induction false} LeTail(msg: seq<byte>, i: nat, left: nat)
    requires i + left == |msg| && left < 8
    ensures LeBytes(Le(msg[i..i + left], 256), left) == msg[i..] && Le(msg[i..i + left], 256) < Pow(256, left)
  {
    LeBytesOfLe(msg[i..i + left]);
    assert msg[i..i + left] == msg[i..];
  }

  /** The tail with more bytes or-ed in stands for the longer pending string. */
  function TailWith(tail: nat, ntail: nat, msg: seq<byte>, take: nat): (t: u64)
    requires 0 < ntail && ntail + take <= 8 && take <= |msg| && take < 8 && tail < Pow(256, ntail)
    ensures t < Pow(256, ntail + take)
    ensures LeBytes(t, ntail + take) == LeBytes(tail, ntail) + msg[..take]
    ensures Le(LeBytes(tail, ntail) + msg[..take], 256) == t
  {
    TailStep(tail, ntail, msg[..take]);
    assert msg[0..take] == msg[..take];
    Or(tail, Shl(U8to64Le(msg, 0, take), 8 * ntail) % TWO64)
  }

  lemma {:induction false} TailStep(tail: nat, ntail: nat, b: seq<byte>)
    requires ntail + |b| <= 8 && tail < Pow(256, ntail)
    ensures var t, a := Or(tail, Shl(Le(b, 256), 8 * ntail) % TWO64), LeBytes(tail, ntail);
      t < TWO64 && t < Pow(256, ntail + |b|) && LeBytes(t, ntail + |b|) == a + b && Le(a + b, 256) == t
  {
    var a := LeBytes(tail, ntail);
    LeOfLeBytes(tail, ntail);
    LeConcat(a, b, 256);
    LeBytesOfLe(a + b);
    WordBound(a + b);
    OrShifted(tail, Le(b, 256), ntail);
  }

  lemma {:induction false} OrShifted(tail: nat, w: nat, ntail: nat)
    requires tail < Pow(256, ntail) && tail + Pow(256, ntail) * w < TWO64
    ensures Or(tail, (w * Pow(2, 8 * ntail)) % TWO64) == tail + Pow(256, ntail) * w
  {
    BytePower(ntail);
    OrDisjoint(tail, w, 8 * ntail);
    SmallMod(w * Pow(2, 8 * ntail), TWO64);
  }

  // ---- finishing ----

  /** Zero bytes up to seven, then the low byte of the length. */
  function Padding(length: nat): (s: seq<byte>)
    ensures (length + |s|) % 8 == 0
  {
    Repeat<byte>(0, 7 - length % 8) + [length % 256]
  }

  /** The last word: the length in the top byte over the buffered tail. */
  function LastWord(length: nat, tail: u64, ntail: nat): (b: nat)
    requires ntail < 8 && tail < Pow(256, ntail)
    ensures b == Le(LeBytes(tail, ntail) + Repeat<byte>(0, 7 - ntail) + [length % 256], 256)
  {
    LastWordBytes(length % 256, tail, ntail);
    Or((length % 256 * Pow(2, 56)) % TWO64, tail)
  }

  lemma {:induction false} LastWordBytes(top: byte, tail: nat, ntail: nat)
    requires ntail < 8 && tail < Pow(256, ntail)
    ensures Or((top * Pow(2, 56)) % TWO64, tail) == Le(LeBytes(tail, ntail) + Repeat<byte>(0, 7 - ntail) + [top], 256)
  {
    var a, z := LeBytes(tail, ntail), Repeat<byte>(0, 7 - ntail);
    PaddedTail(tail, ntail);
    LeAppend(a + z, top, 256);
    WordBound(a + z + [top]);
    OrTop(top, tail);
  }

  lemma {:induction false} OrTop(top: nat, tail: nat)
    requires tail < Pow(256, 7) && tail + Pow(256, 7) * top < TWO64
    ensures Or((top * Pow(2, 56)) % TWO64, tail) == tail + Pow(256, 7) * top
  {
    OrShifted(tail, top, 7);
    OrComm((top * Pow(2, 56)) % TWO64, tail);
  }

  lemma {:induction false} PaddedTail(tail: nat, ntail: nat)
    requires ntail < 8 && tail < Pow(256, ntail)
    ensures Le(LeBytes(tail, ntail) + Repeat<byte>(0, 7 - ntail), 256) == tail < Pow(256, 7)
  {
    LeOfLeBytes(tail, ntail);
    LeZeros(7 - ntail);
    LeConcat(LeBytes(tail, ntail), Repeat<byte>(0, 7 - ntail), 256);
    PowMono(256, ntail, 7);
  }

  lemma {:induction false} LeZeros(n: nat)
    ensures Le(Repeat<byte>(0, n), 256) == 0
  {
    if n > 0 {
      assert Repeat<byte>(0, n)[1..] == Repeat<byte>(0, n - 1);
      LeZeros(n - 1);
    }
  }

  /** The hash: absorb the last word, then the finalization rounds. */
  method FromEngineToU64<S>(e: HashEngine<S>, finish: S -> u64) returns (hash: u64)
    requires e.Valid()
    ensures hash == finish(Absorb(OnWords(e.absorb), 8, e.View(), Padding(e.length)).h)
  {
    var b := LastWord(e.length, e.tail, e.ntail);
    var state := e.absorb(e.state, b);
    LastBlock(e.absorb, e.View());
    hash := finish(state);
  }

  lemma {:induction false} LastBlock<S>(absorb: (S, nat) -> S, v: View<S>)
    requires |v.pending| == v.length % 8
    ensures Absorb(OnWords(absorb), 8, v, Padding(v.length)).h
         == absorb(v.h, Le(v.pending + Repeat<byte>(0, 7 - |v.pending|) + [v.length % 256], 256))
  {
    var block := v.pending + Padding(v.length);
    assert block == v.pending + Repeat<byte>(0, 7 - |v.pending|) + [v.length % 256];
    assert |block| == 8 && block[..8] == block && block[8..] == [];
    var f := OnWords(absorb);
    assert Fold(f, 8, v.h, block) == Fold(f, 8, f(v.h, block), []) == f(v.h, block);
  }

  /** An engine fed with any pieces of a message gives the words of the padded message, folded. */
  lemma {:induction false} HashOfPieces<S>(absorb: (S, nat) -> S, init: S, chunks: seq<seq<byte>>)
    ensures var v := AbsorbAll(OnWords(absorb), 8, Snapshot(init, 0, []), chunks);
      var msg := Concat(chunks);
      v.length == |msg| && |v.pending| == |msg| % 8 &&
      Absorb(OnWords(absorb), 8, v, Padding(v.length)).h == Fold(OnWords(absorb), 8, init, msg + Padding(|msg|))
  {
    var f, msg, start := OnWords(absorb), Concat(chunks), Snapshot(init, 0, []);
    SplitInvariant(f, 8, start, chunks);
    AbsorbTwice(f, 8, start, msg, Padding(|msg|));
    assert [] + (msg + Padding(|msg|)) == msg + Padding(|msg|) && [] + msg == msg;
  }
}
