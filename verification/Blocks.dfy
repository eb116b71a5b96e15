/** Feeding a byte stream to a function on fixed-size blocks, as the hash engines do. */
module Blocks {
  import opened Arith

  /** The state after the whole n-byte blocks of s; a shorter rest is not looked at. */
  function Fold<S>(f: (S, seq<byte>) -> S, n: nat, h: S, s: seq<byte>): (r: S)
    requires n > 0
    decreases |s|
  {
    if |s| < n then h else Fold(f, n, f(h, s[..n]), s[n..])
  }

  /** What is left after the whole blocks. */
  function Tail(n: nat, s: seq<byte>): (t: seq<byte>)
    requires n > 0
    ensures |t| == |s| % n
    decreases |s|
  {
    if |s| < n then
      SmallMod(|s|, n);
      s
    else
      DivAddMul(|s| - n, 1, n);
      Tail(n, s[n..])
  }

  lemma {:induction false} FoldAppend<S>(f: (S, seq<byte>) -> S, n: nat, h: S, a: seq<byte>, b: seq<byte>)
    requires n > 0
    ensures Fold(f, n, h, a + b) == Fold(f, n, Fold(f, n, h, a), Tail(n, a) + b)
    ensures Tail(n, a + b) == Tail(n, Tail(n, a) + b)
    decreases |a|
  {
    if |a| >= n {
      assert (a + b)[..n] == a[..n] && (a + b)[n..] == a[n..] + b;
      FoldAppend(f, n, f(h, a[..n]), a[n..], b);
    }
  }

  // ---- an engine seen from outside ----

  /** The chaining state, the number of bytes consumed and those waiting for a full block. */
  datatype View<S> = Snapshot(h: S, length: nat, pending: seq<byte>)

  function Absorb<S>(f: (S, seq<byte>) -> S, n: nat, v: View<S>, data: seq<byte>): (r: View<S>)
    requires n > 0
  {
    Snapshot(Fold(f, n, v.h, v.pending + data), v.length + |data|, Tail(n, v.pending + data))
  }

  /** Fewer bytes wait than make a block. */
  ghost predicate Good<S>(n: nat, v: View<S>)
    requires n > 0
  {
    |v.pending| < n
  }

  lemma {:induction false} AbsorbNothing<S>(f: (S, seq<byte>) -> S, n: nat, v: View<S>)
    requires n > 0 && Good(n, v)
    ensures Absorb(f, n, v, []) == v
  {}

  /** Two inputs are one input of their concatenation. */
  lemma {:induction false} AbsorbTwice<S>(f: (S, seq<byte>) -> S, n: nat, v: View<S>, a: seq<byte>, b: seq<byte>)
    requires n > 0
    ensures Absorb(f, n, Absorb(f, n, v, a), b) == Absorb(f, n, v, a + b)
  {
    FoldAppend(f, n, v.h, v.pending + a, b);
    assert v.pending + (a + b) == (v.pending + a) + b;
  }

  function Concat(chunks: seq<seq<byte>>): (s: seq<byte>)
  {
    if chunks == [] then [] else chunks[0] + Concat(chunks[1..])
  }

  function AbsorbAll<S>(f: (S, seq<byte>) -> S, n: nat, v: View<S>, chunks: seq<seq<byte>>): (r: View<S>)
    requires n > 0
    decreases |chunks|
  {
    if chunks == [] then v else AbsorbAll(f, n, Absorb(f, n, v, chunks[0]), chunks[1..])
  }

  /** However a message is cut into inputs, the engine ends in the same state. */
  lemma {:induction false} SplitInvariant<S>(f: (S, seq<byte>) -> S, n: nat, v: View<S>, chunks: seq<seq<byte>>)
    requires n > 0 && Good(n, v)
    ensures AbsorbAll(f, n, v, chunks) == Absorb(f, n, v, Concat(chunks))
    decreases |chunks|
  {
    if chunks == [] {
      AbsorbNothing(f, n, v);
    } else {
      SplitInvariant(f, n, Absorb(f, n, v, chunks[0]), chunks[1..]);
      AbsorbTwice(f, n, v, chunks[0], Concat(chunks[1..]));
    }
  }

  /** Topping up the pending bytes, up to one full block, commutes with the rest of the input. */
  lemma {:induction false} TopUp<S>(f: (S, seq<byte>) -> S, n: nat, v: View<S>, inp: seq<byte>, k: nat)
    requires n > 0 && Good(n, v) && k <= |inp| && |v.pending| + k <= n
    ensures |v.pending| + k < n ==>
      Absorb(f, n, Snapshot(v.h, v.length + k, v.pending + inp[..k]), inp[k..]) == Absorb(f, n, v, inp)
    ensures |v.pending| + k == n ==>
      Absorb(f, n, Snapshot(f(v.h, v.pending + inp[..k]), v.length + k, []), inp[k..]) == Absorb(f, n, v, inp)
  {
    var all := v.pending + inp;
    assert all == (v.pending + inp[..k]) + inp[k..];
    if |v.pending| + k == n {
      assert all[..n] == v.pending + inp[..k] && all[n..] == inp[k..] && [] + inp[k..] == inp[k..];
    }
  }
}
