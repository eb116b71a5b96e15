/** Positional number representations in an arbitrary base, in both digit orders. */
module Radix {
  import opened Arith

  ghost predicate AllBelow(s: seq<nat>, b: nat)
  {
    forall i :: 0 <= i < |s| ==> s[i] < b
  }

  /** The number written by digits s, least significant first. */
  function Le(s: seq<nat>, b: nat): (n: nat)
  {
    if s == [] then 0 else s[0] + b * Le(s[1..], b)
  }

  /** The number written by digits s, most significant first. */
  function Be(s: seq<nat>, b: nat): (n: nat)
  {
    if s == [] then 0 else Be(s[..|s| - 1], b) * b + s[|s| - 1]
  }

  function Reverse<T>(s: seq<T>): (r: seq<T>)
    ensures |r| == |s|
    ensures forall i :: 0 <= i < |s| ==> r[i] == s[|s| - 1 - i]
  {
    if s == [] then [] else Reverse(s[1..]) + [s[0]]
  }

  function Repeat<T>(x: T, n: nat): (s: seq<T>)
    ensures |s| == n && forall i :: 0 <= i < n ==> s[i] == x
  {
    seq(n, i => x)
  }

  lemma {:induction false} Assoc<T>(a: seq<T>, b: seq<T>, c: seq<T>)
    ensures (a + b) + c == a + (b + c)
  {}

  lemma {:induction false} Nested(d: int, b: int, l: int, p: int, x: int)
    ensures d + b * (l + p * x) == (d + b * l) + (b * p) * x
  {}

  lemma {:induction false} LeAppend(s: seq<nat>, x: nat, b: nat)
    ensures Le(s + [x], b) == Le(s, b) + Pow(b, |s|) * x
  {
    if s == [] {
      assert [] + [x] == [x];
      assert Le([x][1..], b) == 0;
    } else {
      assert (s + [x])[1..] == s[1..] + [x];
      LeAppend(s[1..], x, b);
      Nested(s[0], b, Le(s[1..], b), Pow(b, |s| - 1), x);
    }
  }

  lemma {:induction false} LeConcat(s: seq<nat>, t: seq<nat>, b: nat)
    ensures Le(s + t, b) == Le(s, b) + Pow(b, |s|) * Le(t, b)
  {
    if s == [] {
      assert s + t == t;
    } else {
      assert (s + t)[1..] == s[1..] + t;
      LeConcat(s[1..], t, b);
      Nested(s[0], b, Le(s[1..], b), Pow(b, |s| - 1), Le(t, b));
    }
  }

  lemma {:induction false} DigitFits(b: nat, x: nat, p: nat, d: nat)
    requires x < p && d < b
    ensures b * x + d < b * p
  {
    MulMono(b, x + 1, p);
    assert b * (x + 1) == b * x + b;
  }

  lemma {:induction false} LeBound(s: seq<nat>, b: nat)
    requires AllBelow(s, b) && b > 0
    ensures Le(s, b) < Pow(b, |s|)
  {
    if s != [] {
      var l := Le(s[1..], b);
      LeBound(s[1..], b);
      DigitFits(b, l, Pow(b, |s| - 1), s[0]);
    }
  }

  lemma {:induction false} BeIsLeReversed(s: seq<nat>, b: nat)
    ensures Be(s, b) == Le(Reverse(s), b)
  {
    if s != [] {
      BeIsLeReversed(s[..|s| - 1], b);
      var r := Reverse(s);
      assert r[0] == s[|s| - 1] && r[1..] == Reverse(s[..|s| - 1]);
    }
  }

  lemma {:induction false} BeBound(s: seq<nat>, b: nat)
    requires AllBelow(s, b) && b > 0
    ensures Be(s, b) < Pow(b, |s|)
  {
    if s != [] {
      BeBound(s[..|s| - 1], b);
      DigitFits(b, Be(s[..|s| - 1], b), Pow(b, |s| - 1), s[|s| - 1]);
    }
  }

  lemma {:induction false} BeAppend(s: seq<nat>, t: seq<nat>, b: nat)
    ensures Be(s + t, b) == Be(s, b) * Pow(b, |t|) + Be(t, b)
    decreases |t|
  {
    if t == [] {
      assert s + t == s;
    } else {
      var t' := t[..|t| - 1];
      assert (s + t)[..|s + t| - 1] == s + t';
      BeAppend(s, t', b);
      Horner(Be(s, b), Pow(b, |t'|), Be(t', b), b, t[|t| - 1]);
    }
  }

  lemma {:induction false} Horner(s: int, p: int, t: int, b: int, d: int)
    ensures (s * p + t) * b + d == s * (b * p) + (t * b + d)
  {}

  lemma {:induction false} BeZeros(n: nat, b: nat)
    ensures Be(Repeat<nat>(0, n), b) == 0
  {
    if n > 0 {
      var z := Repeat<nat>(0, n);
      assert z[..|z| - 1] == Repeat<nat>(0, n - 1) && z[|z| - 1] == 0;
      BeZeros(n - 1, b);
    }
  }

  /** The digits of n without leading zeros, most significant first. Zero has none. */
  function ToBe(n: nat, b: nat): (s: seq<nat>)
    requires b >= 2
    ensures AllBelow(s, b)
    ensures Be(s, b) == n
    ensures n > 0 ==> |s| > 0 && s[0] > 0
    ensures n == 0 ==> s == []
  {
    if n == 0 then []
    else
      DivMod(n, b);
      DivShrinks(n, b);
      var t := ToBe(n / b, b);
      var s := t + [n % b];
      assert s[..|s| - 1] == t;
      s
  }

  /** A digit string without leading zeros is the canonical one of its value. */
  lemma {:induction false} ToBeOfBe(s: seq<nat>, b: nat)
    requires b >= 2 && AllBelow(s, b)
    requires s != [] ==> s[0] > 0
    ensures ToBe(Be(s, b), b) == s
  {
    if s != [] {
      var s', d := s[..|s| - 1], s[|s| - 1];
      ToBeOfBe(s', b);
      ToBePush(s', d, b, s);
    }
  }

  lemma {:induction false} ToBePush(s: seq<nat>, d: nat, b: nat, t: seq<nat>)
    requires b >= 2 && d < b && (s == [] ==> d > 0) && ToBe(Be(s, b), b) == s
    requires t != [] && t[..|t| - 1] == s && t[|t| - 1] == d
    ensures ToBe(Be(t, b), b) == t
  {
    ToBeStep(Be(s, b), d, b);
    assert Be(t, b) == Be(s, b) * b + d;
    Unsplit(t);
  }

  lemma {:induction false} Unsplit<T>(t: seq<T>)
    requires t != []
    ensures t[..|t| - 1] + [t[|t| - 1]] == t
  {}

  lemma {:induction false} ToBeStep(q: nat, d: nat, b: nat)
    requires b >= 2 && d < b && (q > 0 || d > 0)
    ensures ToBe(q * b + d, b) == ToBe(q, b) + [d]
  {
    MulMono(q, 1, b);
    DivModUnique(q * b + d, b, q, d);
  }

  lemma {:induction false} ToBeLength(n: nat, b: nat, k: nat)
    requires b >= 2 && n < Pow(b, k)
    ensures |ToBe(n, b)| <= k
    decreases k
  {
    if n > 0 {
      DivLt(n, b, Pow(b, k - 1));
      ToBeLength(n / b, b, k - 1);
    }
  }

  /** Fixed-length digit strings of equal value are equal. */
  lemma {:induction false} BeInjective(s: seq<nat>, t: seq<nat>, b: nat)
    requires b > 0 && AllBelow(s, b) && AllBelow(t, b) && |s| == |t| && Be(s, b) == Be(t, b)
    ensures s == t
  {
    if s != [] {
      var s', t' := s[..|s| - 1], t[..|t| - 1];
      DivModUnique(Be(s, b), b, Be(s', b), s[|s| - 1]);
      DivModUnique(Be(t, b), b, Be(t', b), t[|t| - 1]);
      BeInjective(s', t', b);
      assert s == s' + [s[|s| - 1]] && t == t' + [t[|t| - 1]];
    }
  }

  // ---- bytes ----

  /** The k low bytes of n, least significant first. */
  function LeBytes(n: nat, k: nat): (s: seq<byte>)
    ensures |s| == k
  {
    if k == 0 then [] else [n % 256] + LeBytes(n / 256, k - 1)
  }

  lemma {:induction false} LeOfLeBytes(n: nat, k: nat)
    requires n < Pow(256, k)
    ensures Le(LeBytes(n, k), 256) == n
    decreases k
  {
    if k > 0 {
      DivLt(n, 256, Pow(256, k - 1));
      LeOfLeBytes(n / 256, k - 1);
      assert LeBytes(n, k)[1..] == LeBytes(n / 256, k - 1);
    }
  }

  lemma {:induction false} LeBytesOfLe(s: seq<byte>)
    ensures LeBytes(Le(s, 256), |s|) == s && Le(s, 256) < Pow(256, |s|)
  {
    LeBound(s, 256);
    if s != [] {
      LeBytesOfLe(s[1..]);
      DivModUnique(Le(s, 256), 256, Le(s[1..], 256), s[0]);
    }
  }

  /** The k low bytes of n, most significant first. */
  function BeBytes(n: nat, k: nat): (s: seq<byte>)
    ensures |s| == k
  {
    if k == 0 then [] else BeBytes(n / 256, k - 1) + [n % 256]
  }

  lemma {:induction false} BeOfBeBytes(n: nat, k: nat)
    requires n < Pow(256, k)
    ensures Be(BeBytes(n, k), 256) == n
    decreases k
  {
    if k > 0 {
      DivLt(n, 256, Pow(256, k - 1));
      BeOfBeBytes(n / 256, k - 1);
      assert BeBytes(n, k)[..k - 1] == BeBytes(n / 256, k - 1);
    }
  }

  lemma {:induction false} BeBytesOfBe(s: Bytes)
    ensures BeBytes(Be(s, 256), |s|) == s
  {
    if s != [] {
      var s' := s[..|s| - 1];
      DivModUnique(Be(s, 256), 256, Be(s', 256), s[|s| - 1]);
      BeBytesOfBe(s');
      assert s == s' + [s[|s| - 1]];
    }
  }
}
