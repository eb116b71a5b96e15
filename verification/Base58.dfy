/** Base58 encoding and decoding (base58/src/lib.rs). */
module Base58 {
  import opened Wrappers
  import opened Arith
  import opened Radix

  // ---- the alphabet ----

  /** "123456789ABCDEFGHJKLMNPQRSTUVWXYZabcdefghijkmnopqrstuvwxyz" by position. */
  function CharOf(d: nat): (c: byte)
    requires d < 58
  {
    if d < 9 then 49 + d
    else if d < 17 then 65 + (d - 9)
    else if d < 22 then 74 + (d - 17)
    else if d < 33 then 80 + (d - 22)
    else if d < 44 then 97 + (d - 33)
    else 109 + (d - 44)
  }

  /** The digit of a character, or -1 outside the alphabet. */
  function DigitOf(c: byte): (d: int)
    ensures -1 <= d < 58
    ensures d >= 0 ==> CharOf(d) == c
  {
    if 49 <= c <= 57 then c - 49
    else if 65 <= c <= 72 then c - 65 + 9
    else if 74 <= c <= 78 then c - 74 + 17
    else if 80 <= c <= 90 then c - 80 + 22
    else if 97 <= c <= 107 then c - 97 + 33
    else if 109 <= c <= 122 then c - 109 + 44
    else -1
  }

  /** The alphabet is the digits and letters in ASCII order, without the confusable 0, O, I and l. */
  lemma {:induction false} AlphabetIff(c: byte)
    ensures DigitOf(c) >= 0 <==>
      && ('0' as int <= c <= '9' as int || 'A' as int <= c <= 'Z' as int || 'a' as int <= c <= 'z' as int)
      && c != '0' as int && c != 'O' as int && c != 'I' as int && c != 'l' as int
    ensures forall d: nat :: d < 58 ==> DigitOf(CharOf(d)) == d
  {}

  lemma {:induction false} AlphabetOrdered(d1: nat, d2: nat)
    requires d1 < d2 < 58
    ensures CharOf(d1) < CharOf(d2)
  {}

  predicate InAlphabet(s: seq<byte>)
  {
    forall i :: 0 <= i < |s| ==> DigitOf(s[i]) >= 0
  }

  function DigitsOf(s: seq<byte>): (ds: seq<nat>)
    requires InAlphabet(s)
    ensures |ds| == |s| && AllBelow(ds, 58)
    ensures forall i :: 0 <= i < |s| ==> ds[i] == DigitOf(s[i])
  {
    seq(|s|, i requires 0 <= i < |s| => DigitOf(s[i]))
  }

  function CharsOf(ds: seq<nat>): (s: seq<byte>)
    requires AllBelow(ds, 58)
    ensures |s| == |ds| && InAlphabet(s)
    ensures forall i :: 0 <= i < |s| ==> s[i] == CharOf(ds[i]) && DigitOf(s[i]) == ds[i]
  {
    seq(|ds|, i requires 0 <= i < |ds| => CharOf(ds[i]))
  }

  lemma {:induction false} CharsOfDigits(s: seq<byte>)
    requires InAlphabet(s)
    ensures CharsOf(DigitsOf(s)) == s
  {}

  lemma {:induction false} DigitsOfChars(ds: seq<nat>)
    requires AllBelow(ds, 58)
    ensures DigitsOf(CharsOf(ds)) == ds
  {}

  // ---- changing the base, leading zeros kept ----

  function LeadingZeros(s: seq<nat>): (z: nat)
    ensures z <= |s|
    ensures forall i :: 0 <= i < z ==> s[i] == 0
    ensures z < |s| ==> s[z] > 0
  {
    if s == [] || s[0] > 0 then 0 else 1 + LeadingZeros(s[1..])
  }

  /** Each leading zero digit stays one digit; the rest is the same number in the other base. */
  function Convert(s: seq<nat>, from: nat, to: nat): (t: seq<nat>)
    requires to >= 2
    ensures AllBelow(t, to)
  {
    Repeat<nat>(0, LeadingZeros(s)) + ToBe(Be(s, from), to)
  }

  lemma {:induction false} StripZeros(s: seq<nat>, b: nat)
    requires b >= 2 && AllBelow(s, b)
    ensures ToBe(Be(s, b), b) == s[LeadingZeros(s)..]
  {
    var z := LeadingZeros(s);
    assert s == Repeat<nat>(0, z) + s[z..];
    BeAppend(Repeat<nat>(0, z), s[z..], b);
    BeZeros(z, b);
    ToBeOfBe(s[z..], b);
  }

  lemma {:induction false} LeadingZerosUnique(s: seq<nat>, z: nat)
    requires z <= |s| && (forall i :: 0 <= i < z ==> s[i] == 0) && (z < |s| ==> s[z] > 0)
    ensures LeadingZeros(s) == z
  {}

  lemma {:induction false} ZerosThen(z: nat, t: seq<nat>, b: nat)
    requires t != [] ==> t[0] > 0
    ensures LeadingZeros(Repeat<nat>(0, z) + t) == z && Be(Repeat<nat>(0, z) + t, b) == Be(t, b)
  {
    LeadingZerosUnique(Repeat<nat>(0, z) + t, z);
    BeAppend(Repeat<nat>(0, z), t, b);
    BeZeros(z, b);
  }

  /** Converting there and back is the identity on every digit string, zeros included. */
  lemma {:induction false} ConvertBack(s: seq<nat>, b: nat, c: nat)
    requires b >= 2 && c >= 2 && AllBelow(s, b)
    ensures Convert(Convert(s, b, c), c, b) == s
  {
    ZerosThen(LeadingZeros(s), ToBe(Be(s, b), c), c);
    StripZeros(s, b);
    ZerosAndRest(s);
  }

  lemma {:induction false} ZerosAndRest(s: seq<nat>)
    ensures Repeat<nat>(0, LeadingZeros(s)) + s[LeadingZeros(s)..] == s
  {}

  // ---- the two codes ----

  function Encoded(data: seq<byte>): (s: seq<byte>)
    ensures InAlphabet(s)
  {
    CharsOf(Convert(data, 256, 58))
  }

  /** The first character outside the alphabet, if there is one. */
  function FirstInvalid(s: seq<byte>): (i: nat)
    ensures i <= |s| && InAlphabet(s[..i])
    ensures i < |s| ==> DigitOf(s[i]) < 0
  {
    if s == [] || DigitOf(s[0]) < 0 then 0
    else
      var i := 1 + FirstInvalid(s[1..]);
      assert forall j :: 0 < j < i ==> s[j] == s[1..][..i - 1][j - 1];
      i
  }

  function Decoded(s: seq<byte>): (r: Result<seq<byte>, byte>)
  {
    var i := FirstInvalid(s);
    if i < |s| then Err(s[i])
    else
      assert s[..i] == s;
      Ok(Convert(DigitsOf(s), 58, 256))
  }

  lemma {:induction false} ValidDecodes(s: seq<byte>)
    requires InAlphabet(s)
    ensures Decoded(s) == Ok(Convert(DigitsOf(s), 58, 256))
  {}

  /** Decoding undoes encoding for every byte string. */
  lemma {:induction false} DecodeEncode(data: seq<byte>)
    ensures Decoded(Encoded(data)) == Ok(data)
  {
    ValidDecodes(Encoded(data));
    DigitsOfChars(Convert(data, 256, 58));
    ConvertBack(data, 256, 58);
  }

  /** Encoding undoes decoding for every string over the alphabet. */
  lemma {:induction false} EncodeDecode(s: seq<byte>)
    requires InAlphabet(s)
    ensures Decoded(s).Ok? && Encoded(Decoded(s).value) == s
  {
    ValidDecodes(s);
    ConvertBack(DigitsOf(s), 58, 256);
    CharsOfDigits(s);
  }

  // ---- the scratch buffer is long enough ----

  lemma {:induction false} Fifteen(k: nat, e: nat)
    requires k == 15 && e == 11
    ensures Pow(58, k) < Pow(256, e)
  {
    assert Pow(58, 5) == 656_356_768;
    PowAdd(58, 5, 5);
    PowAdd(58, 10, 5);
    assert Pow(256, 5) == 0x100_0000_0000;
    PowAdd(256, 5, 5);
    PowAdd(256, 10, 1);
  }

  lemma {:induction false} FitsSmall(n: nat)
    requires n < 15
    ensures Pow(58, n) < Pow(256, 1 + n * 11 / 15)
  {
    if n <= 4 {
      FitsTiny(n);
    } else {
      FitsSmall(n - 4);
      FitsTiny(4);
      PowAdd(58, 4, n - 4);
      assert 1 + n * 11 / 15 == 3 + (1 + (n - 4) * 11 / 15);
      PowAdd(256, 3, 1 + (n - 4) * 11 / 15);
      MulStrict(Pow(58, 4), Pow(256, 3), Pow(58, n - 4), Pow(256, 1 + (n - 4) * 11 / 15));
    }
  }

  lemma {:induction false} FitsTiny(n: nat)
    requires n <= 4
    ensures Pow(58, n) < Pow(256, 1 + n * 11 / 15)
  {
    match n
    case 0 =>
    case 1 =>
    case 2 =>
    case 3 =>
    case 4 =>
  }

  /** For every length the scratch size covers the largest number of that many characters. */
  lemma {:induction false} ScratchFits(n: nat)
    ensures Pow(58, n) < Pow(256, 1 + n * 11 / 15)
  {
    if n < 15 {
      FitsSmall(n);
    } else {
      ScratchFits(n - 15);
      AddFifteen(n - 15, 15, 11);
      assert 1 + n * 11 / 15 == 11 + (1 + (n - 15) * 11 / 15);
    }
  }

  lemma {:induction false} AddFifteen(n: nat, k: nat, e: nat)
    requires k == 15 && e == 11 && Pow(58, n) < Pow(256, 1 + n * 11 / 15)
    ensures Pow(58, n + k) < Pow(256, e + (1 + n * 11 / 15))
  {
    Fifteen(k, e);
    PowAdd(58, k, n);
    PowAdd(256, e, 1 + n * 11 / 15);
    MulStrict(Pow(58, k), Pow(256, e), Pow(58, n), Pow(256, 1 + n * 11 / 15));
  }

  lemma {:induction false} MulStrict(a: nat, b: nat, x: nat, y: nat)
    requires a < b && x < y
    ensures a * x < b * y
  {}

  // ---- decoding ----

  /** X = X * 58 + digit on base-256 digits, most significant first; what does not fit is the carry. */
  method MulAdd(scratch: array<byte>, digit: nat) returns (carry: nat)
    requires digit < 58
    modifies scratch
    ensures Be(scratch[..], 256) + Pow(256, scratch.Length) * carry == Be(old(scratch[..]), 256) * 58 + digit
  {
    carry := digit;
    var j := scratch.Length;
    ghost var src: seq<nat> := scratch[..];
    MulAddStart(src, digit);
    while j > 0
      invariant 0 <= j <= scratch.Length && carry < 58 && MulAdding(scratch[..], src, j, carry, digit)
    {
      j := j - 1;
      ghost var before: seq<nat> := scratch[..];
      MulAddUpdate(before, src, j, carry, digit);
      carry := carry + 58 * (scratch[j] as int);
      scratch[j] := carry % 256;
      assert scratch[..] == before[j := carry % 256];
      carry := carry / 256;
    }
    MulAddEnd(scratch[..], src, carry, digit);
  }

  /** The bytes from j on are multiplied, those below are still the old ones. */
  ghost predicate MulAdding(cur: seq<nat>, src: seq<nat>, j: nat, carry: nat, digit: nat)
  {
    && j <= |cur| == |src| && cur[..j] == src[..j]
    && Be(cur[j..], 256) + Times(Pow(256, |src| - j), carry) == Be(src[j..], 256) * 58 + digit
  }

  lemma {:induction false} MulAddStart(src: seq<nat>, digit: nat)
    ensures MulAdding(src, src, |src|, digit, digit)
  {
    assert src[|src|..] == [];
    assert Pow(256, 0) == 1;
  }

  lemma {:induction false} MulAddUpdate(cur: seq<nat>, src: seq<nat>, j: nat, carry: nat, digit: nat)
    requires MulAdding(cur, src, j + 1, carry, digit)
    ensures j < |cur| && cur[j] == src[j]
    ensures var n := carry + 58 * cur[j];
      MulAdding(cur[j := n % 256], src, j, n / 256, digit)
  {
    assert cur[..j + 1][j] == src[..j + 1][j];
    var n, tail := carry + 58 * cur[j], cur[j + 1..];
    MulAddStep(cur[j], tail, src[j + 1..], carry, digit);
    var cur' := cur[j := n % 256];
    assert cur'[j..] == [n % 256] + tail && src[j..] == [src[j]] + src[j + 1..];
    assert cur'[..j] == cur[..j + 1][..j] && src[..j] == src[..j + 1][..j];
  }

  lemma {:induction false} MulAddEnd(cur: seq<nat>, src: seq<nat>, carry: nat, digit: nat)
    requires MulAdding(cur, src, 0, carry, digit)
    ensures Be(cur, 256) + Pow(256, |cur|) * carry == Be(src, 256) * 58 + digit
  {
    assert cur[0..] == cur && src[0..] == src;
  }

  lemma {:induction false} BePrepend(x: nat, t: seq<nat>, b: nat)
    ensures Be([x] + t, b) == x * Pow(b, |t|) + Be(t, b)
  {
    BeAppend([x], t, b);
    assert Be([x], b) == x by { assert [x][..0] == []; }
  }

  lemma {:induction false} MulAddStep(x: nat, tail: seq<nat>, src: seq<nat>, carry: nat, digit: nat)
    requires |tail| == |src| && Be(tail, 256) + Pow(256, |tail|) * carry == Be(src, 256) * 58 + digit
    ensures var n := carry + 58 * x;
      Be([n % 256] + tail, 256) + Pow(256, |tail| + 1) * (n / 256) == Be([x] + src, 256) * 58 + digit
  {
    var n := carry + 58 * x;
    BePrepend(n % 256, tail, 256);
    BePrepend(x, src, 256);
    CarryUp(Pow(256, |tail|), 256, n / 256, n % 256, carry, x);
  }

  lemma {:induction false} CarryUp(p: nat, b: nat, q: nat, r: nat, carry: nat, x: nat)
    requires carry + 58 * x == q * b + r
    ensures r * p + (b * p) * q == p * carry + (x * p) * 58
  {}

  /** The number so far fits, so multiplying leaves no carry. */
  lemma {:induction false} NoCarry(data: seq<byte>, i: nat, scratch: seq<nat>, carry: nat)
    requires i < |data| && InAlphabet(data[..i + 1]) && AllBelow(scratch, 256)
    requires |scratch| == 1 + |data| * 11 / 15
    requires InAlphabet(data[..i])
    requires Be(scratch, 256) + Pow(256, |scratch|) * carry == Be(DigitsOf(data[..i]), 58) * 58 + DigitOf(data[i])
    ensures carry == 0 && Be(scratch, 256) == Be(DigitsOf(data[..i + 1]), 58)
  {
    var ds := DigitsOf(data[..i + 1]);
    assert ds[..i] == DigitsOf(data[..i]);
    FitsScratch(ds, |data|);
    NoRoom(Be(scratch, 256), Pow(256, |scratch|), carry);
  }

  lemma {:induction false} FitsScratch(ds: seq<nat>, n: nat)
    requires AllBelow(ds, 58) && |ds| <= n
    ensures Be(ds, 58) < Pow(256, 1 + n * 11 / 15)
  {
    BeBound(ds, 58);
    PowMono(58, |ds|, n);
    ScratchFits(n);
  }

  lemma {:induction false} NoRoom(low: nat, room: nat, carry: nat)
    requires low + room * carry < room
    ensures carry == 0
  {
    if carry > 0 {
      MulMono(room, 1, carry);
      assert false;
    }
  }

  lemma {:induction false} FirstInvalidAt(s: seq<byte>, i: nat)
    requires i < |s| && InAlphabet(s[..i]) && DigitOf(s[i]) < 0
    ensures FirstInvalid(s) == i
  {}

  method Decode(data: seq<byte>) returns (r: Result<seq<byte>, byte>)
    ensures r == Decoded(data)
  {
    // ScratchFits: no text of this length can outgrow the buffer
    var scratch := new byte[1 + |data| * 11 / 15](_ => 0);
    assert scratch[..] == Repeat<nat>(0, scratch.Length);
    BeZeros(scratch.Length, 256);
    var bad := Accumulate(data, scratch);
    if bad < |data| {
      return Err(data[bad]);
    }
    StripZeros(scratch[..], 256);
    var ret := Repeat<byte>(0, LeadingZeros(DigitsOf(data)));
    assert ret == Repeat<nat>(0, LeadingZeros(DigitsOf(data)));
    r := Ok(ret + scratch[LeadingZeros(scratch[..])..]);
  }

  /** Builds the number in base 256, stopping at a character outside the alphabet. */
  method Accumulate(data: seq<byte>, scratch: array<byte>) returns (bad: nat)
    requires scratch.Length == 1 + |data| * 11 / 15 && Be(scratch[..], 256) == 0
    modifies scratch
    ensures bad == FirstInvalid(data)
    ensures bad == |data| ==> InAlphabet(data) && Be(scratch[..], 256) == Be(DigitsOf(data), 58)
  {
    for i := 0 to |data|
      invariant InAlphabet(data[..i])
      invariant Be(scratch[..], 256) == Be(DigitsOf(data[..i]), 58)
    {
      var d := DigitOf(data[i]);
      if d < 0 {
        FirstInvalidAt(data, i);
        return i;
      }
      var carry := MulAdd(scratch, d);
      assert data[..i + 1] == data[..i] + [data[i]];
      NoCarry(data, i, scratch[..], carry);
      assert carry == 0;
    }
    assert data[..|data|] == data;
    bad := |data|;
  }

  // ---- the vector that spills to the heap ----

  /** The first hundred elements are on the stack. */
  class SmallVec {
    var len: nat
    const stack: array<byte>
    var heap: seq<byte>

    ghost predicate Valid()
      reads this
    {
      stack.Length == 100 && len <= 100 && (len < 100 ==> heap == [])
    }

    ghost function Contents(): (s: seq<byte>)
      requires Valid()
      reads this, stack
    {
      stack[..len] + heap
    }

    constructor ()
      ensures Valid() && Contents() == [] && fresh(stack)
    {
      len, heap := 0, [];
      stack := new byte[100](_ => 0);
    }

    method Push(val: byte)
      requires Valid()
      modifies this, stack
      ensures Valid() && Contents() == old(Contents()) + [val]
    {
      if len < 100 {
        stack[len] := val;
        len := len + 1;
      } else {
        heap := heap + [val];
      }
    }

    function Size(): (n: nat)
      requires Valid()
      reads this, stack
      ensures n == |Contents()|
    {
      len + |heap|
    }

    function Get(i: nat): (x: byte)
      requires Valid() && i < Size()
      reads this, stack
      ensures x == Contents()[i]
    {
      if i < len then stack[i] else heap[i - len]
    }

    method Set(i: nat, val: byte)
      requires Valid() && i < Size()
      modifies this, stack
      ensures Valid() && Contents() == old(Contents())[i := val]
    {
      if i < len {
        stack[i] := val;
      } else {
        heap := heap[i - len := val];
      }
    }
  }

  // ---- encoding ----

  /** Digits in base 58, least significant first, without a zero on top. */
  ghost predicate Canonical(s: seq<nat>)
  {
    AllBelow(s, 58) && (s != [] ==> s[|s| - 1] > 0)
  }

  /** Multiplies the digits by 256 and adds one byte; what does not fit is the carry. */
  method ScaleUp(ret: SmallVec, d256: byte) returns (carry: nat)
    requires ret.Valid() && AllBelow(ret.Contents(), 58)
    modifies ret, ret.stack
    ensures ret.Valid() && AllBelow(ret.Contents(), 58)
    ensures |ret.Contents()| == |old(ret.Contents())|
    ensures Carried(ret.Contents(), carry) == 256 * Le(old(ret.Contents()), 58) + d256
  {
    carry := d256;
    ghost var src: seq<nat> := ret.Contents();
    var n := ret.Size();
    var i := 0;
    ScaleStart(src, d256);
    while i < n
      invariant ret.Valid() && |src| == n && Scaling(ret.Contents(), src, i, carry, d256)
    {
      ScaleUpdate(ret.Contents(), src, i, carry, d256);
      var newCh := 256 * (ret.Get(i) as int) + carry;
      ret.Set(i, newCh % 58);
      carry, i := newCh / 58, i + 1;
    }
    ScaleEnd(ret.Contents(), src, carry, d256);
  }

  /** The digits below i are scaled, those from i on are still the old ones. */
  ghost predicate Scaling(cur: seq<nat>, src: seq<nat>, i: nat, carry: nat, add: nat)
  {
    && i <= |cur| == |src| && AllBelow(cur, 58) && cur[i..] == src[i..]
    && Carried(cur[..i], carry) == 256 * Le(src[..i], 58) + add
  }

  lemma {:induction false} ScaleStart(src: seq<nat>, add: nat)
    requires AllBelow(src, 58)
    ensures Scaling(src, src, 0, add, add)
  {
    CarriedNothing(add);
  }

  lemma {:induction false} ScaleEnd(cur: seq<nat>, src: seq<nat>, carry: nat, add: nat)
    requires Scaling(cur, src, |src|, carry, add)
    ensures AllBelow(cur, 58) && |cur| == |src| && Carried(cur, carry) == 256 * Le(src, 58) + add
  {
    assert cur[..|src|] == cur && src[..|src|] == src;
  }

  /** The number written by little-endian digits with a carry above them. */
  ghost function Carried(s: seq<nat>, carry: nat): (n: nat)
  {
    Le(s, 58) + Times(Pow(58, |s|), carry)
  }

  lemma {:induction false} CarriedNothing(d: nat)
    ensures Carried([], d) == d
  {}

  /** One digit of the scaling loop. */
  lemma {:induction false} ScaleUpdate(before: seq<nat>, src: seq<nat>, i: nat, carry: nat, add: nat)
    requires i < |before| && Scaling(before, src, i, carry, add)
    ensures var n := 256 * before[i] + carry;
      Scaling(before[i := n % 58], src, i + 1, n / 58, add)
  {
    assert before[i] == before[i..][0] == src[i];
    Updated(before, src, i, (256 * before[i] + carry) % 58);
    ScaleStep(before[..i], src[..i], src[i], carry, add);
  }

  lemma {:induction false} Updated(before: seq<nat>, src: seq<nat>, i: nat, x: nat)
    requires i < |before| == |src| && before[i..] == src[i..]
    ensures before[i := x][..i + 1] == before[..i] + [x]
    ensures before[i := x][i + 1..] == src[i + 1..]
    ensures src[..i + 1] == src[..i] + [src[i]]
  {}

  lemma {:induction false} ScaleStep(done: seq<nat>, src: seq<nat>, x: nat, carry: nat, add: nat)
    requires |done| == |src| && Carried(done, carry) == 256 * Le(src, 58) + add
    ensures var n := 256 * x + carry;
      Carried(done + [n % 58], n / 58) == 256 * Le(src + [x], 58) + add
  {
    var n := 256 * x + carry;
    LeAppend(done, n % 58, 58);
    LeAppend(src, x, 58);
    ScaleArith(Pow(58, |src|), n / 58, n % 58, carry, x);
  }

  lemma {:induction false} ScaleArith(p: nat, q: nat, r: nat, carry: nat, x: nat)
    requires 256 * x + carry == 58 * q + r
    ensures p * r + (58 * p) * q == p * carry + 256 * (p * x)
  {
    calc {
      p * r + (58 * p) * q;
      p * (58 * q + r);
      p * (256 * x + carry);
    }
  }

  /** Pushes the carry as further digits. */
  method PushCarry(ret: SmallVec, first: nat)
    requires ret.Valid() && AllBelow(ret.Contents(), 58)
    requires first == 0 ==> Canonical(ret.Contents())
    modifies ret, ret.stack
    ensures ret.Valid() && Canonical(ret.Contents())
    ensures Le(ret.Contents(), 58) == Carried(old(ret.Contents()), first)
  {
    var carry := first;
    ghost var total := Carried(ret.Contents(), carry);
    while carry > 0
      invariant ret.Valid() && AllBelow(ret.Contents(), 58)
      invariant carry == 0 ==> Canonical(ret.Contents())
      invariant Carried(ret.Contents(), carry) == total
    {
      PushStep(ret.Contents(), carry);
      ret.Push(carry % 58);
      carry := carry / 58;
    }
  }

  lemma {:induction false} PushStep(s: seq<nat>, carry: nat)
    requires carry > 0
    ensures Carried(s + [carry % 58], carry / 58) == Carried(s, carry)
    ensures carry / 58 == 0 ==> carry % 58 > 0
  {
    LeAppend(s, carry % 58, 58);
    ScaleArith(Pow(58, |s|), carry / 58, carry % 58, carry, 0);
  }

  /** A number without a zero on top outgrows its digits when multiplied by 256. */
  lemma {:induction false} CarryGrows(old_: seq<nat>, s: seq<nat>, carry: nat, d: nat)
    requires Canonical(old_) && AllBelow(s, 58) && |s| == |old_|
    requires Carried(s, carry) == 256 * Le(old_, 58) + d
    ensures carry == 0 ==> Canonical(s)
  {
    if s != [] {
      var n := |s| - 1;
      assert old_ == old_[..n] + [old_[n]];
      LeAppend(old_[..n], old_[n], 58);
      MulMono(Pow(58, n), 1, old_[n]);
      LeBound(s, 58);
    }
  }

  method Encode(data: seq<byte>) returns (s: seq<byte>)
    ensures s == Encoded(data)
  {
    var ret := new SmallVec();
    var zeros := BuildDigits(data, ret);
    EncodedFrom(data, ret.Contents(), zeros);
    PushZeros(ret, zeros);
    s := WriteReversed(ret);
  }

  lemma {:induction false} EncodedFrom(data: seq<byte>, digits: seq<nat>, zeros: nat)
    requires Canonical(digits) && Le(digits, 58) == Be(data, 256) && zeros == LeadingZeros(data)
    ensures var all := digits + Repeat<nat>(0, zeros);
      AllBelow(all, 58) && AllBelow(Reverse(all), 58) && CharsOf(Reverse(all)) == Encoded(data)
  {
    FinalDigits(data, digits, zeros);
  }

  method PushZeros(ret: SmallVec, zeros: nat)
    requires ret.Valid()
    modifies ret, ret.stack
    ensures ret.Valid()
    ensures ret.Contents() == old(ret.Contents()) + Repeat<nat>(0, zeros)
  {
    for i := 0 to zeros
      invariant ret.Valid()
      invariant ret.Contents() == old(ret.Contents()) + Repeat<nat>(0, i)
    {
      ret.Push(0);
      assert Repeat<nat>(0, i + 1) == Repeat<nat>(0, i) + [0];
    }
  }

  /** Takes in one more byte of the data. */
  method AddByte(ret: SmallVec, d256: byte)
    requires ret.Valid() && Canonical(ret.Contents())
    modifies ret, ret.stack
    ensures ret.Valid() && Canonical(ret.Contents())
    ensures Le(ret.Contents(), 58) == 256 * Le(old(ret.Contents()), 58) + d256
  {
    ghost var before: seq<nat> := ret.Contents();
    var carry := ScaleUp(ret, d256);
    CarryGrows(before, ret.Contents(), carry, d256);
    PushCarry(ret, carry);
  }

  /** The base-58 digits of the data, least significant first, and how many zero bytes lead it. */
  method BuildDigits(data: seq<byte>, ret: SmallVec) returns (zeros: nat)
    requires ret.Valid() && ret.Contents() == []
    modifies ret, ret.stack
    ensures ret.Valid() && Canonical(ret.Contents()) && Le(ret.Contents(), 58) == Be(data, 256)
    ensures zeros == LeadingZeros(data)
  {
    zeros := 0;
    var leading := true;
    for i := 0 to |data|
      invariant ret.Valid() && Building(ret.Contents(), data, i, zeros, leading)
    {
      BuildStep(ret.Contents(), data, i, zeros, leading);
      if leading && data[i] == 0 {
        zeros := zeros + 1;
      } else {
        leading := false;
      }
      AddByte(ret, data[i]);
    }
    BuildEnd(ret.Contents(), data, zeros, leading);
  }

  /** The digits of the first i bytes, of which the first `zeros` are zero. */
  ghost predicate Building(digits: seq<nat>, data: seq<byte>, i: nat, zeros: nat, leading: bool)
  {
    && i <= |data| && Canonical(digits) && Le(digits, 58) == Be(data[..i], 256)
    && zeros <= i && (leading <==> zeros == i)
    && (forall j :: 0 <= j < zeros ==> data[j] == 0)
    && (!leading ==> data[zeros] > 0)
  }

  lemma {:induction false} BuildStep(digits: seq<nat>, data: seq<byte>, i: nat, zeros: nat, leading: bool)
    requires i < |data| && Building(digits, data, i, zeros, leading)
    ensures var zero := leading && data[i] == 0;
      forall digits' :: Canonical(digits') && Le(digits', 58) == 256 * Le(digits, 58) + data[i] ==>
        Building(digits', data, i + 1, if zero then zeros + 1 else zeros, zero)
  {
    assert data[..i + 1][..i] == data[..i];
  }

  lemma {:induction false} BuildEnd(digits: seq<nat>, data: seq<byte>, zeros: nat, leading: bool)
    requires Building(digits, data, |data|, zeros, leading)
    ensures Canonical(digits) && Le(digits, 58) == Be(data, 256) && zeros == LeadingZeros(data)
  {
    assert data[..|data|] == data;
    LeadingZerosUnique(data, zeros);
  }

  lemma {:induction false} FinalDigits(data: seq<byte>, digits: seq<nat>, zeros: nat)
    requires Canonical(digits) && Le(digits, 58) == Be(data, 256) && zeros == LeadingZeros(data)
    ensures Reverse(digits + Repeat<nat>(0, zeros)) == Convert(data, 256, 58)
  {
    var r := Reverse(digits);
    BeIsLeReversed(r, 58);
    assert Reverse(r) == digits;
    ToBeOfBe(r, 58);
    assert Reverse(digits + Repeat<nat>(0, zeros)) == Repeat<nat>(0, zeros) + r;
  }

  /** Characters of the digits from the last to the first. */
  method WriteReversed(ret: SmallVec) returns (s: seq<byte>)
    requires ret.Valid() && AllBelow(ret.Contents(), 58)
    ensures AllBelow(Reverse(ret.Contents()), 58) && s == CharsOf(Reverse(ret.Contents()))
  {
    s := [];
    var n := ret.Size();
    for i := 0 to n
      invariant |s| == i && forall j :: 0 <= j < i ==> s[j] == CharOf(ret.Contents()[n - 1 - j])
    {
      s := s + [CharOf(ret.Get(n - 1 - i))];
    }
  }

  // ---- with a checksum ----

  type Digest = s: seq<byte> | |s| == 32 witness seq(32, i => 0)

  datatype CheckError = InvalidCharacter(c: byte) | TooShort(length: nat) | IncorrectChecksum(incorrect: nat,
    expected: nat)

  function EncodedCheck(hash: seq<byte> -> Digest, data: seq<byte>): (s: seq<byte>)
  {
    Encoded(data + hash(data)[..4])
  }

  /** The first four bytes of the hash, as a number. */
  function Checksum(hash: seq<byte> -> Digest, data: seq<byte>): (n: nat)
  {
    Le(hash(data)[..4], 256)
  }

  function DecodedCheck(hash: seq<byte> -> Digest, s: seq<byte>): (r: Result<seq<byte>, CheckError>)
  {
    match Decoded(s)
    case Err(c) => Err(InvalidCharacter(c))
    case Ok(ret) => Checked(hash, ret)
  }

  function Checked(hash: seq<byte> -> Digest, ret: seq<byte>): (r: Result<seq<byte>, CheckError>)
  {
    if |ret| < 4 then Err(TooShort(|ret|))
    else
      var start := |ret| - 4;
      var expected, actual := Checksum(hash, ret[..start]), Le(ret[start..], 256);
      if actual != expected then Err(IncorrectChecksum(actual, expected)) else Ok(ret[..start])
  }

  lemma {:induction false} CheckRoundTrip(hash: seq<byte> -> Digest, data: seq<byte>)
    ensures DecodedCheck(hash, EncodedCheck(hash, data)) == Ok(data)
  {
    var ret := data + hash(data)[..4];
    DecodeEncode(ret);
    assert ret[..|ret| - 4] == data && ret[|ret| - 4..] == hash(data)[..4];
  }

  lemma {:induction false} LeInjective(s: seq<byte>, t: seq<byte>)
    requires |s| == |t| && Le(s, 256) == Le(t, 256)
    ensures s == t
  {
    if s != [] {
      DivModUnique(Le(s, 256), 256, Le(s[1..], 256), s[0]);
      DivModUnique(Le(t, 256), 256, Le(t[1..], 256), t[0]);
      LeInjective(s[1..], t[1..]);
      assert s == [s[0]] + s[1..] && t == [t[0]] + t[1..];
    }
  }

  /** A string is accepted exactly when it is the checked encoding of what comes out. */
  lemma {:induction false} CheckAccepts(hash: seq<byte> -> Digest, s: seq<byte>, data: seq<byte>)
    ensures DecodedCheck(hash, s) == Ok(data) <==> s == EncodedCheck(hash, data)
  {
    CheckRoundTrip(hash, data);
    if DecodedCheck(hash, s) == Ok(data) {
      OkMeansValid(s);
      EncodeDecode(s);
      CheckedData(hash, Decoded(s).value, data);
    }
  }

  lemma {:induction false} CheckedData(hash: seq<byte> -> Digest, ret: seq<byte>, data: seq<byte>)
    requires Checked(hash, ret) == Ok(data)
    ensures ret == data + hash(data)[..4]
  {
    LeInjective(hash(data)[..4], ret[|ret| - 4..]);
    assert ret == data + ret[|ret| - 4..];
  }

  lemma {:induction false} OkMeansValid(s: seq<byte>)
    requires Decoded(s).Ok?
    ensures InAlphabet(s)
  {}

  method EncodeCheck(hash: seq<byte> -> Digest, data: seq<byte>) returns (s: seq<byte>)
    ensures s == EncodedCheck(hash, data)
  {
    s := Encode(data + hash(data)[..4]);
  }

  method DecodeCheck(hash: seq<byte> -> Digest, data: seq<byte>) returns (r: Result<seq<byte>, CheckError>)
    ensures r == DecodedCheck(hash, data)
  {
    var decoded := Decode(data);
    if decoded.Err? {
      return Err(InvalidCharacter(decoded.error));
    }
    var ret := decoded.value;
    if |ret| < 4 {
      return Err(TooShort(|ret|));
    }
    var checkStart := |ret| - 4;
    var expected := Checksum(hash, ret[..checkStart]);
    var actual := Le(ret[checkStart..], 256);
    if actual != expected {
      return Err(IncorrectChecksum(actual, expected));
    }
    r := Ok(ret[..checkStart]);
  }
}
