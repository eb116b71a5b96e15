/** Work and target inversion, and the Dogecoin difficulty adjustment (bitcoin/src/pow.rs,
    bitcoin/src/dogecoin/params.rs). */
module Retarget {
  import opened Arith
  import opened Uint256
  import opened Uint256Ops
  import opened Compact

  // ---- work <-> target ----

  function InverseOf(n: nat): (r: nat)
    requires n < TWO256
    ensures r < TWO256
  {
    if n < 2 then TWO256 - 1
    else
      DivLt(TWO256, n + 1, TWO256);
      MulMono(TWO256, 2, n + 1);
      TWO256 / (n + 1)
  }

  method ToWork(target: U256) returns (work: U256)
    ensures Val(work) == InverseOf(Val(target))
  {
    work := Inverse(target);
  }

  method ToTarget(work: U256) returns (target: U256)
    ensures Val(target) == InverseOf(Val(work))
  {
    target := Inverse(work);
  }

  /** A larger target means no more work, and back, over the whole range. */
  lemma {:induction false} InverseAntitone(a: nat, b: nat)
    requires a <= b < TWO256
    ensures InverseOf(a) >= InverseOf(b)
  {
    if a >= 2 {
      var q := TWO256 / (b + 1);
      DivGe(TWO256, b + 1, q);
      DivGe(TWO256, a + 1, q);
      MulMono(q, a + 1, b + 1);
    }
  }

  /** Converting to work and back is the identity on targets in [1, 2^128). */
  lemma {:induction false} WorkRoundTrip(t: nat)
    requires 1 <= t < TWO128
    ensures InverseOf(InverseOf(t)) == t
  {
    if t == 1 {
      DivModUnique(TWO256, TWO256, 1, 0);
    } else {
      var w := TWO256 / (t + 1);
      DivGe(TWO256, t + 1, TWO128);
      MulMono(TWO128, t + 1, TWO128);
      DivMod(TWO256, t + 1);
      InverseTwice(t, w, TWO256);
    }
  }

  lemma {:induction false} InverseTwice(t: nat, w: nat, m: nat)
    requires w * (t + 1) <= m < (w + 1) * (t + 1) && t <= w
    ensures m / (w + 1) == t
  {
    assert t * (w + 1) == t * w + t <= w * (t + 1);
    DivGe(m, w + 1, t);
    DivLt(m, w + 1, t + 1);
  }

  /** The round trip never raises a target, except at zero and in [2^255, 2^256 - 1). */
  lemma {:induction false} WorkRoundTripShrinksIff(t: nat)
    requires t < TWO256
    ensures InverseOf(InverseOf(t)) <= t <==> (1 <= t < TWO256 / 2 || t == TWO256 - 1)
  {
    if t < 2 {
      DivModUnique(TWO256, TWO256, 1, 0);
    } else {
      var w := TWO256 / (t + 1);
      DivGe(TWO256, t + 1, 1);
      DivGe(TWO256, t + 1, 2);
      if t < TWO256 / 2 {
        assert w >= 2;
        DivLt(TWO256, t + 1, w + 1);
        DivLt(TWO256, w + 1, t + 1);
      } else {
        assert w == 1;
      }
    }
  }

  // ---- network parameters ----

  datatype Network = Dogecoin | Testnet | Regtest

  datatype Params = Params(
    network: Network,
    maxAttainable: U256,
    noPowRetargeting: bool,
    digishieldActivationHeight: nat)
  {
    predicate IsDigishieldActivated(height: nat)
    {
      height >= digishieldActivationHeight
    }

    /** Seconds between two adjustments: four hours first, then one block. */
    function PowTargetTimespan(height: nat): (t: int)
    {
      if !IsDigishieldActivated(height) then 4 * 60 * 60
      else match network
        case Dogecoin => 60
        case Testnet => 60
        case Regtest => 1
    }

    ghost function Limit(): (n: nat)
    {
      Val(maxAttainable)
    }
  }

  const MAX_ATTAINABLE_MAINNET_DOGE := U256(0xFFFF_F000 * 0x1000_0000_0000_0000_0000, 0)
  const MAX_ATTAINABLE_REGTEST_DOGE := U256(0x7FFF_FF00 * 0x1_0000_0000_0000_0000_0000_0000, 0)

  const MAINNET := Params(Dogecoin, MAX_ATTAINABLE_MAINNET_DOGE, false, 145000)
  const TESTNET := Params(Testnet, MAX_ATTAINABLE_MAINNET_DOGE, false, 145000)
  const REGTEST := Params(Regtest, MAX_ATTAINABLE_REGTEST_DOGE, true, 10)

  // ---- one adjustment ----

  /** Machine division rounds toward zero. */
  function TruncDiv(a: int, b: int): (q: int)
    requires b > 0
  {
    if a >= 0 then a / b else -((-a) / b)
  }

  function Clamp(x: int, lo: int, hi: int): (r: int)
    requires lo <= hi
    ensures lo <= r <= hi
  {
    if x < lo then lo else if x > hi then hi else x
  }

  /** The measured timespan, damped by Digishield, kept within the bounds for the height. */
  function ModulatedTimespan(params: Params, timespan: int, height: nat): (m: int)
    ensures 0 < m <= 4 * params.PowTargetTimespan(height)
  {
    var t := params.PowTargetTimespan(height);
    if params.IsDigishieldActivated(height) then
      Clamp(t + TruncDiv(timespan - t, 8), t - t / 4, t + t / 2)
    else
      var lo := if height <= 5_000 then t / 16 else if height <= 10_000 then t / 8 else t / 4;
      Clamp(timespan, lo, t * 4)
  }

  /** The threshold before it is capped by the largest attainable target. */
  function UncappedThreshold(params: Params, p: nat, height: nat): (n: nat)
  {
    if params.IsDigishieldActivated(height) then (p + p / 2) % TWO256 else (p * 4) % TWO256
  }

  function MaxThreshold(params: Params, p: nat, height: nat): (n: nat)
  {
    var raw := UncappedThreshold(params, p, height);
    if raw <= Val(params.maxAttainable) then raw else Val(params.maxAttainable)
  }

  function MinThreshold(params: Params, p: nat, height: nat): (n: nat)
  {
    if params.IsDigishieldActivated(height) then p - p / 4
    else if height <= 5_000 then p / 16
    else if height <= 10_000 then p / 8
    else p / 4
  }

  /** The scaled previous target, before the limit is applied; the product wraps at 2^256. */
  function ScaledTarget(params: Params, p: nat, timespan: int, height: nat): (n: nat)
  {
    ((p * ModulatedTimespan(params, timespan, height)) % TWO256) / params.PowTargetTimespan(height)
  }

  function NextTarget(params: Params, p: nat, timespan: int, height: nat): (n: nat)
  {
    var r := ScaledTarget(params, p, timespan, height);
    var limit := MaxThreshold(params, p, height);
    if r >= limit then limit else r
  }

  lemma {:induction false} NextTargetBounded(params: Params, p: nat, timespan: int, height: nat)
    ensures NextTarget(params, p, timespan, height) <= MaxThreshold(params, p, height) <= params.Limit() < TWO256
  {}

  function NextBits(params: Params, bits: u32, timespan: int, height: nat): (c: u32)
  {
    if params.noPowRetargeting then bits
    else
      var n := NextTarget(params, TargetOf(bits), timespan, height);
      NextTargetBounded(params, TargetOf(bits), timespan, height);
      CompactFits(n);
      CompactOf(n)
  }

  // ---- the code, on limbs ----

  lemma {:induction false} ShiftPowers()
    ensures Pow(2, 1) == 2 && Pow(2, 2) == 4 && Pow(2, 3) == 8 && Pow(2, 4) == 16
  {}

  method ShiftRight(t: U256, k: nat) returns (r: U256)
    ensures Val(r) == Val(t) / Pow(2, k % 256)
  {
    r := WrappingShr(t, k);
  }

  method ShiftLeft(t: U256, k: nat) returns (r: U256)
    ensures Val(r) == (Val(t) * Pow(2, k % 256)) % TWO256
  {
    r := WrappingShl(t, k);
  }

  method Subtract(x: U256, y: U256) returns (r: U256)
    requires Val(y) <= Val(x)
    ensures Val(r) == Val(x) - Val(y)
  {
    r := WrappingSub(x, y);
  }

  method Add(x: U256, y: U256) returns (r: U256)
    ensures Val(r) == (Val(x) + Val(y)) % TWO256
  {
    r := WrappingAdd(x, y);
  }

  method MinTransitionThresholdDogecoin(t: U256, params: Params, height: nat) returns (r: U256)
    ensures Val(r) == MinThreshold(params, Val(t), height)
  {
    ShiftPowers();
    if params.IsDigishieldActivated(height) {
      var quarter := ShiftRight(t, 2);
      r := Subtract(t, quarter);
    } else if height <= 5_000 {
      r := ShiftRight(t, 4);
    } else if height <= 10_000 {
      r := ShiftRight(t, 3);
    } else {
      r := ShiftRight(t, 2);
    }
  }

  method MaxTransitionThresholdDogecoin(t: U256, params: Params, height: nat) returns (r: U256)
    ensures Val(r) == MaxThreshold(params, Val(t), height)
  {
    ShiftPowers();
    var raw;
    if params.IsDigishieldActivated(height) {
      var half := ShiftRight(t, 1);
      raw := Add(t, half);
    } else {
      raw := ShiftLeft(t, 2);
    }
    LessIsNumeric(params.maxAttainable, raw);
    r := if Less(params.maxAttainable, raw) then params.maxAttainable else raw;
  }

  type i64 = x: int | -0x8000_0000_0000_0000 <= x < 0x8000_0000_0000_0000

  /** The 64-bit number that a sum or difference wraps to. */
  function WrapI64(x: int): (r: i64)
    requires -0x1_0000_0000_0000_0000 <= x < 0x8000_0000_0000_0000
    ensures (r - x) % TWO64 == 0
  {
    if x < -0x8000_0000_0000_0000 then x + TWO64 else x
  }

  /** The timespan that the 64-bit code works with: Digishield's subtraction of the target timespan
      wraps within a minute of the least i64. */
  function EffectiveTimespan(params: Params, timespan: i64, height: nat): (r: int)
    ensures params.IsDigishieldActivated(height) ==>
      (r - timespan) % TWO64 == 0 && -(TWO64 / 2) <= r - params.PowTargetTimespan(height) < TWO64 / 2
    ensures !params.IsDigishieldActivated(height) || timespan >= -0x7FFF_FFFF_FFFF_FFC4 ==> r == timespan
  {
    var t := params.PowTargetTimespan(height);
    if params.IsDigishieldActivated(height) then WrapI64(timespan - t) + t else timespan
  }

  /** The next compact target, for every i64 timespan. */
  method FromNextWorkRequiredDogecoin(last: u32, timespan: i64, params: Params, height: nat) returns (c: u32)
    ensures c == NextBits(params, last, EffectiveTimespan(params, timespan, height), height)
  {
    if params.noPowRetargeting {
      return last;
    }
    var effective := EffectiveTimespan(params, timespan, height);
    var modulated := ModulatedTimespan(params, effective, height);
    var prevTarget := FromCompact(last);
    var maximumRetarget := MaxTransitionThresholdDogecoin(prevTarget, params, height);
    var retarget := Rescale(prevTarget, modulated, params.PowTargetTimespan(height));
    assert Val(retarget) == ScaledTarget(params, TargetOf(last), effective, height);
    LessIsNumeric(retarget, maximumRetarget);
    if !Less(retarget, maximumRetarget) {
      return ToCompactLossy(maximumRetarget);
    }
    c := ToCompactLossy(retarget);
  }

  /** Multiply by one timespan, divide by the other. */
  method Rescale(t: U256, mul: u64, div: u64) returns (r: U256)
    requires div > 0
    ensures Val(r) == ((Val(t) * mul) % TWO256) / div
  {
    var product, _ := OverflowingMul(t, U256(0, mul));
    MulBelow192(Val(t), mul);
    var q, _ := DivRem(product, U256(0, div));
    r := q;
  }

  // ---- safety over every run of adjustments ----

  /** Parameters under which no adjustment can leave 256 bits. */
  ghost predicate Sound(params: Params)
  {
    params.noPowRetargeting || 4 * 14_400 * params.Limit() < TWO256
  }

  lemma {:induction false} NetworksSound()
    ensures Sound(MAINNET) && Sound(TESTNET) && Sound(REGTEST)
  {}

  /** No 256-bit operation of the adjustment wraps. */
  ghost predicate NoWrap(params: Params, p: nat, timespan: int, height: nat)
  {
    params.noPowRetargeting ||
    (p * ModulatedTimespan(params, timespan, height) < TWO256 && p + p / 2 < TWO256 && p * 4 < TWO256)
  }

  datatype Adjustment = Adjustment(timespan: int, height: nat)

  /** The compact target after a sequence of adjustments, the first one first. */
  function Run(params: Params, bits: u32, steps: seq<Adjustment>): (c: u32)
    decreases |steps|
  {
    if steps == [] then bits
    else
      var last := steps[|steps| - 1];
      NextBits(params, Run(params, bits, steps[..|steps| - 1]), last.timespan, last.height)
  }

  lemma {:induction false} StepNoWrap(params: Params, p: nat, timespan: int, height: nat)
    requires Sound(params) && p <= params.Limit()
    ensures NoWrap(params, p, timespan, height)
  {
    var m := ModulatedTimespan(params, timespan, height);
    MulMono(p, m, 57_600);
  }

  lemma {:induction false} StepStaysAttainable(params: Params, bits: u32, timespan: int, height: nat)
    requires TargetOf(bits) <= params.Limit()
    ensures TargetOf(NextBits(params, bits, timespan, height)) <= params.Limit()
  {
    if !params.noPowRetargeting {
      var n := NextTarget(params, TargetOf(bits), timespan, height);
      NextTargetBounded(params, TargetOf(bits), timespan, height);
      DecodeEncode(n);
    }
  }

  lemma {:induction false} RunAttainable(params: Params, bits: u32, steps: seq<Adjustment>)
    requires TargetOf(bits) <= params.Limit()
    ensures TargetOf(Run(params, bits, steps)) <= params.Limit()
    decreases |steps|
  {
    if steps != [] {
      var init, last := steps[..|steps| - 1], steps[|steps| - 1];
      RunAttainable(params, bits, init);
      StepStaysAttainable(params, Run(params, bits, init), last.timespan, last.height);
    }
  }

  /** Every state of every run decodes to at most the network limit, and no step of it wraps. */
  lemma {:induction false} RunSafe(params: Params, bits: u32, steps: seq<Adjustment>)
    requires Sound(params) && TargetOf(bits) <= params.Limit()
    ensures forall k :: 0 <= k <= |steps| ==> TargetOf(Run(params, bits, steps[..k])) <= params.Limit()
    ensures forall k :: 0 <= k < |steps| ==>
      NoWrap(params, TargetOf(Run(params, bits, steps[..k])), steps[k].timespan, steps[k].height)
  {
    forall k | 0 <= k <= |steps| ensures TargetOf(Run(params, bits, steps[..k])) <= params.Limit() {
      RunAttainable(params, bits, steps[..k]);
    }
    forall k | 0 <= k < |steps|
      ensures NoWrap(params, TargetOf(Run(params, bits, steps[..k])), steps[k].timespan, steps[k].height)
    {
      StepNoWrap(params, TargetOf(Run(params, bits, steps[..k])), steps[k].timespan, steps[k].height);
    }
  }

  // ---- one adjustment: order and bounds ----

  lemma {:induction false} ModulatedMonotone(params: Params, ts1: int, ts2: int, height: nat)
    requires ts1 <= ts2
    ensures ModulatedTimespan(params, ts1, height) <= ModulatedTimespan(params, ts2, height)
  {}

  /** A longer timespan never gives a harder next target. */
  lemma {:induction false} NextMonotone(params: Params, bits: u32, ts1: int, ts2: int, height: nat)
    requires ts1 <= ts2
    requires NoWrap(params, TargetOf(bits), ts1, height) && NoWrap(params, TargetOf(bits), ts2, height)
    ensures NextBits(params, bits, ts1, height) <= NextBits(params, bits, ts2, height)
  {
    if !params.noPowRetargeting {
      var p := TargetOf(bits);
      var m1, m2 := ModulatedTimespan(params, ts1, height), ModulatedTimespan(params, ts2, height);
      ModulatedMonotone(params, ts1, ts2, height);
      MulMono(p, m1, m2);
      SmallMod(p * m1, TWO256);
      SmallMod(p * m2, TWO256);
      DivMono(p * m1, p * m2, params.PowTargetTimespan(height));
      CompactOrdered(NextTarget(params, p, ts1, height), NextTarget(params, p, ts2, height));
    }
  }

  /** The next target never decodes above the transition threshold of the previous one. */
  lemma {:induction false} NextBelowMax(params: Params, bits: u32, timespan: int, height: nat)
    requires !params.noPowRetargeting
    ensures TargetOf(NextBits(params, bits, timespan, height)) <= MaxThreshold(params, TargetOf(bits), height)
  {
    NextTargetBounded(params, TargetOf(bits), timespan, height);
    DecodeEncode(NextTarget(params, TargetOf(bits), timespan, height));
  }

  /** The next target before encoding is at least the scaled-down previous one. */
  lemma {:induction false} ScaledFloor(p: nat, m: nat, t: nat, num: nat, den: nat)
    requires t > 0 && den > 0 && num * t <= m * den
    ensures (p * num) / den <= (p * m) / t
  {
    var q := (p * num) / den;
    DivGe(p * num, den, q);
    ScaledProducts(p, m, t, num, den, q);
    DivGe(p * m, t, q);
  }

  lemma {:induction false} ScaledProducts(p: nat, m: nat, t: nat, num: nat, den: nat, q: int)
    requires den > 0 && num * t <= m * den && q * den <= p * num
    ensures q * t <= p * m
  {
    calc {
      den * (q * t);
      { MulAssoc(den, q, t); }
      t * (q * den);
    <= { MulMono(t, q * den, p * num); }
      t * (p * num);
      { MulAssoc(p, num, t); }
      p * (num * t);
    <= { MulMono(p, num * t, m * den); }
      p * (m * den);
      { MulAssoc(p, m, den); }
      den * (p * m);
    }
    MulCancel(den, q * t, p * m);
  }

  ghost predicate Attainable(params: Params, bits: u32)
  {
    Sound(params) && !params.noPowRetargeting && TargetOf(bits) <= params.Limit()
  }

  /** Before Digishield the lower threshold always holds. */
  lemma {:induction false} NextAboveMin(params: Params, bits: u32, timespan: int, height: nat)
    requires Attainable(params, bits) && !params.IsDigishieldActivated(height)
    ensures NextBits(params, bits, timespan, height) >= CompactOf(MinThreshold(params, TargetOf(bits), height))
  {
    var p := TargetOf(bits);
    TargetAboveMin(params, p, timespan, height);
    CompactOrdered(MinThreshold(params, p, height), NextTarget(params, p, timespan, height));
  }

  lemma {:induction false} TargetAboveMin(params: Params, p: nat, timespan: int, height: nat)
    requires Sound(params) && !params.noPowRetargeting && p <= params.Limit()
    requires !params.IsDigishieldActivated(height)
    ensures MinThreshold(params, p, height) <= NextTarget(params, p, timespan, height)
  {
    var m := ModulatedTimespan(params, timespan, height);
    var den := if height <= 5_000 then 16 else if height <= 10_000 then 8 else 4;
    StepNoWrap(params, p, timespan, height);
    SmallMod(p * m, TWO256);
    SmallMod(p * 4, TWO256);
    ScaledFloor(p, m, 14_400, 1, den);
    PartBelow(p, den);
  }

  lemma {:induction false} PartBelow(p: nat, den: nat)
    requires den > 0
    ensures 0 <= p / den <= p
  {
    DivGe(p, den, 0);
    MulMono(p + 1, 1, den);
    DivLt(p, den, p + 1);
  }

  /** A decoded target that four does not divide is below 2^23. */
  lemma {:induction false} OddTargetsSmall(bits: u32)
    requires TargetOf(bits) % 4 != 0
    ensures TargetOf(bits) < TWO23
  {
    var e, m := bits / TWO24, bits % TWO24;
    if e > 3 && m < TWO23 {
      ShiftedMultiple(m, 8 * (e - 3));
    }
  }

  lemma {:induction false} ShiftedMultiple(m: nat, k: nat)
    requires k % 8 == 0
    ensures k % 256 == 0 || ((m * Pow(2, k % 256)) % TWO256) % 4 == 0
    ensures k % 256 == 0 ==> (m * Pow(2, k % 256)) % TWO256 == m % TWO256
  {
    var s := k % 256;
    if s != 0 {
      var x := m * Pow(2, s);
      assert s >= 2;
      PowAdd(2, 2, s - 2);
      assert Pow(2, 2) == 4;
      assert x == (m * Pow(2, s - 2)) * 4;
      DivOfMul(m * Pow(2, s - 2), 4);
      ModMod(x, 4, TWO256 / 4);
    }
  }

  /** After Digishield the lower threshold holds for every timespan exactly when four divides the
      previous target, or the network is regtest, whose one-second timespan never changes a target. */
  lemma {:induction false} DigishieldAboveMinIff(params: Params, bits: u32, height: nat)
    requires Attainable(params, bits) && params.IsDigishieldActivated(height)
    ensures (forall timespan ::
        NextBits(params, bits, timespan, height) >= CompactOf(MinThreshold(params, TargetOf(bits), height)))
       <==> TargetOf(bits) % 4 == 0 || params.network.Regtest?
  {
    var p := TargetOf(bits);
    if p % 4 == 0 || params.network.Regtest? {
      forall timespan
        ensures NextBits(params, bits, timespan, height) >= CompactOf(MinThreshold(params, p, height))
      {
        if params.network.Regtest? {
          RegtestKeepsTarget(params, bits, timespan, height);
        } else {
          DigishieldFloor(params, bits, timespan, height);
        }
        CompactOrdered(MinThreshold(params, p, height), NextTarget(params, p, timespan, height));
      }
    } else {
      DigishieldBreaksMin(params, bits, height);
    }
  }

  lemma {:induction false} RegtestKeepsTarget(params: Params, bits: u32, timespan: int, height: nat)
    requires Attainable(params, bits) && params.IsDigishieldActivated(height) && params.network.Regtest?
    ensures NextTarget(params, TargetOf(bits), timespan, height) == TargetOf(bits)
  {
    var p := TargetOf(bits);
    StepNoWrap(params, p, timespan, height);
    assert ModulatedTimespan(params, timespan, height) == 1;
    SmallMod(p, TWO256);
    SmallMod(p + p / 2, TWO256);
  }

  lemma {:induction false} DigishieldFloor(params: Params, bits: u32, timespan: int, height: nat)
    requires Attainable(params, bits) && params.IsDigishieldActivated(height) && !params.network.Regtest?
    ensures NextTarget(params, TargetOf(bits), timespan, height) >= (TargetOf(bits) * 3) / 4
    ensures timespan <= -60 ==> ScaledTarget(params, TargetOf(bits), timespan, height) == (TargetOf(bits) * 3) / 4
  {
    var p, m := TargetOf(bits), ModulatedTimespan(params, timespan, height);
    MinuteTimespan(params, timespan, height);
    StepNoWrap(params, p, timespan, height);
    SmallMod(p * m, TWO256);
    ThreeQuartersFloor(p, m);
    UncappedFloor(params, p, timespan, height);
  }

  lemma {:induction false} MinuteTimespan(params: Params, timespan: int, height: nat)
    requires params.IsDigishieldActivated(height) && !params.network.Regtest?
    ensures params.PowTargetTimespan(height) == 60
    ensures 45 <= ModulatedTimespan(params, timespan, height) <= 90
    ensures timespan <= -60 ==> ModulatedTimespan(params, timespan, height) == 45
  {}

  lemma {:induction false} ThreeQuartersFloor(p: nat, m: nat)
    requires m >= 45
    ensures (p * m) / 60 >= (p * 3) / 4
    ensures m == 45 ==> (p * m) / 60 == (p * 3) / 4
  {
    ScaledFloor(p, m, 60, 3, 4);
    if m == 45 {
      assert (p * 45) / 60 == (p * 3) / 4;
    }
  }

  lemma {:induction false} UncappedFloor(params: Params, p: nat, timespan: int, height: nat)
    requires !params.noPowRetargeting && NoWrap(params, p, timespan, height) && p <= params.Limit()
    requires params.IsDigishieldActivated(height)
    ensures MaxThreshold(params, p, height) >= p
  {
    SmallMod(p + p / 2, TWO256);
  }

  /** A target that four does not divide drops below the threshold when blocks come fast. */
  lemma {:induction false} DigishieldBreaksMin(params: Params, bits: u32, height: nat)
    requires Attainable(params, bits) && params.IsDigishieldActivated(height) && !params.network.Regtest?
    requires TargetOf(bits) % 4 != 0
    ensures NextBits(params, bits, -60, height) < CompactOf(MinThreshold(params, TargetOf(bits), height))
  {
    var p := TargetOf(bits);
    OddTargetsSmall(bits);
    DigishieldDrop(params, bits, height);
    CompactStrict((p * 3) / 4, (p * 3) / 4 + 1);
  }

  lemma {:induction false} DigishieldDrop(params: Params, bits: u32, height: nat)
    requires Attainable(params, bits) && params.IsDigishieldActivated(height) && !params.network.Regtest?
    requires TargetOf(bits) % 4 != 0
    ensures NextTarget(params, TargetOf(bits), -60, height) == (TargetOf(bits) * 3) / 4 < TWO23
    ensures MinThreshold(params, TargetOf(bits), height) == (TargetOf(bits) * 3) / 4 + 1 < TWO23
  {
    var p := TargetOf(bits);
    OddTargetsSmall(bits);
    DigishieldFloor(params, bits, -60, height);
    SmallMod(p + p / 2, TWO256);
    ThreeQuarters(p);
  }

  lemma {:induction false} ThreeQuarters(p: nat)
    requires p % 4 != 0
    ensures p - p / 4 == (p * 3) / 4 + 1 && (p * 3) / 4 < p <= p + p / 2
  {}

  lemma {:induction false} CompactStrict(a: nat, b: nat)
    requires a < b < TWO23
    ensures CompactOf(a) < CompactOf(b)
  {
    SmallTargetsExact(a);
    SmallTargetsExact(b);
    CompactOrdered(a, b);
  }

  /** Concretely, target 5 on mainnet may become 3 although its threshold is 4. */
  lemma {:induction false} ThresholdCounterexample()
    ensures TargetOf(0x0300_0005) == 5
    ensures NextBits(MAINNET, 0x0300_0005, -60, 200_000) < CompactOf(MinThreshold(MAINNET, 5, 200_000))
  {
    assert Pow(256, 0) == 1;
    DigishieldBreaksMin(MAINNET, 0x0300_0005, 200_000);
  }
}
