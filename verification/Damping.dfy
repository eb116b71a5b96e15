/** How far one adjustment moves the target, in seconds and in parts of the target (bitcoin/src/pow.rs,
    bitcoin/src/dogecoin/params.rs). */
module Damping {
  import opened Arith
  import opened Uint256
  import opened Compact
  import opened Retarget

  // ---- the damped timespan ----

  /** After Digishield a deviation of d seconds from the minute counts as k seconds: an eighth, rounded
      toward zero, and no more than 15 seconds less or 30 seconds more. */
  predicate CountsAs(d: int, k: int)
  {
    if k == -15 then d <= -120
    else if k == 30 then d >= 240
    else if k > 0 then k < 30 && 8 * k <= d < 8 * k + 8
    else if k < 0 then -15 < k && 8 * k - 8 < d <= 8 * k
    else -8 < d < 8
  }

  lemma {:induction false} MinuteDampedIff(params: Params, timespan: int, height: nat, k: int)
    requires params.IsDigishieldActivated(height) && !params.network.Regtest?
    ensures ModulatedTimespan(params, timespan, height) == 60 + k <==> CountsAs(timespan - 60, k)
  {
    EighthOf(timespan - 60, k);
  }

  lemma {:induction false} EighthOf(d: int, k: int)
    ensures TruncDiv(d, 8) == k <==>
      if k > 0 then 8 * k <= d < 8 * k + 8 else if k < 0 then 8 * k - 8 < d <= 8 * k else -8 < d < 8
    ensures TruncDiv(d, 8) <= -15 <==> d <= -120
    ensures TruncDiv(d, 8) >= 30 <==> d >= 240
  {}

  lemma {:induction false} SecondDamped(params: Params, timespan: int, height: nat)
    requires params.IsDigishieldActivated(height) && params.network.Regtest?
    ensures ModulatedTimespan(params, timespan, height) == 1
  {}

  /** The shortest timespan that counts before Digishield: a sixteenth, an eighth or a quarter of four hours. */
  function Shortest(height: nat): (s: nat)
  {
    if height <= 5_000 then 900 else if height <= 10_000 then 1_800 else 3_600
  }

  /** Before Digishield a timespan counts in full between the shortest one and sixteen hours. */
  lemma {:induction false} HoursClampedIff(params: Params, timespan: int, height: nat, m: int)
    requires !params.IsDigishieldActivated(height)
    ensures ModulatedTimespan(params, timespan, height) == m <==>
      || (m == Shortest(height) && timespan <= m)
      || (m == timespan && Shortest(height) <= timespan <= 57_600)
      || (m == 57_600 && timespan >= m)
  {}

  // ---- the next target ----

  function Least(a: nat, b: nat): (r: nat)
    ensures r <= a && r <= b && (r == a || r == b)
  {
    if a <= b then a else b
  }

  /** The m-th part out of t, rounded down. */
  function Scaled(p: nat, m: nat, t: nat): (r: nat)
    requires t > 0
    ensures r == p * m / t
  {
    Quotient(Times(p, m), t)
  }

  /** The next target for a counted timespan m, when nothing wraps. */
  lemma {:induction false} StepScales(params: Params, p: nat, timespan: int, height: nat, m: nat, t: nat)
    requires Sound(params) && !params.noPowRetargeting && p <= params.Limit()
    requires m == ModulatedTimespan(params, timespan, height) && t == params.PowTargetTimespan(height)
    requires Scaled(p, m, t) <= if params.IsDigishieldActivated(height) then p + p / 2 else 4 * p
    ensures NextTarget(params, p, timespan, height) == Least(Scaled(p, m, t), params.Limit())
  {
    StepNoWrap(params, p, timespan, height);
    SmallMod(p * m, TWO256);
    SmallMod(p + p / 2, TWO256);
    SmallMod(p * 4, TWO256);
  }

  /** After Digishield a deviation that counts as k seconds moves the target by k sixtieths, rounded
      down, up to the network limit. */
  lemma {:induction false} DigishieldStep(params: Params, bits: u32, timespan: int, height: nat, k: int)
    requires Attainable(params, bits) && params.IsDigishieldActivated(height) && !params.network.Regtest?
    requires CountsAs(timespan - 60, k)
    ensures NextTarget(params, TargetOf(bits), timespan, height)
         == Least(Scaled(TargetOf(bits), 60 + k, 60), params.Limit())
    ensures NextBits(params, bits, timespan, height) == CompactOf(NextTarget(params, TargetOf(bits), timespan, height))
  {
    var p := TargetOf(bits);
    MinuteDampedIff(params, timespan, height, k);
    HalfMore(p, 60 + k);
    StepScales(params, p, timespan, height, 60 + k, 60);
  }

  lemma {:induction false} HalfMore(p: nat, m: nat)
    requires m <= 90
    ensures Scaled(p, m, 60) <= p + p / 2
  {
    MulMono(p, m, 90);
    DivLt(p * m, 60, p + p / 2 + 1);
  }

  /** Less than eight seconds off the minute leave the target as it is. */
  lemma {:induction false} SmallDeviation(params: Params, bits: u32, timespan: int, height: nat)
    requires Attainable(params, bits) && params.IsDigishieldActivated(height) && !params.network.Regtest?
    requires 52 < timespan < 68
    ensures NextTarget(params, TargetOf(bits), timespan, height) == TargetOf(bits)
    ensures Canonical(bits) ==> NextBits(params, bits, timespan, height) == bits
  {
    DigishieldStep(params, bits, timespan, height, 0);
    DivOfMul(TargetOf(bits), 60);
    EncodeDecodeIff(bits);
  }

  /** Before Digishield the target is scaled by the counted timespan over four hours, up to the limit. */
  lemma {:induction false} HoursStep(params: Params, bits: u32, timespan: int, height: nat, m: nat)
    requires Attainable(params, bits) && !params.IsDigishieldActivated(height)
    requires m == if timespan < Shortest(height) then Shortest(height) else Least(timespan, 57_600)
    ensures NextTarget(params, TargetOf(bits), timespan, height)
         == Least(Scaled(TargetOf(bits), m, 14_400), params.Limit())
    ensures NextBits(params, bits, timespan, height) == CompactOf(NextTarget(params, TargetOf(bits), timespan, height))
  {
    var p := TargetOf(bits);
    HoursClampedIff(params, timespan, height, m);
    FourTimes(p, m);
    StepScales(params, p, timespan, height, m, 14_400);
  }

  lemma {:induction false} FourTimes(p: nat, m: nat)
    requires m <= 57_600
    ensures Scaled(p, m, 14_400) <= 4 * p
  {
    MulMono(p, m, 57_600);
    DivLt(p * m, 14_400, 4 * p + 1);
  }

  /** One adjustment raises a target to at most three halves of it after Digishield, four times before. */
  lemma {:induction false} RaisesAtMost(params: Params, bits: u32, timespan: int, height: nat)
    requires !params.noPowRetargeting
    ensures var p, n := TargetOf(bits), TargetOf(NextBits(params, bits, timespan, height));
      if params.IsDigishieldActivated(height) then 2 * n <= 3 * p else n <= 4 * p
  {
    NextBelowMax(params, bits, timespan, height);
    ThresholdAtMost(params, TargetOf(bits), height);
    Halves(TargetOf(bits));
  }

  lemma {:induction false} ThresholdAtMost(params: Params, p: nat, height: nat)
    ensures MaxThreshold(params, p, height) <= if params.IsDigishieldActivated(height) then p + p / 2 else 4 * p
  {
    ModAtMost(p + p / 2);
    ModAtMost(p * 4);
  }

  lemma {:induction false} ModAtMost(x: nat)
    ensures x % TWO256 <= x
  {
    if x < TWO256 { SmallMod(x, TWO256); }
  }

  lemma {:induction false} Halves(p: nat)
    ensures 2 * (p + p / 2) <= 3 * p
  {}

  /** A general form of one adjustment on a decoded target m * 256^s. */
  lemma {:induction false} ScaledMantissa(m: nat, m': nat, num: nat, den: nat, unit: nat)
    requires den > 0 && unit > 0 && m' * den <= m * num < (m' + 1) * den
    ensures m' * unit <= Scaled(m * unit, num, den) < (m' + 1) * unit
  {
    var x := (m * unit) * num;
    MulSwap(m, unit, num);
    DivGe(x, den, m' * unit);
    MulSwap(m', unit, den);
    MulMono(unit, m' * den, m * num);
    DivLt(x, den, (m' + 1) * unit);
    MulSwap(m' + 1, unit, den);
    MulMono(unit, m * num + 1, (m' + 1) * den);
  }

  /** When exponent and mantissa keep their ranges, an adjustment by k sixtieths scales the mantissa. */
  lemma {:induction false} MantissaStep(
    params: Params, bits: u32, timespan: int, height: nat, num: nat, e: nat, m: nat, m': nat)
    requires Attainable(params, bits) && params.IsDigishieldActivated(height) && !params.network.Regtest?
    requires CountsAs(timespan - 60, num - 60) && TWO15 <= m < TWO23 && TWO15 <= m' < TWO23 && 3 <= e <= 32
    requires bits == e * TWO24 + m && m' * 60 <= m * num < (m' + 1) * 60
    requires (m' + 1) * Pow(256, e - 3) <= params.Limit()
    ensures NextBits(params, bits, timespan, height) == e * TWO24 + m'
  {
    MantissaTarget(bits, e, m);
    DigishieldStep(params, bits, timespan, height, num - 60);
    ScaledMantissa(m, m', num, 60, Pow(256, e - 3));
    MantissaCompact(Scaled(TargetOf(bits), num, 60), e, m');
  }

  lemma {:induction false} MantissaTarget(bits: u32, e: nat, m: nat)
    requires m < TWO23 && 3 <= e <= 32 && bits == e * TWO24 + m
    ensures TargetOf(bits) == m * Pow(256, e - 3)
  {
    ExponentOf(bits, e, m);
    TargetValue(bits);
  }

  lemma {:induction false} ExponentOf(bits: u32, e: nat, m: nat)
    requires m < TWO24 && bits == e * TWO24 + m
    ensures bits / TWO24 == e && bits % TWO24 == m
  {
    DivModUnique(bits, TWO24, e, m);
  }

  lemma {:induction false} MantissaCompact(n: nat, e: nat, m: nat)
    requires TWO15 <= m < TWO23 && 3 <= e <= 32 && m * Pow(256, e - 3) <= n < (m + 1) * Pow(256, e - 3)
    ensures CompactOf(n) == e * TWO24 + m
  {
    ExponentOf(e * TWO24 + m, e, m);
    RoundsLarge(n, m, e);
    RoundsUnique(n, e * TWO24 + m);
  }

  /** Block 1531882 of the main network: 36 seconds count as three less, so the target loses three sixtieths. */
  lemma {:induction false} RecordedAdjustment()
    ensures NextBits(MAINNET, 0x1B01_DC29, 36, 1_531_882) == 0x1B01_C45A
  {
    var unit := Pow(256, 24);
    Pow256();
    TargetValue(0x1B01_DC29);
    MantissaStep(MAINNET, 0x1B01_DC29, 36, 1_531_882, 57, 0x1B, 0x1_DC29, 0x1_C45A);
  }

  // ---- the networks ----

  /** The limits are those of Dogecoin's compact values, and an adjustment spans four hours before
      Digishield, then a minute, on regtest a second. */
  lemma {:induction false} NetworkConstants(height: nat)
    ensures MAINNET.Limit() == TESTNET.Limit() == 0x0F_FFFF * Pow(256, 0x1E - 3)
    ensures REGTEST.Limit() == 0x7F_FFFF * Pow(256, 0x20 - 3)
    ensures !MAINNET.noPowRetargeting && !TESTNET.noPowRetargeting && REGTEST.noPowRetargeting
    ensures MAINNET.PowTargetTimespan(height) == TESTNET.PowTargetTimespan(height) ==
      if height < 145_000 then 14_400 else 60
    ensures REGTEST.PowTargetTimespan(height) == if height < 10 then 14_400 else 1
  {
    Pow256();
  }

  lemma {:induction false} Pow256()
    ensures Pow(256, 27) == 0x100_0000_0000_0000_0000_0000_0000_0000_0000_0000_0000_0000_0000_0000
    ensures Pow(256, 29) == 0x1_0000 * Pow(256, 27)
    ensures Pow(256, 24) == TWO192
  {
    assert Pow(256, 3) == 0x100_0000;
    PowAdd(256, 3, 3);
    PowAdd(256, 6, 6);
    PowAdd(256, 12, 12);
    PowAdd(256, 24, 3);
    PowAdd(256, 27, 2);
    assert Pow(256, 2) == 0x1_0000;
  }
}
