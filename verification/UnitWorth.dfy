/** What a unit is worth, read from its name: the letter in front divides, the rest says how many
    satoshis (units/src/amount.rs). */
module UnitWorth {
  import opened Wrappers
  import opened Arith
  import opened Radix
  import opened Decimal
  import opened Denominations
  import opened AmountParse
  import opened AmountNumeral
  import opened AmountFill
  import opened AmountRoundTrip
  import Fmt = AmountFormat

  // ---- names ----

  /** The decimal places by which a prefix divides: centi, milli, micro, nano, pico. */
  function Places(prefix: string): (e: nat)
  {
    if prefix == "c" then 2
    else if prefix == "m" then 3
    else if prefix == "u" then 6
    else if prefix == "n" then 9
    else if prefix == "p" then 12
    else 0
  }

  /** A coin is 10^8 satoshis, a bit is 10^2. */
  function Zeros(name: string): (b: nat)
  {
    if name == "BTC" then 8 else if name == "bits" then 2 else 0
  }

  /** The unit is 10^b satoshis divided by 10^e, as its name says. */
  predicate Named(d: Denomination, b: nat, e: nat)
  {
    Prefix(d) <= AsStr(d) && e == Places(Prefix(d)) && b == Zeros(AsStr(d)[|Prefix(d)|..])
  }

  lemma {:induction false} NameDecides(d: Denomination) returns (b: nat, e: nat)
    ensures Named(d, b, e) && Precision(d) == e - b
  {
    b := Zeros(AsStr(d)[|Prefix(d)|..]);
    e := Places(Prefix(d));
    var name := AsStr(d)[|Prefix(d)|..];
    match d
    case Bitcoin => assert name == "BTC";
    case Bit => assert name == "bits";
    case Satoshi => assert name[0] == 's';
    case MilliSatoshi => assert name[0] == 's';
    case _ => assert name == "BTC";
  }

  // ---- the rational value ----

  /** w.f units of 10^b / 10^e satoshis are v satoshis: w.f * 10^b = v * 10^e, without the point. */
  predicate Amounts(w: string, f: string, b: nat, e: nat, v: nat)
    requires AllDigits(w + f)
  {
    Value(w + f) * Pow(10, b) == v * Pow(10, |f| + e)
  }

  lemma {:induction false} DecimalAmounts(w: string, f: string, b: nat, e: nat, v: nat)
    requires AllDigits(w) && AllDigits(f) && |f| + e <= b
    ensures AllDigits(w + f) && (v == DecimalValue(w, f, b - e) <==> Amounts(w, f, b, e, v))
  {
    var x, y := Pow(10, |f| + e), Pow(10, b - e - |f|);
    PowAdd(10, b - e - |f|, |f| + e);
    MulAssoc(Value(w + f), y, x);
    SameMultiple(v, Value(w + f) * y, x);
  }

  lemma {:induction false} WholeAmounts(w: string, f: string, b: nat, p: nat, v: nat)
    requires AllDigits(w) && AllDigits(f)
    ensures AllDigits(w + f)
    ensures Value(w) == v * Pow(10, p) && Value(f) == 0 <==> Amounts(w, f, b, b + p, v)
  {
    var x, z := Pow(10, |f|), Pow(10, b);
    ValueConcat(w, f);
    ValueBound(f);
    PowAdd(10, |f|, b + p);
    PowAdd(10, p, b);
    WholeProducts(Value(w), Value(f), x, z, Pow(10, p), v);
  }

  lemma {:induction false} ValueBound(s: string)
    requires AllDigits(s)
    ensures Value(s) < Pow(10, |s|)
  {
    if s != "" { ValueBound(s[..|s| - 1]); }
  }

  lemma {:induction false} WholeProducts(w: nat, f: nat, x: nat, z: nat, y: nat, v: nat)
    requires f < x && z > 0
    ensures w == v * y && f == 0 <==> (w * x + f) * z == v * (x * (y * z))
  {
    assert v * (x * (y * z)) == ((v * y) * x) * z;
    SameMultiple(w * x + f, (v * y) * x, z);
    if w * x + f == (v * y) * x {
      DivModUnique(w * x + f, x, w, f);
      DivModUnique((v * y) * x, x, v * y, 0);
    }
  }

  // ---- reading ----

  /** Enough room for the number: decimals down to the satoshi, or digits down to it. */
  predicate Holds(w: string, f: string, b: nat, e: nat)
  {
    if e < b then |f| + e <= b else |w| + b > e
  }

  /** For every unit, text and number: the text is worth that many satoshis exactly when the fraction it
      spells, times the satoshis that the unit's name promises, is that number. */
  lemma {:induction false} WorthIff(s: string, d: Denomination, v: nat, b: nat, e: nat)
    requires Named(d, b, e)
    ensures Worth(s, d, v) <==>
      || (IsNumeral(s) && Holds(Whole(s), Frac(s), b, e) && AllDigits(Whole(s) + Frac(s))
        && Amounts(Whole(s), Frac(s), b, e, v))
      || (SignedZero(s) && e >= b && |s| + b <= e && v == 0)
  {
    var b', e' := NameDecides(d);
    if IsNumeral(s) { NumeralWorth(Whole(s), Frac(s), b, e, v); }
  }

  lemma {:induction false} NumeralWorth(w: string, f: string, b: nat, e: nat, v: nat)
    requires AllDigits(w) && AllDigits(f)
    ensures AllDigits(w + f)
    ensures e < b && |f| + e <= b ==> (v == DecimalValue(w, f, b - e) <==> Amounts(w, f, b, e, v))
    ensures e >= b ==> (Value(w) == v * Pow(10, e - b) && Value(f) == 0 <==> Amounts(w, f, b, e, v))
  {
    if e < b {
      if |f| + e <= b { DecimalAmounts(w, f, b, e, v); }
    } else {
      WholeAmounts(w, f, b, e - b, v);
    }
  }

  /** The parser, by the same measure. */
  lemma {:induction false} ParsedIff(s: string, d: Denomination, neg: bool, v: nat, b: nat, e: nat)
    requires Named(d, b, e)
    ensures ParseSigned(s, d) == Ok((neg, v)) <==>
      && 0 < |s| <= 50 && s != "-" && neg == (s[0] == '-') && v < TWO64
      && var t := Unsigned(s);
        || (IsNumeral(t) && Holds(Whole(t), Frac(t), b, e) && AllDigits(Whole(t) + Frac(t))
          && Amounts(Whole(t), Frac(t), b, e, v))
        || (SignedZero(t) && e >= b && |t| + b <= e && v == 0)
  {
    AcceptedIff(s, d, neg, v);
    WorthIff(Unsigned(s), d, v, b, e);
  }

  /** One unit, or the least power of ten of it that is a satoshi. */
  lemma {:induction false} OneUnit(d: Denomination, b: nat, e: nat)
    requires Named(d, b, e)
    ensures e <= b ==> ParseSigned("1", d) == Ok((false, Pow(10, b - e)))
    ensures e >= b ==> ParseSigned("1" + Repeat('0', e - b), d) == Ok((false, 1))
  {
    NamedBounds(d, b, e);
    if e <= b {
      UnitPower(b, e);
      PowerOfTen(d, b, e, 0, Pow(10, b - e));
    }
    if e >= b { PowerOfTen(d, b, e, e - b, 1); }
  }

  lemma {:induction false} UnitPower(b: nat, e: nat)
    requires e <= b <= 8
    ensures Pow(10, b - e) * Pow(10, e) == Pow(10, b) && Pow(10, b - e) < TWO64
  {
    PowAdd(10, b - e, e);
    PowMono(10, b - e, 8);
    assert Pow(10, 8) == 100_000_000;
  }

  lemma {:induction false} NamedBounds(d: Denomination, b: nat, e: nat)
    requires Named(d, b, e)
    ensures b <= 8 && e <= b + 4
  {
    var b', e' := NameDecides(d);
  }

  lemma {:induction false} PowerOfTen(d: Denomination, b: nat, e: nat, n: nat, v: nat)
    requires Named(d, b, e) && n <= 4 && b <= 8 && n + b >= e && v * Pow(10, e) == Pow(10, n + b) && v < TWO64
    ensures ParseSigned("1" + Repeat('0', n), d) == Ok((false, v))
    ensures n == 0 ==> "1" + Repeat('0', n) == "1"
  {
    var s := "1" + Repeat('0', n);
    OneThenZeros(n);
    PowAdd(10, n, b);
    ParsedIff(s, d, false, v, b, e);
  }

  lemma {:induction false} OneThenZeros(n: nat)
    ensures var s := "1" + Repeat('0', n);
      && |s| == n + 1 && s[0] == '1' && Unsigned(s) == s && IsNumeral(s) && Whole(s) == s && Frac(s) == ""
      && s + "" == s && AllDigits(s) && Value(s) == Pow(10, n)
  {
    var s := "1" + Repeat('0', n);
    ShiftedValue("1", n);
    assert Value("1") == 1;
    assert s + "" + "" == s && s + "" == s;
    NumeralParts(s, "", "");
  }

  // ---- moving the point ----

  /** The number with its point moved n places to the left. */
  function Moved(w: string, f: string, n: nat): (s: string)
  {
    if |w| >= n then w[..|w| - n] + "." + (w[|w| - n..] + f)
    else "" + "." + (Repeat('0', n - |w|) + w + f)
  }

  /** A prefix moves the point: a number of centi-, milli- or microcoins is worth what the number with
      its point moved 2, 3 or 6 places is worth in coins. Nano- and picocoins moved into coins have
      more than eight decimals, and so are never read as coins. */
  lemma {:induction false} PointMoved(s: string, d: Denomination, v: nat)
    requires IsNumeral(s) && Prefix(d) + "BTC" == AsStr(d)
    ensures Worth(Moved(Whole(s), Frac(s), Places(Prefix(d))), Bitcoin, v) <==>
      Worth(s, d, v) && Prefix(d) != "n" && Prefix(d) != "p"
  {
    var w, f := Whole(s), Frac(s);
    var b, e := NameDecides(d);
    var b', e' := NameDecides(Bitcoin);
    CoinName(d, b);
    var w', f' := MovedParts(w, f, e);
    WorthIff(s, d, v, b, e);
    WorthIff(Moved(w, f, e), Bitcoin, v, 8, 0);
  }

  lemma {:induction false} CoinName(d: Denomination, b: nat)
    requires Prefix(d) + "BTC" == AsStr(d)
    ensures b == Zeros(AsStr(d)[|Prefix(d)|..]) ==> b == 8
    ensures Zeros(AsStr(Bitcoin)[|Prefix(Bitcoin)|..]) == 8
  {
    assert AsStr(d)[|Prefix(d)|..] == "BTC";
    assert AsStr(Bitcoin)[0..] == "BTC";
  }

  lemma {:induction false} MovedParts(w: string, f: string, n: nat) returns (w': string, f': string)
    requires AllDigits(w) && AllDigits(f)
    ensures Whole(Moved(w, f, n)) == w' && Frac(Moved(w, f, n)) == f' && IsNumeral(Moved(w, f, n))
    ensures |f'| == |f| + n && AllDigits(w' + f') && AllDigits(w + f) && Value(w' + f') == Value(w + f)
    ensures !SignedZero(Moved(w, f, n))
  {
    if |w| >= n {
      w', f' := w[..|w| - n], w[|w| - n..] + f;
      ShorterWhole(w, f, n);
    } else {
      w', f' := "", Repeat('0', n - |w|) + w + f;
      LongerFraction(w, f, n - |w|);
    }
    NumeralParts(w', ".", f');
  }

  lemma {:induction false} ShorterWhole(w: string, f: string, n: nat)
    requires AllDigits(w) && AllDigits(f) && |w| >= n
    ensures AllDigits(w[..|w| - n]) && AllDigits(w[|w| - n..] + f) && w[..|w| - n] + (w[|w| - n..] + f) == w + f
    ensures AllDigits(w + f)
  {}

  lemma {:induction false} LongerFraction(w: string, f: string, z: nat)
    requires AllDigits(w) && AllDigits(f)
    ensures var f' := Repeat('0', z) + w + f;
      AllDigits(w + f) && AllDigits(f') && "" + f' == f' && Value(f') == Value(w + f)
  {
    ValueConcat(w, f);
    LeadingZeros(z, w + f);
    assert Repeat('0', z) + w + f == Repeat('0', z) + (w + f);
  }

  // ---- writing ----

  /** The written digits without the point and without the zeros asked for. */
  lemma {:induction false} Significant(parts: Fmt.Parts, k: nat, satoshi: nat) returns (x: nat)
    requires Represents(parts, k, satoshi)
    ensures x == parts.before * Pow(10, parts.nbDecimals) + parts.after
    ensures parts.nbDecimals <= k && satoshi == x * Pow(10, k - parts.nbDecimals)
  {
    x := parts.before * Pow(10, parts.nbDecimals) + parts.after;
  }

  lemma {:induction false} NumberValue(z: nat, parts: Fmt.Parts, x: nat)
    requires parts.exp == 0 && parts.after < Pow(10, parts.nbDecimals)
    requires x == parts.before * Pow(10, parts.nbDecimals) + parts.after
    ensures var (w, f) := (WholeText(z, parts), FracText(parts));
      && AllDigits(w) && AllDigits(f) && AllDigits(w + f) && |f| == parts.nbDecimals + parts.trailing
      && Value(w + f) == x * Pow(10, parts.trailing)
  {
    WholeTextUnshifted(z, parts);
    FracTextValue(parts);
    JoinedValue(WholeText(z, parts), FracText(parts), parts.before, parts.after, parts.nbDecimals, parts.trailing, x);
  }

  lemma {:induction false} JoinedValue(w: string, f: string, before: nat, after: nat, nb: nat, tr: nat, x: nat)
    requires AllDigits(w) && AllDigits(f) && |f| == nb + tr && Value(w) == before && Value(f) == after * Pow(10, tr)
    requires x == before * Pow(10, nb) + after
    ensures AllDigits(w + f) && Value(w + f) == x * Pow(10, tr)
  {
    ValueConcat(w, f);
    PowAdd(10, nb, tr);
    Rescaled(before, Pow(10, nb), after, Pow(10, tr));
  }

  lemma {:induction false} FractionAmounts(z: nat, parts: Fmt.Parts, satoshi: nat, b: nat, e: nat)
    requires e < b && Represents(parts, b - e, satoshi)
    ensures var (w, f) := (WholeText(z, parts), FracText(parts));
      AllDigits(w) && AllDigits(f) && AllDigits(w + f) && Amounts(w, f, b, e, satoshi)
  {
    var x := Significant(parts, b - e, satoshi);
    NumberValue(z, parts, x);
    DigitsAmount(WholeText(z, parts), FracText(parts), x, parts.nbDecimals, parts.trailing, b, e, satoshi);
  }

  lemma {:induction false} DigitsAmount(
    w: string, f: string, x: nat, nb: nat, tr: nat, b: nat, e: nat, satoshi: nat)
    requires AllDigits(w + f) && Value(w + f) == x * Pow(10, tr) && |f| == nb + tr
    requires nb + e <= b && satoshi == x * Pow(10, b - e - nb)
    ensures Amounts(w, f, b, e, satoshi)
  {
    TensCancel(x, nb, tr, b, e);
  }

  lemma {:induction false} TensCancel(x: nat, nb: nat, tr: nat, b: nat, e: nat)
    requires nb + e <= b
    ensures (x * Pow(10, tr)) * Pow(10, b) == (x * Pow(10, b - e - nb)) * Pow(10, nb + tr + e)
  {
    MulAssoc(x, Pow(10, tr), Pow(10, b));
    MulAssoc(x, Pow(10, b - e - nb), Pow(10, nb + tr + e));
    PowAdd(10, tr, b);
    PowAdd(10, b - e - nb, nb + tr + e);
  }

  lemma {:induction false} IntegerAmounts(z: nat, parts: Fmt.Parts, satoshi: nat, b: nat, e: nat)
    requires e >= b && parts.nbDecimals == 0 && parts.after == 0 && parts.before == satoshi
    requires parts.exp == if satoshi > 0 then e - b else 0
    ensures var (w, f) := (WholeText(z, parts), FracText(parts));
      AllDigits(w) && AllDigits(f) && AllDigits(w + f) && Amounts(w, f, b, e, satoshi)
  {
    var (w, f) := (WholeText(z, parts), FracText(parts));
    assert Pow(10, 0) == 1;
    WholeTextValue(z, parts);
    FracTextValue(parts);
    WholeAmounts(w, f, b, e - b, satoshi);
  }

  /** The last decimal beyond those asked for is not zero. */
  lemma {:induction false} LastDecimal(satoshi: nat, k: nat, wanted: nat)
    ensures var f := FracText(Fmt.Fractional(satoshi, k, wanted));
      |f| >= wanted && (|f| > wanted ==> f[|f| - 1] != '0')
  {
    var parts := Fmt.Fractional(satoshi, k, wanted);
    var f, nb := FracText(parts), parts.nbDecimals;
    FractionalValue(satoshi, k, wanted);
    FracTextValue(parts);
    if |f| > wanted {
      assert parts.trailing == 0 && nb > 0 && parts.after % 10 != 0;
      LastOfText(parts.after);
      assert f == Fmt.ZeroPadded(parts.after, nb);
    }
  }

  lemma {:induction false} LastOfText(n: nat)
    requires n % 10 != 0
    ensures Text(n)[|Text(n)| - 1] != '0'
  {}

  lemma {:induction false} FirstOfWhole(parts: Fmt.Parts)
    requires parts.before == 0 ==> parts.exp == 0
    ensures var w := WholeText(0, parts); w == "0" || (w != "" && w[0] != '0')
  {
    var t := Text(parts.before);
    assert WholeText(0, parts) == t + Repeat('0', parts.exp);
  }

  /** The digits are the amount, with as many decimals as asked for and more only where they matter. */
  ghost predicate Faithful(w: string, f: string, satoshi: nat, wanted: nat, b: nat, e: nat)
  {
    && AllDigits(w + f) && Amounts(w, f, b, e, satoshi)
    && |f| >= wanted && (|f| > wanted ==> f[|f| - 1] != '0')
  }

  lemma {:induction false} FractionWritten(z: nat, satoshi: nat, wanted: nat, b: nat, e: nat)
    requires e < b
    ensures var parts := Fmt.Fractional(satoshi, b - e, wanted);
      parts.exp == 0 && Faithful(WholeText(z, parts), FracText(parts), satoshi, wanted, b, e)
  {
    FractionalValue(satoshi, b - e, wanted);
    FractionAmounts(z, Fmt.Fractional(satoshi, b - e, wanted), satoshi, b, e);
    LastDecimal(satoshi, b - e, wanted);
  }

  lemma {:induction false} PartsWritten(z: nat, satoshi: nat, d: Denomination, wanted: nat, b: nat, e: nat)
    requires Named(d, b, e)
    ensures var parts := Fmt.Normalise(satoshi, d, wanted);
      && Faithful(WholeText(z, parts), FracText(parts), satoshi, wanted, b, e)
      && (parts.before == 0 ==> parts.exp == 0)
  {
    var b', e' := NameDecides(d);
    if e < b {
      FractionWritten(z, satoshi, wanted, b, e);
    } else {
      IntegerAmounts(z, Fmt.Normalise(satoshi, d, wanted), satoshi, b, e);
    }
  }

  /** For every amount, unit and option set, the number written is the amount: as many decimals as asked
      for, more only down to the last one that is not zero, and no superfluous zero in front. */
  lemma {:induction false} WrittenIs(
    satoshi: nat, negative: bool, d: Denomination, showDenom: bool, options: Fmt.FormatOptions, b: nat, e: nat)
    requires Named(d, b, e)
    ensures var t := LayoutOf(satoshi, negative, d, showDenom, options);
      var wanted := Fmt.OrZero(options.precision);
      && Faithful(t.whole, t.frac, satoshi, wanted, b, e)
      && (!options.signAwareZeroPad ==> t.whole == "0" || (t.whole != "" && t.whole[0] != '0'))
  {
    var z := LayoutNumber(satoshi, negative, d, showDenom, options);
    PartsWritten(z, satoshi, d, Fmt.OrZero(options.precision), b, e);
    if z == 0 { FirstOfWhole(Fmt.Normalise(satoshi, d, Fmt.OrZero(options.precision))); }
  }

  lemma {:induction false} LayoutNumber(
    satoshi: nat, negative: bool, d: Denomination, showDenom: bool, options: Fmt.FormatOptions) returns (z: nat)
    ensures var t := LayoutOf(satoshi, negative, d, showDenom, options);
      var parts := Fmt.Normalise(satoshi, d, Fmt.OrZero(options.precision));
      t.whole == WholeText(z, parts) && t.frac == FracText(parts) && (!options.signAwareZeroPad ==> z == 0)
  {
    var parts, sign := Fmt.Normalise(satoshi, d, Fmt.OrZero(options.precision)), Fmt.Sign(negative, options);
    var pad := Fmt.Missing(options, |sign + (Fmt.NumberText(parts) + Fmt.Suffix(d, showDenom))|);
    z := if options.signAwareZeroPad then pad else 0;
  }

  // ---- the displays ----

  /** `Amount`'s Display, in coins: the decimals asked for, or else none for whole coins and eight otherwise. */
  lemma {:induction false} DisplayedDecimals(satoshi: nat, options: Fmt.FormatOptions)
    requires options.precision.None?
    ensures var t := LayoutOf(satoshi, false, Bitcoin, true, DisplayOptions(satoshi, options));
      |t.frac| == if satoshi % 100_000_000 == 0 then 0 else 8
  {
    var o := DisplayOptions(satoshi, options);
    var parts := Fmt.Normalise(satoshi, Bitcoin, Fmt.OrZero(o.precision));
    var z := LayoutNumber(satoshi, false, Bitcoin, true, o);
    assert Pow(10, 8) == 100_000_000;
    FractionalValue(satoshi, 8, Fmt.OrZero(o.precision));
    Fmt.NormalisedFits(satoshi, Bitcoin, Fmt.OrZero(o.precision));
    FracTextValue(parts);
  }

  /** The dynamic display counts in coins from one coin on, and below in satoshis. */
  lemma {:induction false} DynamicUnitIs(satoshi: nat, coin: nat)
    requires ParseSigned("1", Bitcoin) == Ok((false, coin))
    ensures DynamicUnit(satoshi) == if satoshi >= coin then Bitcoin else Satoshi
  {
    var b, e := NameDecides(Bitcoin);
    OneUnit(Bitcoin, b, e);
    assert AsStr(Bitcoin)[0..] == "BTC";
    assert Pow(10, 8) == 100_000_000;
  }
}
