/** The number that the formatter writes, as the parser sees it (units/src/amount.rs). */
module AmountNumeral {
  import opened Arith
  import opened Decimal
  import opened Radix
  import opened AmountParse
  import Fmt = AmountFormat

  // ---- digit strings ----

  lemma {:induction false} ValueConcat(s: string, t: string)
    requires AllDigits(s) && AllDigits(t)
    ensures AllDigits(s + t) && Value(s + t) == Value(s) * Pow(10, |t|) + Value(t)
    decreases |t|
  {
    if t == "" {
      assert s + t == s;
    } else {
      var t' := t[..|t| - 1];
      ValueConcat(s, t');
      assert s + t == (s + t') + [t[|t| - 1]];
      ValueAppend(s + t', t[|t| - 1]);
      Horner(Value(s), Pow(10, |t'|), Value(t'), 10, DigitVal(t[|t| - 1]));
    }
  }

  lemma {:induction false} ZerosValue(n: nat)
    ensures AllDigits(Repeat('0', n)) && Value(Repeat('0', n)) == 0
  {
    ZeroValue(Repeat('0', n));
  }

  lemma {:induction false} LeadingZeros(n: nat, s: string)
    requires AllDigits(s)
    ensures AllDigits(Repeat('0', n) + s) && Value(Repeat('0', n) + s) == Value(s)
  {
    ZerosValue(n);
    ValueConcat(Repeat('0', n), s);
  }

  lemma {:induction false} ShiftedValue(s: string, n: nat)
    requires AllDigits(s)
    ensures AllDigits(s + Repeat('0', n)) && Value(s + Repeat('0', n)) == Value(s) * Pow(10, n)
  {
    ZerosValue(n);
    ValueConcat(s, Repeat('0', n));
  }

  // ---- the written number as a numeral ----

  function WholeText(z: nat, parts: Fmt.Parts): (w: string)
  {
    Repeat('0', z) + (Text(parts.before) + Repeat('0', parts.exp))
  }

  function FracText(parts: Fmt.Parts): (f: string)
  {
    (if parts.nbDecimals > 0 then Fmt.ZeroPadded(parts.after, parts.nbDecimals) else "") + Repeat('0', parts.trailing)
  }

  lemma {:induction false} WholeTextValue(z: nat, parts: Fmt.Parts)
    ensures AllDigits(WholeText(z, parts)) && Value(WholeText(z, parts)) == parts.before * Pow(10, parts.exp)
  {
    ShiftedValue(Text(parts.before), parts.exp);
    LeadingZeros(z, Text(parts.before) + Repeat('0', parts.exp));
  }

  lemma {:induction false} WholeTextUnshifted(z: nat, parts: Fmt.Parts)
    requires parts.exp == 0
    ensures AllDigits(WholeText(z, parts)) && Value(WholeText(z, parts)) == parts.before
  {
    WholeTextValue(z, parts);
    assert Pow(10, 0) == 1;
  }

  lemma {:induction false} FracTextValue(parts: Fmt.Parts)
    requires parts.after < Pow(10, parts.nbDecimals)
    ensures AllDigits(FracText(parts)) && Value(FracText(parts)) == parts.after * Pow(10, parts.trailing)
    ensures |FracText(parts)| == parts.TotalDecimals()
  {
    var nb, t := parts.nbDecimals, Text(parts.after);
    var d := if nb > 0 then Fmt.ZeroPadded(parts.after, nb) else "";
    if nb > 0 {
      Fmt.PaddedLength(parts.after, nb);
      if |t| < nb { LeadingZeros(nb - |t|, t); }
    }
    ShiftedValue(d, parts.trailing);
  }

  lemma {:induction false} Splits(t: string, w: string, dot: string, f: string)
    requires AllDigits(w) && t == w + dot + f
    requires dot == "." || (dot == "" && f == "")
    ensures Whole(t) == w && Frac(t) == f
  {
    assert t[..|w|] == w;
    FindAt(t, '.', |w|);
    if dot == "." { assert t[|w| + 1..] == f; }
  }

  // ---- what it is worth ----

  /** The parts stand for the amount in units of 10^k. */
  ghost predicate Represents(parts: Fmt.Parts, k: nat, satoshi: nat)
  {
    && parts.exp == 0 && parts.nbDecimals <= k && parts.after < Pow(10, parts.nbDecimals)
    && (parts.before * Pow(10, parts.nbDecimals) + parts.after) * Pow(10, k - parts.nbDecimals) == satoshi
  }

  lemma {:induction false} FractionalValue(satoshi: nat, k: nat, wanted: nat)
    ensures var parts := Fmt.Fractional(satoshi, k, wanted);
      Represents(parts, k, satoshi) && (parts.TotalDecimals() <= k <==> wanted <= k)
  {
    var parts := Fmt.Fractional(satoshi, k, wanted);
    var nb := parts.nbDecimals;
    assert Pow(10, 0) == 1;
    PowAdd(10, nb, k - nb);
    Rescaled(parts.before, Pow(10, nb), parts.after, Pow(10, k - nb));
  }

  lemma {:induction false} Rescaled(b: nat, x: nat, a: nat, y: nat)
    ensures (b * x + a) * y == b * (x * y) + a * y
  {}

  /** Trailing zeros added and then divided out again. */
  lemma {:induction false} DecimalsKeepValue(b: nat, a: nat, nb: nat, tr: nat, k: nat)
    requires nb + tr <= k
    ensures (b * Pow(10, nb + tr) + a * Pow(10, tr)) * Pow(10, k - (nb + tr)) == (b * Pow(10, nb) + a) * Pow(10, k - nb)
  {
    var x, y, rest := Pow(10, nb), Pow(10, tr), Pow(10, k - (nb + tr));
    PowAdd(10, nb, tr);
    PowAdd(10, tr, k - (nb + tr));
    Rescaled(b, x, a, y);
    MulAssoc(b * x + a, y, rest);
  }

  lemma {:induction false} FractionalDecimal(z: nat, parts: Fmt.Parts, k: nat, satoshi: nat)
    requires Represents(parts, k, satoshi) && parts.TotalDecimals() <= k
    ensures var (w, f) := (WholeText(z, parts), FracText(parts));
      AllDigits(w) && AllDigits(f) && |f| <= k && DecimalValue(w, f, k) == satoshi
  {
    WholeTextUnshifted(z, parts);
    FracTextValue(parts);
    DecimalOf(WholeText(z, parts), FracText(parts), parts, k, satoshi);
  }

  lemma {:induction false} DecimalOf(w: string, f: string, parts: Fmt.Parts, k: nat, satoshi: nat)
    requires AllDigits(w) && AllDigits(f) && |f| == parts.TotalDecimals() <= k && Represents(parts, k, satoshi)
    requires Value(w) == parts.before && Value(f) == parts.after * Pow(10, parts.trailing)
    ensures DecimalValue(w, f, k) == satoshi
  {
    ValueConcat(w, f);
    DecimalsKeepValue(parts.before, parts.after, parts.nbDecimals, parts.trailing, k);
  }

  lemma {:induction false} SameMultiple(a: nat, b: nat, d: nat)
    requires d > 0
    ensures a * d == b * d <==> a == b
    ensures b * d == 0 <==> b == 0
  {}
}
