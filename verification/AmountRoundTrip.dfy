/** Formatting and parsing of amounts, together (units/src/amount.rs). */
module AmountRoundTrip {
  import opened Wrappers
  import opened Arith
  import opened Radix
  import opened Decimal
  import opened Denominations
  import opened AmountParse
  import opened AmountNumeral
  import opened AmountFill
  import Fmt = AmountFormat

  // ---- the formatted text as a layout ----

  /** The digits that the formatter writes, with z zeros in front. */
  lemma {:induction false} FormatWrites(z: nat, satoshi: nat, denom: Denomination, wanted: nat)
    ensures var parts := Fmt.Normalise(satoshi, denom, wanted);
      Writes(WholeText(z, parts), FracText(parts), satoshi, denom)
  {
    var p, parts := Precision(denom), Fmt.Normalise(satoshi, denom, wanted);
    Fmt.NormalisedFits(satoshi, denom, wanted);
    if p < 0 {
      FractionalWrites(z, satoshi, denom, wanted);
    } else {
      IntegralWrites(z, satoshi, denom, wanted);
    }
  }

  lemma {:induction false} FractionalWrites(z: nat, satoshi: nat, denom: Denomination, wanted: nat)
    requires Precision(denom) < 0
    ensures var parts := Fmt.Fractional(satoshi, -Precision(denom), wanted);
      Writes(WholeText(z, parts), FracText(parts), satoshi, denom)
  {
    var k := -Precision(denom);
    FractionalValue(satoshi, k, wanted);
    if satoshi == 0 { ZeroQuotient(Pow(10, k)); }
    PartsWrite(z, Fmt.Fractional(satoshi, k, wanted), satoshi, denom);
  }

  lemma {:induction false} PartsWrite(z: nat, parts: Fmt.Parts, satoshi: nat, denom: Denomination)
    requires Precision(denom) < 0 && Represents(parts, -Precision(denom), satoshi)
    requires satoshi == 0 ==> parts.before == 0
    ensures Writes(WholeText(z, parts), FracText(parts), satoshi, denom)
  {
    PartsText(z, parts, -Precision(denom), satoshi);
  }

  lemma {:induction false} PartsText(z: nat, parts: Fmt.Parts, k: nat, satoshi: nat)
    requires Represents(parts, k, satoshi) && (satoshi == 0 ==> parts.before == 0)
    ensures var (w, f) := (WholeText(z, parts), FracText(parts));
      && AllDigits(w) && AllDigits(f) && w != "" && (satoshi == 0 ==> AllZeros(w))
      && (|f| <= k ==> DecimalValue(w, f, k) == satoshi)
  {
    WholeTextUnshifted(z, parts);
    FracTextValue(parts);
    ZeroValue(WholeText(z, parts));
    if parts.TotalDecimals() <= k { FractionalDecimal(z, parts, k, satoshi); }
  }

  lemma {:induction false} ZeroQuotient(d: nat)
    requires d > 0
    ensures Quotient(0, d) == 0
  {}

  lemma {:induction false} IntegralWrites(z: nat, satoshi: nat, denom: Denomination, wanted: nat)
    requires Precision(denom) >= 0
    ensures var parts := Fmt.Parts(satoshi, if satoshi > 0 then Precision(denom) else 0, 0, 0, wanted);
      Writes(WholeText(z, parts), FracText(parts), satoshi, denom)
  {
    var parts := Fmt.Parts(satoshi, if satoshi > 0 then Precision(denom) else 0, 0, 0, wanted);
    assert Pow(10, 0) == 1;
    WholeTextValue(z, parts);
    FracTextValue(parts);
    ZeroValue(WholeText(z, parts));
    ZeroValue(FracText(parts));
  }

  /** A sign, a number and a unit, with what is missing to the width: on the left unless the alignment
      says otherwise, or as leading zeros. Filling on the right follows the unit. */
  function LayoutWith(
    parts: Fmt.Parts, sign: string, unit: string, options: Fmt.FormatOptions, satoshi: nat, denom: Denomination)
    : (t: Layout)
  {
    var pad := Fmt.Missing(options, |sign + (Fmt.NumberText(parts) + unit)|);
    if options.signAwareZeroPad then
      Layout(options.fill, 0, 0, sign, WholeText(pad, parts), FracText(parts), satoshi, denom)
    else
      var left := if options.align == Some(Fmt.Left) then 0 else if options.align
        == Some(Fmt.Center) then pad / 2 else pad;
      Layout(options.fill, left, pad - left, sign, WholeText(0, parts), FracText(parts), satoshi, denom)
  }

  /** The layout of the formatted text. */
  function LayoutOf(satoshi: nat, negative: bool, denom: Denomination, showDenom: bool, options: Fmt.FormatOptions)
    : (t: Layout)
  {
    LayoutWith(
      Fmt.Normalise(satoshi, denom, Fmt.OrZero(options.precision)), Fmt.Sign(negative, options),
      Fmt.Suffix(denom, showDenom), options, satoshi, denom)
  }

  lemma {:induction false} LayoutValid(
    satoshi: nat, negative: bool, denom: Denomination, showDenom: bool, options: Fmt.FormatOptions)
    ensures LayoutOf(satoshi, negative, denom, showDenom, options).Valid()
    ensures LayoutOf(satoshi, negative, denom, showDenom, options).sign == "-" <==> negative
  {
    var parts, sign := Fmt.Normalise(satoshi, denom, Fmt.OrZero(options.precision)), Fmt.Sign(negative, options);
    var pad := Fmt.Missing(options, |sign + (Fmt.NumberText(parts) + Fmt.Suffix(denom, showDenom))|);
    FormatWrites(if options.signAwareZeroPad then pad else 0, satoshi, denom, Fmt.OrZero(options.precision));
  }

  lemma {:induction false} NumberOf(z: nat, parts: Fmt.Parts)
    requires parts.after < Pow(10, parts.nbDecimals)
    ensures WholeText(z, parts) + (if FracText(parts) == "" then "" else ".") + FracText(parts)
         == Repeat('0', z) + Fmt.NumberText(parts)
  {
    var decimals := if parts.nbDecimals > 0 then Fmt.ZeroPadded(parts.after, parts.nbDecimals) else "";
    FracTextValue(parts);
    NumberJoined(
      Repeat('0', z), Text(parts.before), Repeat('0', parts.exp), if FracText(parts) == "" then "" else ".",
      decimals, Repeat('0', parts.trailing));
  }

  lemma {:induction false} NumberJoined(z: string, a: string, b: string, c: string, d: string, e: string)
    ensures (z + (a + b)) + c + (d + e) == z + (a + b + c + d + e)
  {}

  lemma {:induction false} LayoutText(
    parts: Fmt.Parts, sign: string, unit: string, options: Fmt.FormatOptions, satoshi: nat, denom: Denomination)
    requires parts.after < Pow(10, parts.nbDecimals)
    ensures var t := LayoutWith(parts, sign, unit, options, satoshi, denom);
      Fmt.Surrounded(sign, Fmt.NumberText(parts) + unit, options)
        == t.(right := 0).Text() + (unit + Repeat(t.fill, t.right))
  {
    if options.signAwareZeroPad {
      ZeroLayoutText(parts, sign, unit, options, satoshi, denom);
    } else {
      FillLayoutText(parts, sign, unit, options, satoshi, denom);
    }
  }

  lemma {:induction false} ZeroLayoutText(
    parts: Fmt.Parts, sign: string, unit: string, options: Fmt.FormatOptions, satoshi: nat, denom: Denomination)
    requires parts.after < Pow(10, parts.nbDecimals) && options.signAwareZeroPad
    ensures var t := LayoutWith(parts, sign, unit, options, satoshi, denom);
      Fmt.Surrounded(sign, Fmt.NumberText(parts) + unit, options)
        == t.(right := 0).Text() + (unit + Repeat(t.fill, t.right))
  {
    var number := Fmt.NumberText(parts);
    var pad := Fmt.Missing(options, |sign + (number + unit)|);
    NumberOf(pad, parts);
    assert Repeat(options.fill, 0) == [];
    ZerosInside(sign, Repeat('0', pad), number, unit);
  }

  lemma {:induction false} FillLayoutText(
    parts: Fmt.Parts, sign: string, unit: string, options: Fmt.FormatOptions, satoshi: nat, denom: Denomination)
    requires parts.after < Pow(10, parts.nbDecimals) && !options.signAwareZeroPad
    ensures var t := LayoutWith(parts, sign, unit, options, satoshi, denom);
      Fmt.Surrounded(sign, Fmt.NumberText(parts) + unit, options)
        == t.(right := 0).Text() + (unit + Repeat(t.fill, t.right))
  {
    var t := LayoutWith(parts, sign, unit, options, satoshi, denom);
    NumberOf(0, parts);
    assert Repeat(options.fill, 0) == [] && Repeat('0', 0) == [];
    FillOutside(Repeat(t.fill, t.left), sign, Fmt.NumberText(parts), unit, Repeat(t.fill, t.right));
  }

  lemma {:induction false} ZerosInside(sign: string, zeros: string, number: string, unit: string)
    ensures sign + zeros + (number + unit) == ([] + (sign + (zeros + number)) + []) + (unit + [])
  {}

  lemma {:induction false} FillOutside(l: string, sign: string, number: string, unit: string, r: string)
    ensures l + (sign + (number + unit)) + r == (l + (sign + ([] + number)) + []) + (unit + r)
  {}

  lemma {:induction false} FormattedLayout(
    satoshi: nat, negative: bool, denom: Denomination, showDenom: bool, options: Fmt.FormatOptions)
    ensures var t := LayoutOf(satoshi, negative, denom, showDenom, options);
      Fmt.Formatted(satoshi, negative, denom, showDenom, options)
        == t.(right := 0).Text() + (Fmt.Suffix(denom, showDenom) + Repeat(t.fill, t.right))
  {
    var wanted := Fmt.OrZero(options.precision);
    var _ := Fmt.Decompose(satoshi, negative, denom, showDenom, options);
    Fmt.NormalisedFits(satoshi, denom, wanted);
    LayoutText(
      Fmt.Normalise(satoshi, denom, wanted), Fmt.Sign(negative, options), Fmt.Suffix(denom, showDenom), options,
        satoshi, denom);
  }

  /** Without the unit, the formatted text is its layout's. */
  lemma {:induction false} ValueText(satoshi: nat, negative: bool, denom: Denomination, options: Fmt.FormatOptions)
    ensures Fmt.Formatted(satoshi, negative, denom, false, options)
         == LayoutOf(satoshi, negative, denom, false, options).Text()
  {
    FormattedLayout(satoshi, negative, denom, false, options);
    RightFill(LayoutOf(satoshi, negative, denom, false, options));
  }

  lemma {:induction false} RightFill(t: Layout)
    ensures t.(right := 0).Text() + ("" + Repeat(t.fill, t.right)) == t.Text()
  {}

  /** With the unit, it is followed by a space, the unit and the filling on the right. */
  lemma {:induction false} ShownText(satoshi: nat, negative: bool, denom: Denomination, options: Fmt.FormatOptions)
    ensures var t := LayoutOf(satoshi, negative, denom, true, options);
      Fmt.Formatted(satoshi, negative, denom, true, options)
        == t.(right := 0).Text() + " " + (AsStr(denom) + Repeat(t.fill, t.right))
  {
    var t := LayoutOf(satoshi, negative, denom, true, options);
    FormattedLayout(satoshi, negative, denom, true, options);
    UnitRegroup(t.(right := 0).Text(), AsStr(denom), Repeat(t.fill, t.right));
  }

  lemma {:induction false} UnitRegroup(text: string, name: string, tail: string)
    ensures text + ((" " + name) + tail) == text + " " + (name + tail)
  {}

  // ---- every option set, without the unit ----

  /** For every amount, unit and option set: the formatted text parses to that amount and sign exactly
      when it has at most 50 characters and its filling, padding, sign and decimals allow it. */
  lemma {:induction false} ReadBackIff(satoshi: nat, negative: bool, denom: Denomination, options: Fmt.FormatOptions)
    requires satoshi < TWO64
    ensures var s := Fmt.Formatted(satoshi, negative, denom, false, options);
      ParseSigned(s, denom) == Ok((negative, satoshi)) <==>
        |s| <= INPUT_STRING_LEN_LIMIT && Recovers(LayoutOf(satoshi, negative, denom, false, options))
  {
    var t := LayoutOf(satoshi, negative, denom, false, options);
    ValueText(satoshi, negative, denom, options);
    LayoutValid(satoshi, negative, denom, false, options);
    SeenIff(t, negative, satoshi);
    RecoversIff(t);
  }

  /** It parses to anything else exactly when the filling joins the number or stands for its sign. */
  lemma {:induction false} MisreadIff(satoshi: nat, negative: bool, denom: Denomination, options: Fmt.FormatOptions)
    requires satoshi < TWO64
    ensures var t := LayoutOf(satoshi, negative, denom, false, options);
      var s := Fmt.Formatted(satoshi, negative, denom, false, options);
      var r := ParseSigned(s, denom);
      && AllDigits(t.whole) && AllDigits(t.frac)
      && (r.Ok? && r.value != (negative, satoshi) <==> |s| <= INPUT_STRING_LEN_LIMIT && Misreads(t))
  {
    var t := LayoutOf(satoshi, negative, denom, false, options);
    ValueText(satoshi, negative, denom, options);
    LayoutValid(satoshi, negative, denom, false, options);
    MisreadText(t, negative);
  }

  lemma {:induction false} MisreadText(t: Layout, negative: bool)
    requires t.Valid() && t.satoshi < TWO64 && (t.sign == "-" <==> negative)
    ensures var r := ParseSigned(t.Text(), t.denom);
      r.Ok? && r.value != (negative, t.satoshi) <==> |t.Text()| <= INPUT_STRING_LEN_LIMIT && Misreads(t)
  {
    var r := ParseSigned(t.Text(), t.denom);
    MisreadsIff(t);
    if r.Ok? { SeenIff(t, r.value.0, r.value.1); }
    if Seen(t).Some? { SeenIff(t, MinusSeen(t), Seen(t).value); }
  }

  /** A one-digit number of satoshis with no sign and no decimals. */
  lemma {:induction false} OneDigit(satoshi: nat, options: Fmt.FormatOptions)
    requires satoshi < 10 && options.precision.None? && !options.signPlus && !options.signAwareZeroPad
    ensures var t := LayoutOf(satoshi, false, Satoshi, false, options);
      && t.sign == "" && t.frac == "" && |t.whole| == 1
      && t.left + t.right == Fmt.Missing(options, 1)
      && (options.align == Some(Fmt.Left) ==> t.left == 0) && (options.align == Some(Fmt.Right) ==> t.right == 0)
  {
    var parts := Fmt.Normalise(satoshi, Satoshi, Fmt.OrZero(options.precision));
    OneDigitParts(parts);
    assert "" + (Fmt.NumberText(parts) + "") == Fmt.NumberText(parts);
  }

  lemma {:induction false} OneDigitParts(parts: Fmt.Parts)
    requires parts.before < 10 && parts.exp == 0 && parts.nbDecimals == 0 && parts.after == 0 && parts.trailing == 0
    ensures FracText(parts) == "" && |Fmt.NumberText(parts)| == 1 && |WholeText(0, parts)| == 1
  {
    assert Pow(10, 0) == 1;
    FracTextValue(parts);
    Fmt.NumberLength(parts);
    NumberOf(0, parts);
  }

  /** Zeros filled in on the right of a whole number multiply it. */
  lemma {:induction false} ZerosAppended(t: Layout, v: nat)
    requires t.Valid() && t.fill == '0' && t.left == 0 && t.right > 0 && t.sign == "" && t.frac == ""
    requires v == t.satoshi * Pow(10, t.right) < TWO64 && |t.Text()| <= INPUT_STRING_LEN_LIMIT
    ensures ParseSigned(t.Text(), t.denom) == Ok((false, v))
  {
    SeenIff(t, false, v);
  }

  /** Five satoshis filled with zeros on the right become five hundred. */
  lemma {:induction false} FilledWithZeros(satoshi: nat, options: Fmt.FormatOptions)
    requires satoshi == 5 && options.precision.None? && !options.signPlus && !options.signAwareZeroPad
    requires options.fill == '0' && options.align == Some(Fmt.Left) && options.width == Some(3)
    ensures ParseSigned(Fmt.Formatted(satoshi, false, Satoshi, false, options), Satoshi) == Ok((false, 500))
  {
    var t := LayoutOf(satoshi, false, Satoshi, false, options);
    ValueText(satoshi, false, Satoshi, options);
    LayoutValid(satoshi, false, Satoshi, false, options);
    OneDigit(satoshi, options);
    FiveHundred(t);
  }

  lemma {:induction false} FiveHundred(t: Layout)
    requires t.Valid() && t.fill == '0' && t.left == 0 && t.right == 2 && t.sign == "" && t.frac == ""
    requires t.satoshi == 5 && |t.whole| == 1
    ensures ParseSigned(t.Text(), t.denom) == Ok((false, 500))
  {
    assert |t.Text()| == 3;
    assert Pow(10, 2) == 100;
    ZerosAppended(t, 500);
  }

  /** One minus filled in on the left is taken for the sign. */
  lemma {:induction false} MinusTaken(t: Layout)
    requires t.Valid() && t.fill == '-' && t.left == 1 && t.right == 0 && t.sign == ""
    requires t.satoshi < TWO64 && |t.Text()| <= INPUT_STRING_LEN_LIMIT && Shown(t, |t.frac|, |t.whole|)
    ensures ParseSigned(t.Text(), t.denom) == Ok((true, t.satoshi))
  {
    SeenIff(t, true, t.satoshi);
  }

  /** Filled with a minus on the left, they become minus five. */
  lemma {:induction false} FilledWithMinus(satoshi: nat, options: Fmt.FormatOptions)
    requires satoshi == 5 && options.precision.None? && !options.signPlus && !options.signAwareZeroPad
    requires options.fill == '-' && options.align == Some(Fmt.Right) && options.width == Some(2)
    ensures ParseSigned(Fmt.Formatted(satoshi, false, Satoshi, false, options), Satoshi) == Ok((true, 5))
  {
    var t := LayoutOf(satoshi, false, Satoshi, false, options);
    ValueText(satoshi, false, Satoshi, options);
    LayoutValid(satoshi, false, Satoshi, false, options);
    OneDigit(satoshi, options);
    MinusFive(t);
  }

  lemma {:induction false} MinusFive(t: Layout)
    requires t.Valid() && t.fill == '-' && t.left == 1 && t.right == 0 && t.sign == "" && t.frac == ""
    requires t.satoshi == 5 && |t.whole| == 1
    ensures ParseSigned(t.Text(), t.denom) == Ok((true, 5))
  {
    assert |t.Text()| == 2;
    MinusTaken(t);
  }

  // ---- every option set, with the unit ----

  /** The filling leaves the unit readable and the number before it is short enough. */
  predicate Shows(t: Layout)
  {
    UnitShown(t.denom, t.fill, t.right) && |t.(right := 0).Text()| <= INPUT_STRING_LEN_LIMIT
  }

  lemma {:induction false} RepeatedTail(c: char, r: nat)
    ensures Repeat(c, r) == "" <==> r == 0
    ensures Repeat(c, r) == "s" <==> r == 1 && c == 's'
  {
    if r == 1 { assert Repeat(c, r)[0] == c; }
  }

  lemma {:induction false} NoSpaceBefore(t: Layout)
    requires t.Valid() && (t.fill != ' ' || t.left == 0)
    ensures ' ' !in t.(right := 0).Text()
  {}

  /** The split finds the number and the unit, unless the filling spoils the unit or starts with a space. */
  ghost predicate SplitsAs(split: Result<(string, Denomination), ParseError>, t: Layout)
  {
    if (t.fill == ' ' && t.left > 0) || !UnitShown(t.denom, t.fill, t.right) then split.Err?
    else split == Ok((t.(right := 0).Text(), t.denom))
  }

  lemma {:induction false} ShownSplit(
    alphabetic: char -> bool, satoshi: nat, negative: bool, denom: Denomination, options: Fmt.FormatOptions)
    ensures SplitsAs(
      SplitAmount(alphabetic, Fmt.Formatted(satoshi, negative, denom, true, options)),
      LayoutOf(satoshi, negative, denom, true, options))
  {
    var t := LayoutOf(satoshi, negative, denom, true, options);
    ShownText(satoshi, negative, denom, options);
    LayoutValid(satoshi, negative, denom, true, options);
    UnitAfterwards(denom, Repeat(t.fill, t.right));
    RepeatedTail(t.fill, t.right);
    if t.fill == ' ' && t.left > 0 {
      SpaceFirst(alphabetic, t, AsStr(denom) + Repeat(t.fill, t.right));
    } else {
      NoSpaceBefore(t);
      SplitAtSpace(alphabetic, t.(right := 0).Text(), AsStr(denom) + Repeat(t.fill, t.right));
    }
  }

  lemma {:induction false} SpaceFirst(alphabetic: char -> bool, t: Layout, unit: string)
    requires t.Valid() && t.fill == ' ' && t.left > 0
    ensures SplitAmount(alphabetic, t.(right := 0).Text() + " " + unit).Err?
  {
    var t' := t.(right := 0);
    var s := t'.Text() + " " + unit;
    NumberFacts(t');
    TextChars(t');
    assert s[0] == ' ' && s[..0] == "";
    FindAt(s, ' ', 0);
    assert s[1..][0] == s[1] == t'.Text()[1];
    if Forms(s[1..]).Some? { FormLetters(s[1..]); }
  }

  lemma {:induction false} SplitParses(split: Result<(string, Denomination), ParseError>, t: Layout, n: bool, v: nat)
    requires t.Valid() && SplitsAs(split, t)
    ensures split.Ok? && ParseSigned(split.value.0, split.value.1) == Ok((n, v)) <==>
      Shows(t) && n == MinusSeen(t.(right := 0)) && Seen(t.(right := 0)) == Some(v) && v < TWO64
  {
    SeenIff(t.(right := 0), n, v);
  }

  lemma {:induction false} AmountReads(alphabetic: char -> bool, text: string, t: Layout)
    requires t.Valid() && t.satoshi < TWO64 && t.sign != "-" && SplitsAs(SplitAmount(alphabetic, text), t)
    ensures var r := AmountFromStr(alphabetic, text);
      && (r == Ok(t.satoshi) <==> Shows(t) && Recovers(t.(right := 0)))
      && (r.Ok? && r.value != t.satoshi <==> Shows(t) && t.fill != '-' && Misreads(t.(right := 0)))
  {
    var split, t', r := SplitAmount(alphabetic, text), t.(right := 0), AmountFromStr(alphabetic, text);
    RecoversIff(t');
    MisreadsIff(t');
    SplitParses(split, t, false, t.satoshi);
    if r.Ok? { SplitParses(split, t, false, r.value); }
    if Seen(t').Some? { SplitParses(split, t, false, Seen(t').value); }
    assert Misreads(t') ==> (t'.fill == '-' <==> MinusSeen(t'));
  }

  /** For every unsigned amount, unit and option set: the text with the unit reads back exactly when
      the unit stays readable and the number before it reads back. */
  lemma {:induction false} ShownReadBackIff(
    alphabetic: char -> bool, satoshi: nat, denom: Denomination, options: Fmt.FormatOptions)
    requires satoshi < TWO64
    ensures var t := LayoutOf(satoshi, false, denom, true, options);
      AmountFromStr(alphabetic, Fmt.Formatted(satoshi, false, denom, true, options)) == Ok(satoshi) <==>
        Shows(t) && Recovers(t.(right := 0))
  {
    LayoutValid(satoshi, false, denom, true, options);
    ShownSplit(alphabetic, satoshi, false, denom, options);
    AmountReads(
      alphabetic, Fmt.Formatted(satoshi, false, denom, true, options), LayoutOf(satoshi, false, denom, true, options));
  }

  /** It reads as another amount exactly when the number before the unit does, other than as a negative one. */
  lemma {:induction false} ShownMisreadIff(
    alphabetic: char -> bool, satoshi: nat, denom: Denomination, options: Fmt.FormatOptions)
    requires satoshi < TWO64
    ensures var t := LayoutOf(satoshi, false, denom, true, options);
      var r := AmountFromStr(alphabetic, Fmt.Formatted(satoshi, false, denom, true, options));
      && AllDigits(t.whole) && AllDigits(t.frac)
      && (r.Ok? && r.value != satoshi <==> Shows(t) && t.fill != '-' && Misreads(t.(right := 0)))
  {
    LayoutValid(satoshi, false, denom, true, options);
    ShownSplit(alphabetic, satoshi, false, denom, options);
    AmountReads(
      alphabetic, Fmt.Formatted(satoshi, false, denom, true, options), LayoutOf(satoshi, false, denom, true, options));
  }

  function Abs(x: int): (a: nat)
  {
    if x < 0 then -x else x
  }

  lemma {:induction false} SignedRange(s: string, denom: Denomination, x: int)
    requires I64_MIN <= x <= I64_MAX
    ensures SignedFromStrIn(s, denom) == Ok(x) <==>
      ParseSigned(s, denom) == Ok((x < 0, Abs(x))) || (x == 0 && ParseSigned(s, denom) == Ok((true, 0)))
  {
    ToSignedIs(ParseSigned(s, denom), x);
  }

  lemma {:induction false} ToSignedIs(r: Result<(bool, nat), InnerError>, x: int)
    requires I64_MIN <= x <= I64_MAX
    ensures ToSigned(r) == Ok(x) <==> r == Ok((x < 0, Abs(x))) || (x == 0 && r == Ok((true, 0)))
  {}

  lemma {:induction false} SignedOf(alphabetic: char -> bool, text: string, x: int)
    requires I64_MIN <= x <= I64_MAX
    ensures var split := SplitAmount(alphabetic, text);
      SignedFromStr(alphabetic, text) == Ok(x) <==>
        split.Ok? && (ParseSigned(split.value.0, split.value.1) == Ok((x < 0, Abs(x)))
          || (x == 0 && ParseSigned(split.value.0, split.value.1) == Ok((true, 0))))
  {
    var split := SplitAmount(alphabetic, text);
    if split.Ok? { SignedRange(split.value.0, split.value.1, x); }
  }

  /** The same for every signed amount; zero may also come back as minus zero. */
  lemma {:induction false} SignedShownReadBackIff(
    alphabetic: char -> bool, x: int, denom: Denomination, options: Fmt.FormatOptions)
    requires I64_MIN <= x <= I64_MAX
    ensures var t := LayoutOf(Abs(x), x < 0, denom, true, options);
      && AllDigits(t.whole) && AllDigits(t.frac)
      && (SignedFromStr(alphabetic, Fmt.Formatted(Abs(x), x < 0, denom, true, options)) == Ok(x) <==>
        Shows(t) && (Recovers(t.(right := 0)) || (x == 0 && t.fill == '-' && Misreads(t.(right := 0)))))
  {
    LayoutValid(Abs(x), x < 0, denom, true, options);
    ShownSplit(alphabetic, Abs(x), x < 0, denom, options);
    SignedReads(
      alphabetic, Fmt.Formatted(Abs(x), x < 0, denom, true, options), LayoutOf(Abs(x), x < 0, denom, true, options), x);
  }

  lemma {:induction false} SignedReads(alphabetic: char -> bool, text: string, t: Layout, x: int)
    requires t.Valid() && I64_MIN <= x <= I64_MAX && t.satoshi == Abs(x) && (t.sign == "-" <==> x < 0)
    requires SplitsAs(SplitAmount(alphabetic, text), t)
    ensures var t' := t.(right := 0);
      SignedFromStr(alphabetic, text) == Ok(x) <==>
        Shows(t) && (Recovers(t') || (x == 0 && t.fill == '-' && Misreads(t')))
  {
    var split, t' := SplitAmount(alphabetic, text), t.(right := 0);
    SignedOf(alphabetic, text, x);
    SplitParses(split, t, x < 0, Abs(x));
    SplitParses(split, t, true, 0);
    RecoversIff(t');
    if x == 0 { MinusZero(t'); }
  }

  /** The amount that a sign and a number of satoshis make, if it is an i64. */
  predicate InRange(n: bool, v: nat)
  {
    if n then v <= -I64_MIN else v <= I64_MAX
  }

  lemma {:induction false} SignedResult(alphabetic: char -> bool, text: string, n: bool, v: nat)
    requires var split := SplitAmount(alphabetic, text);
      split.Ok? && ParseSigned(split.value.0, split.value.1) == Ok((n, v))
    ensures var r := SignedFromStr(alphabetic, text);
      if InRange(n, v) then r == Ok(if n then -(v as int) else v) else r.Err?
  {
    ToSignedIn(n, v);
  }

  lemma {:induction false} ToSignedIn(n: bool, v: nat)
    ensures ToSigned(Ok((n, v))).Ok? <==> InRange(n, v)
    ensures InRange(n, v) ==> ToSigned(Ok((n, v))) == Ok(if n then -(v as int) else v)
  {}

  lemma {:induction false} SignedMisreads(alphabetic: char -> bool, text: string, t: Layout, x: int)
    requires t.Valid() && I64_MIN <= x <= I64_MAX && t.satoshi == Abs(x) && (t.sign == "-" <==> x < 0)
    requires SplitsAs(SplitAmount(alphabetic, text), t)
    ensures var r, t' := SignedFromStr(alphabetic, text), t.(right := 0);
      r.Ok? && r.value != x <==>
        && Shows(t) && Misreads(t') && !(x == 0 && t.fill == '-')
        && Seen(t').Some? && InRange(MinusSeen(t'), Seen(t').value)
  {
    var split, t' := SplitAmount(alphabetic, text), t.(right := 0);
    MisreadsIff(t');
    if x == 0 { MinusZero(t'); }
    if split.Ok? && ParseSigned(split.value.0, split.value.1).Ok? {
      var (n, v) := ParseSigned(split.value.0, split.value.1).value;
      SplitParses(split, t, n, v);
      SignedResult(alphabetic, text, n, v);
    } else if Seen(t').Some? {
      SplitParses(split, t, MinusSeen(t'), Seen(t').value);
    }
  }

  /** A signed amount with the unit shown reads as another amount exactly when the number before the
      unit misreads as an i64; minus zero is zero. */
  lemma {:induction false} SignedShownMisreadIff(
    alphabetic: char -> bool, x: int, denom: Denomination, options: Fmt.FormatOptions)
    requires I64_MIN <= x <= I64_MAX
    ensures var t := LayoutOf(Abs(x), x < 0, denom, true, options);
      var r, t' := SignedFromStr(alphabetic, Fmt.Formatted(Abs(x), x < 0, denom, true, options)), t.(right := 0);
      && AllDigits(t.whole) && AllDigits(t.frac)
      && (r.Ok? && r.value != x <==>
        && Shows(t) && Misreads(t') && !(x == 0 && t.fill == '-')
        && Seen(t').Some? && InRange(MinusSeen(t'), Seen(t').value))
  {
    LayoutValid(Abs(x), x < 0, denom, true, options);
    ShownSplit(alphabetic, Abs(x), x < 0, denom, options);
    SignedMisreads(
      alphabetic, Fmt.Formatted(Abs(x), x < 0, denom, true, options), LayoutOf(Abs(x), x < 0, denom, true, options), x);
  }

  lemma {:induction false} MinusZero(t: Layout)
    requires t.Valid() && t.satoshi == 0 && t.sign != "-" && t.right == 0
    ensures MinusSeen(t) && Seen(t) == Some(0) <==> t.fill == '-' && Misreads(t)
  {}

  // ---- without padding ----

  /** No width, no plus sign and no more decimals than the unit has: everything reads back. */
  lemma {:induction false} UnpaddedRecovers(
    satoshi: nat, negative: bool, denom: Denomination, showDenom: bool, options: Fmt.FormatOptions)
    requires satoshi < TWO64 && options.width.None? && (!options.signPlus || negative)
    requires var wanted := Fmt.OrZero(options.precision);
      wanted == 0 || (wanted <= -Precision(denom))
    ensures var t := LayoutOf(satoshi, negative, denom, showDenom, options);
      t.left == 0 && t.right == 0 && Recovers(t) && |t.Text()| <= INPUT_STRING_LEN_LIMIT
  {
    var wanted := Fmt.OrZero(options.precision);
    Fmt.NormalisedFits(satoshi, denom, wanted);
    PartsBound(satoshi, denom, wanted);
    UnpaddedLayout(
      Fmt.Normalise(satoshi, denom, wanted), Fmt.Sign(negative, options), Fmt.Suffix(denom, showDenom), options,
      satoshi, denom);
  }

  lemma {:induction false} UnpaddedLayout(
    parts: Fmt.Parts, sign: string, unit: string, options: Fmt.FormatOptions, satoshi: nat, denom: Denomination)
    requires options.width.None? && (sign == "" || sign == "-") && parts.after < Pow(10, parts.nbDecimals)
    requires Fmt.DecWidth(parts.before) <= 20 && parts.exp <= 4 && parts.TotalDecimals() <= 8
    requires if Precision(denom) < 0 then parts.TotalDecimals() <= -Precision(denom) else parts.TotalDecimals() == 0
    ensures var t := LayoutWith(parts, sign, unit, options, satoshi, denom);
      t.left == 0 && t.right == 0 && Recovers(t) && |t.Text()| <= INPUT_STRING_LEN_LIMIT
  {
    FracTextValue(parts);
    NumberOf(0, parts);
    Fmt.NumberLength(parts);
    assert Repeat('0', 0) + Fmt.NumberText(parts) == Fmt.NumberText(parts);
    NothingMissing(parts, sign, unit, options, satoshi, denom);
    PlainRecovers(LayoutWith(parts, sign, unit, options, satoshi, denom));
  }

  lemma {:induction false} NothingMissing(
    parts: Fmt.Parts, sign: string, unit: string, options: Fmt.FormatOptions, satoshi: nat, denom: Denomination)
    requires options.width.None?
    ensures LayoutWith(parts, sign, unit, options, satoshi, denom)
         == Layout(options.fill, 0, 0, sign, WholeText(0, parts), FracText(parts), satoshi, denom)
  {}

  lemma {:induction false} PlainRecovers(t: Layout)
    requires t.left == 0 && t.right == 0 && (t.sign == "" || t.sign == "-")
    requires if Precision(t.denom) < 0 then |t.frac| <= -Precision(t.denom) else |t.frac| == 0
    ensures Recovers(t) && |t.Text()| == |t.sign| + |t.Number()|
  {}

  lemma {:induction false} PartsBound(satoshi: nat, denom: Denomination, wanted: nat)
    requires satoshi < TWO64 && (wanted == 0 || wanted <= -Precision(denom))
    ensures var parts := Fmt.Normalise(satoshi, denom, wanted);
      && Fmt.DecWidth(parts.before) <= 20 && parts.exp <= 4 && parts.TotalDecimals() <= 8
      && (if Precision(denom) < 0 then parts.TotalDecimals() <= -Precision(denom) else parts.TotalDecimals() == 0)
  {
    var parts := Fmt.Normalise(satoshi, denom, wanted);
    if Precision(denom) < 0 {
      FractionalValue(satoshi, -Precision(denom), wanted);
      PartBelowWhole(satoshi, Pow(10, -Precision(denom)));
    }
    TwentyDigits(parts.before, 20);
  }

  lemma {:induction false} PartBelowWhole(n: nat, d: nat)
    requires d > 0
    ensures Quotient(n, d) <= n
  {
    ProductGrows(Quotient(n, d), d);
    var r := Remainder(n, d);
  }

  lemma {:induction false} TwentyDigits(n: nat, k: nat)
    requires n < TWO64 && k == 20
    ensures Fmt.DecWidth(n) <= 20
  {
    assert Pow(10, 5) == 100_000;
    PowAdd(10, 5, 5);
    PowAdd(10, 10, 10);
    Fmt.DecWidthBound(n, k);
  }

  /** The default text: what `fmt_value_in` writes. */
  function ToStringIn(satoshi: nat, negative: bool, denom: Denomination): (s: string)
  {
    Fmt.Formatted(satoshi, negative, denom, false, Fmt.DEFAULT)
  }

  function ToStringWithDenomination(satoshi: nat, negative: bool, denom: Denomination): (s: string)
  {
    ToStringIn(satoshi, negative, denom) + " " + AsStr(denom)
  }

  lemma {:induction false} DefaultRoundTrip(satoshi: nat, negative: bool, denom: Denomination)
    requires satoshi < TWO64
    ensures ParseSigned(ToStringIn(satoshi, negative, denom), denom) == Ok((negative, satoshi))
    ensures ' ' !in ToStringIn(satoshi, negative, denom)
  {
    UnpaddedRecovers(satoshi, negative, denom, false, Fmt.DEFAULT);
    ReadBackIff(satoshi, negative, denom, Fmt.DEFAULT);
    ValueText(satoshi, negative, denom, Fmt.DEFAULT);
    LayoutValid(satoshi, negative, denom, false, Fmt.DEFAULT);
    NoSpaceBefore(LayoutOf(satoshi, negative, denom, false, Fmt.DEFAULT));
  }

  /** Every u64 amount survives its default text in every unit, bare and with the unit's name. */
  lemma {:induction false} AmountRoundTrips(alphabetic: char -> bool, satoshi: nat, denom: Denomination)
    requires satoshi < TWO64
    ensures AmountFromStrIn(ToStringIn(satoshi, false, denom), denom) == Ok(satoshi)
    ensures AmountFromStr(alphabetic, ToStringWithDenomination(satoshi, false, denom)) == Ok(satoshi)
  {
    DefaultRoundTrip(satoshi, false, denom);
    NameRoundTrip(denom);
    SplitAtSpace(alphabetic, ToStringIn(satoshi, false, denom), AsStr(denom));
  }

  /** Every i64 amount does, the least one included. */
  lemma {:induction false} SignedRoundTrips(alphabetic: char -> bool, x: int, denom: Denomination)
    requires -0x8000_0000_0000_0000 <= x < 0x8000_0000_0000_0000
    ensures SignedFromStrIn(ToStringIn(Abs(x), x < 0, denom), denom) == Ok(x)
    ensures SignedFromStr(alphabetic, ToStringWithDenomination(Abs(x), x < 0, denom)) == Ok(x)
  {
    DefaultRoundTrip(Abs(x), x < 0, denom);
    SignedRange(ToStringIn(Abs(x), x < 0, denom), denom, x);
    NameRoundTrip(denom);
    SplitAtSpace(alphabetic, ToStringIn(Abs(x), x < 0, denom), AsStr(denom));
  }

  // ---- the displays ----

  const ONE_BTC: nat := 100_000_000

  /** The options that `Amount`'s Display passes on: eight decimals unless the amount is a whole number
      of bitcoins or a precision was asked for. */
  function DisplayOptions(satoshi: nat, options: Fmt.FormatOptions): (o: Fmt.FormatOptions)
  {
    if options.precision.None? && satoshi % ONE_BTC != 0 then options.(precision := Some(8)) else options
  }

  function DisplayAmount(satoshi: nat, options: Fmt.FormatOptions): (s: string)
  {
    Fmt.Formatted(satoshi, false, Bitcoin, true, DisplayOptions(satoshi, options))
  }

  /** A displayed amount reads back exactly as its layout says, whatever the options; without a width
      and a plus sign it does whenever at most eight decimals are asked for. */
  lemma {:induction false} DisplayRoundTrip(alphabetic: char -> bool, satoshi: nat, options: Fmt.FormatOptions)
    requires satoshi < TWO64
    ensures var t := LayoutOf(satoshi, false, Bitcoin, true, DisplayOptions(satoshi, options));
      AmountFromStr(alphabetic, DisplayAmount(satoshi, options)) == Ok(satoshi) <==>
        Shows(t) && Recovers(t.(right := 0))
    ensures options.width.None? && !options.signPlus && Fmt.OrZero(options.precision) <= 8 ==>
      AmountFromStr(alphabetic, DisplayAmount(satoshi, options)) == Ok(satoshi)
  {
    var o := DisplayOptions(satoshi, options);
    ShownReadBackIff(alphabetic, satoshi, Bitcoin, o);
    if options.width.None? && !options.signPlus && Fmt.OrZero(options.precision) <= 8 {
      UnpaddedRecovers(satoshi, false, Bitcoin, true, o);
    }
  }

  /** The unit that the dynamic display chooses: satoshis below one bitcoin. */
  function DynamicUnit(satoshi: nat): (d: Denomination)
  {
    if satoshi >= ONE_BTC then Bitcoin else Satoshi
  }

  /** The dynamic display of a signed amount reads back exactly as its layout says, whatever the
      options; without a width, a plus sign and a precision it always does. */
  lemma {:induction false} DynamicRoundTrip(alphabetic: char -> bool, x: int, options: Fmt.FormatOptions)
    requires I64_MIN <= x <= I64_MAX
    ensures var s := Fmt.Formatted(Abs(x), x < 0, DynamicUnit(Abs(x)), true, options);
      var t := LayoutOf(Abs(x), x < 0, DynamicUnit(Abs(x)), true, options);
      && AllDigits(t.whole) && AllDigits(t.frac)
      && (SignedFromStr(alphabetic, s) == Ok(x) <==>
        Shows(t) && (Recovers(t.(right := 0)) || (x == 0 && t.fill == '-' && Misreads(t.(right := 0)))))
      && (options.width.None? && !options.signPlus && options.precision.None? ==> SignedFromStr(alphabetic, s) == Ok(x))
  {
    SignedShownReadBackIff(alphabetic, x, DynamicUnit(Abs(x)), options);
    if options.width.None? && !options.signPlus && options.precision.None? {
      UnpaddedRecovers(Abs(x), x < 0, DynamicUnit(Abs(x)), true, options);
    }
  }

  /** So does the dynamic display of an unsigned amount. */
  lemma {:induction false} DynamicAmountRoundTrip(alphabetic: char -> bool, satoshi: nat, options: Fmt.FormatOptions)
    requires satoshi < TWO64
    ensures var s := Fmt.Formatted(satoshi, false, DynamicUnit(satoshi), true, options);
      var t := LayoutOf(satoshi, false, DynamicUnit(satoshi), true, options);
      && (AmountFromStr(alphabetic, s) == Ok(satoshi) <==> Shows(t) && Recovers(t.(right := 0)))
      && (options.width.None? && !options.signPlus && options.precision.None? ==>
        AmountFromStr(alphabetic, s) == Ok(satoshi))
  {
    ShownReadBackIff(alphabetic, satoshi, DynamicUnit(satoshi), options);
    if options.width.None? && !options.signPlus && options.precision.None? {
      UnpaddedRecovers(satoshi, false, DynamicUnit(satoshi), true, options);
    }
  }

  /** In a unit below the satoshi, zero with decimals asked for is written as 0.0 and refused. */
  lemma {:induction false} ZeroWithDecimalsRefused(denom: Denomination, options: Fmt.FormatOptions, negative: bool)
    requires Precision(denom) > 0 && Fmt.OrZero(options.precision) > 0 && options.width.None?
    ensures ParseSigned(Fmt.Formatted(0, negative, denom, false, options), denom).Err?
  {
    ValueText(0, negative, denom, options);
    LayoutValid(0, negative, denom, false, options);
    ZeroParts(denom, Fmt.OrZero(options.precision));
    ZeroRefused(LayoutOf(0, negative, denom, false, options));
  }

  lemma {:induction false} ZeroRefused(t: Layout)
    requires t.Valid() && t.left == 0 && t.right == 0 && t.satoshi == 0
    requires t.frac != "" && |t.whole| == 1 && Precision(t.denom) > 0
    ensures ParseSigned(t.Text(), t.denom).Err?
  {
    var r := ParseSigned(t.Text(), t.denom);
    ZeroNotSeen(t);
    if r.Ok? { SeenIff(t, r.value.0, r.value.1); }
  }

  lemma {:induction false} ZeroNotSeen(t: Layout)
    requires t.Valid() && t.left == 0 && t.right == 0 && t.satoshi == 0
    requires t.frac != "" && |t.whole| == 1 && Precision(t.denom) > 0
    ensures Seen(t).None?
  {}

  lemma {:induction false} ZeroParts(denom: Denomination, wanted: nat)
    requires Precision(denom) >= 0
    ensures var parts := Fmt.Normalise(0, denom, wanted);
      |FracText(parts)| == wanted && |WholeText(0, parts)| == 1
  {}
}
