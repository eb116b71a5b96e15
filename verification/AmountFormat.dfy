/** Writing satoshis as decimal text with formatting options (units/src/amount.rs). */
module AmountFormat {
  import opened Wrappers
  import opened Arith
  import opened Decimal
  import opened Denominations
  import opened Radix

  datatype Alignment = Left | Right | Center

  datatype FormatOptions = FormatOptions(
    fill: char,
    align: Option<Alignment>,
    width: Option<nat>,
    precision: Option<nat>,
    signPlus: bool,
    signAwareZeroPad: bool)

  const DEFAULT: FormatOptions := FormatOptions(' ', None, None, None, false, false)

  function OrZero(o: Option<nat>): (n: nat)
  {
    if o.Some? then o.value else 0
  }

  // ---- the number, normalised ----

  /** before, then exp zeros, then nbDecimals digits of after, then trailing zeros. */
  datatype Parts = Parts(before: nat, exp: nat, nbDecimals: nat, after: nat, trailing: nat)
  {
    function TotalDecimals(): (n: nat)
    {
      nbDecimals + trailing
    }
  }

  /** Drops the trailing decimal zeros of after, counting the digits left. */
  function Strip(after: nat, nb: nat): (r: (nat, nat))
    requires 0 < after < Pow(10, nb)
    ensures r.1 <= nb && 0 < r.0 < Pow(10, r.1) && r.0 % 10 != 0
    ensures r.0 * Pow(10, nb - r.1) == after
    decreases nb
  {
    if after % 10 != 0 then (after, nb)
    else
      StripStep(after, nb);
      var r := Strip(after / 10, nb - 1);
      MulAssoc(r.0, Pow(10, nb - 1 - r.1), 10);
      r
  }

  lemma {:induction false} StripStep(after: nat, nb: nat)
    requires 0 < after < Pow(10, nb) && after % 10 == 0
    ensures nb > 0 && 0 < after / 10 < Pow(10, nb - 1)
  {}

  /** Units of 10^k satoshis: a quotient, and the remainder as stripped decimals. */
  function Fractional(satoshi: nat, k: nat, wanted: nat): (parts: Parts)
  {
    var divisor := Pow(10, k);
    var before, after := Quotient(satoshi, divisor), Remainder(satoshi, divisor);
    var (stripped, nb) := if after == 0 then (0, 0) else Strip(after, k);
    Parts(before, 0, nb, stripped, if wanted > nb then wanted - nb else 0)
  }

  function Normalise(satoshi: nat, denom: Denomination, wanted: nat): (parts: Parts)
  {
    var p := Precision(denom);
    if p >= 0 then Parts(satoshi, if satoshi > 0 then p else 0, 0, 0, wanted)
    else Fractional(satoshi, -p, wanted)
  }

  // ---- the text ----

  /** A number padded with zeros on the left to the given width. */
  function ZeroPadded(n: nat, width: nat): (s: string)
  {
    var t := Text(n);
    if |t| < width then Repeat('0', width - |t|) + t else t
  }

  function NumberText(parts: Parts): (s: string)
  {
    Text(parts.before) + Repeat('0', parts.exp)
    + (if parts.TotalDecimals() > 0 then "." else "")
    + (if parts.nbDecimals > 0 then ZeroPadded(parts.after, parts.nbDecimals) else "")
    + Repeat('0', parts.trailing)
  }

  function Suffix(denom: Denomination, showDenom: bool): (s: string)
  {
    if showDenom then " " + AsStr(denom) else ""
  }

  function Sign(negative: bool, options: FormatOptions): (s: string)
  {
    if negative then "-" else if options.signPlus then "+" else ""
  }

  function NumWidth(
      parts: Parts, negative: bool, denom: Denomination, showDenom: bool, options: FormatOptions)
      : (n: nat)
  {
    (if parts.TotalDecimals() > 0 then 1 + parts.TotalDecimals() else 0)
    + DecWidth(parts.before) + parts.exp
    + (if options.signPlus || negative then 1 else 0)
    + (if showDenom then |AsStr(denom)| + 1 else 0)
  }

  function DecWidth(num: nat): (w: nat)
  {
    if num / 10 == 0 then 1 else DecWidth(num / 10) + 1
  }

  /** Padding on the left and on the right. */
  function Padding(numWidth: nat, options: FormatOptions): (pad: (nat, nat))
    ensures pad.0 + pad.1 == if numWidth < OrZero(options.width) then OrZero(options.width) - numWidth else 0
  {
    var width := OrZero(options.width);
    var align := if options.align.Some? then options.align.value else Right;
    if numWidth >= width then (0, 0)
    else if options.signAwareZeroPad || align == Right then (width - numWidth, 0)
    else if align == Left then (0, width - numWidth)
    else ((width - numWidth) / 2, (width - numWidth + 1) / 2)
  }

  /** Padding goes outside the sign, except zeros, which go inside it. */
  function Front(left: nat, sign: string, options: FormatOptions): (s: string)
    ensures |s| == left + |sign|
  {
    if options.signAwareZeroPad then sign + Repeat('0', left) else Repeat(options.fill, left) + sign
  }

  function Assemble(pad: (nat, nat), sign: string, body: string, options: FormatOptions): (s: string)
    ensures |s| == pad.0 + |sign| + |body| + pad.1
  {
    Front(pad.0, sign, options) + body + Repeat(options.fill, pad.1)
  }

  function Formatted(
      satoshi: nat, negative: bool, denom: Denomination, showDenom: bool, options: FormatOptions)
      : (s: string)
  {
    var parts := Normalise(satoshi, denom, OrZero(options.precision));
    var pad := Padding(NumWidth(parts, negative, denom, showDenom, options), options);
    Assemble(pad, Sign(negative, options), NumberText(parts) + Suffix(denom, showDenom), options)
  }

  // ---- widths ----

  lemma {:induction false} DigitsLength(n: nat)
    requires n > 0
    ensures |Digits(n)| == DecWidth(n)
  {
    if n / 10 > 0 { DigitsLength(n / 10); }
  }

  /** dec_width counts the characters the number prints as. */
  lemma {:induction false} TextLength(n: nat)
    ensures |Text(n)| == DecWidth(n)
  {
    if n > 0 { DigitsLength(n); }
  }

  lemma {:induction false} DecWidthBound(n: nat, k: nat)
    requires k > 0
    ensures n < Pow(10, k) <==> DecWidth(n) <= k
    decreases k
  {
    DivLt(n, 10, Pow(10, k - 1));
    if k == 1 {
      assert Pow(10, 1) == 10 * Pow(10, 0);
    } else {
      DecWidthBound(n / 10, k - 1);
      PowMono(10, 1, k);
      assert Pow(10, 1) == 10 * Pow(10, 0);
    }
  }

  lemma {:induction false} PaddedLength(n: nat, width: nat)
    requires n < Pow(10, width)
    requires width > 0
    ensures |ZeroPadded(n, width)| == width
  {
    TextLength(n);
    DecWidthBound(n, width);
  }

  /** The normalised parts: decimals never fewer than asked for, and a fraction that fits them. */
  lemma {:induction false} NormalisedFits(satoshi: nat, denom: Denomination, wanted: nat)
    ensures var parts := Normalise(satoshi, denom, wanted);
      && parts.after < Pow(10, parts.nbDecimals)
      && parts.TotalDecimals() == (if parts.nbDecimals > wanted then parts.nbDecimals else wanted)
  {}

  lemma {:induction false} NumberLength(parts: Parts)
    requires parts.after < Pow(10, parts.nbDecimals)
    ensures |NumberText(parts)| ==
      DecWidth(parts.before) + parts.exp + if parts.TotalDecimals() > 0 then 1 + parts.TotalDecimals() else 0
  {
    TextLength(parts.before);
    if parts.nbDecimals > 0 { PaddedLength(parts.after, parts.nbDecimals); }
  }

  /** For every option set the text has exactly the requested width, or the computed width of the
      number where that is larger. */
  lemma {:induction false} WrittenLength(
      satoshi: nat, negative: bool, denom: Denomination, showDenom: bool, options: FormatOptions)
    ensures var width := NumWidth(Normalise(satoshi, denom, OrZero(options.precision)), negative, denom,
      showDenom, options);
      |Formatted(satoshi, negative, denom, showDenom, options)| ==
        if width < OrZero(options.width) then OrZero(options.width) else width
  {
    NormalisedFits(satoshi, denom, OrZero(options.precision));
    BodyLength(Normalise(satoshi, denom, OrZero(options.precision)), negative, denom, showDenom, options);
  }

  lemma {:induction false} BodyLength(
      parts: Parts, negative: bool, denom: Denomination, showDenom: bool, options: FormatOptions)
    requires parts.after < Pow(10, parts.nbDecimals)
    ensures |Sign(negative, options)| + |NumberText(parts) + Suffix(denom, showDenom)|
      == NumWidth(parts, negative, denom, showDenom, options)
  {
    NumberLength(parts);
    assert |Suffix(denom, showDenom)| == if showDenom then |AsStr(denom)| + 1 else 0;
  }

  // ---- what the options do to the text ----

  function Missing(options: FormatOptions, length: nat): (n: nat)
  {
    if length < OrZero(options.width) then OrZero(options.width) - length else 0
  }

  /** Sign and body surrounded by what is missing to the width. */
  function Surrounded(sign: string, body: string, options: FormatOptions): (s: string)
  {
    var pad := Missing(options, |sign + body|);
    if options.signAwareZeroPad then sign + Repeat('0', pad) + body
    else
      var left := if options.align == Some(Left) then 0 else if options.align == Some(Center) then pad / 2 else pad;
      Repeat(options.fill, left) + (sign + body) + Repeat(options.fill, pad - left)
  }

  lemma {:induction false} AssembleSurrounds(numWidth: nat, sign: string, body: string, options: FormatOptions)
    requires numWidth == |sign| + |body|
    ensures Assemble(Padding(numWidth, options), sign, body, options) == Surrounded(sign, body, options)
  {
    var pad := Padding(numWidth, options);
    assert (Repeat(options.fill, pad.0) + sign) + body == Repeat(options.fill, pad.0) + (sign + body);
    assert (sign + Repeat('0', pad.0) + body) + [] == sign + Repeat('0', pad.0) + body;
  }

  lemma {:induction false} SurroundParts(
      parts: Parts, negative: bool, denom: Denomination, showDenom: bool, options: FormatOptions)
    requires parts.after < Pow(10, parts.nbDecimals)
    ensures var (sign, body) := (Sign(negative, options), NumberText(parts) + Suffix(denom, showDenom));
      Assemble(Padding(NumWidth(parts, negative, denom, showDenom, options), options), sign, body, options)
        == Surrounded(sign, body, options)
  {
    BodyLength(parts, negative, denom, showDenom, options);
    AssembleSurrounds(NumWidth(parts, negative, denom, showDenom, options), Sign(negative, options),
      NumberText(parts) + Suffix(denom, showDenom), options);
  }

  lemma {:induction false} Decompose(
      satoshi: nat, negative: bool, denom: Denomination, showDenom: bool, options: FormatOptions)
      returns (body: string)
    ensures body == NumberText(Normalise(satoshi, denom, OrZero(options.precision))) + Suffix(denom, showDenom)
    ensures Formatted(satoshi, negative, denom, showDenom, options)
      == Surrounded(Sign(negative, options), body, options)
  {
    body := NumberText(Normalise(satoshi, denom, OrZero(options.precision))) + Suffix(denom, showDenom);
    NormalisedFits(satoshi, denom, OrZero(options.precision));
    SurroundParts(Normalise(satoshi, denom, OrZero(options.precision)), negative, denom, showDenom, options);
  }

  lemma {:induction false} NothingSurrounds(sign: string, body: string, options: FormatOptions)
    requires options.width.None?
    ensures Surrounded(sign, body, options) == sign + body
  {}

  /** Padding, for every option set: what is missing to the width goes around the unpadded text, on
      the left by default, on the right, or split with the odd character on the right; zeros go
      between the sign and the rest, whatever the alignment. */
  lemma {:induction false} PaddedText(
      satoshi: nat, negative: bool, denom: Denomination, showDenom: bool, options: FormatOptions)
    ensures var bare := Formatted(satoshi, negative, denom, showDenom, options.(width := None));
      var sign := Sign(negative, options);
      sign <= bare && Formatted(satoshi, negative, denom, showDenom, options)
        == Surrounded(sign, bare[|sign|..], options)
  {
    var sign, none := Sign(negative, options), options.(width := None);
    var body := Decompose(satoshi, negative, denom, showDenom, options);
    var body' := Decompose(satoshi, negative, denom, showDenom, none);
    NothingSurrounds(sign, body, none);
    assert (sign + body)[|sign|..] == body;
  }

  /** Asking for a plus sign puts one in front of the unpadded text, unless the amount is negative. */
  lemma {:induction false} PlusText(
      satoshi: nat, negative: bool, denom: Denomination, showDenom: bool, options: FormatOptions)
    requires options.signPlus && options.width.None?
    ensures Formatted(satoshi, negative, denom, showDenom, options) ==
      (if negative then "" else "+") + Formatted(satoshi, negative, denom, showDenom, options.(signPlus := false))
  {
    var minus := options.(signPlus := false);
    var body := Decompose(satoshi, negative, denom, showDenom, options);
    var body' := Decompose(satoshi, negative, denom, showDenom, minus);
    NothingSurrounds(Sign(negative, options), body, options);
    NothingSurrounds(Sign(negative, minus), body, minus);
    Signs(body);
  }

  lemma {:induction false} Signs(body: string)
    ensures "+" + ("" + body) == "+" + body && "" + ("-" + body) == "-" + body
  {}

  // ---- the loops ----

  method DecWidthLoop(n: nat) returns (width: nat)
    ensures width == |Text(n)|
  {
    var num := n;
    width := 1;
    TextLength(n);
    while num / 10 != 0
      invariant width - 1 + DecWidth(num) == DecWidth(n)
    {
      num := num / 10;
      width := width + 1;
    }
  }

  method RepeatChar(f: string, c: char, count: nat) returns (out: string)
    ensures out == f + Repeat(c, count)
  {
    out := f;
    for i := 0 to count
      invariant out == f + Repeat(c, i)
    {
      out := out + [c];
    }
  }

  method StripZeros(after: nat, nb: nat) returns (stripped: nat, decimals: nat)
    requires 0 < after < Pow(10, nb)
    ensures (stripped, decimals) == Strip(after, nb)
    ensures stripped % 10 != 0 && decimals <= nb && stripped * Pow(10, nb - decimals) == after
  {
    stripped, decimals := after, nb;
    while stripped % 10 == 0
      invariant 0 < stripped < Pow(10, decimals)
      invariant Strip(stripped, decimals) == Strip(after, nb)
      decreases stripped
    {
      StripStep(stripped, decimals);
      stripped, decimals := stripped / 10, decimals - 1;
    }
  }

  method FractionalParts(satoshi: nat, k: nat, wanted: nat) returns (parts: Parts)
    ensures parts == Fractional(satoshi, k, wanted)
  {
    var divisor := Pow(10, k);
    var before, after, nb := Quotient(satoshi, divisor), Remainder(satoshi, divisor), 0;
    if after != 0 {
      after, nb := StripZeros(after, k);
    }
    parts := Parts(before, 0, nb, after, if wanted > nb then wanted - nb else 0);
  }

  method Normal(satoshi: nat, denom: Denomination, wanted: nat) returns (parts: Parts)
    ensures parts == Normalise(satoshi, denom, wanted)
  {
    var precision := Precision(denom);
    if precision > 0 {
      parts := Parts(satoshi, if satoshi > 0 then precision else 0, 0, 0, wanted);
    } else if precision < 0 {
      parts := FractionalParts(satoshi, -precision, wanted);
    } else {
      parts := Parts(satoshi, 0, 0, 0, wanted);
    }
  }

  method WriteNumber(f: string, parts: Parts) returns (out: string)
    ensures out == f + NumberText(parts)
  {
    var point := if parts.TotalDecimals() > 0 then "." else "";
    var decimals := if parts.nbDecimals > 0 then ZeroPadded(parts.after, parts.nbDecimals) else "";
    out := RepeatChar(f + Text(parts.before), '0', parts.exp);
    out := out + point + decimals;
    out := RepeatChar(out, '0', parts.trailing);
    NumberGrouped(f, Text(parts.before), Repeat('0', parts.exp), point, decimals, Repeat('0', parts.trailing));
  }

  lemma {:induction false} NumberGrouped(f: string, a: string, b: string, c: string, d: string, e: string)
    ensures f + a + b + c + d + e == f + (a + b + c + d + e)
  {}

  method ComputeWidth(
      parts: Parts, negative: bool, denom: Denomination, showDenom: bool, options: FormatOptions)
      returns (numWidth: nat)
    ensures numWidth == NumWidth(parts, negative, denom, showDenom, options)
  {
    numWidth := if parts.TotalDecimals() > 0 then 1 + parts.TotalDecimals() else 0;
    var beforeWidth := DecWidthLoop(parts.before);
    TextLength(parts.before);
    numWidth := numWidth + beforeWidth + parts.exp;
    if options.signPlus || negative { numWidth := numWidth + 1; }
    if showDenom { numWidth := numWidth + |AsStr(denom)| + 1; }
  }

  method WriteFront(left: nat, sign: string, options: FormatOptions) returns (f: string)
    ensures f == Front(left, sign, options)
  {
    f := "";
    if !options.signAwareZeroPad { f := RepeatChar(f, options.fill, left); }
    f := f + sign;
    if options.signAwareZeroPad { f := RepeatChar(f, '0', left); }
  }

  method Write(parts: Parts, pad: (nat, nat), sign: string, suffix: string, options: FormatOptions) returns (f: string)
    ensures f == Assemble(pad, sign, NumberText(parts) + suffix, options)
  {
    f := WriteFront(pad.0, sign, options);
    ghost var front := f;
    f := WriteNumber(f, parts);
    f := f + suffix;
    assert f == front + (NumberText(parts) + suffix);
    f := RepeatChar(f, options.fill, pad.1);
  }

  /** Writes the amount; the result has the promised width. */
  method FmtSatoshiIn(
      satoshi: nat, negative: bool, denom: Denomination, showDenom: bool, options: FormatOptions)
      returns (f: string)
    ensures f == Formatted(satoshi, negative, denom, showDenom, options)
  {
    var parts := Normal(satoshi, denom, OrZero(options.precision));
    var numWidth := ComputeWidth(parts, negative, denom, showDenom, options);
    var pad := Padding(numWidth, options);
    f := Write(parts, pad, Sign(negative, options), Suffix(denom, showDenom), options);
  }
}
