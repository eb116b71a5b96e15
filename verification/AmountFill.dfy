/** What the parser makes of a number with a sign and filling around it (units/src/amount.rs). */
module AmountFill {
  import opened Wrappers
  import opened Arith
  import opened Radix
  import opened Decimal
  import opened Denominations
  import opened AmountParse
  import opened AmountNumeral

  // ---- the text ----

  /** The digit strings before and after the dot that the formatter writes for an amount. */
  ghost predicate Writes(whole: string, frac: string, satoshi: nat, denom: Denomination)
  {
    var p := Precision(denom);
    && AllDigits(whole) && AllDigits(frac) && whole != ""
    && (satoshi == 0 ==> AllZeros(whole))
    && (p < 0 && |frac| <= -p ==> DecimalValue(whole, frac, -p) == satoshi)
    && (p >= 0 ==> AllZeros(frac))
    && (p >= 0 && satoshi > 0 ==> |whole| > p && Value(whole) == satoshi * Pow(10, p))
  }

  /** Filling, a sign, the number, filling. */
  datatype Layout = Layout(
    fill: char, left: nat, right: nat, sign: string, whole: string, frac: string, satoshi: nat, denom: Denomination)
  {
    ghost predicate Valid()
    {
      (sign == "" || sign == "-" || sign == "+") && Writes(whole, frac, satoshi, denom)
    }

    function Number(): (s: string)
    {
      whole + (if frac == "" then "" else ".") + frac
    }

    function Text(): (s: string)
    {
      Repeat(fill, left) + (sign + Number()) + Repeat(fill, right)
    }

    /** The number is a bare zero, possibly with leading zeros. */
    predicate Zero()
    {
      satoshi == 0 && frac == ""
    }
  }

  // ---- texts that are not numerals ----

  lemma {:induction false} NotNumeral(s: string, i: nat)
    requires i < |s| && !IsDigit(s[i]) && s[i] != '.'
    ensures !IsNumeral(s)
  {
    var k := Find(s, '.');
    if i < k {
      assert Whole(s)[i] == s[i];
    } else {
      assert Frac(s)[i - k - 1] == s[i];
    }
  }

  lemma {:induction false} NotZeroAt(s: string, i: nat)
    requires i < |s| && s[i] != '0' && (i > 0 || (s[i] != '+' && s[i] != '-'))
    ensures !SignedZero(s)
  {}

  /** A character that belongs to no numeral and no signed zero spoils the text. */
  lemma {:induction false} Refused(s: string, i: nat, denom: Denomination, v: nat)
    requires i < |s| && !IsDigit(s[i]) && s[i] != '.' && (i > 0 || (s[i] != '+' && s[i] != '-'))
    ensures !Worth(s, denom, v)
  {}

  lemma {:induction false} RefusedDots(s: string, i: nat, j: nat, denom: Denomination, v: nat)
    requires i < j < |s| && s[i] == '.' && s[j] == '.'
    ensures !Worth(s, denom, v)
  {}

  /** A sign in front of a number. */
  lemma {:induction false} SignedWorth(x: char, t: string, denom: Denomination, v: nat)
    requires (x == '+' || x == '-') && t != ""
    ensures Worth([x] + t, denom, v) <==> AllZeros(t) && 0 <= Precision(denom) && |t| + 1 <= Precision(denom) && v == 0
  {
    var s := [x] + t;
    NotNumeral(s, 0);
    SignThenZeros(x, t);
  }

  lemma {:induction false} SignThenZeros(x: char, t: string)
    requires (x == '+' || x == '-') && t != ""
    ensures SignedZero([x] + t) <==> AllZeros(t)
  {
    assert ([x] + t)[1..] == t;
  }

  // ---- numerals ----

  lemma {:induction false} NumeralParts(w: string, dot: string, f: string)
    requires AllDigits(w) && AllDigits(f) && (dot == "." || (dot == "" && f == ""))
    ensures var s := w + dot + f;
      && Whole(s) == w && Frac(s) == f && IsNumeral(s)
      && (SignedZero(s) <==> w != "" && dot == "" && AllZeros(w))
  {
    var s := w + dot + f;
    Splits(s, w, dot, f);
    if dot == "." {
      assert s[|w|] == '.';
      NotZeroAt(s, |w|);
    } else {
      assert s == w;
      assert w != "" ==> IsDigit(w[0]);
    }
  }

  /** What a numeral is worth, by its two parts. */
  predicate PartsWorth(w: string, dot: string, f: string, denom: Denomination, v: nat)
    requires AllDigits(w) && AllDigits(f)
  {
    var p := Precision(denom);
    if p < 0 then |f| <= -p && v == DecimalValue(w, f, -p)
    else
      || (|w| > p && AllZeros(w[|w| - p..]) && Value(w[..|w| - p]) == v && AllZeros(f))
      || (w != "" && dot == "" && AllZeros(w) && |w| <= p && v == 0)
  }

  lemma {:induction false} WorthOfParts(w: string, dot: string, f: string, denom: Denomination, v: nat)
    requires AllDigits(w) && AllDigits(f) && (dot == "." || (dot == "" && f == ""))
    ensures Worth(w + dot + f, denom, v) <==> PartsWorth(w, dot, f, denom, v)
  {
    NumeralParts(w, dot, f);
    if Precision(denom) >= 0 { WholeAndZeros(w, f, Precision(denom), v); }
  }

  lemma {:induction false} WholeAndZeros(w: string, f: string, p: nat, v: nat)
    requires AllDigits(w) && AllDigits(f)
    ensures |w| > p ==>
      (Value(w) == v * Pow(10, p) && Value(f) == 0 <==>
        AllZeros(w[|w| - p..]) && Value(w[..|w| - p]) == v && AllZeros(f))
  {
    ZeroValue(f);
    if |w| > p { TrailingZeros(w, p, v); }
  }

  // ---- what is seen, by filling, sign and padding ----

  /** Enough digits and few enough decimals for the unit. */
  predicate Shown(t: Layout, decimals: nat, digits: nat)
  {
    var p := Precision(t.denom);
    if p < 0 then decimals <= -p else t.satoshi > 0 || decimals == 0 || digits > p
  }

  /** A signed zero is accepted only in a unit that has more digits below the satoshi. */
  function BareZero(t: Layout, length: nat): (r: Option<nat>)
  {
    if t.Zero() && length <= Precision(t.denom) then Some(0) else None
  }

  /** The number itself, with more decimals or more leading digits zero. */
  function Itself(t: Layout, decimals: nat, digits: nat): (r: Option<nat>)
  {
    if Shown(t, decimals, digits) then Some(t.satoshi) else None
  }

  /** Digits one to nine on either side become part of the number. */
  function DigitsAround(t: Layout): (r: Option<nat>)
    requires IsDigit(t.fill) && AllDigits(t.whole) && AllDigits(t.frac)
  {
    var p, left, right := Precision(t.denom), Repeat(t.fill, t.left), Repeat(t.fill, t.right);
    if p < 0 then
      var decimals := if t.frac == "" then 0 else |t.frac| + t.right;
      if decimals <= -p then Some(Value(left + t.whole + t.frac + right) * Pow(10, -p - decimals)) else None
    else if t.right == 0 then
      var digits := left + t.whole;
      if (t.satoshi > 0 || |t.whole| >= p) && |digits| > p then Some(Value(digits[..|digits| - p])) else None
    else if t.frac == "" && p == 0 then Some(Value(left + t.whole + right)) else None
  }

  function DigitsSeen(t: Layout): (r: Option<nat>)
    requires IsDigit(t.fill) && AllDigits(t.whole) && AllDigits(t.frac)
  {
    if t.sign != "" && t.left > 0 then None
    else if t.sign == "+" then if t.fill == '0' then BareZero(t, |t.whole| + 1 + t.right) else None
    else if t.fill != '0' then DigitsAround(t)
    else if t.frac == "" then Some(t.satoshi * Pow(10, t.right))
    else Itself(t, |t.frac| + t.right, |t.whole| + t.left)
  }

  /** One dot may end a whole number, or turn it into decimals. */
  function DotsSeen(t: Layout): (r: Option<nat>)
    requires AllDigits(t.whole)
  {
    var p, digits := Precision(t.denom), |t.whole|;
    if t.frac != "" || t.left + t.right != 1 then None
    else if t.left == 0 && t.sign != "+" then
      if p < 0 || t.satoshi > 0 || digits > p then Some(t.satoshi) else None
    else if t.left == 1 && t.sign == "" then AfterDot(t.whole, t.denom)
    else None
  }

  /** Digits after a dot. */
  function AfterDot(w: string, denom: Denomination): (r: Option<nat>)
    requires AllDigits(w)
  {
    var p := Precision(denom);
    if p < 0 && |w| <= -p then Some(DecimalValue("", w, -p)) else None
  }

  /** One minus in front is taken for the number's own; after another sign only a bare zero is left. */
  function MinusesSeen(t: Layout): (r: Option<nat>)
  {
    if t.right > 0 then None
    else if t.left == 1 && t.sign == "" then Itself(t, |t.frac|, |t.whole|)
    else if t.left + |t.sign| == 2 then BareZero(t, |t.whole| + 1)
    else None
  }

  function PlusesSeen(t: Layout): (r: Option<nat>)
  {
    if t.right == 0 && t.left == 1 && t.sign == "" then BareZero(t, |t.whole| + 1) else None
  }

  /** The satoshis that the parser finds in the text, whatever their sign and size. */
  function Seen(t: Layout): (r: Option<nat>)
    requires AllDigits(t.whole) && AllDigits(t.frac)
  {
    if t.left + t.right == 0 then
      if t.sign == "+" then BareZero(t, |t.whole| + 1) else Itself(t, |t.frac|, |t.whole|)
    else if IsDigit(t.fill) then DigitsSeen(t)
    else if t.fill == '.' then DotsSeen(t)
    else if t.fill == '-' then MinusesSeen(t)
    else if t.fill == '+' then PlusesSeen(t)
    else None
  }

  // ---- the pieces of the text ----

  lemma {:induction false} NumberFacts(t: Layout)
    requires t.Valid()
    ensures t.Number() != "" && IsDigit(t.Number()[0])
    ensures AllZeros(t.Number()) <==> t.Zero()
    ensures t.Zero() ==> |t.Number()| == |t.whole|
  {
    var n := t.Number();
    assert n[0] == t.whole[0];
    if t.frac == "" {
      assert n == t.whole;
      if AllZeros(t.whole) { WholeZero(t); }
    } else {
      assert n[|t.whole|] == '.';
    }
  }

  /** A number without decimals that is all zeros is the amount zero. */
  lemma {:induction false} WholeZero(t: Layout)
    requires t.Valid() && t.frac == "" && AllZeros(t.whole)
    ensures t.satoshi == 0
  {
    ZeroValue(t.whole);
    if Precision(t.denom) < 0 {
      assert t.whole + t.frac == t.whole;
    } else {
      SameMultiple(t.satoshi, 0, Pow(10, Precision(t.denom)));
    }
  }

  /** Where the characters of the text are. */
  lemma {:induction false} TextChars(t: Layout)
    requires t.Number() != ""
    ensures var s, k := t.Text(), t.left + |t.sign|;
      && |s| == k + |t.Number()| + t.right
      && (forall i :: 0 <= i < t.left ==> s[i] == t.fill)
      && (forall i :: t.left <= i < k ==> s[i] == t.sign[i - t.left])
      && s[k] == t.Number()[0]
      && (forall i :: |s| - t.right <= i < |s| ==> s[i] == t.fill)
  {}

  lemma {:induction false} UnsignedAt(s: string, i: nat)
    requires i < |s|
    ensures s[0] != '-' ==> Unsigned(s) == s
    ensures s[0] == '-' && i > 0 ==> i - 1 < |Unsigned(s)| && Unsigned(s)[i - 1] == s[i]
  {}

  /** A character that no numeral holds, at the end or behind the first place, spoils the text. */
  lemma {:induction false} Spoiled(s: string, i: nat, denom: Denomination, v: nat)
    requires i < |s| && !IsDigit(s[i]) && s[i] != '.'
    requires if s[i] == '+' || s[i] == '-' then i > 1 || (i == 1 && s[0] != '-') else true
    ensures !Worth(Unsigned(s), denom, v)
  {
    UnsignedAt(s, i);
    if s[0] == '-' {
      Refused(Unsigned(s), i - 1, denom, v);
    } else {
      Refused(s, i, denom, v);
    }
  }

  // ---- what zeros around a number do ----

  /** The formatter's digits are worth the amount when the unit can show them. */
  lemma {:induction false} OwnWorth(w: string, dot: string, f: string, satoshi: nat, denom: Denomination, v: nat)
    requires Writes(w, f, satoshi, denom) && (dot == "." || (dot == "" && f == ""))
    ensures PartsWorth(w, dot, f, denom, v) <==>
      v == satoshi && if Precision(denom) < 0 then |f| <= -Precision(denom) else |w| > Precision(denom) || dot == ""
  {
    var p := Precision(denom);
    if p >= 0 && |w| > p {
      TrailingZeros(w, p, v);
      SameMultiple(satoshi, v, Pow(10, p));
      if satoshi == 0 { ZeroValue(w); }
    }
  }

  lemma {:induction false} ZerosAround(w: string, f: string, l: nat, r: nat)
    requires AllDigits(w) && AllDigits(f)
    ensures AllDigits(Repeat('0', l) + w) && AllDigits(f + Repeat('0', r))
    ensures var all := (Repeat('0', l) + w) + (f + Repeat('0', r));
      AllDigits(all) && Value(all) == Value(w + f) * Pow(10, r)
  {
    LeadingZeros(l, w);
    ShiftedValue(f, r);
    ValueConcat(w, f);
    ShiftedValue(w + f, r);
    LeadingZeros(l, (w + f) + Repeat('0', r));
    AroundGrouped(Repeat('0', l), w, f, Repeat('0', r));
  }

  lemma {:induction false} AroundGrouped(l: string, w: string, f: string, r: string)
    ensures (l + w) + (f + r) == l + ((w + f) + r)
  {}

  /** Leading zeros and more zero decimals write the same amount. */
  lemma {:induction false} WritesZerosAround(w: string, f: string, satoshi: nat, denom: Denomination, l: nat, r: nat)
    requires Writes(w, f, satoshi, denom)
    ensures Writes(Repeat('0', l) + w, f + Repeat('0', r), satoshi, denom)
  {
    var p := Precision(denom);
    ZerosAround(w, f, l, r);
    if p < 0 && |f| + r <= -p { SameDecimal(w, f, l, r, -p); }
    if p >= 0 { LeadingZeros(l, w); }
  }

  lemma {:induction false} SameDecimal(w: string, f: string, l: nat, r: nat, k: nat)
    requires AllDigits(w) && AllDigits(f) && |f| + r <= k
    requires AllDigits(Repeat('0', l) + w) && AllDigits(f + Repeat('0', r))
    ensures DecimalValue(Repeat('0', l) + w, f + Repeat('0', r), k) == DecimalValue(w, f, k)
  {
    ZerosAround(w, f, l, r);
    PowAdd(10, r, k - |f| - r);
    MulAssoc(Value(w + f), Pow(10, r), Pow(10, k - |f| - r));
  }

  /** Zeros after a whole number multiply it. */
  lemma {:induction false} WritesScaled(w: string, satoshi: nat, denom: Denomination, l: nat, r: nat)
    requires Writes(w, "", satoshi, denom)
    ensures Writes(Repeat('0', l) + w + Repeat('0', r), "", satoshi * Pow(10, r), denom)
  {
    var p, w' := Precision(denom), Repeat('0', l) + w + Repeat('0', r);
    LeadingZeros(l, w);
    ShiftedValue(Repeat('0', l) + w, r);
    SameMultiple(satoshi, 0, Pow(10, r));
    assert w' + "" == w' && w + "" == w;
    if p < 0 {
      MulSwap(Value(w), Pow(10, r), Pow(10, -p));
    } else {
      MulSwap(satoshi, Pow(10, r), Pow(10, p));
    }
  }

  // ---- one filling at a time ----

  /** The number alone. */
  lemma {:induction false} NumberWorth(t: Layout, v: nat)
    requires t.Valid()
    ensures Worth(t.Number(), t.denom, v) <==> Itself(t, |t.frac|, |t.whole|) == Some(v)
  {
    var dot := if t.frac == "" then "" else ".";
    WorthOfParts(t.whole, dot, t.frac, t.denom, v);
    OwnWorth(t.whole, dot, t.frac, t.satoshi, t.denom, v);
  }

  lemma {:induction false} SignThenNumber(t: Layout, x: char, v: nat)
    requires t.Valid() && (x == '+' || x == '-')
    ensures Worth([x] + t.Number(), t.denom, v) <==> BareZero(t, |t.whole| + 1) == Some(v)
  {
    NumberFacts(t);
    SignedWorth(x, t.Number(), t.denom, v);
  }

  lemma {:induction false} Unfilled(t: Layout, v: nat)
    requires t.Valid() && t.left + t.right == 0
    ensures Worth(Unsigned(t.Text()), t.denom, v) <==> Seen(t) == Some(v)
  {
    UnfilledText(t);
    if t.sign == "+" {
      SignThenNumber(t, '+', v);
    } else {
      assert "" + t.Number() == t.Number();
      NumberWorth(t, v);
    }
  }

  lemma {:induction false} UnfilledText(t: Layout)
    requires t.Valid() && t.left + t.right == 0
    ensures Unsigned(t.Text()) == (if t.sign == "+" then "+" else "") + t.Number()
  {
    NumberFacts(t);
    assert t.Text() == t.sign + t.Number();
  }

  /** Any character but a digit, a dot or a sign. */
  lemma {:induction false} ForeignFill(t: Layout, v: nat)
    requires t.Valid() && t.left + t.right > 0
    requires !IsDigit(t.fill) && t.fill != '.' && t.fill != '-' && t.fill != '+'
    ensures !Worth(Unsigned(t.Text()), t.denom, v)
  {
    NumberFacts(t);
    TextChars(t);
    Spoiled(t.Text(), if t.left > 0 then 0 else |t.Text()| - 1, t.denom, v);
  }

  lemma {:induction false} PlusFill(t: Layout, v: nat)
    requires t.Valid() && t.left + t.right > 0 && t.fill == '+'
    ensures Worth(Unsigned(t.Text()), t.denom, v) <==> PlusesSeen(t) == Some(v)
  {
    NumberFacts(t);
    TextChars(t);
    if t.right > 0 {
      Spoiled(t.Text(), |t.Text()| - 1, t.denom, v);
    } else if t.left + |t.sign| > 1 {
      Spoiled(t.Text(), 1, t.denom, v);
    } else {
      assert t.Text() == ['+'] + t.Number();
      SignThenNumber(t, '+', v);
    }
  }

  lemma {:induction false} MinusFill(t: Layout, v: nat)
    requires t.Valid() && t.left + t.right > 0 && t.fill == '-'
    ensures Worth(Unsigned(t.Text()), t.denom, v) <==> MinusesSeen(t) == Some(v)
  {
    if t.right > 0 || t.left + |t.sign| > 2 {
      TooManySigns(t, v);
    } else if t.sign == "" && t.left == 1 {
      OneMinus(t);
      NumberWorth(t, v);
    } else {
      TwoSigns(t);
      SignThenNumber(t, if t.sign == "" then '-' else t.sign[0], v);
    }
  }

  lemma {:induction false} OneMinus(t: Layout)
    requires t.fill == '-' && t.left == 1 && t.right == 0 && t.sign == ""
    ensures Unsigned(t.Text()) == t.Number()
  {
    assert t.Text() == ['-'] + t.Number();
  }

  lemma {:induction false} TooManySigns(t: Layout, v: nat)
    requires t.Valid() && t.fill == '-' && (t.right > 0 || t.left + |t.sign| > 2)
    ensures !Worth(Unsigned(t.Text()), t.denom, v)
  {
    NumberFacts(t);
    TextChars(t);
    Spoiled(t.Text(), if t.right > 0 then |t.Text()| - 1 else 2, t.denom, v);
  }

  lemma {:induction false} TwoSigns(t: Layout)
    requires t.fill == '-' && t.right == 0 && t.left > 0 && t.left + |t.sign| == 2
    ensures Unsigned(t.Text()) == [if t.sign == "" then '-' else t.sign[0]] + t.Number()
  {
    var x := if t.sign == "" then '-' else t.sign[0];
    assert Repeat('-', t.left) + t.sign == ['-', x];
    assert t.Text() == (Repeat('-', t.left) + t.sign) + t.Number();
    assert t.Text() == ['-'] + ([x] + t.Number());
  }

  lemma {:induction false} DotFill(t: Layout, v: nat)
    requires t.Valid() && t.left + t.right > 0 && t.fill == '.'
    ensures Worth(Unsigned(t.Text()), t.denom, v) <==> DotsSeen(t) == Some(v)
  {
    if t.left > 0 {
      DotsBefore(t, v);
    } else {
      DotsAfter(t, v);
    }
  }

  lemma {:induction false} DotsBefore(t: Layout, v: nat)
    requires t.Valid() && t.left > 0 && t.fill == '.'
    ensures Worth(Unsigned(t.Text()), t.denom, v) <==> DotsSeen(t) == Some(v)
  {
    if t.left == 1 && t.right == 0 && t.sign == "" && t.frac == "" {
      OneDotBefore(t);
      DotThenDigits(t.whole, t.denom, v);
    } else {
      TooManyDots(t, v);
      TooManySeen(t);
    }
  }

  lemma {:induction false} TooManySeen(t: Layout)
    requires AllDigits(t.whole) && t.left > 0 && t.left + t.right + |t.sign| + |t.frac| > 1
    ensures DotsSeen(t).None?
  {}

  lemma {:induction false} OneDotBefore(t: Layout)
    requires t.left == 1 && t.right == 0 && t.sign == "" && t.frac == "" && t.fill == '.'
    ensures Unsigned(t.Text()) == "." + t.whole
  {}

  lemma {:induction false} TooManyDots(t: Layout, v: nat)
    requires t.Valid() && t.left > 0 && t.fill == '.' && t.left + t.right + |t.sign| + |t.frac| > 1
    ensures !Worth(Unsigned(t.Text()), t.denom, v)
  {
    var s := t.Text();
    NumberFacts(t);
    TextChars(t);
    if t.left > 1 {
      RefusedDots(s, 0, 1, t.denom, v);
    } else if t.right > 0 {
      RefusedDots(s, 0, |s| - 1, t.denom, v);
    } else if t.sign != "" {
      Spoiled(s, 1, t.denom, v);
    } else {
      assert s[1 + |t.whole|] == '.';
      RefusedDots(s, 0, 1 + |t.whole|, t.denom, v);
    }
  }

  lemma {:induction false} DotThenDigits(w: string, denom: Denomination, v: nat)
    requires AllDigits(w)
    ensures Worth("." + w, denom, v) <==> AfterDot(w, denom) == Some(v)
  {
    assert "" + "." + w == "." + w;
    WorthOfParts("", ".", w, denom, v);
    NoWhole(w, denom, v);
  }

  lemma {:induction false} NoWhole(w: string, denom: Denomination, v: nat)
    requires AllDigits(w)
    ensures PartsWorth("", ".", w, denom, v) <==> AfterDot(w, denom) == Some(v)
  {
    assert "" + w == w;
  }

  lemma {:induction false} DotsAfter(t: Layout, v: nat)
    requires t.Valid() && t.left == 0 && t.right > 0 && t.fill == '.'
    ensures Worth(Unsigned(t.Text()), t.denom, v) <==> DotsSeen(t) == Some(v)
  {
    var s, n, dots := t.Text(), t.Number(), Repeat('.', t.right);
    NumberFacts(t);
    if t.sign == "+" {
      TextChars(t);
      NotNumeral(s, 0);
      NotZeroAt(s, |s| - 1);
    } else {
      var u := Unsigned(s);
      assert u == n + dots;
      if t.right > 1 {
        RefusedDots(u, |u| - 2, |u| - 1, t.denom, v);
      } else if t.frac != "" {
        assert u[|t.whole|] == '.';
        RefusedDots(u, |t.whole|, |u| - 1, t.denom, v);
      } else {
        assert u == t.whole + "." + "";
        WorthOfParts(t.whole, ".", "", t.denom, v);
        OwnWorth(t.whole, ".", "", t.satoshi, t.denom, v);
      }
    }
  }

  lemma {:induction false} DigitFill(t: Layout, v: nat)
    requires t.Valid() && t.left + t.right > 0 && IsDigit(t.fill)
    ensures Worth(Unsigned(t.Text()), t.denom, v) <==> DigitsSeen(t) == Some(v)
  {
    NumberFacts(t);
    TextChars(t);
    if t.sign != "" && t.left > 0 {
      Spoiled(t.Text(), t.left, t.denom, v);
    } else if t.sign == "+" {
      DigitsAfterPlus(t, v);
    } else {
      FilledDigits(t);
      UnsignedDigits(t);
      DigitsWorth(t, v);
    }
  }

  lemma {:induction false} DigitsAfterPlus(t: Layout, v: nat)
    requires t.Valid() && t.left == 0 && t.right > 0 && IsDigit(t.fill) && t.sign == "+"
    ensures Worth(Unsigned(t.Text()), t.denom, v) <==> DigitsSeen(t) == Some(v)
  {
    var n, r := t.Number(), Repeat(t.fill, t.right);
    NumberFacts(t);
    assert t.Text() == ['+'] + (n + r);
    SignedWorth('+', n + r, t.denom, v);
    ZerosThenFill(n, t.fill, t.right);
  }

  lemma {:induction false} ZerosThenFill(n: string, c: char, k: nat)
    requires k > 0
    ensures AllZeros(n + Repeat(c, k)) <==> AllZeros(n) && c == '0'
  {
    var s := n + Repeat(c, k);
    assert s[|n|] == c;
    if AllZeros(s) {
      forall i | 0 <= i < |n| ensures n[i] == '0' { assert s[i] == n[i]; }
    }
  }

  /** The two parts of the number with digits on both sides. */
  function FilledWhole(t: Layout): (w: string)
  {
    Repeat(t.fill, t.left) + t.whole + (if t.frac == "" then Repeat(t.fill, t.right) else "")
  }

  function FilledFrac(t: Layout): (f: string)
  {
    if t.frac == "" then "" else t.frac + Repeat(t.fill, t.right)
  }

  lemma {:induction false} FilledDigits(t: Layout)
    requires IsDigit(t.fill) && AllDigits(t.whole) && AllDigits(t.frac)
    ensures AllDigits(FilledWhole(t)) && AllDigits(FilledFrac(t))
  {}

  lemma {:induction false} UnsignedDigits(t: Layout)
    requires t.Valid() && IsDigit(t.fill) && (t.sign == "" || (t.sign == "-" && t.left == 0))
    ensures Unsigned(t.Text()) == FilledWhole(t) + (if t.frac == "" then "" else ".") + FilledFrac(t)
  {
    var l, r := Repeat(t.fill, t.left), Repeat(t.fill, t.right);
    SignGone(t);
    FillRegroup(l, t.whole, t.frac, r);
  }

  lemma {:induction false} SignGone(t: Layout)
    requires t.Valid() && IsDigit(t.fill) && (t.sign == "" || (t.sign == "-" && t.left == 0))
    ensures Unsigned(t.Text()) == Repeat(t.fill, t.left) + t.Number() + Repeat(t.fill, t.right)
  {
    NumberFacts(t);
    var l, r, n := Repeat(t.fill, t.left), Repeat(t.fill, t.right), t.Number();
    if t.sign == "-" {
      assert t.Text() == ['-'] + (l + n + r);
    } else {
      assert t.Text() == l + n + r;
      assert t.Text()[0] == if t.left > 0 then t.fill else n[0];
    }
  }

  lemma {:induction false} FillRegroup(l: string, w: string, f: string, r: string)
    ensures l + (w + (if f == "" then "" else ".") + f) + r ==
      if f == "" then l + w + r + "" + "" else l + w + "" + "." + (f + r)
  {}

  lemma {:induction false} DigitsWorth(t: Layout, v: nat)
    requires t.Valid() && t.left + t.right > 0 && IsDigit(t.fill) && (t.sign == "" || (t.sign == "-" && t.left == 0))
    requires AllDigits(FilledWhole(t)) && AllDigits(FilledFrac(t))
    ensures Worth(FilledWhole(t) + (if t.frac == "" then "" else ".") + FilledFrac(t), t.denom, v) <==>
      DigitsSeen(t) == Some(v)
  {
    var dot := if t.frac == "" then "" else ".";
    WorthOfParts(FilledWhole(t), dot, FilledFrac(t), t.denom, v);
    if t.fill == '0' {
      ZerosWorth(t, v);
    } else {
      OthersWorth(t, v);
    }
  }

  lemma {:induction false} ZerosWorth(t: Layout, v: nat)
    requires t.Valid() && t.fill == '0' && AllDigits(FilledWhole(t)) && AllDigits(FilledFrac(t))
    ensures PartsWorth(FilledWhole(t), if t.frac == "" then "" else ".", FilledFrac(t), t.denom, v) <==>
      if t.frac == "" then v == t.satoshi * Pow(10, t.right)
      else Itself(t, |t.frac| + t.right, |t.whole| + t.left) == Some(v)
  {
    if t.frac == "" {
      WritesScaled(t.whole, t.satoshi, t.denom, t.left, t.right);
      OwnWorth(FilledWhole(t), "", "", t.satoshi * Pow(10, t.right), t.denom, v);
    } else {
      assert FilledWhole(t) == Repeat('0', t.left) + t.whole;
      WritesZerosAround(t.whole, t.frac, t.satoshi, t.denom, t.left, t.right);
      OwnWorth(FilledWhole(t), ".", FilledFrac(t), t.satoshi, t.denom, v);
    }
  }

  lemma {:induction false} OthersWorth(t: Layout, v: nat)
    requires t.Valid() && t.left + t.right > 0 && IsDigit(t.fill) && t.fill != '0'
    requires AllDigits(FilledWhole(t)) && AllDigits(FilledFrac(t))
    ensures PartsWorth(FilledWhole(t), if t.frac == "" then "" else ".", FilledFrac(t), t.denom, v) <==>
      DigitsAround(t) == Some(v)
  {
    if Precision(t.denom) < 0 {
      var l, r := Repeat(t.fill, t.left), Repeat(t.fill, t.right);
      AroundRegroup(l, t.whole, t.frac, r);
    } else if t.right == 0 {
      DigitsBeforeWhole(t, v);
    } else {
      DigitsAfterWhole(t, v);
    }
  }

  lemma {:induction false} AroundRegroup(l: string, w: string, f: string, r: string)
    ensures if f == "" then (l + w + r) + "" == l + w + f + r else (l + w + "") + (f + r) == l + w + f + r
  {}

  lemma {:induction false} DigitsBeforeWhole(t: Layout, v: nat)
    requires t.Valid() && t.left > 0 && t.right == 0 && IsDigit(t.fill) && t.fill != '0' && Precision(t.denom) >= 0
    requires AllDigits(FilledWhole(t)) && AllDigits(FilledFrac(t))
    ensures PartsWorth(FilledWhole(t), if t.frac == "" then "" else ".", FilledFrac(t), t.denom, v) <==>
      DigitsAround(t) == Some(v)
  {
    var p, w := Precision(t.denom), Repeat(t.fill, t.left) + t.whole;
    assert FilledWhole(t) == w && FilledFrac(t) == t.frac;
    assert w[0] == t.fill;
    if |w| > p { TailOfWhole(t, p); }
  }

  /** The last p digits are zeros exactly when the number's own are. */
  lemma {:induction false} TailOfWhole(t: Layout, p: nat)
    requires t.Valid() && t.left > 0 && t.fill != '0' && Precision(t.denom) == p
    requires t.left + |t.whole| > p
    ensures var w := Repeat(t.fill, t.left) + t.whole;
      AllZeros(w[|w| - p..]) <==> t.satoshi > 0 || |t.whole| >= p
  {
    var w, n := Repeat(t.fill, t.left) + t.whole, |t.whole|;
    if n >= p {
      assert w[|w| - p..] == t.whole[n - p..];
      if t.satoshi > 0 { TrailingZeros(t.whole, p, t.satoshi); }
    } else {
      assert w[|w| - p..][p - n - 1] == w[t.left - 1] == t.fill;
    }
  }

  lemma {:induction false} DigitsAfterWhole(t: Layout, v: nat)
    requires t.Valid() && t.right > 0 && IsDigit(t.fill) && t.fill != '0' && Precision(t.denom) >= 0
    requires AllDigits(FilledWhole(t)) && AllDigits(FilledFrac(t))
    ensures PartsWorth(FilledWhole(t), if t.frac == "" then "" else ".", FilledFrac(t), t.denom, v) <==>
      DigitsAround(t) == Some(v)
  {
    var p, w, f := Precision(t.denom), FilledWhole(t), FilledFrac(t);
    if t.frac == "" {
      assert w[|w| - 1] == t.fill;
      if 0 < p < |w| { assert w[|w| - p..][p - 1] == t.fill; }
      assert w[..|w|] == w;
    } else {
      assert f[|f| - 1] == t.fill;
    }
  }

  // ---- every layout ----

  /** The minus sign that the parser takes off the front. */
  predicate MinusSeen(t: Layout)
  {
    if t.left > 0 then t.fill == '-' else t.sign == "-"
  }

  /** For every filling, padding and sign: the parser returns exactly what is seen, if it fits. */
  lemma {:induction false} SeenIff(t: Layout, n: bool, v: nat)
    requires t.Valid()
    ensures ParseSigned(t.Text(), t.denom) == Ok((n, v)) <==>
      |t.Text()| <= INPUT_STRING_LEN_LIMIT && n == MinusSeen(t) && Seen(t) == Some(v) && v < TWO64
  {
    AcceptedIff(t.Text(), t.denom, n, v);
    NumberFacts(t);
    TextChars(t);
    WorthSeen(t, v);
  }

  lemma {:induction false} WorthSeen(t: Layout, v: nat)
    requires t.Valid()
    ensures Worth(Unsigned(t.Text()), t.denom, v) <==> Seen(t) == Some(v)
  {
    if t.left + t.right == 0 {
      Unfilled(t, v);
    } else if IsDigit(t.fill) {
      DigitFill(t, v);
    } else if t.fill == '.' {
      DotFill(t, v);
    } else if t.fill == '-' {
      MinusFill(t, v);
    } else if t.fill == '+' {
      PlusFill(t, v);
    } else {
      ForeignFill(t, v);
    }
  }

  // ---- when the amount comes back, and when another one does ----

  /** The text reads as the amount it was written for. */
  predicate Recovers(t: Layout)
  {
    var p, digits, decimals := Precision(t.denom), |t.whole|, |t.frac|;
    if t.sign == "+" then
      t.Zero() && digits + 1 + t.right <= p && (t.left + t.right == 0 || (t.fill == '0' && t.left == 0))
    else if t.left + t.right == 0 then Shown(t, decimals, digits)
    else match t.fill
      case '0' =>
        (t.left == 0 || t.sign == "") &&
        if t.frac == "" then t.right == 0 || t.satoshi == 0 else Shown(t, decimals + t.right, digits + t.left)
      case '.' =>
        t.frac == "" && t.left + t.right == 1 &&
        if t.left == 0 then p < 0 || t.satoshi > 0 || digits > p
        else t.sign == "" && digits <= -p && t.satoshi == 0
      case '-' => t.sign == "-" && t.left == 1 && t.right == 0 && t.Zero() && digits + 1 <= p
      case '+' => t.sign == "" && t.left == 1 && t.right == 0 && t.Zero() && digits + 1 <= p
      case _ => false
  }

  /** The text reads as another amount, or as its opposite. */
  predicate Misreads(t: Layout)
    requires AllDigits(t.whole) && AllDigits(t.frac)
  {
    var p, digits, decimals := Precision(t.denom), |t.whole|, |t.frac|;
    if t.left + t.right == 0 then false
    else if IsDigit(t.fill) then
      (t.sign == "" || (t.sign == "-" && t.left == 0)) &&
      if t.fill == '0' then t.frac == "" && t.right > 0 && t.satoshi > 0 && t.satoshi * Pow(10, t.right) < TWO64
      else DigitsAround(t).Some? && DigitsAround(t).value < TWO64
    else match t.fill
      case '.' => t.frac == "" && t.left == 1 && t.right == 0 && t.sign == "" && digits <= -p && t.satoshi > 0
      case '-' =>
        && t.right == 0
        && ((t.left == 1 && t.sign == "" && Shown(t, decimals, digits))
            || (t.sign != "-" && t.left + |t.sign| == 2 && t.left > 0 && t.Zero() && digits + 1 <= p))
      case _ => false
  }

  lemma {:induction false} StrictProduct(x: nat, y: nat, k: nat)
    requires x < y && k > 0
    ensures x * k < y * k
  {}

  lemma {:induction false} FillValue(c: char, n: nat)
    requires IsDigit(c) && c != '0'
    ensures AllDigits(Repeat(c, n)) && (n > 0 ==> Value(Repeat(c, n)) > 0)
  {}

  /** Digits one to nine around a number make it larger than with zeros on the right. */
  lemma {:induction false} AroundGrows(l: string, d: string, r: string)
    requires AllDigits(l) && AllDigits(d) && AllDigits(r)
    requires (l != "" ==> Value(l) > 0) && (r != "" ==> Value(r) > 0) && (l != "" || r != "")
    ensures AllDigits(l + d + r) && Value(l + d + r) > Value(d) * Pow(10, |r|)
  {
    ValueConcat(l, d);
    ValueConcat(l + d, r);
    var x, y := Value(d), Value(l + d);
    if l == "" {
      assert l + d == d;
    } else {
      ProductPositive(Value(l), Pow(10, |d|));
      StrictProduct(x, y, Pow(10, |r|));
    }
  }

  lemma {:induction false} ProductPositive(x: nat, y: nat)
    requires x > 0 && y > 0
    ensures x * y > 0
  {}

  lemma {:induction false} AroundIsLarger(t: Layout)
    requires t.Valid() && t.left + t.right > 0 && IsDigit(t.fill) && t.fill != '0' && DigitsAround(t).Some?
    ensures DigitsAround(t).value > t.satoshi
  {
    var l, r := Repeat(t.fill, t.left), Repeat(t.fill, t.right);
    FillValue(t.fill, t.left);
    FillValue(t.fill, t.right);
    if Precision(t.denom) < 0 {
      LargerDecimal(t, l, r);
    } else {
      if t.right == 0 { LargerBefore(t, l); } else { LargerAfter(t, l, r); }
    }
  }

  lemma {:induction false} LargerDecimal(t: Layout, l: string, r: string)
    requires t.Valid() && IsDigit(t.fill) && DigitsAround(t).Some? && Precision(t.denom) < 0
    requires l == Repeat(t.fill, t.left) && r == Repeat(t.fill, t.right)
    requires (l != "" ==> Value(l) > 0) && (r != "" ==> Value(r) > 0) && (l != "" || r != "")
    ensures DigitsAround(t).value > t.satoshi
  {
    LargerDigits(l, t.whole, t.frac, r, -Precision(t.denom), t.satoshi);
  }

  lemma {:induction false} LargerDigits(l: string, w: string, f: string, r: string, k: nat, satoshi: nat)
    requires AllDigits(l) && AllDigits(w) && AllDigits(f) && AllDigits(r)
    requires (l != "" ==> Value(l) > 0) && (r != "" ==> Value(r) > 0) && (l != "" || r != "")
    requires |f| <= k && DecimalValue(w, f, k) == satoshi && (f == "" || |f| + |r| <= k)
    ensures AllDigits(l + w + f + r)
    ensures Value(l + w + f + r) * Pow(10, k - (if f == "" then 0 else |f| + |r|)) > satoshi
  {
    AroundGrows(l, w + f, r);
    assert l + (w + f) + r == l + w + f + r;
    ShiftedLarger(Value(w + f), Value(l + (w + f) + r), |r|, k - (if f == "" then 0 else |f| + |r|), k - |f|);
  }

  lemma {:induction false} ShiftedLarger(x: nat, y: nat, r: nat, e: nat, f: nat)
    requires y > x * Pow(10, r) && f <= r + e
    ensures y * Pow(10, e) > x * Pow(10, f)
  {
    StrictProduct(x * Pow(10, r), y, Pow(10, e));
    MulAssoc(x, Pow(10, r), Pow(10, e));
    PowAdd(10, r, e);
    PowMono(10, f, r + e);
    MulMono(x, Pow(10, f), Pow(10, r + e));
  }

  lemma {:induction false} WholeValue(t: Layout)
    requires t.Valid() && Precision(t.denom) >= 0
    ensures Value(t.whole) == t.satoshi * Pow(10, Precision(t.denom))
  {
    ZeroValue(t.whole);
    SameMultiple(0, t.satoshi, Pow(10, Precision(t.denom)));
  }

  lemma {:induction false} MultipleLarger(v: nat, s: nat, d: nat)
    requires v * d > s * d
    ensures v > s
  {}

  lemma {:induction false} LargerBefore(t: Layout, l: string)
    requires t.Valid() && IsDigit(t.fill) && t.fill != '0' && DigitsAround(t).Some? && Precision(t.denom) >= 0
    requires l == Repeat(t.fill, t.left) && t.left > 0 && t.right == 0 && Value(l) > 0
    ensures DigitsAround(t).value > t.satoshi
  {
    var p, v, w := Precision(t.denom), DigitsAround(t).value, l + t.whole;
    AroundGrows(l, t.whole, "");
    assert w + "" == w && Pow(10, 0) == 1;
    TailOfWhole(t, p);
    TrailingZeros(w, p, v);
    WholeValue(t);
    MultipleLarger(v, t.satoshi, Pow(10, p));
  }

  lemma {:induction false} LargerAfter(t: Layout, l: string, r: string)
    requires t.Valid() && IsDigit(t.fill) && DigitsAround(t).Some? && Precision(t.denom) >= 0
    requires l == Repeat(t.fill, t.left) && r == Repeat(t.fill, t.right)
    requires (l != "" ==> Value(l) > 0) && t.right > 0 && Value(r) > 0
    ensures DigitsAround(t).value > t.satoshi
  {
    AroundGrows(l, t.whole, r);
    WholeValue(t);
    assert Pow(10, 0) == 1;
    ProductGrows(Value(t.whole), Pow(10, t.right));
  }

  lemma {:induction false} PowStrict(a: nat, b: nat)
    requires a < b
    ensures Pow(10, a) < Pow(10, b)
  {
    PowMono(10, a + 1, b);
    assert Pow(10, a + 1) == 10 * Pow(10, a);
  }

  lemma {:induction false} DotMakesSmaller(t: Layout)
    requires t.Valid() && t.frac == "" && |t.whole| <= -Precision(t.denom)
    ensures var v := DecimalValue("", t.whole, -Precision(t.denom));
      if t.satoshi == 0 then v == 0 else v < t.satoshi
  {
    assert t.whole + t.frac == t.whole && "" + t.whole == t.whole;
    FewerTens(Value(t.whole), -Precision(t.denom), |t.whole|, t.satoshi);
  }

  lemma {:induction false} FewerTens(x: nat, k: nat, n: nat, y: nat)
    requires x * Pow(10, k) == y && 0 < n <= k
    ensures if y == 0 then x * Pow(10, k - n) == 0 else x * Pow(10, k - n) < y
  {
    SameMultiple(0, x, Pow(10, k));
    if x > 0 {
      PowStrict(k - n, k);
      StrictProduct(Pow(10, k - n), Pow(10, k), x);
    }
  }

  /** The amount comes back under its own sign exactly as the table says. */
  lemma {:induction false} RecoversIff(t: Layout)
    requires t.Valid()
    ensures MinusSeen(t) == (t.sign == "-") && Seen(t) == Some(t.satoshi) <==> Recovers(t)
  {
    if t.left + t.right > 0 && IsDigit(t.fill) {
      if t.fill == '0' {
        ScaledSame(t.satoshi, t.right);
      } else if DigitsAround(t).Some? {
        AroundIsLarger(t);
      }
    } else if t.left + t.right > 0 && t.fill == '.' && t.frac == "" && |t.whole| <= -Precision(t.denom) {
      DotMakesSmaller(t);
    }
  }

  lemma {:induction false} ScaledSame(x: nat, r: nat)
    ensures x * Pow(10, r) == x <==> r == 0 || x == 0
  {}

  /** Something else comes back exactly as the other table says. */
  lemma {:induction false} MisreadsIff(t: Layout)
    requires t.Valid() && t.satoshi < TWO64
    ensures (Seen(t).Some? && Seen(t).value < TWO64 && !(MinusSeen(t) == (t.sign == "-") && Seen(t) == Some(t.satoshi)))
       <==> Misreads(t)
  {
    if t.left + t.right > 0 && IsDigit(t.fill) {
      if t.fill == '0' {
        ScaledSame(t.satoshi, t.right);
      } else if DigitsAround(t).Some? {
        AroundIsLarger(t);
      }
    } else if t.left + t.right > 0 && t.fill == '.' && t.frac == "" && |t.whole| <= -Precision(t.denom) {
      DotMakesSmaller(t);
    }
  }
}
