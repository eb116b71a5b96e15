/** Reading decimal amounts as satoshis (units/src/amount.rs). */
module AmountParse {
  import opened Wrappers
  import opened Arith
  import opened Radix
  import opened Decimal
  import opened Denominations

  const INPUT_STRING_LEN_LIMIT: nat := 50

  datatype InnerError =
    | Overflow(isNegative: bool)
    | TooPrecise(position: nat)
    | MissingDigitsEmpty
    | MissingDigitsOnlyMinusSign
    | InputTooLarge(length: nat)
    | InvalidCharacter(invalidChar: char, position: nat)

  // ---- lengths and positions, which the source counts in UTF-8 bytes ----

  function Width(c: char): (n: nat)
    ensures 1 <= n <= 4
    ensures c as int < 0x80 <==> n == 1
  {
    if c as int < 0x80 then 1 else if c as int < 0x800 then 2 else if c as int < 0x1_0000 then 3 else 4
  }

  /** The bits that n bytes of UTF-8 carry: seven alone, else 7 - n in the first byte and six in the others. */
  function Payload(n: nat): (k: nat)
    requires 1 <= n <= 4
  {
    if n == 1 then 7 else 7 - n + 6 * (n - 1)
  }

  /** The width is the least that carries the character's number. */
  lemma {:induction false} WidthLeast(c: char)
    ensures c as int < Pow(2, Payload(Width(c)))
    ensures Width(c) > 1 ==> c as int >= Pow(2, Payload(Width(c) - 1))
  {
    assert Pow(2, 7) == 0x80;
    PowAdd(2, 7, 4);
    PowAdd(2, 11, 5);
    PowAdd(2, 16, 5);
    assert Pow(2, 4) == 16 && Pow(2, 5) == 32;
  }

  function Size(s: string): (n: nat)
    ensures n >= |s|
  {
    if s == "" then 0 else Size(s[..|s| - 1]) + Width(s[|s| - 1])
  }

  lemma {:induction false} SizeNext(s: string, i: nat)
    requires i < |s|
    ensures Size(s[..i + 1]) == Size(s[..i]) + Width(s[i])
  {
    assert s[..i + 1][..i] == s[..i];
  }

  predicate Ascii(s: string)
  {
    forall i :: 0 <= i < |s| ==> s[i] as int < 0x80
  }

  lemma {:induction false} AsciiSize(s: string)
    requires Ascii(s)
    ensures Size(s) == |s|
  {
    if s != "" { AsciiSize(s[..|s| - 1]); }
  }

  // ---- searching ----

  /** The first place of c in s, or |s| when there is none. */
  function Find(s: string, c: char): (i: nat)
    ensures i <= |s| && c !in s[..i]
    ensures i < |s| ==> s[i] == c
  {
    if s == "" || s[0] == c then 0
    else
      var i := Find(s[1..], c) + 1;
      assert s[..i] == [s[0]] + s[1..][..i - 1];
      i
  }

  lemma {:induction false} FindAt(s: string, c: char, i: nat)
    requires i <= |s| && c !in s[..i] && (i < |s| ==> s[i] == c)
    ensures Find(s, c) == i
  {}

  /** The text before the first dot, and the text after it. */
  function Whole(s: string): (w: string)
  {
    s[..Find(s, '.')]
  }

  function Frac(s: string): (f: string)
  {
    var i := Find(s, '.');
    if i == |s| then "" else s[i + 1..]
  }

  predicate IsNumeral(s: string)
  {
    AllDigits(Whole(s)) && AllDigits(Frac(s))
  }

  predicate AllZeros(s: string)
  {
    forall i :: 0 <= i < |s| ==> s[i] == '0'
  }

  // ---- precision ----

  /** The last place at or after lo that does not hold a zero. */
  function LastNonZero(s: string, lo: nat): (r: Option<nat>)
    requires lo <= |s|
    ensures r.None? <==> AllZeros(s[lo..])
    ensures r.Some? ==> lo <= r.value < |s| && s[r.value] != '0' && forall j :: r.value < j < |s| ==> s[j] == '0'
    decreases |s|
  {
    if lo == |s| then None
    else if s[|s| - 1] != '0' then
      (assert s[lo..][|s| - 1 - lo] != '0'; Some(|s| - 1))
    else
      var t := s[..|s| - 1];
      assert s[lo..] == t[lo..] + ['0'];
      LastNonZero(t, lo)
  }

  function FirstNonZero(s: string): (r: Option<nat>)
    ensures r.None? <==> AllZeros(s)
    ensures r.Some? ==> r.value < |s| && s[r.value] != '0' && forall j :: 0 <= j < r.value ==> s[j] == '0'
  {
    if s == "" then None
    else if s[0] != '0' then Some(0)
    else
      assert s == [s[0]] + s[1..];
      match FirstNonZero(s[1..])
      case Some(i) => Some(i + 1)
      case None => None
  }

  function IsTooPrecise(s: string, precision: nat): (r: Option<nat>)
    ensures r.None? <==> |Whole(s)| > precision && AllZeros(Whole(s)[|Whole(s)| - precision..]) && AllZeros(Frac(s))
  {
    var pos := Find(s, '.');
    if precision >= Size(s[..pos]) then Some(0)
    else
      var lo := if precision <= pos then pos - precision else 0;
      var last := LastNonZero(s[..pos], lo);
      assert AllZeros(s[..pos]) ==> precision < pos by { if AllZeros(s[..pos]) { AsciiSize(s[..pos]); } }
      assert lo == 0 ==> s[..pos][lo..] == s[..pos];
      if last.Some? then Some(Size(s[..last.value]))
      else if pos == |s| then None
      else match FirstNonZero(s[pos + 1..])
        case Some(i) => Some(Size(s[..pos + 1 + i]))
        case None => None
  }

  /** The character at k is the one that stands for less than a satoshi: the last nonzero one among the p
      before the point, or else the first nonzero one after it. */
  predicate Lost(s: string, p: nat, k: nat)
  {
    var pos := Find(s, '.');
    && k < |s| && s[k] != '0' && k != pos
    && (k < pos ==> pos - k <= p && forall j :: k < j < pos ==> s[j] == '0')
    && (k > pos ==> forall j :: 0 <= j < k && pos - p <= j && j != pos ==> s[j] == '0')
  }

  /** What is reported: the start of a text too short to have those digits, or the byte at which such a
      character begins. */
  lemma {:induction false} PrecisionLostAt(s: string, p: nat) returns (k: nat)
    requires IsTooPrecise(s, p).Some?
    ensures if p >= Size(Whole(s)) then IsTooPrecise(s, p) == Some(0)
      else Lost(s, p, k) && IsTooPrecise(s, p) == Some(Size(s[..k]))
  {
    var w, f := Whole(s), Frac(s);
    var lo := if p <= |w| then |w| - p else 0;
    k := 0;
    if p < Size(w) {
      if LastNonZero(w, lo).Some? {
        k := LastNonZero(w, lo).value;
        ReportedBefore(s, p, w, lo, k);
        LostBefore(s, p, w, lo, k);
      } else if Find(s, '.') < |s| && FirstNonZero(f).Some? {
        k := |w| + 1 + FirstNonZero(f).value;
        ReportedAfter(s, p, w, f, lo, FirstNonZero(f).value);
        LostAfter(s, p, w, f, lo, FirstNonZero(f).value);
      } else {
        NothingReported(s, p, w, lo);
      }
    }
  }

  lemma {:induction false} ReportedBefore(s: string, p: nat, w: string, lo: nat, k: nat)
    requires w == Whole(s) && p < Size(w) && lo == (if p <= |w| then |w| - p else 0) && LastNonZero(w, lo) == Some(k)
    ensures IsTooPrecise(s, p) == Some(Size(s[..k]))
  {}

  lemma {:induction false} ReportedAfter(s: string, p: nat, w: string, f: string, lo: nat, i: nat)
    requires w == Whole(s) && f == Frac(s) && p < Size(w) && lo == (if p <= |w| then |w| - p else 0)
    requires LastNonZero(w, lo).None? && Find(s, '.') < |s| && FirstNonZero(f) == Some(i)
    ensures IsTooPrecise(s, p) == Some(Size(s[..|w| + 1 + i]))
  {}

  lemma {:induction false} NothingReported(s: string, p: nat, w: string, lo: nat)
    requires w == Whole(s) && p < Size(w) && lo == (if p <= |w| then |w| - p else 0)
    requires LastNonZero(w, lo).None? && (Find(s, '.') == |s| || FirstNonZero(Frac(s)).None?)
    ensures IsTooPrecise(s, p).None?
  {}

  lemma {:induction false} LostBefore(s: string, p: nat, w: string, lo: nat, k: nat)
    requires w == Whole(s) && lo <= |w| && |w| - lo <= p && LastNonZero(w, lo) == Some(k)
    ensures Lost(s, p, k)
  {
    forall j | k < j < |w| ensures s[j] == '0' { assert w[j] == '0'; }
  }

  lemma {:induction false} LostAfter(s: string, p: nat, w: string, f: string, lo: nat, i: nat)
    requires w == Whole(s) && f == Frac(s) && Find(s, '.') < |s| && lo == (if p <= |w| then |w| - p else 0)
    requires LastNonZero(w, lo).None? && FirstNonZero(f) == Some(i)
    ensures Lost(s, p, |w| + 1 + i)
  {
    var pos, k := |w|, |w| + 1 + i;
    forall j | 0 <= j < k && pos - p <= j && j != pos ensures s[j] == '0' {
      if j < pos { assert s[j] == w[lo..][j - lo]; } else { assert s[j] == f[j - pos - 1]; }
    }
  }

  /** The texts that a 64-bit integer parse reads as zero. */
  predicate SignedZero(s: string)
  {
    var t := if s != "" && (s[0] == '-' || s[0] == '+') then s[1..] else s;
    t != "" && AllZeros(t)
  }

  // ---- the digit loop ----

  datatype Scanned = Scanned(value: nat, decimals: Option<nat>)

  /** The loop over s from place i, with what it has gathered so far. */
  function Scan(s: string, i: nat, maxDecimals: nat, neg: bool, acc: Scanned): (r: Result<Scanned, InnerError>)
    requires i <= |s|
    decreases |s| - i
  {
    var at := Size(s[..i]) + if neg then 1 else 0;
    if i == |s| then Ok(acc)
    else if IsDigit(s[i]) then
      var value := 10 * acc.value + DigitVal(s[i]);
      if value >= TWO64 then Err(Overflow(neg))
      else if acc.decimals.None? then Scan(s, i + 1, maxDecimals, neg, Scanned(value, None))
      else if acc.decimals.value < maxDecimals then
        Scan(s, i + 1, maxDecimals, neg, Scanned(value, Some(acc.decimals.value + 1)))
      else Err(TooPrecise(at))
    else if s[i] == '.' then
      if acc.decimals.Some? then Err(InvalidCharacter('.', at))
      else if maxDecimals == 0 then Ok(acc)
      else Scan(s, i + 1, maxDecimals, neg, acc.(decimals := Some(0)))
    else Err(InvalidCharacter(s[i], at))
  }

  /** Repeated checked multiplication by ten. */
  function Scale(value: nat, k: nat): (r: Option<nat>)
    decreases k
  {
    if k == 0 then Some(value)
    else if 10 * value >= TWO64 then None
    else Scale(10 * value, k - 1)
  }

  function Finish(r: Result<Scanned, InnerError>, maxDecimals: nat, neg: bool): (out: Result<(bool, nat), InnerError>)
    requires r.Ok? && r.value.decimals.Some? ==> r.value.decimals.value <= maxDecimals
  {
    match r
    case Err(e) => Err(e)
    case Ok(acc) =>
      match Scale(acc.value, maxDecimals - (if acc.decimals.Some? then acc.decimals.value else 0))
      case None => Err(Overflow(neg))
      case Some(v) => Ok((neg, v))
  }

  lemma {:induction false} ScanDecimals(s: string, i: nat, maxDecimals: nat, neg: bool, acc: Scanned)
    requires i <= |s|
    requires acc.decimals.Some? ==> acc.decimals.value <= maxDecimals
    ensures var r := Scan(s, i, maxDecimals, neg, acc);
      r.Ok? && r.value.decimals.Some? ==> r.value.decimals.value <= maxDecimals
    decreases |s| - i
  {
    if i < |s| {
      if IsDigit(s[i]) {
        var value := 10 * acc.value + DigitVal(s[i]);
        if acc.decimals.None? {
          ScanDecimals(s, i + 1, maxDecimals, neg, Scanned(value, None));
        } else if acc.decimals.value < maxDecimals {
          ScanDecimals(s, i + 1, maxDecimals, neg, Scanned(value, Some(acc.decimals.value + 1)));
        }
      } else if s[i] == '.' && acc.decimals.None? && maxDecimals > 0 {
        ScanDecimals(s, i + 1, maxDecimals, neg, acc.(decimals := Some(0)));
      }
    }
  }

  /** Satoshis in s without its last p digits, which must be zeros. */
  function IntegerPart(s: string, p: nat, neg: bool): (r: Result<(bool, nat), InnerError>)
  {
    match IsTooPrecise(s, p)
    case Some(position) =>
      if SignedZero(s) then Ok((neg, 0)) else Err(TooPrecise(position + if neg then 1 else 0))
    case None =>
      var t := s[..Find(s, '.') - p];
      ScanDecimals(t, 0, 0, neg, Scanned(0, None));
      Finish(Scan(t, 0, 0, neg, Scanned(0, None)), 0, neg)
  }

  /** Satoshis in s, whose sign is already gone. */
  function ParseUnsigned(s: string, denom: Denomination, neg: bool): (r: Result<(bool, nat), InnerError>)
  {
    var p := Precision(denom);
    if p >= 0 then IntegerPart(s, p, neg)
    else
      ScanDecimals(s, 0, -p, neg, Scanned(0, None));
      Finish(Scan(s, 0, -p, neg, Scanned(0, None)), -p, neg)
  }

  function Unsigned(s: string): (t: string)
  {
    if s != "" && s[0] == '-' then s[1..] else s
  }

  function ParseSigned(s: string, denom: Denomination): (r: Result<(bool, nat), InnerError>)
  {
    if s == "" then Err(MissingDigitsEmpty)
    else if Size(s) > INPUT_STRING_LEN_LIMIT then Err(InputTooLarge(Size(s)))
    else if s == "-" then Err(MissingDigitsOnlyMinusSign)
    else ParseUnsigned(Unsigned(s), denom, s[0] == '-')
  }

  // ---- what the loops compute ----

  lemma {:induction false} ScaleIs(value: nat, k: nat)
    requires value < TWO64
    ensures Scale(value, k) == if value * Pow(10, k) < TWO64 then Some(value * Pow(10, k)) else None
    decreases k
  {
    if k > 0 {
      MulAssoc(value, 10, Pow(10, k - 1));
      if 10 * value >= TWO64 {
        ProductGrows(10 * value, Pow(10, k - 1));
      } else {
        ScaleIs(10 * value, k - 1);
      }
    }
  }

  lemma {:induction false} ProductGrows(x: nat, y: nat)
    requires y >= 1
    ensures x <= x * y
  {}

  lemma {:induction false} ValueGrows(s: string, t: string)
    requires AllDigits(s) && AllDigits(t)
    ensures AllDigits(s + t) && Value(s) <= Value(s + t)
    decreases |t|
  {
    if t == "" {
      assert s + t == s;
    } else {
      var t' := t[..|t| - 1];
      ValueGrows(s, t');
      assert s + t == (s + t') + [t[|t| - 1]];
      ValueAppend(s + t', t[|t| - 1]);
    }
  }

  /** What remains to be read after a dot and d decimals. */
  ghost function Decimals(done: string, rest: string, d: nat, max: nat): (r: Option<Scanned>)
    requires AllDigits(done)
  {
    if AllDigits(rest) && d + |rest| <= max && Value(done + rest) < TWO64
    then Some(Scanned(Value(done + rest), Some(d + |rest|))) else None
  }

  lemma {:induction false} DecimalsStep(done: string, rest: string, d: nat, max: nat)
    requires AllDigits(done) && rest != "" && IsDigit(rest[0])
    ensures AllDigits(done + [rest[0]]) && Value(done + [rest[0]]) == 10 * Value(done) + DigitVal(rest[0])
    ensures Decimals(done, rest, d, max) == Decimals(done + [rest[0]], rest[1..], d + 1, max)
  {
    ValueAppend(done, rest[0]);
    FirstDigit(rest);
    Assoc(done, [rest[0]], rest[1..]);
  }

  lemma {:induction false} FirstDigit(s: string)
    requires s != "" && IsDigit(s[0])
    ensures [s[0]] + s[1..] == s && (AllDigits(s) <==> AllDigits(s[1..]))
  {
    CharThenDigits(s[0], s[1..]);
    assert [s[0]] + s[1..] == s;
  }

  lemma {:induction false} DecimalsOverflow(done: string, rest: string, d: nat, max: nat)
    requires AllDigits(done) && Value(done) >= TWO64
    ensures Decimals(done, rest, d, max).None?
  {
    if AllDigits(rest) { ValueGrows(done, rest); }
  }

  /** After a dot: exactly the digit strings with few enough decimals and a 64-bit value pass. */
  lemma {:induction false} ScanFraction(s: string, i: nat, max: nat, neg: bool, done: string, d: nat)
    requires i <= |s| && AllDigits(done) && Value(done) < TWO64 && d <= max
    ensures FractionScanned(s, i, max, neg, done, d)
    decreases |s| - i
  {
    if i == |s| {
      assert done + s[i..] == done;
    } else if IsDigit(s[i]) {
      FractionDigit(s, i, max, neg, done, d);
      if Value(done + [s[i]]) < TWO64 && d < max {
        ScanFraction(s, i + 1, max, neg, done + [s[i]], d + 1);
      }
    } else {
      FractionOther(s, i, max, neg, done, d);
    }
  }

  /** From place i after a dot, the loop returns what remains to be read, or an error if nothing can be. */
  ghost predicate FractionScanned(s: string, i: nat, max: nat, neg: bool, done: string, d: nat)
    requires i <= |s| && AllDigits(done)
  {
    var r := Scan(s, i, max, neg, Scanned(Value(done), Some(d)));
    match Decimals(done, s[i..], d, max)
    case Some(acc) => r == Ok(acc)
    case None => r.Err?
  }

  lemma {:induction false} FractionDigit(s: string, i: nat, max: nat, neg: bool, done: string, d: nat)
    requires i < |s| && IsDigit(s[i]) && AllDigits(done) && d <= max
    ensures AllDigits(done + [s[i]])
    ensures Value(done + [s[i]]) >= TWO64 || d == max ==> FractionScanned(s, i, max, neg, done, d)
    ensures Value(done + [s[i]]) < TWO64 && d < max && FractionScanned(s, i + 1, max, neg, done + [s[i]], d + 1) ==>
      FractionScanned(s, i, max, neg, done, d)
  {
    var rest := s[i..];
    assert rest[0] == s[i] && rest[1..] == s[i + 1..];
    DecimalsStep(done, rest, d, max);
    if Value(done + [s[i]]) >= TWO64 { DecimalsOverflow(done + [s[i]], s[i + 1..], d + 1, max); }
  }

  lemma {:induction false} FractionOther(s: string, i: nat, max: nat, neg: bool, done: string, d: nat)
    requires i < |s| && !IsDigit(s[i]) && AllDigits(done)
    ensures FractionScanned(s, i, max, neg, done, d)
  {
    assert s[i..][0] == s[i];
  }

  /** What remains to be read, as digits appended to those already done. */
  ghost function Reading(done: string, rest: string, max: nat): (r: Option<Scanned>)
    requires AllDigits(done)
  {
    var (w, f) := (Whole(rest), Frac(rest));
    if IsNumeral(rest) && |f| <= max && Value(done + w + f) < TWO64
    then Some(Scanned(Value(done + w + f), if '.' in rest then Some(|f|) else None))
    else None
  }

  lemma {:induction false} ReadingStep(done: string, rest: string, max: nat)
    requires AllDigits(done) && rest != "" && IsDigit(rest[0])
    ensures AllDigits(done + [rest[0]]) && Value(done + [rest[0]]) == 10 * Value(done) + DigitVal(rest[0])
    ensures Reading(done, rest, max) == Reading(done + [rest[0]], rest[1..], max)
  {
    ValueAppend(done, rest[0]);
    StepOverChar(rest);
    assert done + Whole(rest) + Frac(rest) == (done + [rest[0]]) + Whole(rest[1..]) + Frac(rest[1..]);
  }

  lemma {:induction false} ReadingDot(done: string, rest: string, max: nat)
    requires AllDigits(done) && rest != "" && rest[0] == '.'
    ensures Reading(done, rest, max) == Decimals(done, rest[1..], 0, max)
  {
    assert Whole(rest) == "" && Frac(rest) == rest[1..];
    assert done + "" == done;
  }

  lemma {:induction false} ReadingOverflows(done: string, rest: string, max: nat)
    requires AllDigits(done) && Value(done) >= TWO64
    ensures Reading(done, rest, max).None?
  {
    var w, f := Whole(rest), Frac(rest);
    if IsNumeral(rest) {
      ValueGrows(done, w);
      ValueGrows(done + w, f);
    }
  }

  /** Before any dot: the loop accepts exactly the numerals it can represent. */
  lemma {:induction false} ScanNumeral(s: string, i: nat, max: nat, neg: bool, done: string)
    requires i <= |s| && AllDigits(done) && Value(done) < TWO64
    requires max > 0 || '.' !in s[i..]
    ensures NumeralScanned(s, i, max, neg, done)
    decreases |s| - i
  {
    if i == |s| {
      assert done + Whole(s[i..]) + Frac(s[i..]) == done;
    } else {
      assert s[i..] == [s[i]] + s[i + 1..];
      if IsDigit(s[i]) {
        NumeralDigit(s, i, max, neg, done);
        if Value(done + [s[i]]) < TWO64 {
          ScanNumeral(s, i + 1, max, neg, done + [s[i]]);
        }
      } else {
        NumeralOther(s, i, max, neg, done);
      }
    }
  }

  /** From place i before any dot, the loop returns what remains to be read, or an error if nothing can be. */
  ghost predicate NumeralScanned(s: string, i: nat, max: nat, neg: bool, done: string)
    requires i <= |s| && AllDigits(done)
  {
    var r := Scan(s, i, max, neg, Scanned(Value(done), None));
    match Reading(done, s[i..], max)
    case Some(acc) => r == Ok(acc)
    case None => r.Err?
  }

  lemma {:induction false} NumeralDigit(s: string, i: nat, max: nat, neg: bool, done: string)
    requires i < |s| && IsDigit(s[i]) && AllDigits(done)
    ensures AllDigits(done + [s[i]])
    ensures Value(done + [s[i]]) >= TWO64 ==> NumeralScanned(s, i, max, neg, done)
    ensures Value(done + [s[i]]) < TWO64 && NumeralScanned(s, i + 1, max, neg, done + [s[i]]) ==>
      NumeralScanned(s, i, max, neg, done)
  {
    var rest := s[i..];
    assert rest[0] == s[i] && rest[1..] == s[i + 1..];
    ReadingStep(done, rest, max);
    ScanDigit(s, i, max, neg, Value(done));
    if Value(done + [s[i]]) >= TWO64 { ReadingOverflows(done + [s[i]], s[i + 1..], max); }
  }

  lemma {:induction false} ScanDigit(s: string, i: nat, max: nat, neg: bool, value: nat)
    requires i < |s| && IsDigit(s[i])
    ensures var value' := 10 * value + DigitVal(s[i]);
      Scan(s, i, max, neg, Scanned(value, None)) ==
        if value' >= TWO64 then Err(Overflow(neg)) else Scan(s, i + 1, max, neg, Scanned(value', None))
  {}

  lemma {:induction false} NumeralOther(s: string, i: nat, max: nat, neg: bool, done: string)
    requires i < |s| && !IsDigit(s[i]) && AllDigits(done) && Value(done) < TWO64 && (s[i] == '.' ==> max > 0)
    ensures NumeralScanned(s, i, max, neg, done)
  {
    var rest := s[i..];
    assert rest[0] == s[i] && rest[1..] == s[i + 1..];
    if s[i] == '.' {
      ReadingDot(done, rest, max);
      ScanFraction(s, i + 1, max, neg, done, 0);
    } else {
      StepOverChar(rest);
    }
  }

  lemma {:induction false} StepOverChar(s: string)
    requires s != "" && s[0] != '.'
    ensures Whole(s) == [s[0]] + Whole(s[1..]) && Frac(s) == Frac(s[1..])
    ensures '.' in s <==> '.' in s[1..]
    ensures IsNumeral(s) <==> IsDigit(s[0]) && IsNumeral(s[1..])
  {
    var i := Find(s[1..], '.');
    var w := [s[0]] + s[1..][..i];
    assert s[..i + 1] == w;
    FindAt(s, '.', i + 1);
    assert s == [s[0]] + s[1..];
    CharThenDigits(s[0], Whole(s[1..]));
  }

  lemma {:induction false} CharThenDigits(c: char, w: string)
    ensures AllDigits([c] + w) <==> IsDigit(c) && AllDigits(w)
  {
    var s := [c] + w;
    assert s[0] == c;
    if AllDigits(s) {
      forall i | 0 <= i < |w| ensures IsDigit(w[i]) { assert s[i + 1] == w[i]; }
    }
  }

  // ---- what is accepted, and as what ----

  lemma {:induction false} ZeroValue(s: string)
    requires AllDigits(s)
    ensures Value(s) == 0 <==> AllZeros(s)
  {
    if s != "" {
      var s' := s[..|s| - 1];
      ZeroValue(s');
      assert s == s' + [s[|s| - 1]];
      assert DigitVal(s[|s| - 1]) == 0 <==> s[|s| - 1] == '0';
    }
  }

  /** Multiples of 10^p are the numerals that end in p zeros. */
  lemma {:induction false} TrailingZeros(s: string, p: nat, v: nat)
    requires AllDigits(s) && p <= |s|
    ensures Value(s) == v * Pow(10, p) <==> AllZeros(s[|s| - p..]) && Value(s[..|s| - p]) == v
    decreases p
  {
    if p == 0 {
      assert s[..|s|] == s;
    } else {
      var n := |s| - 1;
      var s', q := s[..n], Pow(10, p - 1);
      TrailingZeros(s', p - 1, v);
      DropLast(s, p);
      assert v * Pow(10, p) == v * q * 10 by { MulAssoc(v, q, 10); }
      LastDigit(Value(s'), DigitVal(s[n]), v * q);
    }
  }

  lemma {:induction false} DropLast(s: string, p: nat)
    requires 0 < p <= |s|
    ensures var s' := s[..|s| - 1];
      s[..|s| - p] == s'[..|s| - p] && (AllZeros(s[|s| - p..]) <==> s[|s| - 1] == '0' && AllZeros(s'[|s| - p..]))
  {
    var s' := s[..|s| - 1];
    var tail, tail' := s[|s| - p..], s'[|s| - p..];
    assert tail == tail' + [s[|s| - 1]];
    assert tail[p - 1] == s[|s| - 1];
    if AllZeros(tail) {
      forall i | 0 <= i < |tail'| ensures tail'[i] == '0' { assert tail'[i] == tail[i]; }
    }
  }

  lemma {:induction false} LastDigit(a: nat, d: nat, b: nat)
    requires d < 10
    ensures a * 10 + d == b * 10 <==> d == 0 && a == b
  {}

  /** s, without its sign, is worth v satoshis: a numeral whose decimals the unit can hold, or
      one whose sub-satoshi digits are all zero, or a bare zero too short to have those digits. */
  predicate Worth(s: string, denom: Denomination, v: nat)
  {
    var p, w, f := Precision(denom), Whole(s), Frac(s);
    if p < 0 then IsNumeral(s) && |f| <= -p && v == DecimalValue(w, f, -p)
    else
      || (IsNumeral(s) && |w| > p && Value(w) == v * Pow(10, p) && Value(f) == 0)
      || (SignedZero(s) && |s| <= p && v == 0)
  }

  /** w.f in units of 10^-k. */
  function DecimalValue(w: string, f: string, k: nat): (v: nat)
    requires AllDigits(w) && AllDigits(f) && |f| <= k
  {
    Value(w + f) * Pow(10, k - |f|)
  }

  lemma {:induction false} NumeralAccepted(s: string, denom: Denomination, neg: bool, v: nat)
    requires Precision(denom) < 0
    ensures ParseUnsigned(s, denom, neg) == Ok((neg, v)) <==> Worth(s, denom, v) && v < TWO64
  {
    ScanDecimals(s, 0, -Precision(denom), neg, Scanned(0, None));
    ScanThenScale(s, -Precision(denom), neg, v);
  }

  lemma {:induction false} ScanThenScale(s: string, max: nat, neg: bool, v: nat)
    requires max > 0
    requires var r := Scan(s, 0, max, neg, Scanned(0, None));
      r.Ok? && r.value.decimals.Some? ==> r.value.decimals.value <= max
    ensures Finish(Scan(s, 0, max, neg, Scanned(0, None)), max, neg) == Ok((neg, v)) <==>
      IsNumeral(s) && |Frac(s)| <= max && v == DecimalValue(Whole(s), Frac(s), max) && v < TWO64
  {
    var w, f := Whole(s), Frac(s);
    ScanWhole(s, max, neg);
    assert '.' !in s ==> f == "";
    if IsNumeral(s) && |f| <= max {
      ScaledFits(Value(w + f), max - |f|);
    }
  }

  /** The loop from the start of a text. */
  lemma {:induction false} ScanWhole(s: string, max: nat, neg: bool)
    requires max > 0
    ensures var r, w, f := Scan(s, 0, max, neg, Scanned(0, None)), Whole(s), Frac(s);
      if IsNumeral(s) && |f| <= max && Value(w + f) < TWO64
      then r == Ok(Scanned(Value(w + f), if '.' in s then Some(|f|) else None)) else r.Err?
  {
    assert s[0..] == s;
    ScanNumeral(s, 0, max, neg, "");
    assert "" + Whole(s) + Frac(s) == Whole(s) + Frac(s);
  }

  lemma {:induction false} ScaledFits(value: nat, k: nat)
    ensures value * Pow(10, k) < TWO64 ==> value < TWO64
    ensures value < TWO64 ==> Scale(value, k) == if value * Pow(10, k) < TWO64 then Some(value * Pow(10, k)) else None
  {
    ProductGrows(value, Pow(10, k));
    if value < TWO64 { ScaleIs(value, k); }
  }

  lemma {:induction false} NoDots(s: string)
    requires '.' !in s
    ensures Whole(s) == s && Frac(s) == ""
  {}

  /** The integer loop alone: no dot can reach it. */
  lemma {:induction false} IntegerAccepted(t: string, neg: bool, v: nat)
    requires '.' !in t
    ensures Scan(t, 0, 0, neg, Scanned(0, None)) == Ok(Scanned(v, None)) <==> AllDigits(t) && Value(t) == v < TWO64
    ensures var r := Scan(t, 0, 0, neg, Scanned(0, None)); r.Ok? ==> r.value.decimals.None?
  {
    assert t[0..] == t;
    NoDots(t);
    assert "" + t + "" == t;
    ScanNumeral(t, 0, 0, neg, "");
  }

  lemma {:induction false} DigitsOfParts(w: string, n: nat)
    requires n <= |w|
    ensures AllDigits(w) <==> AllDigits(w[..n]) && AllDigits(w[n..])
  {}

  lemma {:induction false} PreciseAccepted(s: string, denom: Denomination, neg: bool, v: nat)
    requires Precision(denom) >= 0 && IsTooPrecise(s, Precision(denom)).None?
    ensures ParseUnsigned(s, denom, neg) == Ok((neg, v)) <==> Worth(s, denom, v) && v < TWO64
  {
    PreciseParsed(s, denom, neg, v);
    PreciseWorth(s, denom, v);
  }

  lemma {:induction false} PreciseParsed(s: string, denom: Denomination, neg: bool, v: nat)
    requires Precision(denom) >= 0 && IsTooPrecise(s, Precision(denom)).None?
    ensures var t := Whole(s)[..|Whole(s)| - Precision(denom)];
      ParseUnsigned(s, denom, neg) == Ok((neg, v)) <==> AllDigits(t) && Value(t) == v < TWO64
  {
    var n := |Whole(s)| - Precision(denom);
    assert s[..n] == Whole(s)[..n];
    IntegerAccepted(s[..n], neg, v);
  }

  lemma {:induction false} PreciseWorth(s: string, denom: Denomination, v: nat)
    requires Precision(denom) >= 0 && IsTooPrecise(s, Precision(denom)).None?
    ensures var t := Whole(s)[..|Whole(s)| - Precision(denom)];
      Worth(s, denom, v) <==> AllDigits(t) && Value(t) == v
  {
    var p, w, f := Precision(denom), Whole(s), Frac(s);
    DigitsOfParts(w, |w| - p);
    if AllDigits(w) { TrailingZeros(w, p, v); }
    assert AllDigits(f);
    ZeroValue(f);
  }

  lemma {:induction false} ImpreciseAccepted(s: string, denom: Denomination, neg: bool, v: nat)
    requires Precision(denom) >= 0 && IsTooPrecise(s, Precision(denom)).Some?
    ensures ParseUnsigned(s, denom, neg) == Ok((neg, v)) <==> Worth(s, denom, v) && v < TWO64
  {
    var p := Precision(denom);
    ImprecisePart(s, p, neg, v);
    if IsNumeral(s) && |Whole(s)| > p { ImpreciseNumeral(s, p, v); }
    if SignedZero(s) { ImpreciseZero(s, p); }
  }

  lemma {:induction false} ImprecisePart(s: string, p: nat, neg: bool, v: nat)
    requires IsTooPrecise(s, p).Some?
    ensures IntegerPart(s, p, neg) == Ok((neg, v)) <==> SignedZero(s) && v == 0
  {}

  lemma {:induction false} ImpreciseNumeral(s: string, p: nat, v: nat)
    requires IsNumeral(s) && |Whole(s)| > p && IsTooPrecise(s, p).Some?
    ensures !(Value(Whole(s)) == v * Pow(10, p) && Value(Frac(s)) == 0)
  {
    ZeroValue(Frac(s));
    TrailingZeros(Whole(s), p, v);
  }

  lemma {:induction false} ImpreciseZero(s: string, p: nat)
    requires SignedZero(s) && IsTooPrecise(s, p).Some?
    ensures |s| <= p
  {}

  /** The parser accepts exactly the texts of at most 50 characters that are worth a 64-bit number
      of satoshis, and returns that number with the sign written. */
  lemma {:induction false} AcceptedIff(s: string, denom: Denomination, neg: bool, v: nat)
    ensures ParseSigned(s, denom) == Ok((neg, v)) <==>
      && 0 < |s| <= INPUT_STRING_LEN_LIMIT && s != "-" && neg == (s[0] == '-')
      && Worth(Unsigned(s), denom, v) && v < TWO64
  {
    if Worth(Unsigned(s), denom, v) { WorthAscii(s, denom, v); }
    if 0 < Size(s) <= INPUT_STRING_LEN_LIMIT && s != "-" {
      var t, n := Unsigned(s), s[0] == '-';
      if Precision(denom) < 0 {
        NumeralAccepted(t, denom, n, v);
      } else if IsTooPrecise(t, Precision(denom)).None? {
        PreciseAccepted(t, denom, n, v);
      } else {
        ImpreciseAccepted(t, denom, n, v);
      }
      SignKept(t, denom, n);
    }
  }

  /** Whatever is worth an amount is plain ASCII, so its length in bytes is its length. */
  lemma {:induction false} WorthAscii(s: string, denom: Denomination, v: nat)
    requires Worth(Unsigned(s), denom, v)
    ensures Size(s) == |s|
  {
    var t := Unsigned(s);
    if IsNumeral(t) { NumeralAscii(t); } else { ZeroAscii(t); }
    assert s != t ==> s == ['-'] + t;
    AsciiSize(s);
  }

  lemma {:induction false} NumeralAscii(t: string)
    requires IsNumeral(t)
    ensures Ascii(t)
  {}

  lemma {:induction false} ZeroAscii(t: string)
    requires SignedZero(t)
    ensures Ascii(t)
  {}

  lemma {:induction false} SignKept(s: string, denom: Denomination, neg: bool)
    ensures var r := ParseUnsigned(s, denom, neg); r.Ok? ==> r.value.0 == neg
  {
    var p := Precision(denom);
    if p >= 0 { IntegerSign(s, p, neg); } else { ScanSign(s, -p, neg); }
  }

  lemma {:induction false} IntegerSign(s: string, p: nat, neg: bool)
    ensures var r := IntegerPart(s, p, neg); r.Ok? ==> r.value.0 == neg
  {
    if IsTooPrecise(s, p).None? { ScanSign(s[..Find(s, '.') - p], 0, neg); }
  }

  lemma {:induction false} ScanSign(s: string, maxDecimals: nat, neg: bool)
    ensures var scanned := Scan(s, 0, maxDecimals, neg, Scanned(0, None));
      && (scanned.Ok? && scanned.value.decimals.Some? ==> scanned.value.decimals.value <= maxDecimals)
      && var r := Finish(scanned, maxDecimals, neg); r.Ok? ==> r.value.0 == neg
  {
    ScanDecimals(s, 0, maxDecimals, neg, Scanned(0, None));
  }

  // ---- the loops ----

  /** The digit loop followed by the decimal shift. */
  method ScanLoop(s: string, maxDecimals: nat, isNegative: bool) returns (r: Result<(bool, nat), InnerError>)
    ensures var scanned := Scan(s, 0, maxDecimals, isNegative, Scanned(0, None));
      && (scanned.Ok? && scanned.value.decimals.Some? ==> scanned.value.decimals.value <= maxDecimals)
      && r == Finish(scanned, maxDecimals, isNegative)
  {
    ScanDecimals(s, 0, maxDecimals, isNegative, Scanned(0, None));
    var scanned := DigitLoop(s, maxDecimals, isNegative);
    if scanned.Err? {
      return Err(scanned.error);
    }
    var decimals := scanned.value.decimals;
    r := ScaleLoop(scanned.value.value, maxDecimals - (if decimals.Some? then decimals.value else 0), isNegative);
  }

  method DigitLoop(s: string, maxDecimals: nat, isNegative: bool) returns (r: Result<Scanned, InnerError>)
    ensures r == Scan(s, 0, maxDecimals, isNegative, Scanned(0, None))
  {
    ghost var scanned := Scan(s, 0, maxDecimals, isNegative, Scanned(0, None));
    var decimals: Option<nat> := None;
    var value: nat := 0;
    var i, position := 0, 0;
    while i < |s|
      invariant i <= |s| && position == Size(s[..i])
      invariant Scan(s, i, maxDecimals, isNegative, Scanned(value, decimals)) == scanned
    {
      var at := position + if isNegative then 1 else 0;
      var c := s[i];
      SizeNext(s, i);
      if IsDigit(c) {
        if 10 * value >= TWO64 { return Err(Overflow(isNegative)); }
        if 10 * value + DigitVal(c) >= TWO64 { return Err(Overflow(isNegative)); }
        value := 10 * value + DigitVal(c);
        if decimals.Some? {
          if decimals.value >= maxDecimals { return Err(TooPrecise(at)); }
          decimals := Some(decimals.value + 1);
        }
      } else if c == '.' {
        if decimals.Some? { return Err(InvalidCharacter('.', at)); }
        if maxDecimals == 0 { break; }
        decimals := Some(0);
      } else {
        return Err(InvalidCharacter(c, at));
      }
      i, position := i + 1, position + Width(c);
    }
    r := Ok(Scanned(value, decimals));
  }

  method ScaleLoop(start: nat, scaleFactor: nat, isNegative: bool) returns (r: Result<(bool, nat), InnerError>)
    ensures r == match Scale(start, scaleFactor)
      case None => Err(Overflow(isNegative))
      case Some(v) => Ok((isNegative, v))
  {
    var value: nat := start;
    for k := 0 to scaleFactor
      invariant Scale(value, scaleFactor - k) == Scale(start, scaleFactor)
    {
      if 10 * value >= TWO64 { return Err(Overflow(isNegative)); }
      value := 10 * value;
    }
    r := Ok((isNegative, value));
  }

  /** The text after its sign. */
  method ParseMagnitude(s: string, denom: Denomination, isNegative: bool) returns (r: Result<(bool, nat), InnerError>)
    ensures r == ParseUnsigned(s, denom, isNegative)
  {
    var precisionDiff := -Precision(denom);
    if precisionDiff <= 0 {
      r := ParseInteger(s, -precisionDiff, isNegative);
    } else {
      r := ScanLoop(s, precisionDiff, isNegative);
    }
  }

  /** In a unit of at most a satoshi: the last digits must be zeros. */
  method ParseInteger(s: string, lastN: nat, isNegative: bool) returns (r: Result<(bool, nat), InnerError>)
    ensures r == IntegerPart(s, lastN, isNegative)
  {
    var tooPrecise := IsTooPrecise(s, lastN);
    if tooPrecise.Some? {
      if SignedZero(s) { return Ok((isNegative, 0)); }
      return Err(TooPrecise(tooPrecise.value + if isNegative then 1 else 0));
    }
    r := ScanLoop(s[..Find(s, '.') - lastN], 0, isNegative);
  }

  method ParseSignedToSatoshi(text: string, denom: Denomination) returns (r: Result<(bool, nat), InnerError>)
    ensures r == ParseSigned(text, denom)
  {
    var s := text;
    if s == "" { return Err(MissingDigitsEmpty); }
    if Size(s) > INPUT_STRING_LEN_LIMIT { return Err(InputTooLarge(Size(s))); }
    var isNegative := s[0] == '-';
    if isNegative {
      if |s| == 1 { return Err(MissingDigitsOnlyMinusSign); }
      s := s[1..];
    }
    r := ParseMagnitude(s, denom, isNegative);
  }

  // ---- amounts ----

  datatype AmountError =
    | OutOfRange(isSigned: bool, isGreaterThanMax: bool)
    | Precise(position: nat)
    | MissingEmpty
    | MissingOnlyMinus
    | TooLarge(length: nat)
    | Invalid(invalidChar: char, position: nat)

  function ConvertError(e: InnerError, isSigned: bool): (a: AmountError)
  {
    match e
    case Overflow(neg) => OutOfRange(isSigned, !neg)
    case TooPrecise(at) => Precise(at)
    case MissingDigitsEmpty => MissingEmpty
    case MissingDigitsOnlyMinusSign => MissingOnlyMinus
    case InputTooLarge(n) => TooLarge(n)
    case InvalidCharacter(c, at) => Invalid(c, at)
  }

  const I64_MAX: nat := TWO64 / 2 - 1
  const I64_MIN: int := -(TWO64 / 2)

  function AmountFromStrIn(s: string, denom: Denomination): (r: Result<nat, AmountError>)
  {
    ToUnsigned(ParseSigned(s, denom))
  }

  /** The unsigned amount of a sign and a number of satoshis. */
  function ToUnsigned(r: Result<(bool, nat), InnerError>): (a: Result<nat, AmountError>)
  {
    match r
    case Err(e) => Err(ConvertError(e, false))
    case Ok((neg, sat)) => if neg then Err(OutOfRange(false, false)) else Ok(sat)
  }

  /** The signed amount of a sign and a number of satoshis. */
  function ToSigned(r: Result<(bool, nat), InnerError>): (a: Result<int, AmountError>)
    ensures a.Ok? ==> -0x8000_0000_0000_0000 <= a.value < 0x8000_0000_0000_0000
  {
    match r
    case Err(e) => Err(ConvertError(e, true))
    case Ok((neg, sat)) =>
      if !neg && sat > I64_MAX then Err(OutOfRange(true, true))
      else if !neg then Ok(sat as int)
      else if sat == -I64_MIN then Ok(I64_MIN)
      else if sat > -I64_MIN then Err(OutOfRange(true, false))
      else Ok(-(sat as int))
  }

  function SignedFromStrIn(s: string, denom: Denomination): (r: Result<int, AmountError>)
    ensures r.Ok? ==> I64_MIN <= r.value <= I64_MAX
  {
    ToSigned(ParseSigned(s, denom))
  }

  datatype ParseError = Amount(amount: AmountError) | Denominated(denomination: DenominationError) | MissingDenomination

  /** What counts as a letter: any notion that agrees with A to Z and a to z on ASCII. */
  ghost predicate Letters(alphabetic: char -> bool)
  {
    forall c: char :: c as int < 0x80 ==> (alphabetic(c) <==> IsAlphabetic(c))
  }

  function FindAlphabetic(alphabetic: char -> bool, s: string): (i: nat)
    ensures i <= |s| && forall k :: 0 <= k < i ==> !alphabetic(s[k])
    ensures i < |s| ==> alphabetic(s[i])
  {
    if s == "" || alphabetic(s[0]) then 0
    else
      var i := FindAlphabetic(alphabetic, s[1..]) + 1;
      assert forall k :: 0 < k < i ==> s[k] == s[1..][k - 1];
      i
  }

  lemma {:induction false} AlphabeticAt(alphabetic: char -> bool, s: string, i: nat)
    requires i < |s| && alphabetic(s[i]) && forall k :: 0 <= k < i ==> !alphabetic(s[k])
    ensures FindAlphabetic(alphabetic, s) == i
  {}

  /** The amount before the first space, or else before the first letter; the unit after it. */
  function SplitAmount(alphabetic: char -> bool, s: string): (r: Result<(string, Denomination), ParseError>)
  {
    var space, letter := Find(s, ' '), FindAlphabetic(alphabetic, s);
    if space == |s| && letter == |s| then Err(MissingDenomination)
    else
      var (i, j) := if space < |s| then (space, space + 1) else (letter, letter);
      match ParseDenomination(s[j..])
      case Err(e) => Err(Denominated(e))
      case Ok(d) => Ok((s[..i], d))
  }

  function AmountFromStr(alphabetic: char -> bool, s: string): (r: Result<nat, ParseError>)
  {
    match SplitAmount(alphabetic, s)
    case Err(e) => Err(e)
    case Ok((text, denom)) =>
      match AmountFromStrIn(text, denom)
      case Err(e) => Err(Amount(e))
      case Ok(v) => Ok(v)
  }

  function SignedFromStr(alphabetic: char -> bool, s: string): (r: Result<int, ParseError>)
  {
    match SplitAmount(alphabetic, s)
    case Err(e) => Err(e)
    case Ok((text, denom)) =>
      match SignedFromStrIn(text, denom)
      case Err(e) => Err(Amount(e))
      case Ok(v) => Ok(v)
  }

  /** At the first space, if there is one, and the unit is whatever follows. */
  lemma {:induction false} SplitAtSpace(alphabetic: char -> bool, text: string, unit: string)
    requires ' ' !in text
    ensures SplitAmount(alphabetic, text + " " + unit) ==
      match ParseDenomination(unit)
      case Err(e) => Err(Denominated(e))
      case Ok(d) => Ok((text, d))
  {
    var s, n := text + " " + unit, |text|;
    assert s[..n] == text && s[n] == ' ' && s[n + 1..] == unit;
    FindAt(s, ' ', n);
  }

  /** Text without a space and without a letter has no unit. */
  lemma {:induction false} NoUnit(alphabetic: char -> bool, s: string)
    ensures SplitAmount(alphabetic, s) == Err(MissingDenomination) <==>
      forall k :: 0 <= k < |s| ==> s[k] != ' ' && !alphabetic(s[k])
  {
    var space, letter := Find(s, ' '), FindAlphabetic(alphabetic, s);
    if space == |s| { assert s[..|s|] == s; }
  }

  /** Text free of spaces and letters directly followed by a unit's name is split between the two. */
  lemma {:induction false} SplitAtLetter(alphabetic: char -> bool, text: string, d: Denomination)
    requires Letters(alphabetic) && forall k :: 0 <= k < |text| ==> text[k] != ' ' && !alphabetic(text[k])
    ensures SplitAmount(alphabetic, text + AsStr(d)) == Ok((text, d))
  {
    var name, n := AsStr(d), |text|;
    NameRoundTrip(d);
    var t := text + name;
    assert t[..n] == text && t[n..] == name && t[n] == name[0];
    assert t[..|t|] == t;
    FindAt(t, ' ', |t|);
    AlphabeticAt(alphabetic, t, n);
  }
}
