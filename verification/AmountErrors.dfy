/** What the errors of the amount parser say (units/src/amount.rs). */
module AmountErrors {
  import opened Wrappers
  import opened Arith
  import opened Decimal
  import opened Denominations
  import opened AmountParse

  // ---- out of range ----

  lemma {:induction false} ScanOverflow(s: string, i: nat, max: nat, neg: bool, acc: Scanned, n: bool)
    requires i <= |s| && Scan(s, i, max, neg, acc) == Err(Overflow(n))
    ensures n == neg
    decreases |s| - i
  {
    if i < |s| && Scan(s, i, max, neg, acc) != Err(Overflow(neg)) {
      if IsDigit(s[i]) {
        var value := 10 * acc.value + DigitVal(s[i]);
        ScanOverflow(
          s, i + 1, max, neg,
          Scanned(value, if acc.decimals.None? then None else Some(acc.decimals.value + 1)), n);
      } else {
        ScanOverflow(s, i + 1, max, neg, acc.(decimals := Some(0)), n);
      }
    }
  }

  lemma {:induction false} FinishOverflow(s: string, max: nat, neg: bool, n: bool)
    requires var r := Scan(s, 0, max, neg, Scanned(0, None));
      r.Ok? && r.value.decimals.Some? ==> r.value.decimals.value <= max
    requires Finish(Scan(s, 0, max, neg, Scanned(0, None)), max, neg) == Err(Overflow(n))
    ensures n == neg
  {
    if Scan(s, 0, max, neg, Scanned(0, None)).Err? { ScanOverflow(s, 0, max, neg, Scanned(0, None), n); }
  }

  lemma {:induction false} ParsedOverflow(s: string, d: Denomination, neg: bool, n: bool)
    requires ParseUnsigned(s, d, neg) == Err(Overflow(n))
    ensures n == neg
  {
    var p := Precision(d);
    if p < 0 {
      ScanDecimals(s, 0, -p, neg, Scanned(0, None));
      FinishOverflow(s, -p, neg, n);
    } else if IsTooPrecise(s, p).None? {
      var t := s[..Find(s, '.') - p];
      ScanDecimals(t, 0, 0, neg, Scanned(0, None));
      FinishOverflow(t, 0, neg, n);
    }
  }

  /** An amount out of range is reported for the type that was asked for, and as too large exactly when
      it was not written with a minus. */
  lemma {:induction false} OutOfRangeTells(s: string, d: Denomination, isSigned: bool, large: bool)
    ensures AmountFromStrIn(s, d) == Err(OutOfRange(isSigned, large)) ==>
      !isSigned && s != "" && (large <==> s[0] != '-')
    ensures SignedFromStrIn(s, d) == Err(OutOfRange(isSigned, large)) ==>
      isSigned && s != "" && (large <==> s[0] != '-')
  {
    SignTells(s, d);
    ErrorTells(ParseSigned(s, d), s != "" && s[0] == '-', isSigned, large);
    if s == "" { assert ParseSigned(s, d) == Err(MissingDigitsEmpty); }
  }

  lemma {:induction false} ErrorTells(r: Result<(bool, nat), InnerError>, neg: bool, isSigned: bool, large: bool)
    requires r.Ok? ==> r.value.0 == neg
    requires r.Err? && r.error.Overflow? ==> r.error.isNegative == neg
    ensures ToUnsigned(r) == Err(OutOfRange(isSigned, large)) ==> !isSigned && large == !neg
    ensures ToSigned(r) == Err(OutOfRange(isSigned, large)) ==> isSigned && large == !neg
    ensures ToUnsigned(r) == Err(OutOfRange(isSigned, large)) || ToSigned(r) == Err(OutOfRange(isSigned, large)) ==>
      r.Ok? || r.error.Overflow?
  {}

  lemma {:induction false} SignTells(s: string, d: Denomination)
    ensures var r := ParseSigned(s, d);
      && (r.Ok? ==> s != "" && r.value.0 == (s[0] == '-'))
      && (r.Err? && r.error.Overflow? ==> s != "" && r.error.isNegative == (s[0] == '-'))
  {
    var r := ParseSigned(s, d);
    if s != "" && r.Ok? { AcceptedIff(s, d, r.value.0, r.value.1); }
    if s != "" && r.Err? && r.error.Overflow? {
      ParsedOverflow(Unsigned(s), d, s[0] == '-', r.error.isNegative);
    }
  }

  // ---- the other errors ----

  /** The character c stands in s where byte `at` is, and is no digit. */
  ghost predicate StandsAt(s: string, c: char, at: nat)
  {
    exists k :: 0 <= k < |s| && s[k] == c && !IsDigit(c) && at == Size(s[..k])
  }

  lemma {:induction false} ScanInvalid(s: string, i: nat, max: nat, neg: bool, acc: Scanned, c: char, at: nat)
    returns (k: nat)
    requires i <= |s| && Scan(s, i, max, neg, acc) == Err(InvalidCharacter(c, at))
    ensures k < |s| && s[k] == c && !IsDigit(c) && at == Size(s[..k]) + if neg then 1 else 0
    decreases |s| - i
  {
    k := i;
    if IsDigit(s[i]) {
      var value := 10 * acc.value + DigitVal(s[i]);
      k := ScanInvalid(
        s, i + 1, max, neg, Scanned(value, if acc.decimals.None? then None else Some(acc.decimals.value + 1)), c, at);
    } else if s[i] == '.' && acc.decimals.None? {
      k := ScanInvalid(s, i + 1, max, neg, acc.(decimals := Some(0)), c, at);
    }
  }

  lemma {:induction false} IntegerInvalid(s: string, p: nat, neg: bool, c: char, at: nat) returns (k: nat)
    requires IntegerPart(s, p, neg) == Err(InvalidCharacter(c, at))
    ensures k < |s| && s[k] == c && !IsDigit(c) && at == Size(s[..k]) + if neg then 1 else 0
  {
    var t := s[..Find(s, '.') - p];
    k := ScanInvalid(t, 0, 0, neg, Scanned(0, None), c, at);
    assert t[..k] == s[..k];
  }

  lemma {:induction false} ParsedInvalid(s: string, d: Denomination, neg: bool, c: char, at: nat) returns (k: nat)
    requires ParseUnsigned(s, d, neg) == Err(InvalidCharacter(c, at))
    ensures k < |s| && s[k] == c && !IsDigit(c) && at == Size(s[..k]) + if neg then 1 else 0
  {
    var p := Precision(d);
    if p < 0 {
      k := ScanInvalid(s, 0, -p, neg, Scanned(0, None), c, at);
    } else {
      k := IntegerInvalid(s, p, neg, c, at);
    }
  }

  predicate OfDigits(e: InnerError)
  {
    e.Overflow? || e.TooPrecise? || e.InvalidCharacter?
  }

  lemma {:induction false} ScanErrors(s: string, i: nat, max: nat, neg: bool, acc: Scanned)
    requires i <= |s|
    ensures var r := Scan(s, i, max, neg, acc); r.Err? ==> OfDigits(r.error)
    decreases |s| - i
  {
    if i < |s| {
      if IsDigit(s[i]) {
        var value := 10 * acc.value + DigitVal(s[i]);
        ScanErrors(
          s, i + 1, max, neg, Scanned(value, if acc.decimals.None? then None else Some(acc.decimals.value + 1)));
      } else {
        ScanErrors(s, i + 1, max, neg, acc.(decimals := Some(0)));
      }
    }
  }

  lemma {:induction false} ParsedErrors(s: string, d: Denomination, neg: bool)
    ensures var r := ParseUnsigned(s, d, neg); r.Err? ==> OfDigits(r.error)
  {
    var p := Precision(d);
    if p < 0 {
      ScanDecimals(s, 0, -p, neg, Scanned(0, None));
      ScanErrors(s, 0, -p, neg, Scanned(0, None));
    } else if IsTooPrecise(s, p).None? {
      var t := s[..Find(s, '.') - p];
      ScanDecimals(t, 0, 0, neg, Scanned(0, None));
      ScanErrors(t, 0, 0, neg, Scanned(0, None));
    }
  }

  lemma {:induction false} SizeAfterMinus(s: string, k: nat)
    requires s != "" && s[0] == '-' && k <= |s| - 1
    ensures Size(s[..k + 1]) == 1 + Size(s[1..][..k])
    decreases k
  {
    if k == 0 {
      assert s[..1] == ['-'] && s[..1][..0] == "";
    } else {
      SizeAfterMinus(s, k - 1);
      SizeNext(s, k);
      SizeNext(s[1..], k - 1);
    }
  }

  /** Every complaint is true: nothing, a bare minus, too many bytes, or a character that is no digit, at
      the byte where it stands. */
  lemma {:induction false} ErrorsTrue(s: string, d: Denomination)
    ensures ParseSigned(s, d) == Err(MissingDigitsEmpty) <==> s == ""
    ensures ParseSigned(s, d) == Err(MissingDigitsOnlyMinusSign) <==> s == "-"
    ensures forall n :: ParseSigned(s, d) == Err(InputTooLarge(n)) <==> n == Size(s) > 50
    ensures forall c, at :: ParseSigned(s, d) == Err(InvalidCharacter(c, at)) ==> StandsAt(s, c, at)
  {
    assert Size("") == 0;
    AsciiSize("-");
    if s != "" {
      ParsedErrors(Unsigned(s), d, s[0] == '-');
      forall c, at | ParseSigned(s, d) == Err(InvalidCharacter(c, at)) ensures StandsAt(s, c, at) {
        InvalidStands(s, d, c, at);
      }
    }
  }

  lemma {:induction false} InvalidStands(s: string, d: Denomination, c: char, at: nat)
    requires s != "" && ParseUnsigned(Unsigned(s), d, s[0] == '-') == Err(InvalidCharacter(c, at))
    ensures StandsAt(s, c, at)
  {
    var k := ParsedInvalid(Unsigned(s), d, s[0] == '-', c, at);
    if s[0] == '-' {
      SizeAfterMinus(s, k);
      assert s[k + 1] == c;
    } else {
      assert s[k] == c;
    }
  }

  /** The conversions to amount errors keep what was said. */
  lemma {:induction false} ErrorsKept(r: Result<(bool, nat), InnerError>)
    requires r.Err?
    ensures (r.error == MissingDigitsEmpty <==> ToUnsigned(r) == Err(MissingEmpty))
    ensures (r.error == MissingDigitsOnlyMinusSign <==> ToUnsigned(r) == Err(MissingOnlyMinus))
    ensures forall n :: r.error == InputTooLarge(n) <==> ToUnsigned(r) == Err(TooLarge(n))
    ensures forall at :: r.error == TooPrecise(at) <==> ToUnsigned(r) == Err(Precise(at))
    ensures forall c, at :: r.error == InvalidCharacter(c, at) <==> ToUnsigned(r) == Err(Invalid(c, at))
    ensures !r.error.Overflow? ==> ToSigned(r).Err? && ToSigned(r).error == ToUnsigned(r).error
  {}
}
