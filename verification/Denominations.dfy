/** The units in which amounts are written (units/src/amount.rs). */
module Denominations {
  import opened Wrappers

  datatype Denomination =
    | Bitcoin
    | CentiBitcoin
    | MilliBitcoin
    | MicroBitcoin
    | NanoBitcoin
    | PicoBitcoin
    | Bit
    | Satoshi
    | MilliSatoshi

  /** A satoshi is ten to this power of the unit. */
  function Precision(d: Denomination): (p: int)
    ensures -8 <= p <= 4
  {
    match d
    case Bitcoin => -8
    case CentiBitcoin => -6
    case MilliBitcoin => -5
    case MicroBitcoin => -2
    case NanoBitcoin => 1
    case PicoBitcoin => 4
    case Bit => -2
    case Satoshi => 0
    case MilliSatoshi => 3
  }

  function AsStr(d: Denomination): (s: string)
  {
    match d
    case Bitcoin => "BTC"
    case CentiBitcoin => "cBTC"
    case MilliBitcoin => "mBTC"
    case MicroBitcoin => "uBTC"
    case NanoBitcoin => "nBTC"
    case PicoBitcoin => "pBTC"
    case Bit => "bits"
    case Satoshi => "satoshi"
    case MilliSatoshi => "msat"
  }

  function Forms(s: string): (d: Option<Denomination>)
  {
    if BitcoinForms(s).Some? then BitcoinForms(s) else SmallForms(s)
  }

  function BitcoinForms(s: string): (d: Option<Denomination>)
  {
    if s == "BTC" || s == "btc" then Some(Bitcoin)
    else if s == "cBTC" || s == "cbtc" then Some(CentiBitcoin)
    else if s == "mBTC" || s == "mbtc" then Some(MilliBitcoin)
    else if s == "uBTC" || s == "ubtc" then Some(MicroBitcoin)
    else if s == "nBTC" || s == "nbtc" then Some(NanoBitcoin)
    else if s == "pBTC" || s == "pbtc" then Some(PicoBitcoin)
    else None
  }

  function SmallForms(s: string): (d: Option<Denomination>)
  {
    if s == "bit" || s == "bits" || s == "BIT" || s == "BITS" then Some(Bit)
    else if s == "SATOSHI" || s == "satoshi" || s == "SATOSHIS" || s == "satoshis" then Some(Satoshi)
    else if s == "SAT" || s == "sat" || s == "SATS" || s == "sats" then Some(Satoshi)
    else if s == "mSAT" || s == "msat" || s == "mSATs" || s == "msats" then Some(MilliSatoshi)
    else None
  }

  const CONFUSING_FORMS: seq<string> :=
    ["Msat", "Msats", "MSAT", "MSATS", "MSat", "MSats", "MBTC", "Mbtc", "PBTC"]

  datatype DenominationError = PossiblyConfusing(text: string) | Unknown(text: string)

  function ParseDenomination(s: string): (r: Result<Denomination, DenominationError>)
  {
    if s in CONFUSING_FORMS then Err(PossiblyConfusing(s))
    else match Forms(s)
      case Some(d) => Ok(d)
      case None => Err(Unknown(s))
  }

  /** A capital M before a satoshi in small, capitalized or capital letters, or before a coin in one case,
      and a capital P before BTC, are told apart from unknown units. */
  lemma {:induction false} ConfusingIff(s: string)
    ensures ParseDenomination(s) == Err(PossiblyConfusing(s)) <==>
      s != "" && var name := s[1..];
        || (s[0] == 'M' && (InOneCase(name, "sat") || InOneCase(name, "sats") || name == "Sat" || name == "Sats"
          || InOneCase(name, "btc")))
        || (s[0] == 'P' && name == "BTC")
    ensures ParseDenomination(s).Err? && s !in CONFUSING_FORMS ==> ParseDenomination(s) == Err(Unknown(s))
  {
    UpperNames();
    assert s != "" ==> s == [s[0]] + s[1..];
    assert "M" + "sat" == "Msat" && "M" + "sats" == "Msats" && "M" + "SAT" == "MSAT" && "M" + "SATS" == "MSATS";
    assert "M" + "Sat" == "MSat" && "M" + "Sats" == "MSats" && "M" + "BTC" == "MBTC" && "M" + "btc" == "Mbtc";
    assert "P" + "BTC" == "PBTC";
  }

  lemma {:induction false} ConfusingCapital(s: string)
    requires s in CONFUSING_FORMS
    ensures |s| > 0 && (s[0] == 'M' || s[0] == 'P')
  {}

  /** Every unit reads back from its own name, which starts with a letter and has no space. */
  lemma {:induction false} NameRoundTrip(d: Denomination)
    ensures ParseDenomination(AsStr(d)) == Ok(d)
    ensures |AsStr(d)| > 0 && ' ' !in AsStr(d) && IsAlphabetic(AsStr(d)[0])
  {
    FormsOfName(d);
    var s := AsStr(d);
    assert s[0] != 'M' && s[0] != 'P';
    if s in CONFUSING_FORMS { ConfusingCapital(s); }
  }

  lemma {:induction false} FormsOfName(d: Denomination)
    ensures Forms(AsStr(d)) == Some(d)
  {
    var s := AsStr(d);
    assert |s| > 1;
    match d
    case Bitcoin =>
    case CentiBitcoin => assert s[0] == 'c';
    case MilliBitcoin => assert s[0] == 'm' && s[1] == 'B';
    case MicroBitcoin => assert s[0] == 'u';
    case NanoBitcoin => assert s[0] == 'n';
    case PicoBitcoin => assert s[0] == 'p';
    case Bit => assert s[0] == 'b' && s[1] == 'i';
    case Satoshi => assert s[0] == 's';
    case MilliSatoshi => assert s[0] == 'm' && s[1] == 's';
  }

  // ---- the accepted spellings ----

  function UpperChar(c: char): (u: char)
  {
    if 'a' <= c <= 'z' then (c as int - 32) as char else c
  }

  function Upper(s: string): (u: string)
    ensures |u| == |s| && forall i :: 0 <= i < |s| ==> u[i] == UpperChar(s[i])
  {
    seq(|s|, i requires 0 <= i < |s| => UpperChar(s[i]))
  }

  /** A lower-case name, or all of it in upper case. */
  predicate InOneCase(s: string, name: string)
  {
    s == name || s == Upper(name)
  }

  /** The letter in front of the unit. */
  function Prefix(d: Denomination): (s: string)
  {
    match d
    case CentiBitcoin => "c"
    case MilliBitcoin => "m"
    case MicroBitcoin => "u"
    case NanoBitcoin => "n"
    case PicoBitcoin => "p"
    case MilliSatoshi => "m"
    case _ => ""
  }

  /** A lower-case prefix and a name in one case; the plural of SAT after a prefix takes a small s. */
  predicate Spelled(s: string, d: Denomination)
  {
    Prefix(d) <= s &&
    var name := s[|Prefix(d)|..];
    match d
    case Bit => InOneCase(name, "bit") || InOneCase(name, "bits")
    case Satoshi =>
      || InOneCase(name, "sat") || InOneCase(name, "sats")
      || InOneCase(name, "satoshi") || InOneCase(name, "satoshis")
    case MilliSatoshi => InOneCase(name, "sat") || name == "sats" || name == "SATs"
    case _ => InOneCase(name, "btc")
  }

  /** The parser accepts exactly the spellings of a unit, and as that unit. */
  lemma {:induction false} SpellingsIff(s: string, d: Denomination)
    ensures ParseDenomination(s) == Ok(d) <==> Spelled(s, d)
  {
    FormsIff(s, d);
    if Forms(s).Some? { NotConfusing(s); }
  }

  lemma {:induction false} NotConfusing(s: string)
    requires Forms(s).Some?
    ensures s !in CONFUSING_FORMS
  {
    FormLetters(s);
    if s in CONFUSING_FORMS { ConfusingCapital(s); }
  }

  /** The first two letters of an accepted spelling tell its unit. */
  function ByLetters(a: char, b: char): (d: Denomination)
  {
    if a == 'c' then CentiBitcoin
    else if a == 'm' then if b == 'B' || b == 'b' then MilliBitcoin else MilliSatoshi
    else if a == 'u' then MicroBitcoin
    else if a == 'n' then NanoBitcoin
    else if a == 'p' then PicoBitcoin
    else if a == 's' || a == 'S' then Satoshi
    else if b == 'i' || b == 'I' then Bit
    else Bitcoin
  }

  lemma {:induction false} FormLetters(s: string)
    requires Forms(s).Some?
    ensures |s| >= 2 && IsAlphabetic(s[0]) && s[0] != 'M' && s[0] != 'P' && Forms(s) == Some(ByLetters(s[0], s[1]))
  {
    if BitcoinForms(s).Some? { BitcoinLetters(s); } else { SmallLetters(s); }
  }

  lemma {:induction false} BitcoinLetters(s: string)
    requires BitcoinForms(s).Some?
    ensures |s| >= 2 && IsAlphabetic(s[0]) && s[0] != 'M' && s[0] != 'P'
    ensures BitcoinForms(s) == Some(ByLetters(s[0], s[1]))
  {}

  lemma {:induction false} SmallLetters(s: string)
    requires SmallForms(s).Some?
    ensures |s| >= 2 && IsAlphabetic(s[0]) && s[0] != 'M' && s[0] != 'P'
    ensures SmallForms(s) == Some(ByLetters(s[0], s[1]))
  {}

  lemma {:induction false} UpperNames()
    ensures Upper("btc") == "BTC" && Upper("bit") == "BIT" && Upper("bits") == "BITS"
    ensures Upper("sat") == "SAT" && Upper("sats") == "SATS"
    ensures Upper("satoshi") == "SATOSHI" && Upper("satoshis") == "SATOSHIS"
  {}

  lemma {:induction false} Prefixed(p: char, s: string, name: string, full: string)
    requires full == [p] + name
    ensures [p] <= s && s[1..] == name <==> s == full
  {}

  /** The spellings, one by one. */
  lemma {:induction false} SpelledOut(s: string, d: Denomination)
    ensures Spelled(s, d) <==>
      match d
      case Bitcoin => s == "BTC" || s == "btc"
      case CentiBitcoin => s == "cBTC" || s == "cbtc"
      case MilliBitcoin => s == "mBTC" || s == "mbtc"
      case MicroBitcoin => s == "uBTC" || s == "ubtc"
      case NanoBitcoin => s == "nBTC" || s == "nbtc"
      case PicoBitcoin => s == "pBTC" || s == "pbtc"
      case Bit => s == "bit" || s == "bits" || s == "BIT" || s == "BITS"
      case Satoshi =>
        || s == "SATOSHI" || s == "satoshi" || s == "SATOSHIS" || s == "satoshis"
        || s == "SAT" || s == "sat" || s == "SATS" || s == "sats"
      case MilliSatoshi => s == "mSAT" || s == "msat" || s == "mSATs" || s == "msats"
  {
    match d
    case Bitcoin => UpperNames();
    case CentiBitcoin => PrefixedBtc('c', s, "cBTC", "cbtc");
    case MilliBitcoin => PrefixedBtc('m', s, "mBTC", "mbtc");
    case MicroBitcoin => PrefixedBtc('u', s, "uBTC", "ubtc");
    case NanoBitcoin => PrefixedBtc('n', s, "nBTC", "nbtc");
    case PicoBitcoin => PrefixedBtc('p', s, "pBTC", "pbtc");
    case Bit => UpperNames();
    case Satoshi => UpperNames();
    case MilliSatoshi =>
      UpperNames();
      Prefixed('m', s, "SAT", "mSAT");
      Prefixed('m', s, "sat", "msat");
      Prefixed('m', s, "SATs", "mSATs");
      Prefixed('m', s, "sats", "msats");
  }

  lemma {:induction false} PrefixedBtc(p: char, s: string, upper: string, lower: string)
    requires upper == [p] + "BTC" && lower == [p] + "btc"
    ensures [p] <= s && InOneCase(s[1..], "btc") <==> s == upper || s == lower
  {}

  lemma {:induction false} FormsIff(s: string, d: Denomination)
    ensures Forms(s) == Some(d) <==> Spelled(s, d)
  {
    SpelledOut(s, d);
    if Forms(s).Some? { FormLetters(s); }
  }

  /** A character repeated after a unit's name leaves a spelling only where it makes a plural. */
  predicate UnitShown(d: Denomination, c: char, r: nat)
  {
    r == 0 || (r == 1 && c == 's' && (d == Satoshi || d == MilliSatoshi))
  }

  lemma {:induction false} UnitAfterwards(d: Denomination, tail: string)
    ensures var s := AsStr(d) + tail;
      if tail == "" || (tail == "s" && (d == Satoshi || d == MilliSatoshi)) then ParseDenomination(s) == Ok(d)
      else ParseDenomination(s).Err?
  {
    var name, s := AsStr(d), AsStr(d) + tail;
    NameLetters(d);
    assert s[0] == name[0] && s[1] == name[1];
    SpellingsIff(s, d);
    SpelledOut(s, d);
    TailSpelled(d, tail);
    if Forms(s).Some? { FormLetters(s); }
  }

  lemma {:induction false} NameLetters(d: Denomination)
    ensures |AsStr(d)| >= 2 && ByLetters(AsStr(d)[0], AsStr(d)[1]) == d
  {}

  lemma {:induction false} TailSpelled(d: Denomination, tail: string)
    ensures Spelled(AsStr(d) + tail, d) <==> tail == "" || (tail == "s" && (d == Satoshi || d == MilliSatoshi))
  {
    var s := AsStr(d) + tail;
    SpelledOut(s, d);
    assert s[|AsStr(d)|..] == tail;
    assert s[0] == AsStr(d)[0] && s[1] == AsStr(d)[1];
    if d == Satoshi {
      assert "satoshi" + "s" == "satoshis";
    } else if d == MilliSatoshi {
      assert "msat" + "s" == "msats";
    }
  }

  /** A name in mixed case is refused, although every combination of cases is documented. */
  lemma {:induction false} MixedCaseRefused()
    ensures ParseDenomination("Btc").Err?
  {}

  predicate IsAlphabetic(c: char)
  {
    'a' <= c <= 'z' || 'A' <= c <= 'Z'
  }
}
