/** Compact blocks: differential index lists and the header-and-short-ids message (bitcoin/src/bip152.rs). */
module Bip152 {
  import opened Wrappers
  import opened Arith
  import opened Radix
  import opened VarInt

  const U64_MAX: nat := TWO64 - 1
  const MAX_VEC_SIZE: nat := 4_000_000

  // ---- differential indexes ----

  ghost predicate Increasing(s: seq<nat>)
  {
    forall i, j :: 0 <= i < j < |s| ==> s[i] < s[j]
  }

  /** Each index as the distance from one past the previous one; overflow and underflow are panics. */
  function EncodeFrom(code: Code, last: u64, indexes: seq<u64>): (r: Option<seq<byte>>)
    decreases |indexes|
  {
    if indexes == [] then Some([])
    else if indexes[0] < last || indexes[0] == U64_MAX then None
    else
      var rest := EncodeFrom(code, indexes[0] + 1, indexes[1..]);
      if rest.None? then None else Some(code.put(indexes[0] - last) + rest.value)
  }

  /** Reads n differences; running out of bytes or past the largest index is an error. */
  function DecodeFrom(code: Code, last: u64, n: nat, s: seq<byte>): (r: Option<(seq<u64>, seq<byte>)>)
    decreases n
  {
    if n == 0 then Some(([], s))
    else
      var d := code.take(s);
      if d.None? || last + d.value.0 >= U64_MAX then None
      else
        var index := last + d.value.0;
        var rest := DecodeFrom(code, index + 1, n - 1, d.value.1);
        if rest.None? then None else Some(([index] + rest.value.0, rest.value.1))
  }

  /** Encoding succeeds exactly on increasing indexes below the largest 64-bit number. */
  lemma {:induction false} EncodeSucceedsIff(code: Code, last: u64, indexes: seq<u64>)
    ensures EncodeFrom(code, last, indexes).Some? <==>
      Increasing(indexes) && (forall i :: 0 <= i < |indexes| ==> last <= indexes[i] < U64_MAX)
    decreases |indexes|
  {
    if indexes != [] {
      if last <= indexes[0] < U64_MAX { EncodeSucceedsIff(code, indexes[0] + 1, indexes[1..]); }
      IncreasingStep(last, indexes);
    }
  }

  lemma {:induction false} IncreasingStep(last: nat, s: seq<nat>)
    requires s != []
    ensures Increasing(s) && (forall i :: 0 <= i < |s| ==> last <= s[i] < U64_MAX) <==>
      && last <= s[0] < U64_MAX && Increasing(s[1..])
      && forall i :: 0 <= i < |s[1..]| ==> s[0] + 1 <= s[1..][i] < U64_MAX
  {
    var x, rest := s[0], s[1..];
    assert s == [x] + rest;
    if Increasing(s) && forall i :: 0 <= i < |s| ==> last <= s[i] < U64_MAX {
      forall i | 0 <= i < |rest| ensures x + 1 <= rest[i] < U64_MAX { assert s[0] < s[i + 1] == rest[i]; }
      forall i, j | 0 <= i < j < |rest| ensures rest[i] < rest[j] { assert s[i + 1] < s[j + 1]; }
    }
  }

  /** Decoding undoes encoding. */
  lemma {:induction false} DecodeEncode(code: Code, last: u64, indexes: seq<u64>, bytes: seq<byte>, tail: seq<byte>)
    requires code.Prefix() && EncodeFrom(code, last, indexes) == Some(bytes)
    ensures DecodeFrom(code, last, |indexes|, bytes + tail) == Some((indexes, tail))
    decreases |indexes|
  {
    if indexes == [] {
      DecodeNothing(code, last, bytes, tail);
    } else {
      var bytes' := EncodedParts(code, last, indexes, bytes);
      DecodeEncode(code, indexes[0] + 1, indexes[1..], bytes', tail);
      DecodeFirst(code, last, indexes, bytes', bytes, tail);
    }
  }

  lemma {:induction false} DecodeNothing(code: Code, last: u64, bytes: seq<byte>, tail: seq<byte>)
    requires EncodeFrom(code, last, []) == Some(bytes)
    ensures DecodeFrom(code, last, 0, bytes + tail) == Some(([], tail))
  {
    assert bytes + tail == tail;
  }

  lemma {:induction false} EncodedParts(code: Code, last: u64, indexes: seq<u64>, bytes: seq<byte>)
    returns (bytes': seq<byte>)
    requires indexes != [] && EncodeFrom(code, last, indexes) == Some(bytes)
    ensures last <= indexes[0] < U64_MAX && EncodeFrom(code, indexes[0] + 1, indexes[1..]) == Some(bytes')
    ensures bytes == code.put(indexes[0] - last) + bytes'
  {
    bytes' := EncodeFrom(code, indexes[0] + 1, indexes[1..]).value;
  }

  lemma {:induction false} DecodeFirst(
    code: Code, last: u64, indexes: seq<u64>, bytes': seq<byte>, bytes: seq<byte>, tail: seq<byte>)
    requires code.Prefix() && indexes != [] && last <= indexes[0] < U64_MAX
    requires bytes == code.put(indexes[0] - last) + bytes'
    requires DecodeFrom(code, indexes[0] + 1, |indexes[1..]|, bytes' + tail) == Some((indexes[1..], tail))
    ensures DecodeFrom(code, last, |indexes|, bytes + tail) == Some((indexes, tail))
  {
    var d := indexes[0] - last;
    Assoc(code.put(d), bytes', tail);
    assert code.Returns(d, bytes' + tail);
    DecodeStep(code, last, |indexes|, bytes + tail, d, bytes' + tail, indexes[1..], tail);
    assert [indexes[0]] + indexes[1..] == indexes;
  }

  lemma {:induction false} DecodeStep(
    code: Code, last: u64, n: nat, s: seq<byte>, d: nat, s': seq<byte>, rest: seq<u64>, tail: seq<byte>)
    requires n > 0 && code.take(s) == Some((d, s')) && last + d < U64_MAX
    requires DecodeFrom(code, last + d + 1, n - 1, s') == Some((rest, tail))
    ensures DecodeFrom(code, last, n, s) == Some(([last + d] + rest, tail))
  {}

  /** Whatever decodes is the encoding of the result. */
  lemma {:induction false} EncodeDecode(code: Code, last: u64, n: nat, s: seq<byte>, indexes: seq<u64>, tail: seq<byte>)
    requires code.Prefix() && DecodeFrom(code, last, n, s) == Some((indexes, tail))
    ensures |indexes| == n && EncodeFrom(code, last, indexes).Some? && EncodeFrom(code, last, indexes).value + tail == s
    decreases n
  {
    if n > 0 {
      var s' := DecodedParts(code, last, n, s, indexes, tail);
      var x := indexes[0];
      assert code.Minimal(s);
      EncodeDecode(code, x + 1, n - 1, s', indexes[1..], tail);
      Assoc(code.put(x - last), EncodeFrom(code, x + 1, indexes[1..]).value, tail);
    }
  }

  lemma {:induction false} DecodedParts(code: Code, last: u64, n: nat, s: seq<byte>, indexes: seq<u64>, tail: seq<byte>)
    returns (s': seq<byte>)
    requires n > 0 && DecodeFrom(code, last, n, s) == Some((indexes, tail))
    ensures indexes != [] && last <= indexes[0] < U64_MAX && code.take(s) == Some((indexes[0] - last, s'))
    ensures DecodeFrom(code, indexes[0] + 1, n - 1, s') == Some((indexes[1..], tail))
  {
    s' := code.take(s).value.1;
  }

  // ---- the request message ----

  datatype Request = Request(blockHash: seq<byte>, indexes: seq<u64>)

  function EncodeRequest(r: Request): (s: Option<seq<byte>>)
    requires |r.blockHash| == 32 && |r.indexes| < TWO64
  {
    var body := EncodeFrom(CompactSize(), 0, r.indexes);
    if body.None? then None else Some(r.blockHash + (CompactSize().put(|r.indexes|) + body.value))
  }

  /** The count is limited as if each index were a transaction of the given in-memory size. */
  function DecodeRequest(s: seq<byte>, txSize: nat): (r: Option<(Request, seq<byte>)>)
  {
    if |s| < 32 then None
    else
      var n := CompactSize().take(s[32..]);
      if n.None? || n.value.0 * txSize > MAX_VEC_SIZE then None
      else
        var body := DecodeFrom(CompactSize(), 0, n.value.0, n.value.1);
        if body.None? then None else Some((Request(s[..32], body.value.0), body.value.1))
  }

  /** A request that encodes comes back exactly when it is within the size limit. */
  lemma {:induction false} RequestRoundTripIff(r: Request, tail: seq<byte>, txSize: nat)
    requires |r.blockHash| == 32 && |r.indexes| < TWO64 && EncodeRequest(r).Some?
    ensures DecodeRequest(EncodeRequest(r).value + tail, txSize) == Some((r, tail)) <==>
      |r.indexes| * txSize <= 4_000_000
  {
    var count, body := CompactSize().put(|r.indexes|), EncodeFrom(CompactSize(), 0, r.indexes).value;
    CompactSizeIsPrefix();
    Frame(r.blockHash, count, body, tail);
    assert CompactSize().Returns(|r.indexes|, body + tail);
    DecodeEncode(CompactSize(), 0, r.indexes, body, tail);
  }

  lemma {:induction false} Frame(hash: seq<byte>, count: seq<byte>, body: seq<byte>, tail: seq<byte>)
    requires |hash| == 32
    ensures var s := (hash + (count + body)) + tail; s[..32] == hash && s[32..] == count + (body + tail)
  {}

  /** Every accepted request lists increasing indexes. */
  lemma {:induction false} DecodedIncreasing(s: seq<byte>, txSize: nat)
    requires DecodeRequest(s, txSize).Some?
    ensures Increasing(DecodeRequest(s, txSize).value.0.indexes)
  {
    var n := CompactSize().take(s[32..]).value;
    CompactSizeIsPrefix();
    var (indexes, tail) := DecodeFrom(CompactSize(), 0, n.0, n.1).value;
    EncodeDecode(CompactSize(), 0, n.0, n.1, indexes, tail);
    EncodeSucceedsIff(CompactSize(), 0, indexes);
  }

  /** The encoding loop. */
  method WriteIndexes(code: Code, indexes: seq<u64>) returns (out: Option<seq<byte>>)
    ensures out == EncodeFrom(code, 0, indexes)
  {
    var bytes: seq<byte> := [];
    var last: u64 := 0;
    assert indexes[0..] == indexes;
    PrependedNothing(EncodeFrom(code, 0, indexes));
    for i := 0 to |indexes|
      invariant EncodeFrom(code, 0, indexes) == Prepended(bytes, EncodeFrom(code, last, indexes[i..]))
    {
      assert indexes[i..][0] == indexes[i] && indexes[i..][1..] == indexes[i + 1..];
      if indexes[i] < last || indexes[i] == U64_MAX {
        return None;
      }
      PrependedStep(bytes, code.put(indexes[i] - last), EncodeFrom(code, indexes[i] + 1, indexes[i + 1..]));
      bytes := bytes + code.put(indexes[i] - last);
      last := indexes[i] + 1;
    }
    assert indexes[|indexes|..] == [] && bytes + [] == bytes;
    out := Some(bytes);
  }

  function Prepended(a: seq<byte>, r: Option<seq<byte>>): (r': Option<seq<byte>>)
  {
    if r.None? then None else Some(a + r.value)
  }

  lemma {:induction false} PrependedNothing(r: Option<seq<byte>>)
    ensures Prepended([], r) == r
  {
    if r.Some? { assert [] + r.value == r.value; }
  }

  lemma {:induction false} PrependedStep(a: seq<byte>, b: seq<byte>, r: Option<seq<byte>>)
    ensures Prepended(a + b, r) == Prepended(a, Prepended(b, r))
  {
    if r.Some? { assert (a + b) + r.value == a + (b + r.value); }
  }

  /** The decoding loop. */
  method ReadIndexes(code: Code, n: nat, s: seq<byte>) returns (r: Option<(seq<u64>, seq<byte>)>)
    ensures r == DecodeFrom(code, 0, n, s)
  {
    var indexes: seq<u64> := [];
    var last: u64, rest := 0, s;
    AfterNothing(DecodeFrom(code, 0, n, s));
    for i := 0 to n
      invariant DecodeFrom(code, 0, n, s) == After(indexes, DecodeFrom(code, last, n - i, rest))
    {
      var d := code.take(rest);
      if d.None? || last + d.value.0 >= U64_MAX {
        return None;
      }
      var index := last + d.value.0;
      AfterStep(indexes, index, DecodeFrom(code, index + 1, n - i - 1, d.value.1));
      indexes := indexes + [index];
      last, rest := index + 1, d.value.1;
    }
    assert indexes + [] == indexes;
    r := Some((indexes, rest));
  }

  function After(a: seq<u64>, r: Option<(seq<u64>, seq<byte>)>): (r': Option<(seq<u64>, seq<byte>)>)
  {
    if r.None? then None else Some((a + r.value.0, r.value.1))
  }

  lemma {:induction false} AfterNothing(r: Option<(seq<u64>, seq<byte>)>)
    ensures After([], r) == r
  {
    if r.Some? { assert [] + r.value.0 == r.value.0; }
  }

  lemma {:induction false} AfterStep(a: seq<u64>, x: u64, r: Option<(seq<u64>, seq<byte>)>)
    ensures After(a + [x], r) == After(a, After([x], r))
  {
    if r.Some? { assert (a + [x]) + r.value.0 == a + ([x] + r.value.0); }
  }

  // ---- splitting a block ----

  /** What the two protocol versions do with a transaction: what is sent whole, and its short id. */
  datatype Rules<!Tx, !Id> = Rules(stripWitness: Tx -> Tx, idOfTxid: Tx -> Id, idOfWtxid: Tx -> Id)
  {
    function Sent(version: nat, tx: Tx): (r: Tx)
    {
      if version == 1 then stripWitness(tx) else tx
    }

    function ShortId(version: nat, tx: Tx): (id: Id)
    {
      if version == 1 then idOfTxid(tx) else idOfWtxid(tx)
    }
  }

  /** The last case is a panic rather than an error value. */
  datatype Error = UnknownVersion | InvalidPrefill | Panic

  datatype Prefilled<Tx> = Prefilled(idx: nat, tx: Tx)

  datatype Message<Tx, Id> = Message(shortIds: seq<Id>, prefilled: seq<Prefilled<Tx>>)

  /** One position of the block as the receiver sees it. */
  datatype Slot<Tx, Id> = Whole(tx: Tx) | Short(id: Id)

  function Shorts<Tx, Id>(ids: seq<Id>): (s: seq<Slot<Tx, Id>>)
    ensures |s| == |ids| && forall i :: 0 <= i < |ids| ==> s[i] == Short(ids[i])
  {
    seq(|ids|, i requires 0 <= i < |ids| => Short(ids[i]))
  }

  /** The receiver's reading: each prefilled transaction follows that many short ids. */
  function Rebuild<Tx, Id>(prefilled: seq<Prefilled<Tx>>, ids: seq<Id>): (s: seq<Slot<Tx, Id>>)
    decreases |prefilled|
  {
    if prefilled == [] then Shorts(ids)
    else if prefilled[0].idx > |ids| then []
    else
      var k := prefilled[0].idx;
      Shorts(ids[..k]) + [Whole(prefilled[0].tx)] + Rebuild(prefilled[1..], ids[k..])
  }

  function Total<Tx>(prefilled: seq<Prefilled<Tx>>): (n: nat)
  {
    if prefilled == [] then 0 else prefilled[0].idx + Total(prefilled[1..])
  }

  /** The coinbase and the requested positions are sent whole. */
  predicate Chosen(prefill: seq<nat>, i: nat)
  {
    i == 0 || i in prefill
  }

  /** What the receiver should see. */
  function Expected<Tx, Id>(rules: Rules<Tx, Id>, version: nat, txs: seq<Tx>, prefill: seq<nat>): (s: seq<Slot<Tx, Id>>)
    ensures |s| == |txs|
  {
    seq(|txs|, i requires 0 <= i < |txs| =>
      if Chosen(prefill, i) then Whole(rules.Sent(version, txs[i])) else Short(rules.ShortId(version, txs[i])))
  }

  /** Version 1 is blind to witnesses: where ids of txids are, the receiver sees the same of two blocks
      that differ in witnesses only, and every transaction it is sent has none. */
  lemma {:induction false} VersionOneBlind<Tx, Id>(rules: Rules<Tx, Id>, a: seq<Tx>, b: seq<Tx>, prefill: seq<nat>)
    requires forall x, y :: rules.stripWitness(x) == rules.stripWitness(y) ==> rules.idOfTxid(x) == rules.idOfTxid(y)
    requires |a| == |b| && forall i :: 0 <= i < |a| ==> rules.stripWitness(a[i]) == rules.stripWitness(b[i])
    ensures Expected(rules, 1, a, prefill) == Expected(rules, 1, b, prefill)
    ensures forall i :: 0 <= i < |a| && Chosen(prefill, i) ==>
      Expected(rules, 1, a, prefill)[i] == Whole(rules.stripWitness(a[i]))
  {}

  /** Version 2 commits to witnesses: whole transactions arrive as they are, the others under the id of
      their wtxid, so two blocks look alike only if those agree. */
  lemma {:induction false} VersionTwoCommits<Tx, Id>(rules: Rules<Tx, Id>, a: seq<Tx>, b: seq<Tx>, prefill: seq<nat>)
    requires |a| == |b|
    ensures Expected(rules, 2, a, prefill) == Expected(rules, 2, b, prefill) <==>
      forall i :: 0 <= i < |a| ==>
        if Chosen(prefill, i) then a[i] == b[i] else rules.idOfWtxid(a[i]) == rules.idOfWtxid(b[i])
  {
    var x, y := Expected(rules, 2, a, prefill), Expected(rules, 2, b, prefill);
    if x == y {
      forall i | 0 <= i < |a|
        ensures if Chosen(prefill, i) then a[i] == b[i] else rules.idOfWtxid(a[i]) == rules.idOfWtxid(b[i])
      {
        assert x[i] == y[i];
      }
    }
  }

  lemma {:induction false} RebuildShort<Tx, Id>(prefilled: seq<Prefilled<Tx>>, ids: seq<Id>, id: Id)
    requires Total(prefilled) <= |ids|
    ensures Rebuild<Tx, Id>(prefilled, ids + [id]) == Rebuild<Tx, Id>(prefilled, ids) + [Short(id)]
    decreases |prefilled|
  {
    if prefilled == [] {
      assert Shorts<Tx, Id>(ids + [id]) == Shorts<Tx, Id>(ids) + [Short(id)];
    } else {
      var k := prefilled[0].idx;
      assert (ids + [id])[..k] == ids[..k] && (ids + [id])[k..] == ids[k..] + [id];
      RebuildShort(prefilled[1..], ids[k..], id);
    }
  }

  lemma {:induction false} RebuildWhole<Tx, Id>(prefilled: seq<Prefilled<Tx>>, ids: seq<Id>, k: nat, tx: Tx)
    requires Total(prefilled) + k == |ids|
    ensures Rebuild<Tx, Id>(prefilled + [Prefilled(k, tx)], ids) == Rebuild<Tx, Id>(prefilled, ids) + [Whole(tx)]
    ensures Total(prefilled + [Prefilled(k, tx)]) == |ids|
    decreases |prefilled|
  {
    var longer := prefilled + [Prefilled(k, tx)];
    if prefilled == [] {
      assert longer[1..] == [] && ids[..k] == ids && ids[k..] == [];
      assert Shorts<Tx, Id>([]) == [];
    } else {
      var j := prefilled[0].idx;
      assert longer[1..] == prefilled[1..] + [Prefilled(k, tx)];
      RebuildWhole(prefilled[1..], ids[j..], k, tx);
    }
  }

  /** Increasing positions inside the block. */
  ghost predicate ValidPrefill(n: nat, prefill: seq<nat>)
  {
    Increasing(prefill) && forall i :: 0 <= i < |prefill| ==> prefill[i] < n
  }

  /** The request at place i lies within 2^16 of the one before it, or of the coinbase. */
  predicate SmallGap(prefill: seq<nat>, i: nat)
    requires i < |prefill|
  {
    prefill[i] <= 0x1_0000 + (if i == 0 then 0 else prefill[i - 1])
  }

  ghost predicate SmallGapsUpTo(prefill: seq<nat>, used: nat)
    requires used <= |prefill|
  {
    forall i :: 0 <= i < used ==> SmallGap(prefill, i)
  }

  /** No two neighbours in the sent-whole list are more than 2^16 apart. */
  ghost predicate SmallGaps(prefill: seq<nat>)
  {
    SmallGapsUpTo(prefill, |prefill|)
  }

  /** A lone request 2^16 + 1 positions after the coinbase is valid, and its gap does not fit. */
  lemma {:induction false} GapTooLarge(n: nat, prefill: seq<nat>)
    requires n > 0x1_0001 && prefill == [0x1_0001]
    ensures ValidPrefill(n, prefill) && !SmallGaps(prefill)
  {
    assert !SmallGap(prefill, 0);
  }

  /** Succeeds exactly on increasing requests inside the block; the receiver then recovers the block
      exactly when no gap is cut down to 16 bits. */
  method FromBlock<Tx, Id>(
      rules: Rules<Tx, Id>, txs: seq<Tx>, version: nat, prefill: seq<nat>)
      returns (r: Result<Message<Tx, Id>, Error>)
    ensures version != 1 && version != 2 ==> r == Err(UnknownVersion)
    ensures version == 1 || version == 2 ==>
      (if |prefill| > |txs| then r == Err(Panic)
       else if ValidPrefill(|txs|, prefill) then r.Ok?
       else r == Err(InvalidPrefill))
    ensures r.Ok? ==>
      (Rebuild(r.value.prefilled, r.value.shortIds) == Expected(rules, version, txs, prefill) <==> SmallGaps(prefill))
  {
    if version != 1 && version != 2 {
      return Err(UnknownVersion);
    }
    if |prefill| > |txs| {
      return Err(Panic); // the capacity subtraction
    }
    var used, message := Split(rules, txs, version, prefill);
    if used < |prefill| {
      return Err(InvalidPrefill);
    }
    r := Ok(message);
  }

  /** The first `used` requested positions are increasing and passed; if the whole request is valid,
      none below i is left. */
  ghost predicate Matched(n: nat, prefill: seq<nat>, i: nat, used: nat)
  {
    used <= |prefill| && Increasing(prefill[..used]) &&
    (forall j :: 0 <= j < used ==> prefill[j] < i) &&
    (ValidPrefill(n, prefill) ==> forall j :: used <= j < |prefill| ==> prefill[j] >= i)
  }

  lemma {:induction false} MatchOne(n: nat, prefill: seq<nat>, i: nat, used: nat)
    requires Matched(n, prefill, i, used)
    ensures used < |prefill| && prefill[used] == i ==> Matched(n, prefill, i + 1, used + 1)
    ensures !(used < |prefill| && prefill[used] == i) ==> Matched(n, prefill, i + 1, used)
  {}

  lemma {:induction false} MatchedAll(prefill: seq<nat>, n: nat, used: nat)
    requires Matched(n, prefill, n, used)
    ensures used == |prefill| <==> ValidPrefill(n, prefill)
  {
    if used == |prefill| {
      assert prefill[..used] == prefill;
    } else {
      assert prefill[used] >= n || !ValidPrefill(n, prefill);
    }
  }

  /** What has been sent so far reads as the first i positions; last is one past the last whole one. */
  ghost predicate Tracks<Tx, Id>(
      rules: Rules<Tx, Id>, version: nat, txs: seq<Tx>, chosen: seq<nat>, i: nat, last: nat, m: Message<Tx, Id>)
  {
    last <= i <= |txs| && Total(m.prefilled) + (i - last) == |m.shortIds| &&
    Rebuild(m.prefilled, m.shortIds) == Expected(rules, version, txs[..i], chosen)
  }

  lemma {:induction false} ExpectedStep<Tx, Id>(
      rules: Rules<Tx, Id>, version: nat, txs: seq<Tx>, chosen: seq<nat>, chosen': seq<nat>, i: nat)
    requires i < |txs| && forall j :: 0 <= j < i ==> (j in chosen <==> j in chosen')
    ensures Expected(rules, version, txs[..i + 1], chosen') == Expected(rules, version, txs[..i], chosen)
      + [if Chosen(chosen', i) then Whole(rules.Sent(version, txs[i])) else Short(rules.ShortId(version, txs[i]))]
  {}

  lemma {:induction false} TrackWhole<Tx, Id>(
      rules: Rules<Tx, Id>, version: nat, txs: seq<Tx>, chosen: seq<nat>, chosen': seq<nat>, i: nat, last: nat,
        m: Message<Tx, Id>)
    requires Tracks(rules, version, txs, chosen, i, last, m) && i < |txs| && Chosen(chosen', i)
    requires forall j :: 0 <= j < i ==> (j in chosen <==> j in chosen')
    ensures Tracks(rules, version, txs, chosen', i + 1, i + 1,
      Message(m.shortIds, m.prefilled + [Prefilled(i - last, rules.Sent(version, txs[i]))]))
  {
    ExpectedStep(rules, version, txs, chosen, chosen', i);
    RebuildWhole(m.prefilled, m.shortIds, i - last, rules.Sent(version, txs[i]));
  }

  lemma {:induction false} TrackShort<Tx, Id>(
      rules: Rules<Tx, Id>, version: nat, txs: seq<Tx>, chosen: seq<nat>, i: nat, last: nat, m: Message<Tx, Id>)
    requires Tracks(rules, version, txs, chosen, i, last, m) && i < |txs| && !Chosen(chosen, i)
    ensures Tracks(rules, version, txs, chosen, i + 1, last,
      Message(m.shortIds + [rules.ShortId(version, txs[i])], m.prefilled))
  {
    ExpectedStep(rules, version, txs, chosen, chosen, i);
    RebuildShort(m.prefilled, m.shortIds, rules.ShortId(version, txs[i]));
  }

  /** One past the last position sent whole. */
  ghost predicate LastWhole(prefill: seq<nat>, i: nat, used: nat, last: nat)
    requires used <= |prefill|
  {
    last == if i == 0 then 0 else if used == 0 then 1 else prefill[used - 1] + 1
  }

  /** The loop's variables: requests matched, one past the last whole position, the message so far. */
  datatype Progress<Tx, Id> = Progress(used: nat, last: nat, m: Message<Tx, Id>)

  ghost predicate OnTrack<Tx, Id>(
      rules: Rules<Tx, Id>, version: nat, txs: seq<Tx>, prefill: seq<nat>, i: nat, p: Progress<Tx, Id>)
  {
    Matched(|txs|, prefill, i, p.used) && LastWhole(prefill, i, p.used, p.last) && p.last <= i <= |txs| &&
    (if SmallGapsUpTo(prefill, p.used) then Tracks(rules, version, txs, prefill[..p.used], i, p.last, p.m)
     else Broken(p.m, |txs|, prefill, i))
  }

  // ---- a gap too large ----

  /** Where the receiver puts the j-th whole transaction. */
  function Place<Tx>(prefilled: seq<Prefilled<Tx>>, j: nat): (at: nat)
    requires j < |prefilled|
  {
    Total(prefilled[..j + 1]) + j
  }

  /** The j-th whole transaction lands before position i, where no whole one belongs. */
  ghost predicate Misplaced<Tx, Id>(m: Message<Tx, Id>, n: nat, prefill: seq<nat>, i: nat, j: nat)
  {
    && j < |m.prefilled| && Total(m.prefilled[..j + 1]) <= |m.shortIds|
    && Place(m.prefilled, j) < i
    && (ValidPrefill(n, prefill) ==> !Chosen(prefill, Place(m.prefilled, j)))
  }

  ghost predicate Broken<Tx, Id>(m: Message<Tx, Id>, n: nat, prefill: seq<nat>, i: nat)
  {
    exists j :: Misplaced(m, n, prefill, i, j)
  }

  lemma {:induction false} WholeAtPlace<Tx, Id>(prefilled: seq<Prefilled<Tx>>, ids: seq<Id>, j: nat)
    requires j < |prefilled| && Total(prefilled[..j + 1]) <= |ids|
    ensures Place(prefilled, j) < |Rebuild<Tx, Id>(prefilled, ids)|
    ensures Rebuild<Tx, Id>(prefilled, ids)[Place(prefilled, j)].Whole?
    decreases j
  {
    var k := prefilled[0].idx;
    var front := prefilled[..j + 1];
    assert front[0] == prefilled[0];
    if j == 0 {
      assert front[1..] == [];
    } else {
      assert front[1..] == prefilled[1..][..j];
      WholeAtPlace(prefilled[1..], ids[k..], j - 1);
    }
  }

  lemma {:induction false} RebuildLength<Tx, Id>(prefilled: seq<Prefilled<Tx>>, ids: seq<Id>)
    requires Total(prefilled) <= |ids|
    ensures |Rebuild<Tx, Id>(prefilled, ids)| == |prefilled| + |ids|
    decreases |prefilled|
  {
    if prefilled != [] { RebuildLength(prefilled[1..], ids[prefilled[0].idx..]); }
  }

  lemma {:induction false} TotalAppend<Tx>(prefilled: seq<Prefilled<Tx>>, e: Prefilled<Tx>)
    ensures Total(prefilled + [e]) == Total(prefilled) + e.idx
  {
    if prefilled == [] {
      assert [e][1..] == [] && prefilled + [e] == [e];
    } else {
      assert (prefilled + [e])[1..] == prefilled[1..] + [e];
      TotalAppend(prefilled[1..], e);
    }
  }

  /** Nothing sent later repairs a misplaced transaction. */
  lemma {:induction false} StaysBroken<Tx, Id>(
      m: Message<Tx, Id>, m': Message<Tx, Id>, n: nat, prefill: seq<nat>, i: nat)
    requires Broken(m, n, prefill, i) && m.prefilled <= m'.prefilled && |m.shortIds| <= |m'.shortIds|
    ensures Broken(m', n, prefill, i + 1)
  {
    var j :| Misplaced(m, n, prefill, i, j);
    assert m'.prefilled[..j + 1] == m.prefilled[..j + 1];
    assert Misplaced(m', n, prefill, i + 1, j);
  }

  lemma {:induction false} BrokenDiffers<Tx, Id>(
      rules: Rules<Tx, Id>, version: nat, txs: seq<Tx>, prefill: seq<nat>, m: Message<Tx, Id>)
    requires Broken(m, |txs|, prefill, |txs|) && ValidPrefill(|txs|, prefill)
    ensures Rebuild(m.prefilled, m.shortIds) != Expected(rules, version, txs, prefill)
  {
    var j :| Misplaced(m, |txs|, prefill, |txs|, j);
    WholeAtPlace(m.prefilled, m.shortIds, j);
    assert Expected(rules, version, txs, prefill)[Place(m.prefilled, j)].Short?;
  }

  /** The first gap that does not fit in 16 bits misplaces its transaction. */
  lemma {:induction false} GapBreaks<Tx, Id>(
      rules: Rules<Tx, Id>, version: nat, txs: seq<Tx>, prefill: seq<nat>, i: nat, p: Progress<Tx, Id>)
    requires i < |txs| && OnTrack(rules, version, txs, prefill, i, p)
    requires SmallGapsUpTo(prefill, p.used) && p.used < |prefill| && prefill[p.used] == i
    requires i - p.last >= 0x1_0000
    ensures Broken(SendOne(rules, version, prefill, i, txs[i], p).m, |txs|, prefill, i + 1)
  {
    var entry := Prefilled((i - p.last) % 0x1_0000, rules.Sent(version, txs[i]));
    var m' := Message(p.m.shortIds, p.m.prefilled + [entry]);
    var j := |p.m.prefilled|;
    RebuildLength(p.m.prefilled, p.m.shortIds);
    TotalAppend(p.m.prefilled, entry);
    assert m'.prefilled[..j + 1] == m'.prefilled;
    var at := Place(m'.prefilled, j);
    assert at == p.last + entry.idx && p.last <= at < i;
    if ValidPrefill(|txs|, prefill) { BetweenRequests(|txs|, prefill, i, p.used, p.last, at); }
    assert Misplaced(m', |txs|, prefill, i + 1, j);
  }

  lemma {:induction false} BetweenRequests(n: nat, prefill: seq<nat>, i: nat, used: nat, last: nat, at: nat)
    requires Matched(n, prefill, i, used) && LastWhole(prefill, i, used, last) && ValidPrefill(n, prefill)
    requires last <= at < i
    ensures !Chosen(prefill, at)
  {}

  // ---- one step and the loop ----

  /** One transaction: sent whole when requested or the coinbase, else as a short id. */
  function SendOne<Tx, Id>(
      rules: Rules<Tx, Id>, version: nat, prefill: seq<nat>, i: nat, tx: Tx, p: Progress<Tx, Id>)
      : (p': Progress<Tx, Id>)
    requires p.last <= i
  {
    var requested := p.used < |prefill| && prefill[p.used] == i;
    if requested || i == 0 then
      var entry := Prefilled((i - p.last) % 0x1_0000, rules.Sent(version, tx));
      Progress(if requested then p.used + 1 else p.used, i + 1, Message(p.m.shortIds, p.m.prefilled + [entry]))
    else
      Progress(p.used, p.last, Message(p.m.shortIds + [rules.ShortId(version, tx)], p.m.prefilled))
  }

  lemma {:induction false} SendOneOnTrack<Tx, Id>(
    rules: Rules<Tx, Id>, version: nat, txs: seq<Tx>, prefill: seq<nat>, i: nat, p: Progress<Tx, Id>)
    requires i < |txs| && OnTrack(rules, version, txs, prefill, i, p)
    ensures OnTrack(rules, version, txs, prefill, i + 1, SendOne(rules, version, prefill, i, txs[i], p))
  {
    SendOneMatches(rules, version, txs, prefill, i, p);
    var p' := SendOne(rules, version, prefill, i, txs[i], p);
    if !SmallGapsUpTo(prefill, p.used) {
      StaysBroken(p.m, p'.m, |txs|, prefill, i);
    } else if p'.used > p.used && i - p.last >= 0x1_0000 {
      GapBreaks(rules, version, txs, prefill, i, p);
    } else {
      SendOneTracks(rules, version, txs, prefill, i, p);
    }
  }

  lemma {:induction false} GapsStep(prefill: seq<nat>, used: nat)
    requires used < |prefill|
    ensures SmallGapsUpTo(prefill, used + 1) <==> SmallGapsUpTo(prefill, used) && SmallGap(prefill, used)
  {}

  /** The request and the last whole position are followed; gaps are judged when they are passed. */
  lemma {:induction false} SendOneMatches<Tx, Id>(
    rules: Rules<Tx, Id>, version: nat, txs: seq<Tx>, prefill: seq<nat>, i: nat, p: Progress<Tx, Id>)
    requires i < |txs| && p.last <= i
    requires Matched(|txs|, prefill, i, p.used) && LastWhole(prefill, i, p.used, p.last)
    ensures var p' := SendOne(rules, version, prefill, i, txs[i], p);
      && Matched(|txs|, prefill, i + 1, p'.used) && LastWhole(prefill, i + 1, p'.used, p'.last) && p'.last <= i + 1
      && p.m.prefilled <= p'.m.prefilled && |p.m.shortIds| <= |p'.m.shortIds|
      && (SmallGapsUpTo(prefill, p'.used) <==>
          SmallGapsUpTo(prefill, p.used) && (p'.used > p.used ==> i - p.last < 0x1_0000))
  {
    MatchOne(|txs|, prefill, i, p.used);
    if p.used < |prefill| && prefill[p.used] == i { GapsStep(prefill, p.used); }
  }

  lemma {:induction false} SendOneTracks<Tx, Id>(
      rules: Rules<Tx, Id>, version: nat, txs: seq<Tx>, prefill: seq<nat>, i: nat, p: Progress<Tx, Id>)
    requires i < |txs| && OnTrack(rules, version, txs, prefill, i, p) && SmallGapsUpTo(prefill, p.used)
    requires p.used < |prefill| && prefill[p.used] == i ==> i - p.last < 0x1_0000
    ensures var p' := SendOne(rules, version, prefill, i, txs[i], p);
      p'.used <= |prefill| && Tracks(rules, version, txs, prefill[..p'.used], i + 1, p'.last, p'.m)
  {
    var chosen := prefill[..p.used];
    if p.used < |prefill| && prefill[p.used] == i {
      RequestedTracks(rules, version, txs, prefill, i, p);
    } else if i == 0 {
      TrackWhole(rules, version, txs, chosen, chosen, i, p.last, p.m);
    } else {
      assert i !in chosen;
      TrackShort(rules, version, txs, chosen, i, p.last, p.m);
    }
  }

  lemma {:induction false} RequestedTracks<Tx, Id>(
      rules: Rules<Tx, Id>, version: nat, txs: seq<Tx>, prefill: seq<nat>, i: nat, p: Progress<Tx, Id>)
    requires i < |txs| && p.used < |prefill| && prefill[p.used] == i && p.last <= i && i - p.last < 0x1_0000
    requires Tracks(rules, version, txs, prefill[..p.used], i, p.last, p.m)
    ensures var p' := SendOne(rules, version, prefill, i, txs[i], p);
      p'.used == p.used + 1 && Tracks(rules, version, txs, prefill[..p'.used], i + 1, p'.last, p'.m)
  {
    assert prefill[..p.used + 1] == prefill[..p.used] + [i];
    SmallMod(i - p.last, 0x1_0000);
    TrackWhole(rules, version, txs, prefill[..p.used], prefill[..p.used + 1], i, p.last, p.m);
  }

  /** The loop over the block. */
  method Split<Tx, Id>(rules: Rules<Tx, Id>, txs: seq<Tx>, version: nat, prefill: seq<nat>)
    returns (used: nat, m: Message<Tx, Id>)
    ensures used <= |prefill| && (used == |prefill| <==> ValidPrefill(|txs|, prefill))
    ensures used == |prefill| ==>
      (Rebuild(m.prefilled, m.shortIds) == Expected(rules, version, txs, prefill) <==> SmallGaps(prefill))
  {
    var p: Progress<Tx, Id> := Progress(0, 0, Message([], []));
    assert txs[..0] == [] && prefill[..0] == [];
    for i := 0 to |txs|
      invariant OnTrack(rules, version, txs, prefill, i, p)
    {
      SendOneOnTrack(rules, version, txs, prefill, i, p);
      p := SendOne(rules, version, prefill, i, txs[i], p);
    }
    MatchedAll(prefill, |txs|, p.used);
    assert txs[..|txs|] == txs;
    if p.used == |prefill| {
      assert prefill[..p.used] == prefill;
      if !SmallGaps(prefill) { BrokenDiffers(rules, version, txs, prefill, p.m); }
    }
    used, m := p.used, p.m;
  }
}
