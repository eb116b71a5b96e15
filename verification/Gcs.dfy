/** Golomb-coded set filters: building one and querying it (bitcoin/src/bip158.rs). */
module Gcs {
  import opened Wrappers
  import opened Arith
  import opened Radix
  import opened BitSeq
  import opened BitStream
  import opened Golomb
  import VarInt

  /** A filter's parameters; the keyed hash is any function to 64 bits. */
  datatype Filter = Filter(hash: Bytes -> u64, m: u64, p: nat)
  {
    predicate Valid() { p < 64 }
  }

  // ---- hashing into the range ----

  /** Scales a 64-bit hash down to a number below nm: the high half of their product. */
  function MapToRange(hash: u64, nm: u64): (r: u64)
    ensures nm > 0 ==> r < nm
    ensures nm == 0 ==> r == 0
  {
    MulMono(nm, hash, TWO64 - 1);
    DivLt(hash * nm, TWO64, if nm > 0 then nm else 1);
    DivGe(hash * nm, TWO64, 0);
    hash * nm / TWO64
  }

  /** Where an item falls in a filter of n elements; the product wraps at 64 bits. */
  function Place(f: Filter, n: nat, item: Bytes): (r: u64)
  {
    MapToRange(f.hash(item), (n * f.m) % TWO64)
  }

  function Places(f: Filter, n: nat, items: seq<Bytes>): (r: seq<u64>)
    ensures |r| == |items|
    ensures forall i :: 0 <= i < |items| ==> r[i] == Place(f, n, items[i])
  {
    seq(|items|, i requires 0 <= i < |items| => Place(f, n, items[i]))
  }

  /** Hash and place stand in the same proportion to their ranges, up to rounding down. */
  lemma {:induction false} RangeIff(hash: u64, nm: u64, r: nat)
    ensures MapToRange(hash, nm) == r <==> r * TWO64 <= hash * nm < (r + 1) * TWO64
  {
    DivGe(hash * nm, TWO64, r);
    DivLt(hash * nm, TWO64, r + 1);
  }

  /** A larger hash never falls before a smaller one. */
  lemma {:induction false} RangeMonotone(h1: u64, h2: u64, nm: u64)
    requires h1 <= h2
    ensures MapToRange(h1, nm) <= MapToRange(h2, nm)
  {
    MulMono(nm, h1, h2);
    DivMono(h1 * nm, h2 * nm, TWO64);
  }

  /** The least hash that falls at r or after it. */
  function FirstHash(r: nat, nm: nat): (h: nat)
    requires nm > 0
    ensures h * nm >= r * TWO64 && (h > 0 ==> (h - 1) * nm < r * TWO64)
  {
    var h := Quotient(r * TWO64 + nm - 1, nm);
    DivMod(r * TWO64 + nm - 1, nm);
    h
  }

  /** Every place is reached, by exactly the hashes of one interval. */
  lemma {:induction false} RangePreimage(hash: u64, nm: u64, r: nat)
    requires nm > 0
    ensures MapToRange(hash, nm) == r <==> FirstHash(r, nm) <= hash < FirstHash(r + 1, nm)
    ensures r < nm ==> FirstHash(r, nm) < FirstHash(r + 1, nm) <= TWO64
  {
    RangeIff(hash, nm, r);
    FirstHashIff(hash, nm, r);
    FirstHashIff(hash, nm, r + 1);
    FirstHashIff(FirstHash(r, nm), nm, r + 1);
    if r < nm {
      FirstHashIff(TWO64, nm, r + 1);
      MulMono(TWO64, r + 1, nm);
      FirstHashBelow(nm, r);
    }
  }

  lemma {:induction false} FirstHashIff(h: nat, nm: nat, r: nat)
    requires nm > 0
    ensures FirstHash(r, nm) <= h <==> r * TWO64 <= h * nm
  {
    var f := FirstHash(r, nm);
    if f <= h { MulMono(nm, f, h); } else { MulMono(nm, h, f - 1); }
  }

  lemma {:induction false} FirstHashBelow(nm: nat, r: nat)
    requires 0 < nm < TWO64
    ensures FirstHash(r, nm) * nm < (r + 1) * TWO64
  {
    var f := FirstHash(r, nm);
    if f > 0 { assert f * nm == (f - 1) * nm + nm; }
  }

  /** A place in a filter of n elements is the hash scaled from [0, 2^64) to [0, n * m), unless n * m overflows. */
  lemma {:induction false} PlaceIff(f: Filter, n: nat, item: Bytes, r: nat)
    requires n * f.m < TWO64
    ensures Place(f, n, item) == r <==> r * TWO64 <= f.hash(item) * (n * f.m) < (r + 1) * TWO64
  {
    SmallMod(n * f.m, TWO64);
    RangeIff(f.hash(item), n * f.m, r);
  }

  // ---- sorting, as the library does it ----

  ghost predicate Sorted(s: seq<nat>)
  {
    forall i, j :: 0 <= i <= j < |s| ==> s[i] <= s[j]
  }

  lemma {:induction false} ConsSorted(x: nat, t: seq<nat>)
    requires Sorted(t) && forall y :: y in t ==> x <= y
    ensures Sorted([x] + t)
  {
    forall i, j | 0 <= i <= j < |t| + 1 ensures ([x] + t)[i] <= ([x] + t)[j] {
      if 0 < j { assert t[j - 1] in t; }
    }
  }

  lemma {:induction false} InsertAbove(lo: nat, x: u64, s: seq<u64>, t: seq<u64>)
    requires multiset(t) == multiset(s) + multiset{x} && lo <= x && forall y :: y in s ==> lo <= y
    ensures forall y :: y in t ==> lo <= y
  {
    forall y | y in t ensures lo <= y {
      assert y in multiset(t);
      assert y in multiset(s) ==> y in s;
    }
  }

  function Insert(x: u64, s: seq<u64>): (r: seq<u64>)
    requires Sorted(s)
    ensures Sorted(r) && multiset(r) == multiset(s) + multiset{x}
  {
    if s == [] || x <= s[0] then
      ConsSorted(x, s);
      [x] + s
    else
      var t := Insert(x, s[1..]);
      assert s == [s[0]] + s[1..];
      InsertAbove(s[0], x, s[1..], t);
      ConsSorted(s[0], t);
      [s[0]] + t
  }

  /** Ascending order; equal numbers are indistinguishable, so any sorting algorithm gives this. */
  function Sort(s: seq<u64>): (r: seq<u64>)
    ensures Sorted(r) && multiset(r) == multiset(s)
  {
    if s == [] then []
    else
      assert s == [s[0]] + s[1..];
      Insert(s[0], Sort(s[1..]))
  }

  lemma {:induction false} SortMembers(s: seq<u64>)
    ensures |Sort(s)| == |s| && forall y :: y in Sort(s) <==> y in s
  {
    assert |multiset(Sort(s))| == |multiset(s)|;
    forall y ensures y in Sort(s) <==> y in s {
      assert y in multiset(Sort(s)) <==> y in multiset(s);
    }
  }

  /** Adjacent equal numbers collapsed. */
  function Dedup(s: seq<u64>): (r: seq<u64>)
    requires Sorted(s)
    ensures Sorted(r) && (s == [] <==> r == [])
    ensures forall y :: y in r <==> y in s
  {
    if |s| <= 1 then s
    else if s[0] == s[1] then Dedup(s[1..])
    else
      var t := Dedup(s[1..]);
      ConsSorted(s[0], t);
      [s[0]] + t
  }

  /** No number is left twice. */
  lemma {:induction false} DedupAscending(s: seq<u64>)
    requires Sorted(s)
    ensures forall i, j :: 0 <= i < j < |Dedup(s)| ==> Dedup(s)[i] < Dedup(s)[j]
  {
    if |s| > 1 {
      DedupAscending(s[1..]);
      if s[0] != s[1] { ConsAscending(s[0], Dedup(s[1..])); }
    }
  }

  lemma {:induction false} ConsAscending(x: nat, t: seq<nat>)
    requires (forall i, j :: 0 <= i < j < |t| ==> t[i] < t[j]) && forall y :: y in t ==> x < y
    ensures forall i, j :: 0 <= i < j < |t| + 1 ==> ([x] + t)[i] < ([x] + t)[j]
  {
    forall i, j | 0 <= i < j < |t| + 1 ensures ([x] + t)[i] < ([x] + t)[j] {
      assert t[j - 1] in t;
    }
  }

  // ---- the filter as bits ----

  /** The differences of ascending numbers, each Golomb-Rice coded. */
  function DeltaBits(last: nat, ds: seq<u64>, p: nat): (s: seq<bool>)
    requires Sorted([last] + ds)
    decreases |ds|
  {
    if ds == [] then []
    else
      assert ([last] + ds)[0] <= ([last] + ds)[1];
      TailSorted(last, ds);
      RiceBits(ds[0] - last, p) + DeltaBits(ds[0], ds[1..], p)
  }

  lemma {:induction false} TailSorted(last: nat, ds: seq<u64>)
    requires ds != [] && Sorted([last] + ds)
    ensures last <= ds[0] && Sorted([ds[0]] + ds[1..]) && [ds[0]] + ds[1..] == ds
  {
    assert ([last] + ds)[1..] == ds;
    assert ([last] + ds)[0] <= ([last] + ds)[1];
    assert [ds[0]] + ds[1..] == ds;
    forall i, j | 0 <= i <= j < |ds| ensures ds[i] <= ds[j] {
      assert ([last] + ds)[i + 1] <= ([last] + ds)[j + 1];
    }
  }

  /** A byte string that is the filter of these elements: their number, then the coded differences,
      padded with clear bits to a whole byte. */
  ghost predicate IsFilter(f: Filter, elements: seq<Bytes>, bytes: seq<byte>)
  {
    |elements| < TWO64 &&
    exists body: seq<byte>, pad: nat :: pad < 8 && FilterParts(f, elements, bytes, body, pad)
  }

  ghost predicate FilterParts(f: Filter, elements: seq<Bytes>, bytes: seq<byte>, body: seq<byte>, pad: nat)
    requires |elements| < TWO64
  {
    var ds := Sort(Places(f, |elements|, elements));
    bytes == VarInt.Encode(|elements|) + body && Sorted([0] + ds) &&
    BytesBits(body) == DeltaBits(0, ds, f.p) + Repeat(false, pad)
  }

  lemma {:induction false} ZeroSorted(ds: seq<u64>)
    requires Sorted(ds)
    ensures Sorted([0] + ds)
  {}

  class GcsFilterWriter {
    const filter: Filter
    /** The distinct non-empty elements; their order does not matter once places are sorted. */
    var elements: seq<Bytes>
    /** What the wrapped writer has received. */
    var out: seq<byte>

    ghost predicate Valid()
      reads this
    {
      filter.Valid() && [] !in elements && |elements| < TWO64 &&
      forall i, j :: 0 <= i < j < |elements| ==> elements[i] != elements[j]
    }

    constructor (f: Filter)
      requires f.Valid()
      ensures Valid() && filter == f && elements == [] && out == []
    {
      filter, elements, out := f, [], [];
    }

    /** Empty and repeated elements are ignored. */
    method AddElement(element: Bytes)
      requires Valid() && |elements| < TWO64 - 1
      modifies this
      ensures Valid() && out == old(out)
      ensures forall e :: e in elements <==> e in old(elements) || (e == element && element != [])
    {
      if element != [] && element !in elements {
        elements := elements + [element];
      }
    }

    /** Appends the filter of the elements and reports its size. */
    method Finish() returns (wrote: nat)
      requires Valid()
      modifies this
      ensures Valid() && elements == old(elements)
      ensures |out| == |old(out)| + wrote && old(out) <= out
      ensures IsFilter(filter, elements, out[|old(out)|..])
    {
      var mapped := Sort(Places(filter, |elements|, elements));
      var header := VarInt.Encode(|elements|);
      var body, size, pad := WriteDeltas(mapped, filter.p);
      assert FilterParts(filter, elements, header + body, body, pad);
      AppendedSuffix(out, header, body);
      wrote := |header| + size;
      out := out + header + body;
    }
  }

  lemma {:induction false} AppendedSuffix(out: seq<byte>, header: seq<byte>, body: seq<byte>)
    ensures (out + header + body)[|out|..] == header + body && out <= out + header + body
  {}

  /** The bit stream of the differences, flushed to whole bytes, with its size and the number of padding bits. */
  method WriteDeltas(ds: seq<u64>, p: nat) returns (body: seq<byte>, wrote: nat, ghost pad: nat)
    requires Sorted(ds) && p < 64
    ensures Sorted([0] + ds) && pad < 8 && |body| == wrote
    ensures BytesBits(body) == DeltaBits(0, ds, p) + Repeat(false, pad)
  {
    ZeroSorted(ds);
    var writer := new BitStreamWriter([]);
    wrote := EncodeDeltas(writer, ds, p);
    assert [] + DeltaBits(0, ds, p) == DeltaBits(0, ds, p);
    var n;
    n, pad := CloseStream(writer);
    body, wrote := writer.out, wrote + n;
  }

  method EncodeDeltas(writer: BitStreamWriter, ds: seq<u64>, p: nat) returns (wrote: nat)
    requires writer.Valid() && Sorted([0] + ds) && p < 64
    modifies writer
    ensures writer.Valid() && |writer.out| == |old(writer.out)| + wrote
    ensures writer.Contents() == old(writer.Contents()) + DeltaBits(0, ds, p)
  {
    var last: u64 := 0;
    wrote := 0;
    assert ds[0..] == ds;
    for i := 0 to |ds|
      invariant writer.Valid() && |writer.out| == |old(writer.out)| + wrote
      invariant Sorted([last] + ds[i..])
      invariant writer.Contents() + DeltaBits(last, ds[i..], p) == old(writer.Contents()) + DeltaBits(0, ds, p)
    {
      DeltaStep(writer.Contents(), last, ds, i, p);
      var n := RiceEncode(writer, ds[i] - last, p);
      wrote := wrote + n;
      last := ds[i];
    }
    assert ds[|ds|..] == [] && writer.Contents() + [] == writer.Contents();
  }

  lemma {:induction false} DeltaStep(done: seq<bool>, last: nat, ds: seq<u64>, i: nat, p: nat)
    requires i < |ds| && Sorted([last] + ds[i..])
    ensures last <= ds[i] && Sorted([ds[i]] + ds[i + 1..])
    ensures (done + RiceBits(ds[i] - last, p)) + DeltaBits(ds[i], ds[i + 1..], p) == done + DeltaBits(last, ds[i..], p)
  {
    TailSorted(last, ds[i..]);
    assert ds[i..][1..] == ds[i + 1..];
    Assoc(done, RiceBits(ds[i] - last, p), DeltaBits(ds[i], ds[i + 1..], p));
  }

  // ---- querying ----

  /** Ascending queries against the numbers of a delta-coded stream, the current one being data. */
  function AnyFrom(data: u64, remaining: nat, s: seq<bool>, qs: seq<u64>, p: nat): (r: Result<bool, StreamError>)
    requires p < 64
    decreases remaining, |qs|
  {
    if qs == [] then Ok(false)
    else if data == qs[0] then Ok(true)
    else if data > qs[0] then AnyFrom(data, remaining, s, qs[1..], p)
    else if remaining == 0 then Ok(false)
    else match RiceDecode(s, p)
      case Err(e) => Err(e)
      case Ok((delta, rest)) => AnyFrom((data + delta) % TWO64, remaining - 1, rest, qs, p)
  }

  function AllFrom(data: u64, remaining: nat, s: seq<bool>, qs: seq<u64>, p: nat): (r: Result<bool, StreamError>)
    requires p < 64
    decreases remaining, |qs|
  {
    if qs == [] then Ok(true)
    else if data == qs[0] then AllFrom(data, remaining, s, qs[1..], p)
    else if data > qs[0] then Ok(false)
    else if remaining == 0 then Ok(false)
    else match RiceDecode(s, p)
      case Err(e) => Err(e)
      case Ok((delta, rest)) => AllFrom((data + delta) % TWO64, remaining - 1, rest, qs, p)
  }

  /** The element count and the rest of a filter; an unreadable count counts as zero. */
  function Header(bytes: seq<byte>): (r: (u64, seq<byte>))
  {
    var d := VarInt.Decode(bytes);
    if d.None? then (0, [])
    else
      VarInt.EncodeDecode(bytes);
      d.value
  }

  /** The query on a filter body, once its items are mapped and sorted. */
  function AnyMapped(n: nat, body: seq<byte>, mapped: seq<u64>, p: nat): (r: Result<bool, StreamError>)
    requires p < 64
  {
    if mapped == [] then Ok(true)
    else if n == 0 then Ok(false)
    else match RiceDecode(BytesBits(body), p)
      case Err(e) => Err(e)
      case Ok((data, rest)) => AnyFrom(data, n - 1, rest, mapped, p)
  }

  function MatchAny(f: Filter, bytes: seq<byte>, query: seq<Bytes>): (r: Result<bool, StreamError>)
    requires f.Valid()
  {
    var (n, body) := Header(bytes);
    AnyMapped(n, body, Sort(Places(f, n, query)), f.p)
  }

  /** The query on a filter body, once its items are mapped and sorted. */
  function AllMapped(n: nat, body: seq<byte>, mapped: seq<u64>, p: nat): (r: Result<bool, StreamError>)
    requires p < 64
  {
    if mapped == [] then Ok(true)
    else if n == 0 then Ok(false)
    else match RiceDecode(BytesBits(body), p)
      case Err(e) => Err(e)
      case Ok((data, rest)) => AllFrom(data, n - 1, rest, mapped, p)
  }

  function MatchAll(f: Filter, bytes: seq<byte>, query: seq<Bytes>): (r: Result<bool, StreamError>)
    requires f.Valid()
  {
    var (n, body) := Header(bytes);
    AllMapped(n, body, Dedup(Sort(Places(f, n, query))), f.p)
  }

  /** Bytes without a readable count, and filters of no elements, are no error: nothing but the empty
      query matches. */
  lemma {:induction false} NothingToMatch(f: Filter, bytes: seq<byte>, query: seq<Bytes>)
    requires f.Valid()
    requires VarInt.Decode(bytes).None? || VarInt.Decode(bytes).value.0 == 0
    ensures MatchAny(f, bytes, query) == Ok(query == []) && MatchAll(f, bytes, query) == Ok(query == [])
  {
    NothingMapped(f, 0, query);
  }

  // ---- correctness of the one-pass merge ----

  ghost predicate Common(ds: seq<u64>, qs: seq<u64>)
  {
    exists x :: x in ds && x in qs
  }

  ghost predicate Contained(qs: seq<u64>, ds: seq<u64>)
  {
    forall x :: x in qs ==> x in ds
  }

  lemma {:induction false} SortedHead(s: seq<u64>)
    requires Sorted(s) && s != []
    ensures forall x :: x in s ==> s[0] <= x
    ensures forall x :: x in s <==> x == s[0] || x in s[1..]
    ensures Sorted(s[1..])
  {}

  /** The coded differences after the first number. */
  ghost function TailBits(ds: seq<u64>, p: nat): (s: seq<bool>)
    requires ds != [] && Sorted(ds)
  {
    assert [ds[0]] + ds[1..] == ds;
    DeltaBits(ds[0], ds[1..], p)
  }

  /** The next number of the stream, decoded. */
  lemma {:induction false} NextDelta(ds: seq<u64>, p: nat, rest: seq<bool>)
    requires p < 64 && |ds| >= 2 && Sorted(ds)
    ensures ds[0] <= ds[1] && Sorted(ds[1..])
    ensures RiceDecode(TailBits(ds, p) + rest, p) == Ok((ds[1] - ds[0], TailBits(ds[1..], p) + rest))
  {
    assert ds[1..][0] == ds[1];
    TailBitsStep(ds, p);
    ReadDelta(ds[1] - ds[0], p, TailBits(ds[1..], p), rest);
  }

  lemma {:induction false} TailBitsStep(ds: seq<u64>, p: nat)
    requires |ds| >= 2 && Sorted(ds)
    ensures ds[0] <= ds[1] && Sorted(ds[1..])
    ensures TailBits(ds, p) == RiceBits(ds[1] - ds[0], p) + TailBits(ds[1..], p)
  {
    assert [ds[0]] + ds[1..] == ds;
  }

  lemma {:induction false} ReadDelta(delta: u64, p: nat, tail: seq<bool>, rest: seq<bool>)
    requires p < 64
    ensures RiceDecode(RiceBits(delta, p) + tail + rest, p) == Ok((delta, tail + rest))
  {
    RiceRoundTrip(delta, p, tail + rest);
    Assoc(RiceBits(delta, p), tail, rest);
  }

  /** The merges on plain lists. */
  function AnyMerge(ds: seq<u64>, qs: seq<u64>): (r: bool)
    decreases |ds| + |qs|
  {
    if ds == [] || qs == [] then false
    else if ds[0] == qs[0] then true
    else if ds[0] > qs[0] then AnyMerge(ds, qs[1..])
    else AnyMerge(ds[1..], qs)
  }

  function AllMerge(ds: seq<u64>, qs: seq<u64>): (r: bool)
    decreases |ds| + |qs|
  {
    if qs == [] then true
    else if ds == [] || ds[0] > qs[0] then false
    else if ds[0] == qs[0] then AllMerge(ds, qs[1..])
    else AllMerge(ds[1..], qs)
  }

  lemma {:induction false} AnyMergeIsCommon(ds: seq<u64>, qs: seq<u64>)
    requires Sorted(ds) && Sorted(qs)
    ensures AnyMerge(ds, qs) <==> Common(ds, qs)
    decreases |ds| + |qs|
  {
    if ds != [] && qs != [] {
      SortedHead(ds);
      SortedHead(qs);
      assert ds[0] in ds && qs[0] in qs;
      if ds[0] > qs[0] {
        AnyMergeIsCommon(ds, qs[1..]);
      } else if ds[0] < qs[0] {
        AnyMergeIsCommon(ds[1..], qs);
      }
    }
  }

  lemma {:induction false} AllMergeIsContained(ds: seq<u64>, qs: seq<u64>)
    requires Sorted(ds) && Sorted(qs)
    ensures AllMerge(ds, qs) <==> Contained(qs, ds)
    decreases |ds| + |qs|
  {
    if qs != [] {
      SortedHead(qs);
      assert qs[0] in qs;
      if ds != [] {
        SortedHead(ds);
        if ds[0] == qs[0] {
          AllMergeIsContained(ds, qs[1..]);
        } else if ds[0] < qs[0] {
          AllMergeIsContained(ds[1..], qs);
        }
      }
    }
  }

  lemma {:induction false} AnyFromCorrect(ds: seq<u64>, qs: seq<u64>, p: nat, rest: seq<bool>)
    requires p < 64 && ds != [] && Sorted(ds)
    ensures AnyFrom(ds[0], |ds| - 1, TailBits(ds, p) + rest, qs, p) == Ok(AnyMerge(ds, qs))
    decreases |ds|, |qs|
  {
    if qs != [] {
      if ds[0] > qs[0] {
        AnyFromCorrect(ds, qs[1..], p, rest);
      } else if ds[0] < qs[0] && |ds| > 1 {
        AnyAdvance(ds, qs, p, rest);
        AnyFromCorrect(ds[1..], qs, p, rest);
      }
    }
  }

  lemma {:induction false} AnyAdvance(ds: seq<u64>, qs: seq<u64>, p: nat, rest: seq<bool>)
    requires p < 64 && |ds| > 1 && qs != [] && Sorted(ds) && ds[0] < qs[0]
    ensures Sorted(ds[1..])
    ensures AnyFrom(ds[0], |ds| - 1, TailBits(ds, p) + rest, qs, p)
         == AnyFrom(ds[1..][0], |ds[1..]| - 1, TailBits(ds[1..], p) + rest, qs, p)
  {
    NextDelta(ds, p, rest);
    AnyStep(ds[0], |ds| - 1, TailBits(ds, p) + rest, qs, p, ds[1], TailBits(ds[1..], p) + rest);
  }

  lemma {:induction false} AnyStep(data: u64, n: nat, s: seq<bool>, qs: seq<u64>, p: nat, next: u64, rest: seq<bool>)
    requires p < 64 && n > 0 && qs != [] && data < qs[0] && data <= next && RiceDecode(s, p) == Ok((next - data, rest))
    ensures AnyFrom(data, n, s, qs, p) == AnyFrom(next, n - 1, rest, qs, p)
  {
    SmallMod(next, TWO64);
  }

  lemma {:induction false} AllFromCorrect(ds: seq<u64>, qs: seq<u64>, p: nat, rest: seq<bool>)
    requires p < 64 && ds != [] && Sorted(ds)
    ensures AllFrom(ds[0], |ds| - 1, TailBits(ds, p) + rest, qs, p) == Ok(AllMerge(ds, qs))
    decreases |ds|, |qs|
  {
    if qs != [] {
      if ds[0] == qs[0] {
        AllFromCorrect(ds, qs[1..], p, rest);
      } else if ds[0] < qs[0] && |ds| > 1 {
        AllAdvance(ds, qs, p, rest);
        AllFromCorrect(ds[1..], qs, p, rest);
      }
    }
  }

  lemma {:induction false} AllAdvance(ds: seq<u64>, qs: seq<u64>, p: nat, rest: seq<bool>)
    requires p < 64 && |ds| > 1 && qs != [] && Sorted(ds) && ds[0] < qs[0]
    ensures Sorted(ds[1..])
    ensures AllFrom(ds[0], |ds| - 1, TailBits(ds, p) + rest, qs, p)
         == AllFrom(ds[1..][0], |ds[1..]| - 1, TailBits(ds[1..], p) + rest, qs, p)
  {
    NextDelta(ds, p, rest);
    AllStep(ds[0], |ds| - 1, TailBits(ds, p) + rest, qs, p, ds[1], TailBits(ds[1..], p) + rest);
  }

  lemma {:induction false} AllStep(data: u64, n: nat, s: seq<bool>, qs: seq<u64>, p: nat, next: u64, rest: seq<bool>)
    requires p < 64 && n > 0 && qs != [] && data < qs[0] && data <= next && RiceDecode(s, p) == Ok((next - data, rest))
    ensures AllFrom(data, n, s, qs, p) == AllFrom(next, n - 1, rest, qs, p)
  {
    SmallMod(next, TWO64);
  }

  // ---- whole filters ----

  /** Some, or every, query falls where some element falls. */
  ghost predicate SomeMatch(f: Filter, elements: seq<Bytes>, query: seq<Bytes>)
  {
    exists q, e :: q in query && e in elements && Place(f, |elements|, q) == Place(f, |elements|, e)
  }

  ghost predicate EveryMatch(f: Filter, elements: seq<Bytes>, query: seq<Bytes>)
  {
    forall q :: q in query ==> exists e :: e in elements && Place(f, |elements|, q) == Place(f, |elements|, e)
  }

  lemma {:induction false} NothingMapped(f: Filter, n: nat, query: seq<Bytes>)
    ensures Sort(Places(f, n, query)) == [] <==> query == []
  {}

  /** What a reader finds at the head of a filter that a writer produced. */
  lemma {:induction false} FilterHead(f: Filter, elements: seq<Bytes>, bytes: seq<byte>, body: seq<byte>, pad: nat)
    requires f.Valid() && |elements| < TWO64 && FilterParts(f, elements, bytes, body, pad) && elements != []
    ensures Header(bytes) == (|elements|, body)
    ensures var ds := Sort(Places(f, |elements|, elements));
      |ds| == |elements| &&
      RiceDecode(BytesBits(body), f.p) == Ok((ds[0], TailBits(ds, f.p) + Repeat(false, pad)))
  {
    var ds := Sort(Places(f, |elements|, elements));
    SortMembers(Places(f, |elements|, elements));
    VarInt.DecodeEncode(|elements|, body);
    TailSorted(0, ds);
    var tail := TailBits(ds, f.p);
    RiceRoundTrip(ds[0], f.p, tail + Repeat(false, pad));
    Assoc(RiceBits(ds[0], f.p), tail, Repeat(false, pad));
  }

  lemma {:induction false} CommonIsSomeMatch(f: Filter, elements: seq<Bytes>, query: seq<Bytes>)
    ensures Common(Sort(Places(f, |elements|, elements)), Sort(Places(f, |elements|, query)))
       <==> SomeMatch(f, elements, query)
  {
    var pe, pq := Places(f, |elements|, elements), Places(f, |elements|, query);
    SortMembers(pe);
    SortMembers(pq);
    if Common(Sort(pe), Sort(pq)) {
      var x :| x in Sort(pe) && x in Sort(pq);
      var i :| 0 <= i < |pe| && pe[i] == x;
      var j :| 0 <= j < |pq| && pq[j] == x;
      assert query[j] in query && elements[i] in elements;
    }
    if SomeMatch(f, elements, query) {
      var q, e :| q in query && e in elements && Place(f, |elements|, q) == Place(f, |elements|, e);
      var i :| 0 <= i < |elements| && elements[i] == e;
      var j :| 0 <= j < |query| && query[j] == q;
      assert pe[i] in pe && pq[j] in pq;
    }
  }

  lemma {:induction false} PlaceOf(f: Filter, n: nat, items: seq<Bytes>, x: u64)
    ensures x in Places(f, n, items) <==> exists e :: e in items && Place(f, n, e) == x
  {}

  lemma {:induction false} ContainedIsEveryMatch(f: Filter, elements: seq<Bytes>, query: seq<Bytes>)
    ensures Contained(Dedup(Sort(Places(f, |elements|, query))), Sort(Places(f, |elements|, elements)))
       <==> EveryMatch(f, elements, query)
  {
    var pe, pq := Places(f, |elements|, elements), Places(f, |elements|, query);
    SortMembers(pe);
    SortMembers(pq);
    assert Contained(Dedup(Sort(pq)), Sort(pe)) <==> forall x :: x in pq ==> x in pe;
    if forall x :: x in pq ==> x in pe {
      forall q | q in query ensures exists e :: e in elements && Place(f, |elements|, q) == Place(f, |elements|, e) {
        PlaceOf(f, |elements|, query, Place(f, |elements|, q));
        PlaceOf(f, |elements|, elements, Place(f, |elements|, q));
      }
    }
    if EveryMatch(f, elements, query) {
      forall x | x in pq ensures x in pe {
        PlaceOf(f, |elements|, query, x);
        PlaceOf(f, |elements|, elements, x);
      }
    }
  }

  /** On the bytes of a filter, matching any query is exactly set membership of places. */
  lemma {:induction false} MatchAnyCorrect(f: Filter, elements: seq<Bytes>, bytes: seq<byte>, query: seq<Bytes>)
    requires f.Valid() && IsFilter(f, elements, bytes)
    ensures MatchAny(f, bytes, query) == Ok(query == [] || SomeMatch(f, elements, query))
  {
    var body: seq<byte>, pad: nat :| pad < 8 && FilterParts(f, elements, bytes, body, pad);
    VarInt.DecodeEncode(|elements|, body);
    NothingMapped(f, |elements|, query);
    if query != [] && elements != [] {
      AnyOnParts(f, elements, bytes, query, body, pad);
    }
  }

  lemma {:induction false} AnyOnParts(
      f: Filter, elements: seq<Bytes>, bytes: seq<byte>, query: seq<Bytes>, body: seq<byte>, pad: nat)
    requires f.Valid() && |elements| < TWO64 && FilterParts(f, elements, bytes, body, pad)
    requires query != [] && elements != []
    ensures MatchAny(f, bytes, query) == Ok(SomeMatch(f, elements, query))
  {
    FilterHead(f, elements, bytes, body, pad);
    NothingMapped(f, |elements|, query);
    AnyOnBody(|elements|, body, Sort(Places(f, |elements|, elements)), Sort(Places(f, |elements|, query)), f.p, pad);
    CommonIsSomeMatch(f, elements, query);
  }

  lemma {:induction false} AnyOnBody(n: nat, body: seq<byte>, ds: seq<u64>, qs: seq<u64>, p: nat, pad: nat)
    requires p < 64 && ds != [] && qs != [] && Sorted(ds) && Sorted(qs) && n == |ds|
    requires RiceDecode(BytesBits(body), p) == Ok((ds[0], TailBits(ds, p) + Repeat(false, pad)))
    ensures AnyMapped(n, body, qs, p) == Ok(Common(ds, qs))
  {
    AnyOnStream(ds, qs, p, pad);
  }

  lemma {:induction false} AnyOnStream(ds: seq<u64>, qs: seq<u64>, p: nat, pad: nat)
    requires p < 64 && ds != [] && Sorted(ds) && Sorted(qs)
    ensures AnyFrom(ds[0], |ds| - 1, TailBits(ds, p) + Repeat(false, pad), qs, p) == Ok(Common(ds, qs))
  {
    AnyFromCorrect(ds, qs, p, Repeat(false, pad));
    AnyMergeIsCommon(ds, qs);
  }

  lemma {:induction false} MatchAllCorrect(f: Filter, elements: seq<Bytes>, bytes: seq<byte>, query: seq<Bytes>)
    requires f.Valid() && IsFilter(f, elements, bytes)
    ensures MatchAll(f, bytes, query) == Ok(query == [] || EveryMatch(f, elements, query))
  {
    var body: seq<byte>, pad: nat :| pad < 8 && FilterParts(f, elements, bytes, body, pad);
    VarInt.DecodeEncode(|elements|, body);
    NothingMapped(f, |elements|, query);
    if query != [] && elements != [] {
      AllOnParts(f, elements, bytes, query, body, pad);
    } else if query != [] {
      assert query[0] in query;
    }
  }

  lemma {:induction false} AllOnParts(
      f: Filter, elements: seq<Bytes>, bytes: seq<byte>, query: seq<Bytes>, body: seq<byte>, pad: nat)
    requires f.Valid() && |elements| < TWO64 && FilterParts(f, elements, bytes, body, pad)
    requires query != [] && elements != []
    ensures MatchAll(f, bytes, query) == Ok(EveryMatch(f, elements, query))
  {
    FilterHead(f, elements, bytes, body, pad);
    NothingMapped(f, |elements|, query);
    AllOnBody(
      |elements|, body, Sort(Places(f, |elements|, elements)), Dedup(Sort(Places(f, |elements|, query))), f.p, pad);
    ContainedIsEveryMatch(f, elements, query);
  }

  lemma {:induction false} AllOnBody(n: nat, body: seq<byte>, ds: seq<u64>, qs: seq<u64>, p: nat, pad: nat)
    requires p < 64 && ds != [] && qs != [] && Sorted(ds) && Sorted(qs) && n == |ds|
    requires RiceDecode(BytesBits(body), p) == Ok((ds[0], TailBits(ds, p) + Repeat(false, pad)))
    ensures AllMapped(n, body, qs, p) == Ok(Contained(qs, ds))
  {
    AllOnStream(ds, qs, p, pad);
  }

  lemma {:induction false} AllOnStream(ds: seq<u64>, qs: seq<u64>, p: nat, pad: nat)
    requires p < 64 && ds != [] && Sorted(ds) && Sorted(qs)
    ensures AllFrom(ds[0], |ds| - 1, TailBits(ds, p) + Repeat(false, pad), qs, p) == Ok(Contained(qs, ds))
  {
    AllFromCorrect(ds, qs, p, Repeat(false, pad));
    AllMergeIsContained(ds, qs);
  }

  /** No false negatives: whatever was put in is found. */
  lemma {:induction false} NoFalseNegatives(f: Filter, elements: seq<Bytes>, bytes: seq<byte>, query: seq<Bytes>)
    requires f.Valid() && IsFilter(f, elements, bytes)
    ensures (exists q :: q in query && q in elements) ==> MatchAny(f, bytes, query) == Ok(true)
    ensures (forall q :: q in query ==> q in elements) ==> MatchAll(f, bytes, query) == Ok(true)
  {
    MatchAnyCorrect(f, elements, bytes, query);
    MatchAllCorrect(f, elements, bytes, query);
  }

  // ---- the code ----

  /** Returns whether any query matches, in one pass over the stream. */
  method MatchAnyIn(f: Filter, bytes: seq<byte>, query: seq<Bytes>) returns (r: Result<bool, StreamError>)
    requires f.Valid()
    ensures r == MatchAny(f, bytes, query)
  {
    var (n, body) := Header(bytes);
    r := AnyInBody(n, body, Sort(Places(f, n, query)), f.p);
  }

  method AnyInBody(n: nat, body: seq<byte>, mapped: seq<u64>, p: nat) returns (r: Result<bool, StreamError>)
    requires p < 64
    ensures r == AnyMapped(n, body, mapped, p)
  {
    if mapped == [] {
      return Ok(true);
    }
    if n == 0 {
      return Ok(false);
    }
    var reader := new BitStreamReader(body);
    var first := RiceDecodeFrom(reader, p);
    if first.Err? {
      return Err(first.error);
    }
    r := AnyLoop(reader, first.value, n - 1, mapped, p);
  }

  method NextNumber(reader: BitStreamReader, data: u64, p: nat) returns (r: Result<u64, StreamError>)
    requires reader.Valid() && p < 64
    modifies reader
    ensures reader.Valid()
    ensures match RiceDecode(old(reader.Remaining()), p)
      case Ok((delta, rest)) => r == Ok((data + delta) % TWO64) && reader.Remaining() == rest
      case Err(e) => r == Err(e)
  {
    var delta := RiceDecodeFrom(reader, p);
    r := if delta.Err? then Err(delta.error) else Ok((data + delta.value) % TWO64);
  }

  /** Reads on until the current number reaches the query; an answer ends the search. */
  method AnySeek(reader: BitStreamReader, first: u64, count: nat, q: u64, ghost qs: seq<u64>, p: nat)
    returns (answer: Option<Result<bool, StreamError>>, data: u64, remaining: nat)
    requires reader.Valid() && p < 64 && qs != [] && qs[0] == q
    modifies reader
    ensures reader.Valid()
    ensures var all := AnyFrom(first, count, old(reader.Remaining()), qs, p);
      if answer.Some? then all == answer.value
      else data > q && AnyFrom(data, remaining, reader.Remaining(), qs, p) == all
  {
    data, remaining := first, count;
    ghost var goal := AnyFrom(first, count, reader.Remaining(), qs, p);
    while data <= q
      invariant reader.Valid() && AnyFrom(data, remaining, reader.Remaining(), qs, p) == goal
      decreases remaining
    {
      if data == q {
        return Some(Ok(true)), data, remaining;
      }
      if remaining == 0 {
        return Some(Ok(false)), data, remaining;
      }
      var next := NextNumber(reader, data, p);
      if next.Err? {
        return Some(Err(next.error)), data, remaining;
      }
      data, remaining := next.value, remaining - 1;
    }
    answer := None;
  }

  method AnyLoop(reader: BitStreamReader, first: u64, count: nat, mapped: seq<u64>, p: nat)
    returns (r: Result<bool, StreamError>)
    requires reader.Valid() && p < 64
    modifies reader
    ensures r == AnyFrom(first, count, old(reader.Remaining()), mapped, p)
  {
    var data: u64, remaining: nat := first, count;
    ghost var goal := AnyFrom(first, count, reader.Remaining(), mapped, p);
    assert mapped[0..] == mapped;
    for i := 0 to |mapped|
      invariant reader.Valid() && AnyFrom(data, remaining, reader.Remaining(), mapped[i..], p) == goal
    {
      assert mapped[i..][0] == mapped[i] && mapped[i..][1..] == mapped[i + 1..];
      var answer;
      answer, data, remaining := AnySeek(reader, data, remaining, mapped[i], mapped[i..], p);
      if answer.Some? {
        return answer.value;
      }
    }
    r := Ok(false);
  }

  /** Returns whether all queries match, in one pass over the stream. */
  method MatchAllIn(f: Filter, bytes: seq<byte>, query: seq<Bytes>) returns (r: Result<bool, StreamError>)
    requires f.Valid()
    ensures r == MatchAll(f, bytes, query)
  {
    var (n, body) := Header(bytes);
    r := AllInBody(n, body, Dedup(Sort(Places(f, n, query))), f.p);
  }

  method AllInBody(n: nat, body: seq<byte>, mapped: seq<u64>, p: nat) returns (r: Result<bool, StreamError>)
    requires p < 64
    ensures r == AllMapped(n, body, mapped, p)
  {
    if mapped == [] {
      return Ok(true);
    }
    if n == 0 {
      return Ok(false);
    }
    var reader := new BitStreamReader(body);
    var first := RiceDecodeFrom(reader, p);
    if first.Err? {
      return Err(first.error);
    }
    r := AllLoop(reader, first.value, n - 1, mapped, p);
  }

  lemma {:induction false} AllReads(data: u64, n: nat, s: seq<bool>, qs: seq<u64>, p: nat)
    requires p < 64 && n > 0 && qs != [] && data < qs[0]
    ensures AllFrom(data, n, s, qs, p) == match RiceDecode(s, p)
      case Err(e) => Err(e)
      case Ok((delta, rest)) => AllFrom((data + delta) % TWO64, n - 1, rest, qs, p)
  {}

  lemma {:induction false} AllStops(data: u64, n: nat, s: seq<bool>, qs: seq<u64>, p: nat)
    requires p < 64 && qs != [] && data != qs[0] && (data > qs[0] || n == 0)
    ensures AllFrom(data, n, s, qs, p) == Ok(false)
  {}

  /** One number further, which leaves the answer as it was. */
  method AllNext(reader: BitStreamReader, data: u64, remaining: nat, ghost qs: seq<u64>, p: nat)
    returns (next: Result<u64, StreamError>)
    requires reader.Valid() && p < 64 && qs != [] && data < qs[0] && remaining > 0
    modifies reader
    ensures reader.Valid()
    ensures AllFrom(data, remaining, old(reader.Remaining()), qs, p) == match next
      case Err(e) => Err(e)
      case Ok(n) => AllFrom(n, remaining - 1, reader.Remaining(), qs, p)
  {
    AllReads(data, remaining, reader.Remaining(), qs, p);
    next := NextNumber(reader, data, p);
  }

  /** Reads on until the current number is the query; an answer ends the search. */
  method AllSeek(reader: BitStreamReader, first: u64, count: nat, q: u64, ghost qs: seq<u64>, p: nat)
    returns (answer: Option<Result<bool, StreamError>>, data: u64, remaining: nat)
    requires reader.Valid() && p < 64 && qs != [] && qs[0] == q
    modifies reader
    ensures reader.Valid()
    ensures var all := AllFrom(first, count, old(reader.Remaining()), qs, p);
      if answer.Some? then all == answer.value
      else data == q && AllFrom(data, remaining, reader.Remaining(), qs, p) == all
  {
    data, remaining := first, count;
    ghost var goal := AllFrom(first, count, reader.Remaining(), qs, p);
    while data != q
      invariant reader.Valid() && AllFrom(data, remaining, reader.Remaining(), qs, p) == goal
      decreases remaining
    {
      if data > q || remaining == 0 {
        AllStops(data, remaining, reader.Remaining(), qs, p);
        return Some(Ok(false)), data, remaining;
      }
      var next := AllNext(reader, data, remaining, qs, p);
      if next.Err? {
        return Some(Err(next.error)), data, remaining;
      }
      data, remaining := next.value, remaining - 1;
    }
    answer := None;
  }

  method AllLoop(reader: BitStreamReader, first: u64, count: nat, mapped: seq<u64>, p: nat)
    returns (r: Result<bool, StreamError>)
    requires reader.Valid() && p < 64
    modifies reader
    ensures r == AllFrom(first, count, old(reader.Remaining()), mapped, p)
  {
    var data: u64, remaining: nat := first, count;
    ghost var goal := AllFrom(first, count, reader.Remaining(), mapped, p);
    assert mapped[0..] == mapped;
    for i := 0 to |mapped|
      invariant reader.Valid() && AllFrom(data, remaining, reader.Remaining(), mapped[i..], p) == goal
    {
      assert mapped[i..][0] == mapped[i] && mapped[i..][1..] == mapped[i + 1..];
      var answer;
      answer, data, remaining := AllSeek(reader, data, remaining, mapped[i], mapped[i..], p);
      if answer.Some? {
        return answer.value;
      }
    }
    r := Ok(true);
  }
}
