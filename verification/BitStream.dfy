/** The bitwise stream writer and reader of the block filter code (bitcoin/src/bip158.rs). */
module BitStream {
  import opened Wrappers
  import opened Arith
  import opened Bits
  import opened Radix
  import opened BitSeq

  datatype StreamError = TooManyBits | EndOfInput

  function Min(a: nat, b: nat): (r: nat)
  {
    if a <= b then a else b
  }

  // ---- one step of the writer ----

  /** The bits that go into a byte with `room` free low bits: the high bits of the low `nbits` of data. */
  function Piece(data: nat, nbits: nat, room: nat): (x: nat)
    requires 0 < nbits <= 64 && 0 < room <= 8
  {
    (data * Pow(2, 64 - nbits)) % TWO64 / Pow(2, 64 - room)
  }

  /** The arithmetic of both cases, with powers of two as plain numbers. */
  lemma {:induction false} AlignedPiece(data: nat, p: nat, n: nat, w: nat, r: nat, v: nat)
    requires p > 0 && n > 0 && r > 0 && w == p * n && v == p * r
    ensures ((data * p) % w) / v == (data % n) / r
  {
    ScaleMod(data, p, n);
    ScaleMod(data % n, p, r);
  }

  lemma {:induction false} AlignedFit(data: nat, g: nat, q: nat, n: nat, w: nat)
    requires g > 0 && n > 0 && q > 0 && w == (g * q) * n
    ensures ((data * (g * q)) % w) / q == (data % n) * g
    ensures (data % n) * g + g <= g * n
  {
    ScaleMod(data, g * q, n);
    MulAssoc(data % n, g, q);
    DivOfMul((data % n) * g, q);
    MulMono(g, data % n + 1, n);
    assert g * (data % n + 1) == (data % n) * g + g;
  }

  /** Enough bits to fill the byte: its top bits. */
  lemma {:induction false} PieceFills(data: nat, nbits: nat, room: nat)
    requires 0 < room <= 8 && room <= nbits <= 64
    ensures Piece(data, nbits, room) == data % Pow(2, nbits) / Pow(2, nbits - room) < Pow(2, room)
  {
    Pow64();
    PowAdd(2, 64 - nbits, nbits);
    PowAdd(2, 64 - nbits, nbits - room);
    AlignedPiece(data, Pow(2, 64 - nbits), Pow(2, nbits), TWO64, Pow(2, nbits - room), Pow(2, 64 - room));
    PowAdd(2, room, nbits - room);
    DivLt(data % Pow(2, nbits), Pow(2, nbits - room), Pow(2, room));
  }

  /** Fewer bits than room: they stay left-aligned. */
  lemma {:induction false} PieceFits(data: nat, nbits: nat, room: nat)
    requires 0 < nbits < room <= 8
    ensures Piece(data, nbits, room) == data % Pow(2, nbits) * Pow(2, room - nbits) < Pow(2, room)
  {
    Pow64();
    PowAdd(2, room - nbits, 64 - room);
    PowAdd(2, 64 - nbits, nbits);
    PowAdd(2, room - nbits, nbits);
    AlignedFit(data, Pow(2, room - nbits), Pow(2, 64 - room), Pow(2, nbits), TWO64);
  }

  /** A byte under construction: `offset` bits are used, the rest are zero. */
  ghost predicate Partial(buffer: nat, offset: nat)
  {
    offset <= 8 && buffer < 256 && buffer % Pow(2, 8 - offset) == 0
  }

  ghost function PartialBits(buffer: nat, offset: nat): (s: seq<bool>)
    requires offset <= 8
  {
    ToBits(buffer / Pow(2, 8 - offset), offset)
  }

  lemma {:induction false} BytePowers(offset: nat)
    requires offset <= 8
    ensures Pow(2, 8) == 256 && Pow(2, 8 - offset) * Pow(2, offset) == 256
  {}

  lemma {:induction false} MergePiece(buffer: nat, offset: nat, piece: nat)
    requires offset < 8 && Partial(buffer, offset) && piece < Pow(2, 8 - offset)
    ensures Or(buffer, piece) == buffer + piece < 256
    ensures buffer == (buffer / Pow(2, 8 - offset)) * Pow(2, 8 - offset)
  {
    var p := Pow(2, 8 - offset);
    BytePowers(offset);
    MultipleGap(buffer, p, Pow(2, offset));
    OrDisjoint(piece, buffer / p, 8 - offset);
    OrComm(piece, buffer);
  }

  lemma {:induction false} FillByte(buffer: nat, offset: nat, data: nat, nbits: nat)
    requires offset < 8 && Partial(buffer, offset) && 8 - offset <= nbits <= 64
    ensures var b := Or(buffer, Piece(data, nbits, 8 - offset));
      b < 256 && ToBits(b, 8) + ToBits(data, nbits - (8 - offset)) == PartialBits(buffer, offset) + ToBits(data, nbits)
  {
    PieceFills(data, nbits, 8 - offset);
    FillWith(buffer, offset, data, nbits, nbits - (8 - offset), Piece(data, nbits, 8 - offset));
  }

  lemma {:induction false} FillWith(buffer: nat, offset: nat, data: nat, nbits: nat, rest: nat, piece: nat)
    requires offset < 8 && Partial(buffer, offset) && nbits == 8 - offset + rest
    requires piece == data % Pow(2, nbits) / Pow(2, rest) < Pow(2, 8 - offset)
    ensures var b := Or(buffer, piece);
      b < 256 && ToBits(b, 8) + ToBits(data, rest) == PartialBits(buffer, offset) + ToBits(data, nbits)
  {
    MergePiece(buffer, offset, piece);
    FillFrom(Or(buffer, piece), buffer, piece, data, offset, rest);
  }

  lemma {:induction false} FillFrom(b: nat, buffer: nat, piece: nat, data: nat, offset: nat, rest: nat)
    requires Partial(buffer, offset) && b == buffer + piece
    requires piece == data % Pow(2, 8 - offset + rest) / Pow(2, rest) < Pow(2, 8 - offset)
    ensures ToBits(b, 8) + ToBits(data, rest) == PartialBits(buffer, offset) + ToBits(data, 8 - offset + rest)
  {
    DivMod(buffer, Pow(2, 8 - offset));
    FillJoin(b, buffer / Pow(2, 8 - offset), piece, data, offset, 8 - offset, rest);
  }

  lemma {:induction false} FillJoin(b: nat, h: nat, piece: nat, data: nat, offset: nat, room: nat, rest: nat)
    requires b == h * Pow(2, room) + piece && piece == data % Pow(2, room + rest) / Pow(2, rest) < Pow(2, room)
    ensures ToBits(b, offset + room) + ToBits(data, rest) == ToBits(h, offset) + ToBits(data, room + rest)
  {
    JoinBits(h, piece, offset, room);
    SplitLow(data, room, rest);
    Assoc(ToBits(h, offset), ToBits(piece, room), ToBits(data, rest));
  }

  lemma {:induction false} FitByte(buffer: nat, offset: nat, data: nat, nbits: nat)
    requires offset < 8 && Partial(buffer, offset) && 0 < nbits < 8 - offset
    ensures var b := Or(buffer, Piece(data, nbits, 8 - offset));
      Partial(b, offset + nbits) && PartialBits(b, offset + nbits) == PartialBits(buffer, offset) + ToBits(data, nbits)
  {
    PieceFits(data, nbits, 8 - offset);
    FitWith(buffer, offset, data, nbits, Piece(data, nbits, 8 - offset));
  }

  lemma {:induction false} FitWith(buffer: nat, offset: nat, data: nat, nbits: nat, piece: nat)
    requires offset < 8 && Partial(buffer, offset) && 0 < nbits < 8 - offset
    requires piece == data % Pow(2, nbits) * Pow(2, 8 - offset - nbits) < Pow(2, 8 - offset)
    ensures var b := Or(buffer, piece);
      Partial(b, offset + nbits) && PartialBits(b, offset + nbits) == PartialBits(buffer, offset) + ToBits(data, nbits)
  {
    MergePiece(buffer, offset, piece);
    FitJoin(Or(buffer, piece), buffer, piece, data, offset, nbits);
  }

  lemma {:induction false} FitJoin(b: nat, buffer: nat, piece: nat, data: nat, offset: nat, nbits: nat)
    requires Partial(buffer, offset) && b == buffer + piece < 256 && offset + nbits < 8
    requires piece == data % Pow(2, nbits) * Pow(2, 8 - offset - nbits)
    ensures Partial(b, offset + nbits) && PartialBits(b, offset + nbits)
      == PartialBits(buffer, offset) + ToBits(data, nbits)
  {
    var left := 8 - offset - nbits;
    DivMod(buffer, Pow(2, 8 - offset));
    JoinAt(b, buffer / Pow(2, 8 - offset), data, offset, nbits, left);
  }

  lemma {:induction false} JoinAt(b: nat, h: nat, data: nat, offset: nat, nbits: nat, left: nat)
    requires b == h * Pow(2, nbits + left) + data % Pow(2, nbits) * Pow(2, left)
    ensures b % Pow(2, left) == 0 && ToBits(b / Pow(2, left), offset + nbits) == ToBits(h, offset) + ToBits(data, nbits)
  {
    PowAdd(2, nbits, left);
    AppendBits(h, data, offset, nbits, Pow(2, left));
  }

  lemma {:induction false} AppendBits(h: nat, data: nat, a: nat, b: nat, g: nat)
    requires g > 0
    ensures var v := h * (Pow(2, b) * g) + data % Pow(2, b) * g;
      v % g == 0 && ToBits(v / g, a + b) == ToBits(h, a) + ToBits(data, b)
  {
    Regroup(h, Pow(2, b), g, data % Pow(2, b));
    JoinBits(h, data % Pow(2, b), a, b);
    ToBitsOfMod(data, b);
  }

  lemma {:induction false} Regroup(h: nat, p: nat, g: nat, d: nat)
    requires g > 0
    ensures (h * (p * g) + d * g) / g == h * p + d && (h * (p * g) + d * g) % g == 0
  {
    MulAssoc(h, p, g);
    DivOfMul(h * p + d, g);
    assert (h * p + d) * g == h * (p * g) + d * g;
  }

  /** All bits of a stream: whole bytes, then the byte under construction. */
  ghost function Stream(out: seq<byte>, buffer: nat, offset: nat): (s: seq<bool>)
    requires offset <= 8
  {
    BytesBits(out) + PartialBits(buffer, offset)
  }

  lemma {:induction false} StreamFill(out: seq<byte>, buffer: nat, offset: nat, data: nat, nbits: nat)
    requires offset < 8 && Partial(buffer, offset) && 8 - offset <= nbits <= 64
    ensures var b := Or(buffer, Piece(data, nbits, 8 - offset));
      b < 256 && Stream(out + [b], 0, 0) + ToBits(data, nbits - (8 - offset))
        == Stream(out, buffer, offset) + ToBits(data, nbits)
  {
    var b := Or(buffer, Piece(data, nbits, 8 - offset));
    FillByte(buffer, offset, data, nbits);
    BytesBitsAppend(out, b);
    assert PartialBits(0, 0) == [];
    Prepend(BytesBits(out), ToBits(b, 8), ToBits(data, nbits - (8 - offset)), PartialBits(buffer, offset),
      ToBits(data, nbits));
  }

  lemma {:induction false} Prepend<T>(a: seq<T>, b: seq<T>, c: seq<T>, d: seq<T>, e: seq<T>)
    requires b + c == d + e
    ensures ((a + b) + []) + c == (a + d) + e && (a + b) + c == (a + d) + e
  {
    assert (a + b) + c == a + (b + c);
    assert (a + d) + e == a + (d + e);
    assert (a + b) + [] == a + b;
  }

  lemma {:induction false} StreamFit(out: seq<byte>, buffer: nat, offset: nat, data: nat, nbits: nat)
    requires offset < 8 && Partial(buffer, offset) && 0 < nbits < 8 - offset
    ensures var b := Or(buffer, Piece(data, nbits, 8 - offset));
      Partial(b, offset + nbits) && Stream(out, b, offset + nbits) + ToBits(data, 0)
        == Stream(out, buffer, offset) + ToBits(data, nbits)
  {
    FitByte(buffer, offset, data, nbits);
  }

  /** One round of writing: the byte in progress takes what fits and is written out when full. */
  lemma {:induction false} StreamPut(
    out: seq<byte>, buffer: nat, offset: nat, data: nat, nbits: nat, bits: nat, b: nat)
    requires offset < 8 && Partial(buffer, offset) && 0 < nbits <= 64
    requires bits == Min(8 - offset, nbits) && b == Or(buffer, Piece(data, nbits, 8 - offset))
    ensures Partial(b, offset + bits)
    ensures (if offset + bits == 8 then Stream(out + [b], 0, 0) else Stream(out, b, offset + bits))
      + ToBits(data, nbits - bits) == Stream(out, buffer, offset) + ToBits(data, nbits)
  {
    if nbits >= 8 - offset {
      StreamFill(out, buffer, offset, data, nbits);
      BytePowers(8);
    } else {
      StreamFit(out, buffer, offset, data, nbits);
    }
  }

  class BitStreamWriter {
    var buffer: byte
    var offset: nat
    /** The bytes that the wrapped writer has received. */
    var out: seq<byte>

    ghost predicate Valid()
      reads this
    {
      offset < 8 && Partial(buffer, offset)
    }

    /** Every bit written so far. */
    ghost function Contents(): (s: seq<bool>)
      requires Valid()
      reads this
    {
      Stream(out, buffer, offset)
    }

    constructor (out: seq<byte>)
      ensures Valid() && this.out == out && offset == 0 && Contents() == BytesBits(out)
    {
      this.buffer, this.offset, this.out := 0, 0, out;
      new;
      assert Pow(2, 8) == 256;
      SmallMod(0, 256);
    }

    /** Writes the low nbits bits of data, the most significant first. */
    method Write(data: u64, nbits: nat) returns (r: Result<nat, StreamError>)
      requires Valid()
      modifies this
      ensures Valid()
      ensures nbits > 64 ==> r == Err(TooManyBits) && Contents() == old(Contents()) && out == old(out)
      ensures nbits <= 64 ==> Contents() == old(Contents()) + ToBits(data, nbits)
      ensures nbits <= 64 ==> |out| >= |old(out)| && r == Ok(|out| - |old(out)|)
    {
      if nbits > 64 {
        return Err(TooManyBits);
      }
      var left := nbits;
      var wrote := 0;
      while left > 0
        invariant 0 <= left <= nbits && Valid()
        invariant Contents() + ToBits(data, left) == old(Contents()) + ToBits(data, nbits)
        invariant |out| == |old(out)| + wrote
      {
        var n := Put(data, left);
        left, wrote := left - n.0, wrote + n.1;
      }
      assert ToBits(data, 0) == [];
      r := Ok(wrote);
    }

    /** One round of the loop: as many bits as fit into the current byte, which is flushed when full. */
    method Put(data: u64, left: nat) returns (n: (nat, nat))
      requires Valid() && 0 < left <= 64
      modifies this
      ensures Valid() && 0 < n.0 <= left && |out| == |old(out)| + n.1
      ensures Contents() + ToBits(data, left - n.0) == old(Contents()) + ToBits(data, left)
    {
      var room := 8 - offset;
      var bits := Min(room, left);
      StreamPut(out, buffer, offset, data, left, bits, Or(buffer, Piece(data, left, room)));
      buffer := Or(buffer, Piece(data, left, room));
      offset := offset + bits;
      var wrote := 0;
      if offset == 8 {
        wrote := Flush();
      }
      n := (bits, wrote);
    }

    method Flush() returns (wrote: nat)
      requires Partial(buffer, offset)
      modifies this
      ensures Valid() && offset == 0 && buffer == 0
      ensures out == if old(offset) > 0 then old(out) + [old(buffer)] else old(out)
      ensures wrote == if old(offset) > 0 then 1 else 0
    {
      BytePowers(0);
      SmallMod(buffer, 256);
      if offset > 0 {
        out := out + [buffer];
        buffer, offset := 0, 0;
        wrote := 1;
      } else {
        wrote := 0;
      }
    }
  }

  // ---- the reader ----

  /** The next `bits` bits of a byte of which `offset` bits are already read. */
  function Chunk(buffer: byte, offset: nat, bits: nat): (x: nat)
    requires offset < 8 && 0 < bits <= 8 - offset
  {
    Quotient(Shl(buffer, offset) % 256, Pow(2, 8 - bits))
  }

  lemma {:induction false} ChunkValue(buffer: byte, k: nat, bits: nat)
    requires 0 < bits <= k <= 8
    ensures Chunk(buffer, 8 - k, bits) == buffer % Pow(2, k) / Pow(2, k - bits)
  {
    BytePowers(8 - k);
    PowAdd(2, 8 - k, k - bits);
    AlignedPiece(buffer, Pow(2, 8 - k), Pow(2, k), 256, Pow(2, k - bits), Pow(2, 8 - bits));
  }

  lemma {:induction false} ChunkBits(buffer: byte, offset: nat, bits: nat)
    requires offset < 8 && 0 < bits <= 8 - offset
    ensures var x := Chunk(buffer, offset, bits);
      x < Pow(2, bits) && ToBits(buffer, 8 - offset) == ToBits(x, bits) + ToBits(buffer, 8 - offset - bits)
  {
    var k := 8 - offset;
    ChunkValue(buffer, k, bits);
    SplitLow(buffer, bits, k - bits);
    PowAdd(2, bits, k - bits);
    DivLt(buffer % Pow(2, k), Pow(2, k - bits), Pow(2, bits));
  }

  /** Shifting a number left by the width of a smaller one and or-ing that in. */
  lemma {:induction false} ShiftIn(data: nat, read: nat, bits: nat, chunk: nat)
    requires data < Pow(2, read) && read + bits <= 64 && chunk < Pow(2, bits)
    ensures Or((data * Pow(2, bits)) % TWO64, chunk) == data * Pow(2, bits) + chunk < TWO64
  {
    Pow64();
    PowMono(2, read + bits, 64);
    PowAdd(2, read, bits);
    ShiftFits(data, Pow(2, read), chunk, Pow(2, bits));
    OrLow(data, bits, chunk);
    SmallMod(data * Pow(2, bits), TWO64);
  }

  lemma {:induction false} OrLow(data: nat, bits: nat, chunk: nat)
    requires chunk < Pow(2, bits)
    ensures Or(Shl(data, bits), chunk) == data * Pow(2, bits) + chunk
  {
    OrDisjoint(chunk, data, bits);
    OrComm(chunk, Shl(data, bits));
  }

  lemma {:induction false} ShiftFits(x: nat, a: nat, y: nat, b: nat)
    requires x < a && y < b
    ensures x * b + y < a * b
  {
    MulMono(b, x + 1, a);
    assert b * (x + 1) == x * b + b;
  }

  lemma {:induction false} ShiftInBits(data: nat, consumed: seq<bool>, bits: nat, chunk: nat)
    requires data == FromBits(consumed) && |consumed| + bits <= 64 && chunk < Pow(2, bits)
    ensures Or((data * Pow(2, bits)) % TWO64, chunk) == FromBits(consumed + ToBits(chunk, bits)) < TWO64
  {
    FromBitsBound(consumed);
    ShiftIn(data, |consumed|, bits, chunk);
    FromBitsAppend(consumed, ToBits(chunk, bits));
    FromToBits(chunk, bits);
    SmallMod(chunk, Pow(2, bits));
  }

  lemma {:induction false} TakeBits(
    data: nat, consumed: seq<bool>, buffer: byte, offset: nat, bits: nat, chunk: nat, rest: seq<bool>)
    requires offset < 8 && 0 < bits <= 8 - offset && chunk == Chunk(buffer, offset, bits)
    requires data == FromBits(consumed) && |consumed| + bits <= 64
    ensures ToBits(buffer, 8 - offset) + rest == ToBits(chunk, bits) + (ToBits(buffer, 8 - (offset + bits)) + rest)
    ensures Or((data * Pow(2, bits)) % TWO64, chunk) == FromBits(consumed + ToBits(chunk, bits)) < TWO64
  {
    ChunkBits(buffer, offset, bits);
    Assoc(ToBits(chunk, bits), ToBits(buffer, 8 - offset - bits), rest);
    ShiftInBits(data, consumed, bits, chunk);
  }

  class BitStreamReader {
    var buffer: byte
    var offset: nat
    /** The bytes that the wrapped reader still holds. */
    var input: seq<byte>

    ghost predicate Valid()
      reads this
    {
      offset <= 8
    }

    /** Every bit not read yet. */
    ghost function Remaining(): (s: seq<bool>)
      requires Valid()
      reads this
    {
      ToBits(buffer, 8 - offset) + BytesBits(input)
    }

    constructor (input: seq<byte>)
      ensures Valid() && Remaining() == BytesBits(input)
    {
      this.buffer, this.offset, this.input := 0, 8, input;
      new;
      assert ToBits(0, 0) + BytesBits(input) == BytesBits(input);
    }

    /** Reads nbits bits; running out of input is an error and leaves nothing behind. */
    method Read(nbits: nat) returns (r: Result<u64, StreamError>)
      requires Valid()
      modifies this
      ensures Valid()
      ensures nbits > 64 ==> r == Err(TooManyBits) && Remaining() == old(Remaining())
      ensures nbits <= 64 && nbits <= |old(Remaining())| ==>
        Remaining() == old(Remaining())[nbits..] && r == Ok(FromBits(old(Remaining())[..nbits]))
      ensures nbits <= 64 && |old(Remaining())| < nbits ==> r == Err(EndOfInput) && Remaining() == []
    {
      if nbits > 64 {
        return Err(TooManyBits);
      }
      var data: u64 := 0;
      var left := nbits;
      ghost var consumed: seq<bool> := [];
      while left > 0
        invariant 0 <= left <= nbits && Valid()
        invariant old(Remaining()) == consumed + Remaining()
        invariant |consumed| == nbits - left && data == FromBits(consumed)
      {
        if offset == 8 {
          if input == [] {
            return Err(EndOfInput);
          }
          Refill();
        }
        ghost var piece;
        data, left, piece := Take(data, left, consumed);
        Assoc(consumed, piece, Remaining());
        consumed := consumed + piece;
      }
      r := Ok(data);
    }

    method Refill()
      requires offset == 8 && input != []
      modifies this
      ensures offset == 0 && Remaining() == old(Remaining())
    {
      buffer, input, offset := input[0], input[1..], 0;
    }

    /** One round of the loop: what the current byte still offers. */
    method Take(data: u64, left: nat, ghost consumed: seq<bool>)
      returns (data': u64, left': nat, ghost piece: seq<bool>)
      requires offset < 8 && 0 < left && |consumed| + left <= 64 && data == FromBits(consumed)
      modifies this
      ensures Valid() && 0 < |piece| <= left && left' == left - |piece|
      ensures old(Remaining()) == piece + Remaining()
      ensures data' == FromBits(consumed + piece)
    {
      var bits := Min(8 - offset, left);
      var chunk := Chunk(buffer, offset, bits);
      piece := ToBits(chunk, bits);
      TakeBits(data, consumed, buffer, offset, bits, chunk, BytesBits(input));
      data' := Or((data * Pow(2, bits)) % TWO64, chunk);
      offset := offset + bits;
      left' := left - bits;
    }
  }

  // ---- writing, flushing, reading back ----

  lemma {:induction false} FlushPads(out: seq<byte>, buffer: byte, offset: nat)
    requires offset < 8 && Partial(buffer, offset)
    ensures offset > 0 ==> BytesBits(out + [buffer]) == Stream(out, buffer, offset) + Repeat(false, 8 - offset)
    ensures offset == 0 ==> BytesBits(out) == Stream(out, buffer, offset) + Repeat(false, 0)
  {
    if offset > 0 {
      BytesBitsAppend(out, buffer);
      ToBitsSplit(buffer, offset, 8 - offset);
      ToBitsOfMod(buffer, 8 - offset);
      ToBitsZero(8 - offset);
      Assoc(BytesBits(out), PartialBits(buffer, offset), Repeat(false, 8 - offset));
    }
  }

  /** Flushing pads the last byte with clear bits. */
  method CloseStream(writer: BitStreamWriter) returns (n: nat, ghost pad: nat)
    requires writer.Valid()
    modifies writer
    ensures writer.Valid() && pad < 8 && |writer.out| == |old(writer.out)| + n
    ensures BytesBits(writer.out) == old(writer.Contents()) + Repeat(false, pad)
  {
    FlushPads(writer.out, writer.buffer, writer.offset);
    pad := if writer.offset > 0 then 8 - writer.offset else 0;
    n := writer.Flush();
  }

  /** The bits of a list of writes, each a value with its width. */
  function Written(ws: seq<(u64, nat)>): (s: seq<bool>)
  {
    if ws == [] then [] else ToBits(ws[0].0, ws[0].1) + Written(ws[1..])
  }

  lemma {:induction false} WrittenStep(ws: seq<(u64, nat)>, i: nat, tail: seq<bool>)
    requires i < |ws|
    ensures Written(ws[i..]) == ToBits(ws[i].0, ws[i].1) + Written(ws[i + 1..])
    ensures var s := Written(ws[i..]) + tail; var n := ws[i].1;
      |s| >= n && FromBits(s[..n]) == ws[i].0 % Pow(2, n) && s[n..] == Written(ws[i + 1..]) + tail
  {
    assert ws[i..][1..] == ws[i + 1..] && ws[i..][0] == ws[i];
    var s, n := Written(ws[i..]) + tail, ws[i].1;
    assert s[..n] == ToBits(ws[i].0, n);
    FromToBits(ws[i].0, n);
  }

  /** Whatever widths are written, flushing and reading the same widths gives every value modulo two to its width. */
  method WriteThenRead(ws: seq<(u64, nat)>) returns (vs: seq<nat>)
    requires forall i :: 0 <= i < |ws| ==> ws[i].1 <= 64
    ensures |vs| == |ws| && forall i :: 0 <= i < |ws| ==> vs[i] == ws[i].0 % Pow(2, ws[i].1)
  {
    var writer := new BitStreamWriter([]);
    WriteAll(writer, ws);
    assert [] + Written(ws) == Written(ws);
    var _, pad := CloseStream(writer);
    var reader := new BitStreamReader(writer.out);
    vs := ReadAll(reader, ws, Repeat(false, pad));
  }

  method WriteAll(writer: BitStreamWriter, ws: seq<(u64, nat)>)
    requires writer.Valid() && forall i :: 0 <= i < |ws| ==> ws[i].1 <= 64
    modifies writer
    ensures writer.Valid() && writer.Contents() == old(writer.Contents()) + Written(ws)
  {
    assert ws[0..] == ws;
    for i := 0 to |ws|
      invariant writer.Valid()
      invariant writer.Contents() + Written(ws[i..]) == old(writer.Contents()) + Written(ws)
    {
      WrittenStep(ws, i, []);
      Assoc(writer.Contents(), ToBits(ws[i].0, ws[i].1), Written(ws[i + 1..]));
      var _ := writer.Write(ws[i].0, ws[i].1);
    }
    assert ws[|ws|..] == [] && writer.Contents() + [] == writer.Contents();
  }

  method ReadAll(reader: BitStreamReader, ws: seq<(u64, nat)>, ghost tail: seq<bool>) returns (vs: seq<nat>)
    requires reader.Valid() && reader.Remaining() == Written(ws) + tail
    requires forall i :: 0 <= i < |ws| ==> ws[i].1 <= 64
    modifies reader
    ensures |vs| == |ws| && forall i :: 0 <= i < |ws| ==> vs[i] == ws[i].0 % Pow(2, ws[i].1)
  {
    vs := [];
    assert ws[0..] == ws;
    for i := 0 to |ws|
      invariant reader.Valid() && reader.Remaining() == Written(ws[i..]) + tail
      invariant |vs| == i && forall j :: 0 <= j < i ==> vs[j] == ws[j].0 % Pow(2, ws[j].1)
    {
      WrittenStep(ws, i, tail);
      var r := reader.Read(ws[i].1);
      vs := vs + [r.value];
    }
  }
}
