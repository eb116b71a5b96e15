# Verified core of the Dogecoin Rust library

A Dafny model of the arithmetic, codec and protocol code that the rest of the library relies on,
with proofs that it computes what it is for. `dafny verify dfyconfig.toml` checks everything.

| Source | Modules | What is proved |
|---|---|---|
| `bitcoin/src/pow.rs` | `Uint256`, `Uint256Ops`, `Compact`, `Retarget`, `Damping` | Two 128-bit limbs refine numbers below 2^256 (shifts, long division, products with their overflow flags, decimal output); the compact target code is an order-preserving rounding with an exact set of fixed points; work and target invert each other; every run of Dogecoin retargets stays below the network limit without wrapping; a deviation from the target timespan moves the target by exactly the promised part of it |
| `bitcoin/src/bip158.rs` | `BitSeq`, `BitStream`, `Golomb`, `Gcs` | Bit streams and Golomb-Rice codes read back; the one-pass merge over a coded filter decides exactly set membership of the mapped values, and each value is reached by one interval of hashes |
| `base58/src/lib.rs` | `Base58` | The in-place radix conversions are inverse, the scratch buffer is always large enough, the checked form accepts exactly its own output |
| `units/src/amount.rs` | `Denominations`, `AmountParse`, `AmountErrors`, `AmountFormat`, `AmountNumeral`, `AmountFill`, `AmountRoundTrip`, `UnitWorth` | The parser accepts exactly the texts worth a 64-bit number of satoshis, and what a unit is worth follows from its name; formatted text has the promised width and spells the amount; for every option set it is decided whether the text reads back as the same amount, as another one, or not at all |
| `hashes/src/sha256.rs`, `hashes/src/util.rs`, `hashes/src/siphash24.rs` | `Blocks`, `Sha256`, `Fips180`, `SipHash` | Streaming engines do not depend on how the message is cut, padding and initial state are those of the standard, the const implementation agrees with the engine |
| `bitcoin/src/bip32.rs` | `Bip32`, `Bip32Data`, `Bip32Codec`, `Bip32Text` | Private and public derivation agree on every path, failures included; hardened steps need the secret key; the 78-byte and text forms round-trip, and every text starts with `xpub`, `xprv`, `tpub` or `tprv` |
| `bitcoin/src/bip152.rs` | `VarInt`, `Bip152` | Differential index lists round-trip; splitting a block for a compact block message loses nothing exactly when no index gap is truncated |

`Wrappers`, `Arith`, `Bits`, `Radix` and `Decimal` hold what these share.

Loops over mutable state are methods proved against functions on values, and the theorems are about
those functions. Objects whose methods update fields (`BitStreamWriter`, `BitStreamReader`,
`GcsFilterWriter`, `SmallVec`, the two `HashEngine`s) are classes; the Base58 scratch buffer, the
block buffer, the multiplication words and the decimal buffer are arrays changed in place.
Fixed-width arithmetic is written out with explicit moduli, bit operations with `Or` and powers of two.

## Where the code differs from what it says

- `overflowing_mul` documents an overflow flag, but adds the fourth word's partial product without
  shifting it and drops the overflow of the other three. `MulExactIff` states exactly when the product
  is right, `MulFlagRightIff` exactly when the flag is. The flag reports that the unshifted partial products
  overflow; that is never a false alarm, and it takes operands of at least 2^64 and 2^192, so every
  other overflow is missed.
  `MulFlagCounterexample` is 2^255 times 2.
- `min_transition_threshold_dogecoin` promises a drop of at most 25 % after Digishield. Target 5 may become
  3 although the threshold is 4. `DigishieldAboveMinIff`: the threshold holds for every timespan
  exactly when 4 divides the previous target or the network is regtest, whose timespan of one second
  leaves every target as it is.
- The compact form's mantissa "is signed but may not be negative". `SignBitIff`: a set sign bit gives the
  target zero except with exponents 1 and 2, where the bit is shifted out of place first.
- `Midstate::const_hash(_, false)` gives the engine's midstate for every message of a length exactly
  when that length modulo 64 is at most 55 (`ConstMidstateIff`). Its one caller, `hash_tag`, passes 64
  bytes, and is right (`HashTag`).
- The compact block's `idx` is cut to 16 bits. `FromBlock`: the receiver recovers the block exactly when
  no two neighbours in the prefill list are more than 2^16 apart, the first one's distance counted
  from the coinbase, which always comes first. `GapTooLarge`: the list [65537] is accepted for every
  block of more than 65537 transactions, and its gap is truncated.
- A private extended key's byte 45 is written as zero but not checked on reading (`PrivReencode`,
  `PrivTextIff`), and child indexes of 2^31 and above, which the type admits, do not survive
  (`ChildNumberRoundTrip`).
- Formatted amounts do not always read back, and some read back as another amount: five satoshis
  written with `{:0<3}` read as five hundred (`FilledWithZeros`), with `{:->2}` as minus five
  (`FilledWithMinus`), and in units below the satoshi zero written with decimals is refused
  (`ZeroWithDecimalsRefused`). `ReadBackIff` and `MisreadIff` give the exact conditions on filling,
  alignment, missing width, sign and decimals for every option set, `ShownReadBackIff`
  and `ShownMisreadIff`, `SignedShownReadBackIff` and `SignedShownMisreadIff` for text that shows its unit.
- A number of nano- or picocoins is not read the same with its point moved into coins: nine and twelve
  places are more decimals than a coin has, whatever the digits are (`PointMoved`).
- The denomination parser documents any combination of upper and lower case, but refuses mixed case:
  `Btc` is an example (`MixedCaseRefused`), and `SpellingsIff` gives all accepted spellings.

## Model

| member | source | states |
|---|---|---|
| `Uint256.LessIsNumeric` | bitcoin/src/pow.rs:630-633 | The order derived from the limbs is the order of the numbers they stand for |
| `Uint256.NumBits` | bitcoin/src/pow.rs:771-777 | The bit length of the 256-bit value, found from the leading zeros of one limb |
| `Uint256.OverflowingAdd` | bitcoin/src/pow.rs:856-873 | Sum and carry-out together are the exact sum of the two values, with the carry passed between limbs |
| `Uint256.OverflowingSub` | bitcoin/src/pow.rs:881-885 | Adding the complement and one is subtraction modulo 2^256; the flag is set exactly when it goes below zero |
| `Uint256.WrappingInc` | bitcoin/src/pow.rs:942-952 | One more, and zero after the largest value |
| `Uint256.WrappingShl` | bitcoin/src/pow.rs:962-980 | The limb shuffle multiplies by two to the amount masked to 8 bits, modulo 2^256, for every amount |
| `Uint256.WrappingShr` | bitcoin/src/pow.rs:989-1006 | The limb shuffle divides by two to the amount masked to 8 bits, for every amount |
| `Uint256Ops.MulU64` | bitcoin/src/pow.rs:788-804 | The product modulo 2^256, and the flag is set exactly when the true product does not fit |
| `Uint256Ops.MulInPlace` | bitcoin/src/pow.rs:788-804 | The word loop keeps value: words and carry together are the product of the multiplier and the old words |
| `Uint256Ops.OverflowingMul` | bitcoin/src/pow.rs:894-912 | For every operand, what the four partial products add up to, the unshifted fourth included, and what the flag reports |
| `Uint256Ops.MulBelow192` | bitcoin/src/pow.rs:894-912 | For a right operand below 2^192 the result is the product modulo 2^256 and the flag is never set |
| `Uint256Ops.MulFlagRightIff` | bitcoin/src/pow.rs:894-912 | Over all operands: a set flag means a true overflow, so the flag is right exactly when the product fits or the unshifted partial products overflow (which is what the flag reports), and that takes operands of at least 2^64 and 2^192 |
| `Uint256Ops.MulFlagCounterexample` | bitcoin/src/pow.rs:887-893 | 2^255 times 2 overflows with the flag clear |
| `Uint256Ops.MulExactIff` | bitcoin/src/pow.rs:904-909 | Over all operands the result is the true product modulo 2^256 exactly when the fourth word's product vanishes modulo 2^256 |
| `Uint256Ops.DivRem` | bitcoin/src/pow.rs:816-848 | Shift-subtract division on limbs terminates with the quotient and the remainder of the values, for every dividend and nonzero divisor |
| `Uint256Ops.LongDivision` | bitcoin/src/pow.rs:830-845 | The bit loop keeps dividend = quotient so far * divisor + rest, with the rest below the shifted divisor |
| `Uint256Ops.Inverse` | bitcoin/src/pow.rs:722-739 | The limb code computes floor(2^256 / (x + 1)) for x >= 2 and the largest value for 0 and 1 |
| `Uint256Ops.FmtDecimal` | bitcoin/src/pow.rs:1009-1027 | The digits produced backwards into 78 characters are the decimal text of the value; the buffer never runs out |
| `Compact.FromCompact` | bitcoin/src/pow.rs:189-211 | Limb-level decoding computes the target the 32 bits stand for |
| `Compact.ToCompactLossy` | bitcoin/src/pow.rs:216-231 | Limb-level encoding computes the compact form of the value |
| `Compact.CompactOrdered` | bitcoin/src/pow.rs:216-231 | Encoding preserves order over all targets |
| `Compact.DecodeEncode` | bitcoin/src/pow.rs:189-231 | Decoding an encoded target t gives t' <= t with (t - t') * 2^15 <= t', and t' encodes to the same 32 bits |
| `Compact.SmallTargetsExact` | bitcoin/src/pow.rs:189-231 | Targets below 2^23 survive unchanged |
| `Compact.CompactFits` | bitcoin/src/pow.rs:216-231 | Every 256-bit target encodes below 0x22000000 |
| `Compact.EncodeDecodeIff` | bitcoin/src/pow.rs:189-231 | Encoding undoes decoding exactly on the canonical compact values |
| `Compact.TargetValue` | bitcoin/src/pow.rs:189-211 | The target of every compact value: the mantissa divided, rounded down, or multiplied by 256 to the distance of the exponent from 3, within 256 bits; exact for exponents up to 32 |
| `Compact.SignBitIff` | bitcoin/src/pow.rs:205-210 | A set sign bit gives zero exactly when the exponent is neither 1 nor 2 |
| `Retarget.ToWork` | bitcoin/src/pow.rs:249 | Work is the inverse of the target |
| `Retarget.ToTarget` | bitcoin/src/pow.rs:101 | Target is the inverse of the work |
| `Retarget.InverseAntitone` | bitcoin/src/pow.rs:722-739 | A larger target never means more work, over the whole range |
| `Retarget.WorkRoundTrip` | bitcoin/src/pow.rs:722-739 | Work and back is the identity on targets in [1, 2^128) |
| `Retarget.WorkRoundTripShrinksIff` | bitcoin/src/pow.rs:722-739 | The round trip never raises a target exactly on [1, 2^255) and at the largest value |
| `Retarget.MinTransitionThresholdDogecoin` | bitcoin/src/pow.rs:333-344 | The limb shifts compute the lower threshold for the height |
| `Retarget.MaxTransitionThresholdDogecoin` | bitcoin/src/pow.rs:368-375 | The limb shifts compute the upper threshold, capped by the largest attainable target |
| `Retarget.FromNextWorkRequiredDogecoin` | bitcoin/src/pow.rs:490-530 | For every i64 timespan the limb-level adjustment computes the next compact target of the number-level rule, the wrap of the 64-bit difference included |
| `Retarget.Rescale` | bitcoin/src/pow.rs:524-525 | Multiply modulo 2^256, then divide |
| `Retarget.NetworksSound` | bitcoin/src/dogecoin/params.rs:83-141 | Four target timespans times the network limit fit in 256 bits on all three networks |
| `Retarget.RunAttainable` | bitcoin/src/pow.rs:490-530 | Along every run of adjustments the decoded target stays at most the network limit |
| `Retarget.RunSafe` | bitcoin/src/pow.rs:490-530 | In every state of every run, with any heights and timespans, the decoded target is at most the limit and the next adjustment wraps in no 256-bit step |
| `Retarget.NextMonotone` | bitcoin/src/pow.rs:490-530 | For fixed bits and height a longer timespan never gives a smaller compact target |
| `Retarget.NextBelowMax` | bitcoin/src/pow.rs:523-529 | The next target never decodes above the upper threshold of the previous one |
| `Retarget.NextAboveMin` | bitcoin/src/pow.rs:333-344 | Before Digishield the next compact target is never below that of the lower threshold |
| `Retarget.DigishieldAboveMinIff` | bitcoin/src/pow.rs:322-344 | After Digishield the lower threshold holds for all timespans exactly when 4 divides the previous target or the network is regtest |
| `Retarget.DigishieldBreaksMin` | bitcoin/src/pow.rs:322-344 | Every previous target that 4 does not divide falls below the threshold at timespan -60 |
| `Retarget.ThresholdCounterexample` | bitcoin/src/pow.rs:322-344 | On mainnet, target 5 may go below its threshold of 4 |
| `Damping.MinuteDampedIff` | bitcoin/src/pow.rs:504-510 | After Digishield the counted timespan is 60 + k seconds exactly when an eighth of the deviation, rounded toward zero and kept within -15 and 30, is k |
| `Damping.SecondDamped` | bitcoin/src/pow.rs:504-510 | After Digishield every timespan counts as one second on regtest |
| `Damping.HoursClampedIff` | bitcoin/src/pow.rs:511-520 | Before Digishield a timespan counts in full exactly between a sixteenth, an eighth or a quarter of four hours and sixteen hours |
| `Damping.DigishieldStep` | bitcoin/src/pow.rs:502-529 | A deviation that counts as k seconds multiplies an attainable target by (60 + k) / 60, rounded down, up to the limit |
| `Damping.SmallDeviation` | bitcoin/src/pow.rs:502-529 | Less than eight seconds off the minute change neither target nor canonical bits |
| `Damping.HoursStep` | bitcoin/src/pow.rs:511-529 | Before Digishield an attainable target is multiplied by the counted timespan over four hours, rounded down, up to the limit |
| `Damping.RaisesAtMost` | bitcoin/src/pow.rs:346-375 | One adjustment raises the decoded target to at most three halves after Digishield and four times before |
| `Damping.MantissaStep` | bitcoin/src/pow.rs:490-530 | While mantissa and exponent keep their ranges, an adjustment by k sixtieths scales the mantissa and rounds down |
| `Damping.RecordedAdjustment` | bitcoin/src/dogecoin/mod.rs:570-577 | Block 1531882 of the main network |
| `Damping.NetworkConstants` | bitcoin/src/dogecoin/params.rs:83-141 | The limits are the targets of 0x1e0fffff and 0x207fffff, adjustments span four hours and from the activation height a minute, on regtest a second |
| `BitStream.BitStreamWriter.Write` | bitcoin/src/bip158.rs:529-547 | Appends exactly the low bits of the value, most significant first, at any offset; more than 64 bits is an error and changes nothing; the result counts flushed bytes |
| `BitStream.BitStreamWriter.Flush` | bitcoin/src/bip158.rs:550-559 | A started byte is written out, padded with zeros |
| `BitStream.BitStreamReader.Read` | bitcoin/src/bip158.rs:492-514 | Removes that many bits and returns the number they spell; too few bits is an error |
| `BitStream.WriteThenRead` | bitcoin/src/bip158.rs:487-559 | Any sequence of writes of widths up to 64, flushed and read back with the same widths, gives each value modulo 2^width |
| `Golomb.RiceRoundTrip` | bitcoin/src/bip158.rs:429-460 | Decoding the code of any 64-bit number in front of any bits returns the number and those bits |
| `Golomb.RiceEncode` | bitcoin/src/bip158.rs:429-447 | Appends the Golomb-Rice code at any offset and counts the bytes written |
| `Golomb.RiceDecodeFrom` | bitcoin/src/bip158.rs:450-460 | Reads one code from any offset, with the same errors as the decoder on bit strings |
| `Gcs.RangeIff` | bitcoin/src/bip158.rs:366-367 | A hash is mapped to r exactly when r is hash * nm / 2^64 rounded down |
| `Gcs.RangeMonotone` | bitcoin/src/bip158.rs:367 | The mapping preserves order |
| `Gcs.RangePreimage` | bitcoin/src/bip158.rs:367 | Every r below nm is reached, by exactly the hashes from ceil(r * 2^64 / nm) up to ceil((r + 1) * 2^64 / nm) |
| `Gcs.PlaceIff` | bitcoin/src/bip158.rs:391-398 | An element of a filter of n falls at its hash scaled to n * m, when that fits in 64 bits |
| `Gcs.GcsFilterWriter.AddElement` | bitcoin/src/bip158.rs:384-388 | Adds non-empty elements to a set |
| `Gcs.GcsFilterWriter.Finish` | bitcoin/src/bip158.rs:391-414 | Appends the element count and the Golomb-Rice coded differences of the sorted mapped elements, padded to bytes, and reports the size |
| `Gcs.MatchAnyIn` | bitcoin/src/bip158.rs:279-319 | The nested loops over the stream compute the recursive merge, errors included, on arbitrary bytes |
| `Gcs.MatchAllIn` | bitcoin/src/bip158.rs:322-363 | The same for the other query |
| `Gcs.AnyMergeIsCommon` | bitcoin/src/bip158.rs:296-318 | The merge of two ascending lists finds exactly whether they have a common number |
| `Gcs.DedupAscending` | bitcoin/src/bip158.rs:334-335 | After sorting and removing duplicates the queries ascend strictly |
| `Gcs.AllMergeIsContained` | bitcoin/src/bip158.rs:340-362 | The merge of two ascending lists finds exactly whether all queries occur |
| `Gcs.AnyFromCorrect` | bitcoin/src/bip158.rs:296-318 | On the coded differences of any ascending list the stream merge is the list merge |
| `Gcs.AllFromCorrect` | bitcoin/src/bip158.rs:340-362 | The same for the other query |
| `Gcs.MatchAnyCorrect` | bitcoin/src/bip158.rs:279-414 | On the bytes of a finished filter, the answer is true exactly when the query is empty or some query maps to the place of some element |
| `Gcs.MatchAllCorrect` | bitcoin/src/bip158.rs:322-414 | True exactly when the query is empty or every query maps to the place of some element |
| `Gcs.NoFalseNegatives` | bitcoin/src/bip158.rs:279-414 | An element that was put in is always found |
| `Gcs.NothingToMatch` | bitcoin/src/bip158.rs:285-294 | Bytes without a readable count and filters of no elements match exactly the empty query, without an error |
| `VarInt.DecodeEncode` | bitcoin/src/consensus/encode.rs:468-525 | A CompactSize number in front of any bytes reads back, leaving those bytes |
| `VarInt.EncodeDecode` | bitcoin/src/consensus/encode.rs:495-525 | Only the minimal encoding is accepted |
| `VarInt.CompactSizeIsPrefix` | bitcoin/src/consensus/encode.rs:468-525 | CompactSize is a prefix code: every 64-bit number reads back in front of any bytes, and whatever reads is the code of the result |
| `VarInt.EncodeForm` | bitcoin/src/consensus/encode.rs:468-493 | One byte below 253, otherwise 253, 254 or 255 and the number in two, four or eight bytes, least significant first |
| `Base58.ConvertBack` | base58/src/lib.rs:64-185 | Changing the base and changing it back is the identity, leading zeros included, for any two bases |
| `Base58.DecodeEncode` | base58/src/lib.rs:64-185 | Decoding undoes encoding for every byte string |
| `Base58.EncodeDecode` | base58/src/lib.rs:64-185 | Encoding undoes decoding for every string over the alphabet |
| `Base58.AlphabetIff` | base58/src/lib.rs:25-53 | The alphabet is the ASCII digits and letters without 0, O, I and l, and digits and characters correspond |
| `Base58.AlphabetOrdered` | base58/src/lib.rs:25 | The characters ascend |
| `Base58.ScratchFits` | base58/src/lib.rs:65-67 | 58^n < 256^(1 + 11n/15) for every n |
| `Base58.NoCarry` | base58/src/lib.rs:72-85 | With that buffer the carry left after each character is zero, so the assertion never fires |
| `Base58.MulAdd` | base58/src/lib.rs:78-84 | The inner loop multiplies the buffer by 58 and adds the digit, with what does not fit in the carry |
| `Base58.Decode` | base58/src/lib.rs:64-93 | The in-place loops compute the decoding, or report the first character outside the alphabet |
| `Base58.SmallVec.Push` | base58/src/lib.rs:198-205 | Appends, on the stack part or past its 100 elements on the heap |
| `Base58.ScaleUp` | base58/src/lib.rs:164-168 | Multiplies the little-endian digits by 256 and adds the byte, with the rest in the carry |
| `Base58.BuildDigits` | base58/src/lib.rs:151-174 | The digits after the loop are those of the data, without a zero on top, and the leading zero bytes are counted |
| `Base58.Encode` | base58/src/lib.rs:146-185 | The loops compute the encoding |
| `Base58.CheckRoundTrip` | base58/src/lib.rs:95-126 | The checked form reads back for every 32-byte hash function |
| `Base58.CheckAccepts` | base58/src/lib.rs:95-126 | The checked decoder returns data exactly on the one text that the encoder makes of it |
| `Base58.EncodeCheck` | base58/src/lib.rs:123-128 | Appends the first four hash bytes and encodes |
| `Base58.DecodeCheck` | base58/src/lib.rs:95-115 | Decodes, compares the checksum and reports each of the three errors |
| `Denominations.NameRoundTrip` | units/src/amount.rs:84-146 | Every unit reads back from its own name |
| `Denominations.SpellingsIff` | units/src/amount.rs:99-146 | For every text: it parses as a unit exactly when it is the unit's lower-case prefix and a name in one case, the plural of SAT after a prefix taking a small s |
| `Denominations.MixedCaseRefused` | units/src/amount.rs:128-134 | `Btc` is refused |
| `Denominations.ConfusingIff` | units/src/amount.rs:116-145 | The texts refused as possibly confusing, by their capital M or P and the name after it |
| `Denominations.UnitAfterwards` | units/src/amount.rs:99-146 | Characters after a unit's name leave it readable only where they make a plural |
| `AmountParse.IsTooPrecise` | units/src/amount.rs:514-531 | Nothing is found exactly when the whole part is longer than the precision, ends in that many zeros, and the decimals are zeros |
| `AmountParse.PrecisionLostAt` | units/src/amount.rs:514-529 | The position reported is that of the last nonzero digit below the satoshi before the point, or else the first nonzero one after it, or zero for a text too short |
| `AmountParse.WidthLeast` | units/src/amount.rs:514-600 | Positions and lengths count UTF-8 bytes: each character the least number that carries it |
| `AmountParse.ScanNumeral` | units/src/amount.rs:584-623 | The checked digit loop accepts exactly the numerals with few enough decimals whose digits fit in 64 bits, with their value and decimal count |
| `AmountParse.AcceptedIff` | units/src/amount.rs:535-635 | For every text, unit, sign and number: the parser returns them exactly when the text has at most 50 characters, that sign, and is worth that 64-bit number of satoshis |
| `AmountParse.ScanLoop` | units/src/amount.rs:584-634 | The two loops compute the scan and the decimal shift with all their errors |
| `AmountParse.ParseSignedToSatoshi` | units/src/amount.rs:535-635 | The whole parser computes its specification, with lengths and error positions in UTF-8 bytes |
| `AmountErrors.OutOfRangeTells` | units/src/amount.rs:647-658 | A range error names the type asked for and the side on which the amount lies, both for unsigned and signed amounts |
| `AmountErrors.ErrorsTrue` | units/src/amount.rs:535-635 | Empty text, a bare minus and more than 50 bytes are reported exactly for those, and an invalid character is no digit and stands at the byte reported |
| `AmountErrors.ErrorsKept` | units/src/amount.rs:647-658 | The conversion to amount errors keeps kind, position, length and character |
| `AmountParse.SplitAtSpace` | units/src/amount.rs:660-670 | The first space separates the amount from the unit, whatever counts as a letter |
| `AmountParse.SplitAtLetter` | units/src/amount.rs:660-670 | Without a space the first letter starts the unit, for every notion of letter that agrees with A to Z and a to z on ASCII |
| `AmountParse.NoUnit` | units/src/amount.rs:660-670 | A missing unit is reported exactly for text without a space and without a letter |
| `AmountFormat.Strip` | units/src/amount.rs:757-766 | Stripping trailing zeros keeps the fraction's value and leaves no zero to strip |
| `AmountFormat.StripZeros` | units/src/amount.rs:757-766 | The loop strips, and never counts below zero |
| `AmountFormat.DecWidthLoop` | units/src/amount.rs:708-718 | Counts the characters the number prints as |
| `AmountFormat.WrittenLength` | units/src/amount.rs:752-834 | For every option set the text has the requested width, or the computed width of the number if larger |
| `AmountFormat.PaddedText` | units/src/amount.rs:791-834 | For every option set, what is missing to the width goes around the unpadded text: left by default, right, or split with the odd character on the right; zeros go between the sign and the rest, whatever the alignment |
| `AmountFormat.PlusText` | units/src/amount.rs:807-811 | The plus option puts a sign in front of the unpadded text of amounts that are not negative |
| `AmountFormat.FmtSatoshiIn` | units/src/amount.rs:728-835 | The writer produces the specified text for every option set |
| `AmountFill.SeenIff` | units/src/amount.rs:535-635 | For a number with any filling on both sides and any sign: the parser returns exactly the amount and sign computed from filling character, counts, sign and digits, if it fits |
| `AmountFill.RecoversIff` | units/src/amount.rs:535-635 | That is the number's own amount and sign exactly in the listed cases: nothing filled in, zeros that add no value, one dot, or a bare signed zero in a unit below the satoshi |
| `AmountFill.MisreadsIff` | units/src/amount.rs:535-635 | It is something else exactly in the listed cases: digits that join the number, a dot before it, or a minus |
| `AmountRoundTrip.FormattedLayout` | units/src/amount.rs:728-835 | The text of every option set is filling, sign, number, unit and filling as laid out by width, alignment and zero padding |
| `AmountRoundTrip.ReadBackIff` | units/src/amount.rs:535-835 | For every amount, sign, unit and option set: the text parses to that amount and sign exactly when it has at most 50 characters and its layout recovers the amount |
| `AmountRoundTrip.MisreadIff` | units/src/amount.rs:535-835 | For every amount, sign, unit and option set: the text parses to anything else exactly when it has at most 50 characters and its layout misreads |
| `AmountRoundTrip.FilledWithZeros` | units/src/amount.rs:791-834 | Five satoshis filled with zeros on the right to width 3 parse as five hundred |
| `AmountRoundTrip.FilledWithMinus` | units/src/amount.rs:791-834 | Five satoshis filled with a minus on the left to width 2 parse as minus five |
| `AmountRoundTrip.ShownReadBackIff` | units/src/amount.rs:660-931 | For every unsigned amount, unit and option set with the unit shown: the text reads back exactly when filling leaves the unit readable and the number before it recovers the amount |
| `AmountRoundTrip.ShownMisreadIff` | units/src/amount.rs:660-931 | It reads as another amount exactly when the number before the unit misreads otherwise than by a minus |
| `AmountRoundTrip.SignedShownReadBackIff` | units/src/amount.rs:1274-1294 | The exact condition for every signed amount, unit and option set; zero may also come back from a minus |
| `AmountRoundTrip.SignedShownMisreadIff` | units/src/amount.rs:1274-1294 | It reads as another amount exactly when the unit is readable and the number before it misreads as something in the i64 range, except zero read from a minus |
| `AmountRoundTrip.AmountRoundTrips` | units/src/amount.rs:911-1013 | Every u64 amount survives its default text in every unit, bare and with the unit's name |
| `AmountRoundTrip.SignedRoundTrips` | units/src/amount.rs:1274-1375 | Every i64 amount does, the least one included |
| `AmountRoundTrip.DisplayRoundTrip` | units/src/amount.rs:1077-1089 | The exact condition for `Amount`'s Display under every option set; it holds for every amount without a width, without a plus sign and with at most eight decimals asked for |
| `AmountRoundTrip.DynamicRoundTrip` | units/src/amount.rs:1203-1219 | The exact condition for the display of a signed amount that chooses the unit by size; it holds for every amount without width, plus sign and precision |
| `AmountRoundTrip.DynamicAmountRoundTrip` | units/src/amount.rs:1203-1219 | The same for unsigned amounts |
| `AmountRoundTrip.ZeroWithDecimalsRefused` | units/src/amount.rs:561-576 | Without a width, zero with decimals in a unit below the satoshi is refused |
| `UnitWorth.WorthIff` | units/src/amount.rs:69-82 | For every text and unit: its value in satoshis is v exactly when the fraction it spells times 10^b / 10^e is v, with b and e read from the unit's name (BTC 8, bits 2; c 2, m 3, u 6, n 9, p 12), and it has no digits below the satoshi |
| `UnitWorth.ParsedIff` | units/src/amount.rs:535-635 | The parser returns sign and number exactly for such texts of at most 50 characters |
| `UnitWorth.OneUnit` | units/src/amount.rs:69-82 | "1" of every unit of at least a satoshi parses as 10^(b - e) satoshis, and 10^(e - b) of every other unit as one |
| `UnitWorth.PointMoved` | units/src/amount.rs:69-82 | A number of cBTC, mBTC or uBTC is worth what the number with its point moved 2, 3 or 6 places is worth in BTC; nBTC and pBTC moved so are never read as BTC |
| `UnitWorth.WrittenIs` | units/src/amount.rs:736-779 | For every amount, unit and option set the digits written are the amount by the same measure, with the decimals asked for, more only down to the last nonzero one, and no leading zero unless padding asks for it |
| `UnitWorth.DisplayedDecimals` | units/src/amount.rs:1077-1089 | Without a precision, whole coins are displayed without decimals and other amounts with eight |
| `UnitWorth.DynamicUnitIs` | units/src/amount.rs:1203-1219 | The unit chosen by size is the coin from what "1 BTC" parses as, and the satoshi below |
| `Blocks.SplitInvariant` | hashes/src/util.rs:72-86 | For any block function, however a message is cut into inputs the state is the same |
| `Sha256.HashEngine.Input` | hashes/src/util.rs:72-86 | The buffering loop absorbs the input: state, length and pending bytes are those of the concatenation |
| `Sha256.PadZerosLeast` | hashes/src/sha256.rs:23-40 | The number of zero bytes is the least that leaves room for the length, as section 5.1.1 of FIPS 180-4 asks |
| `Fips180.PaddedBits` | hashes/src/sha256.rs:23-40 | Section 5.1.1 of FIPS 180-4 in bits: the message, a set bit, the least number of clear bits that leaves 64 in the block, and the number of bits of the message |
| `Fips180.InitialState` | hashes/src/sha256.rs:66-69 | Section 5.3.3: the first 32 bits after the point of the square roots of the first eight primes |
| `Sha256.FromEngine` | hashes/src/sha256.rs:23-40 | The digest is the state after absorbing the padding of the engine's length |
| `Sha256.FinishedIsHash` | hashes/src/sha256.rs:23-40 | For any pieces of a message, feeding and finishing gives the fold over the blocks of the padded message |
| `Sha256.ResumeFromMidstate` | hashes/src/sha256.rs:433-442 | Stopping at a block boundary and resuming from the state bytes changes nothing |
| `Sha256.ChunkBlock` | hashes/src/sha256.rs:297-322 | Each block the const implementation builds is that slice of the padded message |
| `Sha256.ConstHash` | hashes/src/sha256.rs:278-422 | With finalization it is the hash for every length; without, the state before the last padded block |
| `Sha256.ConstMidstateIff` | hashes/src/sha256.rs:278-296 | Without finalization it agrees with the engine's midstate for all messages of a length and all compression functions exactly when the length modulo 64 is at most 55 |
| `Sha256.HashTag` | hashes/src/sha256.rs:166-175 | The tagged-hash midstate is the state of an engine fed with the tag's hash twice, for every tag |
| `SipHash.U8to64Le` | hashes/src/siphash24.rs:229-247 | Loads exactly the given bytes as a little-endian number, all loads in range |
| `SipHash.HashEngine.Input` | hashes/src/siphash24.rs:144-181 | Tail, word loop and new tail absorb exactly the input's words, whatever was buffered |
| `SipHash.HashEngine.WordLoop` | hashes/src/siphash24.rs:163-175 | The loop bound that ignores the offset stops after exactly the whole words |
| `SipHash.LastWord` | hashes/src/siphash24.rs:206 | The last word is the pending bytes, zeros and the low length byte, little-endian |
| `SipHash.FromEngineToU64` | hashes/src/siphash24.rs:203-216 | The hash is the finalization of the state after absorbing the padding |
| `SipHash.HashOfPieces` | hashes/src/siphash24.rs:144-216 | For any pieces of a message this is the fold over the words of the padded message |
| `Bip32.ChildNumberRoundTrip` | bitcoin/src/bip32.rs:191-208 | Every u32 survives; a child number does exactly when its index is below 2^31 |
| `Bip32.StepCommutes` | bitcoin/src/bip32.rs:619-786 | One normal step: deriving publicly from the public key is the public key of deriving privately, failures included |
| `Bip32.DerivationCommutes` | bitcoin/src/bip32.rs:606-786 | The same along every path of normal children |
| `Bip32.HardenedFails` | bitcoin/src/bip32.rs:735-756 | A path with a hardened step never derives publicly |
| `Bip32.HardenedReported` | bitcoin/src/bip32.rs:735-756 | The first hardened step after a derivable prefix is reported as such |
| `Bip32.DerivePrivConcat` | bitcoin/src/bip32.rs:606-616 | Private derivation composes over path concatenation |
| `Bip32.DerivePubConcat` | bitcoin/src/bip32.rs:735-745 | So does public derivation |
| `Bip32.DerivePrivPath` | bitcoin/src/bip32.rs:606-616 | The loop computes the private derivation |
| `Bip32.DerivePubPath` | bitcoin/src/bip32.rs:735-745 | The loop computes the public derivation |
| `Bip32Data.HardenedData` | bitcoin/src/bip32.rs:632-638 | A hardened step hashes 37 bytes: zero, the secret key, and 2^31 plus the index, big-endian |
| `Bip32Data.NormalData` | bitcoin/src/bip32.rs:626-638 | A normal step hashes 37 bytes: the serialized public key and the index |
| `Bip32Data.StepRecords` | bitcoin/src/bip32.rs:624-653 | Every step is keyed with the parent's chain code and records network, depth, fingerprint and child number |
| `Bip32Data.PublicSide` | bitcoin/src/bip32.rs:714-723 | The public side of a key keeps its place in the tree and has its public key |
| `Bip32Data.HardenedNeedsSecret` | bitcoin/src/bip32.rs:632-636 | On some lawful curve two parents with the same extended public key have the same normal and different hardened children |
| `Bip32Codec.PrivRoundTrip` | bitcoin/src/bip32.rs:657-699 | A written private key reads back as itself exactly when its child index is below 2^31; otherwise only the child number changes |
| `Bip32Codec.PrivReencode` | bitcoin/src/bip32.rs:657-699 | A key read from 78 bytes is written back as those bytes with byte 45 zeroed, so unchanged exactly when it was zero |
| `Bip32Codec.PubRoundTrip` | bitcoin/src/bip32.rs:789-831 | The same for public keys |
| `Bip32Codec.PubReencode` | bitcoin/src/bip32.rs:789-831 | A public key read from 78 bytes is written back as those bytes |
| `Bip32Codec.DecodeErrors` | bitcoin/src/bip32.rs:657-831 | Bytes are refused for their number, then for a version other than the two of the key's kind, then for their key material, and the error says which |
| `Bip32Codec.PubTextIff` | bitcoin/src/bip32.rs:865-885 | A text parses to a key with a 31-bit child index exactly when it is the text displayed for that key |
| `Bip32Codec.PrivTextIff` | bitcoin/src/bip32.rs:844-863 | A text parses to a private key with a 31-bit child index exactly when its checked payload is the key's 78 bytes up to byte 45; the displayed text does |
| `Bip32Text.PubTextStarts` | bitcoin/src/bip32.rs:865-872 | The text of every public key has 111 characters and starts with xpub on the main network, tpub on the others |
| `Bip32Text.PrivTextStarts` | bitcoin/src/bip32.rs:844-851 | The same for private keys with xprv and tprv |
| `Bip152.EncodeSucceedsIff` | bitcoin/src/bip152.rs:260-275 | Encoding does not panic exactly on strictly increasing indexes below u64::MAX |
| `Bip152.DecodeEncode` | bitcoin/src/bip152.rs:265-316 | For every prefix code of numbers, decoding undoes encoding, leaving the bytes after it |
| `Bip152.EncodeDecode` | bitcoin/src/bip152.rs:265-316 | For every prefix code of numbers, whatever decodes is the encoding of the result |
| `Bip152.RequestRoundTripIff` | bitcoin/src/bip152.rs:265-316 | A request comes back exactly when it is within the size limit |
| `Bip152.DecodedIncreasing` | bitcoin/src/bip152.rs:279-316 | Every accepted request has strictly increasing indexes |
| `Bip152.WriteIndexes` | bitcoin/src/bip152.rs:269-273 | The loop computes the differential encoding |
| `Bip152.ReadIndexes` | bitcoin/src/bip152.rs:299-312 | The loop computes the differential decoding with its overflow errors |
| `Bip152.FromBlock` | bitcoin/src/bip152.rs:177-245 | Succeeds exactly on increasing in-range prefill lists, and then a receiver rebuilds every position in order, whole or as its short id, exactly when no gap is truncated |
| `Bip152.Split` | bitcoin/src/bip152.rs:193-234 | The loop matches the whole request exactly when it is valid, and partitions the block |
| `Bip152.GapTooLarge` | bitcoin/src/bip152.rs:177-209 | Prefilling index 65537 alone is valid for every block of more than 65537 transactions, and its gap is truncated |
| `Bip152.BrokenDiffers` | bitcoin/src/bip152.rs:205-209 | A truncated gap puts a transaction where a short id belongs |
| `Bip152.VersionOneBlind` | bitcoin/src/bip152.rs:205-232 | Version 1 shows the receiver the same of blocks that differ in witnesses only, and sends transactions stripped |
| `Bip152.VersionTwoCommits` | bitcoin/src/bip152.rs:205-232 | Version 2 shows the same of two blocks exactly when the whole transactions and the wtxid-based short ids agree |

## Left out

- Hash round functions and CPU-specific block functions: compression is an arbitrary function.
- SHA-1, RIPEMD-160, SHA-512, SHA-384: the same buffering and padding as SHA-256.
- secp256k1: keys are arbitrary types, with the law that tweaking commutes with key generation (`Curve.Lawful`) and fixed-length injective encodings (`Bip32Codec.Coded`). HMAC and fingerprints are arbitrary functions.
- Bip32Codec.PrivRoundTrip, Bip32Codec.PubRoundTrip: the 78 bytes are built as a sequence, not by copying into an array.
- AmountFormat.FmtSatoshiIn: widths and precisions are unbounded, so an overflow of `usize` for absurdly large options is not modelled. Writing to the formatter cannot fail.
- Which non-ASCII characters are letters: a parameter of the text parsers.
- Gcs.GcsFilterWriter.Finish, Gcs.MatchAnyIn: wrapped readers and writers are byte sequences, so I/O errors other than the end of input do not occur. The remainder width is below 64, as the shifts in the source require. The element set is a duplicate-free sequence of fewer than 2^64 elements.
- Retarget.FromNextWorkRequiredDogecoin: header-based wrappers and Bitcoin's own retargeting are not modelled.
- Bip152.FromBlock: transactions, witness stripping and short ids are arbitrary functions of a transaction. A prefill list longer than the block panics, as the capacity computation does.
- Bip152.RequestRoundTripIff: the in-memory size of a transaction, which the size limit uses, is a parameter. Overflow in the encoder is a panic, as its documentation says.
- Sha256.HashEngine.Input, SipHash.HashEngine.Input: the byte counter is unbounded; the source's counts in `usize`.
- Uint256Ops.FmtDecimal: the formatter's own padding of the digits is not modelled.
- Builds with overflow checks: where the source relies on plain `+`, `*` or `<<` (the filter range n * m, the running filter value), the model wraps as a release build does.
- Floating point: `to_f64`, `difficulty_float`, `log2`, float amounts.
- Serde, hexadecimal and error display, macros and network name tables carry data without deciding anything; merkle and witness checks, AuxPoW, scrypt and message signing rest on code outside these files; `io`, `FeeRate`, `Weight` and `ArrayVec` are single expressions around library calls.
