# Verified models of the protocol, codec and selection code

This Dafny project models the parts of the repository where a mistake would go unnoticed, and proves what they compute.

**QR codes.** `qrcodegen` writes symbols and `quirc` reads them; they are independent implementations and must undo each
other. `QrSymbol` states the result of the whole chain: any list of numeric, alphanumeric and byte segments that fits a
version comes back character by character after version selection, padding, Reed-Solomon completion, interleaving,
drawing, masking, reading, error correction and payload decoding, for every noise that damages at most half as many
bytes of each block as it has parity bytes. Underneath, `QuircEcc` proves the Berlekamp-Massey and Forney decoder against the theory of linear recurrences
(`Gf256` to `ReedSolomon`), `QrEcc` and `QrBlocks` the encoder and the block structure, `QrSegments`, `QrEncode` and
`QuircPayload` the bit stream, `QrStandard` that stream in the standard's numerals, and `QrPlacement` the zigzag scan and
the masks. `FloodFill` is the span flood fill with
its bounded stack.

**Monocypher.** `Fe25519` and `FeBytes` are the field arithmetic modulo 2^255 - 19 in ten signed limbs; `MultiWord`, `ModL`
and `ScalarInverse` the Barrett and Montgomery arithmetic modulo the group order; `SlidingWindow` the signed recoding and
the merged ladder of signature verification, in any commutative group; `Poly1305`, `Blake2b` and `ChaCha` the streaming
primitives; `Aead` the rekeying message stream; `Argon2` the reference indexing and the filling of the memory, block by
block, against the recurrence that defines its blocks. Words are natural numbers with their widths written out. The
BLAKE2b mixing, the ChaCha rounds, the rounds of the Argon2 compression and the curve's group law are parameters.

**First-party logic.** `RpcFrames` and `RpcChannel` are the calls multiplexed over one socket, as atomic steps of caller
threads and the I/O thread; a stream of responses is called sane if no frame of 2^31 bytes or more has bytes behind it.
`AutoSelector` filters, orders, caps and re-ranks the member pool.

Code that updates arrays or fields in place is written as methods and classes over arrays and fields, and each method is
tied to a specification function or to the mathematical value; the theorems are about those. Long C functions are cut
into methods along their loops. `|` on words without common bits is modelled as an addition whose operands are proved
to have none (`ByteWords.Join`).

Where code and comments disagree the model follows the code:

- The comment on FE_CARRY allows limb 0 up to 2^63 and the others up to 2^62 (`3rdparty/monocypher/monocypher.c:1077-1081`).
  `Fe25519.ChainFitsExactly`: from such limbs the chain stays within 64 bits if and only if limb 0 is below 2^63 - 2^25;
  `Fe25519.AnnouncedOverflows` is a vector of limbs beyond that. The callers stay below 2^62.
- quirc looks for the last data byte of a large block `ns` places too far on (`3rdparty/quirc/decode.c:597-598` against
  `3rdparty/qrcodegen/qrcodegen.cpp:524-529`). `QrBlocks.GatheredExactly` says exactly when a block is gathered as sent;
  the round trips hold all the same because the misread byte counts as one error.
- processBuffer casts a response length to a signed 32-bit int, so that a length of 2^31 or more takes the whole buffer.
  `RpcFrames.DataIsAnnounced` says exactly when the payload is the announced one; `RpcFrames.SplitsExactly`,
  `RpcFrames.ChunkingExactly`, `RpcChannel.TwoReadsExactly` and `RpcChannel.RunsCutExactly` for which streams the frames
  do not depend on how they arrive; `RpcFrames.FailingStream` is one for which they do.
- Request ids are drawn from a 32-bit counter that wraps round. `RpcSteps.WhenDrawsAreFresh` says exactly which
  interleavings never draw an id in flight; `RpcSteps.IdsRunOut` is an interleaving that does.
- RerankAutoSelectorPool does not clamp the pool cap that PlanAutoSelector clamps. `SelectorPlan.ReplanKeepsPool` says
  exactly for which caps the two agree.

## Model

| member | source | states |
|---|---|---|
| QrSymbol.TextThroughSymbol | 3rdparty/qrcodegen/qrcodegen.cpp:259-317 | a symbol is written exactly if the arguments are in range and some allowed version holds the text; it is read back exactly at every size, level and mask and for every noise within half the parity bytes of every block |
| QrSymbol.SendData | 3rdparty/quirc/decode.c:883-931 | data codewords survive interleaving, drawing, masking, every noise within reach, reading and correction |
| Gf256.GF256 | 3rdparty/quirc/decode.c:50-124 | the decoder's exponent and logarithm tables are those of the field with polynomial 0x11D and generator 2 |
| Gf256.TableProduct | 3rdparty/quirc/decode.c:130-150 | adding table logarithms modulo 255 multiplies in the field |
| Gf256.TableQuotient | 3rdparty/quirc/decode.c:327-328 | subtracting table logarithms divides in the field |
| Gf256.AlphaInjective | 3rdparty/quirc/decode.c:50-83 | the 255 powers of the generator are all different, so places of a block have different locators |
| Lfsr.MasseyBound | 3rdparty/quirc/decode.c:178-234 | two recurrences that agree on n terms and differ on the next have lengths summing to more than n: the reason the length update is forced |
| Lfsr.LocatorGenerates | 3rdparty/quirc/decode.c:178-234 | the polynomial with the error locators as roots generates the syndromes |
| Lfsr.Vandermonde | 3rdparty/quirc/decode.c:178-234 | power sums of distinct bases that vanish as often as there are bases have zero coefficients |
| ReedSolomon.CodewordsApart | 3rdparty/quirc/decode.c:294-336 | two codewords are equal or differ in more than npar bytes |
| ReedSolomon.ShortestIsLocator | 3rdparty/quirc/decode.c:178-234 | the shortest recurrence of the syndromes has exactly the error locators among its roots |
| ReedSolomon.Forney | 3rdparty/quirc/decode.c:310-331 | at an error place the locator vanishes and evaluator over derivative is the error; elsewhere the locator does not vanish |
| QuircEcc.PolyAdd | 3rdparty/quirc/decode.c:130-150 | adds c x^shift times the source, in place, whatever falls outside dropped |
| QuircEcc.PolyEval | 3rdparty/quirc/decode.c:152-172 | table-driven evaluation equals the polynomial's value |
| QuircEcc.BerlekampMassey | 3rdparty/quirc/decode.c:178-234 | the result is a shortest recurrence that generates all N syndromes |
| QuircEcc.BlockSyndromes | 3rdparty/quirc/decode.c:236-261 | the syndromes are the block's values at alpha^0 to alpha^(npar-1), and it reports non-zero exactly for non-codewords |
| QuircEcc.ElocPoly | 3rdparty/quirc/decode.c:263-292 | omega is the product of locator and shifted syndromes cut off at npar - 1 terms |
| QuircEcc.CorrectionIsError | 3rdparty/quirc/decode.c:318-331 | within half the parity bytes, what the search adds at a place is the error there |
| QuircEcc.CorrectBlock | 3rdparty/quirc/decode.c:294-336 | success exactly if the block is now a codeword; any codeword within npar/2 bytes is restored; codewords and other bytes are untouched |
| QrEcc.ReedSolomonMultiply | 3rdparty/qrcodegen/qrcodegen.cpp:740-749 | the bitwise product is the field product |
| QrEcc.ReedSolomonComputeDivisor | 3rdparty/qrcodegen/qrcodegen.cpp:702-724 | the coefficients of the product of (x - 2^i), leading one left out |
| QrEcc.ReedSolomonComputeRemainder | 3rdparty/qrcodegen/qrcodegen.cpp:727-737 | data followed by the remainder vanishes at every root of the divisor |
| QrEcc.AppendEcc | 3rdparty/qrcodegen/qrcodegen.cpp:509-520 | data with parity bytes is a codeword for the reader |
| QrBlocks.AddEccAndInterleave | 3rdparty/qrcodegen/qrcodegen.cpp:498-533 | every byte of every completed block stands at its place in the sequence; nothing is lost or added |
| QrBlocks.LayoutsAgree | 3rdparty/quirc/decode.c:574-582 | reader and writer derive the same block structure from one version's constants |
| QrBlocks.GatheredExactly | 3rdparty/quirc/decode.c:588-600 | a block is gathered as sent, for every content, if and only if it is short or no block is short |
| QrBlocks.DamageIsRecoverable | 3rdparty/quirc/decode.c:571-612 | noise that damages few enough of the places of every block leaves each received block within half its parity bytes of the one sent |
| QrBlocks.CleanIsWithinReach | 3rdparty/quirc/decode.c:588-604 | with two parity bytes or more the misread byte of a large block is within reach |
| QrBlocks.CodestreamEcc | 3rdparty/quirc/decode.c:571-612 | success leaves data of codewords; from a recoverable symbol the data that were sent |
| QrBlocks.RoundTrip | 3rdparty/quirc/decode.c:571-612 | data through interleaving, noise and correction come back whenever the noise is within reach of every block |
| QrSegments.GroupsReadBack | 3rdparty/quirc/decode.c:638-748 | reading the groups of a segment gives its characters and stops right behind its bits |
| QrSegments.PayloadReadsBack | 3rdparty/quirc/decode.c:835-881 | all segments read back, up to the terminator and never into the padding |
| QrStandard.SegmentIsStandard | 3rdparty/qrcodegen/qrcodegen.cpp:57-122 | a segment is written as the standard's numerals say: indicator 0001, 0010 or 0100, count of 8 to 16 bits, digits by threes in 10 bits, characters by pairs in 11, bytes in 8 |
| QrStandard.CharactersAre | 3rdparty/qrcodegen/qrcodegen.cpp:230 | the value of a character is its place in the alphabet |
| QrStandard.StandardReadsBack | 3rdparty/quirc/decode.c:835-881 | the reader makes of such a segment and a terminator exactly its characters |
| QrEncode.BitBuffer.AppendBits | 3rdparty/qrcodegen/qrcodegen.cpp:823-828 | appends the value's bits most significant first, or refuses values that do not fit |
| QrEncode.GetTotalBits | 3rdparty/qrcodegen/qrcodegen.cpp:179-193 | the length of the bit string, or -1 exactly if a count does not fit or the sum exceeds an int |
| QrEncode.MakeNumeric | 3rdparty/qrcodegen/qrcodegen.cpp:79-99 | a segment of exactly the given digits; refused exactly for texts with other characters |
| QrEncode.MakeAlphanumeric | 3rdparty/qrcodegen/qrcodegen.cpp:102-122 | a segment of exactly the given characters; refused exactly for characters outside the set |
| QrEncode.MakeBytes | 3rdparty/qrcodegen/qrcodegen.cpp:69-76 | a segment of exactly the given bytes |
| QrEncode.ChooseVersion | 3rdparty/qrcodegen/qrcodegen.cpp:265-284 | the smallest version in range that holds the segments, or none does |
| QrEncode.BuildBits | 3rdparty/qrcodegen/qrcodegen.cpp:292-310 | segments, terminator of at most four bits, zeros to the byte, alternating pad bytes up to the capacity |
| QrEncode.TailStops | 3rdparty/qrcodegen/qrcodegen.cpp:301-310 | what follows the segments makes a reader stop at once |
| QrEncode.EncodeSegments | 3rdparty/qrcodegen/qrcodegen.cpp:259-317 | smallest fitting version, highest level that still fits if boosting, the packed padded bit string of exactly that capacity, its first four bits 1, 2 or 4 by the first segment's mode |
| QrEncode.SegmentsReadBack | 3rdparty/quirc/decode.c:835-881 | reading the packed codewords yields exactly the concatenated characters |
| QuircPayload.Reader.TakeBits | 3rdparty/quirc/decode.c:619-636 | the next bits as a number, fewer if the stream ends, and the position moves by as many |
| QuircPayload.Reader.Tuple | 3rdparty/quirc/decode.c:638-657 | one group of characters appended, or nothing changed if the bits do not suffice |
| QuircPayload.Reader.NumericGroups | 3rdparty/quirc/decode.c:674-692 | agrees with the group-by-group reading of numeric segments, underflow included |
| QuircPayload.Reader.AlphaGroups | 3rdparty/quirc/decode.c:735-747 | agrees with the group-by-group reading of alphanumeric segments, underflow included |
| QuircPayload.Reader.ByteGroups | 3rdparty/quirc/decode.c:761-769 | one check for all bytes agrees with checking each |
| QuircPayload.SameWidths | 3rdparty/qrcodegen/qrcodegen.cpp:57-66 | reader and writer agree on the width of the character count in every version and mode |
| QuircPayload.Reader.DecodeSegment | 3rdparty/quirc/decode.c:659-770 | count, room check and characters as specified, with the error cases |
| QuircPayload.Reader.DecodePayload | 3rdparty/quirc/decode.c:835-881 | reads what the specification of payloads says, and ends the payload with a NUL |
| QrTextRoundTrip.EncodeThenDecode | 3rdparty/quirc/decode.c:835-881 | a list of segments is encoded exactly if some allowed version holds it, and then decoding yields its characters |
| QrBits.PackRoundTrip | 3rdparty/qrcodegen/qrcodegen.cpp:312-315 | packing the bits of bytes gives the bytes, zeros behind them |
| QrBits.UnpackRoundTrip | 3rdparty/quirc/decode.c:619-636 | the bits of packed bytes are the bits packed |
| QrScan.ScanCovers | 3rdparty/qrcodegen/qrcodegen.cpp:541-558 | the zigzag visits every module outside column 6 exactly once |
| QrDraw.QrCode.DrawCodewords | 3rdparty/qrcodegen/qrcodegen.cpp:536-560 | bit b of the data stands in the b-th free module of the scan; all other modules are unchanged |
| QrDraw.QrCode.ApplyMask | 3rdparty/qrcodegen/qrcodegen.cpp:563-584 | inverts exactly the selected modules outside function patterns; refuses other mask numbers |
| QrDraw.MaskIsTile | 3rdparty/qrcodegen/qrcodegen.cpp:568-577 | each mask repeats the tile drawn for it in the standard |
| QrRead.MasksAgree | 3rdparty/quirc/decode.c:455-469 | reader and writer mean the same module by every mask |
| QrRead.Datastream.ReadBit | 3rdparty/quirc/decode.c:527-542 | one unmasked bit packed behind the others |
| QrRead.ReadData | 3rdparty/quirc/decode.c:544-569 | the reader's walk collects all free modules in the order of the writer's scan |
| QrRead.WriteMaskRead | 3rdparty/quirc/decode.c:544-569 | codewords written, masked and read come out in order, followed by zero bits only |
| Connectivity.ComponentIs | 3rdparty/quirc/identify.c:209-285 | a closed connected set around the seed is its component |
| Connectivity.AreaIsSize | 3rdparty/quirc/identify.c:342-345 | the area accumulated over spans that do not overlap is the number of pixels in them |
| FloodFill.Quirc.FloodFillLine | 3rdparty/quirc/identify.c:132-164 | fills and reports the maximal run around a pixel and nothing else |
| FloodFill.Quirc.FloodFillCallNext | 3rdparty/quirc/identify.c:166-207 | finds the next pixel beside a run and enters its run, or shows that none is left there |
| FloodFill.Quirc.FloodFillSeed | 3rdparty/quirc/identify.c:209-285 | changes only pixels of the seed's component and reports each once; fills all of it unless the image has a chain of touching maximal runs, from the seed's run on, as long as the stack, and giving up means that the slots hold such a chain |
| Fe25519.CarriesKeepValue | 3rdparty/monocypher/monocypher.c:1137-1149 | the carry chain keeps the value modulo 2^255 - 19 |
| Fe25519.ChainFits | 3rdparty/monocypher/monocypher.c:1137-1149 | from limbs below 2^62, and limb 0 below 2^63 - 2^25, no carry leaves 64 bits |
| Fe25519.ChainFitsExactly | 3rdparty/monocypher/monocypher.c:1077-1081 | from the limbs the comment allows, no carry leaves 64 bits if and only if limb 0 is below 2^63 - 2^25 |
| Fe25519.AnnouncedOverflows | 3rdparty/monocypher/monocypher.c:1077-1081 | limbs the comment allows whose first addition overflows |
| Fe25519.CarriedIsTight | 3rdparty/monocypher/monocypher.c:1133-1136 | the chain ends with limbs under 1.1 * 2^25 and 1.1 * 2^24 |
| Fe25519.FeCarry | 3rdparty/monocypher/monocypher.c:1137-1152 | the chain in place: same value, tight limbs |
| Fe25519.ColumnFits | 3rdparty/monocypher/monocypher.c:1250-1306 | every factor fits 32 bits and every partial sum of a column stays below 2^62 |
| Fe25519.ColumnsValue | 3rdparty/monocypher/monocypher.c:1273-1292 | the ten columns represent the product modulo 2^255 - 19 |
| Fe25519.FeMul | 3rdparty/monocypher/monocypher.c:1257-1306 | the product modulo 2^255 - 19 in tight limbs, operands and result possibly the same array |
| Fe25519.FeSq | 3rdparty/monocypher/monocypher.c:1313-1357 | exactly the limbs of fe_mul(f, f) |
| Fe25519.LimbsFit | 3rdparty/monocypher/monocypher.c:1265-1271 | the doubled and scaled limbs of operands fit 32 bits |
| Fe25519.MulColumns | 3rdparty/monocypher/monocypher.c:1263-1292 | the ten columns of the wrapped product, factors within 32 and partial sums within 64 bits |
| Fe25519.SquareColumnsLow | 3rdparty/monocypher/monocypher.c:1325-1334 | the lower columns are those of f times f, factors within 32 and partial sums within 64 bits |
| FeBytes.AllLimbsValue | 3rdparty/monocypher/monocypher.c:1163-1172 | the ten loads overlap nothing and leave no gap |
| FeBytes.FromBytesMask | 3rdparty/monocypher/monocypher.c:1160-1174 | the little-endian number without its top bits, in tight limbs |
| FeBytes.SignCarry | 3rdparty/monocypher/monocypher.c:1197-1209 | q is 0 exactly for non-negative and -1 for negative elements |
| FeBytes.Settle | 3rdparty/monocypher/monocypher.c:1212-1215 | every limb in its range, value and excess unchanged |
| FeBytes.PackedValue | 3rdparty/monocypher/monocypher.c:1218-1225 | the stored words hold exactly the limbs |
| FeBytes.ToBytes | 3rdparty/monocypher/monocypher.c:1193-1228 | the one encoding below 2^255 - 19, for negative elements too |
| FeBytes.Reencode | 3rdparty/monocypher/monocypher.c:1160-1228 | decode then encode is the number modulo 2^255 modulo p, and the identity exactly on canonical encodings |
| FeBytes.Reload | 3rdparty/monocypher/monocypher.c:1160-1228 | encode then decode represents the same element |
| SlidingWindow.WindowRecodes | 3rdparty/monocypher/monocypher.c:1976-1982 | a window's signed value and the rest below it make up the number |
| SlidingWindow.MasksCount | 3rdparty/monocypher/monocypher.c:1983-1987 | the three masks find the position of a single bit |
| SlidingWindow.NewDigit | 3rdparty/monocypher/monocypher.c:1970-1994 | opening a window yields an odd digit below 2^(width-1) at its place and a lower check point |
| SlidingWindow.SlideCtx.Step | 3rdparty/monocypher/monocypher.c:1970-1994 | keeps the recoding: digits handed out, pending digit and rest sum to the scalar |
| SlidingWindow.MakeTable | 3rdparty/monocypher/monocypher.c:2020-2031 | the odd multiples of a point |
| SlidingWindow.MergedLadder | 3rdparty/monocypher/monocypher.c:2033-2050 | [s]B - [h]A in any commutative group for all s, h below 2^253 |
| MultiWord.Multiply | 3rdparty/monocypher/monocypher.c:1605-1616 | p + a b, no carry beyond 64 bits |
| MultiWord.MultiplyLow | 3rdparty/monocypher/monocypher.c:2793-2801 | the product modulo 2^256 |
| ModL.IsAboveL | 3rdparty/monocypher/monocypher.c:1618-1628 | true exactly for numbers of at least L |
| ModL.RemoveL | 3rdparty/monocypher/monocypher.c:1634-1643 | subtracts L once where that is possible, also in place |
| ModL.BarrettBounds | 3rdparty/monocypher/monocypher.c:1646-1688 | with r = floor(b / l) the estimate floor(x r / b) falls short of x / l by less than two, for every x below b |
| ModL.HighHalf | 3rdparty/monocypher/monocypher.c:1664-1668 | cutting a product with floor(B^n / l) behind n words leaves a quotient that falls short by less than two |
| ModL.ModLWords | 3rdparty/monocypher/monocypher.c:1646-1688 | x mod L for every 512-bit x |
| ModL.EddsaReduce | 3rdparty/monocypher/monocypher.c:1690-1696 | the 32-byte encoding of a 64-byte number mod L |
| ModL.EddsaMulAdd | 3rdparty/monocypher/monocypher.c:1699-1710 | (a b + c) mod L for all 256-bit a, b, c |
| ModL.Redc | 3rdparty/monocypher/monocypher.c:2784-2820 | x / 2^256 modulo L, below L, for every x below L 2^256 |
| ScalarInverse.NumberIsBytes | 3rdparty/monocypher/monocypher.c:1510-1514 | a scalar's bits and bytes give the same number |
| ScalarInverse.InvertScalar | 3rdparty/monocypher/monocypher.c:2843-2869 | the scalar to the power L - 2 modulo L, below L |
| ScalarInverse.InverseByFermat | 3rdparty/monocypher/monocypher.c:2843-2869 | where Fermat's theorem applies that power is the inverse |
| Poly1305.Folded | 3rdparty/monocypher/monocypher.c:311-365 | products above 2^128 folded back keep the value modulo 2^130 - 5 |
| Poly1305.BlockStep | 3rdparty/monocypher/monocypher.c:311-365 | (h + c) r modulo 2^130 - 5 without overflow, the accumulator at most 5 * 2^128 - 1 again |
| Poly1305.ClampedBytes | 3rdparty/monocypher/monocypher.c:367-376 | exactly the key bits that section 2.5 of RFC 8439 names are cleared |
| Poly1305.Poly1305Ctx.Update | 3rdparty/monocypher/monocypher.c:378-412 | the state after an update is that of all bytes absorbed |
| Poly1305.Poly1305Ctx.Final | 3rdparty/monocypher/monocypher.c:414-441 | the polynomial hash plus the pad modulo 2^128 |
| Poly1305.Authenticate | 3rdparty/monocypher/monocypher.c:378-441 | for every way of cutting a message the authenticator of the whole (section 2.5 of RFC 8439) |
| Blake2b.ConstantsAreRoots | 3rdparty/monocypher/monocypher.c:455-460 | the initial constants are the fractions of the square roots of the first eight primes |
| Blake2b.StartIs | 3rdparty/monocypher/monocypher.c:533-543 | the initial hash is the constants with the bytes hash size, key size, 1, 1 added |
| Blake2b.HashBytesAre | 3rdparty/monocypher/monocypher.c:634-637 | the words of the hash come out least significant byte first |
| Blake2b.Increment | 3rdparty/monocypher/monocypher.c:479-484 | the 128-bit offset in two words with carry |
| Blake2b.ByteAppended | 3rdparty/monocypher/monocypher.c:572-575 | oring a byte into a partial word extends the zero-padded block by it |
| Blake2b.Blake2bCtx.constructor | 3rdparty/monocypher/monocypher.c:531-553 | a key is the first block, padded with zeros |
| Blake2b.Blake2bCtx.CompressFull | 3rdparty/monocypher/monocypher.c:592-594 | compresses a full buffer with the offset behind it, not as the last block |
| Blake2b.Blake2bCtx.Remainder | 3rdparty/monocypher/monocypher.c:601-625 | the tail of an update; words go to the start of the buffer only when it is empty |
| Blake2b.Blake2bCtx.Update | 3rdparty/monocypher/monocypher.c:560-626 | blocks compressed, offset and zero-padded buffer are those of all bytes absorbed |
| Blake2b.Blake2bCtx.Final | 3rdparty/monocypher/monocypher.c:628-638 | the first hash_size bytes of the hash of everything absorbed |
| Blake2b.HashChunks | 3rdparty/monocypher/monocypher.c:531-638 | for every way of cutting a message the hash of section 3.3 of RFC 7693 |
| Argon2Window.AllowedIsSafe | 3rdparty/monocypher/monocypher.c:860-893 | a reference in the set is stored already, not the current block, not the previous one, not in another lane's part of the slice |
| Argon2Window.WindowIsAllowed | 3rdparty/monocypher/monocypher.c:860-884 | the window covers exactly the reference set of section 3.4.2 of RFC 9106 |
| Argon2Window.RefIsAllowed | 3rdparty/monocypher/monocypher.c:875-884 | whatever the seed, the block that section 3.4.2 of RFC 9106 selects for it lies in the reference set |
| Argon2Window.SelectedIsQuadratic | 3rdparty/monocypher/monocypher.c:876-881 | J1 = 0 selects the newest block of the window, greater J1 older ones, at a distance of the window size times J1^2 / 2^64 rounded down twice |
| Argon2Window.Reference | 3rdparty/monocypher/monocypher.c:860-884 | the wrapping 32-bit arithmetic selects exactly the block of the exact arithmetic |
| Argon2Window.AreaIndex | 3rdparty/monocypher/monocypher.c:883 | lane and position name one block inside the work area |
| Argon2Fill.OldContentsDoNotMatter | 3rdparty/monocypher/monocypher.c:772-896 | no block depends on what the work area held before the first two blocks of each lane were set |
| Argon2Fill.NextAddresses | 3rdparty/monocypher/monocypher.c:835-857 | the block of data-independent indices for a counter |
| Argon2Fill.FillBlock | 3rdparty/monocypher/monocypher.c:821-893 | one step leaves the memory as the recurrence has it at the next place |
| Argon2Fill.FillSegment | 3rdparty/monocypher/monocypher.c:818-894 | a segment's blocks get their values of this pass, all others stay |
| Argon2Fill.FillMemory | 3rdparty/monocypher/monocypher.c:782-897 | every block ends with the value of the recurrence of sections 3.2 to 3.5 of RFC 9106, which knows no order between lanes |
| Argon2Fill.FinalBlock | 3rdparty/monocypher/monocypher.c:903-909 | the exclusive or of the last blocks of all lanes |
| ChaCha.XorSplit | 3rdparty/monocypher/monocypher.c:236-244 | exclusive or works on the parts of a split word |
| ChaCha.CounterStep | 3rdparty/monocypher/monocypher.c:251-254 | incrementing two 32-bit words with carry increments the 64-bit counter |
| ChaCha.XorTwice | 3rdparty/monocypher/monocypher.c:220-277 | applying a stream twice gives the text back |
| ChaCha.InputBytes | 3rdparty/monocypher/monocypher.c:228-234 | the 64 bytes that enter the rounds: the constant text, the key, the block number, the nonce |
| ChaCha.Djb | 3rdparty/monocypher/monocypher.c:220-277 | text of any length, in place or not, under the byte stream from a block number on; the next block number |
| Aead.ChunksAreMessage | 3rdparty/monocypher/monocypher.c:2894-2903 | what is fed to the authenticator is data, zeros to 16, text, zeros to 16, and the two sizes in eight bytes each |
| Aead.AuthMessageTells | 3rdparty/monocypher/monocypher.c:2894-2903 | no two pairs of data and text are authenticated as the same message |
| Aead.LockAuth | 3rdparty/monocypher/monocypher.c:2890-2905 | the authenticator of that message |
| Aead.AeadCtx.Write | 3rdparty/monocypher/monocypher.c:2931-2942 | encrypted under the old key, authenticated with its drawn key, and the key replaced |
| Aead.AeadCtx.Read | 3rdparty/monocypher/monocypher.c:2944-2961 | mismatch exactly for a wrong mac, then nothing changes; otherwise decrypted and the key replaced |
| Aead.WriteAllReadAll | 3rdparty/monocypher/monocypher.c:2931-2961 | all messages written come out again when read in order, and both keys stay equal |
| RpcFrames.DataIsAnnounced | src/api/RPC.cpp:77-84 | the payload taken is the announced one if and only if its length fits an int or nothing follows |
| RpcFrames.SplitAnywhere | src/api/RPC.cpp:56-60 | splitting a sane stream anywhere gives the same frames and remainder |
| RpcFrames.SplitsExactly | src/api/RPC.cpp:72-84 | every split of a stream gives the same frames and remainder if and only if no frame of 2^31 bytes or more has bytes behind it |
| RpcFrames.FailingStream | src/api/RPC.cpp:84 | a stream with a response of 2^31 bytes that comes out differently when read in two pieces |
| RpcFrames.ChunkingIsInvisible | src/api/RPC.cpp:56-103 | the frames extracted from a sane stream do not depend on the chunks |
| RpcFrames.ChunkingExactly | src/api/RPC.cpp:56-103 | the frames extracted do not depend on the chunks if and only if the stream is sane |
| RpcFrames.ReadsBack | src/api/RPC.cpp:23 | responses written back to back are read back exactly |
| RpcSteps.StepKeeps | src/api/RPC.cpp:53-222 | every atomic step of every thread keeps the invariant |
| RpcSteps.EveryRunIsSafe | src/api/RPC.cpp:53-222 | in every interleaving a call returning 0 has the payload of a status-0 frame with its id, the first one cut after it was registered; it is completed at most once and has left pending |
| RpcSteps.AnsweredCallsReturn | src/api/RPC.cpp:190-222 | in every interleaving a call answered before its thread gave up returns that answer, 0 exactly for status 0, whatever happens in between |
| RpcSteps.DeliveredResponsesReturn | src/api/RPC.cpp:94-101 | a response stored before the thread gave up is what the call of its id returns |
| RpcSteps.EveryoneIsWoken | src/api/RPC.cpp:62-70 | waking completes exactly the registered calls; a waiting call left undone is one whose response is just being stored |
| RpcSteps.EveryRunCutsTheStream | src/api/RPC.cpp:56-103 | whenever the reader is idle the frames cut from a socket are those of the sane bytes received from it |
| RpcSteps.EveryWriteHitsItsSocket | src/api/RPC.cpp:128-151 | in every interleaving a frame is written to the socket of the last reconnect queued before it |
| RpcSteps.DrawCollides | src/api/RPC.cpp:163 | a drawn id equals a call's id if and only if a multiple of 2^32 draws lies between |
| RpcSteps.WhenDrawsAreFresh | src/api/RPC.cpp:163 | an interleaving never draws an id in flight if and only if no draw comes a multiple of 2^32 draws after that of a call in flight |
| RpcSteps.FewCallsAreSafe | src/api/RPC.cpp:53-222 | with fewer than 2^32 draws over the life of any call, every interleaving is safe |
| RpcSteps.IdsRunOut | src/api/RPC.cpp:163 | an interleaving with two calls in flight under one id |
| RpcChannel.TwoReadsAreOne | src/api/RPC.cpp:56-103 | reading a sane stream in two pieces leaves channel and calls as reading it in one |
| RpcChannel.TwoReadsExactly | src/api/RPC.cpp:56-103 | for an idle channel that holds for every cut if and only if the stream is sane |
| RpcChannel.RunsCutExactly | src/api/RPC.cpp:56-103 | over all interleavings, the frames cut are those of the bytes received if and only if the bytes are sane |
| RpcChannel.DrainIsARun | src/api/RPC.cpp:72-103 | draining the buffer is a run of atomic steps |
| RpcChannel.LocalSocketChannel.ProcessBuffer | src/api/RPC.cpp:72-103 | every whole frame is cut and delivered to its call |
| RpcChannel.LocalSocketChannel.OnReadyRead | src/api/RPC.cpp:56-60 | appends what arrived and drains, or nothing without a socket |
| RpcChannel.LocalSocketChannel.WakeAllWithError | src/api/RPC.cpp:62-70 | exactly the registered calls are completed, once each, and none stays registered |
| RpcChannel.LocalSocketChannel.Reconnect | src/api/RPC.cpp:128-151 | waiting calls get an error, the swap is queued, the channel reports connected |
| RpcChannel.LocalSocketChannel.BeginCall | src/api/RPC.cpp:157-188 | refused when not connected; otherwise registered under a fresh id before its write is queued, in four atomic steps |
| RpcChannel.LocalSocketChannel.GiveUp | src/api/RPC.cpp:196-203 | after a timeout the slot is reclaimed, or the reader holds the call and will complete it |
| RpcChannel.LocalSocketChannel.EndCall | src/api/RPC.cpp:209-222 | a thread that woke returns the stored payload, with 0 exactly for status 0; one that gave up returns 1 and nothing; 0 means the first frame bearing the call's id since it was registered |
| LatencyOrder.StrictWeakOrder | src/configs/AutoSelectorPlan.cpp:112-132 | the comparison is a strict weak order |
| LatencyOrder.SortIsStable | src/configs/AutoSelectorPlan.cpp:135-143 | sorting yields an ordered permutation with ties in their old order |
| LatencyOrder.SortMeans | src/configs/AutoSelectorPlan.cpp:111-143 | in numbers: working entries first, the faster before the slower, then untested, then failed ones; nothing lost or added |
| SelectorMembers.JoinsExactly | src/configs/AutoSelectorPlan.cpp:51-108 | exactly when a member is eligible in a group: its own checks, and the group's landing and front proxies |
| SelectorMembers.TooManySwitches | src/configs/AutoSelectorPlan.cpp:84-101 | a chain is refused exactly if it leaves Xray for the member and enters it again |
| SelectorMembers.MembersDistinct | src/configs/AutoSelectorPlan.cpp:145-219 | no member is eligible twice |
| SelectorMembers.EligibleMembers | src/configs/AutoSelectorPlan.cpp:145-219 | the eligible members in walking order, unavailable ones kept only if nothing else is left; members met = eligible + skipped |
| SelectorPlan.OrderIsPermutation | src/configs/AutoSelectorPlan.cpp:222-242 | the ordered list has each member once, persisted ones in front in their order |
| SelectorPlan.OrderMembers | src/configs/AutoSelectorPlan.cpp:222-242 | persisted members first in their order, newcomers behind them, fastest first and stable |
| SelectorPlan.SortByLatency | src/configs/AutoSelectorPlan.cpp:135-143 | sorting by latencies read up front is the stable sort by effective latency, fastest first |
| SelectorPlan.AutoSelector.Normalize | include/configs/outbounds/autoselector.h:158-170 | caps in range, group ids non-negative and distinct; settings in range unchanged |
| SelectorPlan.AutoSelector.PlanPool | src/configs/AutoSelectorPlan.cpp:275-313 | the capped pool, a build that is its prefix, the accounts, and when a ranking is needed |
| SelectorPlan.AutoSelector.Rerank | src/configs/AutoSelectorPlan.cpp:381-394 | the pool becomes the capped stable sort of the eligible members, fastest first; no member left out is better than one kept |
| SelectorPlan.ReplanKeepsPool | src/configs/AutoSelectorPlan.cpp:290-293 | planning after a re-rank gives the re-ranked pool if and only if the cap was in range or the difference does not show |
| SelectorPlan.AutoSelector.RerankThenPlan | src/configs/AutoSelectorPlan.cpp:381-394 | with settings in range, planning right after a re-rank returns exactly the re-ranked pool |

## Left out

- ECI and Kanji segments of quirc: the payload reader of the model stops there with an error of its own (`NotModelled`); the writer has no Kanji segments, and quirc keeps the length prefix in ECI values.
- The data type that quirc records for a payload, and the writer's choice of a mask by penalty: they do not affect what is read.
- Version tables, function patterns, format and version bits, BCH codes: the model takes the block constants and one shared function-pattern predicate as parameters with the inequalities the standard's tables satisfy.
- Finding, thresholding and perspective-sampling a symbol in an image: floating point. The packed bit grid between sampling and reading is a two-dimensional array here.
- The pixel buffer of the flood fill is a two-dimensional array instead of rows in one block; the span callback is a recorded list of calls.
- Curve formulas, decompression, Elligator, primality, and the fixed comb tables: the ladder runs in an abstract commutative group, and the table of odd multiples of the base point is assumed to be one.
- The cofactor clearing and the ladder at the end of crypto_x25519_inverse, and Fermat's theorem for L, which `ScalarInverse.InverseByFermat` takes as a hypothesis.
- The ChaCha rounds, the BLAKE2b mixing, the rounds of the Argon2 compression, its initial hash and its final hash: uninterpreted parameters.
- crypto_chacha20_h, crypto_chacha20_ietf, crypto_chacha20_x and the AEAD initialisers: they only choose keys, nonces and counters for the modelled code.
- fe_mul_small, fe_add and other one-line field helpers: easy next to fe_mul.
- Constant-time behaviour, wiping and alignment: not functional properties. crypto_verify16 is an equality.
- Blake2b.Blake2bCtx.Final: emits the bytes one by one, without the separate path for whole words.
- FloodFill.Quirc.FloodFillSeed: the number of stack slots used is a ghost result; the code returns nothing.
- Protobuf, the Client wrappers, Qt threads, sockets and the destructor of the RPC channel: the channel's steps are atomic where the code holds a lock or runs on one thread. PendingCall objects are records in a list, and a shared pointer is an index.
- RpcSteps.EveryRunIsSafe: about interleavings that draw no id in flight; `RpcSteps.WhenDrawsAreFresh` says exactly which these are.
- The bytes of RPC requests: a write is recorded by the call it belongs to.
- The name filter's regular expression and the parsing of filters and custom configurations: parameters of the member filter.
- std::stable_sort: modelled by a stable insertion, whose order is the only stable one.
- AutoSelectorUnmeasuredCandidates, AutoSelectorStartQuorum, AutoSelectorBuildChanged and the display strings: easy next to planning and re-ranking.
- The Go bindings, updater, control program, rule sets, other user interface code: wrappers over libraries and I/O.
