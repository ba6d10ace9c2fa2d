# Dafny models of the QR codec, Monocypher arithmetic, RPC channel, selective restore and auto selector

The modules here model the parts of the application whose correctness rests on
arithmetic, on data layout or on whole runs, and prove what their comments,
documentation and standards promise.

- **QR codes** (ISO/IEC 18004). The encoder of `qrcodegen.cpp` against the decoder
  of `quirc/decode.c`: the field with its tables (`GfTables`, `GfBits`,
  `GaloisField`), Reed-Solomon (`Polynomials`, `ReedSolomonEncoder`,
  `BlockDecoder`), interleaving (`Codestream`), segments and payload
  (`BitStreams`, `Segments`, `SegmentEncoder`, `PayloadDecoder`), module geometry
  (`SymbolGeometry`, `AlignmentCentres`, `ModuleCount`, `QrMatrix`, `GridReader`),
  format and version words (`FormatCode`).
  `QrRoundTrip` puts them together: text to modules and back.
- **Monocypher**: Poly1305 (`Poly1305`), BLAKE2b streaming (`Blake2b`), Argon2
  memory filling (`Argon2`), the field 2^255-19 and the Montgomery ladder
  (`Field25519`, `FieldBytes`, `MontgomeryLadder`), arithmetic modulo L
  (`Words32`, `ScalarModL`), sliding windows (`SlidingWindow`). Machine integers
  are mathematical ones with their ranges and wrap-around written out.
- **Span flood fill** of `quirc/identify.c` (`FloodFill`).
- **RPC channel** of `RPC.cpp`: the stream framer (`RpcFramer`) and the pending
  calls as a machine of atomic steps, one per lock section (`RpcChannel`).
- **Selective restore** of `Database.cpp` (`RuleOrder`, `BackupTables`,
  `SelectiveRestore`).
- **Auto selector planning** of `AutoSelectorPlan.cpp` (`LatencyOrder`,
  `SelectorPlan`, `PoolPlanner`, `AutoSelector`).

`Arithmetic`, `Bytes` and `Options` hold shared vocabulary.

## Results worth knowing

- The decoder reads the last data codeword of every long block from the wrong
  place. The round trip still holds for every layout, because one wrong symbol per
  block is always repaired.
- Encoder and decoder agree on the free modules if and only if they use the same
  alignment centres. For version 21 the decoder's table differs from what the
  encoder computes, so the round trip is stated for versions where they agree.
- The formula for the number of data modules counts the free cells of every version
  exactly, so the encoder's closing assertion holds.
- Response frames of 2^31 bytes and more break resumable parsing, because their
  length is cast to int (`OversizedSwallows` has such a buffer); parsing can be
  resumed if and only if all whole frames are smaller (`ParseResumes`,
  `ParseResumesOnlyIf`).
- The lanes of an Argon2 slice may be filled in any interleaving.
- The comment on `multiply` in `monocypher.c` says p = a*b + p; the loop overwrites
  the upper half, so this holds if and only if the upper half of p is zero
  (`Multiply`); `MultiplyForgets` runs an input where it fails. All callers pass a
  zero upper half.
- The comment on FE_CARRY allows |t0| < 2^63. With the other limbs as documented, no
  step overflows if and only if t0 + 2^25 < 2^63 (`NoOverflowIff`);
  `DocumentedBoundOverflows` is the input 2^63 - 1. Every caller meets the
  condition.
- Settings the caller of a restore asks to preserve can change: the three that name
  rows are overwritten when their table is replaced or they name no row.
  `PreservedStayIff` says exactly when they stay, `PreservedCanChange` runs a case
  where one does not.
- The decoder accepts exactly the format words the encoder computes, any two of
  which differ in seven bits.

## Model

| member | source | states |
|---|---|---|
| GfBits.TablesOk | 3rdparty/quirc/decode.c:50-118 | neighbouring entries of the exp table differ by one multiplication by x modulo x^8+x^4+x^3+x^2+1, and exp and log invert each other |
| GaloisField.ExpIsAlpha | 3rdparty/quirc/decode.c:50-83 | the exp table holds the powers of the generator, up to its period |
| GaloisField.LogIsLog | 3rdparty/quirc/decode.c:85-118 | the log table gives the exponent of every nonzero element |
| GaloisField.TableMul | 3rdparty/quirc/decode.c:130-150 | adding logarithms modulo 255 is field multiplication, for all nonzero elements |
| GaloisField.TableDiv | 3rdparty/quirc/decode.c:208-208 | the subtraction of logarithms in Berlekamp-Massey is field division |
| GaloisField.TableTerm | 3rdparty/quirc/decode.c:152-176 | a term of the table-driven evaluation is coefficient times power of the point |
| GaloisField.MulAssoc | 3rdparty/qrcodegen.cpp:740-749 | the multiplication of the encoder's field is associative, derived from linearity and the generator, not by enumeration |
| ReedSolomonEncoder.Multiply | 3rdparty/qrcodegen.cpp:740-749 | peasant multiplication on machine integers is the field product the decoder's tables compute |
| ReedSolomonEncoder.ComputeDivisor | 3rdparty/qrcodegen.cpp:702-724 | refuses degrees outside 1 to 255; otherwise the divisor, with its implicit leading one, is the product of (x - alpha^i) for i below the degree, as a polynomial function |
| ReedSolomonEncoder.DivisorEval | 3rdparty/qrcodegen.cpp:702-724 | after each turn of the loop the partial divisor evaluates to the product of the roots taken in so far |
| ReedSolomonEncoder.ComputeRemainder | 3rdparty/qrcodegen.cpp:727-737 | data followed by the remainder vanishes wherever the divisor does |
| ReedSolomonEncoder.EncodeBlock | 3rdparty/qrcodegen.cpp:511-518 | every data block followed by its parity has all-zero syndromes |
| BlockDecoder.PolyAdd | 3rdparty/quirc/decode.c:130-150 | adds the scaled and shifted source polynomial in place, dropping what leaves the array |
| BlockDecoder.PolyEval | 3rdparty/quirc/decode.c:152-176 | the table-driven sum is the polynomial evaluated at the point, also at zero |
| BlockDecoder.BlockSyndromes | 3rdparty/quirc/decode.c:236-261 | syndrome i is the block evaluated at alpha^i; nonzero is reported exactly for blocks that are not codewords |
| BlockDecoder.BerlekampMassey | 3rdparty/quirc/decode.c:178-228 | for every syndrome sequence the result is a connection polynomial of all of it; for the syndromes of one error it is 1 + Xz |
| BlockDecoder.UpdateConnects | 3rdparty/quirc/decode.c:208-224 | the update of Berlekamp-Massey keeps the connection property one symbol further, whether or not the length changes |
| BlockDecoder.Discrepancy | 3rdparty/quirc/decode.c:195-206 | the discrepancy loop is the convolution of the polynomial with the syndromes |
| BlockDecoder.ElocPoly | 3rdparty/quirc/decode.c:263-292 | omega is the product of shifted syndromes and sigma, truncated |
| BlockDecoder.SingleErrorSyndromes | 3rdparty/quirc/decode.c:236-261 | the syndromes of a codeword with one wrong symbol are a geometric sequence of the error value and its position |
| BlockDecoder.SingleErrorLocator | 3rdparty/quirc/decode.c:178-228 | the only connection polynomial of length one of such syndromes is 1 + Xz |
| BlockDecoder.SingleErrorOmega | 3rdparty/quirc/decode.c:263-292 | for one error omega is the constant error value times X |
| BlockDecoder.LocatorRoot | 3rdparty/quirc/decode.c:319-322 | the root search hits the erroneous position and no other |
| BlockDecoder.ErrorValue | 3rdparty/quirc/decode.c:323-326 | omega over the derivative of sigma is the error value |
| BlockDecoder.SearchErrors | 3rdparty/quirc/decode.c:318-330 | the search repairs the one wrong symbol and leaves the rest of the buffer alone |
| BlockDecoder.CorrectBlock | 3rdparty/quirc/decode.c:294-336 | success means the block is a codeword; any single wrong symbol, at any position with any value, is repaired and accepted |
| BlockDecoder.CodewordUnique | 3rdparty/quirc/decode.c:294-336 | two codewords that differ in at most one place are equal |
| Codestream.AddEccAndInterleave | 3rdparty/qrcodegen.cpp:498-533 | refuses data of the wrong size; otherwise every block is completed to a codeword and each codeword lies where the standard puts it, short and long blocks mixed |
| Codestream.RowsCell | 3rdparty/qrcodegen.cpp:523-530 | the place of every cell of every block in the interleaved stream, with the padding bytes of short blocks left out |
| Codestream.FetchedOneOff | 3rdparty/quirc/decode.c:597-600 | the decoder's index formulas fetch each block right but for the last data codeword of a long block |
| Codestream.DecodeBlock | 3rdparty/quirc/decode.c:589-607 | one block is fetched, repaired and left in place as it was sent |
| Codestream.CodestreamEcc | 3rdparty/quirc/decode.c:571-612 | applied to the encoder's stream, every block is accepted and the data codewords come out unchanged |
| Codestream.EncodeThenDecode | 3rdparty/quirc/decode.c:571-612 | for every layout and every data vector, decoding undoes encoding although long blocks are misread |
| BitStreams.ValueOfBitsOf | 3rdparty/qrcodegen.cpp:823-828 | a number that fits its width is recovered from its bits |
| BitStreams.AppendBits | 3rdparty/qrcodegen.cpp:823-828 | appends the binary expansion, most significant bit first |
| BitStreams.PackBits | 3rdparty/qrcodegen.cpp:310-313 | packing bits into bytes by or-ing loses and adds none |
| BitStreams.CodeBitsInjective | 3rdparty/quirc/decode.c:619-636 | codewords are determined by their bits |
| Segments.MakeNumeric | 3rdparty/qrcodegen.cpp:79-99 | accepts exactly digit strings and packs them in groups of three; no group overflows its field |
| Segments.MakeAlphanumeric | 3rdparty/qrcodegen.cpp:102-122 | accepts exactly strings over the 45 characters and packs them in pairs |
| Segments.MakeBytes | 3rdparty/qrcodegen.cpp:69-76 | refuses more than INT_MAX bytes; otherwise eight bits each |
| Segments.IsNumeric | 3rdparty/qrcodegen.cpp:196-203 | decides whether numeric mode applies |
| Segments.IsAlphanumeric | 3rdparty/qrcodegen.cpp:206-212 | decides whether alphanumeric mode applies |
| Segments.MakeSegments | 3rdparty/qrcodegen.cpp:125-140 | one segment that spells the text, in the densest mode that has all its characters; none for the empty text |
| SegmentEncoder.GetTotalBits | 3rdparty/qrcodegen.cpp:179-193 | the length of the stream, or -1 exactly when a count field or the int sum overflows |
| SegmentEncoder.FindVersion | 3rdparty/qrcodegen.cpp:264-282 | the smallest version of the range that holds the data, or none does |
| SegmentEncoder.AddTail | 3rdparty/qrcodegen.cpp:299-308 | terminator of at most four bits, zeros to a byte, alternating pad bytes, up to the capacity exactly |
| SegmentEncoder.Concatenate | 3rdparty/qrcodegen.cpp:290-297 | mode, count and data of every segment in order; every value fits its field, so nothing is thrown |
| SegmentEncoder.EncodeSegments | 3rdparty/qrcodegen.cpp:259-317 | smallest version, highest level that still fits it and never below the one asked for, codewords that carry the segments and fill the capacity exactly; refusals characterised |
| PayloadDecoder.GroupsRoundTrip | 3rdparty/quirc/decode.c:638-748 | unpacking undoes packing in numeric, alphanumeric and byte mode, whatever follows |
| PayloadDecoder.SegmentRoundTrip | 3rdparty/quirc/decode.c:659-770 | a segment's header and data are read back, the count widths of the two sides agreeing for every version |
| PayloadDecoder.StreamRoundTrip | 3rdparty/quirc/decode.c:835-881 | any sequence of segments is read back as the concatenation of its texts and ends at the terminator, also when that is shorter than four bits |
| PayloadDecoder.StreamFacts | 3rdparty/quirc/decode.c:835-881 | for the encoder's segments the data type reported is the highest of their modes, and no ECI |
| PayloadDecoder.PayloadRoundTrip | 3rdparty/quirc/decode.c:835-881 | no text that fits a symbol overflows the payload buffer |
| PayloadDecoder.Decoder.TakeBits | 3rdparty/quirc/decode.c:619-636 | reads at most the bits that are left |
| PayloadDecoder.Decoder.Tuple | 3rdparty/quirc/decode.c:638-657 | a group of characters, or an underflow; all writes are inside the payload |
| PayloadDecoder.Decoder.DecodeNumeric | 3rdparty/quirc/decode.c:659-693 | status, payload and position are what the bits say, for every bit string |
| PayloadDecoder.Decoder.DecodeAlpha | 3rdparty/quirc/decode.c:720-748 | the same for alphanumeric mode |
| PayloadDecoder.Decoder.DecodeByte | 3rdparty/quirc/decode.c:750-770 | the same for byte mode, where underflow is detected up front |
| PayloadDecoder.Decoder.DecodeKanji | 3rdparty/quirc/decode.c:772-810 | the same for kanji mode |
| PayloadDecoder.Decoder.DecodeEci | 3rdparty/quirc/decode.c:812-833 | the same for ECI designators of one, two or three bytes; the designated number is kept |
| PayloadDecoder.Decoder.DecodePayload | 3rdparty/quirc/decode.c:835-881 | reads segments until an unknown indicator or fewer than four bits, for every stream, terminates the payload inside its buffer and reports the highest mode met and the last ECI |
| SymbolGeometry.PathIsScanned | 3rdparty/qrcodegen.cpp:542-558 | the zigzag up to any point holds exactly the free cells before that point |
| SymbolGeometry.FullPathIsAllFree | 3rdparty/qrcodegen.cpp:536-560 | the whole zigzag visits every free cell exactly once |
| SymbolGeometry.UpwardByColumn | 3rdparty/qrcodegen.cpp:548-548 | the direction read off the column number alternates from pair to pair, across the timing pattern too |
| QrMatrix.QrCode.DrawFunctionPatterns | 3rdparty/qrcodegen.cpp:387-413 | marks exactly the timing, finder, format, version and alignment modules, gives each its colour, the later pattern where two overlap, and draws on no other |
| QrMatrix.QrCode.DrawFinderPattern | 3rdparty/qrcodegen.cpp:465-474 | rings of nine by nine around the centre, clipped; nothing else changes |
| QrMatrix.QrCode.DrawAlignmentPattern | 3rdparty/qrcodegen.cpp:477-482 | rings of five by five around the centre, never outside the symbol |
| QrMatrix.QrCode.DrawFormatBits | 3rdparty/qrcodegen.cpp:416-440 | both copies of the format word of level and mask and the dark module, each bit at its place; nothing else changes |
| QrMatrix.QrCode.DrawVersion | 3rdparty/qrcodegen.cpp:443-462 | both copies of the version word, each bit at its place, from version 7 on |
| QrMatrix.QrCode.DrawCodewords | 3rdparty/qrcodegen.cpp:536-560 | refuses any other number of codewords than the symbol's own; bit k goes to the k-th free cell, the rest stay light, function modules keep their colour; how many bits are placed |
| QrMatrix.QrCode.ApplyMask | 3rdparty/qrcodegen.cpp:563-584 | inverts exactly the masked free modules |
| QrMatrix.QrCode.Draw | 3rdparty/qrcodegen.cpp:320-359 | after drawing, trial masks and the final mask, every free module is its data bit inverted under the chosen mask, which has the least penalty when none was asked for, and every function module has its colour, the format bits those of that mask |
| FormatCode.ComputeFormat | 3rdparty/qrcodegen.cpp:416-423 | the shift register computes the word of the level and the mask; the five data bits give both back |
| FormatCode.CodewordOk | 3rdparty/qrcodegen.cpp:418-422 | every word the encoder computes has six zero syndromes in the decoder's field of sixteen elements |
| FormatCode.OkIsCodeword | 3rdparty/quirc/decode.c:348-368 | and every word of fifteen bits without syndromes is one of them |
| FormatCode.FormatDistance | 3rdparty/quirc/decode.c:344-368 | two different format words differ in at least seven bits |
| FormatCode.RepairUnambiguous | 3rdparty/quirc/decode.c:344-395 | so at most one of them is within three bits of what was read |
| FormatCode.FormatSyndromes | 3rdparty/quirc/decode.c:348-368 | reports nonzero syndromes exactly for words that are not format words |
| FormatCode.CorrectFormat | 3rdparty/quirc/decode.c:370-395 | a format word is returned as it is; whatever else is accepted is a format word |
| FormatCode.VersionWordOk | 3rdparty/qrcodegen.cpp:443-452 | the version word begins with the version, is a multiple of the generator and has at least eight bits set |
| GridReader.ReadFormat | 3rdparty/quirc/decode.c:415-453 | a clean copy gives level and mask back; whatever is accepted is the format word of the level and mask returned |
| QrRoundTrip.DrawnFormat | 3rdparty/quirc/decode.c:423-440 | both copies are drawn where the decoder looks for them, bit by bit |
| GridReader.MaskBitIsInverted | 3rdparty/quirc/decode.c:455-469 | the decoder's mask conditions are the encoder's |
| GridReader.ReservedCell | 3rdparty/quirc/decode.c:471-525 | the decoder reserves exactly the encoder's function modules, for every list of centres that is empty or has at least two entries at least five apart |
| GridReader.ReadBit | 3rdparty/quirc/decode.c:527-542 | or-s one unmasked module into the raw bytes, inside the buffer |
| GridReader.ReadData | 3rdparty/quirc/decode.c:544-569 | the scan with a flipping direction reads the free modules in the zigzag order, exactly once each, and leaves zero bits after them |
| AlignmentCentres.AlignmentPositions | 3rdparty/qrcodegen.cpp:664-677 | computes the centres of every version |
| AlignmentCentres.EncoderCentresSpaced | 3rdparty/qrcodegen.cpp:664-677 | they start on the timing pattern, end seven from the border and are far enough apart for both sides |
| AlignmentCentres.AgreeOnlyIfSameList | 3rdparty/quirc/decode.c:504-522 | two lists of centres give the same free cells if and only if they are equal |
| AlignmentCentres.Version21Differs | 3rdparty/quirc/version_db.c:221-223 | for version 21 encoder and decoder disagree on the free cells |
| ModuleCount.FreeCellsCounted | 3rdparty/qrcodegen.cpp:680-692 | the formula for the number of data modules counts the free cells exactly, for every version |
| ModuleCount.RawDataBound | 3rdparty/qrcodegen.cpp:680-692 | its result lies between 208 and 29648 |
| QrRoundTrip.ReadsWhatWasDrawn | 3rdparty/quirc/decode.c:527-569 | reading through the mask gives the drawn codewords back, followed by zero bits |
| QrRoundTrip.SendSegments | 3rdparty/qrcodegen.cpp:259-359 | segments drawn into a symbol are read back as their texts, level and mask taken from the symbol, for every table of valid layouts, every mask and every version for which both sides use the same centres |
| QrRoundTrip.SendText | 3rdparty/qrcodegen.cpp:247-250 | every text that fits is read back unchanged from the drawn symbol; exactly the texts that fit no version are refused |
| FloodFill.FillLine | 3rdparty/quirc/identify.c:132-164 | fills the maximal run around the pixel and nothing else |
| FloodFill.CallNext | 3rdparty/quirc/identify.c:166-207 | finds the next unfilled run beside the frame's span, or proves there is none left |
| FloodFill.Visit | 3rdparty/quirc/identify.c:251-274 | one look above or below the top frame keeps the walk's invariant and shrinks what is left when it fills |
| FloodFill.Turn | 3rdparty/quirc/identify.c:251-275 | a turn of the loop fills one more run beside the top frame, or leaves the frame with nothing left beside it |
| FloodFill.FillSeed | 3rdparty/quirc/identify.c:209-285 | terminates on every image; spans are disjoint and cover what was recoloured, the count is its size; all of it belongs to the seed's component, and is the component unless the stack overflowed, which takes at least as many spans as frames |
| FloodFill.SettledIsComponent | 3rdparty/quirc/identify.c:209-285 | a filled set with no pending neighbour is the whole 4-connected component |
| FloodFill.ClosedHoldsPath | 3rdparty/quirc/identify.c:209-285 | a set closed under adjacency holds every path that starts in it |
| RpcFramer.ParseResumes | src/api/RPC.cpp:77-109 | parsing may stop and resume anywhere: same frames, same rest |
| RpcFramer.ParseResumesOnlyIf | src/api/RPC.cpp:88-92 | with a frame of 2^31 bytes or more the cast of its length breaks this, for every continuation |
| RpcFramer.OversizedSwallows | src/api/RPC.cpp:88-92 | such a buffer: a frame of 2^31 zero bytes swallows whatever follows it |
| RpcFramer.ParseInvertsEncode | src/api/RPC.cpp:77-109 | frames written one after another are parsed back, an incomplete tail stays |
| RpcFramer.PrefixIncomplete | src/api/RPC.cpp:79-90 | no proper prefix of a frame is delivered |
| RpcFramer.FeedIsParse | src/api/RPC.cpp:55-59 | for every way of cutting the stream into reads the frames delivered are those of the whole stream |
| RpcFramer.SentIsDelivered | src/api/RPC.cpp:55-109 | what was sent is delivered, in order, whatever the reads |
| RpcFramer.Reader.OnReadyRead | src/api/RPC.cpp:55-59 | appends the read and delivers the frames complete by then |
| RpcFramer.Reader.Swap | src/api/RPC.cpp:144-157 | a new socket starts on a frame boundary: nothing of the old connection is left |
| RpcFramer.DeliveredByConnection | src/api/RPC.cpp:55-157 | over any mix of reads and reconnects the frames delivered are those of each connection's own stream, one connection after the other |
| RpcFramer.Reader.Run | src/api/RPC.cpp:55-157 | the reader delivers exactly these |
| RpcChannel.Preserved | src/api/RPC.cpp:61-109 | every step of callers, reader and failing thread keeps the invariant of calls, slots and log |
| RpcChannel.Reachable | src/api/RPC.cpp:61-234 | the invariant holds in every state of every interleaving |
| RpcChannel.CompletedAtMostOnce | src/api/RPC.cpp:66-108 | each call is completed at most once, and is done exactly when it was |
| RpcChannel.CompletionHasCause | src/api/RPC.cpp:94-107 | a call is completed only by a frame that arrived with its id, or by failing all calls |
| RpcChannel.SuccessIsAnswered | src/api/RPC.cpp:220-233 | a call returns success only with the payload of a frame with its id and status 0 |
| RpcChannel.ReclaimedStaysUndone | src/api/RPC.cpp:204-210 | a caller that reclaimed its slot is completed by nothing and returns an error |
| RpcChannel.ReclaimedStays | src/api/RPC.cpp:204-210 | and stays so in every continuation, whatever arrives later |
| RpcChannel.SecondWaitIsForReader | src/api/RPC.cpp:211-217 | the second wait is entered only for a call that is done or in the reader's hands |
| RpcChannel.FailureReachesAll | src/api/RPC.cpp:66-75 | after failing all calls no registered caller is left waiting for nothing |
| RpcChannel.IdsDistinctUntilWrap | src/api/RPC.cpp:171-171 | ids of calls in flight are distinct until the 32-bit counter has wrapped |
| Poly1305.MultiplyLimbs | 3rdparty/monocypher/monocypher.c:338-343 | the limb products stay below 2^64 and are the product modulo 2^130-5 |
| Poly1305.ReducePartially | 3rdparty/monocypher/monocypher.c:345-358 | partial reduction keeps h at or below 4_ffffffff_ffffffff_ffffffff_ffffffff, every intermediate fits, the value changes by a multiple of the modulus |
| Poly1305.AbsorbBlock | 3rdparty/monocypher/monocypher.c:311-365 | one block: (h + block) * r modulo 2^130-5 |
| Poly1305.Context.constructor | 3rdparty/monocypher/monocypher.c:367-376 | key clamping and padding words as section 2.5 of RFC 8439 says |
| Poly1305.Context.Update | 3rdparty/monocypher/monocypher.c:378-412 | the state stands for the concatenation of all updates |
| Poly1305.Context.Final | 3rdparty/monocypher/monocypher.c:414-441 | the tag is the one of section 2.5 of RFC 8439 for the whole message, however it was split |
| Poly1305.Finish | 3rdparty/monocypher/monocypher.c:425-439 | full reduction and addition of the pad modulo 2^128 |
| Blake2b.Context.constructor | 3rdparty/monocypher/monocypher.c:531-553 | an empty state, or one holding the padded key as a full uncompressed block |
| Blake2b.Context.Compress | 3rdparty/monocypher/monocypher.c:479-485 | the two counter words hold the 128-bit count of bytes, carry included, and the block is compressed with it |
| Blake2b.Context.Update | 3rdparty/monocypher/monocypher.c:560-626 | the state stands for the concatenation; the buffer is its zero-padded tail or a full uncompressed last block |
| Blake2b.Context.Final | 3rdparty/monocypher/monocypher.c:628-638 | the digest is that of section 3.3 of RFC 7693, cut to size, over any compression function |
| Blake2b.SameBytesSameState | 3rdparty/monocypher/monocypher.c:560-626 | contexts fed the same bytes are in the same state, whatever the calls were |
| Blake2b.OrInto | 3rdparty/monocypher/monocypher.c:573-575 | or-ing bytes into the buffer appends them, since it is zero there |
| Argon2.ReferenceIndex | 3rdparty/monocypher/monocypher.c:862-884 | the wrapping window arithmetic finds exactly the block of section 3.4.2 of RFC 9106, inside the work area |
| Argon2.CandidateIsSafe | 3rdparty/monocypher/monocypher.c:862-875 | every candidate is already constructed, is neither the current nor the previous block of its lane, and in another lane is outside the slice being filled |
| Argon2.NothingElseIsLeftOut | 3rdparty/monocypher/monocypher.c:862-875 | and every block that satisfies this is a candidate |
| Argon2.StepSettles | 3rdparty/monocypher/monocypher.c:823-894 | one block filled keeps the work area as specified, whatever the other lanes have done in this slice |
| Argon2.RunFills | 3rdparty/monocypher/monocypher.c:817-820 | every interleaving of the lanes fills a slice with the specified blocks |
| Argon2.AnyOrderFillsTheSame | 3rdparty/monocypher/monocypher.c:817-820 | so the segments of a slice may be computed in any order |
| Argon2.NextSeed | 3rdparty/monocypher/monocypher.c:833-860 | the index block is refreshed so that block b takes its seed from address block b/128 + 1 |
| Argon2.FillBlock | 3rdparty/monocypher/monocypher.c:824-893 | mixes previous and reference block into the current one, in place |
| Argon2.FillMemory | 3rdparty/monocypher/monocypher.c:778-897 | after all passes every block is the one section 3.2 of RFC 9106 defines |
| Argon2.FinalBlock | 3rdparty/monocypher/monocypher.c:903-909 | the final block is the exclusive or of the lanes' last blocks |
| Field25519.Carry | 3rdparty/monocypher/monocypher.c:1137-1152 | for -2^63 <= t0 < 2^63 - 2^25 and the other limbs below 2^62 every step fits 64 bits, the limbs end up within 1.1 * 2^25 and 1.1 * 2^24, the element is unchanged |
| Field25519.NoOverflowIff | 3rdparty/monocypher/monocypher.c:1077-1152 | with the other limbs below 2^62, no step leaves 64 bits if and only if t0 + 2^25 < 2^63 |
| Field25519.DocumentedBoundOverflows | 3rdparty/monocypher/monocypher.c:1077-1152 | t0 = 2^63 - 1, which the comment allows, overflows in the first step |
| Field25519.ProductNum | 3rdparty/monocypher/monocypher.c:1273-1292 | the ten limb sums are the product of the two numbers modulo 2^255-19 |
| Field25519.Terms | 3rdparty/monocypher/monocypher.c:1261-1292 | within the loose bounds no 32- or 64-bit overflow in any product or running sum, and the sums are the schoolbook product |
| Field25519.SumsFit | 3rdparty/monocypher/monocypher.c:1273-1292 | every running sum of every limb stays below 2^62 |
| Field25519.Mul | 3rdparty/monocypher/monocypher.c:1257-1305 | field multiplication with a tight result |
| Field25519.SquareTerms | 3rdparty/monocypher/monocypher.c:1315-1344 | the merged products of squaring are those of multiplication |
| Field25519.Sq | 3rdparty/monocypher/monocypher.c:1313-1357 | field squaring with a tight result |
| Field25519.MulSmall | 3rdparty/monocypher/monocypher.c:1237-1248 | multiplication by any 32-bit integer |
| Field25519.Add | 3rdparty/monocypher/monocypher.c:976-976 | sums of tight elements are loose |
| Field25519.Sub | 3rdparty/monocypher/monocypher.c:977-977 | differences of tight elements are loose |
| FieldBytes.SignOf | 3rdparty/monocypher/monocypher.c:1195-1209 | the carry chain stays within 32 bits and finds 0 for a number that is not negative, -1 for a negative one |
| FieldBytes.ReduceLimbs | 3rdparty/monocypher/monocypher.c:1210-1216 | the final carry chain stays within 32 bits and leaves every limb in its positive range |
| FieldBytes.ToBytes | 3rdparty/monocypher/monocypher.c:1193-1228 | the bytes are the unique representative in [0, 2^255-19), with no 32-bit overflow on the way |
| FieldBytes.ChainsFit | 3rdparty/monocypher/monocypher.c:1195-1216 | no intermediate of either carry chain leaves 32 bits |
| FieldBytes.FromBytes | 3rdparty/monocypher/monocypher.c:1160-1179 | the element the bytes spell without their top bit, with tight limbs |
| FieldBytes.Normalise | 3rdparty/monocypher/monocypher.c:1160-1228 | decoding and encoding reduces the number modulo 2^255-19 |
| MontgomeryLadder.LadderStep | 3rdparty/monocypher/monocypher.c:1542-1561 | every operation of a step finds its operands within bounds, the result is the step of section 5 of RFC 7748 and tight again |
| MontgomeryLadder.OtherConstant | 3rdparty/monocypher/monocypher.c:1555-1561 | 121666 E + BB equals the RFC's 121665 E + AA |
| MontgomeryLadder.ScalarMult | 3rdparty/monocypher/monocypher.c:1519-1561 | the loop with its delayed swaps computes the plain ladder for every scalar and every point |
| Words32.Multiply | 3rdparty/monocypher/monocypher.c:1605-1616 | p becomes a*b plus the lower half of p; this is a*b + p if and only if the upper half was zero |
| Words32.MultiplyForgets | 3rdparty/monocypher/monocypher.c:1605-1616 | with p = 2^256 and zero factors nothing of p is left |
| ScalarModL.IsAboveL | 3rdparty/monocypher/monocypher.c:1618-1628 | the complement addition decides x >= L |
| ScalarModL.RemoveL | 3rdparty/monocypher/monocypher.c:1634-1643 | subtracts L exactly when x >= L |
| ScalarModL.BarrettBound | 3rdparty/monocypher/monocypher.c:1646-1688 | the quotient estimate is at most one too small for every x below 2^512 |
| ScalarModL.ModL | 3rdparty/monocypher/monocypher.c:1646-1688 | x mod L for every x below 2^512 |
| ScalarModL.EddsaMulAdd | 3rdparty/monocypher/monocypher.c:1699-1714 | (a*b + c) mod L for all 32-byte inputs |
| ScalarModL.Redc | 3rdparty/monocypher/monocypher.c:2784-2820 | for x below L * 2^256 the result is below L and times 2^256 congruent to x |
| ScalarModL.MontMul | 3rdparty/monocypher/monocypher.c:2855-2863 | a Montgomery product of reduced numbers |
| ScalarModL.InverseModL | 3rdparty/monocypher/monocypher.c:2822-2870 | the loop ends with scalar^(L-2) mod L |
| SlidingWindow.WindowIsSigned | 3rdparty/monocypher/monocypher.c:1976-1982 | a window contributes exactly the difference of the signed values above and below it |
| SlidingWindow.OpenWindow | 3rdparty/monocypher/monocypher.c:1976-1990 | its digit is odd, below 2^(width-1) in size and placed at its lowest set bit |
| SlidingWindow.Slide.constructor | 3rdparty/monocypher/monocypher.c:1949-1968 | starts one above the top bit of any scalar below 2^253 |
| SlidingWindow.Slide.Step | 3rdparty/monocypher/monocypher.c:1970-1994 | digit times 2^i plus what remains is what remained before; nonzero digits are odd and small, so each names an entry of its table |
| SlidingWindow.Ladder | 3rdparty/monocypher/monocypher.c:2034-2050 | the digits of both scalars add up to exactly the scalars |
| LatencyOrder.StrictWeakOrder | src/configs/AutoSelectorPlan.cpp:140-147 | the comparison is a strict weak order |
| LatencyOrder.StableSortIsStable | src/configs/AutoSelectorPlan.cpp:150-159 | sorting loses and adds nobody and keeps ties in order |
| LatencyOrder.StableSortUnique | src/configs/AutoSelectorPlan.cpp:156-158 | there is only one stable way to sort |
| SelectorPlan.CountTransitions | src/configs/AutoSelectorPlan.cpp:97-110 | the number of hops, among those that exist, on another core than the hop before, sing-box coming first |
| SelectorPlan.BuildableIff | src/configs/generate.cpp:1451-1452 | any chain switches at most twice if and only if it is a sing-box chain, an Xray chain and a sing-box chain, each optional |
| SelectorPlan.VerdictMeans | src/configs/AutoSelectorPlan.cpp:198-213 | a member passes if and only if nothing speaks against itself and its chain can be built; refused for core switches are exactly the sing-box members between two Xray proxies, refused as chained exactly the full configs that do not fit |
| SelectorPlan.Conservation | src/configs/AutoSelectorPlan.cpp:195-235 | members in the groups are the eligible and the skipped ones, each counted once |
| AutoSelector.Judge | src/configs/AutoSelectorPlan.cpp:198-213 | the branches of the scan give the verdict; whoever passes can be built in its chain, and whoever is refused for core switches sits on sing-box between two Xray proxies |
| AutoSelector.Scan | src/configs/AutoSelectorPlan.cpp:184-221 | members, failed members and counters after all groups, each id judged once in its first group |
| AutoSelector.EligibleMembers | src/configs/AutoSelectorPlan.cpp:161-236 | members with no objection, or those whose last test failed when nobody else is left; all counters of the plan; both errors |
| AutoSelector.SortByLatency | src/configs/AutoSelectorPlan.cpp:150-159 | sorts by latencies read once, untrusted members as untested |
| AutoSelector.OrderMembers | src/configs/AutoSelectorPlan.cpp:239-259 | persisted members in their order, then newcomers by latency |
| PoolPlanner.FirstsDistinct | src/configs/AutoSelectorPlan.cpp:195-197 | no id is tracked twice, and never the selector itself |
| PoolPlanner.FirstsComplete | src/configs/AutoSelectorPlan.cpp:195-197 | every other id of an existing group is tracked |
| PoolPlanner.PoolKeepsOrder | src/configs/AutoSelectorPlan.cpp:239-259 | which members come first, and that the others follow stably sorted |
| PoolPlanner.OrderedPermutes | src/configs/AutoSelectorPlan.cpp:239-259 | ordering neither loses, adds nor repeats a member |
| PoolPlanner.PoolIsSound | src/configs/AutoSelectorPlan.cpp:282-321 | the pool is free of duplicates, eligible, capped and without the selector itself; truncation and the counters are consistent |
| PoolPlanner.PlanIsFixedPoint | src/configs/AutoSelectorPlan.cpp:282-321 | planning again with the planned pool stored gives the same plan |
| AutoSelector.Selector.PlanAutoSelector | src/configs/AutoSelectorPlan.cpp:282-321 | the plan as specified, errors included |
| AutoSelector.Selector.AutoSelectorBuildChanged | src/configs/AutoSelectorPlan.cpp:371-390 | true exactly when a built member would be dropped or a working one added |
| AutoSelector.BuiltPlanIsUnchanged | src/configs/AutoSelectorPlan.cpp:371-390 | a plan that is stored and built is unchanged |
| AutoSelector.Selector.RerankAutoSelectorPool | src/configs/AutoSelectorPlan.cpp:392-405 | stores the sorted and capped members |
| AutoSelector.PlanTakesRerankedPool | src/configs/AutoSelectorPlan.cpp:392-405 | the next plan takes a reranked pool as it is |
| RuleOrder.NumbersAreConsecutive | src/database/Database.cpp:450-452 | numbering a partition by rank gives 0 to n-1, each once |
| RuleOrder.NumberingCloses | src/database/Database.cpp:450-452 | numbered rows keep partition and order, and each partition's positions are 0 to n-1 |
| BackupTables.RulesRenumbered | src/database/Database.cpp:430-455 | when rules were skipped, the survivors of each profile stay in it, in their order, numbered 0 to n-1 |
| BackupTables.CopyRows | src/database/Database.cpp:430-474 | skip count, wipe, selection, renumbering and insertion, row by row, give the specified table |
| BackupTables.ForeignRulesDropped | src/database/Database.cpp:430-439 | a rule survives exactly when every column this schema lacks holds a harmless value |
| BackupTables.CopiedIds | src/database/Database.cpp:422-475 | copying an id table replaces its ids by the backup's |
| BackupTables.CopiedSettings | src/database/Database.cpp:458-474 | kept keys have their old value, all others the backup's |
| SelectiveRestore.IdExists | src/database/Database.cpp:492-496 | whether a row with the id exists |
| SelectiveRestore.MinId | src/database/Database.cpp:498-502 | the lowest id, none for an empty table |
| SelectiveRestore.FirstShown | src/database/Database.cpp:597-598 | the first existing group in display order, none if no listed group exists |
| SelectiveRestore.DefaultUnique | src/database/Database.cpp:597-599 | there is one such default group |
| SelectiveRestore.Database.SetSettingId | src/database/Database.cpp:485-490 | writes one setting, spelled as the id, and changes no other |
| SelectiveRestore.Database.CopyTable | src/database/Database.cpp:422-475 | one table copied row by row, or left alone when either side lacks it; the number of rows skipped |
| SelectiveRestore.Database.CopyParts | src/database/Database.cpp:573-582 | each table is the backup's or untouched; markers are cleared when settings come without them; the number of skipped rules |
| SelectiveRestore.Database.ResolveRemembered | src/database/Database.cpp:586-592 | forgets a profile that is gone or came from elsewhere, and keeps any other |
| SelectiveRestore.Database.ResolveGroup | src/database/Database.cpp:594-601 | keeps a good current group, else takes the first shown or lowest one |
| SelectiveRestore.Database.ResolveRoute | src/database/Database.cpp:602-607 | keeps a good current route profile, else takes the lowest |
| SelectiveRestore.Database.UnlinkParts | src/database/Database.cpp:611-614 | cuts every link between groups and route profiles and changes no id |
| SelectiveRestore.Database.RaiseCounters | src/database/Database.cpp:616-651 | counters never fall and cover every id of their tables and the backup's counters |
| SelectiveRestore.Database.RestoreSelective | src/database/Database.cpp:537-653 | for every choice of parts and tables of the backup: the exact value of every setting, links across parts of different origin cut, surviving rules numbered 0 to n-1 in each profile, counters raised, all else the backup's or untouched |
| SelectiveRestore.RestoredIds | src/database/Database.cpp:584-608 | after any restore every id setting resolves, ids that did not come with their replaced table are reset, and ids whose table stayed are left alone |
| SelectiveRestore.PreservedStayIff | src/database/Database.cpp:558-608 | a setting that is preserved, or whose part is not restored, is unchanged if and only if its id does not become stale: remember_id unset, negative or naming a profile that stays; current_group and current_route_id naming a row that stays, or no rows being there, or already the default |
| SelectiveRestore.PreservedCanChange | src/database/Database.cpp:586-592 | restoring the profiles of a database's own backup overwrites a preserved remember_id |

## Left out

- Elliptic-curve group law, Elligator, comb and window tables, primality of the moduli, constant-time behaviour and wiping: number theory outside the code, or not functional properties.
- fe_invert and invsqrt.
- ChaCha20 rounds, the BLAKE2b rounds and Argon2's g_rounds: arbitrary functions here; nothing about their strength is stated. The hashing of Argon2's inputs and output is a parameter.
- Field elements are values, not arrays overwritten in place: aliasing of operands and results in fe_mul and its kin is not captured. The same holds for the words passed to mod_l and redc.
- Or-ing of disjoint bit ranges in fe_tobytes is written as addition.
- Correction of two or more errors by Berlekamp-Massey: the connection property is proved for every syndrome sequence, the repair for one error.
- FormatCode.CorrectFormat: the bits flipped by Berlekamp-Massey over the field of sixteen elements are given by an arbitrary function, because a clean copy is never repaired; that one to three damaged bits are restored is not stated.
- QrMatrix.QrCode.Draw: the penalty scores of the trial masks are given, not computed from the modules; any mask can be read back.
- MontgomeryLadder.ScalarMult: ends with the projective result, before fe_invert and the encoding to bytes.
- SelectiveRestore.FirstShown: groups with equal display order are taken in row order, where SQLite leaves the order open.
- The tables of block layouts, and quirc's table of alignment centres: parameters, with the conditions the proofs need stated.
- Kanji and ECI: decoded for every stream, but there is no kanji or ECI encoder.
- quirc's image side: perspective transforms, threshold, capstone search, fitness.
- RPC: the sockets, the dispatch of writes, the relation between connected_ and the live socket, and the per-method wrappers. Two calls in flight with the same id after the counter has wrapped are excluded.
- SQLite: failure and rollback of a statement, unique constraints of the backup, WAL, VACUUM, file handling and backupSelective. The application's own tables are taken to exist with their id columns; settings and markers may be missing.
- Auto selector: parsing of filters, Normalize, the repositories and regular expressions are given as values and predicates; the null checks on the profile and the texts of errors are left out. Both readings of the clock are one.
