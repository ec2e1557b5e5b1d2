# JPEG entropy coding, verified

A Dafny model of the compressor's entropy-coding back end of libjpeg-turbo 3.2 (`jpeg/jc*.c`), of the scheduling and
the coefficient controllers around it, and of the reciprocal quantiser. Routines that update state are methods with
loops and fields here, each proved against a specification function; the decoders are written from ITU-T T.81 and
from the library's own decoders (`jpeg/jd*.c`), and close every path with a round trip.

`dafny verify dfyconfig.toml` checks the whole project.

## What is modelled

- **Arithmetic coding** (`IntervalCoder`, `ProbabilityTable`, `ArithEncoder`, `ArithDecoder`, `ArithModel`, `ArithMcu`,
  `ArithScan`, `ArithReader`, `ArithRoundTrip`, `ArithStream`). The ideal coder is an interval with an unbounded base.
  The byte-emitting encoder, with its delayed carry, stacked 0xFF bytes, pending zeros and truncated end, denotes that
  coder at every step. The decoder's registers are placed in the same interval, it has statistics of its own, and its
  parser picks the next bin from the decisions it has already decoded.
- **Huffman tables** (`HuffmanForest`, `HuffmanOptimal`, `HuffmanTree`, `CodeLengths`, `HuffmanTable`,
  `HuffmanResults`, `HuffmanCodes`, `HuffmanDerivation`, `OptimizedTables`). The merge loop works in place on its
  arrays; a ghost run of merges carries the invariants: the Kraft equality of every tree, minimal cost, and the
  pseudo-symbol in the longest class.
- **Bit writers** (`Words`, `BitLogs`, `BitWriters`). The 64- and 32-bit word writer and the 24-bit byte writer
  append to one log of bits.
- **Sequential Huffman scans** (`HuffmanItems`, `SeqHuffman`, `HuffmanScan`, `HuffmanEncoder`,
  `HuffmanTransmission`). A scan is a list of symbols and raw bits; one pass counts the list that the other writes.
- **Progressive Huffman scans** (`ProgressiveBands`, `ProgressiveDecoding`, `ProgressiveScan`, `ProgressiveEncoder`,
  `ProgressiveRoundTrip`, `Progression`, `ScriptDecoding`, `ProgressiveTransmission`, `ScriptLayout`), from end-of-band
  runs and held-back correction bits to whole scan scripts.
- **DC prediction** (`DcPrediction`, `SequentialPrediction`, `ProgressivePrediction`, `ArithPrediction`): what every
  kind of scan codes as DC differences, stated over its blocks without any state, restarts included.
- **Scan scripts and passes** (`ScanScript`, `SimpleProgression`, `PassScheduler`).
- **Dimensions and coefficient controllers** (`McuLayout`, `ScanSetup`, `CoefControllers`, `TranscodeController`,
  `BlockPlaces`): how an image divides into MCUs, three ways to build them, and one reference.
- **Quantiser** (`Quantizer`), and the **lossless path** (`LosslessPrediction`, `LosslessScan`, `LosslessEncoder`,
  `LosslessRoundTrip`, `LosslessTransmission`).

The forward DCT is an arbitrary function from positions to blocks. Output is an append-only sequence of bytes.
`ERREXIT` is a failing result. A scan's component tables, restart interval and scanning order are parameters.

## Findings

Two properties that the design suggests are false of the code, and hold under exactly these conditions:

- **DC differences in arithmetic coding.** The encoder (`jpeg/jcarith.c:719-760`) codes a DC difference of any
  magnitude, and 16-bit coefficients can differ by up to 65535; a decoder gives up on magnitudes above 32768
  (`jpeg/jdarith.c:545-556`). `ArithMcu.ScanRoundTrip` says that a scan comes back if every difference is at most
  32768, and that the decoder stops otherwise; `ArithMcu.LargeDifferenceIsLost` gives two blocks of 16-bit
  coefficients that are lost.
- **Large quantisation table entries.** `compute_reciprocal` takes a 16-bit divisor, and the accurate DCT passes eight
  times the table entry (`jpeg/jcdctmgr.c:164-165`, `jpeg/jcdctmgr.c:262-270`). `Quantizer.FormsAgree` says that the
  reciprocal form quantises like the division form for every coefficient if and only if the entry is at most 8191.

`Quantizer.NegationBoundary` marks the one word value that quantising cannot take: the smallest one, whose negation
does not fit (`jpeg/jcdctmgr.c:433-440`).

The comment at `jpeg/jchuff.c:955-959` relies on the pseudo-symbol being in the longest class; it is true because ties
are broken towards the larger index, and `HuffmanTree.RunDeepest` proves it.

## Model

| member | source | states |
|---|---|---|
| ProbabilityTable.Unpack | jpeg/jaricom.c:26-157 | every packed entry of the table gives back its estimate, next states and switch bit, and all of them stay in the table |
| ProbabilityTable.TableAdapts | jpeg/jaricom.c:26-157 | over the whole table, a more probable symbol goes on to the next state or back to a fast one and lowers the estimate, and a less probable one raises it or changes sides, near one half |
| ProbabilityTable.FixedEstimate | jpeg/jaricom.c:152-156 | the last state keeps its estimate of about one half and its sense, whichever symbol is coded |
| IntervalCoder.SubIntervals | jpeg/jcarith.c:238-265 | the two symbols divide the interval without a gap, the upper part has the size of the estimate, and the more probable symbol has the larger part |
| IntervalCoder.EncodeAllContains | jpeg/jcarith.c:224-317 | a value inside the interval after any decisions is inside the interval before them |
| ArithEncoder.Encoder.Encode | jpeg/jcarith.c:224-317 | bytes already out, pending zeros, buffered byte, stacked 0xFF bytes and registers together denote the ideal coder's next state; no carry escapes the buffered byte, which is never 0xFF |
| ArithEncoder.Encoder.Finish | jpeg/jcarith.c:138-217 | the destuffed segment, continued with zeros, lies in the final interval although trailing zero bytes are dropped, and it never ends in a zero byte |
| ArithDecoder.Decoder.Decode | jpeg/jdarith.c:114-191 | the decoder returns the decision that was coded, and its bins and interval follow the encoder's |
| ArithDecoder.Decoder.ReadMarker | jpeg/jdmarker.c:891-936 | whatever of a segment is still unread, the marker found is the one that ends the segment |
| ArithRoundTrip.EncodeAndDecode | jpeg/jcarith.c:138-317 | any decisions in any bins come back, and both sides end with the same statistics |
| ArithModel.DcRoundTrip | jpeg/jcarith.c:719-767 | a DC difference is read back if and only if its magnitude is at most 32768 |
| ArithModel.AcRoundTrip | jpeg/jcarith.c:769-817 | the decisions of a band determine its coefficients, and the parser stops exactly at their end |
| ArithModel.RefineRoundTrip | jpeg/jcarith.c:592-679 | the decisions of a refinement add exactly one bit to every coefficient, given the coarser ones |
| ArithModel.DcContextMeans | jpeg/jcarith.c:735-757 | the context after a difference is that of table F.4 in terms of its magnitude: none up to 2^(L-1), small up to 2^U, large above, each with its sign |
| ArithModel.AreasApart | jpeg/jcarith.c:863-885 | the statistics areas of different tables, those for DC and for AC, and the fixed bin have no bin in common |
| ArithModel.MagnitudesApart | jpeg/jcarith.c:786-816 | inside an AC area the magnitudes below and above Kx have separate bins, behind those of the coefficients |
| ArithMcu.ScanRoundTrip | jpeg/jcarith.c:324-820 | a scan of any kind comes back MCU by MCU across restarts if its DC differences fit, and the parser gets stuck otherwise |
| ArithMcu.LargeDifferenceIsLost | jpeg/jcarith.c:719-767 | two blocks of 16-bit coefficients whose scan is coded and cannot be parsed |
| ArithMcu.ScanBins | jpeg/jcarith.c:827-900 | every decision of a scan of 16-bit coefficients, across restarts, uses a bin that exists |
| ArithScan.EntropyModel.EncodeScan | jpeg/jcarith.c:324-820 | the encoder's loops emit exactly the decisions of the reference trace, cut at the restart intervals |
| ArithPrediction.DifferencesLookBack | jpeg/jcarith.c:337-347 | over the blocks alone: in every restart interval the first block of a component has its own DC value as the difference in the context of no difference, and every other one is predicted from its component's block before |
| ArithReader.DecodeMcu | jpeg/jdarith.c:504-624 | a decoder that chooses each bin from the decisions so far reads what the parser reads from the encoder's trace |
| ArithRoundTrip.TransmitScan | jpeg/jcarith.c:138-820 | a scan coded segment by segment decodes to what it conveys, or to nothing when a DC difference does not fit |
| ArithRoundTrip.FirstStatistics | jpeg/jcarith.c:870-931 | at the start of a segment the fixed bin is in state 113, where any decisions leave it, and every other bin is in state 0 and expects a zero |
| ArithStream.EncodeStream | jpeg/jcarith.c:324-364 | one stream holds all segments in order, each but the last followed by the next restart marker; only the areas are cleared in between, as the fixed bin has not moved |
| ArithStream.DecodeStream | jpeg/jdarith.c:198-242 | from such a stream the decoder, with statistics of its own, gets the parser's result, finding each next segment behind the expected marker |
| ArithStream.TransmitStream | jpeg/jcarith.c:138-820 | blocks to one stream with markers and back: everything the scan conveys arrives |
| HuffmanTree.MergeTrees | jpeg/jchuff.c:972-1024 | for all counts the code sizes fill the code space, are no costlier than any sizes satisfying Kraft's inequality, and the last symbol's size is the largest |
| HuffmanResults.NoPrefixCodeIsCheaper | jpeg/jchuff.c:972-1024 | no prefix code whatsoever has a smaller sum of counts times lengths |
| HuffmanTable.LimitCounts | jpeg/jchuff.c:1047-1077 | afterwards no length is over 16, the number of codes is that of the real symbols, and every level of the code space keeps room; nothing changes for codes that were short enough |
| HuffmanTable.GenOptimalTable | jpeg/jchuff.c:929-1091 | succeeds exactly if an optimal code fits 32 bits; then the list holds each used real symbol once in order of optimal size, without gaps |
| HuffmanResults.GeneratedAccepted | jpeg/jchuff.c:1026-1087 | every generated table passes all checks of the derivation |
| HuffmanResults.CountedHaveCodes | jpeg/jchuff.c:1079-1087 | every counted symbol has a code of 1 to 16 bits |
| HuffmanResults.UnlimitedSizes | jpeg/jchuff.c:1047-1077 | when no optimal size is over 16 bits, the derived codes have the optimal sizes |
| HuffmanDerivation.MakeDerivedTable | jpeg/jchuff.c:251-315 | fails exactly for tables that are not acceptable; otherwise gives each listed symbol its canonical code and the others none |
| HuffmanCodes.PrefixFree | jpeg/jchuff.c:274-290 | no code word of an accepted table is a prefix of another |
| HuffmanCodes.DecodeWord | jpeg/jdhuff.c:436-483 | collecting bits until the code is at most the largest of its length finds the symbol and consumes exactly its word |
| BitWriters.WordWriter.PutBits | jpeg/jchuff.c:401-418 | the bits since the last marker grow by exactly the code, whatever is left in the high bits of the word |
| BitWriters.WordWriter.FlushBits | jpeg/jchuff.c:469-513 | the data bytes are the bits so far, padded with fewer than eight ones |
| BitWriters.ByteWriter.EmitBits | jpeg/jcphuff.c:309-345 | the byte-wise writer appends to the same log of bits, and refuses a size of zero |
| BitWriters.ByteWriter.FlushBits | jpeg/jcphuff.c:348-354 | the padding is that of the word writer |
| BitWriters.ScanSegments | jpeg/jchuff.c:650-668 | splitting the stuffed output at its restart markers gives back the data bytes of every segment |
| SeqHuffman.BlockRoundTrip | jpeg/jchuff.c:545-643 | a block in range is recovered from its items, DC prediction and all 63 AC coefficients, with exactly its bits consumed |
| ZigZag.ZigZagWalk | jpeg/jchuff.c:619-630 | the order of the coefficients is the diagonal walk from the top left corner, turning at the edges |
| HuffmanItems.TablesApart | jpeg/jchuff.c:1098-1140 | DC and AC statistics, and those of different table numbers, are kept apart |
| HuffmanEncoder.SequentialEncoder.EncodeScan | jpeg/jchuff.c:675-770 | succeeds exactly if every value is in range; then the padded segments hold exactly the scan's items, whose DC differences are those of the blocks alone, from zero in every interval |
| HuffmanEncoder.StatisticsGatherer.GatherScan | jpeg/jchuff.c:794-897 | succeeds on the same scans, and counts exactly the symbols of the same items |
| HuffmanScan.StatisticsCover | jpeg/jchuff.c:794-897 | codes for all counted symbols suffice for the output pass |
| SequentialPrediction.DifferencesLookBack | jpeg/jchuff.c:650-770 | over the blocks alone: in every restart interval the first block of a component is coded with its own DC value as the difference, and every other one with its own less that of its component's block before |
| HuffmanEncoder.EncodedScanDecodes | jpeg/jchuff.c:650-770 | the bytes of a scan, up to the next marker that is no restart marker, decode to its blocks for any accepted tables that cover its symbols |
| OptimizedTables.GeneratedTablesServe | jpeg/jchuff.c:1098-1140 | tables generated from a statistics pass are accepted, read back every code, and cover the scan they were counted from |
| HuffmanTransmission.TransmitOptimized | jpeg/jchuff.c:675-1140 | statistics, tables, output and decoding in one: all blocks come back in natural order, and it fails only for a value out of range or an optimal code over 32 bits |
| ProgressiveBands.DelayedIsImmediate | jpeg/jcphuff.c:396-419 | holding back end-of-band runs and correction bits leaves the sequence of symbols and bits that a decoder expects |
| ProgressiveDecoding.SegmentRoundTrip | jpeg/jcphuff.c:635-1004 | the items of the blocks of one AC segment, runs across blocks included, give back every coefficient of the band |
| ProgressiveEncoder.Encoder.EncodeAcFirst | jpeg/jcphuff.c:567-720 | one block of a first scan writes exactly its reference step and leaves the run the reference leaves; fails only for a value out of range or a missing code |
| ProgressiveEncoder.Encoder.EncodeAcRefine | jpeg/jcphuff.c:804-1004 | the same for a refinement scan; the buffer of correction bits never overflows |
| ProgressiveEncoder.Encoder.EncodeScan | jpeg/jcphuff.c:425-1060 | counting succeeds exactly if all values are in range and counts exactly the scan's symbols; writing also needs a code for each of them, and then holds exactly the scan's items |
| ProgressivePrediction.DifferencesLookBack | jpeg/jcphuff.c:425-520 | over the blocks alone: the first DC scan of a progression codes the differences of the shifted values inside each restart interval, from zero |
| Coefficients.PointTransformTruncates | jpeg/jcphuff.c:573-620 | the point transform of an AC coefficient drops exactly the al lowest bits of its magnitude and keeps its sign |
| Coefficients.ShiftRightFloors | jpeg/jcphuff.c:487-490 | that of a DC coefficient is the quotient by 2^al, rounded down |
| ProgressiveRoundTrip.EncodedProgressiveScanDecodes | jpeg/jcphuff.c:425-1020 | the bytes hold one segment per restart interval, and each brings the coefficients to bit Al from whatever the scan before left |
| Progression.ScanDelivers | jpeg/jcphuff.c:635-1004 | an AC scan changes its band alone, in blocks that hold the band one bit coarser and anything elsewhere |
| Progression.ProgressionDelivers | jpeg/jcphuff.c:635-1004 | a band sent from some bit down to bit 0 ends exact, and the rest of the blocks stays as it was |
| ScriptDecoding.ScriptDelivers | jpeg/jcmaster.c:275-436 | decoding all scans of an accepted script in order, across restarts, gives each coefficient of each component to its last bit position |
| ScriptDecoding.SimpleProgressionDelivers | jpeg/jcparam.c:476-560 | the standard progression delivers the image exactly |
| ScriptLayout.EveryBlockListed | jpeg/jccoefct.c:263-350 | what is delivered for a component is the DCT block of every row and column, row by row, and nothing else |
| ScriptLayout.SpotTables | jpeg/jcmaster.c:546-556 | every block of a component, dummy blocks included, is coded as that component, with its own tables |
| ScanSetup.SpotBelongs | jpeg/jcmaster.c:533-557 | the membership of an MCU names component i exactly where the blocks of component i are |
| ScanSetup.Setup.InitialSetup | jpeg/jcmaster.c:163-265 | accepts exactly the images with sizes and sampling factors in range; then the largest factors are attained and not exceeded, and every dimension is the layout's |
| ScanSetup.Setup.PerScanSetup | jpeg/jcmaster.c:483-574 | accepts exactly the scans of up to four components and ten blocks an MCU; dimensions, last columns and rows, membership and the restart interval are the layout's |
| ProgressiveTransmission.TransmitScript | jpeg/jcphuff.c:425-1070 | every scan of a script gets tables made for it, is written and decoded, and the image arrives at the script's precision |
| ScriptLayout.TransmitImage | jpeg/jccoefct.c:358-426 | the same from an image's DCT blocks, with the MCUs the controllers deliver; exact for the standard progression |
| ScanScript.ValidateScript | jpeg/jcmaster.c:275-436 | accepts exactly the scripts in which every coefficient descends bit by bit from its first scan, DC comes first and is sent for all components, or which send each component once |
| SimpleProgression.MakeSimpleProgression | jpeg/jcparam.c:416-560 | writes exactly as many scans as there is room for |
| SimpleProgression.SimpleAccepted | jpeg/jcparam.c:476-560 | the standard script is accepted for every number of components and sends every coefficient down to bit 0 |
| PassScheduler.Master.Compress | jpeg/jcapimin.c:180-235 | every run ends with all passes done and outputs each scan once in order; with optimisation every scan with Ss above 0 or Ah of 0 directly follows a statistics pass of its own, and there are no other such passes |
| PassScheduler.HeadersInOrder | jpeg/jcmaster.c:577-713 | the frame header is written once, before the first scan header, and the scan headers follow in script order |
| CoefControllers.OnePassController.CompressData | jpeg/jccoefct.c:146-252 | however often it is suspended and resumed, exactly the reference MCUs are sent, dummy blocks included |
| CoefControllers.BufferedController.CompressFirstPass | jpeg/jccoefct.c:263-350 | the first pass stores every block and dummy block, and sends the same MCUs |
| CoefControllers.BufferedController.CompressOutput | jpeg/jccoefct.c:359-426 | every later scan sends its reference MCUs from the buffer |
| TranscodeController.Transcoder.CompressOutput | jpeg/jctrans.c:296-365 | dummy blocks made on the fly give the same MCUs |
| McuLayout.SameMcus | jpeg/jcmaster.c:483-565 | every component is as many MCUs wide and high as the image |
| McuLayout.McusCover | jpeg/jcmaster.c:224-228 | the MCUs, of 8 times the largest sampling factors, cover the image's samples, and one MCU less would not |
| McuLayout.BlocksCover | jpeg/jcmaster.c:243-248 | the blocks of a component cover its samples, and one block less would not |
| BlockPlaces.EveryBlockPlaced | jpeg/jccoefct.c:146-252 | every block of every component of a scan is in it, at a place computed from its row and column |
| BlockPlaces.DummyRepeats | jpeg/jccoefct.c:176-203 | every block beyond the edges repeats the DC value of the block before it in its MCU, which is of the same component, and has no AC coefficients |
| Quantizer.ComputeReciprocal | jpeg/jcdctmgr.c:164-228 | for every 16-bit divisor, multiplying and shifting rounds like dividing, for every magnitude of the word, within the widths of the types |
| Quantizer.Quantize | jpeg/jcdctmgr.c:416-440 | every coefficient whose quotient fits 16 bits is the nearest quotient, away from zero at ties; the others keep its low 16 bits |
| Quantizer.QuantizeByDivision | jpeg/jcdctmgr.c:442-485 | the division form gives the same rounding, and the same low 16 bits |
| Quantizer.CoefficientStored | jpeg/jcdctmgr.c:438-482 | what is stored is a 16-bit number congruent to the quotient, and the nearest quotient itself if that fits |
| Quantizer.FormsAgree | jpeg/jcdctmgr.c:262-270 | both forms agree on all coefficients if and only if the table entry is at most 8191 |
| LosslessPrediction.RowRestored | jpeg/jclossls.c:59-118 | undoing the differences of a row modulo 2^16 gives its samples back, for every predictor |
| LosslessPrediction.PredictorsMean | jpeg/jlossls.h:37-43 | the seven predictors of table H.1, halves rounded down |
| LosslessScan.DifferencesAre | jpeg/jclossls.c:59-102 | the first sample of an interval is differenced from half the range, the rest of its row from the left, the first of every other row from above, and all others from the predictor |
| LosslessEncoder.Differencer.DifferenceRow | jpeg/jclossls.c:59-302 | a row is differenced as a first row exactly at the start of the scan or of a restart interval |
| LosslessEncoder.CompressScan | jpeg/jcdiffct.c:156-245 | the two restart counters stay in step; counting counts, and writing holds, exactly the items of the scan, and it fails only for a missing code |
| LosslessScan.RowsRoundTrip | jpeg/jclhuff.c:319-470 | the items of the rows of an interval give all samples back, a difference of 32768 included |
| LosslessRoundTrip.EncodedLosslessScanDecodes | jpeg/jclhuff.c:222-420 | the bytes of a scan decode to its samples, interval by interval |
| LosslessTransmission.TransmitLossless | jpeg/jclhuff.c:319-560 | statistics, tables, output and decoding in one: the samples come back, unchanged without a point transform |

## Left out

- Suspension in the Huffman and arithmetic encoders, destination managers and memory pools: output is appended to a sequence.
- Suspension in the lossless difference controller: rows are coded without interruption (`jpeg/jcdiffct.c:222` does not count the MCUs consumed); the second component loop of `compress_data` over `max_v_samp_factor` is one row, as lossless sampling factors are one (`jpeg/jcmaster.c:753-763`).
- The decoder's lookahead tables and its fast path (`jpeg/jdhuff.c:662`), and its substitution of zeros for bad codes: a decoder that meets an unknown code fails.
- A run of zeros past coefficient 63 makes the Huffman decoder of the model fail, where the library's decoder ignores it; the encoder never writes one.
- The 32-bit variant of the zero bitmaps of `jpeg/jcphuff.c`, and SIMD code.
- OptimizedTables.MakeTables: makes a table for every number, and derives all of them with the bound for AC symbols; the source makes only the tables of the scan's components, and uses a smaller bound for DC symbols, which `HuffmanDerivation.MakeDerivedTable` takes as a parameter.
- HuffmanTable.GenOptimalTable: assumes at most 254 real symbols and counts that sum to less than 10^9, as the 8-bit counters and the constant at `jpeg/jchuff.c:982-983` do.
- HuffmanEncoder.SequentialEncoder.EncodeScan: does not say what a symbol without a code writes; `jpeg/jchuff.c:412-428` does not check for one, so the round trip asks for tables that cover the scan, while the progressive and lossless encoders fail (`jpeg/jcphuff.c:318-319`).
- Quantizer.ComputeReciprocal: its return value and the scale entry of the table, which only SIMD code uses, are not modelled.
- Quantizer.Quantize: the smallest value of the word is excluded, as its negation is undefined; the forward DCT does not deliver it, which is not part of this model.
- ArithStream.EncodeStream: clears all statistics areas before a segment, where the source clears those of the scan's components; the decisions of a component stay inside those (`ArithModel.DcWithin`, `ArithModel.AcWithin`).
- ScanSetup.Setup.InitialSetup: the checks of sample precision and of the number of input components, the limits of machine words, and lossless data units of one sample are not part of it.
- ArithReader.DecodeMcu: the decoder is followed on what the encoder wrote; after a DC difference that does not fit, it gives up, and only the parser of `ArithMcu` says so.
- Progressive output files hold the entropy-coded data of one scan each: markers other than restart markers are not part of this model.
- The floating-point and fast integer DCTs and their divisors, colour conversion, downsampling, marker and ICC writing, and the command-line tools.
