# The entropy coding engine of libjpeg-turbo

A model in Dafny of the code under `3rdparty/libjpeg-turbo_2_1_0` that turns quantised coefficients into bytes and back,
and of the control code around it, with proofs about all inputs and all runs. It follows Rec. ITU-T T.81 | ISO/IEC 10918-1.
`dafny verify dfyconfig.toml` checks everything.

Code that works by changing things step by step is modelled by methods with loops, on arrays and on classes that hold the
fields of the program's structures; each is proved equal to a function, and the theorems are about those functions.

* **Arithmetic coding.** `Interval` is the ideal coder, with an interval of unbounded precision. `ArithEncoding` and
  `ArithDecoding` are what the registers do on each decision, proved against it, and `ArithEnding` is termination;
  `ArithMachine` runs them in place. `ArithFormat` says in plain numbers which bin each decision uses.
  `Binarize`, `Refine`, `Scans` and `Sequential` turn coefficients into decisions and back, for the sequential routine and
  the four progressive ones; they are written over any source of answers, and `ArithFile` plugs the decoder in.
  `ArithMcuEncoder`, `ArithScanEncoder`, `ArithMcuDecoder` and `ArithScanDecoder` are the routines as loops.
  `Script`, `SimpleProgression` and `Progressive` are about scan scripts; `DcRange` says exactly when the codec is
  lossless, and `ArithCodec` runs it end to end.
* **Huffman tables.** `HuffmanCost`, `HuffmanForest` and `HuffmanMerge` (optimality), `HuffmanDepth` and `HuffmanDeep` (how long
  codes get),
  `HuffmanLimit` (16 bits), `HuffmanTable` (the finished table), `HuffmanCodes` and `HuffmanDecode` (derived tables),
  `HuffmanLeast`, `HuffmanTie` and `HuffmanSize` (how good the tables are), `HuffmanFormat` (the format in plain numbers).
* **Huffman scans.** `BitString` and `HuffmanBits` (the bit writers), `HuffmanBlock` (symbols of a block),
  `HuffmanEncoder`, `HuffmanReader`, `HuffmanSymbols`, `HuffmanMcu`, `HuffmanLocal`, `HuffmanFast`, `HuffmanScan`
  (decoding, fast path and suspension), `HuffmanGather`, `HuffmanTables`, `HuffmanPipeline` (two passes),
  `HuffmanFillBytes` (a case that fails).
* **Progressive AC scans under Huffman coding.** `HuffmanBands`, `HuffmanBandsInvert`, `HuffmanBandScan`,
  `HuffmanBandStore` (magnitudes in 16-bit words), `HuffmanBandEncoder`, `HuffmanBandCodec`, `HuffmanBandGather`,
  `HuffmanBandSmallest` (a coefficient that fails).
* **Quantisation and control.** `Quant`; `McuAssembly`, `McuPlaces`, `McuBuffers`, `McuControl`; `RowControl`.

The bytes a decoder has left are a ghost bit string that ends with one sentinel bit; it is used up exactly when the decoder
has asked for more bits than the segment has, which is when `insufficient_data` is set.

## Model

| member | source | states |
|---|---|---|
| `ProbTable.TableIsSound` | 3rdparty/libjpeg-turbo_2_1_0/jaricom.c:32-157 | Every packed row of the probability table unpacks to an LPS size in 1..0x7FFF and to successors inside the table, which is all the coder theorems ask of a table. |
| `ArithMachine.Encoder.ArithEncode` | 3rdparty/libjpeg-turbo_2_1_0/jcarith.c:224-317 | The in-place routine takes the registers, the bins and the bytes written to what the specification says, and records the decision. |
| `ArithMachine.Encoder.FinishPass` | 3rdparty/libjpeg-turbo_2_1_0/jcarith.c:138-217 | The bytes after termination are those of the specification for the whole run of decisions. |
| `ArithMachine.Decoder.ArithDecode` | 3rdparty/libjpeg-turbo_2_1_0/jdarith.c:114-191 | The in-place routine returns the bit and reaches the state of the specification, byte reading and markers included. |
| `ArithEncoding.EncodeOneIs` | 3rdparty/libjpeg-turbo_2_1_0/jcarith.c:240-316 | The four branches amount to picking a half of the interval, stepping the bin, and renormalising if needed. |
| `ArithEncoding.EncodeAllPictures` | 3rdparty/libjpeg-turbo_2_1_0/jcarith.c:240-316 | After every run, bytes written, pending zeros, held byte, stacked 0xFF bytes and C together are exactly the base of the ideal interval, A is its size, the held byte is below 0xFF, no carry passes it, and the bins are those of the ideal coder. |
| `ArithFormat.HalfTaken` | 3rdparty/libjpeg-turbo_2_1_0/jcarith.c:239-265 | The more probable symbol has the lower part of the interval and the other the upper part of size Qe, exchanged where the lower part is the smaller. |
| `ArithFormat.BinNext` | 3rdparty/libjpeg-turbo_2_1_0/jcarith.c:232-265 | The next row and the sense of a bin after either symbol, in terms of the row's two successors. |
| `ArithEnding.TargetRoundest` | 3rdparty/libjpeg-turbo_2_1_0/jcarith.c:145-150 | No point of the final interval, in units of the registers, has more trailing zero bits than the one that termination picks. |
| `ArithEnding.FinishHolds` | 3rdparty/libjpeg-turbo_2_1_0/jcarith.c:138-217 | What termination leaves in the file is a point of the final interval and ends with no zero byte, and no shorter byte sequence has its point in the interval. |
| `ArithEnding.CodeIsShortest` | 3rdparty/libjpeg-turbo_2_1_0/jcarith.c:138-217 | The same for whole runs: after any decisions the code is the shortest that decodes to them as far as the interval goes. |
| `ArithDecoding.DecodeInvertsEncode` | 3rdparty/libjpeg-turbo_2_1_0/jdarith.c:114-191 | For every table, every start of the bins and every sequence of decisions, decoding the bytes up to the next marker gives the same bits, and after every prefix of the decisions the decoder's bins are the encoder's. |
| `Binarize.ReadDcInverts` | 3rdparty/libjpeg-turbo_2_1_0/jdarith.c:267-311 | A DC difference of magnitude up to 2^15 is read back from the decisions it makes, with the same conditioning context for the next one. |
| `Binarize.ReadAcInverts` | 3rdparty/libjpeg-turbo_2_1_0/jdarith.c:329-395 | An AC band is read back from its decisions: every coefficient scaled to the scan's bit plane, nothing else touched. |
| `Refine.ReadRefineInverts` | 3rdparty/libjpeg-turbo_2_1_0/jdarith.c:436-497 | A refinement read over coefficients one bit plane behind brings each to the new plane. |
| `Sequential.ReadSeqInverts` | 3rdparty/libjpeg-turbo_2_1_0/jdarith.c:504-624 | A sequential scan of any blocks in any visiting order is read back from its decisions; predictions need only agree modulo 2^16. |
| `Sequential.DcBinsWithin49` | 3rdparty/libjpeg-turbo_2_1_0/jcarith.c:685-770 | DC coding uses bins 0..48 of its area for differences up to 2^15. |
| `Sequential.AcBinsWithin245` | 3rdparty/libjpeg-turbo_2_1_0/jcarith.c:763-820 | AC coding uses bins 0..244 of its area, and the fixed bin. |
| `ArithFormat.DcBins` | 3rdparty/libjpeg-turbo_2_1_0/jcarith.c:395-448 | Decision by decision, in plain bin numbers: sign and size of a DC difference at its context, its category from bin 20 on, its low bits 14 bins further. |
| `ArithFormat.DcContextIs` | 3rdparty/libjpeg-turbo_2_1_0/jcarith.c:437-441 | The next context in terms of the difference alone: none up to 2^(L-1), large beyond 2^U, and the sign. |
| `ArithFormat.AcHeads` | 3rdparty/libjpeg-turbo_2_1_0/jcarith.c:497-521 | End of block in bin 3(k-1), a zero in bin 3(k-1)+1, at coefficient k. |
| `ArithFormat.AcBins` | 3rdparty/libjpeg-turbo_2_1_0/jcarith.c:500-541 | Every decision of a nonzero AC coefficient: bins 3(k-1)+1, 3(k-1)+2 and the fixed one, then the category from bin 189 if k is at most Kx and from 217 if not, and its low bits 14 bins further. |
| `ArithFormat.RefineBins` | 3rdparty/libjpeg-turbo_2_1_0/jcarith.c:640-678 | Likewise for refinements: end of block only beyond the coefficients known before, and the next bit of a known one in bin 3(k-1)+2. |
| `ArithFormat.BinsAtStart` | 3rdparty/libjpeg-turbo_2_1_0/jcarith.c:930-931 | Bins start at 0, the fixed one at row 113, which has an LPS size of 0x5A1D and leads only to itself. |
| `ArithFormat.DcLast` | 3rdparty/libjpeg-turbo_2_1_0/jcarith.c:398-441 | The prediction for a component is the DC value of its last block visited, and the context that of the difference coded there. |
| `ArithFormat.SeqScanAt` | 3rdparty/libjpeg-turbo_2_1_0/jcarith.c:685-770 | Each block of a sequential scan is coded under that prediction and context. |
| `ArithMcuEncoder.EncodeDcDiff` | 3rdparty/libjpeg-turbo_2_1_0/jcarith.c:395-448 | The loop codes exactly the specified decisions, also for differences beyond 15 bits, and returns the next context. |
| `ArithMcuEncoder.EncodeAcBand` | 3rdparty/libjpeg-turbo_2_1_0/jcarith.c:459-550 | The loop codes exactly the decisions of the band under its point transform. |
| `ArithMcuEncoder.EncodeAcRefine` | 3rdparty/libjpeg-turbo_2_1_0/jcarith.c:593-678 | Likewise for a refinement, with both end-of-block positions found by the loops. |
| `ArithMcuDecoder.DecodeAcRefine` | 3rdparty/libjpeg-turbo_2_1_0/jdarith.c:436-497 | The loop asks for the specified bins and stores the specified coefficients in natural order. |
| `ArithScanEncoder.EncodeProgressiveScan` | 3rdparty/libjpeg-turbo_2_1_0/jcarith.c:828-904 | From cleared statistics to flushed code, each of the four progressive routines yields the code of the scan's decisions, for all 16-bit coefficients. |
| `ArithScanDecoder.DecodeProgressiveScan` | 3rdparty/libjpeg-turbo_2_1_0/jdarith.c:632-742 | The routine chosen for the scan leaves in memory what the specification reads, and reports an overflow. |
| `ArithFile.SequentialRoundTrip` | 3rdparty/libjpeg-turbo_2_1_0/jcarith.c:685-820 | Coefficients to bytes and back: visited blocks return exactly, others are untouched, whatever follows the next marker. |
| `DcRange.SequentialSucceedsIff` | 3rdparty/libjpeg-turbo_2_1_0/jdarith.c:545-553 | For every image of 16-bit coefficients the decoder accepts the scan if and only if no DC difference exceeds 2^15. |
| `DcRange.FarApartLost` | 3rdparty/libjpeg-turbo_2_1_0/jdarith.c:287-296 | Two blocks of one component with DC values -0x8000 and 0x7FFF are coded without a word, and the decoder stops with an overflow, whatever the AC coefficients, tables and conditioning. |
| `DcRange.SmallSeqFits` | 3rdparty/libjpeg-turbo_2_1_0/jcarith.c:716-760 | DC values of at most 15 bits always meet that condition. |
| `Script.ValidateScript` | 3rdparty/libjpeg-turbo_2_1_0/jcmaster.c:178-310 | The loop over its arrays accepts exactly the scripts that are legal, as a progressive or as a sequential one. |
| `Script.StartPass` | 3rdparty/libjpeg-turbo_2_1_0/jdarith.c:632-684 | The decoder's check fails on bad ranges, warns if and only if some coefficient's history does not fit, and keeps that history. |
| `Script.LegalScriptIsClean` | 3rdparty/libjpeg-turbo_2_1_0/jdarith.c:638-684 | No scan of a legal script makes the decoder fail or warn. |
| `SimpleProgression.JpegSimpleProgression` | 3rdparty/libjpeg-turbo_2_1_0/jcparam.c:467-539 | Filling through an advancing position writes exactly the counted entries, and they are the recommended script. |
| `SimpleProgression.SimpleScriptIsLegal` | 3rdparty/libjpeg-turbo_2_1_0/jcparam.c:481-538 | For any number of components that script is legal, has the counted length, and sends every coefficient down to bit 0. |
| `SimpleProgression.FewComponents` | 3rdparty/libjpeg-turbo_2_1_0/jcparam.c:526-538 | Every entry of the script for up to four components, by its index: band 1..5 before band 6..63, and so on. |
| `SimpleProgression.ManyComponents` | 3rdparty/libjpeg-turbo_2_1_0/jcparam.c:526-538 | Likewise for more than four. |
| `SimpleProgression.YccComponents` | 3rdparty/libjpeg-turbo_2_1_0/jcparam.c:505-525 | The ten scans for YCbCr. |
| `ArithFile.DecodedInSync` | 3rdparty/libjpeg-turbo_2_1_0/jdarith.c:249-497 | After each scan of a file every tracked coefficient is the encoder's, cut at the last bit plane sent of it. |
| `ArithFile.ProgressiveRoundTrip` | 3rdparty/libjpeg-turbo_2_1_0/jdarith.c:249-497 | A file by any legal script that sends everything rebuilds every tracked block exactly. |
| `DcRange.ProgressiveSucceedsIff` | 3rdparty/libjpeg-turbo_2_1_0/jdarith.c:287-296 | For every image of 16-bit coefficients and every legal script, all scans decode without error if and only if no first DC scan has a difference beyond 2^15; and then the image is rebuilt if the script sends everything. |
| `DcRange.SimpleProgressionRoundTrip` | 3rdparty/libjpeg-turbo_2_1_0/jcparam.c:468-539 | The recommended script rebuilds every 16-bit image, because its DC scans leave out a bit plane at first. |
| `ArithCodec.SendSequentialScan` | 3rdparty/libjpeg-turbo_2_1_0/jdarith.c:505-624 | Encoder and decoder run together on arrays succeed if and only if no DC difference exceeds 2^15, and then memory holds what was sent. |
| `ArithCodec.SendProgressiveFile` | 3rdparty/libjpeg-turbo_2_1_0/jdarith.c:632-742 | A whole file, each scan encoded and decoded over what the scans before it left: the same condition, and at the end the same arrays. |
| `HuffmanMerge.BuildTree` | 3rdparty/libjpeg-turbo_2_1_0/jchuff.c:943-1002 | The merging loop on its three arrays ends with one tree; the sizes are the depths of its leaves, are optimal, and are a function of the counts. |
| `HuffmanForest.FinishedOptimal` | 3rdparty/libjpeg-turbo_2_1_0/jchuff.c:955-1002 | With one root left, the sizes fill the code space and cost no more than any lengths within the Kraft inequality. |
| `HuffmanForest.OptimalOverPrefixCodes` | 3rdparty/libjpeg-turbo_2_1_0/jchuff.c:943-1002 | No prefix code for the symbols in use costs less. |
| `HuffmanDepth.DepthBound` | 3rdparty/libjpeg-turbo_2_1_0/jchuff.c:1004-1014 | A code of s bits before limiting takes counts of at least the Fibonacci number s + 2 in all. |
| `HuffmanDepth.ShallowBelow` | 3rdparty/libjpeg-turbo_2_1_0/jchuff.c:1008-1011 | Counts below 9227465 in all never meet the overflow error. |
| `HuffmanDeep.BoundReached` | 3rdparty/libjpeg-turbo_2_1_0/jchuff.c:955-1002 | Fibonacci counts with the last symbols lightest, in all exactly the Fibonacci number s + 2, do give a code of s bits, by the routine's own choice among equal counts. |
| `HuffmanDeep.TooDeepAt` | 3rdparty/libjpeg-turbo_2_1_0/jchuff.c:1008-1011 | So there are 257 counts, the reserved symbol's among them, that total exactly 9227465 and meet the overflow error. |
| `HuffmanLimit.LimitLengths` | 3rdparty/libjpeg-turbo_2_1_0/jchuff.c:1018-1041 | Limiting ends with no length over 16, the code space exactly full and the number of codes unchanged, through a chain of steps each of which takes two of the longest codes and splits the longest code that is shorter than their prefix. |
| `HuffmanLimit.LimitedUnique` | 3rdparty/libjpeg-turbo_2_1_0/jchuff.c:1018-1041 | Such chains all end with the same counts, and without long codes nothing changes. |
| `HuffmanLimit.SeventeenBits` | 3rdparty/libjpeg-turbo_2_1_0/jchuff.c:1026-1037 | From one code of each length 1 to 16 and two of 17 to one each of 1 to 14 and four of 16. |
| `HuffmanLimit.LongestPaired` | 3rdparty/libjpeg-turbo_2_1_0/jchuff.c:1031-1036 | When the code space is full the longest codes are even in number. |
| `HuffmanLimit.ShorterExists` | 3rdparty/libjpeg-turbo_2_1_0/jchuff.c:1031-1036 | A shorter code to split always exists, so the inner search never runs off the table. |
| `HuffmanTable.GenOptimalTable` | 3rdparty/libjpeg-turbo_2_1_0/jchuff.c:930-1067 | The whole routine: an error if and only if some optimal size exceeds 32, else a table made from the optimal sizes, limited in that way. |
| `HuffmanTable.TableUnique` | 3rdparty/libjpeg-turbo_2_1_0/jchuff.c:930-1067 | The counts determine how many codes of each length the table has, and for which symbols. |
| `HuffmanTables.MakePair` | 3rdparty/libjpeg-turbo_2_1_0/jchuff.c:1073-1106 | Encoder's and decoder's tables are made from the very counts handed over: their lengths are the sizes that merging those comes to, limited. |
| `HuffmanTables.PairUnique` | 3rdparty/libjpeg-turbo_2_1_0/jchuff.c:1073-1106 | The same counts lead to the same codes. |
| `HuffmanLeast.LeastBits` | 3rdparty/libjpeg-turbo_2_1_0/jchuff.c:890-930 | Without limiting, the counted symbols and one longest code take no more bits than under any prefix code without a word of ones only, with its longest word; so no such code with words no longer than the table's takes fewer. |
| `HuffmanLeast.CostExact` | 3rdparty/libjpeg-turbo_2_1_0/jchuff.c:943-1066 | That sum is exactly the optimum for the counts with the reserved symbol. |
| `HuffmanLeast.FreeCodeCosts` | 3rdparty/libjpeg-turbo_2_1_0/jchuff.c:943-946 | Whatever was counted, a prefix code that keeps no word free takes fewer bits than the table. |
| `HuffmanTie.LongerWordsLess` | 3rdparty/libjpeg-turbo_2_1_0/jchuff.c:955-1002 | Counts 1, 1, 2 and 3 take 15 bits under the table, and 14 under a code with a word of four bits. |
| `HuffmanTable.GeneratedUsable` | 3rdparty/libjpeg-turbo_2_1_0/jchuff.c:277-333 | Every such table is accepted by the encoder's derivation, lists exactly the symbols counted, and has no code of all ones. |
| `HuffmanCodes.MakeCDerived` | 3rdparty/libjpeg-turbo_2_1_0/jchuff.c:247-333 | The derivation accepts exactly the usable tables, and enters size and canonical code of every symbol. |
| `HuffmanFormat.CodesCountUp` | 3rdparty/libjpeg-turbo_2_1_0/jchuff.c:290-308 | Codes count up from zero in order of length, with zeros appended where the length grows. |
| `HuffmanFormat.ListedInOrder` | 3rdparty/libjpeg-turbo_2_1_0/jchuff.c:1049-1066 | Symbols are listed by size, and those of one size in increasing order. |
| `HuffmanDecode.MakeDDerived` | 3rdparty/libjpeg-turbo_2_1_0/jdhuff.c:140-260 | The derivation accepts exactly the decodable tables, and fills the limits, offsets and lookahead. |
| `HuffmanDecode.SlowFinds` | 3rdparty/libjpeg-turbo_2_1_0/jdhuff.c:433-469 | From any length up to a code's own, the bit-by-bit search stops at that code and leads to its symbol. |
| `HuffmanDecode.LookIsSlow` | 3rdparty/libjpeg-turbo_2_1_0/jdhuff.h:197-216 | For every table and every stream, lookahead and search from nine bits give the symbol and length of the search from one bit. |
| `HuffmanBits.DetectsFF` | 3rdparty/libjpeg-turbo_2_1_0/jchuff.c:382-424 | The wrapped 64-bit test takes the fast exit if and only if no byte of the buffer is 0xFF. |
| `HuffmanBits.WriteBoth` | 3rdparty/libjpeg-turbo_2_1_0/jchuff.c:370-541 | The 64-bit writer and the 24-bit writer give the same bytes for any pieces: the bits joined, padded with ones, a zero after each 0xFF. |
| `HuffmanFormat.BytesAre` | 3rdparty/libjpeg-turbo_2_1_0/jchuff.c:370-541 | The last byte is filled with ones, and a zero follows every byte 0xFF. |
| `HuffmanReader.BitReader.FillBitBuffer` | 3rdparty/libjpeg-turbo_2_1_0/jdhuff.c:284-382 | Either enough bits are at hand and they are the segment's, zeros after its end, with the flag set just when a request goes past it; or delivered bytes have run out and nothing has changed. |
| `HuffmanReader.FinishedRead` | 3rdparty/libjpeg-turbo_2_1_0/jdhuff.c:284-382 | What the reader makes of padded and stuffed bits before a marker is those bits and the padding. |
| `HuffmanFormat.SegmentBytes` | 3rdparty/libjpeg-turbo_2_1_0/jdhuff.c:309-348 | What the reader takes for data, byte by byte: a zero after 0xFF is dropped, fill bytes are skipped, anything else after 0xFF ends the segment. |
| `HuffmanBlock.DecodeBlockInverts` | 3rdparty/libjpeg-turbo_2_1_0/jdhuff.c:565-640 | A block decoded from its own symbols and bits comes back, over memory whose AC part is zero. |
| `HuffmanFormat.ValueSymbol` | 3rdparty/libjpeg-turbo_2_1_0/jchuff.c:606-648 | A value of n bits after a run: symbol 16 times the run plus n, and n bits, those of the value or, if negative, of the value less one. |
| `HuffmanFormat.AcSymbols` | 3rdparty/libjpeg-turbo_2_1_0/jchuff.c:594-652 | Runs, values, 0xF0 for sixteen zeros and 0 for the end, coefficient by coefficient. |
| `HuffmanFormat.PredictionIs` | 3rdparty/libjpeg-turbo_2_1_0/jchuff.c:705-731 | The prediction is the DC value of the component's last block. |
| `NaturalOrder.OrderIsZigzag` | 3rdparty/libjpeg-turbo_2_1_0/jutils.c:56-70 | The order of coefficients goes along the diagonals of the block, downwards on the odd ones and upwards on the even ones. |
| `HuffmanEncoder.HtestOneBlock` | 3rdparty/libjpeg-turbo_2_1_0/jchuff.c:796-861 | The trial run fails if and only if a value is out of range; else it counts exactly the block's symbols. |
| `HuffmanEncoder.EncodeOneBlock` | 3rdparty/libjpeg-turbo_2_1_0/jchuff.c:563-652 | The unrolled loop sends exactly the block's bits. |
| `HuffmanMcu.DecodeMcuSlow` | 3rdparty/libjpeg-turbo_2_1_0/jdhuff.c:549-651 | An MCU from the bit buffer; if bytes run out the saved state is back and the half-filled blocks are as good a start as before. |
| `HuffmanLocal.DecodeLocal` | 3rdparty/libjpeg-turbo_2_1_0/jdhuff.c:565-640 | An MCU that leaves something of a stream is the same for every stream with that beginning. |
| `HuffmanFast.DecodeMcuFast` | 3rdparty/libjpeg-turbo_2_1_0/jdhuff.c:654-751 | With 512 bytes a block at hand it never reads past them. If it succeeds it has the slow path's blocks, predictions and bit position; if not, the state is back and the blocks are those of the data up to the supposed marker. |
| `HuffmanFast.DecodeMcuEither` | 3rdparty/libjpeg-turbo_2_1_0/jdhuff.c:758-795 | One call on any data: nothing once data has run out, else the MCU over what the fast path may have left. |
| `HuffmanScan.DecodeInPieces` | 3rdparty/libjpeg-turbo_2_1_0/jdhuff.c:758-795 | For deliveries of any sizes and any number of MCUs the result is that of the whole segment; MCUs after its end stay zero. |
| `HuffmanFillBytes.FillBytesMatter` | 3rdparty/libjpeg-turbo_2_1_0/jdhuff.c:389-404 | With fill bytes before a stuffed zero, a coefficient of the MCU is -1 or 0 depending on whether 512 bytes are at hand. |
| `HuffmanFillBytes.TwoDeliveries` | 3rdparty/libjpeg-turbo_2_1_0/jdhuff.c:758-795 | The segment `Tricky(n)` delivered at once, and a first delivery of 400 to 511 of its bytes: both attempts succeed, and coefficient 1 is -1 in the one MCU and 0 in the other. |
| `HuffmanScan.ScanInverts` | 3rdparty/libjpeg-turbo_2_1_0/jchuff.c:684-749 | The bits of a list of MCUs decode to those MCUs, whatever follows. |
| `HuffmanGather.Gather` | 3rdparty/libjpeg-turbo_2_1_0/jchuff.c:869-901 | The first pass fails if and only if a value is out of range; else the arrays hold the counts of the whole scan. |
| `HuffmanGather.CountScanFacts` | 3rdparty/libjpeg-turbo_2_1_0/jchuff.c:796-861 | Every symbol of the scan is among those counts, only plausible symbols are, and they are at most 64 a block. |
| `HuffmanPipeline.EncodeScan` | 3rdparty/libjpeg-turbo_2_1_0/jchuff.c:684-777 | The second pass writes the scan's bits, stuffed and padded. |
| `HuffmanPipeline.OptimisedPipeline` | 3rdparty/libjpeg-turbo_2_1_0/jchuff.c:1073-1110 | Gather, build tables, encode, decode in any pieces: the same MCUs, and the bytes are those of the scan under the tables that its own counts lead to. It stops if and only if a value is out of range or some table's counts lead past 32 bits, and the latter never for up to 144179 blocks. |
| `HuffmanBandsInvert.FirstInverts` | 3rdparty/libjpeg-turbo_2_1_0/jdphuff.c:364-440 | The band of a block is read back from its symbols and bits in a first pass, end-of-band runs included. |
| `HuffmanBandsInvert.RefineInverts` | 3rdparty/libjpeg-turbo_2_1_0/jdphuff.c:500-643 | A refinement brings the band to the new plane, though the encoder delays zeros and correction bits across symbols. |
| `HuffmanBandScan.BandsInvert` | 3rdparty/libjpeg-turbo_2_1_0/jdphuff.c:364-643 | However blocks are gathered into end-of-band runs, every block of the scan is completed. |
| `HuffmanFormat.FirstItems` | 3rdparty/libjpeg-turbo_2_1_0/jcphuff.c:619-657 | What each coefficient of a first pass adds to the symbols. |
| `HuffmanFormat.RefineItems` | 3rdparty/libjpeg-turbo_2_1_0/jcphuff.c:866-921 | What each coefficient of a refinement adds, and which correction bits go with it. |
| `HuffmanFormat.RunItems` | 3rdparty/libjpeg-turbo_2_1_0/jcphuff.c:421-443 | A run of n blocks: the place of the highest bit of n in the symbol's high four bits, then the bits below it. |
| `HuffmanFormat.RunsAre` | 3rdparty/libjpeg-turbo_2_1_0/jcphuff.c:986-1001 | Which blocks share a run: those without symbols of their own, up to 0x7FFF blocks, and while at most 937 correction bits are held. |
| `HuffmanBandEncoder.BandEncoder.EmitEobrun` | 3rdparty/libjpeg-turbo_2_1_0/jcphuff.c:421-443 | The run always fits its symbol, so the check of its size never fires; buffered bits go out once and in order. |
| `HuffmanBandStore.StorableIff` | 3rdparty/libjpeg-turbo_2_1_0/jcphuff.c:797-820 | The transformed band has no -0x8000 if and only if Al is positive or the band had none: a condition on the block and the scan alone. |
| `HuffmanBandStore.SentIff` | 3rdparty/libjpeg-turbo_2_1_0/jcphuff.c:797-820 | With magnitudes held in 16-bit words, the symbols and bits sent for a block are those of its band if and only if it is a first pass or the band has no -0x8000; else there are more symbols of new coefficients. |
| `HuffmanBandEncoder.EncodeFirst` | 3rdparty/libjpeg-turbo_2_1_0/jcphuff.c:659-743 | Over bit masks and arrays of 16-bit words, the block's code is added; runs stay at most 0x7FFF long. It stops exactly for out-of-range coefficients: with the error, or, if the first of them is -0x8000 with Al 0, at an index below the table of bit counts. |
| `HuffmanBandEncoder.EncodeRefine` | 3rdparty/libjpeg-turbo_2_1_0/jcphuff.c:923-1017 | A refinement adds the code of the band in which -0x8000, if there, counts as a new -1; at most 1000 correction bits are held, and none without a run. |
| `HuffmanBandCodec.EncodeBands` | 3rdparty/libjpeg-turbo_2_1_0/jcphuff.c:1024-1040 | A scan emits exactly the items of what is sent for its blocks, gathered into runs by the two limits, or stops for exactly one of two reasons: a coefficient out of range, or -0x8000 as the first such one. |
| `HuffmanBandSmallest.ScanSentIff` | 3rdparty/libjpeg-turbo_2_1_0/jcphuff.c:797-1017 | Those items are the ones that the scan's specification asks for if and only if it is a first pass, or Al is positive, or no block has -0x8000 in the band. |
| `HuffmanBandSmallest.LostBlock` | 3rdparty/libjpeg-turbo_2_1_0/jcphuff.c:895-918 | A refinement of coefficient 1 alone, -0x8000 and known to the decoder: symbol 1 and a sign are sent, and decoding the bytes puts -1 into coefficient 2, outside the band. |
| `HuffmanBandSmallest.WildBlock` | 3rdparty/libjpeg-turbo_2_1_0/jcphuff.c:387-395 | With sixteen zeros before it the symbol sent is 257, for which there is neither a count nor a code. |
| `HuffmanBandSmallest.StoppedBlock` | 3rdparty/libjpeg-turbo_2_1_0/jcphuff.c:642-645 | In a first pass with Al 0 it stops the scan at the table of bit counts. |
| `HuffmanBandSmallest.LuckyBlock` | 3rdparty/libjpeg-turbo_2_1_0/jdphuff.c:500-643 | A block with -0x8000 that is read back all the same, by accident of the codes: so storability is exact for what is sent, and not for what a decoder makes of it. |
| `HuffmanBandCodec.ScanGains` | 3rdparty/libjpeg-turbo_2_1_0/jdphuff.c:364-643 | A scan's bits give every block the scan's bit plane and change nothing outside the band. |
| `HuffmanBandCodec.SendBands` | 3rdparty/libjpeg-turbo_2_1_0/jcphuff.c:334-395 | The same through bytes, which are those of the items, stuffed and padded. If every block is storable, whatever the decoder holds one plane behind gains the plane. A missing code, and a symbol that is no byte, only if such a symbol is emitted. |
| `HuffmanBandCodec.BandExact` | 3rdparty/libjpeg-turbo_2_1_0/jdphuff.c:364-643 | A band sent plane by plane down to the last ends with its exact coefficients, if none of them is -0x8000; no other scan but the last depends on that. |
| `HuffmanBandGather.BandSyms` | 3rdparty/libjpeg-turbo_2_1_0/jcphuff.c:387-395 | A scan emits at least one symbol and at most 64 a block, all of categories an AC table may have and none the reserved 256; all are bytes if no refined band has -0x8000. |
| `HuffmanBandGather.SendOptimised` | 3rdparty/libjpeg-turbo_2_1_0/jcphuff.c:1045-1085 | Two passes: tables from the first pass's own counts code all the second emits, and the bytes are those of the scan under them. It stops if and only if a coefficient is out of range, the program reads or counts outside its tables (only with a block that is not storable), or the counts lead past 32 bits. Else, if every block is storable, decoding gains the plane. |
| `HuffmanSize.ScanIsSmallest` | 3rdparty/libjpeg-turbo_2_1_0/jcphuff.c:1045-1085 | Without limiting, such a scan takes no more bits than with any prefix code for its symbols that has no longer words and none of ones only. |
| `Quant.Flss` | 3rdparty/libjpeg-turbo_2_1_0/jcdctmgr.c:82-110 | The search by halves finds the highest bit of every 16-bit value. |
| `Quant.MultiplierDivides` | 3rdparty/libjpeg-turbo_2_1_0/jcdctmgr.c:172-221 | For words of 16 bits or more and divisors 1..65535, reciprocal, correction and shift divide with rounding every x with x + d/2 in the word, and the reciprocal fits the word. |
| `Quant.ComputeReciprocal` | 3rdparty/libjpeg-turbo_2_1_0/jcdctmgr.c:172-221 | The slot read back holds that multiplier, other slots are untouched, and the returned code says whether SIMD code may use it. |
| `Quant.QuantizedIs` | 3rdparty/libjpeg-turbo_2_1_0/jcdctmgr.c:407-438 | In the program's word arithmetic nothing wraps that matters: the result is the signed quotient, halves away from zero. |
| `Quant.QuantizesIff` | 3rdparty/libjpeg-turbo_2_1_0/jcdctmgr.c:407-438 | A workspace value is divided correctly by every divisor if and only if words have 32 bits or it is not -32768. |
| `Quant.Quantize` | 3rdparty/libjpeg-turbo_2_1_0/jcdctmgr.c:407-438 | The loop over a block does that for each coefficient. |
| `McuAssembly.SetupConsistent` | 3rdparty/libjpeg-turbo_2_1_0/jcmaster.c:355-442 | The sizes computed for a scan agree: whole MCUs and last columns and rows make up each component's size. |
| `McuPlaces.BlockAt` | 3rdparty/libjpeg-turbo_2_1_0/jccoefct.c:165-207 | In the MCU at a given row and column, the block in row iy and column ix of component c stands at the offset of c plus iy times the MCU width plus ix, and is the block of that place in the padded component. |
| `McuPlaces.RealBlockOnce` | 3rdparty/libjpeg-turbo_2_1_0/jccoefct.c:140-222 | In any whole sequence of MCUs handed over, MCU index and index in the MCU together are in one-to-one relation with the blocks: each real block stands at exactly one pair, and every other pair holds a dummy. |
| `McuPlaces.OneSlotChanges` | 3rdparty/libjpeg-turbo_2_1_0/jccoefct.c:140-222 | An image that differs only in the AC coefficients of one block is handed over with a difference at that pair and nowhere else. |
| `McuPlaces.DummiesArePlain` | 3rdparty/libjpeg-turbo_2_1_0/jccoefct.c:176-201 | Every block handed over that is not of the image has AC coefficients 0, and for DC that of the last block of its row, or, below the image, of the block just before its row in the MCU. |
| `McuControl.ThreeWays` | 3rdparty/libjpeg-turbo_2_1_0/jccoefct.c:140-395 | One pass, first pass with output, and transcoding hand over the same MCUs, in order, wherever each is suspended; each real block exactly once in them, and such dummies in the other places. |
| `RowControl.WriteImage` | 3rdparty/libjpeg-turbo_2_1_0/jcapistd.c:77-112 | However rows are split over calls and however often compression suspends, each iMCU row is compressed once, in order and with the contents of a write at once: image row y in row group y / v % 8 of iMCU row y / (8 v), copies of the last row to fill its group, and copies of its group below. Row counts sum to the height. |

## Findings

* **DC differences beyond 15 bits.** The arithmetic encoder codes every difference of 16-bit values, but the decoder takes a
  magnitude over 2^15 for an error. `DcRange.SequentialSucceedsIff` and `DcRange.ProgressiveSucceedsIff` give the exact
  condition, `DcRange.FarApartLost` failing images (`DcRange.FlatFarApart`). The recommended progressive script never meets it
  (`DcRange.SimpleProgressionRoundTrip`), because its first DC scan leaves out a bit plane.
* **The smallest 16-bit word in progressive Huffman AC scans.** Magnitudes are kept in 16-bit words (jcphuff.c:585, :816;
  jmorecfg.h:77), so that of -0x8000, when Al is 0, comes back negative. A refinement then fails the test for a known
  coefficient (jcphuff.c:895) and sends it as a new one. What is sent is right if and only if `Al > 0` or the band has no
  -0x8000: for a block `HuffmanBandStore.StorableIff` with `HuffmanBandStore.SentIff`, for a scan
  `HuffmanBandSmallest.ScanSentIff`. `HuffmanBandSmallest.LostBlock` is a block that decodes wrongly, and
  `HuffmanBandSmallest.WildBlock` one whose symbol lies outside the tables; `HuffmanBandSmallest.LuckyBlock` shows that a
  decoder may also come out right by accident. In a first pass the word indexes the table of bit counts
  (jcphuff.c:642) below its start; builds that count bits by an instruction report it as out of range instead. The model
  stops there in either case, with an outcome of its own. Coefficients of -0x8000 do not come from 8-bit samples, but
  transcoding takes any 16-bit word.
* **Fill bytes before a stuffed zero.** `jpeg_fill_bit_buffer` reads FF FF 00 as one data byte; the fast path takes the second
  FF for a marker, feeds zeros, writes coefficients and backs out, and the slow path then decodes over blocks that are no
  longer zero, though a comment (jdhuff.c:752-754) calls that harmless. So the MCU can depend on how many bytes are at hand:
  `HuffmanFillBytes.TwoDeliveries` has segments and deliveries that differ. `HuffmanScan.DecodeInPieces` holds for every
  segment without such fill bytes, and for every segment shorter than 512 bytes a block, since then the fast path is never
  tried. For all other data `HuffmanFast.DecodeMcuEither` says what each call gives: the MCU decoded over what the fast path
  left. There is no plain converse, since a segment with fill bytes may give the same MCUs all the same.
* **The smallest 16-bit word in the quantiser.** -32768 has no magnitude in a 16-bit word; divided by 2 it comes out as
  +16384 (`Quant.SmallestWordFails`). `Quant.QuantizesIff` states that this is the only such value. With 32-bit words the sum
  with the correction is unsigned, so even the smallest word comes out right (its negation is taken to wrap; the C standard
  leaves it undefined). The value is out of reach for 8-bit samples, whose forward
  DCT stays near 8 times 1024 in magnitude; the DCT itself is not modelled.
* **The overflow error in table generation.** A comment in the program doubts that a code of more than 32 bits can come up.
  It cannot for counts below the 35th Fibonacci number, 9227465, in all (`HuffmanDepth.ShallowBelow`), hence not in scans of
  up to 144179 blocks. There are counts of exactly that total for which it can (`HuffmanDeep.TooDeepAt`).
* **How good optimised tables are.** Not the best prefix code for the counts: the all-ones code is kept free, and a code that
  keeps none free always takes fewer bits (`HuffmanLeast.FreeCodeCosts`). Nor the best that keeps it free: with counts 1, 1, 2
  and 3 the program takes 15 bits where 14 would do (`HuffmanTie.LongerWordsLess`). What holds, if no size exceeds 16, is that
  the bits and the longest code together are least (`HuffmanLeast.LeastBits`, `HuffmanLeast.CostExact`); so only a code with
  longer words can do better.

## Left out

- Restart intervals and restart markers, in all coders.
- Marker parsing, table and frame headers, and reading them back; the decoder is handed the tables of its scan.
- Progressive DC scans under Huffman coding.
- HuffmanBandCodec.ScanGains: the progressive AC decoder is modelled on the bits of a whole scan, without the suspension and the insufficient-data gate of jdphuff.c.
- HuffmanScan.DecodeInPieces: for data with fill bytes of at least 512 bytes a block it does not promise the same MCUs, because that is false (see Findings).
- HuffmanBandCodec.SendBands: with a block that is not storable it promises the bytes sent and not what a decoder makes of them, because that depends on the codes (see Findings); the SIMD preparation routines are not modelled.
- HuffmanDeep.TooDeepAt: that some image has those counts is not shown.
- HuffmanPipeline.OptimisedPipeline: assumes counts of at most 10^9 in all, the sentinel of the search for the smallest count.
- HuffmanLeast.LeastBits: says nothing of tables whose sizes were limited to 16 bits.
- HuffmanTable.GenOptimalTable: assumes at most 255 symbols in use, since the counts per length are bytes; the pipelines use at most 193.
- HuffmanMcu.DecodeMcuSlow: does not model the mode that discards coefficients of components not wanted.
- HuffmanEncoder.EncodeOneBlock: the output goes to an append-only byte sequence; the local buffer and its copying are not modelled.
- HuffmanMcu.DecodeOneBlock: predictions are unbounded integers; their 32-bit overflow on hostile data is not modelled.
- ArithMachine.Decoder.ArithDecode: a source that runs dry counts as a marker, as the standard data source makes it; suspension is an error in that decoder.
- ArithMachine.Encoder.ArithEncode: the statistics areas of all tables are one array, with the program's areas at fixed offsets.
- ArithFile.ProgressiveRoundTrip: the blocks of a scan are visited in any given order; that order is what `McuControl.ThreeWays` is about, and the two are not joined.
- McuControl.ThreeWays: blocks are passed by value; the pointers in `MCU_buffer` and the virtual arrays are not modelled.
- RowControl.WriteImage: colour conversion counts as done and downsampling is any function of a row group; context rows are not modelled.
- Quant.ComputeReciprocal: the scale column is set as with SIMD for 16-bit words; SIMD code itself is not modelled.
- The DCT, colour conversion, floating-point paths, 12-bit samples, memory pools and the bit buffers of 32 bits.
