# A verified model of a minimal QR code encoder

This project models `lib/qr-generator.ts`, a dependency-free QR code generator.
It encodes a message in byte mode at error-correction level M, in versions 1 to 10.
The model follows the generator from its input bytes to its final module matrix:

- choosing the smallest version that holds the message;
- the data bit stream (mode, 8-bit count, data, terminator, byte alignment, pad codewords);
- Reed-Solomon error correction over GF(2^8) with the polynomial 0x11D, block by block, with interleaving;
- the function patterns (finders with separators, alignment patterns, timing patterns, the reserved format area, the dark module);
- the zigzag placement of the codeword bits;
- the eight masks and the penalty score that picks one;
- the 15-bit format word, written twice.

Cells are `Unset` (the source's `null`), `Light` (0) or `Dark` (1).
Matrices the source updates in place are `array2<Cell>`; their values are `seq<seq<Cell>>`.
Every step that updates arrays or lists in a loop in the source is a method with loop invariants.
The loop of getVersion only searches the table, so it is the recursive function Versions.FirstFit.
Each method is proved against a function that states what it computes.
The properties of the code are lemmas about those functions.

Modules, one per file:

| file | module | what it covers |
|---|---|---|
| gf256.dfy | GaloisField | the EXP and LOG tables, gfMul |
| polynomial.dfy | Polynomial | polyMul, generatorPoly, polyMod |
| bitstream.dfy | Bitstream | pushBits, encodeData, and a decoder for the stream |
| versions.dfy | Versions | the version table, getVersion |
| error_correction.dfy | ErrorCorrection | addErrorCorrection: blocks, remainders, interleaving |
| grid.dfy | Grid | createMatrix and the function patterns |
| placement.dfy | Placement | placeData and its zigzag order |
| masking.dfy | Masking | the mask patterns, applyMask |
| penalty.dfy | Penalty | scorePenalty |
| format_info.dfy | FormatInfo | the format table, placeFormatInfo |
| encoder.dfy | Encoder | generateQrSvg up to its final matrix |

## Model

| member | source | states |
|---|---|---|
| GaloisField.XtimeAsWritten | lib/qr-generator.ts:15 | the table step `(x << 1) ^ (x & 128 ? 0x11d : 0)` stays a byte and equals multiplication by 2 in GF(2^8) |
| GaloisField.AddLaws | lib/qr-generator.ts:28 | XOR, the field addition of polyMul and polyMod, is associative and commutative, has 0 as identity, and every element is its own negative |
| GaloisField.OrderAtLeast255 | lib/qr-generator.ts:11-16 | no power 2^d with 0 < d < 255 is 1, so the 255 entries the first loop writes into EXP are all different |
| GaloisField.OrderDivides255 | lib/qr-generator.ts:11-17 | 2^255 = 1, so copying EXP[i - 255] into EXP[i] continues the powers of 2 |
| GaloisField.PowersCoverBytes | lib/qr-generator.ts:11-16 | the powers 2^0 to 2^254 are exactly the 255 nonzero bytes, so the loop writes LOG for every nonzero byte |
| GaloisField.LogOfPower | lib/qr-generator.ts:14 | LOG[EXP[i]] = i for every i below 255 |
| GaloisField.ExpOfLog | lib/qr-generator.ts:13-14 | EXP[LOG[x]] = x for every nonzero byte x |
| GaloisField.ExpIsPower | lib/qr-generator.ts:12-17 | every one of the 512 EXP entries is the matching power of 2 |
| GaloisField.ExpRepeats | lib/qr-generator.ts:17 | EXP[i] = EXP[i - 255] for i from 255 to 511 |
| GaloisField.BuildTables | lib/qr-generator.ts:8-18 | the two loops build exactly the EXP table of powers of 2 and the LOG table of discrete logarithms |
| GaloisField.FillPowers | lib/qr-generator.ts:12-16 | the first loop fills EXP[0..254] with powers of 2 and all of LOG |
| GaloisField.MirrorExp | lib/qr-generator.ts:17 | the second loop completes EXP to 512 entries |
| GaloisField.GfMul | lib/qr-generator.ts:20-22 | gfMul is zero exactly when one of its factors is zero |
| GaloisField.GfMulIsProduct | lib/qr-generator.ts:20-22 | the table lookup EXP[LOG[a] + LOG[b]] equals shift-and-add multiplication modulo 0x11D, for all bytes |
| GaloisField.GfMulCommutative | lib/qr-generator.ts:20-22 | gfMul is commutative |
| GaloisField.GfMulAssociative | lib/qr-generator.ts:20-22 | gfMul is associative |
| GaloisField.GfMulDistributes | lib/qr-generator.ts:20-22 | gfMul distributes over XOR on both sides |
| GaloisField.GfMulOne | lib/qr-generator.ts:20-22 | 1 is the identity of gfMul |
| GaloisField.GfMulPow2 | lib/qr-generator.ts:21 | the product of two powers of 2 is the power with the summed exponent |
| Polynomial.PolyMul | lib/qr-generator.ts:24-30 | the double loop of XOR updates yields the convolution of the two coefficient lists |
| Polynomial.ProductLeading | lib/qr-generator.ts:24-30 | the first coefficient of a product is the product of the first coefficients |
| Polynomial.ProductByLinear | lib/qr-generator.ts:24-30 | multiplying by [1, c] shifts the polynomial and adds c times it |
| Polynomial.EvalByLinear | lib/qr-generator.ts:44 | multiplying by x + c multiplies the value at every point by (x + c) |
| Polynomial.Generator | lib/qr-generator.ts:42-46 | the generator of degree n has n + 1 coefficients and leading coefficient 1 |
| Polynomial.GeneratorPoly | lib/qr-generator.ts:42-46 | generatorPoly returns the product of (x + 2^i) for i below n |
| Polynomial.GeneratorRoots | lib/qr-generator.ts:42-46 | 2^0 to 2^(n-1) are roots of the generator of degree n |
| Polynomial.PolyMod | lib/qr-generator.ts:32-40 | corrected division: the remainder has one coefficient fewer than the generator and agrees with the dividend at every root of a monic generator |
| Polynomial.PolyModAsWritten | lib/qr-generator.ts:32-40 | the loop as written returns the last coefficients of the dividend unchanged, which for a padded block are all zero |
| Polynomial.AsWrittenRemainderNotCodeword | lib/qr-generator.ts:32-40 | for the block [1] the written remainder is all zero, and the block followed by it is not zero at the root 2^0 |
| Polynomial.RemainderMakesCodeword | lib/qr-generator.ts:139-140 | a block followed by its corrected remainder is zero at every root of the generator, which makes it a Reed-Solomon codeword |
| Polynomial.EvalAppend | lib/qr-generator.ts:139 | appending q to p evaluates to p times x^len(q) plus q, the identity behind padding a block with zeros |
| Bitstream.PushBits | lib/qr-generator.ts:87-89 | pushBits appends the len low bits of val, most significant first |
| Bitstream.BitsOfIndex | lib/qr-generator.ts:88 | the j-th pushed bit is bit len - 1 - j of the value |
| Bitstream.ValueOfBits | lib/qr-generator.ts:87-89 | reading pushed bits back as a binary number gives val modulo 2^len |
| Bitstream.BitsOfValue | lib/qr-generator.ts:87-89 | pushing the value of a bit list gives the same list back |
| Bitstream.WriteHeader | lib/qr-generator.ts:91-98 | the stream starts with mode 0100, the 8-bit count and the bits of every data byte |
| Bitstream.AppendTerminator | lib/qr-generator.ts:100-103 | up to four zero bits follow, fewer when capacity runs out |
| Bitstream.AlignToByte | lib/qr-generator.ts:105-106 | zero bits follow up to a multiple of 8 |
| Bitstream.AppendPadding | lib/qr-generator.ts:108-114 | the pad bytes 0xEC and 0x11 alternate until the capacity is reached |
| Bitstream.ReadByte | lib/qr-generator.ts:119-121 | eight bits read most significant first give their byte value |
| Bitstream.ToCodewords | lib/qr-generator.ts:116-122 | the conversion loop packs each eight bits into one codeword |
| Bitstream.PackBits | lib/qr-generator.ts:116-122 | packing the bits of bytes gives the bytes back |
| Bitstream.BitsPack | lib/qr-generator.ts:116-122 | unpacking packed bits gives the bits back |
| Bitstream.EncodeData | lib/qr-generator.ts:82-125 | encodeData returns the stream of the specification functions for the version's capacity |
| Bitstream.EncodedLength | lib/qr-generator.ts:82-125 | the stream fills exactly the capacity when the message and its 2 header bytes fit, and is 2 bytes longer than the message otherwise |
| Bitstream.EncodedLayout | lib/qr-generator.ts:91-114 | the first len + 2 codewords carry mode, count, data and terminator; the rest are pad codewords |
| Bitstream.CountField | lib/qr-generator.ts:93-95 | the 8-bit count field holds the length when it is below 256 and never exceeds it |
| Bitstream.DecodeEncoded | lib/qr-generator.ts:82-125 | decoding the codewords returns the message, cut to the 8-bit count (the whole message below 256 bytes) |
| Bitstream.DecodeHeader | lib/qr-generator.ts:91-98 | a stream that starts with a header decodes to the header's bytes |
| Versions.Row | lib/qr-generator.ts:59-70 | every row has at least one block, 1 to 30 EC codewords per block, and group-2 blocks one codeword longer than group-1 blocks |
| Versions.CapacityIncreasing | lib/qr-generator.ts:59-70 | data capacities grow strictly from 16 (version 1) to 216 (version 10) |
| Versions.TotalsAsWritten | lib/qr-generator.ts:59-70 | versions 1 to 9 emit exactly totalCodewords; version 10 emits 356 codewords against a stated total of 346 |
| Versions.GetVersion | lib/qr-generator.ts:72-79 | a version exists exactly when the length is at most 214; it is the smallest whose capacity holds length + 2 |
| Versions.FirstFit | lib/qr-generator.ts:73-78 | the scan from row v returns the first row that fits, or fails when no later row fits |
| Versions.Side | lib/qr-generator.ts:361 | the side is version * 4 + 17, odd, from 21 to 57, and gives the version back |
| Versions.EmittedCodewords | lib/qr-generator.ts:128-162 | the codewords emitted for a version are never fewer than its data codewords |
| ErrorCorrection.SliceClamp | lib/qr-generator.ts:136 | `slice` clamps both ends to the length and equals the plain subsequence when the range fits |
| ErrorCorrection.Blocks | lib/qr-generator.ts:134-145 | there are blocks1 + blocks2 blocks |
| ErrorCorrection.BlocksPartition | lib/qr-generator.ts:134-145 | for data of the capacity's length, the blocks concatenate back to the data, each with its group's length |
| ErrorCorrection.ProcessBlocks | lib/qr-generator.ts:134-142 | processBlocks appends count consecutive slices, advances offset by their span, and keeps a remainder for each block |
| ErrorCorrection.BlockRemainder | lib/qr-generator.ts:139-140 | the remainder of a block padded with n zeros has n coefficients and matches it at the generator's roots |
| ErrorCorrection.InterleaveData | lib/qr-generator.ts:147-154 | the data loop appends the blocks column by column, skipping blocks that are too short |
| ErrorCorrection.InterleaveEc | lib/qr-generator.ts:156-159 | the EC loop appends the EC blocks column by column |
| ErrorCorrection.AddErrorCorrection | lib/qr-generator.ts:128-162 | the result is the interleaved data then the interleaved EC; each block followed by its EC is a Reed-Solomon codeword |
| ErrorCorrection.CodewordsOfRemainders | lib/qr-generator.ts:139-140 | every block with its remainder is a codeword with ecPerBlock check symbols |
| ErrorCorrection.InterleavePermutation | lib/qr-generator.ts:147-154 | interleaving only reorders: it is a permutation of the concatenated blocks |
| ErrorCorrection.ResultLayout | lib/qr-generator.ts:147-161 | the result has the emitted length (the EC part has ecPerBlock codewords per block); its data part is a permutation of the data; in each of the first FullColumns(info) columns (dataPerBlock1 with one group, the shorter length with two), codeword i of block j sits at position i * blocks + j; when the second group's blocks are one longer, their last codewords follow in block order; EC byte i of block j sits at i * blocks + j of the EC part |
| ErrorCorrection.DataLayout | lib/qr-generator.ts:147-154 | the interleaved data part has the data's length and bytes; the full columns hold codeword i of every block in block order, and the extra column of the longer second-group blocks holds their last codewords in block order |
| ErrorCorrection.BlockRemainderAsWritten | lib/qr-generator.ts:139-140 | with polyMod as written, the EC of every block is its n zero padding coefficients |
| ErrorCorrection.ProcessBlocksAsWritten | lib/qr-generator.ts:134-142 | processBlocks as written appends the same slices as ProcessBlocks, each with n zero EC bytes |
| ErrorCorrection.AddErrorCorrectionAsWritten | lib/qr-generator.ts:128-162 | addErrorCorrection as written returns the interleaved data followed by NumBlocks * ecPerBlock zero bytes |
| ErrorCorrection.ZeroEcNotCodeword | lib/qr-generator.ts:139-140 | a block whose value at 2^0 is not 0, followed by zero EC bytes, is not a Reed-Solomon codeword |
| Grid.CreateMatrix | lib/qr-generator.ts:167-169 | a new size x size matrix of unset cells |
| Grid.FinderRings | lib/qr-generator.ts:176-182 | the finder is concentric: dark ring 0, light ring 1, dark 3 x 3 centre, light separator ring |
| Grid.PlaceFinderPattern | lib/qr-generator.ts:171-185 | every cell of the 9 x 9 area inside the matrix takes the finder value; all other cells are unchanged |
| Grid.AlignmentPositions | lib/qr-generator.ts:187-198 | no centres for version 1; otherwise at least two, starting at 6 |
| Grid.PositionsSpread | lib/qr-generator.ts:187-198 | the centres are even, ascending at least 12 apart, from 6 to n - 7, so no two patterns touch and each lies inside the matrix |
| Grid.AlignmentRings | lib/qr-generator.ts:209-214 | the alignment pattern is dark outer ring, light ring, dark centre |
| Grid.PlaceAlignmentBlock | lib/qr-generator.ts:209-214 | the 5 x 5 block around a centre is drawn; the rest is unchanged |
| Grid.PlaceAlignmentPatterns | lib/qr-generator.ts:200-217 | every cell becomes the alignment cell of the pattern covering it, or keeps its value; patterns overlapping a finder are skipped |
| Grid.PlaceTimingPatterns | lib/qr-generator.ts:219-225 | unset cells of row 6 and column 6 between the finders alternate dark and light; the rest is unchanged |
| Grid.ReserveFormatArea | lib/qr-generator.ts:227-244 | unset cells of the format area become light, the dark module becomes dark, the rest is unchanged |
| Grid.FunctionPatterns | lib/qr-generator.ts:364-370 | the six calls build the function-pattern template of the version |
| Grid.AlignmentClear | lib/qr-generator.ts:206-208 | a drawn alignment pattern touches no finder and not the dark module |
| Grid.FindersKept | lib/qr-generator.ts:364-370 | the finders survive the later stages unchanged |
| Grid.TimingKept | lib/qr-generator.ts:219-225 | the template holds the timing pattern between the finders |
| Grid.AlignmentKept | lib/qr-generator.ts:200-217 | every drawn alignment pattern survives in the template |
| Grid.LaterWritersKeep | lib/qr-generator.ts:219-244 | timing and format reservation keep every set cell except the dark module |
| Grid.TemplateReserved | lib/qr-generator.ts:227-244 | in the template, the dark module is dark and no cell of column 6 or of the format area is unset |
| Placement.FreeCellsMembers | lib/qr-generator.ts:260-264 | the filled cells are the visited cells that were unset, each once |
| Placement.DataBits | lib/qr-generator.ts:248-251 | the bit list is every codeword's 8 bits, most significant first |
| Placement.PlaceBit | lib/qr-generator.ts:262-264 | an unset cell takes the next bit, or 0 once the bits run out |
| Placement.PlaceCell | lib/qr-generator.ts:262-264 | a visited cell is filled if unset and kept otherwise |
| Placement.PlacePair | lib/qr-generator.ts:261-265 | the right cell of a pair is visited before the left one |
| Placement.PlaceSweep | lib/qr-generator.ts:257-266 | one column pair is swept bottom to top or top to bottom |
| Placement.PlaceData | lib/qr-generator.ts:246-269 | the k-th unset cell in zigzag order holds bit k (0 past the end); every other cell is unchanged; only column-6 cells stay unset |
| Placement.NoneLeftUnset | lib/qr-generator.ts:246-269 | after placeData no cell outside column 6 is unset |
| Placement.SweepMembers | lib/qr-generator.ts:257-261 | a sweep visits exactly the rows of its column pair |
| Placement.VisitMembers | lib/qr-generator.ts:255-258 | the column loop visits every column up to its start except column 6 |
| Placement.VisitDistinct | lib/qr-generator.ts:255-268 | no cell is visited twice |
| Placement.ZigzagCovers | lib/qr-generator.ts:255-268 | on an odd side the zigzag visits each cell outside column 6 exactly once |
| Masking.ApplyMask | lib/qr-generator.ts:284-295 | a fresh copy in which every non-reserved cell under the mask is inverted |
| Masking.MaskKeeps | lib/qr-generator.ts:290-291 | masking changes no reserved cell and never leaves a set cell unset |
| Masking.MaskTwice | lib/qr-generator.ts:284-295 | masking a set cell twice with the same pattern restores it |
| Masking.MaskAll | lib/qr-generator.ts:284-295 | masking a whole square matrix keeps its shape |
| Masking.UnmaskRestores | lib/qr-generator.ts:284-295 | applying the same mask to a filled, masked matrix gives the matrix back, which is how a reader unmasks |
| Penalty.LeadRun | lib/qr-generator.ts:303-310 | the leading run is maximal and all one colour |
| Penalty.LineScoreRuns | lib/qr-generator.ts:301-321 | the counter in the source scores a line as the sum over maximal runs of 3 + (length - 5) for runs of five or more |
| Penalty.ScorePenalty | lib/qr-generator.ts:297-333 | scorePenalty returns rule 1 over rows and columns plus rule 2 over 2 x 2 blocks of the matrix |
| Penalty.RowsPenalty | lib/qr-generator.ts:302-311 | the row loops add rule 1 over every row |
| Penalty.ColumnsPenalty | lib/qr-generator.ts:312-321 | the column loops add rule 1 over every column |
| Penalty.BlocksPenalty | lib/qr-generator.ts:324-330 | the block loops add 3 per uniform 2 x 2 block |
| Penalty.RowRuns | lib/qr-generator.ts:303-310 | the run counter along one row adds that row's rule-1 score |
| Penalty.ColumnRuns | lib/qr-generator.ts:313-320 | the run counter down one column adds that column's rule-1 score |
| Penalty.RowBlocks | lib/qr-generator.ts:325-329 | one row of blocks adds 3 per uniform block |
| FormatInfo.FormatTableIsBch | lib/qr-generator.ts:337-339 | every table entry is the BCH(15,5) word of level M and its mask, masked with 0x5412 |
| FormatInfo.FormatDecodes | lib/qr-generator.ts:337-339 | any such word, unmasked, carries its 5 data bits in its top bits |
| FormatInfo.FormatTableDecodes | lib/qr-generator.ts:337-339 | entry k decodes to mask k |
| FormatInfo.FormatBitsValue | lib/qr-generator.ts:346-347 | the 15 bits pushed for an entry read back as that entry |
| FormatInfo.HPositions | lib/qr-generator.ts:350 | 15 columns, all inside the matrix |
| FormatInfo.VPositions | lib/qr-generator.ts:354 | 15 rows, all inside the matrix |
| FormatInfo.PlaceFormatInfo | lib/qr-generator.ts:341-356 | each cell ends as the last write of the row loop then the column loop |
| FormatInfo.FormatPlaces | lib/qr-generator.ts:349-355 | format bit i lands at (8, hPositions[i]) and at (vPositions[i], 8) |
| FormatInfo.FormatArea | lib/qr-generator.ts:350-354 | every written cell is in the reserved format area, off the timing lines and not the dark module |
| FormatInfo.DarkModuleClear | lib/qr-generator.ts:354 | the column writes miss the dark module at (n - 8, 8) |
| FormatInfo.FormatUntouched | lib/qr-generator.ts:341-356 | cells outside the two position lists keep their value, and set cells stay set |
| Encoder.TemplateMatrix | lib/qr-generator.ts:364-370 | the template of a version is a square of its side |
| Encoder.TemplateIsReserved | lib/qr-generator.ts:364-370 | the template has the dark module, a full column 6 and a full format area |
| Encoder.ZigzagMember | lib/qr-generator.ts:255-256 | on a symbol the zigzag visits a cell exactly when it is outside column 6 |
| Encoder.DataCell | lib/qr-generator.ts:262 | the data cells are exactly the cells the template leaves unset |
| Encoder.LayoutAt | lib/qr-generator.ts:384 | after placeData every cell is set, and every template cell is kept |
| Encoder.FinalAt | lib/qr-generator.ts:399-400 | a cell of a candidate is the data cell, masked, with the format word written over |
| Encoder.FinalFilled | lib/qr-generator.ts:399-400 | no candidate has an unset cell |
| Encoder.FinalKeepsPatterns | lib/qr-generator.ts:399-400 | every function-pattern cell outside the format positions survives masking and format placement |
| Encoder.FinalDarkModule | lib/qr-generator.ts:399-400 | the dark module is dark in every candidate |
| Encoder.FinalData | lib/qr-generator.ts:399 | data cell i of a candidate holds codeword bit i, inverted exactly where the mask holds |
| Encoder.FormatBitsRead | lib/qr-generator.ts:400 | row 8 and column 8, read at the format positions, give the 15 bits of the format word |
| Encoder.FinalFormat | lib/qr-generator.ts:400 | both copies of the format word read back as the table entry of the mask |
| Encoder.ScoresAt | lib/qr-generator.ts:389-392 | the j-th score of the mask loop is the penalty of the candidate for mask j |
| Encoder.FirstMinSnoc | lib/qr-generator.ts:393-396 | the strict `<` update keeps the first lowest score |
| Encoder.FirstMinUnique | lib/qr-generator.ts:387-397 | at most one mask is the first lowest, so the choice is determined |
| Encoder.TriedAll | lib/qr-generator.ts:387-397 | after all eight masks the loop state names the best mask |
| Encoder.TryMask | lib/qr-generator.ts:390-396 | one pass scores mask k and keeps the first lowest so far |
| Encoder.ChooseMask | lib/qr-generator.ts:387-397 | the mask loop returns the first mask with the lowest penalty |
| Encoder.CandidateScore | lib/qr-generator.ts:390-392 | the penalty of mask k is the score of its candidate |
| Encoder.Candidate | lib/qr-generator.ts:399-400 | applyMask then placeFormatInfo give a fresh matrix equal to the candidate for mask k |
| Encoder.PlaceCodewords | lib/qr-generator.ts:384 | placeData on the template gives a data matrix of that layout |
| Encoder.Patterns | lib/qr-generator.ts:364-370 | a fresh matrix holding the template |
| Encoder.Codewords | lib/qr-generator.ts:382-383 | the encoded stream with its error correction, each block a Reed-Solomon codeword |
| Encoder.CodewordsAsWritten | lib/qr-generator.ts:382-383 | the program's codewords: the interleaved encoded stream followed by NumBlocks * ecPerBlock zero bytes |
| Encoder.ZeroCorrectedOnlyIfBalanced | lib/qr-generator.ts:128-162 | the program's codewords carry the Reed-Solomon property only when every data block's value at 2^0 is 0 |
| Encoder.BuildSymbol | lib/qr-generator.ts:363-400 | the final matrix is the candidate of the best mask for the data matrix of the codewords |
| Encoder.Generate | lib/qr-generator.ts:359-400 | an error when the message is too long; otherwise the smallest version, the codewords, their layout, the best mask and the final matrix |
| Encoder.GenerateAsWritten | lib/qr-generator.ts:359-400 | as Generate, but the codewords are the program's: the interleaved stream followed by zero EC bytes |

## Left out

- The text is taken as its UTF-8 bytes; `TextEncoder` is not part of this model.
- Rendering the SVG (lines 402-418) and the `moduleSize` and `quietZone` parameters are not modelled; the model ends with the final module matrix.
- The thrown error of getVersion is the `Err` case of a `Result` with the same message.
- `bestScore = Infinity` is `None` of an `Option`; any first score is lower than it.
- Penalty rules 3 and 4 of the QR standard (finder-like patterns and dark-module balance) are absent from the source, so the model has only rules 1 and 2.
- Version-information blocks (versions 7 and up) are never placed by the source, and the model places none either.
- Versions.TotalsAsWritten: the version 10 row has 28 EC codewords per block, which yields 356 codewords rather than the stated 346. The model keeps the row as written. placeData simply drops the bits that find no cell.
- Bitstream.CountField: the count field is 8 bits for every version, including version 10, where the standard uses 16 bits. The model keeps the 8-bit field. Every message that fits (at most 214 bytes) has a length below 256, so the field never truncates.
- The EXP and LOG tables are functions, ExpTable and LogTable. BuildTables builds the same tables in arrays, and GfMul reads the function values.
- Encoder.Generate, Encoder.GenerateAsWritten, Encoder.BuildSymbol, Encoder.Candidate, Encoder.Patterns and Encoder.PlaceCodewords return fresh arrays or modify one. Their contracts use `fresh` or `modifies`. What they produce is described by the value-level lemmas Final*, LayoutAt and DataCell.
- Encoder.TemplateMatrix: its contract gives only the shape. The cell values are those of Grid.Template, and the properties the encoder relies on are in Encoder.TemplateIsReserved.
- ErrorCorrection.BlockRemainder uses the corrected polyMod (Polynomial.PolyMod); the program's polyMod gives every block zero EC bytes, which ErrorCorrection.BlockRemainderAsWritten models.
- ErrorCorrection.ProcessBlocks uses the corrected polyMod; the program's processBlocks is ErrorCorrection.ProcessBlocksAsWritten.
- ErrorCorrection.AddErrorCorrection uses the corrected polyMod; the program's result, with all-zero EC bytes, is ErrorCorrection.AddErrorCorrectionAsWritten.
- ErrorCorrection.CodewordsOfRemainders is about the corrected remainders; with the program's zero EC, ErrorCorrection.ZeroEcNotCodeword and Encoder.ZeroCorrectedOnlyIfBalanced say when the result is not a codeword.
- Encoder.Codewords uses the corrected polyMod; the program's codewords are Encoder.CodewordsAsWritten.
- Encoder.Generate uses the corrected polyMod; the symbol the program builds is Encoder.GenerateAsWritten, with the same version, placement and mask selection.
- The reserved and data matrices are two separate arrays, as in the source. No aliasing between them is modelled.

## Findings

| source | as written | input that shows it | evidently intended | confidence | as-written member | corrected member |
|---|---|---|---|---|---|---|
| lib/qr-generator.ts:32-40 | the inner loop multiplies by `out[i]` after its first step, with `gen[0] = 1`, has already cleared `out[i]`, so every later step XORs zero and the remainder is the zero padding | any block, e.g. the one-byte block [1] with 10 EC codewords: the returned EC is ten zeros, and the block followed by them is not zero at 2^0, so it is not a codeword; in the whole program every EC codeword of the symbol is 0 (Encoder.GenerateAsWritten) | read the coefficient `out[i]` once before the inner loop and subtract that multiple of the generator | high, not executed | Polynomial.PolyModAsWritten | Polynomial.PolyMod |
