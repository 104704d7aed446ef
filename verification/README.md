# Verified core of the Jero node

This project models the algorithms of the Jero (Monero) node that keep data recoverable and
consistent, and proves what they promise for all inputs.  `dafny verify dfyconfig.toml` checks it.

**QR codes.**  The encoder of external/qrcodegen is modelled from field arithmetic to the finished
symbol.  GF(2^8/0x11D) is shown to be a field in which 0x02 generates every non-zero element; the
divisor polynomial is the product of its roots; data with its remainder vanishes at all of them,
and words of the code are farther apart than the number of check bytes (section 7.5 of
ISO/IEC 18004:2015).  Interleaving, the zigzag scan, masking and the segment format each have an
inverse, and `Pipeline.EncodeSymbol` puts them together: the modules it leaves read back as the
segments.  A byte is a sequence of eight bits, most significant first.

**Bootstrap files.**  The export file is a log of length-prefixed chunks.  Whatever prefix of it
survives a crash, reopening keeps exactly the whole chunks, the nested batched scan counts them
exactly, and resuming yields the uninterrupted file.  The importer's seek lands on the right chunk
exactly when the file starts below the start height.  A file is the block number in its header and
the bytes after the header; offsets count from there; the package of a block is a fixed function of
its height.

**Line editor.**  The edit buffer of external/linenoise is a byte array with terminator, cursor,
fold arrays and history.  Each operation in place is proved to be an operation on a value (text,
cursor, folds), and each key a step of a session (line, history, buffer size).  Over every run
folds stay in order and hide exactly the bytes they were made for.  When only whole UTF-8
characters are typed and pasted, a session splits one exactly when it recalls an entry too long for
the buffer whose cut falls inside a character, so never with a history that fits.  The two-pass
renderer emits no control byte and its sanitizer is idempotent on all byte strings.

**Ring-reference graph.**  The ancestry tool's forward pass computes the transitive closure, can
be stopped and resumed on a longer chain, and agrees with the backward walk, which keeps no
visited set, ends on every chain and counts distinct paths.  The depth tool finds the length of a
shortest path to a coinbase, and on a chain there always is one.  A chain is a list of blocks
whose transactions are distinct and spend outputs of earlier transactions; caches are part of the
state and shown to change no answer.

**Block store.** Adding and popping blocks over tables with the semantics of the LMDB store.
After any run the store is the one built from the remaining blocks; spent keys, numbering,
lookups and the links between blocks follow. The running count of outputs under amount zero
starts anew at every block below major version 4, and the exact condition under which it counts
all is proved. The tests for "coinbase stored under amount zero" differ between adding and
removing; they agree on every transaction the parser lets through, and removal undoes addition
for exactly those. The one kind that can be added and not removed, a generation input beside a
spending one, takes a caller that builds the transaction itself: whatever comes from the network
or a file has been parsed.

**Logging.**  The wildcard matcher, the category filter with its cache and fast rejection, the rule
parser, and the in-place UTF-8 canonicalizer.

Where a writer and a reader, or a method and its specification, share a function, what that function
computes is also stated without it: `SymbolFacts` for the parts of a symbol, `LineLaws` for the
editing keys, `RingOutputs` for the ring-reference tools over raw inputs.

Functions ending in a failure return an option or an outcome value where the program throws or
returns an error.  Integers are unbounded unless a width matters: the nine-bit intermediate of the
field product, 64-bit heights in the import seek, 32-bit counters of the backward walk and INT_MAX
in bit totals and the category filter are written out.

Where comments and code disagree the code is followed. blockchain_db.h (lines 1140-1142) says
that popping removes all transactions and outputs that adding the block created; this holds for
the transactions the parser lets through (`BlockUndo.PopUndoesAdd`). The comment on
`linenoiseEditGrow` says growth stops at the maximum; an empty buffer with a maximum below 16
grows to 16 (`LineEditor.NewSize`). The comment on history recall says an entry is cut when it
does not fit a fixed buffer; a growable buffer cuts an entry beyond its maximum to its current
size (`LineEditor.Editor.HistoryMove`), and the cut entry is what the history keeps
(`LineEditor.ThereAndBack`).

## Model

| member | source | states |
|---|---|---|
| GaloisField.Multiply | external/qrcodegen/QrCode.cpp:772-782 | the shift-and-xor loop on nine-bit intermediates computes the field product; the shifted value never leaves nine bits |
| GaloisField.MulCommutative | external/qrcodegen/QrCode.cpp:772-782 | the product in GF(2^8/0x11D) is commutative for all bytes |
| GaloisField.MulAssociative | external/qrcodegen/QrCode.cpp:772-782 | the product is associative for all bytes |
| GaloisField.MulDistributive | external/qrcodegen/QrCode.cpp:772-782 | the product distributes over xor for all bytes |
| FieldOrder.OrderOfTwo | external/qrcodegen/QrCode.cpp:744-744 | no power of 0x02 below the 255th is one, so 0x02 is a generator element as the comment there claims |
| FieldOrder.TwoGenerates | external/qrcodegen/QrCode.cpp:744-744 | every non-zero byte is a power of 0x02 |
| FieldOrder.PowersDistinct | external/qrcodegen/QrCode.cpp:744-754 | the roots of the generator polynomial are pairwise distinct and non-zero |
| FieldOrder.MulNonZero | external/qrcodegen/QrCode.cpp:772-782 | there are no zero divisors |
| SymbolFacts.TwoTimes | external/qrcodegen/QrCode.cpp:772-782 | twice a byte is the byte shifted, less 0x11D if a bit was shifted out, which with the field laws fixes every product |
| ReedSolomon.MultiplyByFactor | external/qrcodegen/QrCode.cpp:747-752 | the in-place inner loop multiplies the polynomial by (x - root) |
| ReedSolomon.ComputeDivisor | external/qrcodegen/QrCode.cpp:734-757 | a degree outside 1..255 is refused; otherwise the loop yields the divisor polynomial |
| ReedSolomon.DivisorIsRootProduct | external/qrcodegen/QrCode.cpp:734-757 | with its implicit leading term the divisor equals (x-2^0)(x-2^1)...(x-2^(degree-1)) at every x |
| ReedSolomon.ComputeRemainder | external/qrcodegen/QrCode.cpp:759-769 | the sliding loop computes the remainder, for data and divisors of any length |
| ReedSolomon.RemainderCongruent | external/qrcodegen/QrCode.cpp:759-769 | at every root the remainder agrees with the data shifted up by the degree |
| ReedSolomon.CodewordVanishes | external/qrcodegen/QrCode.cpp:734-782 | data of any length followed by its remainder is a polynomial that is zero at 2^0 .. 2^(degree-1) |
| CodeDistance.Vandermonde | external/qrcodegen/QrCode.cpp:734-769 | a sum of non-zero multiples of distinct powers cannot vanish at as many consecutive exponents as it has terms |
| CodeDistance.CodewordsFarApart | external/qrcodegen/QrCode.cpp:734-769 | two different codewords of at most 255 bytes differ in more than degree places |
| CodeDistance.CorrectionIsUnique | external/qrcodegen/QrCode.cpp:734-769 | no word of at most 255 bytes lies within half the degree of two different codewords |
| CodeDistance.EncodedBlocksFarApart | external/qrcodegen/QrCode.cpp:734-769 | encoding two different data blocks of equal length gives words that differ in more than degree places |
| CodeDistance.RemainderIsUnique | external/qrcodegen/QrCode.cpp:759-769 | data with given check bytes is a codeword if and only if the check bytes are the computed remainder |
| Interleave.Derive | external/qrcodegen/QrCode.cpp:534-538 | the block count, check length and raw size determine short and long blocks whose sizes add up to the raw size |
| Interleave.LayoutTotals | external/qrcodegen/QrCode.cpp:534-561 | the data blocks use up all data bytes and the columns emit exactly the raw codewords |
| Interleave.MakeBlocks | external/qrcodegen/QrCode.cpp:540-551 | each block holds its slice of the data and its check bytes, short blocks with a pad slot |
| Interleave.AddEccAndInterleave | external/qrcodegen/QrCode.cpp:529-565 | data of the wrong length is refused; otherwise exactly the raw number of codewords comes out, column by column, pad slots left out |
| Deinterleave.BlocksReadBack | external/qrcodegen/QrCode.cpp:529-565 | a de-interleaver recovers every data block and its check bytes |
| Deinterleave.DataReadBack | external/qrcodegen/QrCode.cpp:529-565 | de-interleaving and joining the data blocks gives back the data |
| Deinterleave.StreamDetermined | external/qrcodegen/QrCode.cpp:553-561 | two streams with the same block words are the same, so interleaving loses and repeats nothing |
| Deinterleave.EmittedBlockWord | external/qrcodegen/QrCode.cpp:529-565 | every block read from the stream is a codeword of the Reed-Solomon code |
| Deinterleave.DamageShows | external/qrcodegen/QrCode.cpp:529-565 | changing a stream in at most blockEccLen places of each block leaves some block that is no codeword |
| Deinterleave.DamageIsCorrectable | external/qrcodegen/QrCode.cpp:529-565 | a received stream within blockEccLen / 2 bytes of an emitted one in every block determines the data |
| SymbolFacts.FirstColumns | external/qrcodegen/QrCode.cpp:553-561 | byte i of block b stands at place i * numBlocks + b of the stream, for the bytes every block has |
| SymbolFacts.LongColumn | external/qrcodegen/QrCode.cpp:553-561 | then come the last bytes of the long blocks, in order |
| SymbolFacts.CheckColumns | external/qrcodegen/QrCode.cpp:540-561 | then check byte i of every block in turn, and it is byte i of the remainder of that block |
| Zigzag.ScanMembers | external/qrcodegen/QrCode.cpp:574-589 | for every odd size from 21 the scan visits exactly the modules outside column 6 |
| Zigzag.ScanNoDuplicates | external/qrcodegen/QrCode.cpp:574-589 | no module is visited twice |
| Zigzag.ScanAt | external/qrcodegen/QrCode.cpp:574-589 | for every symbol size, where each place of the scan is: column pairs from right to left past column 6, right column first, the first pair upward and then in turn |
| Zigzag.ScanSteps | external/qrcodegen/QrCode.cpp:574-589 | the scan begins in the bottom right corner; each right module is followed by its left neighbour, that by the right module one row on, and the last of a pair by the next pair in the same row |
| Zigzag.DrawFrame | external/qrcodegen/QrCode.cpp:568-593 | drawing changes no module outside the free cells of the scan |
| Zigzag.DrawValue | external/qrcodegen/QrCode.cpp:568-593 | the k-th free module of the scan carries the k-th bit |
| Zigzag.DrawReadBack | external/qrcodegen/QrCode.cpp:568-593 | if there is room, reading free modules in scan order gives the bits, and function modules and left-over modules are untouched |
| Penalty.LinePenaltyMeaning | external/qrcodegen/QrCode.cpp:623-666 | the incremental history scan of a line scores its runs of five or more and counts every finder-like pattern of the bordered line |
| Penalty.ScoreRow | external/qrcodegen/QrCode.cpp:623-643 | the row loop with its seven-entry history computes the line score |
| Penalty.ScoreColumn | external/qrcodegen/QrCode.cpp:645-666 | the column loop computes the line score of the column |
| Penalty.CountBlocks | external/qrcodegen/QrCode.cpp:668-677 | the number of two-by-two blocks of one colour |
| Penalty.CountBlack | external/qrcodegen/QrCode.cpp:679-686 | the number of black modules |
| Penalty.ImbalanceIsSmallest | external/qrcodegen/QrCode.cpp:687-691 | the balance term is the smallest k for which the black share lies within the k-th band around one half |
| Penalty.CountsInRange | external/qrcodegen/QrCode.cpp:785-811 | for every line and every place in it, the newest finished run in the history is at most three times the size, where a run ends and where the line is terminated alike, so the range assertion of the pattern count fires in neither place |
| Penalty.ScoreBounded | external/qrcodegen/QrCode.cpp:620-692 | the score of any grid up to size 177 stays below the largest long value |
| SymbolFacts.RunsAre | external/qrcodegen/QrCode.cpp:623-643 | the runs that are scored, written out in turn from white, are the line |
| SymbolFacts.PatternsAre | external/qrcodegen/QrCode.cpp:785-792 | a pattern is counted exactly for runs 1:1:3:1:1 of some unit with four units of white on one side and one on the other, once for each such side |
| SymbolFacts.LineScoreIs | external/qrcodegen/QrCode.cpp:623-666 | a line scores three for a run of five, one more for each further module, and forty for each pattern |
| SymbolFacts.CountsAre | external/qrcodegen/QrCode.cpp:668-686 | the counts are the sizes of the set of black modules and of the set of fields of four modules of one colour |
| SymbolFacts.ScoreIs | external/qrcodegen/QrCode.cpp:620-692 | the score adds all rows and columns, three for each such field and ten for each step off balance |
| Penalty.GetPenaltyScore | external/qrcodegen/QrCode.cpp:620-692 | the loops together compute the score |
| Masking.MaskInvolution | external/qrcodegen/QrCode.cpp:596-617 | applying a mask twice restores the grid, for every function grid |
| SymbolFacts.MasksByTwo | external/qrcodegen/QrCode.cpp:604-605 | mask 0 is a checkerboard and mask 1 alternates by rows, both inverting the top left module |
| SymbolFacts.MasksByThree | external/qrcodegen/QrCode.cpp:606-607 | mask 2 inverts every third column from the first and mask 3 every third diagonal |
| SymbolFacts.MaskOfFields | external/qrcodegen/QrCode.cpp:608-608 | mask 4 is a checkerboard of fields three wide and two high |
| SymbolFacts.ProductMasks | external/qrcodegen/QrCode.cpp:609-611 | masks 5, 6 and 7 by the remainders of column and row modulo 2 and 3 |
| Masking.FormatReadBack | external/qrcodegen/QrCode.cpp:232-240 | the first five format bits determine error correction level and mask |
| SymbolFacts.FormatWordIs | external/qrcodegen/QrCode.cpp:445-453 | all fifteen format bits of every level and mask as sums of their five data bits |
| SymbolFacts.FormatPlaces | external/qrcodegen/QrCode.cpp:455-470 | where bit i of the format word stands in both copies, and the module that is always black |
| Masking.FormatModuleAt | external/qrcodegen/QrCode.cpp:445-470 | each of the 31 format modules carries its bit |
| Masking.FormatFrame | external/qrcodegen/QrCode.cpp:445-470 | format drawing leaves every other module alone |
| Masking.FormatOverwrites | external/qrcodegen/QrCode.cpp:445-470 | drawing format bits again overwrites the earlier ones completely |
| Masking.MaskFormatCommute | external/qrcodegen/QrCode.cpp:338-356 | masking and format drawing commute because format modules are function modules |
| Symbol.QrCode.SetFunctionModule | external/qrcodegen/QrCode.cpp:516-521 | one module is set and marked |
| Symbol.QrCode.DrawFormatBits | external/qrcodegen/QrCode.cpp:445-470 | the modules become those with the format word drawn; only format cells are newly marked |
| Symbol.QrCode.ApplyMask | external/qrcodegen/QrCode.cpp:596-617 | a mask outside 0..7 is refused; otherwise exactly the masked grid results |
| Symbol.QrCode.DrawCodewords | external/qrcodegen/QrCode.cpp:568-593 | a wrong length is refused; otherwise the grid is the drawing along the scan, and the final assertion fails just when the bits did not all fit |
| Symbol.QrCode.ChooseMask | external/qrcodegen/QrCode.cpp:338-352 | the chosen mask has the least penalty of all eight candidates each drawn with its own format bits, the lowest index on a tie |
| Symbol.QrCode.Finish | external/qrcodegen/QrCode.cpp:338-356 | the finished grid is the base grid with the chosen mask and its format bits |
| Tables.RawCodewordsAre | external/qrcodegen/QrCode.cpp:711-724 | the raw module formula of every version, and that it stays within 208..29648 |
| Tables.TablesOk | external/qrcodegen/QrCode.cpp:827-843 | every table entry leaves at least one data byte in each block and blocks of at most 255 bytes |
| Tables.LayoutOf | external/qrcodegen/QrCode.cpp:727-731 | the block layout of each version and level is consistent with getNumDataCodewords |
| Segments.FieldValue | external/qrcodegen/QrCode.cpp:855-860 | a value that fits in a bit field is the value of that field |
| SymbolFacts.FieldBit | external/qrcodegen/QrCode.cpp:855-860 | bit i of a field is the bit of its value with that weight, highest first |
| SymbolFacts.CountWidths | external/qrcodegen/QrCode.cpp:55-64 | mode indicators and character count widths of each mode in the three ranges of versions |
| Segments.BitBuffer.AppendBits | external/qrcodegen/QrCode.cpp:855-860 | appends exactly the field, or refuses a value or length out of range and changes nothing |
| Segments.MakeNumeric | external/qrcodegen/QrCode.cpp:77-97 | a string with a non-digit is refused; otherwise groups of three digits become ten, seven or four bits |
| Segments.MakeAlphanumeric | external/qrcodegen/QrCode.cpp:100-120 | a character outside the set is refused; otherwise pairs become eleven bits and a last single six |
| Segments.MakeBytes | external/qrcodegen/QrCode.cpp:67-74 | eight bits for each byte |
| SymbolFacts.NumericGroups | external/qrcodegen/QrCode.cpp:77-97 | the exact length, and each ten bits are the number three digits write |
| SymbolFacts.AlphanumericGroups | external/qrcodegen/QrCode.cpp:100-117 | the exact length, and each eleven bits are 45 times one place in the character set plus another |
| SegmentParser.ReadNumericBack | external/qrcodegen/QrCode.cpp:77-97 | numeric bits parse back to the digits, whatever follows |
| SegmentParser.ReadAlphanumericBack | external/qrcodegen/QrCode.cpp:100-120 | alphanumeric bits parse back to the text |
| SegmentParser.ReadBytesBack | external/qrcodegen/QrCode.cpp:67-74 | byte segments parse back to the bytes |
| SegmentParser.StreamReadBack | external/qrcodegen/QrCode.cpp:287-293 | the concatenated segments with mode and count fields parse back to the same modes, counts and characters |
| Encoder.GetTotalBits | external/qrcodegen/QrCode.cpp:177-191 | the loop computes the total or -1 |
| Encoder.TotalIsLength | external/qrcodegen/QrCode.cpp:177-191 | the total is the exact length of the bit string if and only if every count field fits and the sum does not pass INT_MAX; otherwise -1 |
| Encoder.FindVersion | external/qrcodegen/QrCode.cpp:260-277 | the smallest version in range that holds the segments, or none |
| Encoder.BoostLevel | external/qrcodegen/QrCode.cpp:281-285 | boosting settles on the highest level that still fits |
| Encoder.AppendPadding | external/qrcodegen/QrCode.cpp:297-308 | terminator, zeros to a byte boundary and alternating pad bytes fill the capacity exactly; no append is out of range |
| SymbolFacts.PaddingIs | external/qrcodegen/QrCode.cpp:297-308 | four zeros and zeros up to the next codeword and then pad bytes, or zeros alone where four do not fit |
| SymbolFacts.PadByteAt | external/qrcodegen/QrCode.cpp:306-308 | the pad bytes are 0xEC and 0x11 in turn, 0xEC first |
| Encoder.PaddingEndsStream | external/qrcodegen/QrCode.cpp:297-308 | the padding reads as the end of the stream |
| Encoder.Pack | external/qrcodegen/QrCode.cpp:310-313 | packing into bytes loses no bit |
| Encoder.EncodeSegments | external/qrcodegen/QrCode.cpp:255-317 | the four outcomes, the version and level chosen, the codeword count, and that the codewords are the segments followed by padding |
| Encoder.EncodedReadBack | external/qrcodegen/QrCode.cpp:255-317 | the codewords parse back to the contents of all segments |
| Pipeline.Build | external/qrcodegen/QrCode.cpp:320-360 | check bytes, interleaving, drawing and mask choice in sequence; fails only when the free modules are too few |
| Pipeline.FormatBitsIdentify | external/qrcodegen/QrCode.cpp:445-470 | the format modules of a finished symbol identify its level and mask |
| Pipeline.DrawnBitsReadBack | external/qrcodegen/QrCode.cpp:320-360 | unmasking and scanning a finished symbol gives the interleaved stream |
| Pipeline.SymbolReadBack | external/qrcodegen/QrCode.cpp:255-360 | decoding a finished symbol gives back the segment contents: format, unmask, scan, de-interleave, parse |
| Pipeline.EncodeSymbol | external/qrcodegen/QrCode.cpp:255-360 | from segments to modules in one call: refusals, the smallest version that fits, and modules whose own format bits name one level and mask with which they decode to the contents; drawing succeeds exactly when the function patterns leave room |
| ChunkLog.CutLog | src/blockchain_utilities/bootstrap_file.cpp:202-239 | every prefix of a log of framed chunks is some whole chunks and a proper prefix of the next one |
| ChunkLog.FrameBytes | src/blockchain_utilities/bootstrap_file.cpp:202-239 | a framed chunk is its size in four bytes, lowest first, and the chunk |
| ChunkLog.WholeChunkAhead | src/blockchain_utilities/bootstrap_file.cpp:452-500 | in front of a flushed chunk of any size the scanner reads its size if that is between 1 and the buffer size, and otherwise reports a bad size |
| ChunkLog.TailAhead | src/blockchain_utilities/bootstrap_file.cpp:452-500 | in front of an interrupted write the scanner reports the end or an incomplete chunk, never a bad size |
| BootstrapFile.CountBytes | src/blockchain_utilities/bootstrap_file.cpp:439-514 | the chunk loop walks exactly the chunks asked for, at least one, and reports end, incomplete chunk or abort with the offset of the last whole chunk |
| BootstrapFile.BatchStep | src/blockchain_utilities/bootstrap_file.cpp:561-584 | one batch of the nested scan extends the walk of the whole file |
| BootstrapFile.CountBlocks | src/blockchain_utilities/bootstrap_file.cpp:526-600 | the batched scan reports the exact number of whole chunks of the file and the position of the first batch near the height sought |
| BootstrapFile.ScanCutLog | src/blockchain_utilities/bootstrap_file.cpp:526-600 | after any cut of a log the scan finds exactly the surviving whole chunks |
| BootstrapFile.Exporter.OpenWriter | src/blockchain_utilities/bootstrap_file.cpp:69-144 | a new file starts at the first block; an existing one loses its incomplete tail and continues after its last whole chunk; a bad size is refused |
| BootstrapFile.Exporter.FlushChunk | src/blockchain_utilities/bootstrap_file.cpp:202-239 | appends the framed buffer whatever its size, and reports a buffer whose size has no 32-bit form |
| BootstrapFile.Exporter.StoreBlockchainRaw | src/blockchain_utilities/bootstrap_file.cpp:295-353 | the file afterwards is its old whole chunks followed by those of all blocks that were missing |
| BootstrapFile.ResumeAfterCut | src/blockchain_utilities/bootstrap_file.cpp:102-131 | for every cut of an export, reopening keeps the longest run of whole chunks and resuming gives the uninterrupted file |
| ImportSeek.Find | src/blockchain_utilities/blockchain_import.cpp:240-315 | early return, scan and skip as one outcome |
| ImportSeek.EarlyReturnExactly | src/blockchain_utilities/blockchain_import.cpp:251-256 | for all 64-bit heights, the exact condition of the early return: the file ends at or before the start height, where an empty file at block 0 counts as ending at the top of the range and an end beyond the range as wrapped |
| ImportSeek.PositionIsOfSeekHeight | src/blockchain_utilities/blockchain_import.cpp:250-256 | past the early return the position is that of the chunk for seek_height |
| ImportSeek.LandsOnStartHeight | src/blockchain_utilities/blockchain_import.cpp:304-315 | the skip lands on the chunk of the start height if and only if the first block is below it; at equality it lands one chunk later, above it quits |
| ImportSeek.UnsetExactly | src/blockchain_utilities/blockchain_import.cpp:244-256 | the position is used unset exactly for an empty file at block 0 with a start height of at least 12 |
| Utf8.PrevCharLen | external/linenoise/linenoise.c:270-322 | the backward loop finds the start of the cluster, strictly before the position and never before the text |
| Utf8.NextCharLen | external/linenoise/linenoise.c:326-371 | the forward loop finds the end of the cluster, strictly after the position and never past the text |
| LineLaws.NextIsChar | external/linenoise/linenoise.c:326-371 | a step right over a character that does not join with the next is over that character alone |
| LineLaws.PrevIsChar | external/linenoise/linenoise.c:270-322 | a step left over a character that does not join with the one before is over that character alone |
| LineLaws.NextTakes | external/linenoise/linenoise.c:326-371 | an extending character, one behind a joiner and the second of two regional indicators are taken along to the right |
| LineLaws.PrevTakes | external/linenoise/linenoise.c:270-322 | and to the left |
| Sanitize.SanitizeForDisplay | external/linenoise/linenoise.c:1006-1034 | the measuring and the writing call agree to the byte, and the writing call touches nothing else |
| Sanitize.OutputIsClean | external/linenoise/linenoise.c:1006-1034 | whatever the input, invalid UTF-8 included, the output decodes to no control character |
| Sanitize.FixedPoints | external/linenoise/linenoise.c:1006-1034 | a text is shown unchanged if and only if it decodes to no control character |
| Sanitize.Idempotent | external/linenoise/linenoise.c:1006-1034 | sanitizing twice is sanitizing once, for all byte strings |
| Sanitize.NoControlBytes | external/linenoise/linenoise.c:1006-1034 | no output byte is below 0x20 or equal to 0x7f |
| Sanitize.ControlShown | external/linenoise/linenoise.c:1006-1034 | a control byte is shown as a caret and the letter 64 places up, a delete byte as a caret and a question mark |
| Sanitize.HighControlShown | external/linenoise/linenoise.c:1016-1028 | a control character of two bytes is shown as a backslash, an x and its number in two hexadecimal digits |
| Sanitize.SplitsAtBoundary | external/linenoise/linenoise.c:1006-1034 | at a character boundary the shown text splits into the shown parts |
| FoldedLine.InsertKeepsOk | external/linenoise/linenoise.c:1193-1207 | adjusting after an insertion keeps folds sorted, disjoint, non-empty and in bounds |
| FoldedLine.DeleteKeepsOk | external/linenoise/linenoise.c:1211-1226 | so does adjusting after a deletion |
| FoldedLine.AddKeepsOk | external/linenoise/linenoise.c:1150-1163 | adding a range apart from all folds keeps them in order |
| FoldedLine.InsertKeepsHidden | external/linenoise/linenoise.c:1193-1207 | the texts hidden after an insertion are a subsequence of those hidden before |
| FoldedLine.DeleteKeepsHidden | external/linenoise/linenoise.c:1211-1226 | the texts hidden after a deletion are a subsequence of those hidden before |
| LineOps.StepOk | external/linenoise/linenoise.c:1547-1728 | every operation keeps the cursor within the line and the folds in order |
| LineOps.StepHidden | external/linenoise/linenoise.c:1547-1728 | after an operation each fold hides what some fold hid before or what the operation itself folded away |
| LineOps.FoldsNeverTear | external/linenoise/linenoise.c:1547-1728 | over every run from any line each fold hides a range that was hidden at the start or one whole pasted or recalled range, byte for byte |
| LineOps.InsertUndoneExactly | external/linenoise/linenoise.c:1547-1564 | deleting what was inserted gives the line back if and only if the cursor was not inside a fold |
| LineLaws.TypedThenBackspace | external/linenoise/linenoise.c:1547-1564 | typing an ordinary character outside a fold and pressing backspace gives the line back |
| LineLaws.PlainDeletes | external/linenoise/linenoise.c:1684-1710 | on an unfolded ASCII line backspace takes the byte before the cursor, delete the one at it, and the two kill keys all after the cursor and all |
| LineLaws.PlainMoves | external/linenoise/linenoise.c:1609-1636 | there the arrows move by one byte and stop at the ends, home and end go there |
| LineLaws.PlainWord | external/linenoise/linenoise.c:1712-1728 | there the word key takes the spaces before the cursor and the longest run of other bytes before them |
| LineLaws.PlainSwap | external/linenoise/linenoise.c:2062-2081 | there the two bytes around the cursor change places and the cursor goes behind them |
| LineLaws.FoldGoesWhole | external/linenoise/linenoise.c:1684-1710 | a fold that ends or begins at the cursor goes as a whole under backspace or delete, is stepped over as a whole, and nothing else changes but the places of later folds |
| LineLaws.PasteFolds | external/linenoise/linenoise.c:1962-1973 | pasted text with a newline becomes a fold of just that text when there is a slot for it |
| LineLaws.RecallKeepsContext | external/linenoise/linenoise.c:940-979 | a long ASCII entry with newlines inside is shown with eight bytes of context at both ends |
| LineOps.SwapHidden | external/linenoise/linenoise.c:2062-2081 | a transposition changes no hidden text |
| WholeChars.NextEndBetween | external/linenoise/linenoise.c:326-371 | in well-formed text a step right goes from one character boundary to another |
| WholeChars.PrevStartBetween | external/linenoise/linenoise.c:249-322 | in well-formed text a step left goes from one character boundary to another |
| WholeChars.StepGood | external/linenoise/linenoise.c:1547-1728 | every operation that puts whole characters in the line, for a history entry what is shown of it, keeps text, cursor and fold edges on character boundaries |
| WholeChars.CharsNeverSplit | external/linenoise/linenoise.c:1547-1728 | no run of such operations splits a character or leaves the cursor or a fold edge inside one |
| WholeChars.TextCut | external/linenoise/linenoise.c:1664-1671 | a text of whole characters cut at a byte is one exactly when that byte continues no character |
| WholeHistory.ShownIsTextExactly | external/linenoise/linenoise.c:1664-1671 | what is shown of an entry of whole characters is whole characters if and only if the entry fits or the byte at the buffer length continues no character |
| WholeHistory.RecallGoodExactly | external/linenoise/linenoise.c:1664-1682 | recalling such an entry gives a line on character boundaries exactly under that condition |
| WholeHistory.EntryIsSplit | external/linenoise/linenoise.c:1664-1671 | a two-byte character recalled in a one-byte buffer is split |
| WholeHistory.StepWholeExactly | external/linenoise/linenoise.c:1644-1682 | with whole characters in line and entries and only whole characters typed and pasted, a key or move leaves the line on boundaries if and only if it is no move that cuts its entry inside a character; the entries stay whole |
| WholeHistory.SessionWholeExactly | external/linenoise/linenoise.c:1999-2208 | a session of such keys is whole at every point if and only if none of its moves cuts an entry inside a character |
| WholeHistory.FittingHistoryNeverSplits | external/linenoise/linenoise.c:1999-2208 | from a history whose entries are no longer than the buffer can become, no session of such keys ever splits a character |
| Render.CountLines | external/linenoise/linenoise.c:908-914 | one more than the newlines of the hidden text |
| Render.MarkerFits | external/linenoise/linenoise.c:895-933 | for every length of a size_t the marker and its terminator fit the 64 bytes it is formatted into |
| Render.MarkerReads | external/linenoise/linenoise.c:923-935 | the number in a marker is that of the hidden lines, or of the hidden bytes if they are one line |
| Render.Measure | external/linenoise/linenoise.c:1074-1085 | the first pass computes the exact length of the shown line |
| Render.ShownParts | external/linenoise/linenoise.c:1074-1106 | an unfolded line is shown whole; a fold is replaced by its marker and the text around it shown |
| Render.RenderBuffer | external/linenoise/linenoise.c:1050-1117 | the second pass fills exactly that length with sanitized gaps and fold markers, ends it with a zero byte, and places the cursor, held to the end |
| Render.LineHarmless | external/linenoise/linenoise.c:1050-1117 | no byte of the shown line is a control byte, whatever the line holds |
| Render.CursorIsExact | external/linenoise/linenoise.c:1090-1117 | for whole characters the cursor falls within the shown line, right after what the text before it shows |
| FoldList.Folds.Add | external/linenoise/linenoise.c:1150-1163 | the shifting loop inserts in order; a full list or an empty range changes nothing |
| FoldList.Folds.Remove | external/linenoise/linenoise.c:1171-1177 | takes one range out of both arrays |
| FoldList.Folds.AdjustAfterInsert | external/linenoise/linenoise.c:1193-1207 | the in-place loop equals the adjustment on values |
| FoldList.Folds.AdjustAfterDelete | external/linenoise/linenoise.c:1211-1226 | the in-place loop equals the adjustment on values |
| FoldList.Folds.OverlapsRange | external/linenoise/linenoise.c:1180-1189 | whether a range meets a fold |
| LineEditor.NewSize | external/linenoise/linenoise.c:1528-1535 | the loop computes the doubled size, which reaches what is needed without passing the maximum, except that an empty buffer starts at 16 |
| LineEditor.DoubledIs | external/linenoise/linenoise.c:1526-1533 | the size is doubled as often as needed and no more, unless that would pass the maximum |
| LineEditor.Editor.Grow | external/linenoise/linenoise.c:1514-1542 | succeeds exactly when the limit allows; the line is unchanged |
| LineEditor.Editor.Insert | external/linenoise/linenoise.c:1547-1564 | refused exactly when the limit is passed; otherwise the insertion on values |
| LineEditor.Editor.Paste | external/linenoise/linenoise.c:1962-1973 | pasted text with a newline is inserted and folded |
| LineEditor.Editor.NextLen | external/linenoise/linenoise.c:1121-1132 | skips a whole fold that begins here, or one cluster |
| LineEditor.Editor.PrevLen | external/linenoise/linenoise.c:1136-1147 | skips a whole fold that ends here, or one cluster |
| LineEditor.Editor.MoveLeft | external/linenoise/linenoise.c:1609-1614 | the step left on values |
| LineEditor.Editor.MoveRight | external/linenoise/linenoise.c:1617-1622 | the step right on values |
| LineEditor.Editor.MoveHome | external/linenoise/linenoise.c:1625-1630 | the cursor goes to the start |
| LineEditor.Editor.MoveEnd | external/linenoise/linenoise.c:1633-1638 | the cursor goes to the end |
| LineEditor.Editor.RemoveRange | external/linenoise/linenoise.c:1687-1709 | moving the tail down and adjusting the folds is the cut on values, terminator included |
| LineEditor.Editor.Delete | external/linenoise/linenoise.c:1687-1696 | deletes the fold or cluster at the cursor |
| LineEditor.Editor.Backspace | external/linenoise/linenoise.c:1699-1709 | deletes the fold or cluster before the cursor |
| LineEditor.Editor.DeletePrevWord | external/linenoise/linenoise.c:1713-1728 | deletes back over spaces and then over non-spaces |
| LineEditor.Editor.Swap | external/linenoise/linenoise.c:2062-2081 | exchanges two clusters, or nothing when one is longer than 32 bytes or a fold is touched |
| LineEditor.ExchangedTwice | external/linenoise/linenoise.c:2073-2077 | exchanging the two ranges again restores the text |
| LineEditor.Editor.KillLine | external/linenoise/linenoise.c:2182-2187 | empties the line |
| LineEditor.Editor.KillEnd | external/linenoise/linenoise.c:2188-2193 | cuts the line at the cursor |
| LineEditor.BuildHistoryFold | external/linenoise/linenoise.c:940-981 | the two context loops compute the range folded on recall |
| LineEditor.Editor.HistoryMove | external/linenoise/linenoise.c:1644-1682 | stores the edited text in its entry, moves within the history or stays at its ends, and shows the entry cut to what fits |
| LineEditor.Editor.Perform | external/linenoise/linenoise.c:2027-2208 | each key, paste or move turns line, history and buffer size into those the session step gives |
| LineEditor.ThereAndBack | external/linenoise/linenoise.c:1644-1682 | going one entry away and back always shows the edited text again; the entries are those with the edited text stored if and only if the visited entry fits the buffer or its maximum, and otherwise that entry is left cut |
| LineEditor.LongEntryIsCut | external/linenoise/linenoise.c:1652-1669 | a three-byte entry looked at in a fixed buffer of two bytes has lost its last byte in the history |
| RingGraph.ClosureIsReachability | src/blockchain_utilities/blockchain_ancestry.cpp:548-577 | the closure of ring references is exactly what ring-reference paths reach |
| RingGraph.CountIsPathCount | src/blockchain_utilities/blockchain_ancestry.cpp:178-185 | the count of a walk that follows every reference is the number of distinct ring-reference paths |
| RingGraph.CountPositive | src/blockchain_utilities/blockchain_ancestry.cpp:661-710 | an output is met at all if and only if it is in the closure |
| ChainDb.RefAt | src/blockchain_utilities/blockchain_ancestry.cpp:280-331 | each ring member resolves to an earlier transaction |
| ChainDb.AncestryStep | src/blockchain_utilities/blockchain_ancestry.cpp:553-569 | one more ring member adds its output and all that its creator descends from |
| ChainDb.ToAbsolute | src/cryptonote_basic/cryptonote_format_utils.cpp:1674-1680 | the loop adds up relative offsets as 64-bit words |
| ChainDb.MakeTxData | src/blockchain_utilities/blockchain_ancestry.cpp:88-123 | coinbase flag, rings with absolute offsets and output keys, or a failure on another input type |
| RingOutputs.MemberIs | src/blockchain_utilities/blockchain_ancestry.cpp:88-107 | over the raw inputs: the ring members are what the inputs list, in order and once for each listing, the offset being the sum of key offsets up to there |
| RingOutputs.MembersExactly | src/blockchain_utilities/blockchain_ancestry.cpp:570-576 | an output is a ring member if and only if some input of its amount lists its offset |
| RingOutputs.CreatorMeans | src/blockchain_utilities/blockchain_ancestry.cpp:280-333 | the creator found is the first transaction of the block of the output that holds its key, the miner transaction before the others |
| AncestryTable.TxAdded | src/blockchain_utilities/blockchain_ancestry.cpp:538-572 | adding a transaction to an exact table gives it its exact ancestry and changes no other entry |
| AncestryTable.BlocksAdded | src/blockchain_utilities/blockchain_ancestry.cpp:512-600 | running blocks again, in part already done, leaves the exact table |
| AncestryTable.SavedPass | src/blockchain_utilities/blockchain_ancestry.cpp:512-600 | a pass from any saved state runs to its end and leaves the exact table of the blocks done |
| AncestryTable.ForwardIsClosure | src/blockchain_utilities/blockchain_ancestry.cpp:506-600 | after a full pass each transaction has exactly the outputs its ring-reference paths reach |
| RingOutputs.EntryExactly | src/blockchain_utilities/blockchain_ancestry.cpp:512-600 | after a full pass the entry of a transaction holds exactly what its raw inputs list and what the creators of those descend from |
| RingOutputs.KeysExactly | src/blockchain_utilities/blockchain_ancestry.cpp:525-600 | the blocks done give an entry to each of their transactions that has one, to miner transactions only on request |
| AncestryResume.TableKept | src/blockchain_utilities/blockchain_ancestry.cpp:506-512 | a saved table stays exact while the chain grows |
| AncestryResume.ResumeIsFullPass | src/blockchain_utilities/blockchain_ancestry.cpp:512-600 | stopping after any block, letting the chain grow and resuming from the saved height gives the table of one uninterrupted pass |
| AncestryResume.ResumeWithEither | src/blockchain_utilities/blockchain_ancestry.cpp:512-600 | resuming with either choice about coinbase transactions: the entries are those of the first choice up to the saved height and of the second from it on, and every transaction of the blocks done reads as its exact ancestry |
| AncestryState.State.GetBlock | src/blockchain_utilities/blockchain_ancestry.cpp:228-249 | the block cache, which may lose slots when resized, never changes the answer |
| AncestryState.State.GetTransaction | src/blockchain_utilities/blockchain_ancestry.cpp:251-278 | the transaction cache never changes the answer |
| AncestryState.State.GetOutputTxid | src/blockchain_utilities/blockchain_ancestry.cpp:280-331 | the output cache never changes the answer; a missing output, block or transaction is reported |
| AncestryState.AgreesKept | src/blockchain_utilities/blockchain_ancestry.cpp:228-331 | caches filled earlier agree with the longer chain |
| AncestryState.State.AddTransaction | src/blockchain_utilities/blockchain_ancestry.cpp:538-572 | the nested ring loops are the additions on values |
| AncestryState.State.Refresh | src/blockchain_utilities/blockchain_ancestry.cpp:506-600 | the resumable pass equals the pass on values, stops after the block of a stop request, and from a saved state leaves an exact table |
| AncestryWalk.TxFollowed | src/blockchain_utilities/blockchain_ancestry.cpp:668-708 | taking a transaction off the list keeps counts plus outstanding counts constant and shortens the walk |
| AncestryWalk.BackwardIsForward | src/blockchain_utilities/blockchain_ancestry.cpp:661-710 | the walk meets exactly the outputs of the forward table, and each 32-bit counter is the number of distinct paths modulo 2^32 |
| RingOutputs.WalkExactly | src/blockchain_utilities/blockchain_ancestry.cpp:661-705 | the walk meets exactly what the raw inputs of its start list and all behind it |
| RingOutputs.RefIs | src/blockchain_utilities/blockchain_ancestry.cpp:683-700 | the references among which paths are counted are the listings of the raw inputs, each leading to the creator of the output |
| AncestryState.State.WalkFrom | src/blockchain_utilities/blockchain_ancestry.cpp:661-710 | the worklist without a visited set ends on every chain and reports the counts |
| DepthSearch.FindCreator | src/blockchain_utilities/blockchain_depth.cpp:217-287 | the creating transaction, the miner transaction first |
| DepthSearch.StepTransaction | src/blockchain_utilities/blockchain_depth.cpp:202-303 | a generation input stops the search, ring members add their creators, other inputs fail |
| RingOutputs.NextExactly | src/blockchain_utilities/blockchain_depth.cpp:202-303 | the search goes on to the creator of every output the raw inputs list, and to nothing else |
| DepthSearch.LevelNext | src/blockchain_utilities/blockchain_depth.cpp:189-305 | each level holds exactly the transactions that many references away |
| DepthSearch.MinDepth | src/blockchain_utilities/blockchain_depth.cpp:182-310 | the search ends; the depth is the length of a shortest ring-reference path to a coinbase and at most the position in the chain; a failure names a lookup that fails no farther than any coinbase; on a chain there is no failure |
| DepthSearch.ChainIsGrounded | src/blockchain_utilities/blockchain_depth.cpp:182-310 | on a chain whose spending transactions have ring members, each of them leads to an earlier transaction |
| DepthSearch.ChainStep | src/blockchain_utilities/blockchain_depth.cpp:202-303 | looking at a chain transaction does not fail and leads to earlier transactions only |
| DepthSearch.AwayIsEarlier | src/blockchain_utilities/blockchain_depth.cpp:189-305 | n references from position p of a chain end at position p - n or before |
| DepthSearch.NeverFails | src/blockchain_utilities/blockchain_depth.cpp:182-310 | on a chain no lookup of the search fails, however far it goes |
| DepthSearch.EveryTransactionHasDepth | src/blockchain_utilities/blockchain_depth.cpp:182-310 | on a chain whose spending transactions have ring members every transaction has a depth, at most its position |
| BlockDb.Db.AddTransaction | src/blockchain_db/blockchain_db.cpp:175-241 | the loops over inputs and outputs are the addition on values, failures included |
| BlockDb.Db.AddTransactionData | src/blockchain_db/lmdb/db_lmdb.cpp:867-946 | refuses a hash already stored and a version that cannot be serialized; otherwise adds the row and its index |
| BlockDb.Db.AddNewBlock | src/blockchain_db/blockchain_db.cpp:243-300 | miner transaction, transactions and block data in turn, with the count of zero-amount outputs |
| BlockDb.Db.AddBlockRow | src/blockchain_db/lmdb/db_lmdb.cpp:748-824 | refuses a known hash, a parent that is not the top block and version 4 or later at height 0; otherwise appends with the running count |
| BlockDb.Db.AddOutputRow | src/blockchain_db/lmdb/db_lmdb.cpp:1027-1092 | refuses amount zero without a commitment; otherwise appends under the amount |
| BlockDb.Db.RemoveOutputRow | src/blockchain_db/lmdb/db_lmdb.cpp:1140-1180 | takes the output out of both tables, or reports that it is missing |
| BlockDb.Db.RemoveTransaction | src/blockchain_db/blockchain_db.cpp:332-346 | fails if the stored transaction is missing or does not parse; otherwise removes spent keys, rows and outputs in reverse order |
| BlockDb.ParseTransaction | src/cryptonote_basic/cryptonote_basic.h:185-283 | the input loop and the limits decide exactly whether a stored transaction is read back |
| BlockDb.Db.PopTopBlock | src/blockchain_db/blockchain_db.cpp:307-325 | removes the top block, its transactions from the last to the first and its miner transaction |
| BlockUndo.TxUndone | src/blockchain_db/blockchain_db.cpp:332-346 | removing a transaction just added restores the whole store for every transaction the parser lets through, and fails for every other |
| BlockUndo.ParsesExactly | src/cryptonote_basic/cryptonote_basic.h:185-283 | among the transactions that can be added, the parser lets through exactly those within its limits whose generation input, if any, stands alone |
| BlockUndo.PopUndoesAdd | src/blockchain_db/blockchain_db.cpp:243-325 | popping the block just added restores the whole store if the parser lets all its transactions through, and fails otherwise |
| BlockExact.RowsUndoneExactly | src/blockchain_db/lmdb/db_lmdb.cpp:1117-1137 | once the transaction is read, removing its rows restores the store if and only if each output is looked for under the amount it was stored under |
| BlockExact.MatchesMeans | src/blockchain_db/lmdb/db_lmdb.cpp:1130-1135 | that is: the test for a version 2 coinbase when adding agrees with the test when removing, or all amounts are zero |
| BlockUndo.OrdinaryMatches | src/blockchain_db/blockchain_db.cpp:222-240 | transactions without a generation input and single-input coinbases up to version 2 meet the condition |
| BlockExact.MixedInputsStay | src/cryptonote_basic/cryptonote_basic.h:258-268 | a version 2 transaction with a generation input beside a spending one is added and cannot be removed; its rows would be looked for under the wrong amount |
| BlockRuns.RunIsBuild | src/blockchain_db/blockchain_db.cpp:243-325 | after any run of adding and popping without a failure the store is the one built from the blocks that are left |
| BlockRuns.PopFailsExactly | src/blockchain_db/blockchain_db.cpp:307-325 | after any run another pop fails if and only if no block is left or the top one has a transaction the parser refuses |
| BlockRuns.BuiltStore | src/blockchain_db/blockchain_db.cpp:175-300 | the spent keys are exactly the key images on the chain, and all tables, each amount included, are numbered without gaps |
| BlockRuns.RctCountExactly | src/blockchain_db/blockchain_db.cpp:262-279 | with the miner transaction alone generating coins, num_rct_outs equals the outputs stored under amount 0 if and only if that transaction is of version 2 or has no zero amount |
| BlockRuns.AcceptedCount | src/blockchain_db/blockchain_db.cpp:262-279 | for every such block that is taken in, num_rct_outs equals the outputs it stores under amount 0 |
| BlockRuns.CountSinceReset | src/blockchain_db/lmdb/db_lmdb.cpp:794-806 | the running count of the top block is the number of outputs stored under amount 0 since the last block below major version 4, that block included |
| BlockRuns.CumulativeIsExact | src/blockchain_db/lmdb/db_lmdb.cpp:794-806 | for all chains of such blocks, the running count of the top block is the number of outputs stored under amount 0 if and only if none was stored there before the last block below major version 4 |
| BlockRuns.ExactAfterOldBlocks | src/blockchain_db/lmdb/db_lmdb.cpp:794-806 | it is exact where all transactions before that block are of version 1 |
| BlockRuns.AcceptedExactly | src/blockchain_db/blockchain_db.cpp:175-241 | a transaction is taken in if and only if its version is 1 or 2, its hash and key images are new, its inputs are of known type and its zero amounts are committed to |
| BlockLookup.AddedIsStored | src/blockchain_db/blockchain_db.cpp:175-241 | a transaction just added is found by hash, and each output back and forth: of a version 2 coinbase under amount 0 with a commitment to its amount, else under its own amount, with the commitment the transaction carries if that is 0 |
| BlockLookup.ChainIsStored | src/blockchain_db/blockchain_db.cpp:175-300 | every transaction on the chain is found by hash, with its height and all its outputs in the same way |
| BlockLookup.ChainIsLinked | src/blockchain_db/lmdb/db_lmdb.cpp:765-778 | block hashes and heights determine each other and each block names the one before it |
| BlockLookup.BlockTakenExactly | src/blockchain_db/lmdb/db_lmdb.cpp:748-806 | a block row is taken if and only if its hash is new and it goes on from the top block, the first one being below major version 4 |
| WildCard.WildCardMatch | external/easylogging++/easylogging++.cc:965-987 | the loop with its two recursive calls ends and decides the match |
| WildCard.MatchMeans | external/easylogging++/easylogging++.cc:965-987 | a text matches if and only if it splits into pieces, any text for *, one character for ?, itself for any other |
| CategoryFilter.Filter.ClearCategories | external/easylogging++/easylogging++.cc:2153-2158 | no rules are left |
| CategoryFilter.Filter.SetCategories | external/easylogging++/easylogging++.cc:2160-2221 | the rules are those parsed from the text, after or instead of the earlier ones; cache and bound stay right |
| CategoryFilter.Filter.PriorityAllowed | external/easylogging++/easylogging++.cc:2231-2250 | the cached reverse scan decides as an uncached one |
| CategoryFilter.Filter.Allowed | external/easylogging++/easylogging++.cc:3370-3376 | after any calls the answer, fast rejection and cache included, is that of scanning the rules for the last match |
| CategoryFilter.PassesMeans | external/easylogging++/easylogging++.cc:2231-2250 | a message passes if and only if the last rule that matches its category allows its level |
| CategoryFilter.PassesLevels | external/easylogging++/easylogging++.cc:2137-2147 | for each level of the deciding rule, exactly which message levels pass |
| CategoryFilter.ParseFormat | external/easylogging++/easylogging++.cc:2188-2220 | rules written out and parsed are the rules |
| CategoryFilter.MissingLevelRunsOn | external/easylogging++/easylogging++.cc:2198-2206 | a rule without a level does not end at its comma: its category runs on into the next |
| LogSanitizer.SanitizeInPlace | external/easylogging++/easylogging++.cc:2505-2585 | rewriting within the same bytes gives the canonical text; the write position never passes the read position |
| LogSanitizer.FitsInPlace | external/easylogging++/easylogging++.cc:2566-2567 | the replacement never needs more bytes than were read, so that error cannot occur |
| LogSanitizer.SucceedsExactly | external/easylogging++/easylogging++.cc:2515-2562 | rewriting fails if and only if the bytes cannot be read or a code point is beyond Unicode |
| LogSanitizer.ReadsAsReplaced | external/easylogging++/easylogging++.cc:2553-2585 | the result is the replaced code points one after the other, each in the form of section 3 of RFC 3629, reads as them, and is no longer than the input |
| LogSanitizer.PointByPoint | external/easylogging++/easylogging++.cc:2587-2600 | code point by code point: an unwanted control character becomes a question mark and every other one stays |
| LogSanitizer.UnchangedExactly | external/easylogging++/easylogging++.cc:2505-2585 | a message is left as it is if and only if every character is in its shortest form and none is unwanted |
| LogSanitizer.EditorReadsEncoded | external/linenoise/linenoise.c:175-214 | the decoder of the line editor reads the shortest forms as the same code points |
| LogSanitizer.ResultIsShortest | external/easylogging++/easylogging++.cc:2553-2585 | no text that reads as the replaced code points is shorter than the result |
| LogSanitizer.NoneLeft | external/easylogging++/easylogging++.cc:2587-2600 | no control character but tab, line feed and carriage return is left, however it was encoded |
| LogSanitizer.SecondTimeSame | external/easylogging++/easylogging++.cc:2587-2600 | a second run changes nothing |

## Left out

- Drawing of finder, timing, alignment and version patterns (external/qrcodegen/QrCode.cpp:416-513): the symbol theorems hold for every function grid with enough free modules, and that the drawn patterns leave enough is 40 separate cases.
- Kanji and ECI segments, segment choice for text, and SVG output of the QR encoder: easy members beside the modelled ones.
- Decoding of damaged QR symbols: distance and damage detection are proved, no error corrector exists in the repository.
- Header blobs of bootstrap files, block packages and their parsing: opaque values.
- ImportSeek.PositionIsOfSeekHeight: heights at the very top of the 64-bit range are not covered.
- ImportSeek.UnsetExactly: heights at the very top of the 64-bit range are not covered.
- ImportSeek.LandsOnStartHeight: heights at the very top of the 64-bit range, where further sums wrap, are not covered.
- Verification and insertion of imported blocks (src/blockchain_utilities/blockchain_import.cpp:316 onwards).
- Terminal output, raw mode, hints, width computation and tab completion of the line editor; completion depends on a caller's callback.
- Reading of a bracketed paste and its newline normalisation: `LineEditor.Editor.Paste` starts from the collected text.
- LineEditor.Editor.Grow: allocation failure and sizes near SIZE_MAX are not modelled.
- ChainDb.RefAt: outputs of other than to-key type, which the tools reject, are not modelled.
- AncestryState.State.WalkFrom: does not model the additions the walk makes to the table in memory, which is not saved afterwards, nor a stop request during the walk.
- Statistics, state file serialization and command lines of the ancestry and depth tools.
- Pruning, the split of a transaction into prunable and unprunable parts, weights, difficulty, hard fork data and the transaction pool of the block store: no part in what adding and popping undo.
- BlockDb.Db.AddNewBlock: a failure leaves the tables as an aborted database transaction would be thrown away; the abort itself is LMDB's.
- BlockDb.ParseTransaction: the limits on key offsets, which the model does not hold, and on the blob size are not modelled.
- LMDB pages, cursors and transactions; tables are sequences with ascending keys.
- Locking in the log filter, the text kept for getCategories, verbose-module levels, configuration files and dispatch of log messages.
