# Apache DataSketches C++: a Dafny model of its exact data structures

The sketches of this library are approximate, but the data structures under them are exact. A compact or
fast representation must agree, bit for bit, with a simple mathematical object. This project models that
part of the library in Dafny and proves the agreement.

- **CPC** (`U32Table`, `CpcSpec`, `CpcSketch`, `CpcRuns`, `CpcUnion`, `CpcUnionRuns`). A sketch stands for a set of
  (row, column) coupons, that is, a K x 64 bit matrix. It is kept as a linear-probing table of surprising
  bits with inverted meaning left of a sliding byte window. Every update, promotion and window move is
  proved against the set, and so is every merge of sketches with different K.
- **CPC compression** (`BitStream`, `PrefixCodes`, `ByteCodec`, `PairCodec`, `Sorting`, `PairLists`,
  `CpcCompressor`, `CpcFlavors`, `CpcLimits`). The bit-stream codec, from the 64-bit bit buffer up to the four flavours,
  with the round trip for whole sketches.
- **Frequent items** (`ReversePurgeMap`, `PurgeMap`, `FrequentItems`). The reverse-purge hash map, exact
  purging, the error bounds of the sketch and the amortised bound behind its a-priori error.
- **HLL** (`HllSpec`, `StrideTable`, `AuxHashMap`, `CouponHashSet`, `Hll4Array`, `Hll6Array`, `Hll8Array`).
  Every packing decodes to the per-slot maxima of the coupons offered, and merging equals feeding.
- **Bit counting** (`BitCount`): the carry-save count equals the plain one.
- **XXH64** (`XxHash64`, `XxHash64Values`): the hash does not depend on how the input is cut into chunks, no
  byte of it is ignored, and two known values come out.

`Words`, `Sets`, `Probing` and `Stride` hold what these share: binary words as natural numbers, finite sets,
cyclic table positions, and odd strides over power-of-two tables.

Objects that the library updates in place are classes here; their contents are functions of the fields, and
each method says what it makes of the old contents. Where the library throws on a broken internal invariant,
the model asserts that the guard cannot fire. Where it throws on bad input, the result type or a Boolean says so.

Four promises turn out to hold only under a condition, and the model states it.

- The coupon table of a CPC sketch cannot grow beyond its key width, nor beyond 2^30 slots. An update succeeds if and only if the coupon
  is known or `RoomFor` holds of the coupons after it, and a run if and only if every prefix has room (`Replay`).
  `FewThroughout` gives a large class of runs that succeed, `RunWithoutRoom` one that fails. For unions,
  `MergeAll` has the condition, `FewToMerge` the class that succeeds and `MergeWithoutRoom` a merge that fails.
- The length of the buffer for compressed pairs is computed in 32 bits. `Compress` writes past it if and only
  if the pairs do not fit the wrapped length. `BufferHoldsFew` shows that this cannot happen for lgK <= 22, `ShortBuffer`
  that it does for a sketch of lgK = 23.
- The phase of a sliding sketch is computed in 32 bits. `Compress` throws if and only if the sketch is not
  `Compressible`. `SlidingPhase` shows that this cannot happen for lgK <= 16, `WrappedPhase` that it does for a
  sketch of lgK = 20.
- Merging a frequent-items sketch whose counters have all been purged loses its weight. `Merge` states that the
  total weight is right if and only if the source has counters or never had any weight, `Run` carries this through
  every history, and `EmptiedByPurge` builds such a source.

## Model

| member | source | states |
|---|---|---|
| `U32Tables.FoundIsExact` | cpc/include/u32_table_impl.hpp:127-137 | without gaps, a probe sequence ends at the item if and only if the table holds it |
| `U32Tables.NoGapPut` | cpc/include/u32_table_impl.hpp:140-146 | an item put where its probe sequence ends leaves no gap between any item and its home |
| `U32Tables.RepairStart` | cpc/include/u32_table_impl.hpp:90-97 | after a slot is freed, only items of the rest of the cluster can be cut off from their homes |
| `U32Tables.RepairStep` | cpc/include/u32_table_impl.hpp:95-103 | taking one item of the cluster out and inserting it again moves that frontier one slot on |
| `U32Tables.RepairDone` | cpc/include/u32_table_impl.hpp:95-103 | at the end of the cluster no gap is left |
| `U32Tables.U32Table.Lookup` | cpc/include/u32_table_impl.hpp:127-137 | the probe loop terminates at the item or at the free slot where it belongs |
| `U32Tables.U32Table.MustInsert` | cpc/include/u32_table_impl.hpp:140-146 | an absent item is added to the set, in one slot |
| `U32Tables.U32Table.MaybeInsert` | cpc/include/u32_table_impl.hpp:71-82 | the set gains the item; the result says whether it is new, and whether the table would have to grow past its key width, which is so if and only if a new item exceeds three quarters of the largest table; otherwise the table stays valid and doubles exactly beyond three quarters |
| `U32Tables.U32Table.MaybeDelete` | cpc/include/u32_table_impl.hpp:84-109 | the set loses the item; the result says whether it was there; the table stays valid and halves exactly below one quarter |
| `U32Tables.U32Table.Reinsert` | cpc/include/u32_table_impl.hpp:94-103 | re-inserting the cluster terminates, keeps the set and leaves no gap |
| `U32Tables.U32Table.Rebuild` | cpc/include/u32_table_impl.hpp:148-162 | a table of another size holds the same set |
| `U32Tables.U32Table.UnwrappingGetItems` | cpc/include/u32_table_impl.hpp:170-194 | the array lists exactly the items, as many as there are |
| `U32Tables.MakeFromPairs` | cpc/include/u32_table_impl.hpp:112-124 | the table of a list of distinct pairs holds exactly these, in the smallest size that has room |
| `U32Tables.GrowthIsRefused` | cpc/include/u32_table_impl.hpp:77-80 | a growth step is refused if and only if the items exceed three quarters of the largest table, whatever the present size |
| `CpcSpec.OffsetBounds` | cpc/include/cpc_sketch_impl.hpp:797-803 | the offset formula gives w exactly on the range of counts of window position w |
| `CpcSpec.SurprisePatternBits` | cpc/include/cpc_sketch_impl.hpp:325-335 | masking and inverting a matrix row leaves the missing early bits and the present late bits |
| `CpcSpec.SliceKeepsCoupons` | cpc/include/cpc_sketch_impl.hpp:323-346 | window bytes and surprises of a matrix stand for the same coupons, at every offset |
| `CpcSpec.FlipStep` | cpc/include/cpc_sketch_impl.hpp:823-834 | flipping the bit of one table item accounts for that item in the matrix |
| `CpcSpec.SkippedColumns` | cpc/include/cpc_sketch_impl.hpp:196-198 | coupons skipped by the first interesting column are already in the sketch |
| `CpcSpec.SoundOffset` | cpc/include/cpc_sketch_impl.hpp:797-803 | the offset of a valid sketch is the one its number of coupons prescribes |
| `CpcSpec.NextOffset` | cpc/include/cpc_sketch_impl.hpp:253-259 | crossing the threshold moves the window by exactly one column, and never beyond 56 below 475 K / 8 coupons |
| `CpcSketches.CpcSketch.FromParts` | cpc/include/cpc_sketch_impl.hpp:742-755 | a sketch from its parts, with the offset computed anew, keeps their coupons, and is valid if and only if the parts are sound at that offset |
| `CpcSketches.CpcSketch.BuildBitMatrix` | cpc/include/cpc_sketch_impl.hpp:805-837 | the matrix has exactly the bits of the coupons |
| `CpcSketches.SliceMatrix` | cpc/include/cpc_sketch_impl.hpp:323-349 | the table gets exactly the surprises of the matrix, the window its bytes; refused if and only if the surprises do not fit; the first interesting column is the first that holds a surprise, or the offset |
| `CpcSketches.CpcSketch.MoveWindow` | cpc/include/cpc_sketch_impl.hpp:308-350 | the window moves by one column and the coupons stay, if and only if it is not at 56 and the new surprises fit |
| `CpcSketches.CpcSketch.PromoteSparseToWindowed` | cpc/include/cpc_sketch_impl.hpp:275-306 | the coupons are split into window and table without loss |
| `CpcSketches.CpcSketch.UpdateSparse` | cpc/include/cpc_sketch_impl.hpp:207-220 | the set gains the coupon; the sketch is valid, promoted if due |
| `CpcSketches.CpcSketch.Record` | cpc/include/cpc_sketch_impl.hpp:222-253 | in each of the three zones the set gains the coupon, and the count grows if and only if it is new; refused if and only if a new coupon makes too many surprises |
| `CpcSketches.CpcSketch.UpdateWindowed` | cpc/include/cpc_sketch_impl.hpp:222-262 | the set gains the coupon, and the window has moved if due; fails if and only if a new coupon finds no room |
| `CpcSketches.CpcSketch.RowColUpdate` | cpc/include/cpc_sketch_impl.hpp:195-205 | every update adds exactly the coupon offered and keeps the sketch valid, if and only if the coupon is known or there is room for it |
| `CpcSketches.RoomNeeded` | cpc/include/cpc_sketch_impl.hpp:222-262 | room for a set with one coupon more is exactly: its surprises fit at the present offset and, if the window is due to move, it can move and they fit at the next |
| `CpcRuns.Replay` | cpc/include/cpc_sketch_impl.hpp:195-262 | a run succeeds if and only if every prefix of it has room; then coupons, count and offset are those of the coupons offered |
| `CpcRuns.RoomForFew` | cpc/include/u32_table_impl.hpp:127-130 | up to 25 K coupons, whichever they are, fit for lgK <= 24 |
| `CpcRuns.FewThroughout` | cpc/include/cpc_sketch_impl.hpp:195-262 | a run over up to 25 K distinct coupons, in any order, has room throughout, for lgK <= 24 |
| `CpcRuns.RoomCanRunOut` | cpc/include/u32_table_impl.hpp:127-130 | K = 16 and all coupons of the columns from 36 on do not fit, although the window could still move |
| `CpcRuns.RunWithoutRoom` | cpc/include/cpc_sketch_impl.hpp:195-262 | the run over these coupons fails |
| `CpcRuns.RowColFromTwoHashes` | cpc/include/cpc_sketch_impl.hpp:175-186 | hashed coupons are in range and never the empty marker; the column is the number of leading zeros, at most 63; the row is the first hash modulo K, one less for the one coupon that would be the marker |
| `CpcRuns.SameRow` | cpc/include/cpc_sketch_impl.hpp:175-186 | apart from that coupon, two hashes fall into the same row if and only if they agree modulo K |
| `BitStreams.AppendBits` | cpc/include/cpc_compressor_impl.hpp:467-480 | shifting a code above the buffered bits and or-ing it in appends its bits |
| `BitStreams.BitWriter.MaybeFlush` | cpc/include/cpc_compressor_impl.hpp:467-473 | moving 32 bits from the buffer to a word keeps the stream and makes room for 32 bits |
| `BitStreams.BitWriter.WriteUnary` | cpc/include/cpc_compressor_impl.hpp:706-730 | value zeros and a one are appended, in steps of 16, and the buffer never exceeds 64 bits |
| `BitStreams.BitReader.MaybeFill` | cpc/include/cpc_compressor_impl.hpp:474-480 | enough bits are buffered; no word beyond the stream is read |
| `BitStreams.BitReader.ReadUnary` | cpc/include/cpc_compressor_impl.hpp:677-704 | the value of the unary code at the front is read and exactly that code is consumed |
| `PrefixCodes.MakeDecodingTable` | cpc/include/cpc_compressor_impl.hpp:77-92 | every 12-bit pattern maps to the last codeword it begins with |
| `PrefixCodes.ValidateDecodingTable` | cpc/include/cpc_compressor_impl.hpp:94-109 | accepted if and only if every entry agrees with the encoding table |
| `PrefixCodes.NoOverlap` | cpc/include/cpc_compressor_impl.hpp:77-109 | codewords whose patterns fill the table exactly are prefix-free |
| `PrefixCodes.CompleteCodeDecodes` | cpc/include/cpc_compressor_impl.hpp:77-109 | Kraft equality and a valid decoding table: every codeword followed by any bits decodes to its own byte and length |
| `PrefixCodes.PrefixFreeValidates` | cpc/include/cpc_compressor_impl.hpp:77-109 | every complete prefix-free code passes validation |
| `ByteCodecs.CompressBytes` | cpc/include/cpc_compressor_impl.hpp:484-514 | the words begin with the codewords and 11 padding bits, are exactly as many as these take, and fit the safe length |
| `ByteCodecs.UncompressBytes` | cpc/include/cpc_compressor_impl.hpp:516-546 | decoding gives back every byte string, without reading past the words written |
| `PairCodecs.EncodePairsLength` | cpc/include/cpc_compressor_impl.hpp:420-437 | the length of the pair stream is bounded through the sum of the row differences |
| `PairCodecs.SafeLengthSuffices` | cpc/include/cpc_compressor_impl.hpp:420-437 | as long as neither 32-bit product wraps, the safe length holds the stream of every increasing list, with its padding |
| `PairCodecs.SafeLengthTooShort` | cpc/include/cpc_compressor_impl.hpp:420-437 | once the first product wraps, the safe length is too short, for codewords of at least a given number of bits and lists up to a length that depends on it; for 12-bit codewords without such a limit |
| `PairCodecs.CompressPairs` | cpc/include/cpc_compressor_impl.hpp:567-626 | the words begin with the codes of the pairs and the padding, and are exactly as many as these take |
| `PairCodecs.UncompressPairs` | cpc/include/cpc_compressor_impl.hpp:628-675 | decoding gives back every strictly increasing list, for every number of base bits up to 32 |
| `Sorting.KnuthShellSort` | cpc/include/u32_table_impl.hpp:247-262 | the range is sorted and a permutation; nothing else changes |
| `Sorting.IntrospectiveInsertionSort` | cpc/include/u32_table_impl.hpp:226-244 | sorted and a permutation, whether or not the cost limit hands over to the shell sort |
| `Sorting.Merge` | cpc/include/u32_table_impl.hpp:197-222 | the overlapping in-place merge gives the merge of the two lists |
| `Sorting.MergedSorted` | cpc/include/u32_table_impl.hpp:197-222 | the merge of sorted lists is sorted |
| `Sorting.MergedElements` | cpc/include/u32_table_impl.hpp:197-222 | ... and has the elements of both |
| `PairLists.TrickyGetPairsFromWindow` | cpc/include/cpc_compressor_impl.hpp:734-750 | the coupons of the window in increasing order, after the requested empty space |
| `PairLists.HybridCoupons` | cpc/include/cpc_compressor_impl.hpp:212-231 | at offset zero the coupons are those of the table and those of the window, without overlap |
| `CpcCompressors.FloorLog2` | cpc/include/cpc_util.hpp:34-44 | the exponent p with 2^p <= x < 2^(p+1) |
| `CpcCompressors.GolombChooseNumberOfBaseBits` | cpc/include/cpc_compressor_impl.hpp:754-761 | the floor logarithm of the quotient, zero for a zero quotient |
| `CpcCompressors.BaseBitsBound` | cpc/include/cpc_compressor_impl.hpp:754-761 | never more base bits than lgK |
| `CpcCompressors.BaseBitsAreRight` | cpc/include/cpc_compressor_impl.hpp:754-761 | 2^b is the mean row difference to within a factor of two: K < 2 n 2^b, and n 2^b <= K for b > 0 |
| `CpcCompressors.PairBitsBound` | cpc/include/cpc_compressor_impl.hpp:567-626 | so n pairs take less than n (15 + b) bits, whatever they are |
| `CpcCompressors.SlidingPhase` | cpc/include/cpc_compressor_impl.hpp:444-465 | for lgK <= 16 a sliding sketch gets one of the sixteen steady phases |
| `CpcCompressors.SlidingPhaseWraps` | cpc/include/cpc_compressor_impl.hpp:444-465 | for lgK = 20 and 4294968 coupons the 32-bit product wraps and the phase is 20, which no sketch may have |
| `CpcCompressors.SteadyPhaseIs` | cpc/include/cpc_compressor_impl.hpp:457-463 | the steady phase is 16 c / K modulo 16 |
| `CpcCompressors.PhaseRepeats` | cpc/include/cpc_compressor_impl.hpp:457-463 | so up to lgK = 16 it is the same for c and c + K coupons |
| `CpcCompressors.MidRangePhases` | cpc/include/cpc_compressor_impl.hpp:447-456 | before that the table number grows with the coupons from 16, below three quarters of K, to 21, from 1.965 K on |
| `CpcCompressors.MakeInversePermutation` | cpc/include/cpc_compressor_impl.hpp:62-75 | accepted if and only if no column occurs twice; the result is then an inverse both ways |
| `CpcCompressors.MakeDecodingTables` | cpc/include/cpc_compressor_impl.hpp:111-130 | for complete codes, accepted if and only if every code is prefix-free and every column list a permutation; accepted tables decode all codes and invert all permutations |
| `CpcCompressors.FewPairsFit` | cpc/include/cpc_compressor_impl.hpp:420-437 | the pairs fit their buffer if twelve times their number does not wrap; the second product then does not either |
| `CpcCompressors.FitsExactly` | cpc/include/cpc_compressor_impl.hpp:420-437 | for codewords of 12 bits: if and only if |
| `CpcCompressors.CompressSurprisingValues` | cpc/include/cpc_compressor_impl.hpp:368-384 | the number of words written, and of those allocated; more are written than allocated if and only if the pairs do not fit the wrapped length; the data hold the pairs, in less than 15 + b bits a pair plus padding |
| `CpcCompressors.UncompressSurprisingValues` | cpc/include/cpc_compressor_impl.hpp:386-394 | ... and give them back |
| `CpcCompressors.CompressSlidingWindow` | cpc/include/cpc_compressor_impl.hpp:396-409 | the trimmed data hold the window, coded by its phase |
| `CpcCompressors.UncompressSlidingWindow` | cpc/include/cpc_compressor_impl.hpp:411-418 | ... and give it back |
| `CpcFlavors.SlidingInverse` | cpc/include/cpc_compressor_impl.hpp:314-322 | rotating and permuting the column of a surprise, and back, is the identity; the code has 56 columns |
| `CpcFlavors.CompressSparseFlavor` | cpc/include/cpc_compressor_impl.hpp:193-199 | the state holds the sorted table; the pair buffer is always long enough |
| `CpcFlavors.CompressHybridFlavor` | cpc/include/cpc_compressor_impl.hpp:212-231 | the state holds table and window as one merged list; the pair buffer is always long enough |
| `CpcFlavors.UncompressHybridFlavor` | cpc/include/cpc_compressor_impl.hpp:233-258 | the merged list splits into the same table and window; the guard on the empty marker is silent |
| `CpcFlavors.CompressPinnedFlavor` | cpc/include/cpc_compressor_impl.hpp:260-278 | the state holds the window and the table shifted by eight columns; the pair buffer is always long enough |
| `CpcFlavors.UncompressPinnedTable` | cpc/include/cpc_compressor_impl.hpp:280-299 | shifting back gives the same table; the guard on the column is silent |
| `CpcFlavors.CompressSlidingFlavor` | cpc/include/cpc_compressor_impl.hpp:301-331 | throws if and only if the sketch is not compressible, overruns if and only if the rotated table does not fit its buffer, and then by so many words; otherwise the state holds window and rotated table |
| `CpcFlavors.UncompressSlidingTable` | cpc/include/cpc_compressor_impl.hpp:333-366 | undoing permutation and rotation gives the same table |
| `CpcFlavors.Compress` | cpc/include/cpc_compressor_impl.hpp:143-168 | throws if and only if the sketch is not compressible, overruns if and only if the encoder writes more words than the pair buffer has; otherwise the state holds the sketch, for every flavour |
| `CpcFlavors.Uncompress` | cpc/include/cpc_compressor_impl.hpp:170-191 | a state that holds a sketch gives back its table and window |
| `CpcFlavors.RoundTrip` | cpc/include/cpc_compressor_impl.hpp:143-191 | compressing and uncompressing a valid sketch gives a valid sketch with the same window, table and coupons, if and only if it is compressible and its pairs fit their buffer |
| `CpcFlavors.BufferHoldsFew` | cpc/include/cpc_compressor_impl.hpp:368-384 | the pairs of a compressible sketch fit for lgK <= 22, and for tables of which twelve times the size does not wrap |
| `CpcLimits.ShortBuffer` | cpc/include/cpc_compressor_impl.hpp:368-384 | lgK = 23 and all coupons of the columns from 40 on: a valid sketch for which the encoder writes at least 23592961 words to a buffer of 19398657, whatever the code |
| `CpcLimits.WrappedPhase` | cpc/include/cpc_compressor_impl.hpp:301-322 | lgK = 20 and the first 4294968 coupons: a valid sketch that cannot be compressed, because its phase wraps |
| `CpcUnionSpec.FoldRowCol` | cpc/include/cpc_union_impl.hpp:258-271 | masking a coupon keeps its column and takes its row modulo K |
| `CpcUnionSpec.FoldTwice` | cpc/include/cpc_union_impl.hpp:312-325 | folding in steps is folding at once |
| `CpcUnionSpec.FoldCount` | cpc/include/cpc_union_impl.hpp:312-325 | a folded coupon has at most 2^d originals |
| `CpcUnionSpec.FoldKeepsThreshold` | cpc/include/cpc_union_impl.hpp:312-325 | a matrix with at least 3K/32 coupons still has that many after downsampling |
| `CpcUnions.WalkedAll` | cpc/include/cpc_union_impl.hpp:254-273 | the odd golden stride visits every slot, so the walk offers every item |
| `CpcUnions.WalkTableUpdatingSketch` | cpc/include/cpc_union_impl.hpp:254-273 | the accumulator gains the folded items of the table, if and only if it has room after every step of the walk |
| `CpcUnions.OrTableIntoMatrix` | cpc/include/cpc_union_impl.hpp:276-288 | the matrix gains the folded items |
| `CpcUnions.OrRowsIntoMatrix` | cpc/include/cpc_union_impl.hpp:291-309 | the matrix gains the folded rows |
| `CpcUnions.MatrixCount` | cpc/include/cpc_union_impl.hpp:196-203 | the sum of the row counts is the number of coupons |
| `CpcUnions.CountCoupons` | cpc/include/cpc_union_impl.hpp:196-203 | the carry-save count of the matrix is the number of coupons |
| `CpcUnions.CpcUnion.SwitchToBitMatrix` | cpc/include/cpc_union_impl.hpp:245-252 | the accumulator becomes a matrix with the same coupons |
| `CpcUnions.CpcUnion.ReduceK` | cpc/include/cpc_union_impl.hpp:311-346 | the coupons are folded to the new K, in accumulator and matrix mode; fails if and only if the walk of the accumulator runs out of room |
| `CpcUnions.CpcUnion.Update` | cpc/include/cpc_union_impl.hpp:103-171 | the union holds the fold of its coupons and of the source to the smaller K, if and only if the walks it makes have room; empty sources change nothing |
| `CpcUnionRuns.FewToMerge` | cpc/include/cpc_union_impl.hpp:103-171 | up to 25 K coupons on both sides together, at the smallest K met, always merge, for lgK <= 24 |
| `CpcUnionRuns.MergeAll` | cpc/include/cpc_union_impl.hpp:103-171 | a union fed a sequence of sketches succeeds if and only if each of them finds room after those before it, given the layout of the union's table where K shrinks; then it holds the smallest K met and the folded coupons of all of them; few coupons always merge |
| `CpcUnionRuns.LayoutsPlayNoPart` | cpc/include/cpc_union_impl.hpp:103-171 | if no sketch has a smaller K than the union, that condition depends on the sketches alone |
| `CpcUnionRuns.MergeWithoutRoom` | cpc/include/cpc_union_impl.hpp:254-273 | a union of lgK = 4 refuses a sparse sketch of lgK = 13 with 448 coupons |
| `CpcUnionRuns.MergeTwice` | cpc/include/cpc_union_impl.hpp:103-171 | two sequences with the same set of sketches, in whatever order and repetition, end in the same K and coupons |
| `CpcUnions.SketchFromMatrix` | cpc/include/cpc_union_impl.hpp:195-242 | the sketch made from a matrix has its coupons, exists if and only if its surprises fit a table, and is valid if and only if the offset stays within 56 |
| `CpcUnions.CpcUnion.GetResult` | cpc/include/cpc_union_impl.hpp:173-242 | likewise for the coupons of the union; no guard on its flavour fires |
| `BitCounts.CarrySave` | cpc/include/cpc_util.hpp:92-98 | a carry-save step keeps the weighted number of ones |
| `BitCounts.WarrenIsPop` | cpc/include/cpc_util.hpp:72-80 | the shift-and-mask count of a 64-bit word is its number of ones |
| `BitCounts.WegnerCount` | cpc/include/cpc_util.hpp:50-67 | the plain count is the sum over the words |
| `BitCounts.CountBitsSetInMatrix` | cpc/include/cpc_util.hpp:100-126 | the carry-save count is that sum modulo 2^32; lengths that are no multiple of 8 are refused |
| `PurgeSlots.FoundIsExact` | fi/include/reverse_purge_hash_map_impl.hpp:164-173 | a probe sequence ends at a used slot if and only if the key is in the map, and then at its value |
| `PurgeSlots.HoleMove` | fi/include/reverse_purge_hash_map_impl.hpp:259-270 | an item whose drift reaches the hole moves into it, with its drift corrected, and leaves the next hole |
| `PurgeSlots.HoleStay` | fi/include/reverse_purge_hash_map_impl.hpp:259-275 | an item whose home lies behind the hole stays reachable |
| `PurgeSlots.HoleDone` | fi/include/reverse_purge_hash_map_impl.hpp:259-275 | at the next free slot every item is reachable again and every drift is right |
| `PurgeSlots.LoweredAll` | fi/include/reverse_purge_hash_map_impl.hpp:219-247 | lowering every slot once purges the map |
| `MapSums.PurgedSum` | fi/include/reverse_purge_hash_map_impl.hpp:219-247 | a purge takes away the sum of the capped values, and as many entries as do not exceed the amount |
| `PurgeMaps.ReversePurgeHashMap.Get` | fi/include/reverse_purge_hash_map_impl.hpp:164-173 | the value of the key, zero if absent |
| `PurgeMaps.ReversePurgeHashMap.InternalAdjustOrInsert` | fi/include/reverse_purge_hash_map_impl.hpp:278-302 | the value is added to the entry or becomes a new one |
| `PurgeMaps.ReversePurgeHashMap.Find` | fi/include/reverse_purge_hash_map_impl.hpp:279-293 | the probe loop ends, after at most one probe more than there are entries; the drift limit is out of reach up to 1024 slots |
| `PurgeMaps.ReversePurgeHashMap.HashDelete` | fi/include/reverse_purge_hash_map_impl.hpp:249-276 | exactly the entry is removed, all others stay reachable, and only the cluster changes |
| `PurgeMaps.ReversePurgeHashMap.SubtractAndKeepPositiveOnly` | fi/include/reverse_purge_hash_map_impl.hpp:218-247 | every entry is lowered or removed exactly once, although deletions move entries, also around the wrap |
| `PurgeMaps.ReversePurgeHashMap.Purge` | fi/include/reverse_purge_hash_map_impl.hpp:346-364 | the amount is the median of the sample, the values of the first 1024 used slots; at least half of the sample times the amount is taken away, and more than half of the sampled entries go |
| `PurgeMaps.MedianIsUnique` | fi/include/reverse_purge_hash_map_impl.hpp:359-360 | only one amount has at most half of the values below it and more than half at most it |
| `PurgeMaps.SampleMedianIsUnique` | fi/include/reverse_purge_hash_map_impl.hpp:347-360 | up to 1024 entries that amount depends on the entries alone, not on their slots |
| `PurgeMaps.ReversePurgeHashMap.Resize` | fi/include/reverse_purge_hash_map_impl.hpp:320-344 | a larger table has the same entries |
| `PurgeMaps.ReversePurgeHashMap.AdjustOrInsert` | fi/include/reverse_purge_hash_map_impl.hpp:153-162 | the entries after adding and, if and only if the largest table overflows, purging by the median of the sample; a smaller table doubles exactly when it overflows; the purge pays for the amount returned |
| `PurgeMaps.ReversePurgeHashMap.AllEntries` | fi/include/reverse_purge_hash_map.hpp:92-127 | the golden-stride iterator visits every entry exactly once and stops |
| `FrequentItems.MakeSketch` | fi/include/frequent_items_sketch_impl.hpp:36-49 | an empty sketch, refused if and only if the first size exceeds the largest one; sizes below eight slots are raised to eight |
| `FrequentItems.FrequentItemsSketch.Update` | fi/include/frequent_items_sketch_impl.hpp:51-57 | the error bounds and the amortised bound are kept; the offset grows exactly when a full table purges, and by the median of the sample |
| `FrequentItems.FrequentItemsSketch.Merge` | fi/include/frequent_items_sketch_impl.hpp:67-76 | the entries of the source are replayed, each purging as an update does, and the offset grows by that of the source and by the amounts purged; with room for all keys the counters are added and nothing is purged; the bounds hold for the summed weights, the amortised bound if the source is at least as large; the total weight is right if and only if the source has counters or no weight; also for a sketch merged with itself |
| `FrequentItems.EnoughRoom` | fi/include/frequent_items_sketch_impl.hpp:67-76 | if the keys of both sides fit the largest map, replaying adds the counters key by key and purges nothing |
| `FrequentItems.PurgesAreUnique` | fi/include/frequent_items_sketch_impl.hpp:67-76 | up to 1024 slots the amounts purged depend on counters and entries alone |
| `FrequentItems.FrequentItemsSketch.GetEstimate` | fi/include/frequent_items_sketch_impl.hpp:104-110 | for a tracked item at most the offset too high, never too low; zero otherwise |
| `FrequentItems.FrequentItemsSketch.GetLowerBound` | fi/include/frequent_items_sketch_impl.hpp:112-115 | the counter, never more than the true weight |
| `FrequentItems.FrequentItemsSketch.GetUpperBound` | fi/include/frequent_items_sketch_impl.hpp:117-120 | the counter plus the offset, never less than the true weight |
| `FrequentItems.FrequentItemsSketch.GetFrequentItems` | fi/include/frequent_items_sketch_impl.hpp:142-161 | exactly the tracked items that pass, once, by descending estimate; no false positives; no false negatives for thresholds from the offset on |
| `FrequentItems.AprioriError` | fi/include/frequent_items_sketch_impl.hpp:127-140 | up to 1024 slots the offset stays within 3.5 / 2^lgMax of the total weight |
| `FrequentItems.PaidMerged` | fi/include/frequent_items_sketch_impl.hpp:67-76 | the amortised bound survives adding the offset of a source at least as large |
| `FrequentItems.Run` | fi/include/frequent_items_sketch_impl.hpp:51-87 | after every run of updates and merges with valid sketches of any size: the counters never exceed the weights offered; they reach them within the offset if no emptied source with weight was merged, which is so if and only if the total weight is theirs; amortised bound and a-priori error if no source is smaller |
| `FrequentItems.EmptiedByPurge` | fi/include/frequent_items_sketch_impl.hpp:67-92 | a sketch of total weight 7 without counters; its merge leaves the target without counters and offset, so the upper bound of its items is zero; a zero threshold misses its items too |
| `HllSpec.MergeIsFeeding` | hll/include/Hll8Array-internal.hpp:114-190 | merging the registers of two streams, also of a larger K, gives the registers of the concatenated stream |
| `HllSpec.SlotFold` | hll/include/Hll8Array-internal.hpp:195-199 | a slot among more slots folds to the slot among fewer |
| `HllSpec.PairParts` | hll/include/HllUtil.hpp:190-204 | slot and value of a coupon come back from it, and it is not the empty marker |
| `StrideTables.Find` | hll/include/AuxHashMap-internal.hpp:245-263 | the odd-stride probe loop finds the entry of the key or the free slot where it belongs; it never runs out of slots |
| `StrideTables.PathEnds` | hll/include/CouponHashSet-internal.hpp:253-271 | the odd stride reaches every slot, so a free one |
| `StrideTables.PutEntry` | hll/include/AuxHashMap-internal.hpp:189-191 | a new entry keeps every entry reachable |
| `StrideTables.Rehash` | hll/include/AuxHashMap-internal.hpp:224-238 | the doubled table has the same entries and is not full |
| `AuxHashMaps.AuxHashMap.MustAdd` | hll/include/AuxHashMap-internal.hpp:180-193 | the map gains the pair, or refuses a slot it already has; the table doubles exactly beyond three quarters |
| `AuxHashMaps.AuxHashMap.MustFindValueFor` | hll/include/AuxHashMap-internal.hpp:195-203 | the value of the slot, or none |
| `AuxHashMaps.AuxHashMap.MustReplace` | hll/include/AuxHashMap-internal.hpp:205-215 | the value of a slot is replaced, or an absent slot refused |
| `AuxHashMaps.AuxHashMap.Pairs` | hll/include/coupon_iterator-internal.hpp:27-55 | the iterator lists every pair exactly once |
| `CouponHashSets.CouponHashSet.CouponUpdate` | hll/include/CouponHashSet-internal.hpp:197-210 | the set gains the coupon; promotion is asked for exactly when a new coupon overflows the largest table |
| `CouponHashSets.CouponHashSet.CheckGrowOrPromote` | hll/include/CouponHashSet-internal.hpp:222-250 | beyond three quarters the table doubles, or promotion is asked for; the set stays |
| `CouponHashSets.Replay` | hll/include/CouponHashSet-internal.hpp:197-250 | on every run up to promotion the set is exactly that of the coupons offered |
| `Hll4Spec.NibblePut` | hll/include/Hll4Array-internal.hpp:155-166 | writing a nibble changes that slot only |
| `Hll4Spec.ShiftStart` | hll/include/Hll4Array-internal.hpp:259-275 | after lowering the nibbles only the exceptions are left to be moved |
| `Hll4Arrays.Hll4Array.AdjustRawValue` | hll/include/Hll4Array-internal.hpp:132-136 | nibble plus minimum, or the exception, is the register |
| `Hll4Arrays.Hll4Array.InternalCouponUpdate` | hll/include/Hll4Array-internal.hpp:144-153 | the register of the slot becomes the maximum; the quick rejection changes nothing |
| `Hll4Arrays.Hll4Array.InternalHll4Update` | hll/include/Hll4Array-internal.hpp:169-236 | ... in all four cases, the shift loop terminates, and the minimum is the minimum again |
| `Hll4Arrays.Hll4Array.ShiftToBiggerCurMin` | hll/include/Hll4Array-internal.hpp:244-332 | the registers stay while the minimum grows by one; counts and exceptions are exact, and no error fires |
| `Hll4Arrays.MinimumAndTokens` | hll/include/Hll4Array-internal.hpp:169-332 | in a valid array curMin is the true minimum and the exceptions are exactly the slots with a token |
| `Hll4Arrays.Replay` | hll/include/Hll4Array-internal.hpp:144-332 | after every stream the array decodes to the per-slot maxima |
| `Hll6Arrays.PutThenGet` | hll/include/Hll6Array-internal.hpp:74-94 | a 6-bit slot reads back what was put, and no other slot changes |
| `Hll6Arrays.Hll6Array.InternalCouponUpdate` | hll/include/Hll6Array-internal.hpp:107-121 | the register of the slot becomes the maximum; the count of empty slots is exact |
| `Hll8Arrays.Hll8Array.InternalCouponUpdate` | hll/include/Hll8Array-internal.hpp:93-105 | the register of the slot becomes the maximum; the count drops by one exactly when the register was empty, and is that of the empty slots unless a merge left it for later |
| `Hll8Arrays.GroupOfFour` | hll/include/Hll8Array-internal.hpp:126-146 | three bytes unpacked on the fly are the four 6-bit slots |
| `Hll8Arrays.Hll8Array.MergeHll` | hll/include/Hll8Array-internal.hpp:114-190 | for all three packings and K of the source at least as large: the registers of both streams fed here; also for an array merged with itself |
| `Hll8Arrays.Hll8Array.CheckRebuildCurMin` | hll/include/HllArray-internal.hpp:600-633 | the recount after a merge gives the true minimum and the number of registers at it |
| `XxHash64Spec.FoldAppend` | common/include/xxhash64.h:43-94 | state and remainder after some bytes determine those after more bytes |
| `XxHash64Spec.ProcessSingleInjective` | common/include/xxhash64.h:187-191 | a lane determines its input from the lane before, and the lane before from its input |
| `XxHash64Spec.LoadInjective` | common/include/xxhash64.h:194-201 | up to eight bytes are recovered from the word they form |
| `XxHash64Spec.ProcessDiffers` | common/include/xxhash64.h:194-201 | changing any byte of a block changes the state |
| `XxHash64Spec.EightsDiffer` | common/include/xxhash64.h:122-141 | changing any byte of the remainder changes what it is mixed to |
| `XxHash64Spec.AvalancheInjective` | common/include/xxhash64.h:143-149 | the last mixing loses nothing |
| `XxHash64Spec.OneByteChanged` | common/include/xxhash64.h:43-94 | of two strings that differ in one byte, states or remainders differ |
| `XxHash64Spec.DigestDiffers` | common/include/xxhash64.h:98-150 | changing one byte after the last full block, hence any byte of a string of less than 32, changes the hash |
| `XxHash64Spec.SeedMatters` | common/include/xxhash64.h:28-36 | so does another seed |
| `XxHash64Values.HelloWorld` | common/include/xxhash64.h:98-150 | the XXH64 value of "hello world", seed 0 |
| `XxHash64Values.Nobody` | common/include/xxhash64.h:98-150 | the XXH64 value of "Nobody inspects the spammish repetition", seed 0: a block, four bytes and single bytes |
| `XxHash64s.XxHash64.Add` | common/include/xxhash64.h:43-94 | state, buffer and length are those of all bytes so far; an empty chunk is reported |
| `XxHash64s.XxHash64.Hash` | common/include/xxhash64.h:98-150 | the digest of the bytes added so far |
| `XxHash64s.HashOnce` | common/include/xxhash64.h:158-163 | the one-shot hash is the digest of its input |
| `XxHash64s.HashChunks` | common/include/xxhash64.h:43-163 | every way of splitting the input gives that digest |
| `Strides.StrideReaches` | cpc/include/cpc_union_impl.hpp:254-273 | an odd stride over a power-of-two table reaches every slot within one round |
| `Strides.StrideInjective` | fi/include/reverse_purge_hash_map.hpp:102-111 | ... and no slot twice |

## Left out

- Estimators and confidence bounds of all sketches (HIP and kxp accumulators, ICON, harmonic and composite estimators): floating point and tables.
- Serialization, deserialization headers, `to_string`, allocators, copy and move: field copying and memory handling.
- The contents of the 22 byte codes, the column code and the column permutations: any complete codes with codewords of 1 to 12 bits and any permutations are allowed.
- Hash functions (MurmurHash3, fmix64) and seeds: a hash is a parameter, the seed check of the CPC union is not part of the model.
- Machine words are natural numbers with explicit bounds. Sums of weights, numbers of probes do not wrap in the model.
- Golden-ratio strides are computed with exact fractions, not with doubles; the proofs use only that they are odd.
- The three parallel arrays of the frequent-items map are one sequence of cells; vectors are sequences that methods reassign.
- The mode changes of an HLL sketch (list, set, array), HLL iterators, and the HLL union around `MergeHll`.
- Count-min, Bloom, theta, tuple, quantile, density and sampling sketches.
- CpcSketches.CpcSketch.RowColUpdate: after a refused insertion nothing is said of the sketch; in the source the shift amount of the table is then out of range.
- U32Tables.U32Table.MaybeInsert: for key widths 31 and 32, that is lgK 25 and 26, the limit of 2^30 slots is that of the int in which the source computes `1 << 31`; where that shift works all the same, the table grows once more and the products of the load test wrap.
- CpcFlavors.Compress: what an overrun destroys is not modelled; whether a list longer than 2^32 / 12 overruns depends on the code, and `BufferHolds` is the exact condition.
- CpcCompressors.MakeDecodingTables: requires complete codes; an incomplete one leaves table entries that the source reads uninitialised.
- The checks of lgK in the constructors are preconditions.
- BitCounts.CountBitsSetInMatrix: requires a non-empty array, because the loop bound of the source wraps for length zero.
- PurgeMaps.ReversePurgeHashMap.Find: gives the exact drift, but the throw at 1024, out of reach up to 1024 slots, is not passed on to its callers.
- PurgeMaps.ReversePurgeHashMap.HashDelete: the drift limit is shown to be out of reach only for tables of up to 1024 slots; beyond, the throw is not modelled.
- PurgeMaps.ReversePurgeHashMap.Purge: the selection of the median sorts the sample instead of partitioning it; the element selected is the same.
- FrequentItems.AprioriError: says nothing for more than 1024 slots, where the sample is a part of the entries and the source's bound is only expected, not certain.
- FrequentItems.FrequentItemsSketch.GetFrequentItems: rows are inserted in order instead of sorted at the end; ties may come in another order.
- Hll8Arrays.Hll8Array.MergeHll: the loops for equal and larger K share one body.
- XxHash64Spec.DigestDiffers: for bytes of full blocks only the state is shown to change; folding its four lanes into one word cannot keep all states apart.
- XxHash64s.XxHash64.Add: a null input pointer is not modelled.
