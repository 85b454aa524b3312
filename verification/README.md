# Verified models of two oblivious key-value stores and the protocols on top of them

This project models the algorithms at the centre of a private set intersection code base and proves what they are for:

* **Paxos and Baxos** (`WeightSets`, `Columns`, `Greedy`, `Triangulation`, `PathRows`, `FcInverse`, `MatrixInverse`,
  `ScalarInverse`, `PaxosMatrix`, `Paxos`, `PaxosKernel`, `PaxosHash`, `BaxosBins`, `Baxos`). A bucket queue drives a
  greedy triangulation of a sparse matrix; rows that do not fit go into a gap that is solved with a dense matrix over
  GF(2^128). When an encode succeeds is said exactly, on the rows and dense parts alone, and then H * P = X.
* **RB-OKVS** (`RbLimbs`, `RbRows`, `XorSystem`, `XorRank`, `RbCodec`, `RbFlat`). Banded elimination on rows of four
  64-bit limbs. The encoder fails exactly on dependent bands, otherwise the decoder returns every value; nested and flat
  storage give the same table.
* **The PQ-PSI run** (`Net`, `PqPsi`) over RB-OKVS, masks, permutations and a KEM, with messages split over channels.
* **The VOLE-based OPRF** (`Oprf`) on a Baxos store: both parties compute the same function because decoding is linear.
* **Invertible permutations** (`ConsPi`; `Words32`, `SneikLinear`, `SneikRounds`, `Sneik`; `Polyval`, `PolyMul`,
  `Hctr2`), and what makes them permutations of the run (`Permutations`).
* **The MPSC queue** (`MpscQueue`) as a state machine over all interleavings.

`Prelude`, `BitOps`, `Words` and `Fields` hold what several modules use.

## Conventions

A block is an element of a field of characteristic two that is handed over as a record of operations (`Fields`);
results that need XOR only ask for `IsXorGroup`. Words and bytes are sequences of bits, least significant first. AES,
the KEM, the masks, libdivide and the VOLE are parameters with a contract. What the source draws at random, and which
keys it generates, are parameters too. An exception is an outcome (`None`, `false`, `Rejected`, ...), and so are a
failed assertion and undefined behaviour.

Memory that the source changes in place is an array or a class field here, and each such method is tied to a function
of the old contents; the properties are then proved about these functions. `dafny verify dfyconfig.toml` checks
everything.

## Where the code does not do what its comments suggest

* The matrix `gf128Inv` looks for a pivot equal to one, not for a non-zero pivot. `InvertibleButStuck`: it returns
  nothing for an invertible matrix. `FailsIff` and `InvertedIff` say exactly when it fails, on all matrices and on the
  invertible ones; whatever it returns is an inverse (`Gf128Inv`).
* `popNode` trims its vector of lists without asking whether it is empty, so it may not take the last column.
  `NeverDryIff`: no rows make `triangulate` do so exactly if there are two columns more than rows. For given rows and
  column lists, `RunsDry` says whether it does, and `Triangulate` follows it.
* The vector code of `buildRow32` compares words as signed numbers, its replacement without vectors as unsigned ones.
  `LaneRightIff`: the signed form is right exactly for sizes up to 2^63.
* The masking loop of the OPRF receiver ends its tail loop, and selects its message, by the size of the rest of the
  table and not by that of the chunk. `MaskingRightIff`: right exactly for tables below two chunks of 2^28 blocks.
* The PQ-PSI parties do not look at the result of `RBEncode`. `Run` therefore models what is sent after a failed
  encoding too: the sender encapsulates under masks, or the receiver gets its own table back. That the hits are the
  intersection needs independent bands of both sets, which is what success means.

## Model

| member | source | states |
|---|---|---|
| `MatrixInverse.Gf128Inv` | volepsi/volePSI/PaxosImpl.h:63-133 | the result is that of the elimination described on values; a returned matrix undoes the given one from both sides on every vector; nothing is returned exactly if the matrix is singular or, at a reached column, a pivot is overlooked |
| `MatrixInverse.FindPivot` | volepsi/volePSI/PaxosImpl.h:78-101 | the row that comes to the diagonal is the one there if its entry is not zero, otherwise the next one whose entry is one; not found exactly if the diagonal is zero and nothing below it is one |
| `MatrixInverse.ReduceColumn` | volepsi/volePSI/PaxosImpl.h:104-129 | the matrix and the accumulated inverse become those of the step on values: row scaled, then used on every other row in order |
| `MatrixInverse.ReducedProgress` | volepsi/volePSI/PaxosImpl.h:77-131 | a processed column keeps exactly the solutions of the system for every right-hand side and is a unit column |
| `MatrixInverse.InverseOfInverts` | volepsi/volePSI/PaxosImpl.h:63-133 | what the elimination ends with is a two-sided inverse |
| `MatrixInverse.FailsIff` | volepsi/volePSI/PaxosImpl.h:78-101 | nothing is returned exactly if some reached column has a zero on the diagonal and no one below it |
| `MatrixInverse.FailsIffSingularOrOverlooked` | volepsi/volePSI/PaxosImpl.h:78-101 | which means: the matrix is singular, or such a column has a non-zero entry that is not one |
| `MatrixInverse.InvertedIff` | volepsi/volePSI/PaxosImpl.h:78-101 | for an invertible matrix: an inverse is returned exactly if no reached column overlooks a pivot |
| `MatrixInverse.TwoElementsIff` | volepsi/volePSI/PaxosImpl.h:78-101 | over a field of two elements exactly the singular matrices fail |
| `MatrixInverse.KeptByAdd` | volepsi/volePSI/PaxosImpl.h:118-129 | adding a multiple of one row to another keeps exactly the solutions |
| `MatrixInverse.KeptBySwap` | volepsi/volePSI/PaxosImpl.h:84-93 | so does swapping two rows |
| `MatrixInverse.KeptByScale` | volepsi/volePSI/PaxosImpl.h:108-113 | so does scaling a row |
| `MatrixInverse.StuckOnZerosIsSingular` | volepsi/volePSI/PaxosImpl.h:78-101 | a reached column that is zero from the diagonal down shows that the matrix sends some non-zero vector to zero |
| `MatrixInverse.InvertibleButStuck` | volepsi/volePSI/PaxosImpl.h:84 | in every field with a third element a the inversion returns nothing for [[0, 1], [a, 0]], which has a two-sided inverse |
| `ScalarInverse.ScalarInv` | volepsi/volePSI/PaxosImpl.h:30-61 | the addition chain ends with x^(2^128 - 2); for x other than zero this is the inverse exactly if x^(2^128) is x |
| `ScalarInverse.Turn` | volepsi/volePSI/PaxosImpl.h:39-55 | before turn i, a is x^(2^(2^i) - 1); the turn makes it that of i + 1, and the result x^(2^(2^(i+1)) - 2) |
| `ScalarInverse.PowIsInverseIff` | volepsi/volePSI/PaxosImpl.h:33-60 | x^(p - 2) is the inverse of x exactly if x^p is x |
| `WeightSets.WeightData.constructor` | volepsi/volePSI/PxUtil.h:341-383 | the initial lists hold every column in the bucket of its weight, put there in the order of their numbers, and the last bucket is in use |
| `WeightSets.WeightData.PushNode` | volepsi/volePSI/PxUtil.h:252-273 | the column joins the front of the list of its weight, all other lists are as they were, all links stay consistent |
| `WeightSets.WeightData.PopNode` | volepsi/volePSI/PxUtil.h:276-313 | the column leaves its list wherever it stands in it and the others keep their order; all other lists are as they were; it fails exactly if no column is left, else the last bucket is in use |
| `WeightSets.WeightData.DecrementWeight` | volepsi/volePSI/PxUtil.h:316-322 | the map from columns to weights changes at this column only, by one; the column moves to the front of the list before; it fails exactly for the only queued column |
| `WeightSets.WeightData.GetMinWeightNode` | volepsi/volePSI/PxUtil.h:325-337 | its weight is least among the positive ones, and of the columns of that weight it was put on its list last; it fails exactly if no queued column has positive weight |
| `WeightSets.PushedAllOk` | volepsi/volePSI/PxUtil.h:252-273 | linking in front keeps all lists well formed and disjoint |
| `WeightSets.PoppedAllOk` | volepsi/volePSI/PxUtil.h:276-313 | unlinking keeps all lists well formed and disjoint |
| `WeightSets.FrontIsNewest` | volepsi/volePSI/PxUtil.h:252-273 | the front of a list is the column that was put on it last |
| `Columns.CountWeights` | volepsi/volePSI/PaxosImpl.h:787-832 | every column's weight is the number of rows that contain it |
| `Columns.RebuildColumns` | volepsi/volePSI/PaxosImpl.h:2235-2292 | the packed column lists are the transpose of the rows: list c holds the rows with column c, each once and in increasing order |
| `Triangulation.Triangulate` | volepsi/volePSI/PaxosImpl.h:1087-1182 | it ends; main and gap rows partition all rows; a column fixed at one step occurs in no main row chosen later; every gap row shares its column with a main row of different dense part. The columns, main rows and gap rows are those of the one run that the rows and column lists determine, ties included. It ends with them exactly if that run neither runs out of columns nor takes two rows of one column with the same dense part; else it says which: the pair it reports is the first row of a column and a later one |
| `Triangulation.FixColumn` | volepsi/volePSI/PaxosImpl.h:1114-1177 | all open rows of the column are taken, the first on the diagonal, in list order; the exception for a column without open row is never reached |
| `Triangulation.TakeRow` | volepsi/volePSI/PaxosImpl.h:1120-1173 | one row leaves the queue: its columns lose one weight each and are put back in order, and it goes on the diagonal, into the gap, or is reported as a duplicate; the queue runs empty exactly if the row has its only column |
| `Triangulation.ReleaseRow` | volepsi/volePSI/PaxosImpl.h:1123-1150 | every open column of the row loses one weight; this fails exactly if the row has the last queued column |
| `Triangulation.TakeMain` | volepsi/volePSI/PaxosImpl.h:1154-1159 | the first open row of a column extends the triangle |
| `Triangulation.TakeGap` | volepsi/volePSI/PaxosImpl.h:1160-1172 | a later open row extends the gap |
| `Triangulation.AllRowsDone` | volepsi/volePSI/PaxosImpl.h:1106-1178 | once no queued column has positive weight, every row has been taken |
| `Triangulation.DoneIsMet` | volepsi/volePSI/PaxosImpl.h:1114-1121 | the rows taken are those that have a fixed column |
| `Triangulation.MinIsLeast` | volepsi/volePSI/PxUtil.h:325-337 | the queued column of least weight that was put on its list last is the choice, on the rows and column lists alone |
| `Greedy.PathNotMet` | volepsi/volePSI/PaxosImpl.h:1106-1145 | on a path of rows with one spare column or less no greedy order takes all rows, whatever the ties |
| `Greedy.ChosenUnique` | volepsi/volePSI/PxUtil.h:325-337 | at most one column is the choice |
| `Greedy.RunUnique` | volepsi/volePSI/PaxosImpl.h:1087-1182 | two runs that take all rows are the same run |
| `Greedy.RunEnds` | volepsi/volePSI/PaxosImpl.h:1106-1178 | every run takes all rows or runs dry |
| `Greedy.MetNotDry` | volepsi/volePSI/PaxosImpl.h:1106-1178 | and not both |
| `Greedy.MetNoRepeat` | volepsi/volePSI/PaxosImpl.h:1160-1172 | a run that takes all rows, with gap rows that differ from their partners, meets no dense part twice |
| `Greedy.EnoughSurvives` | volepsi/volePSI/PxUtil.h:276-290 | with two columns more than rows no greedy choice empties the queue, whatever the ties |
| `Greedy.PathRunsDry` | volepsi/volePSI/PaxosImpl.h:1106-1145 | the run on a path of rows with one spare column or less runs dry, whatever the column lists |
| `PathRows.NeverDryIff` | volepsi/volePSI/PaxosImpl.h:1087-1182 | for given numbers of rows and columns: no rows make the run run dry exactly if there are two columns more than rows |
| `PathRows.TriangulateRows` | volepsi/volePSI/PaxosImpl.h:1087-1182 | for rows with different dense parts the call ends without a column exactly if the run runs dry |
| `PathRows.TriangulatePath` | volepsi/volePSI/PaxosImpl.h:1087-1182 | for any number of rows and any number of columns up to one more, a call that ends without a column, unless a column has more rows than there are weight lists |
| `FcInverse.GetFCInv` | volepsi/volePSI/PaxosImpl.h:2295-2385 | for every gap row: its columns combined with those of the listed main rows contain no main column, and the list is the one found by visiting the triangle in order |
| `FcInverse.ReduceRow` | volepsi/volePSI/PaxosImpl.h:2340-2380 | the loop ends with a cancelling list, in the order of the triangle |
| `FcInverse.LargestFalls` | volepsi/volePSI/PaxosImpl.h:2348-2380 | cancelling with the diagonal row brings in smaller columns only |
| `FcInverse.PlanKept` | volepsi/volePSI/PaxosImpl.h:2348-2380 | cancelling the largest column of C is the next step of the plan that visits the triangle in order |
| `FcInverse.CancelEqual` | volepsi/volePSI/PaxosImpl.h:2308-2321 | the short cut for a gap row equal to its partner gives the same list as the loop |
| `Paxos.DecodeRow` | volepsi/volePSI/PaxosImpl.h:2191-2232 | the row of H for the key times the table |
| `Paxos.DecodeBatch` | volepsi/volePSI/PaxosImpl.h:1744-2188 | the batch decoder gives the same value for each of its rows |
| `Paxos.SolveGap` | volepsi/volePSI/PaxosImpl.h:1576-1643 | the dense part of the table solves every gap equation of the reduced system; it fails exactly if the inversion of the gap matrix returns nothing |
| `Paxos.BackSubstitute` | volepsi/volePSI/PaxosImpl.h:1651-1737 | filling the main columns from the last row back satisfies every main row |
| `Paxos.GapRowSolved` | volepsi/volePSI/PaxosImpl.h:1584-1620 | once the main rows and the reduced gap equation hold, the gap row itself holds |
| `Paxos.Backfill` | volepsi/volePSI/PaxosImpl.h:1560-1739 | H * P = X at every row, with zeros off the triangle and the first gap columns, or the exact failure: too many exactly if there are more gap rows than dense columns, else singular exactly if E' is singular or its elimination overlooks a pivot, else success |
| `Paxos.TwinGap` | volepsi/volePSI/PaxosImpl.h:1576-1620 | a single gap row equal to its partner never fails |
| `Paxos.NoGap` | volepsi/volePSI/PaxosImpl.h:1576-1643 | nor does a triangle without gap rows |
| `Paxos.FillIn` | volepsi/volePSI/PaxosImpl.h:1205-1215 | the same exact failures and the same table on any buffer, which is filled with zeros first |
| `Paxos.GapDecides` | volepsi/volePSI/PaxosImpl.h:1560-1643 | on the run of the rows, if no dense part repeats: too many gap rows, or an unsolved gap system, or success, each exactly |
| `Paxos.EncodedIff` | volepsi/volePSI/PaxosImpl.h:1186-1216 | an outcome is a success exactly if the run does not run dry, repeats no dense part, and its gap fits and is solved |
| `Paxos.GaplessEncodable` | volepsi/volePSI/PaxosImpl.h:1186-1216 | rows whose run leaves no gap are encoded |
| `Paxos.TwinEncodable` | volepsi/volePSI/PaxosImpl.h:1186-1216 | so are rows whose run leaves one gap row that equals its partner but for the dense part, with one dense column or more |
| `Paxos.ApartEncodable` | volepsi/volePSI/PaxosImpl.h:1186-1216 | so are rows without a common column, if there are two columns more than rows |
| `PaxosKernel.SingularIffDependent` | volepsi/volePSI/PaxosImpl.h:1584-1620 | E' is singular exactly if the columns of H that the triangle and as many dense entries as gap rows use are linearly dependent |
| `PaxosKernel.GapFailsIff` | volepsi/volePSI/PaxosImpl.h:1576-1635 | so the gap is unsolved exactly if these columns of H are dependent or a pivot is overlooked |
| `PaxosKernel.RowCancels` | volepsi/volePSI/PaxosImpl.h:2340-2380 | visiting the triangle in order cancels every column of it, for any row |
| `PaxosKernel.TwoTwinsFailIff` | volepsi/volePSI/PaxosImpl.h:1584-1620 | two gap rows that equal their partners fail exactly if the sums of their dense parts are equal |
| `PaxosKernel.EncodedUnique` | volepsi/volePSI/PaxosImpl.h:1186-1216 | the table of a successful encode is the only one with H * P = X that is zero off the run |
| `Paxos.BuiltRowsOk` | volepsi/volePSI/PaxosImpl.h:613-688 | rows built from hashes meet what the store asks of them |
| `Paxos.Store.SetInput` | volepsi/volePSI/PaxosImpl.h:779-842 | rows, dense parts, column lists and weights belong to the keys; it fails exactly if a column has as many rows as there are weight lists |
| `Paxos.Store.Encode` | volepsi/volePSI/PaxosImpl.h:1186-1216 | it succeeds exactly if the table has the right size, the run on the rows takes them all without meeting a dense part twice, and its gap fits and is solved; then H * P = X for all rows, with zeros off the run; every other outcome names its cause |
| `Paxos.Store.Decode` | volepsi/volePSI/PaxosImpl.h:921-980 | every key gets its row of H times the table, in full batches and in the rest |
| `Paxos.Store.SolveAndCheck` | volepsi/volePSI/PaxosImpl.h:1186-1216 | it succeeds exactly if no column of the keys' rows is too heavy, the size is right and these rows can be encoded; then every key, main or gap, decodes to its value and the comparison holds |
| `PaxosHash.BuildRow` | volepsi/volePSI/PaxosImpl.h:656-687 | for every hash and weight the row is strictly increasing and below the sparse size; it equals drawing free columns one by one |
| `PaxosHash.RowOfDrawsOk` | volepsi/volePSI/PaxosImpl.h:656-687 | each draw inserts a column that the row does not have |
| `PaxosHash.EveryRowIsDrawn` | volepsi/volePSI/PaxosImpl.h:656-687 | every increasing row below the sparse size is the row of some draws |
| `PaxosHash.Row3Ok` | volepsi/volePSI/PaxosImpl.h:627-655 | weight three: three different columns below the sparse size, for all hashes |
| `PaxosHash.EveryRow3` | volepsi/volePSI/PaxosImpl.h:627-655 | and any three different columns are the row of some hash words |
| `PaxosHash.RowOfHashOk` | volepsi/volePSI/PaxosImpl.h:613-688 | both branches: as many different columns as the weight asks for |
| `PaxosHash.LaneIsRow3` | volepsi/volePSI/PaxosImpl.h:330-600 | the branch-free lane computes the row of the branching code, with the signed comparison of the vector instruction as long as no word is negative, and with its unsigned replacement |
| `PaxosHash.LaneRightIff` | volepsi/volePSI/PaxosImpl.h:399-600 | with the signed comparison the lane is right for all words exactly for sizes up to 2^63 |
| `PaxosHash.BuildRowBatch` | volepsi/volePSI/PaxosImpl.h:380-609 | weight three: the batch is one row of the simple form per hash |
| `PaxosHash.BuildRows` | volepsi/volePSI/PaxosImpl.h:380-609 | any weight: the batch holds the row of every hash, one behind the other |
| `BaxosBins.FillBins` | volepsi/volePSI/PaxosImpl.h:2733-2796 | every input is in the stretch of its thread and bin exactly once and in order; it fails exactly if some thread has more inputs for a bin than room |
| `BaxosBins.MoveDown` | volepsi/volePSI/PaxosImpl.h:2872-2875 | copying forwards in place moves the entries unharmed although source and target overlap |
| `BaxosBins.MergeBin` | volepsi/volePSI/PaxosImpl.h:2848-2886 | the bin then begins with all its items, each once and in input order; other bins are untouched |
| `BaxosBins.SharesMeet` | volepsi/volePSI/PaxosImpl.h:2735-2737 | the shares of the threads follow each other and cover all inputs |
| `BaxosBins.SharesEven` | volepsi/volePSI/PaxosImpl.h:2735-2737 | the shares differ by one input at most |
| `BaxosBins.MembersComplete` | volepsi/volePSI/PaxosImpl.h:2771-2795 | no input is missing from its bin |
| `Baxos.InBinIff` | volepsi/volePSI/PaxosImpl.h:2767-2795 | exactly the keys whose hash number leaves that remainder are in a bin |
| `Baxos.SolveBin` | volepsi/volePSI/PaxosImpl.h:2636-2669 | one bin: too heavy exactly if a column is; any other outcome has its cause in the run on the bin's rows; solved exactly if these can be encoded, and then all its items decode to their values |
| `Baxos.SolveBins` | volepsi/volePSI/PaxosImpl.h:2635-2943 | all bins are solved exactly if no stretch of a thread is too full, no bin has too many items, and the rows of every bin can be encoded; then every key decodes to its value; the error cases say which bin or stretch is too full or why a bin fails |
| `Baxos.Solve` | volepsi/volePSI/PaxosImpl.h:2635-2943 | with one bin or many, and any number of threads: it finishes exactly if the size is right and the one bin, or all bins, can be filled and encoded; then every key decodes to its value; the error cases say which bin or which share of a thread is too full, or why a bin fails |
| `Baxos.LoneKeySolvable` | volepsi/volePSI/PaxosImpl.h:2635-2943 | for example, a single key is solved if there is room for it and three columns |
| `Baxos.DecodeBin` | volepsi/volePSI/PaxosImpl.h:3012-3069 | each waiting hash is decoded into its own output, no other output changes |
| `Baxos.DecodeShare` | volepsi/volePSI/PaxosImpl.h:3073-3172 | batching writes, or adds to, every output of the share exactly once |
| `Baxos.Decode` | volepsi/volePSI/PaxosImpl.h:3176-3212 | every output is written over, or added to, exactly once with the value of its key, for any number of threads |
| `Baxos.SolveThenDecode` | volepsi/volePSI/PaxosImpl.h:2635-3212 | solving and decoding with any numbers of threads returns every value, exactly when the keys can be solved |
| `Baxos.DecodingIsLinear` | volepsi/volePSI/PaxosImpl.h:3012-3069 | decoding is the inner product of the table with a row that depends on the key alone |
| `Baxos.ValueFromSegment` | volepsi/volePSI/PaxosImpl.h:3012-3069 | that value is the row of the hash times the segment that its number selects |
| `RbLimbs.TrimBits` | frontend/okvs/rb/rows.h:69-89 | clears exactly the bits from the width on |
| `RbLimbs.HasBits` | frontend/okvs/rb/rows.h:97-100 | some bit is set |
| `RbLimbs.EnsureBits` | frontend/okvs/rb/rows.h:102-108 | an empty row gets bit zero, any other row stays |
| `RbLimbs.Lead` | frontend/okvs/rb/rows.h:115-125 | the lowest set bit, or the width |
| `RbLimbs.ZeroBelow` | frontend/okvs/rb/rows.h:127-139 | clears exactly the bits below the index |
| `RbLimbs.ShiftLeft` | frontend/okvs/rb/rows.h:141-164 | bit i comes from bit i - shift, across limbs |
| `RbLimbs.ShiftRight` | frontend/okvs/rb/rows.h:166-184 | bit i comes from bit i + shift, across limbs |
| `RbLimbs.XorShifted` | frontend/okvs/rb/rows.h:186-199 | adds the part of the source from its offset on, moved to the target offset and cut to the width |
| `RbRows.KeyBand` | frontend/okvs/rb/rows.h:251-262 | the start is the remainder of the start hash; the bits are the first w of the mask, or bit zero if there are none; together they select the columns of the key's equation and stay inside the table |
| `RbRows.StartFromHash` | frontend/okvs/rb/rows.h:256-258 | the start and its hash differ by a multiple of the number of starts, and every start is that of some hash |
| `RbRows.StableOrderOk` | frontend/okvs/rb/rows.h:265-268 | the order is sorted by start and keeps the order of equal starts |
| `RbRows.SortKeeps` | frontend/okvs/rb/rows.h:265-268 | sorting loses no equation and does not change linear dependence |
| `XorSystem.GaussKeeps` | frontend/okvs/rb/codec.h:41-61 | a table that satisfies the eliminated system satisfies the original one |
| `XorSystem.GaussTriangular` | frontend/okvs/rb/codec.h:41-61 | pivots are distinct: no later equation selects an earlier pivot |
| `XorSystem.FillSatisfies` | frontend/okvs/rb/codec.h:64-80 | filling a triangular system from the last row back satisfies it |
| `XorSystem.SolveIsSound` | frontend/okvs/rb/codec.h:17-82 | elimination and back fill together satisfy every equation |
| `XorSystem.FreeColumnsZero` | frontend/okvs/rb/codec.h:64-80 | table entries of columns that are no pivots are zero |
| `XorRank.RoundDependent` | frontend/okvs/rb/codec.h:41-61 | one elimination round keeps linear dependence in both directions |
| `XorRank.SolveFailsIffDependent` | frontend/okvs/rb/codec.h:43-45 | elimination meets an empty row exactly if the rows are linearly dependent over GF(2) |
| `RbCodec.ShiftedSumIsXor` | frontend/okvs/rb/codec.h:49-60 | the limb operation on two bands is the sum of their full-width rows |
| `RbCodec.EliminateWith` | frontend/okvs/rb/codec.h:49-60 | the inner loop with its early break is a full round over all later rows |
| `RbCodec.Eliminate` | frontend/okvs/rb/codec.h:41-61 | the in-place elimination computes the textbook elimination and its pivots |
| `RbCodec.BackFill` | frontend/okvs/rb/codec.h:64-80 | the table is the textbook back fill |
| `RbCodec.PrepareRows` | frontend/okvs/rb/rows.h:225-270 | the sorted rows stand for the equations of the keys in stable order of start |
| `RbCodec.SolvedDecodes` | frontend/okvs/rb/codec.h:17-82 | a solution decodes every key to its value |
| `RbCodec.UnsolvedIffDependent` | frontend/okvs/rb/codec.h:43-45 | there is none exactly if the bands of the keys are dependent; the values play no part |
| `RbCodec.IndependentDistinct` | frontend/okvs/rb/codec.h:43-45 | a repeated key makes the bands dependent |
| `RbCodec.OneWideDependentIff` | frontend/okvs/rb/rows.h:251-262 | bands of width one are dependent exactly if two start hashes are congruent modulo the number of columns |
| `RbCodec.Encode` | frontend/okvs/rb/codec.h:17-82 | rejected, false or a table: each with its exact condition; the table decodes every key to its value |
| `RbCodec.Decode` | frontend/okvs/rb/codec.h:221-274 | the value of every key, and when the decoder refuses |
| `RbCodec.EncodeThenDecode` | frontend/okvs/rb/codec.h:17-274 | true exactly for independent bands, and then all values come back |
| `RbFlat.FlatEliminate` | frontend/okvs/rb/codec.h:177-197 | the elimination on offsets into one buffer does what the nested one does |
| `RbFlat.FlatFill` | frontend/okvs/rb/codec.h:199-217 | so does the back fill into one buffer |
| `RbFlat.FlatEncode` | frontend/okvs/rb/codec.h:151-219 | same success condition and same table as the nested encoder |
| `RbFlat.MixedEncode` | frontend/okvs/rb/codec.h:84-149 | nested values and flat table: the same again |
| `RbFlat.FlatDecode` | frontend/okvs/rb/codec.h:332-383 | the value of every key in its row of the output, and when the decoder refuses |
| `RbFlat.BothEncoders` | frontend/okvs/rb/codec.h:17-219 | nested and flat encoder build the same table |
| `RbFlat.FlatEncodeThenDecode` | frontend/okvs/rb/codec.h:151-383 | true exactly for independent bands, and then all values come back |
| `RbFlat.SortFlatRowsOk` | frontend/okvs/rb/rows.h:322-325 | sorting rows with offsets sorts the rows they stand for |
| `Net.PlanTiles` | frontend/pqpsi/protocols/net.h:29-67 | the pieces follow each other without gap or overlap, cover the message, are no more than the channels, and keep blocks whole |
| `Net.PlanEven` | frontend/pqpsi/protocols/net.h:37-66 | all pieces but the last have the same length, the least with which the channels suffice, and the last is not longer |
| `Net.Chunks` | frontend/pqpsi/protocols/net.h:29-67 | the loops build that plan |
| `Net.Link.Send` | frontend/pqpsi/protocols/net.h:133-147 | each channel receives exactly its piece |
| `Net.Link.Receive` | frontend/pqpsi/protocols/net.h:149-183 | the pieces are written back to their places and the channels are empty again |
| `Net.Transfer` | frontend/pqpsi/protocols/net.h:133-183 | the message arrives unchanged for any number of channels, split or not |
| `PqPsi.PeerIsOwn` | frontend/pqpsi/pqpsi.cpp:229-232 | the receiver permutes with the first permutation and the sender with the second, and each undoes the other's |
| `PqPsi.ShowsHidden` | frontend/pqpsi/protocols/recv.cpp:96-106 | unmasking and unpermuting with the same item undoes permuting and masking |
| `PqPsi.HideRows` | frontend/pqpsi/protocols/recv.cpp:39-46 | every row is permuted and masked with its item |
| `PqPsi.ShowRows` | frontend/pqpsi/protocols/send.cpp:49-57 | every row is unmasked and unpermuted in place |
| `PqPsi.PrecomputeMasks` | frontend/pqpsi/protocols/tools/mask.h:72-87 | row i is the mask of item i |
| `PqPsi.EncapRows` | frontend/pqpsi/protocols/tools/kem_rows.h:443-570 | one encapsulation per row, or the run ends if a row is no public key |
| `PqPsi.CountHits` | frontend/pqpsi/protocols/tools/kem_rows.h:664-788 | single-threaded and per-thread counting give the number of rows that decapsulate |
| `PqPsi.ReceiverStart` | frontend/pqpsi/protocols/recv.cpp:10-56 | at each of its items the first table holds the public key, permuted with the first permutation and masked, or zeros if the encoding fails; the table is the solution that elimination finds for these values |
| `PqPsi.Sender` | frontend/pqpsi/protocols/send.cpp:10-107 | it goes on exactly if every row that the first table shows it can be encapsulated to; then the second table is the solution for the encapsulations at its items, permuted with the second permutation if so configured, and masked; if the encoding fails it is the first table again |
| `PqPsi.ReceiverShow` | frontend/pqpsi/protocols/recv.cpp:88-106 | the rows handed to decapsulation |
| `PqPsi.CommonItem` | frontend/pqpsi/protocols/recv.cpp:35-118 | at a common item this row is the sender's encapsulation under the receiver's key, or under its unpermuted mask if the receiver's encoding failed |
| `PqPsi.EchoedItem` | frontend/pqpsi/protocols/recv.cpp:35-118 | if the sender's encoding failed, the receiver is shown its own row, permuted back as configured |
| `PqPsi.ZerosHoldZero` | frontend/pqpsi/protocols/recv.cpp:49-56 | a table left at zero holds zeros at every item |
| `PqPsi.HitsAreIntersection` | frontend/pqpsi/protocols/recv.cpp:108-118 | hits are at least the size of the intersection, and equal to it exactly if no other row decapsulates |
| `PqPsi.TranscriptMeans` | frontend/pqpsi/protocols/recv.cpp:88-118 | from what the two tables hold: what every row shows after each combination of successful and failed encodings, and the hits when both succeed |
| `PqPsi.Run` | frontend/pqpsi/protocols/recv.cpp:8-119 | the whole run, with or without the sender's permutation, over any channels and threads: it ends early exactly if the sender cannot encapsulate under what the first table shows it, so never with a KEM that takes every row; otherwise the rows shown after each combination of successful and failed encodings, and the hits: at least the intersection when both succeed, and equal to it exactly if no other row decapsulates |
| `Permutations.WidePermOk` | frontend/pqpsi/protocols/tools/base.h:151-195 | a permutation of bytes that is undone by another gives a permutation of rows, through the bytes of the blocks |
| `Permutations.Hctr2PermOk` | frontend/pqpsi/protocols/tools/base.h:151-195 | HCTR2 on the bytes of a row is a permutation as the run asks for, for any number of blocks |
| `Permutations.SetupWithHctr2` | frontend/permutation/permutation.h:88-95 | a run in which both parties use HCTR2 meets what the run asks for |
| `Permutations.ConsPiPermOk` | frontend/pqpsi/protocols/tools/base.h:151-195 | so is the construction over SNEIK, for all its parameters |
| `Permutations.SetupWithConsPi` | frontend/permutation/permutation.h:88-93 | a run in which both parties use the construction, with their party bits, meets what the run asks for |
| `Permutations.CryptRow` | frontend/pqpsi/protocols/tools/base.h:151-195 | serialising a row, HCTR2 in place and reading the blocks back is that permutation or its inverse |
| `Permutations.ConsPiRow` | frontend/pqpsi/protocols/tools/base.h:151-195 | the same for the construction over SNEIK |
| `Oprf.Difference` | volepsi/volePSI/RsOprf.cpp:154-245 | for every x the two values before the last hash differ by d * (Decode(x, p) + h(x)) |
| `Oprf.AgreeIff` | volepsi/volePSI/RsOprf.cpp:154-245 | they are equal exactly if p decodes x to its hash or d is zero |
| `Oprf.MaskAndSend` | volepsi/volePSI/RsOprf.cpp:376-419 | the masking loop sends the stream defined by its own sizes |
| `Oprf.StreamMasks` | volepsi/volePSI/RsOprf.cpp:376-419 | below two chunks the stream is p + c |
| `Oprf.StreamBroken` | volepsi/volePSI/RsOprf.cpp:405-414 | from two chunks on, zeros masked with ones are not sent as ones |
| `Oprf.MaskingRightIff` | volepsi/volePSI/RsOprf.cpp:376-419 | masking is right for all tables of a size exactly if the size is below two chunks |
| `Oprf.LastHashesAgreeIff` | volepsi/volePSI/RsOprf.cpp:218-240 | if the fixed-key hash is injective, and the keyed one in its key, the last hash keeps values apart in both modes |
| `Oprf.Sender.Absorb` | volepsi/volePSI/RsOprf.cpp:102-144 | b becomes b + d * received, chunk by chunk and lane by lane |
| `Oprf.Sender.Eval` | volepsi/volePSI/RsOprf.cpp:154-245 | semi-honest: the fixed-key hash of what b decodes plus d times the item's hash; malicious: the keyed hash of the item under that value plus w; with any number of threads |
| `Oprf.Receiver.Finish` | volepsi/volePSI/RsOprf.cpp:423-489 | the fixed-key hash of what a decodes, or the keyed hash of the item under that value plus w; it fails exactly on a wrong commitment |
| `Oprf.Receiver.SolveTable` | volepsi/volePSI/RsOprf.cpp:309-325 | it is solved exactly if the store can hold the items, and then decodes every item to its hash |
| `Oprf.Exchange` | volepsi/volePSI/RsOprf.cpp:309-490 | the sender ends with b + d * (p + c) and with w the sum of the two shares, the receiver with the last hash, in both modes, over what a decodes |
| `Oprf.Run` | volepsi/volePSI/RsOprf.cpp:266-490 | solve, exchange and evaluation: the table is solved exactly if the store can hold the items; then it decodes them to their hashes, the sender ends with b + d * (p + c), the receiver's outputs are the last hashes over the sender's values at its items, equal items have equal outputs, and at every item the values agree, and with injective hashes the outputs too, exactly if the table decodes the item to its hash or d is zero |
| `MpscQueue.RunInv` | cryptoTools/Common/mpsc_queue.h:56-83 | every step of every interleaving keeps the chain from tail to head intact |
| `MpscQueue.Safe` | cryptoTools/Common/mpsc_queue.h:56-83 | no deleted node is read, written or deleted, and values leave in the order of the exchanges |
| `MpscQueue.EmptyIff` | cryptoTools/Common/mpsc_queue.h:72-77 | an empty queue is reported exactly if everything has left or the next node is not linked yet |
| `MpscQueue.Drained` | cryptoTools/Common/mpsc_queue.h:48-54 | without waiting producers an empty report means that all values have left and one node remains |
| `MpscQueue.NodesConserved` | cryptoTools/Common/mpsc_queue.h:56-83 | there are as many nodes as values under way, plus one, plus one that is about to be deleted |
| `ConsPi.PackShifted` | frontend/permutation/cons.h:279-302 | the first n bits of the moved state, whether the offset lies on a byte or not |
| `ConsPi.UnpackShifted` | frontend/permutation/cons.h:304-326 | these bits are overwritten, the rest of the state stays |
| `ConsPi.Materialize` | frontend/permutation/cons.h:328-348 | the buffer is rotated so that the state starts at its first bit |
| `ConsPi.XorRound` | frontend/permutation/cons.h:364-393 | adds the round number and the party bit behind the first s bits of the state |
| `ConsPi.RoundsCover` | frontend/permutation/cons.h:22-23 | the rounds, and two more, are five times the least number of steps that pass the rest of the state |
| `ConsPi.ConstantsDistinct` | frontend/permutation/cons.h:364-393 | no two rounds of either party use the same constant |
| `ConsPi.MovedForward` | frontend/permutation/cons.h:66 | moving the offset is rotating the state |
| `ConsPi.EncryptBytes` | frontend/permutation/cons.h:55-71 | equals: permute, add the constant, rotate, round after round |
| `ConsPi.DecryptBytes` | frontend/permutation/cons.h:73-93 | equals the plain inverse |
| `ConsPi.DecryptEncrypt` | frontend/permutation/cons.h:55-93 | decrypting undoes encrypting for every invertible small permutation |
| `ConsPi.EncryptDecrypt` | frontend/permutation/cons.h:55-93 | and encrypting undoes decrypting |
| `ConsPi.EncryptThenDecrypt` | frontend/permutation/cons.h:55-93 | on buffers: all bytes are as before |
| `SneikLinear.InvMatrix` | frontend/permutation/sneik.h:34-94 | every column it returns is mapped to its unit vector; it throws exactly if the map has a kernel |
| `SneikLinear.EliminateColumn` | frontend/permutation/sneik.h:57-80 | one column of the elimination keeps the solution; without pivot the map has a kernel |
| `SneikLinear.SlowInverts` | frontend/permutation/sneik.h:96-107 | the sum over the bits undoes the map from both sides |
| `SneikLinear.InvTable` | frontend/permutation/sneik.h:111-123 | every table entry is the inverse of its byte |
| `SneikLinear.ApplyInv` | frontend/permutation/sneik.h:125-131 | four look-ups give the sum over 32 bits |
| `SneikLinear.LinAFourTimes` | frontend/permutation/sneik.h:24-27 | four times the first map is a rotation by 28 |
| `SneikLinear.LinBFourTimes` | frontend/permutation/sneik.h:29-32 | four times the second map changes nothing |
| `SneikLinear.MapsInjective` | frontend/permutation/sneik.h:24-32 | neither map loses information |
| `SneikRounds.MixF` | thirdparty/sneik/sneik_f512.c:13-22 | the macro on four registers is one step on the array |
| `SneikRounds.MixRound` | thirdparty/sneik/sneik_f512.c:48-65 | sixteen steps and constants in registers are one round on the array |
| `SneikRounds.AllRounds` | thirdparty/sneik/sneik_f512.c:42-66 | the rolling registers carry over from round to round |
| `SneikRounds.BackwardForward` | frontend/permutation/sneik.h:164-181 | the inverse rounds undo the rounds, and the other way round |
| `Sneik.SneikF512` | thirdparty/sneik/sneik_f512.c:24-74 | the bytes of the state become the permutation of its bits |
| `Sneik.Invert` | frontend/permutation/sneik.h:149-185 | the bytes of the state become the inverse permutation of its bits |
| `Sneik.UnpermutePermute` | frontend/permutation/sneik.h:149-185 | for every state, domain byte and up to 16 rounds each undoes the other |
| `Sneik.PermuteThenInvert` | frontend/permutation/sneik.h:149-185 | on buffers: all bytes are as before |
| `Sneik.SmallIsOk` | frontend/permutation/sneik.h:18-19 | the instance with eight rounds is a small permutation as the wide construction needs it |
| `Sneik.ConstantsApart` | thirdparty/sneik/sneik_f512.c:26-29 | the later eight constants are the complements of the first eight, which the small instance uses, and any two differ in at least four bits |
| `Polyval.Associative` | frontend/permutation/hctr2.h:72-114 | the product of the field is associative |
| `Polyval.Reduction` | frontend/permutation/hctr2.h:97-112 | every power from 128 on reduces by the polynomial of the field |
| `Polyval.InverseIsInverse` | frontend/permutation/hctr2.h:250 | the constant is x^-128 |
| `PolyMul.AddShiftedFactor` | frontend/permutation/hctr2.h:82-93 | four words receive the shifted factor |
| `PolyMul.ReduceBit` | frontend/permutation/hctr2.h:97-112 | flipping five coefficients keeps the value |
| `PolyMul.Mul` | frontend/permutation/hctr2.h:72-114 | the product of the field |
| `PolyMul.MakeMulTable` | frontend/permutation/hctr2.h:130-151 | every entry is the product of its byte |
| `PolyMul.MulFixed` | frontend/permutation/hctr2.h:153-162 | the look-ups give the product |
| `PolyMul.PolyvalKey` | frontend/permutation/hctr2.h:248-252 | the hash key times x^-128 |
| `Hctr2.FoldedKey` | frontend/permutation/hctr2.h:248-252 | multiplying by the folded key is dot() of RFC 8452 |
| `Hctr2.Update` | frontend/permutation/hctr2.h:254-261 | Horner's rule over whole blocks |
| `Hctr2.InitHash` | frontend/permutation/hctr2.h:275-283 | the state after the length block and the padded tweak |
| `Hctr2.Hash` | frontend/permutation/hctr2.h:331-347 | POLYVAL of section 3 of RFC 8452 over tweak and message |
| `Hctr2.Xctr` | frontend/permutation/hctr2.h:349-392 | adds the key stream in place, whole blocks and the rest |
| `Hctr2.Crypt` | frontend/permutation/hctr2.h:394-434 | encrypts or decrypts in place; fails exactly below one block |
| `Hctr2.DecryptEncrypt` | frontend/permutation/hctr2.h:394-434 | decryption undoes encryption for every length and every AES |
| `Hctr2.EncryptDecrypt` | frontend/permutation/hctr2.h:394-434 | and encryption undoes decryption |
| `Hctr2.CryptTwice` | frontend/permutation/hctr2.h:394-434 | on buffers: all bytes are as before |
| `Hctr2.MakeKey` | frontend/permutation/hctr2.h:304-320 | tables and starting values belong to the key |
| `Hctr2.NumberBlockValue` | frontend/permutation/hctr2.h:356-360 | the bits of the block of a 64-bit number are that number |
| `Hctr2.StreamBlocksDiffer` | frontend/permutation/hctr2.h:349-392 | different counters give different blocks of the key stream, for every nonce and every AES |

## Left out

- Randomised Paxos (a generator is passed to `encode`), the binary dense mode and RsOpprf.
- `PaxosParam::init`, bin sizes, band widths and table sizes: floating-point fits; the sizes are parameters here.
- Failure probabilities, security levels and secrecy.
- AES, SHA-1, ML-KEM, Kemeleon, elliptic curves and libdivide: parameters; libdivide is taken to divide exactly. In the matrix code the inverse of an element is that of the field.
- ScalarInverse.ScalarInv: that x^(2^128) is x in the field of the source is a hypothesis.
- Triangulation.Triangulate: if its run has several faults, which one it reports is not stated.
- Paxos.Store.Encode: one block per key; the code for wider values does the same in every column. How likely the rows of random keys can be encoded is not part of this model.
- PaxosHash.BuildRows: sizes are 64-bit words, and for weight three at most 2^63 with the signed comparison, as `PaxosHash.LaneRightIff` requires.
- Baxos.Solve: an overfull bin of a thread, which in the source writes behind the buffer, is an outcome here; hashes and values are one array of pairs, and the bins are solved one after the other instead of by the threads in turn.
- Baxos.Decode: the buffers of waiting hashes are sequences; that they never exceed their size is an invariant.
- RbCodec.Encode: `columns` and `bandWidth` are given, with 1 <= width <= 256 and width <= columns; the one-dimensional overloads only wrap this one.
- RbFlat.FlatDecode: the overload with flat table and nested output is not modelled separately.
- `std::stable_sort` is the stable order; `RBFor`, `parallelFor` and the channel threads are loops over independent indices.
- PqPsi.Run: both sets are non-empty and of equal size, so that both parties use the same band width; timing, traces and key generation are not modelled.
- Net.Link.Send: a channel is a queue of bytes; sockets and errors are not modelled. Both ends are given the same threading flag and number of channels.
- Oprf.Run: the VOLE correlation is given, the table is below two chunks, and both parties have the parameters of the store.
- ConsPi.EncryptBytes: the small permutation is a parameter of a whole number of bytes; the conversions between bits and bytes of `encrypt` and `decrypt` are not modelled.
- Sneik.Invert: round counts above 16 have no constants and are not modelled.
- Hctr2.Crypt: lengths that the key stream buffer of 50 blocks does not hold are excluded, as the source would write behind it.
- MpscQueue.Safe: steps are interleaved on a sequentially consistent memory.
- Xoodoo, Keccak, the Feistel permutation, RsPsi, RsCpsi, networking, files and command lines.
