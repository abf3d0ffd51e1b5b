# Classic Reed-Solomon pipeline: a verified model

This project models the Classic codec of the erasure-coding library and proves what it is for: that
its matrices are maximum distance separable, that every coding path computes the same matrix product,
that recovery gives back exactly the lost shards, and that the shortcuts, caches and parallel schedules
on the way change nothing. `dafny verify dfyconfig.toml` checks all of it.

Everything is stated over an arbitrary finite field of characteristic two (`Fields.Field`, after the
`Field` trait), so the results hold for every shard count, shard length, erasure pattern and matrix size.
The tower field GF((2^8)^2) is itself proved to be such a field for any base field and any root-free
quadratic polynomial. A matrix is singular when a nonzero vector is in its kernel; no determinants are used.

## Layout

- `Arithmetic`, `Fields`, `Vectors`, `Polynomials`: shared word arithmetic, the field interface, linear
  combinations (`Comb`), and the bound on the number of roots of a polynomial.
- `Kernels`, `Elimination`, `Matrix`: row operations, Gaussian elimination and inversion in place on a flat
  row-major buffer, with both row paths (whole byte rows, trimmed scalar rows).
- `Mds`, `Builders`, `ColumnOps`, `JerasureForm`, `Jerasure`, `JerasureLimits`, `Families`,
  `Codec`: the MDS theorems, the matrix builders and the choice of a codec.
- `Slices`, `Coding`, `Encode`, `SelectedOutputs`, `Update`, `ShardByShard`, `Verify`: the coding loops and the
  public operations on mutable buffers, with their argument checks.
- `Scheduling`, `Policy`, `ParallelCoding`, `ParallelTasks`: chunk tasks, job decisions, the machine of interleaved
  slice operations, and the tasks that drive it.
- `Indices`, `DecodeMatrix`, `RecoveryShape`, `RecoveryRows`, `RecoveryPlan`, `Shards`, `Reconstruct`, `Recovery`:
  recovery from validated lengths to restored shards, and what its callers may rely on.
- `InversionCache`, `TwoEntryCache`: the two caches as state machines.
- `Tower`, `GroupOrder`, `TowerField`, `TowerSlices`, `SmallFields`: the tower field and its chunked slice multiply.
- `Format`, `SplitJoin`, `Outcomes`: the binary format descriptor, payload splitting, result types.

## Reading the main results

- MDS: `Mds.VandermondeMds`, `Mds.CauchyMds`, `Mds.OneParityMds`, `Mds.ExtendedVandermondeMds`, carried to the
  finished matrices by `Builders.BuildMatrix`, `Builders.BuildCauchyMatrix`,
  `JerasureBuilder.BuildJerasureLikeMatrix` and `Codecs.WithOptions`.
- Recovery: `RecoveryGuarantees.RecoverErasures` (recovery inverts erasure), from
  `RecoveryGuarantees.MdsErasuresRecoverable` (no error comes first) and `Reconstruction.Reconstruct` (what is
  restored, codeword or not), and `RecoveryGuarantees.TooManyErasures` for the other side.
- Detection: `Verification.DamageIsDetected` and its limit `Verification.DistanceIsAttained`.
- Coding paths: `Coding.CodeSomeSlices`, `ParallelTasks.AnyTaskInterleaving`, `Updating.UpdateIsExact`,
  `ShardByShardEncoding.EncodeResetEncode`.
- Choices and formats, stated apart from the functions that compute them: `Codecs.WithOptions` (which codec is built),
  `Formats.DescriptorLayout` (every byte of the descriptor), `Policies.LongestChunk`, and the exact error of every
  refused call (`Encoding.EncodeSepErrors` and its siblings, `RecoveryGuarantees.PlanningErrors`).

Two places where the code keeps less than its documentation suggests:

- The Jerasure-like builder replaces the first row by the point zero but never checks that no interior row
  uses zero again. The `Field` contract only promises that `nth` is injective, not that zero comes first. The
  result is MDS if and only if no interior element is zero or there is one data shard
  (`JerasureBuilder.BuildJerasureLikeMatrix`). The built-in fields meet this
  (`JerasureBuilder.ZeroFirstSuffices`); GF(4) numbered with zero second does not (`JerasureLimits.Gf4Fails`).
- `LeopardMode::PreferLeopard` is documented to choose GF(2^8) up to 256 shards with at most 128 parity shards.
  It does, but the construction is then refused unless the data fits beside the parity count rounded up to a
  power of two, where GF(2^16) and Classic would both be accepted (`Families.PreferenceGap`). Above 128 parity
  shards a GF(2^8) codec cannot be constructed at all, although a comment says it can (`Families.ParityCeiling`).

Payloads near `usize::MAX` saturate the aligned shard length, as documented; every byte still fits whenever there
are two shards or more (`SplitJoin.AlignedShardsHoldPayload`).

A codec argument is `Valid` as the constructors leave it. Mutable slices, which Rust keeps apart, are different
arrays of equal or checked length; data that is only read is a sequence.

`Codecs.Error` and `Builders.BuildError` are the subset of the library's errors the Classic paths return;
`InvalidMatrix` is its `InvalidCustomMatrix` and `UnsupportedFamily` its `UnsupportedCodecFamily`. Whether a
field supports the byte kernels and whether the target is little-endian are parameters (`Families.Platform`).
Ghost parameters named `good`, `was`, `original`, `deltas`, `word` or `goal` carry specification values only.
Out-parameters for kernel vectors, codewords and step counts are ghost witnesses.

## Model

| member | source | states |
|---|---|---|
| `Fields.Field.Distinct` | src/lib.rs:196-213 | `nth` gives different elements for different numbers below the order: their sum is zero exactly when the numbers are equal |
| `Fields.Field.NoZeroDivisors` | src/lib.rs:163-174 | a product is zero exactly when a factor is zero |
| `Fields.Field.PowAdd` | src/lib.rs:176-177 | powers add: `a^(m+n) = a^m a^n`, the meaning of `exp` that Vandermonde rows rely on |
| `Slices.MulSlice` | src/lib.rs:215-225 | the default slice multiply overwrites exactly its range with the scaled input and touches nothing else |
| `Slices.MulSliceAdd` | src/lib.rs:227-238 | the accumulating form adds the scaled input to exactly its range |
| `SmallFields.Gf4IsField` | src/lib.rs:95-239 | the field laws can be met: GF(4), built as the tower over GF(2), satisfies all of them |
| `Polynomials.DivisionIdentity` | src/matrix.rs:446-459 | synthetic division: `p(x) - p(a) = (x - a) q(x)` for every polynomial and all points |
| `Polynomials.RootBound` | src/matrix.rs:450-451 | a polynomial with as many distinct roots as coefficients is zero: why unique `nth` values make Vandermonde systems solvable |
| `Polynomials.FactorsRoots` | src/core/codec.rs:106-111 | the common denominator of a Cauchy row vanishes exactly at its poles |
| `Polynomials.NumeratorAtPole` | src/core/codec.rs:106-111 | at a pole the partial-fraction numerator vanishes exactly when that coefficient is zero |
| `Polynomials.NumeratorAway` | src/core/codec.rs:106-111 | away from the poles the numerator is the Cauchy row applied to the coefficients, times the denominator |
| `Kernels.AddRowKernel` | src/matrix.rs:330-371 | adding a multiple of one row to another leaves the solution set unchanged |
| `Kernels.EliminationSolves` | src/matrix.rs:373-422 | eliminating `[A \| R]` to `[I \| X]` solves `A X = R` |
| `Kernels.EliminationInverts` | src/matrix.rs:424-444 | eliminating `[A \| I]` to `[I \| B]` yields a two-sided inverse |
| `Kernels.InverseUnique` | src/matrix.rs:424-444 | there is at most one inverse, so every way of computing it agrees |
| `Elimination.ClearColumnKernel` | src/matrix.rs:401-409 | clearing a column with its pivot row keeps the solution set |
| `Elimination.ForwardShape` | src/matrix.rs:401-409 | clearing below a unit pivot extends the staircase of unit pivots and zero prefixes by one column |
| `Elimination.PivotRoundStep` | src/matrix.rs:375-410 | one forward round (swap, normalize, clear below) keeps solution set and staircase |
| `Elimination.BackwardShape` | src/matrix.rs:412-420 | clearing above the diagonal keeps the columns already reduced |
| `Elimination.LeftIdentityKernel` | src/matrix.rs:384-387 | success and failure of the elimination exclude each other: an identity left block has no kernel vector supported on it |
| `Matrices.PivotRowTrim` | src/matrix.rs:352-370 | the trimmed scalar update of a row (zero prefix and unit pivot skipped) equals the full-row byte update |
| `Matrices.NormalizeTrim` | src/matrix.rs:388-400 | the trimmed normalization equals scaling the whole row |
| `Matrices.PatchRow` | src/matrix.rs:100-107 | writing inside one row of the flat row-major buffer changes that row of the matrix and no other |
| `Matrices.Matrix.SwapRowsInPlace` | src/matrix.rs:293-303 | the in-place swap exchanges exactly two rows |
| `Matrices.Matrix.AddScaledPivotRow` | src/matrix.rs:330-371 | on its documented preconditions both arithmetic paths add `scale` times the pivot row to the destination row, and nothing else changes |
| `Matrices.Matrix.NormalizeRow` | src/matrix.rs:388-400 | the pivot row is multiplied by the inverse of its pivot |
| `Matrices.Matrix.FindPivot` | src/matrix.rs:376-383 | the search swaps up a nonzero entry of the column whenever one exists |
| `Matrices.Matrix.PivotRound` | src/matrix.rs:375-410 | one column keeps the solution set, and either extends the staircase or proves the rest of the column zero |
| `Matrices.Matrix.GaussianElim` | src/matrix.rs:373-422 | the in-place elimination keeps the solution set; success means an identity left block, failure exhibits a nonzero kernel vector supported on it |
| `Matrices.Matrix.Invert` | src/matrix.rs:424-444 | `NonSquare` exactly on non-square input; otherwise Ok exactly when no nonzero kernel vector exists, with `A B = B A = I`, and `SingularMatrix` with such a vector |
| `Matrices.Matrix.Multiply` | src/matrix.rs:195-214 | the product with zero coefficients skipped equals the matrix product; the error depends exactly on the dimensions |
| `Matrices.Matrix.AugmentWith` | src/matrix.rs:250-266 | places two matrices side by side exactly when the row counts agree |
| `Matrices.Matrix.SubMatrix` | src/matrix.rs:268-276 | copies exactly the rectangle |
| `Matrices.Matrix.Vandermonde` | src/matrix.rs:446-459 | row `r` holds the powers of the `r`-th field element |
| `Mds.VandermondeMds` | src/matrix.rs:446-459 | any `k` rows of a Vandermonde matrix over distinct elements determine the data, for every size up to the field order |
| `Mds.VandermondeEntry` | src/matrix.rs:446-459 | entry `(r, c)` of the Vandermonde matrix is the `c`-th power of the `r`-th field element |
| `Mds.ExtendedVandermondeMds` | src/core/codec.rs:123-133 | so do any `k` rows of the matrix extended by the points zero and infinity, when no interior point repeats zero |
| `Mds.ExtendedEntry` | src/core/codec.rs:123-133 | row zero is the point zero, the last row is infinity, every other row holds the powers of its element |
| `Mds.CauchyMds` | src/core/codec.rs:96-117 | any `k` rows of `[I; C]` determine the data |
| `Mds.CauchyEntry` | src/core/codec.rs:96-117 | each parity entry times the sum of its two points is one |
| `Mds.OneParityMds` | src/core/codec.rs:243-255 | so do any `k` rows of the single-parity all-ones format |
| `Builders.SystematicProduct` | src/core/codec.rs:88-93 | multiplying by the inverse of the top block keeps the MDS property, makes the code systematic, and multiplies back to the original |
| `Builders.VandermondeCodeUnique` | src/core/codec.rs:76-93 | only one systematic matrix multiplies back to the Vandermonde matrix, so the two builders agree |
| `Builders.SystematicFromVandermonde` | src/matrix.rs:219-248 | the workspace-retaining builder succeeds exactly when the top block is not singular, and yields the systematic product |
| `Builders.BuildMatrix` | src/core/codec.rs:72-94 | for every count up to the field order both variants succeed, with identity top rows, MDS, and the one systematic Vandermonde code |
| `Builders.BuildCauchyMatrix` | src/core/codec.rs:96-117 | never meets a zero denominator; the result is exactly `[I; 1/(x_r + x_c)]`, systematic and MDS |
| `Builders.BuildOneParityMatrix` | src/core/codec.rs:243-255 | identity over a row of ones, systematic and MDS |
| `Builders.BuildCustomMatrix` | src/core/codec.rs:204-232 | accepts exactly matrices with enough rows and columns; the result is the identity over the truncated custom rows |
| `ColumnOps.ScaleColKeeps` | src/core/codec.rs:153-157 | scaling a column keeps the column rank and the MDS property, or the pair of indistinguishable rows |
| `ColumnOps.AddColKeeps` | src/core/codec.rs:159-170 | so does adding a multiple of a column to another |
| `ColumnOps.SwapKeeps` | src/core/codec.rs:140-141 | so does exchanging two rows |
| `ColumnOps.ScaleParityColKeeps` | src/core/codec.rs:179-184 | so does scaling a column of the parity rows only, because the unit rows above absorb the factor |
| `ColumnOps.PivotExists` | src/core/codec.rs:136-141 | with unit rows above it every column has a nonzero entry from the diagonal on: the scan never passes the last row |
| `ColumnOps.ParityNonZero` | src/core/codec.rs:173-177 | every parity coefficient of a systematic MDS matrix is nonzero: the error branches are dead |
| `ColumnOps.TwinsNotMds` | src/core/codec.rs:119-202 | a repeated evaluation point leaves two indistinguishable rows, which rules the MDS property out as soon as there are two data shards |
| `JerasureForms.ScaleForms` | src/core/codec.rs:146-157 | normalizing a pivot column keeps the relation to the extended Vandermonde matrix, both ways |
| `JerasureForms.AddForms` | src/core/codec.rs:159-170 | clearing a pivot row by column operations keeps that relation |
| `JerasureForms.PivotNonZero` | src/core/codec.rs:136-145 | with distinct points the pivot is never zero, because its column holds the values of a monic polynomial with too many roots: the swap branch is never taken |
| `JerasureForms.FormsEnd` | src/core/codec.rs:135-171 | the finished elimination has divided out the top block of the extended Vandermonde matrix |
| `JerasureBuilder.PivotColumn` | src/core/codec.rs:136-145 | brings a nonzero entry onto the diagonal, takes no error branch, and exchanges nothing when the points are distinct |
| `JerasureBuilder.ReduceColumn` | src/core/codec.rs:135-171 | makes row `i` a unit row by column operations, keeping rank, MDS property and origin |
| `JerasureBuilder.NormalizeFirstParity` | src/core/codec.rs:173-185 | makes the first parity row all ones by dividing each parity column by its head; with distinct points it cannot fail |
| `JerasureBuilder.NormalizeFirstColumn` | src/core/codec.rs:187-199 | makes the first column of the parity rows ones by dividing each row by its head |
| `JerasureBuilder.BuildJerasureLikeMatrix` | src/core/codec.rs:119-202 | the whole builder: identity top rows, ones-headed parity; it succeeds with an MDS matrix if and only if no interior evaluation point is zero or there is one data shard, and the coefficients are then those of the extended Vandermonde code |
| `JerasureBuilder.JerasureCodeUnique` | src/core/codec.rs:119-202 | shape and origin determine every coefficient of the result |
| `JerasureBuilder.ZeroFirstSuffices` | src/lib.rs:185-213 | numbering zero as element zero, as the built-in fields do, settles the condition |
| `JerasureLimits.RenumberedFails` | src/lib.rs:185-213 | the condition can fail: every field that numbers zero first becomes, with its first two elements renumbered, a field that meets the interface and fails the condition for every code with an interior row |
| `JerasureLimits.Gf4Fails` | src/core/codec.rs:123-133 | a concrete such field: GF(4) with zero as element number one |
| `JerasureLimits.BuildOverRenumberedGf4` | src/core/codec.rs:119-202 | over that field the builder returns no MDS matrix for two data and two parity shards |
| `Codecs.BuildMatrixWithOptions` | src/core/codec.rs:234-263 | other families are refused; each Classic option combination builds the matrix of its format, and the result is MDS exactly under the stated condition |
| `Codecs.WithOptions` | src/core/codec.rs:274-354 | which family is built, in terms of the requested family, the mode, the field and the counts, for every combination; each error with its exact condition; a Classic codec has the matrix of its format, which is MDS exactly under the stated condition |
| `Codecs.WithCustomMatrix` | src/core/codec.rs:551-619 | the count and family errors in their order; otherwise accepted exactly when the rows fit and single-parity mode has an all-ones row, with the custom rows as parity rows |
| `Families.ComboFitsExactly` | src/core/leopard.rs:225-237 | the blockwise layout check of the Leopard families accepts exactly when the data fits beside the parity count rounded up to a power of two |
| `Families.ParityCeiling` | src/core/leopard.rs:34-37 | no GF(2^8) Leopard codec with more than 128 parity shards passes construction |
| `Families.PreferenceGap` | src/core/options.rs:55-59 | where the preference for Leopard selects GF(2^8), it is refused exactly when the rounded parity leaves too little room, although GF(2^16) and Classic would be accepted |
| `Families.PreferenceGapExample` | src/core/leopard.rs:215-221 | an input in the gap: 156 data and 100 parity shards |
| `Coding.PartialRowStep` | src/core/encode.rs:729-749 | one slice operation takes an output range from `i` applied inputs to `i + 1`, the first one overwriting |
| `Coding.CodeSingleSliceRange` | src/core/encode.rs:729-749 | applies one input to one range of every output and to nothing else |
| `Coding.CodeChunkLen` | src/core/encode.rs:604-620 | a chunk is never longer than the shard and never empty for a nonempty shard, so the chunk loop advances |
| `Coding.ChunkLenBands` | src/core/encode.rs:604-620 | the four bands of the serial chunk length, in bytes |
| `Coding.CodeSomeSlices` | src/core/encode.rs:532-602 | the chunked serial loop leaves the matrix product in the outputs, whatever they held |
| `SelectedOutputs.Select` | src/core/encode.rs:106-129 | walking one forward-only iterator finds the owner of every sorted target; the walk never runs out |
| `SelectedOutputs.CodeSelected` | src/core/encode.rs:428-446 | selected-output coding writes the product rows to the targets and leaves every other shard alone |
| `Encoding.EncodeSepCheck` | src/core/encode.rs:955-957 | the checks of separate encoding accept exactly matching counts and nonempty shards of one length |
| `Encoding.BothSlicesErrors` | src/macros.rs:142-178 | the left list is judged before the right one, an empty first shard before a differing length, and the two lists are compared last |
| `Encoding.EncodeSepErrors` | src/core/encode.rs:955-957 | the exact error of a refused separate encoding, from the counts and lengths alone |
| `Encoding.EncodeErrors` | src/core/encode.rs:936-944 | the same for encoding in place and for verification |
| `Encoding.EncodeSingleErrors` | src/core/encode.rs:913-930 | the same for one data shard, where the index is judged first |
| `Encoding.EncodeSingleListErrors` | src/core/encode.rs:892-910 | the same for its single-list variant |
| `Encoding.EncodeFastOneParity` | src/core/encode.rs:872-887 | copy and add equals the all-ones combination |
| `Encoding.EncodeSep` | src/core/encode.rs:950-972 | the first failing check decides the error and nothing is written; otherwise the parity is the encoding of the data, fast path or not |
| `Encoding.Encode` | src/core/encode.rs:935-947 | in-place encoding keeps the data shards and replaces the parity shards by their encoding |
| `Encoding.EncodeSingleSep` | src/core/encode.rs:913-930 | one data shard overwrites (first) or accumulates into every parity shard; errors write nothing |
| `Encoding.EncodeSingle` | src/core/encode.rs:892-910 | the single-list variant changes only the parity shards |
| `Scheduling.ChunkAt` | src/core/parallel.rs:256-258 | the `i`-th chunk of a row starts at `i` chunk lengths and is whole, or the tail |
| `Scheduling.ChunksApart` | src/core/parallel.rs:210-263 | no two chunks share a cell |
| `Scheduling.CellCovered` | src/core/parallel.rs:210-263 | every cell of every output lies in some chunk |
| `Scheduling.BudgetsSumToJobs` | src/core/parallel.rs:248 | the per-row job budgets add up to the job limit |
| `Scheduling.GroupFits` | src/core/parallel.rs:248-250 | saturating group lengths are whole chunks or the whole row, and few enough for the row budget |
| `Scheduling.SplitTasks` | src/core/parallel.rs:242-262 | with fewer outputs than jobs: exactly the serial chunk list is visited, by at most `jobs` tasks, none of which leaves its row or spans more columns than its share of chunks |
| `Scheduling.GroupedTasks` | src/core/parallel.rs:229-241 | with more outputs than jobs: the same, and no task spans more than `ceil(outputs / jobs)` rows |
| `Scheduling.PlanTasks` | src/core/parallel.rs:210-263 | for all arguments, exactly the chunks of the serial loop are visited in order, by never more tasks than jobs and none with more than its share |
| `ParallelCoding.StepConsistent` | src/core/encode.rs:660-671 | a slice operation of any worker keeps every chunk equal to the inputs it has absorbed |
| `ParallelCoding.RunConsistent` | src/core/encode.rs:660-671 | so does every run of slice operations, in any order |
| `ParallelCoding.AnyInterleaving` | src/core/encode.rs:623-673 | however the operations interleave, once all chunks are done the outputs are the matrix product, whatever they held before |
| `ParallelCoding.StepUsesOne` | src/core/encode.rs:660-671 | each step uses up one outstanding slice operation, so every run is finite |
| `ParallelCoding.ProcessChunk` | src/core/encode.rs:660-671 | the callback codes exactly its chunk |
| `ParallelCoding.CodeSomeSlicesScheduled` | src/core/encode.rs:623-673 | the scheduled loop leaves the same outputs as the serial loop |
| `ParallelTasks.WorkersAreSteps` | src/core/parallel.rs:224-263 | tasks that each work through their own chunks in order are one kind of schedule of the slice operations |
| `ParallelTasks.WorkersKeepOrder` | src/core/encode.rs:660-671 | no task ever has two chunks open: chunks behind its position are finished and chunks ahead are untouched, in every interleaving |
| `ParallelTasks.SomeWorkerActs` | src/core/parallel.rs:224-263 | until all is done some task can act, and acting leaves one operation less outstanding |
| `ParallelTasks.AnyTaskInterleaving` | src/core/encode.rs:623-673 | however the tasks of the chunk list interleave, the outputs end as the matrix product, whatever they held before |
| `Policies.DecisionBounds` | src/core/parallel.rs:65-125 | every decision stays within the shard, the cache budget and the job limits, and every parallel job has a chunk |
| `Policies.ParallelExactly` | src/core/parallel.rs:101-125 | parallel exactly when the shard is long enough, more than one job is allowed and there is more than one piece; the job count is then the smaller of the allowed jobs and the pieces |
| `Policies.LongestChunk` | src/core/parallel.rs:101-125 | the chunk is the longest multiple of 64 bytes that the shard, the cache budget, the bytes per job and the job share (or the serial band) admit, or the longest length at all below 64 |
| `Policies.ChunksAligned` | src/core/parallel.rs:193-202 | chunks are multiples of 64 or shorter than 64 |
| `Policies.ElementDecisionBounds` | src/core/parallel.rs:129-150 | the element chunk is the longest whose bytes fit the byte chunk, at least one element and never beyond the shard |
| `Policies.NativeJobsTile` | src/core/encode.rs:305-324 | the native jobs have the least 64-byte-multiple length that keeps them within the limit, and tile the shard, none of them empty |
| `ShardByShardEncoding.ParityIsPartial` | src/core/shard_by_shard.rs:152-181 | after any sequence of calls the parity is the partial product of exactly the shards accepted since the last reset |
| `ShardByShardEncoding.ReadyMeansEncoded` | src/core/shard_by_shard.rs:73-76 | when the parity is ready it equals a one-shot encoding of the batch |
| `ShardByShardEncoding.StaleParityIrrelevant` | src/core/shard_by_shard.rs:78-94 | what the parity buffers held before never matters: two encoders given the same calls agree |
| `ShardByShardEncoding.SameErrors` | src/core/shard_by_shard.rs:106-149 | refusals depend on cursor and lengths, never on contents |
| `ShardByShardEncoding.Refusals` | src/core/shard_by_shard.rs:81-149 | a reset is refused exactly strictly inside a batch, a feed for too many calls exactly at its end, and otherwise only with the error of its lists |
| `ShardByShardEncoding.BatchEncodes` | src/core/shard_by_shard.rs:152-181 | a full batch of well-formed feeds is accepted from any buffers and leaves its encoding |
| `ShardByShardEncoding.EncodeResetEncode` | src/core/shard_by_shard.rs:81-181 | after a full batch the reset is accepted and the next full batch leaves the encoding of the new shards |
| `ShardByShardEncoding.ShardByShard.ResetChecked` | src/core/shard_by_shard.rs:81-90 | refused exactly when the cursor is strictly between zero and the number of data shards, and then nothing changes; otherwise the cursor is zero |
| `ShardByShardEncoding.ShardByShard.ResetForced` | src/core/shard_by_shard.rs:92-94 | always returns the cursor to zero |
| `ShardByShardEncoding.ShardByShard.EncodeSeparate` | src/core/shard_by_shard.rs:168-181 | performs exactly one step of the machine; a refused call changes neither cursor nor parity |
| `ShardByShardEncoding.ShardByShard.EncodeTogether` | src/core/shard_by_shard.rs:152-165 | the single-list call performs the same step and never changes the data shards |
| `Verification.CodewordIsProduct` | src/core/verify.rs:14-33 | a shard list is a codeword exactly when it is the systematic matrix times its data shards |
| `Verification.MinimumDistance` | src/core/verify.rs:14-33 | for an MDS matrix, codewords that differ in at most `p` shards are equal |
| `Verification.DamageIsDetected` | src/core/verify.rs:72-93 | changing the contents of one to `p` shards of a codeword always makes verification fail |
| `Verification.DistanceIsAttained` | src/core/verify.rs:14-33 | the bound is sharp: two codewords can differ in `p + 1` shards |
| `Verification.VerifyWithBuffer` | src/core/verify.rs:157-174 | true exactly on codewords, whatever the scratch held; the first failing check decides the error and leaves the scratch alone |
| `Verification.VerifyErrors` | src/core/verify.rs:157-174 | the exact error of a refused verification: shard count, scratch count, then both lists |
| `Verification.Verify` | src/core/verify.rs:72-93 | the variant with its own scratch: true exactly on codewords |
| `Updating.UpdatingRowSkip` | src/core/encode.rs:1115-1117 | a chunk without changes needs no arithmetic |
| `Updating.UpdateShard` | src/core/encode.rs:1105-1130 | one changed shard, chunk by chunk with skipped chunks and short tails, adds exactly its scaled difference to every parity shard |
| `Updating.UpdateFastOneParity` | src/core/encode.rs:1083-1094 | the single-parity path adds the same difference without scratch |
| `Updating.Update` | src/core/encode.rs:1048-1133 | every check precedes every write; otherwise the parity gains the encoding of the differences, on either path |
| `Updating.UpdateErrors` | src/core/encode.rs:1060-1079 | the exact error of a refused update: three counts, then old data and parity, then the changed shards |
| `Updating.UpdateAddsEncodings` | src/core/encode.rs:1048-1133 | from any parity an update leaves it plus the old and the new encoding |
| `Updating.UpdateIsExact` | src/core/encode.rs:1048-1133 | from the encoding of the old data it leaves the encoding of the new data |
| `DecodeMatrices.SurvivorSystem` | src/core/reconstruct.rs:1063-1066 | data explains the survivors exactly when it repeats the known shards and solves the reduced system of the missing ones |
| `DecodeMatrices.AssembledInverts` | src/core/reconstruct.rs:1132-1142 | unit rows for the known data and solved rows for the missing data together invert the survivor rows |
| `DecodeMatrices.SingularSystem` | src/core/reconstruct.rs:1128-1130 | a singular reduced system means singular survivors |
| `DecodeMatrices.DecodeOneMissing` | src/core/reconstruct.rs:1077-1099 | one missing shard: dividing the parity equation by its pivot gives the inverse; a zero pivot means singular survivors |
| `DecodeMatrices.DecodeSeveralMissing` | src/core/reconstruct.rs:1101-1143 | several: eliminating only the missing coefficients gives the same inverse, and fails only on singular survivors |
| `DecodeMatrices.DecodeDense` | src/core/reconstruct.rs:1145-1154 | no surviving data: the dense inverse |
| `DecodeMatrices.BuildDataDecodeMatrix` | src/core/reconstruct.rs:1067-1155 | all three branches: the two-sided inverse of the survivor rows, or an error exactly when they are singular |
| `RecoveryShapes.ScanMeaning` | src/core/recovery_plan.rs:27-42 | the scan accepts exactly lists whose present shards share one nonzero length |
| `RecoveryShapes.ScanStops` | src/core/recovery_plan.rs:27-42 | the first offending shard decides the error of every longer scan |
| `RecoveryShapes.ScanBlames` | src/core/recovery_plan.rs:29-42 | a refused list has a first offending shard: empty, or not as long as an earlier one, and that decides the error |
| `RecoveryShapes.ClassicShardLengths.Observe` | src/core/recovery_plan.rs:29-42 | one observation updates the state exactly as the scan does; an error changes nothing |
| `RecoveryShapes.ClassicShardLengths.ScanPresentPrefix` | src/core/recovery_plan.rs:46-56 | reads up to and including the first erasure, each length once, with the scan's result |
| `RecoveryShapes.CompleteSurvivors` | src/core/recovery_plan.rs:359-385 | the erasure list alone completes a capped survivor prefix to the first `k` present indices |
| `RecoveryShapes.FillShapeFromSuffix` | src/core/recovery_plan.rs:330-388 | the two-phase fill equals the one-pass description: first `k` present indices, all missing ones, the same error, each length read once |
| `RecoveryShapes.ClassicReconstructShape` | src/core/recovery_plan.rs:301-327 | counts first, then the shape of the list; an all-present list stores no indices |
| `RecoveryShapes.SurvivorsFromErasures` | src/core/recovery_plan.rs:359-385 | survivors depend only on the erasures below the last survivor |
| `RecoveryShapes.ValidatePlanLayout` | src/core/recovery_plan.rs:391-412 | the cheap check reports count, length, pattern and shard-length errors in that order |
| `RecoveryShapes.LayoutCheckIsExact` | src/core/recovery_plan.rs:390-412 | it accepts a list exactly when recomputing its shape would give the plan's own |
| `RecoveryShapes.LayoutErrors` | src/core/recovery_plan.rs:391-412 | which difference a refused layout reports, from the counts, the lengths and the erasures |
| `RecoveryRows.DecodeRowRecovers` | src/core/recovery_plan.rs:202-209 | row `i` of the inverse, applied to the survivors of any data, gives data shard `i` |
| `RecoveryRows.SurvivingRowIsUnit` | src/core/recovery_plan.rs:494-499 | for a data shard that survived, the inverse simply reads the input that carries it |
| `RecoveryRows.ComposedEntryIsProduct` | src/core/recovery_plan.rs:500-508 | the composed coefficient, folded over the missing data only, equals the parity row times the whole inverse |
| `RecoveryRows.ComposedRowRecovers` | src/core/recovery_plan.rs:481-516 | a parity row composed that way recovers its parity shard directly, even when some missing data is never restored |
| `RecoveryRows.RecoversShard` | src/core/recovery_plan.rs:481-516 | such a row applied to the survivors of any data is the lost shard of that data |
| `RecoveryRows.MdsSurvivors` | src/core/reconstruct.rs:1063-1155 | in an MDS code every `k` survivors can be inverted |
| `RecoveryPlans.KeyDetermines` | src/core/reconstruct.rs:1166-1177 | one cache key never stands for two survivor selections |
| `RecoveryPlans.SameKeySameSurvivors` | src/core/reconstruct.rs:1166-1177 | erasure patterns with equal keys have equal survivors |
| `RecoveryPlans.SameSurvivorsSameKey` | src/core/reconstruct.rs:1166-1177 | and equal survivors have equal keys, so patterns that differ only behind the last survivor share one cached inverse |
| `RecoveryPlans.GetDataDecodeMatrix` | src/core/reconstruct.rs:1157-1219 | the result is the inverse for these survivors, the error depends only on them, a held key answers from the cache, a new inverse is held afterwards if its charge fits, and every cached matrix stays the inverse its key stands for |
| `RecoveryPlans.SelectTargets` | src/core/recovery_plan.rs:445-471 | prefix sharing and filtering yield, ascending, exactly the erasures whose flag is set, or all of them without flags |
| `RecoveryPlans.TargetsAreRequests` | src/core/recovery_plan.rs:161-177 | the target lists are exactly the missing data and parity shards that the goal names: all, the data, or the flagged ones |
| `RecoveryPlans.ComposeParityRows` | src/core/recovery_plan.rs:481-516 | one recovering row per parity target, composed without materializing unrequested data |
| `RecoveryPlans.PreparePlan` | src/core/recovery_plan.rs:426-518 | the error precedence, the targets, an inverse exactly when some data is missing and something is requested, and composed rows for selective parity |
| `RecoveryPlans.DataRowsRecover` | src/core/recovery_plan.rs:202-209 | the data rows of a plan recover its data targets |
| `RecoveryPlans.RowView.RowsAgree` | src/core/recovery_plan.rs:126-145 | indexed access denotes the same rows as the data-then-parity iterators |
| `RecoveryPlans.RowView.SplitAgrees` | src/core/recovery_plan.rs:104-117 | splitting a view splits its rows |
| `RecoveryPlans.RowViewsAgree` | src/core/recovery_plan.rs:184-232 | every completed plan has a well-formed view with one row per target, and reading it by index gives the same list as chaining its data and parity rows |
| `ShardContainers.Shard.GetOrInitialize` | src/lib.rs:325-405 | growable containers always accept; fixed ones accept exactly their own length; success tells whether the buffer is newly initialized, and a rejection leaves the container missing |
| `Reconstruction.UseRecoveredData` | src/core/reconstruct.rs:267-287 | the backward merge in one array yields the complete data in order |
| `Reconstruction.RestoreShard` | src/core/reconstruct.rs:289-303 | a destination is initialized and computed at once, or left missing; it is never present with other contents |
| `Reconstruction.RestoreTargets` | src/core/reconstruct.rs:371-415 | targets are completed in order; a rejection stops after a finished prefix |
| `Reconstruction.CollectViews` | src/core/reconstruct.rs:352-370 | one pass sorts survivors and destinations, accepting exactly when every survivor is present with the planned length; the first survivor that is not decides which error it is |
| `Reconstruction.ViewErrorBlames` | src/core/reconstruct.rs:352-370 | the error is that of the first survivor that is missing or has another length |
| `Reconstruction.DataOutputs` | src/core/reconstruct.rs:379-400 | the data rows applied to the survivors are the lost data shards |
| `Reconstruction.ParityOutputs` | src/core/reconstruct.rs:401-415 | the parity stage yields the lost parity shards, from composed rows or from the completed data |
| `Reconstruction.SurvivorsDetermineWord` | src/core/reconstruct.rs:1221-1234 | codewords that agree on invertible survivors are equal, so the recovered codeword is the only one possible |
| `Reconstruction.ExecutePlan` | src/core/reconstruct.rs:318-415 | the outputs belong to one codeword that explains the survivors, and the shards hold a finished prefix of the targets |
| `Reconstruction.RunPlan` | src/core/reconstruct.rs:318-415 | any codeword that agrees with the present shards is the one restored; only a rejecting destination can stop it |
| `Reconstruction.PlanFor` | src/core/recovery_plan.rs:263-299 | validation and planning touch no shard and report the first error in the order of the checks |
| `Reconstruction.Reconstruct` | src/core/reconstruct.rs:1221-1235 | recovery for any goal, cached or not: planning errors change nothing; otherwise the requested missing shards hold a codeword through the chosen survivors, the codeword the present shards agree with if there is one, and everything else is unchanged, unless a destination rejects its buffer, and then every restored shard is complete |
| `RecoveryGuarantees.MdsErasuresRecoverable` | src/core/reconstruct.rs:731-760 | an MDS codeword that lost at most `p` shards meets no error before its restoration, for any goal whose flag list has an accepted length |
| `RecoveryGuarantees.RecoverErasures` | src/core/reconstruct.rs:731-760 | recovery inverts erasure: when the containers can hold them, such a codeword gets back every lost shard, every lost data shard, or every lost shard whose flag is set, according to the goal, and nothing else changes |
| `RecoveryGuarantees.TooManyErasures` | src/core/recovery_plan.rs:434-437 | one lost shard more, and a list of equally long present shards with accepted flags is refused with `TooFewShardsPresent` |
| `RecoveryGuarantees.PlanningErrors` | src/core/recovery_plan.rs:263-299 | the exact error of a refused reconstruction: flags, count, first offending shard, survivors, and the singular inverse only when data is missing and something is asked for |
| `RecoveryGuarantees.FormatError` | src/core/reconstruct.rs:698-722 | a workspace is accepted exactly for the format it was prepared with |
| `RecoveryGuarantees.WorkspaceErrors` | src/core/reconstruct.rs:698-722 | the exact error of a refused workspace: shard count, both counts of the format, its matrix, then the layout |
| `RecoveryGuarantees.PrepareWorkspace` | src/core/reconstruct.rs:581-606 | preparation reports the first error of the same checks and touches no shard; otherwise the plan and format describe exactly these shards |
| `RecoveryGuarantees.ReconstructWithWorkspace` | src/core/reconstruct.rs:631-638 | a reused plan runs exactly on shards whose shape is the prepared one, restores a codeword through its survivors, the one the present shards agree with if there is one, and fails only on a rejecting destination |
| `InversionCaches.Charge` | src/core/inversion_cache.rs:61-73 | overflowing charges are no charge at all; otherwise key bytes plus matrix bytes |
| `InversionCaches.LookupMeaning` | src/core/inversion_cache.rs:57-59 | a held key hits with its value, and no other key hits |
| `InversionCaches.EvictionCount` | src/core/inversion_cache.rs:87-95 | the shortest least-recent prefix whose removal makes room; the empty cache always fits, so an eviction candidate always exists |
| `InversionCaches.InsertedBounded` | src/core/inversion_cache.rs:61-102 | an accepted insertion keeps unique keys and both limits and makes its key hit |
| `InversionCaches.HitsAreCurrent` | src/core/inversion_cache.rs:57-102 | after any sequence of gets and inserts every entry holds the value last accepted under its key |
| `InversionCaches.OrderIsRecency` | src/core/inversion_cache.rs:57-102 | and the entries stand in the order of their last use, so eviction removes the least recent |
| `InversionCaches.InversionCache.Find` | src/core/inversion_cache.rs:57-59 | hits exactly on the held keys; a hit makes its entry the most recent; retained bytes stay the sum of the charges |
| `InversionCaches.InversionCache.Insert` | src/core/inversion_cache.rs:61-102 | accepted exactly when the charge fits; then the key is held as the most recent entry, and the least recent others are evicted, not one more than the limits demand; an oversized entry changes nothing |
| `InversionCaches.InversionCache.RemoveLru` | src/core/inversion_cache.rs:89-92 | removes the front entry; its precondition makes the `expect` unreachable |
| `TwoEntryCaches.TwoEntryCache.Take` | src/core/leopard_cache.rs:22-28 | hands out the resource of a key exactly when it is held and empties only its slot |
| `TwoEntryCaches.TwoEntryCache.Insert` | src/core/leopard_cache.rs:30-43 | the newest distinct entry that fits beside the new one is kept; keys stay unique and within the budget |
| `Towers.Tower.MulAssoc` | src/galois_16.rs:684-746 | reduction modulo the extension polynomial gives an associative product |
| `Towers.Tower.MulAdd` | src/galois_16.rs:684-746 | that distributes over addition |
| `Towers.Tower.NormNonZero` | src/galois_16.rs:669-675 | the norm of an element outside the base field is never zero, because the polynomial has no root |
| `Towers.Tower.InverseIsInverse` | src/galois_16.rs:657-680 | the norm-based inverse times a nonzero element is one |
| `Towers.Tower.DivUndoes` | src/galois_16.rs:756-763 | division undoes multiplication for every nonzero divisor |
| `Towers.Tower.NthInjective` | src/galois_16.rs:63-66 | different numbers below the squared order give different tower elements |
| `Towers.Tower.NthOnto` | src/galois_16.rs:63-66 | and every element has a number |
| `GroupOrder.ProductPermuted` | src/galois_16.rs:636-638 | a product does not depend on the order of its factors |
| `GroupOrder.ScalingPermutes` | src/galois_16.rs:636-638 | multiplying by a nonzero element permutes the nonzero elements |
| `GroupOrder.PowOrder` | src/galois_16.rs:636-638 | every nonzero element to the power `order - 1` is one |
| `GroupOrder.PowReduce` | src/galois_16.rs:636-638 | exponents of nonzero elements may be reduced modulo `order - 1` |
| `TowerFields.PlainFieldValid` | src/galois_16.rs:17-78 | the tower over a valid base with a root-free polynomial satisfies the field interface |
| `TowerFields.FastExpIsPow` | src/galois_16.rs:630-655 | reduced square-and-multiply equals n-fold multiplication for every exponent, zero base included |
| `TowerFields.Exp` | src/galois_16.rs:630-655 | the loop with its moving bit computes n-fold multiplication for every exponent |
| `TowerFields.TowerIsField` | src/galois_16.rs:17-78 | with its own exponentiation the tower is a field, so every codec theorem applies to it |
| `TowerSlices.DeinterleaveScalar` | src/galois_16.rs:351-356 | splits interleaved elements into planes |
| `TowerSlices.InterleaveScalar` | src/galois_16.rs:358-368 | writes or adds planes into interleaved elements and touches nothing else |
| `TowerSlices.InterleaveInverts` | src/galois_16.rs:351-368 | overwriting interleave inverts deinterleave |
| `TowerSlices.PlanesAreProduct` | src/galois_16.rs:104-112 | two linear combinations of the planes are the tower product |
| `TowerSlices.MultiplyChunk` | src/galois_16.rs:193-219 | one chunk through split, four base-field multiplies and interleave multiplies each element |
| `TowerSlices.Gf16MulGeneral` | src/galois_16.rs:174-220 | all chunks together multiply every element, overwriting or accumulating, for every length |
| `TowerSlices.Gf16MulSlice` | src/galois_16.rs:124-154 | so does the entry point, including the subfield shortcut |
| `Formats.SameFormat` | src/core/format.rs:53-64 | equality with its shared-matrix shortcut holds exactly for equal formats |
| `Formats.BigEndianRoundTrip` | src/core/format.rs:142 | a fixed-width big-endian integer reads back |
| `Formats.HeaderRoundTrip` | src/core/format.rs:192-206 | a reader of the header recovers every field and what follows, for every representable header |
| `Formats.DescriptorLength` | src/core/format.rs:180-187 | the descriptor has exactly 59 + id length + rows x cols x width bytes |
| `Formats.DescriptorLayout` | src/core/format.rs:132-168 | the documented Version 1 layout byte by byte: magic, version, family code, identifier, integers at their offsets, coefficient `(r, c)` at its row-major place |
| `Formats.MatrixBytesInjective` | src/core/format.rs:209-217 | equal coefficient bytes of an injective fixed-width encoding mean equal coefficients |
| `Formats.DescriptorsIdentify` | src/core/format.rs:132-168 | two formats of one field have equal descriptors exactly when they are equal |
| `Formats.DescriptorsSeparateFields` | src/core/format.rs:156-159 | equal descriptors also mean equal field name, width and order |
| `Formats.WriteRow` | src/core/format.rs:209-217 | writes element after element inside the buffer and stops at the first element without a full-width encoding |
| `Formats.StableIdBytes` | src/core/format.rs:168-219 | a descriptor exists exactly under the listed conditions, has the documented layout, and is the canonical one |
| `SplitJoin.AlignedLenIsLeast` | src/core/leopard.rs:64-98 | always a nonzero multiple of 64; it holds the share, and is the least such multiple, exactly when the share does not exceed the largest multiple that fits |
| `SplitJoin.AlignedShardsHoldPayload` | src/core/leopard.rs:64-98 | the shards together hold every byte of the payload exactly when there are at least two of them or the payload is no longer than the largest aligned length |
| `SplitJoin.SaturationCutsSingleShard` | src/core/leopard.rs:73-74 | the documented saturation at a concrete length: a single shard for the longest payload is too short |
| `SplitJoin.Split` | src/core/codec.rs:491-511 | equal shards that together are the payload followed by zeros, of the least sufficient length for Classic and of the least sufficient number of 64-byte blocks for Leopard |
| `SplitJoin.Join` | src/core/codec.rs:516-543 | the first elements of the shards end to end, or the first failing check |
| `SplitJoin.JoinErrors` | src/core/codec.rs:516-530 | the exact error of a refused join, from the counts and lengths |
| `SplitJoin.SplitThenJoin` | src/core/codec.rs:491-543 | joining what was split returns the payload; only the empty Classic payload is refused |

## Left out

- SIMD kernels, generated encode code and backend dispatch (`build.rs`, the AVX, SSSE3, NEON and GFNI bodies): intrinsics; only the scalar paths they must match are modelled.
- GF(2^8) log, exp and multiplication tables (`build.rs`, `src/galois_8`): a finite domain behind the field interface; that GF(2^8) is a field and X^2 + 2X + 128 has no root in it are hypotheses of the tower theorems, not results.
- Leopard GF8 and GF16 engines, the stream layer, rollback in the Leopard option path: other codecs; only their selection and construction checks and `leopard_aligned_shard_len` are modelled.
- `execute_classic_option_plan_bulk` and its parallel variant (`src/core/reconstruct.rs:229-253`, `src/core/reconstruct.rs:418-530`): initialize all outputs first and then code them in one pass; the modelled executor completes one output at a time.
- `encode_sep_par`, `encode_single_sep_par`, `verify_par` and the other `_par` and `_opt` entry points: argument checks and a policy decision around loops that are modelled.
- `update_small_delta` (`src/core/encode.rs:1135-1175`): the same arithmetic as the general path with scratch on the stack.
- Metrics, environment overrides, cache-size detection, available-parallelism probing: operating-system input, taken as parameters or dropped.
- Mutex and Rayon internals, Arc sharing, SmallVec spilling: locks are atomic steps, values are values. The inline cap of the survivor buffer is kept, because it changes the algorithm.
- Options builder, cache-capacity derivation, accessors, error text, `Debug` and `Clone` code: settled by reading one branch.
- ParallelTasks.AnyTaskInterleaving: the steps are whole slice operations on disjoint chunks, not single element writes; fairness of the thread pool is not modelled.
- RecoveryPlans.PreparePlan: returns the plan as a value; the source fills it through a mutable reference in its caller's frame, which has no other observer.
- RecoveryShapes.FillShapeFromSuffix: returns the shape as a value instead of pushing into the caller's index buffers; what a failed fill leaves in those buffers is not modelled, since no caller reads it.
- RecoveryGuarantees.ReconstructWithWorkspace: takes the codec the plan was prepared with as a ghost argument with the same field, because the Rust type fixes the field.
- ShardContainers.Shard: one class stands for the three container types; its buffer is a sequence field, so the borrowing of views is not modelled.
- SplitJoin.Split: assumes a payload no longer than `isize::MAX` elements, as every Rust slice is; offsets are then unbounded integers that stay below the machine limit.
- Codecs.WithOptions: a Leopard codec is returned as its family and counts only; the normalization of cache limits is not part of this model.
- InversionCaches.InversionCache.Insert: the charge of a key uses its capacity as given; how `Vec` rounds capacities is not modelled.
