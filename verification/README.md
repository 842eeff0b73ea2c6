# Verified model of the simulator's numerical core

This project models five pieces of the circuit simulator and proves what they are for. Numbers
are real numbers throughout. Objects that the source updates in place are classes here, loops
are loops, and each is proved against a function on plain values; the theorems are about those
functions, over all inputs, runs and reachable states.

| files | what they model |
|---|---|
| `CircularBuffer.dfy`, `VectorRepository.dfy` | the sample ring, grown in place, and the ring of solution vectors |
| `Interpolation.dfy`, `DelayHistory.dfy`, `DelayLines.dfy` | delay lines: what a delayed input means, whole runs of the bounded history, and the class itself |
| `LinearAlgebra.dfy`, `Elimination.dfy`, `LuTheorems.dfy`, `PivotGrowth.dfy` | Gaussian elimination with partial pivoting as a function, and its theory |
| `DenseMatrixView.dfy`, `DenseSolver.dfy`, `DenseMatrix.dfy` | the in-place factorisation and solver on strided views, and the matrix that owns its buffer |
| `SparsityMap.dfy`, `CscBlockLayout.dfy`, `CscBlockMatrix.dfy` | the sparsity map and the block-sparse matrix in compressed columns |
| `ErrorStack.dfy` | the type-erased error stack |
| `Basics.dfy` | notions shared by all of them |

## Main results

- A delay line never notices that its history is bounded: in every state a run can reach, every
  delay read from the rings is the delay read from the complete history, value and derivative
  (`BoundedRefinesUnbounded`; for the class and a whole analysis, `Transient`). The rings stay
  within twice the busiest window (`CapacityBound`). Neither needs the longest delay to be
  non-negative, nor the timepoint ring to be empty at the start.
- The in-place elimination factors the interchanged matrix exactly (`Factor`), solves exactly the
  regular systems (`FactorAndLuSolve`, `SolveIsExact`), inverts on both sides
  (`FactorAndInvert`), reports success exactly when the columns before the last one are
  independent (`SuccessIffIndependent`), agrees with factoring first and solving later
  (`FusedEqualsSeparate`), and keeps multipliers and growth bounded (`GrowthIsBounded`).
- Block addressing is an order-preserving bijection onto the value array (`IndexOrder`,
  `IndexOnto`), built correctly by the table loops (`Rebuild`), and `ElementAt` inverts it.
- Every error pushed is destroyed exactly once, and buffers are enlarged at fewer than two moves
  per push (`DestroyedExactlyOnce`, `RelocationsBounded`).

## Where the code does not do what it is for

- `CircularBuffer::remove` sets the write position to the size when it was 0
  (include/ansupport.h:91-92), one past the last slot. The ring survives if and only if
  `position()` was not 0 before the call (`Remove`); `RemovalBreaksRing` is a run that breaks it.
  The next `add` or `clear` repairs it (`Add`, `Clear`), so what can go wrong are reads, moves,
  growth and further removals in between; a further removal drops the oldest value in place of
  the newest (`Remove`).
- The elimination loop stops before the last column and never examines the last pivot
  (include/densematrix.h:933), so success does not mean that the matrix is regular.
  `SuccessOnSingular` gives an input. In terms of the input alone: success is reported exactly
  when the columns before the last one are independent (`SuccessIffIndependent`), and it
  misleads exactly when these are independent and the matrix is singular. In terms of the
  outcome, the matrix is regular exactly when, besides, the last diagonal entry is nonzero
  (`RegularIffSolvable`).

## Where the code and its comments disagree

The model follows the code.

- include/cscblkmatrix.h:89-90 calls block positions 0-based and positions inside a block
  1-based; the code takes block positions as 1-based and positions inside a block as 0-based
  (include/cscblkmatrix.h:99-114).
- include/coredelay.h:98-100 says that the timepoint ring is only read while a sample is
  recorded; the code grows it and adds the time (include/coredelay.h:134-138).
- include/ansupport.h:99 says that reading fails for depths greater than the capacity; the code
  also fails for depths equal to it (include/ansupport.h:104).

## Model

| member | source | states |
|---|---|---|
| CircularBuffers.CircularBuffer.constructor | include/ansupport.h:35-37 | A new ring is empty, has the requested size and writes from position 0. |
| CircularBuffers.CircularBuffer.Upsize | include/ansupport.h:50-63 | Growing keeps every value at every past depth, used or not, although the overlapping tail move leaves its sources unspecified; a request that does not grow changes nothing. |
| CircularBuffers.CircularBuffer.MoveTail | include/ansupport.h:56-61 | After the move loop the front of the buffer is in place and the tail sits at the new end, whatever a move leaves behind. |
| CircularBuffers.CircularBuffer.Add | include/ansupport.h:74-84 | On a ring with capacity the new value becomes depth 0, every other depth moves back by one, and exactly the oldest one drops out when the ring is full. After a removal at position 0 the new value takes the place of the removed one and the ring is whole again. |
| CircularBuffers.CircularBuffer.Clear | include/ansupport.h:65-69 | The past is empty and the ring is whole, capacity and buffer stay. |
| CircularBuffers.CircularBuffer.Remove | include/ansupport.h:86-97 | Fails exactly on an empty ring. Otherwise the ring is still a ring if and only if the write position was not 0, and either way exactly the newest value is withdrawn; a further removal before the next add drops the oldest value instead. |
| CircularBuffers.RemovalBreaksRing | include/ansupport.h:86-97 | Concrete run: a ring of one slot, filled and emptied, is no longer a ring. |
| CircularBuffers.CircularBuffer.At | include/ansupport.h:99-143 | Reads the value at any depth, past or future, and fails exactly when the depth is outside the buffer. |
| CircularBuffers.CircularBuffer.Put | include/ansupport.h:124-143 | Writing through the reference changes exactly that depth. |
| CircularBuffers.CircularBuffer.Advance | include/ansupport.h:145-165 | The write position moves forward by the given distance modulo the size and all depths shift with it; out of range it fails and changes nothing. |
| CircularBuffers.CircularBuffer.Rotate | include/ansupport.h:167-193 | Depth 0 and the given depth change places and no other depth does, although the temporary moves leave sources unspecified. |
| CircularBuffers.PositionIsModular | include/ansupport.h:103-122 | The three-way position rule is (at - which) modulo the size for every depth in range. |
| CircularBuffers.RunIsNewestPart | include/ansupport.h:50-84 | Under any interleaving of adding, growing and clearing the ring is a newest-first prefix of everything added since the last clear, at least as long as the first capacity has room for, and all of it while it fits in there; the capacity never falls. |
| CircularBuffers.RunCapacity | include/ansupport.h:50-63 | Over any run the capacity is the largest one ever asked for. |
| CircularBuffers.RunUsesRoom | include/ansupport.h:50-84 | Room made at any time of a run is used from then on. |
| CircularBuffers.ShiftMovesBack | include/ansupport.h:145-165 | A value at depth d lies at depth d + w, around the end of the ring, after moving forward by w. |
| CircularBuffers.ExchangeIsSwap | include/ansupport.h:167-193 | A rotation exchanges depth 0 with the given depth and nothing else. |
| CircularBuffers.ShiftBack | include/ansupport.h:145-165 | Shifting by w and then by -w restores every depth. |
| CircularBuffers.ExchangeTwice | include/ansupport.h:167-193 | Rotating twice with the same depth restores every depth. |
| VectorRepositories.VectorRepository.constructor | include/ansupport.h:275-280 | Every vector of a new repository is the zero vector of the common length. |
| VectorRepositories.VectorRepository.ResizeAll | include/ansupport.h:295-299 | Every vector gets the new length, keeping its common prefix and filling with zeros. |
| VectorRepositories.VectorRepository.Upsize | include/ansupport.h:282-293 | Every old depth keeps its vector and every vector, including those in slots emptied by moves, has the common length. |
| VectorRepositories.VectorRepository.UpsizeTo | include/ansupport.h:295-302 | Every old depth holds its resized vector and every vector has the new length. |
| VectorRepositories.VectorRepository.Zero | include/ansupport.h:304-308 | Exactly the named depth becomes the zero vector; with vectors of no elements nothing can fail and nothing changes. |
| VectorRepositories.VectorRepository.Advance | include/ansupport.h:145-165 | A repository that moves is the cyclic shift of what it was and all vectors keep the common length. |
| VectorRepositories.VectorRepository.Rotate | include/ansupport.h:167-193 | A repository that rotates has two depths exchanged and all vectors keep the common length. |
| VectorRepositories.MotionsAreUndone | include/ansupport.h:145-193 | Any sequence of advances and rotations, failing ones included, is taken back by the opposite motions in reverse order. |
| VectorRepositories.MotionsRearrange | include/ansupport.h:145-193 | No sequence of advances and rotations loses or duplicates a vector. |
| VectorRepositories.MovedMeans | include/ansupport.h:145-193 | A motion in range shifts or exchanges as asked, one out of range changes nothing. |
| Interpolation.CurveOnSegment | include/coredelay.h:223-230 | Between neighbouring samples the reference curve is the line through them, ends included. |
| Interpolation.CurveBeforeOldest | include/coredelay.h:219-222 | Before the oldest sample the reference curve is clamped to it. |
| Interpolation.CurveThroughSample | include/coredelay.h:204-230 | The reference curve goes through every sample at its own time. |
| Interpolation.CurveOfNewestPart | include/coredelay.h:106-115 | After the oldest sample kept, the curve through the newest samples is the curve through all samples. |
| Interpolation.CurveWithinRange | include/coredelay.h:154-230 | The curve never leaves the range of its samples. |
| Interpolation.SignalSlope | include/coredelay.h:196-199 | The reference signal is affine in the live value, with the stated weight as slope. |
| Interpolation.DelayedSlope | include/coredelay.h:143-147 | The returned derivative is the exact slope of the returned value in the live input, for every history, time and delay. |
| Interpolation.DelayedWithinRange | include/coredelay.h:154-230 | The result lies between the smallest and largest of live and stored values and the derivative between 0 and 1. |
| Interpolation.DelayedReproducesSample | include/coredelay.h:176-230 | A delay reaching back exactly to a sample returns that sample with derivative 0, when passthrough does not apply. |
| Interpolation.DelayedAffine | include/coredelay.h:152-231 | Samples of an affine signal give the signal back one clipped delay ago, outside passthrough and the clamp. |
| Interpolation.DelayedOnSegment | include/coredelay.h:223-230 | For a delay within (0, longest] of at least 2^-49 of the present time, the result between two samples is the linear interpolation formula at now - delay, with derivative 0. |
| Interpolation.DelayedOnLiveSegment | include/coredelay.h:187-200 | Between the newest sample and the present it is the formula to the live value, and the derivative is one minus the fraction. |
| Interpolation.DelayedBeforeOldest | include/coredelay.h:219-222 | Further back than the oldest sample it is the oldest sample, with derivative 0. |
| Interpolation.DelayedToSample | include/coredelay.h:152-231 | A delay that reaches a sample returns that sample. |
| Interpolation.DelayedAffineByDelay | include/coredelay.h:152-231 | An affine signal comes back exactly one delay late. |
| Interpolation.DelaysAreClipped | include/coredelay.h:153-159 | A delay above the longest counts as the longest, a negative one as none. |
| Interpolation.DelayedIsLive | include/coredelay.h:168-195 | The live value with derivative 1 is returned for delays below 2^-49 of the present time, for no delay, without history, and for a negative longest delay. |
| DelayHistories.StepKeepsConsistent | include/coredelay.h:101-139 | One sample leaves the timepoint ring at least as large and as full as every slot's ring. |
| DelayHistories.NewestRecorded | include/coredelay.h:131-138 | Every slot's newest value is its own input and the newest time the given one. |
| DelayHistories.LongestAttained | include/coredelay.h:124-128 | The longest ring recorded is what it was or the size of a ring that just grew, never more. |
| DelayHistories.RunRemembers | include/coredelay.h:101-139 | In every state a run can reach, from any empty rings, every slot's ring is a newest-first prefix of all samples ever taken, entry k pairs with entry k of the timepoint ring, and either nothing was evicted or the kept samples reach further back than the longest delay. |
| DelayHistories.StepRemembers | include/coredelay.h:106-138 | One more timepoint keeps that invariant for every slot, whether rings grow or evict. |
| DelayHistories.BoundedRefinesUnbounded | include/coredelay.h:101-231 | After any run of increasing times, for every slot, delay and time from the last sample on, the bounded rings give the value and the derivative that the complete never-evicted history gives, and the clamp to the oldest kept sample only happens when nothing was evicted. |
| DelayHistories.RememberedSuffices | include/coredelay.h:143-231 | The remembered part of any history is enough to answer every delay. |
| DelayHistories.RememberedAffine | include/coredelay.h:152-231 | A line whose input has been affine all along returns the input one clipped delay ago, whatever was evicted. |
| DelayHistories.CapacityBound | include/coredelay.h:28-31 | Over any run a ring keeps its first size, jumps to 32 and then only doubles, and never exceeds the larger of 32, its first size and twice the most samples that ever lay within the longest delay. |
| DelayHistories.WindowIsExact | include/coredelay.h:106-119 | The window counted for the bound is exactly the newest samples within the longest delay. |
| DelayHistories.BusiestIsLargest | include/coredelay.h:106-119 | The busiest window is at least as large as the window at any sample. |
| DelayHistories.BusiestIsAttained | include/coredelay.h:106-119 | The busiest window is the window at some sample. |
| DelayHistories.DoubledFromEmpty | include/coredelay.h:120-125 | From an empty ring the capacities reached are exactly 0 and 32 times the powers of two. |
| DelayHistories.BusiestUnderMinimumStep | include/coredelay.h:106-119 | With steps of at least hmin at most floor(d / hmin) + 1 samples lie within d of a sample time. |
| DelayHistories.CapacityUnderMinimumStep | include/coredelay.h:101-139 | Hence the capacity is at most the larger of 32, its first size and 2 * (floor(maxDelay / hmin) + 1). |
| DelayLineHistory.DelayLines.Scale | include/coredelay.h:33-38 | Changes the number of lines, keeps the settings of those that stay and zeroes those of new ones. |
| DelayLineHistory.DelayLines.PrepareHistory | include/coredelay.h:40-45 | Every ring is empty, rings that stay keep their size, new ones have none: a state from which the run theorems start, even if the timepoint ring still holds earlier times. |
| DelayLineHistory.DelayLines.SetDelay | include/coredelay.h:82-91 | The delay is always stored; false exactly when delays are locked and the value differs, and the flag remembers it. |
| DelayLineHistory.DelayLines.MakeRoom | include/coredelay.h:105-130 | A ring that is not full, or whose second-oldest time is further back than the longest delay, keeps its size; any other grows to 32 or doubles, and the longest size follows. |
| DelayLineHistory.DelayLines.RecordInput | include/coredelay.h:104-132 | One slot evicts or doubles exactly as the second-oldest time demands, then records; the longest size follows. |
| DelayLineHistory.DelayLines.AddSample | include/coredelay.h:97-139 | Recording a timepoint changes all rings to exactly the next state of the run model; every line's newest value is the unknown bound to that line and the newest time the given one. |
| DelayLineHistory.DelayLines.StoreTime | include/coredelay.h:134-138 | The timepoint ring grows to the longest slot ring before it takes the time. |
| DelayLineHistory.DelayLines.GetSample | include/coredelay.h:143-231 | Value and derivative are those of the clipped, passed-through or interpolated reference signal on what the rings hold, within ceil(log2 n) search rounds. |
| DelayLineHistory.DelayLines.Interpolate | include/coredelay.h:202-231 | A target before the newest sample reads the reference curve; the branch for equal neighbouring times cannot matter and the denominator is positive. |
| DelayLineHistory.DelayLines.Straddle | include/coredelay.h:210-218 | The binary search ends with a depth whose time is at or after the target while the next one is before it, in at most ceil(log2 n) rounds. |
| DelayLineHistory.Start | lib/coretran.cpp:407 | Emptied rings and an emptied timepoint ring are a state from which the run theorems start. |
| DelayLineHistory.RecordAll | lib/coretran.cpp:1792-1795 | Recording every accepted timepoint is a run of the history model. |
| DelayLineHistory.Transient | lib/coretran.cpp:1792-1795 | A whole analysis, from emptying the rings over any number of accepted timepoints to reading a line: value and derivative are those of the complete history, whose i-th newest time and value are those of the i-th last timepoint and of the unknown bound to the line. |
| DelayLineHistory.CeilLog2IsLogarithm | include/coredelay.h:210-218 | The bound on the rounds is the exponent of the smallest power of two not below the number of samples. |
| DelayLineHistory.StraddleIsLargest | include/coredelay.h:204-209 | On decreasing times that depth is the largest one at or after the target. |
| Elimination.PivotRow | include/densematrix.h:934-944 | The chosen row is the first of those at or below the diagonal whose entry in the column is largest in absolute value. |
| Elimination.PivotFromIsLargest | include/densematrix.h:938-944 | The scan keeps the first of equally large entries. |
| Elimination.Multiplier | include/densematrix.h:972 | The multiplier times the pivot is the entry to cancel. |
| Elimination.StepExplained | include/densematrix.h:949-986 | One step, interchange of whole rows with their stored multipliers included, keeps the equation between interchanged input, multipliers and remaining matrix, for the matrix and for the right-hand sides. |
| Elimination.EliminateExplained | include/densematrix.h:932-986 | The same equation holds after every number of steps that is reached. |
| LuTheorems.FactorIsLowerUpper | include/densematrix.h:552-568 | On success the recorded interchanges, replayed in order on the original matrix, give exactly unit-lower times upper as stored. |
| LuTheorems.StoredTriangles | include/densematrix.h:570-574 | The lower factor is read strictly below the diagonal with ones on it, the upper one on and above it. |
| LuTheorems.PivotsAreBelow | include/densematrix.h:949-952 | Interchanges are recorded counting from 1, each with a row at or below its own, and only for the steps taken. |
| LuTheorems.FailureStops | include/densematrix.h:945-947 | A failing elimination stops at the first column without a pivot and leaves everything as the steps before it had it. |
| LuTheorems.BackSubstSolves | include/densematrix.h:988-1008 | Back substitution satisfies the equation of every row it went through. |
| LuTheorems.BackSubstUnique | include/densematrix.h:988-1008 | Without zeros on the diagonal it finds the only solution. |
| LuTheorems.ForwardSubstUnique | include/densematrix.h:600-606 | Forward substitution takes a unit-lower combination apart again. |
| LuTheorems.UpperEquations | include/densematrix.h:608-616 | An upper triangular system holds for exactly the result of back substitution. |
| LuTheorems.SolveIsExact | include/densematrix.h:621-666 | With success and a nonzero last pivot, x solves the original system, for any number of right-hand sides, if and only if x is what elimination and back substitution leave. |
| LuTheorems.FusedEqualsSeparate | include/densematrix.h:575-643 | Factoring and then solving from the stored factors gives the same result, success flag, factors and interchanges as the one-pass solver. |
| LuTheorems.EliminateIgnoresRhs | include/densematrix.h:932-986 | Right-hand sides have no influence on success, factors or interchanges. |
| LuTheorems.NullVector | include/densematrix.h:934-947 | A column without pivot yields a nonzero vector that the original matrix sends to zero, solved from the leading block. |
| LuTheorems.FailureIsDependent | include/densematrix.h:945-947 | When elimination reports failure already the columns before the last one are dependent, so the matrix is singular. |
| LuTheorems.SuccessIffIndependent | include/densematrix.h:932-947 | Success is reported if and only if the columns before the last one are independent, whatever the last column is. |
| LuTheorems.RegularIffSolvable | include/densematrix.h:932-947 | A matrix is regular if and only if elimination succeeds and the last diagonal entry is nonzero; success alone says no more than that the columns before the last one are independent. |
| LuTheorems.SuccessOnSingular | include/densematrix.h:932-947 | Concrete input for what goes unexamined: the 1 x 1 zero matrix is singular and success is reported. |
| LuTheorems.InverseIsTwoSided | include/densematrix.h:668-678 | Solving against the identity gives an inverse on both sides. |
| LuTheorems.FactorsSolve | include/densematrix.h:570-619 | Replay, forward and back substitution solve the system of whatever matrix the stored factors belong to. |
| LuTheorems.DiagonalIsFull | include/densematrix.h:945-947 | After a success only the last diagonal entry can be zero. |
| PivotGrowth.GrowthIsBounded | include/densematrix.h:934-985 | Every stored multiplier is at most 1 in absolute value and row r of the upper factor at most 2^r times any bound on the original entries. |
| PivotGrowth.MultiplierAtMostOne | include/densematrix.h:934-972 | An entry no larger than the pivot has a multiplier of at most 1. |
| LinearAlgebra.ReplayMul | include/densematrix.h:591-598 | Replaying interchanges on a product is replaying them on its left factor. |
| LinearAlgebra.ReplayInjective | include/densematrix.h:591-598 | Replaying the same interchanges loses nothing. |
| DenseMatrixViews.MatrixView.AddressSteps | include/densematrix.h:468-470 | One row down is the row stride further in the buffer, one column across the column stride. |
| DenseMatrixViews.MatrixView.Set | include/densematrix.h:468-470 | Writing one element changes exactly that element of the shown matrix and no cell outside the view. |
| DenseMatrixViews.MatrixView.ExchangeRows | include/densematrix.h:954-958 | Two rows change places element by element, no other row and no cell outside the view changes. |
| DenseMatrixViews.MatrixView.ReduceRow | include/densematrix.h:969-976 | The row loop subtracts the multiple of the pivot row right of the diagonal, stores the multiplier in the cancelled place and keeps everything else. |
| DenseMatrixViews.MatrixView.AddScaledRow | include/densematrix.h:981-982 | A whole row gets a multiple of another one added. |
| DenseMatrixViews.MatrixView.AddElement | include/densematrix.h:973-975 | One element gets a multiple of another one of its column added, nothing else changes. |
| DenseMatrixViews.MatrixView.ScaleRow | include/densematrix.h:1005 | A whole row is scaled. |
| DenseMatrixViews.Pivots.Record | include/densematrix.h:949-952 | Recording an interchange changes one entry of the strided vector and no other cell, or nothing without a vector. |
| DenseSolver.Rhs.Exchange | include/densematrix.h:959-965 | Two rows of the right-hand sides change places, vector or matrix; the matrix and other cells stay, even in a shared buffer. |
| DenseSolver.Rhs.AddScaled | include/densematrix.h:977-984 | A row of the right-hand sides gets a multiple of another one added, nothing else changes. |
| DenseSolver.Rhs.Divide | include/densematrix.h:997-1005 | A row of the right-hand sides is divided, a matrix row by way of the reciprocal, nothing else changes. |
| DenseSolver.FindPivot | include/densematrix.h:935-944 | The scan finds the first row with the largest entry, and that entry's size. |
| DenseSolver.EliminateColumn | include/densematrix.h:968-985 | The loop over the rows below computes the reduced matrix and right-hand sides, cells outside the views stay, even in a shared buffer. |
| DenseSolver.EliminateStep | include/densematrix.h:933-986 | One pass of the loop is one step of the elimination model, with the interchange recorded; without a pivot nothing changes. |
| DenseSolver.EliminateAll | include/densematrix.h:932-986 | The loop over all but the last column runs the model, up to the first column without a pivot. |
| DenseSolver.BackSubstitute | include/densematrix.h:988-1008 | The loops compute back substitution in place, for a vector and for a matrix. |
| DenseSolver.LuSolveCore | include/densematrix.h:914-1010 | Factors, solution, interchanges and success flag are those of the model, for any strides. |
| DenseSolver.Pivot | include/densematrix.h:954-985 | Interchanging and eliminating computes the reduced matrix and right-hand sides of the interchanged ones. |
| DenseSolver.Factor | include/densematrix.h:552-568 | Success is reported exactly when the columns before the last one are independent; then the interchanges count from 1, the interchanged original is unit-lower times upper, multipliers and growth are bounded, and the stored diagonal is full exactly for regular matrices. |
| DenseSolver.FactorAndLuSolve | include/densematrix.h:621-666 | For every regular matrix the right-hand side is replaced by the solution of the original system, vector or matrix; success is reported exactly when the columns before the last one are independent; with an interchange vector factors, interchanges and solution are those of factoring first and solving afterwards. |
| DenseSolver.FactorAndInvert | include/densematrix.h:668-678 | For every regular matrix the result is its two-sided inverse; success is reported exactly when the columns before the last one are independent. |
| DenseSolver.SetIdentity | include/densematrix.h:540-550 | The loops write the identity into a view of any shape and no other cell. |
| DenseSolver.PermuteVector | include/densematrix.h:591-598 | The loop replays the recorded interchanges in order. |
| DenseSolver.ForwardSubstitute | include/densematrix.h:600-606 | The loops compute unit-lower forward substitution in place. |
| DenseSolver.LuSolve | include/densematrix.h:570-619 | With stored factors of any matrix and a full diagonal the vector is replaced by the solution of that matrix's system. |
| DenseMatrices.LayoutIsValid | include/densematrix.h:1168-1193 | In both storage orders the strided view addresses the same index as the index formula, inside the buffer and without overlap. |
| DenseMatrices.IndexInjective | include/densematrix.h:1168-1177 | Different elements have different indices, in both orders. |
| DenseMatrices.IndexOnto | include/densematrix.h:1168-1177 | Every cell of the buffer is some element's, in both orders. |
| DenseMatrices.IndexFollowsOrder | include/densematrix.h:1168-1177 | Row order is lexicographic in (row, column), column order in (column, row). |
| DenseMatrices.IndexSteps | include/densematrix.h:1168-1177 | The first element is at 0; along the stored direction neighbours are adjacent, across it they are a full line apart. |
| DenseMatrices.DenseMatrix.constructor | include/densematrix.h:1049-1055 | A new matrix has the requested shape, only zeros, and a buffer that fits its strides. |
| DenseMatrices.DenseMatrix.AddRow | include/densematrix.h:1133-1159 | Adding a row keeps all earlier elements in both storage orders, the column reshape included, and returns the new last row; in row order the old buffer is a prefix of the new one. |
| SparsityMaps.SparsityMap.Insert | include/cscmatrix.h:97-107 | A new position is entered with its flags, an existing one gets the flags added; the result tells which. |
| SparsityMaps.SparsityMap.Find | include/cscmatrix.h:109-116 | A position is found exactly when it is in the map, with the entry the map has for it. |
| SparsityMaps.SparsityMap.Enumerate | lib/cscmatrix.cpp:19-46 | The list is in column-major order and complete, every entry's index is its place in it, and no entry's flags change. |
| SparsityMaps.OrderedListingUnique | lib/cscmatrix.cpp:26-36 | There is only one ordered listing of a set of positions, so the order in which the hash table yields its keys leaves no trace. |
| SparsityMaps.BuiltFromInserts | include/cscmatrix.h:97-107 | Over any list of insertions a position exists exactly when it was inserted, with the union of all flags given. |
| SparsityMaps.FlagsAreUnion | include/cscmatrix.h:101-105 | A flag of a position is set exactly when some insertion of that position gave it. |
| CscBlockLayouts.Layout.AddressOrder | include/cscblkmatrix.h:162-198 | Addresses of elements are equal only for equal elements and follow (expanded column, expanded row) exactly. |
| CscBlockLayouts.Layout.AddressInRange | include/cscblkmatrix.h:93-118 | Every element's address lies below blocks * rows * columns. |
| CscBlockLayouts.Layout.AddressOnto | include/cscblkmatrix.h:162-198 | Every index below that is the address of an element. |
| CscBlockLayouts.Layout.NextOrigin | include/cscblkmatrix.h:162-174 | The origin of the next block column lies exactly the block's columns times the stride further. |
| CscBlockLayouts.Layout.ExpandedDigits | lib/cscblkmatrix.cpp:166-178 | The scalar row of an element divided by the block height gives the block row and leaves the row in the block; likewise the column; both lie inside the matrix. |
| CscBlockMatrices.FillColumnBegin | lib/cscblkmatrix.cpp:99-126 | For every ordered list of positions in an n x n grid the table gives the first block of every column, leading, inner and trailing empty columns included. |
| CscBlockMatrices.WriteRows | lib/cscblkmatrix.cpp:166-181 | The row indices of one column of one block, from block row times block height upwards, are written at their elements' addresses and nowhere else. |
| CscBlockMatrices.FillTables | lib/cscblkmatrix.cpp:128-192 | Origins and strides are those of the layout; unless only storage is wanted, the column table holds the begin of every column of elements and the row table the row of every element, always inside the matrix. |
| CscBlockMatrices.CscBlockMatrix.Rebuild | lib/cscblkmatrix.cpp:67-215 | From an enumerated sparsity map all tables describe the blocks, the value array has one zero per element, and the scalar tables exist exactly if asked for. |
| CscBlockMatrices.CscBlockMatrix.ElementIndex | include/cscblkmatrix.h:88-118 | An index is found exactly for the positions in the map, and it is the layout address of the named place in the block, or of its origin. |
| CscBlockMatrices.CscBlockMatrix.IndexIsAddress | include/cscblkmatrix.h:93-118 | The table lookup gives the address of the element in the layout. |
| CscBlockMatrices.CscBlockMatrix.IndexOrder | include/cscblkmatrix.h:93-118 | The lookup is injective on block elements, stays inside the value array and follows (scalar column, scalar row). |
| CscBlockMatrices.CscBlockMatrix.IndexOnto | include/cscblkmatrix.h:93-118 | Every entry of the value array is found under some position. |
| CscBlockMatrices.CscBlockMatrix.Block | include/cscblkmatrix.h:48-79 | For a block of the map a view of the value array from the block's origin with the column's stride; otherwise a view of the bucket, a full block or a single cell. |
| CscBlockMatrices.CscBlockMatrix.BlockIsElements | include/cscblkmatrix.h:61-79 | The view of a block addresses at (r, c) the cell of the element index of (r, c), without overlap. |
| CscBlockMatrices.CscBlockMatrix.BlocksApart | include/cscblkmatrix.h:48-79 | Views of different blocks share no cell. |
| CscBlockMatrices.CscBlockMatrix.ElementAt | include/cscmatrix.h:274-285 | The scan returns the scalar row and column of exactly the element whose index was given, counted from 0 inside the matrix and split into block and place by the block size, and (-1, -1) exactly for indices out of range or without scalar tables. |
| CscBlockMatrices.ColumnHit | include/cscmatrix.h:278-280 | An index lies between the bounds of a column exactly if its element is in that column, empty columns included. |
| ErrorStacks.ErrorRegistry.Register | include/errorstack.h:62-87 | Every type gets one code, its place in the registry, however often it is registered, and the largest size and alignment are those of registered types that no other exceeds. |
| ErrorStacks.SlotSizeIsRoundedUp | include/errorstack.h:131-141 | The slot size is the smallest multiple of the largest alignment that holds the largest type. |
| ErrorStacks.SlotsFit | include/errorstack.h:131-141 | For power-of-two alignments every slot of an aligned buffer suits every type that passes the check on size and alignment, and the object stays inside its slot. |
| ErrorStacks.RegisteredTypesFit | include/errorstack.h:157-163 | A type registered before the stack was built is never turned away. |
| ErrorStacks.DestroyedExactlyOnce | include/errorstack.h:136-248 | Over any run of pushes, clears and resets the errors destroyed, followed by those on the stack, are exactly the errors pushed, in order, and the stack holds those pushed since it was last emptied. |
| ErrorStacks.RelocationsBounded | include/errorstack.h:219-241 | Over any run fewer than two relocations per push happen. |
| ErrorStacks.ErrorStack.constructor | include/errorstack.h:138-141 | A new stack is empty, without a buffer, with slots for every type registered so far. |
| ErrorStacks.ErrorStack.Push | include/errorstack.h:151-168 | Unknown types and types that do not fit are refused without a change; otherwise the error is put on top, tagged with its code. |
| ErrorStacks.ErrorStack.AcquireSlot | include/errorstack.h:219-227 | The slot after the last error is free, after growing from nothing to 8 or to twice the capacity if needed. |
| ErrorStacks.ErrorStack.Grow | include/errorstack.h:229-241 | Every error moves to the same slot of the larger buffer, the old buffer is returned without living objects, and every move is counted. |
| ErrorStacks.ErrorStack.Clear | include/errorstack.h:170-176 | Every stored error is destroyed once, in order, by the destructor of its own code; the buffer stays. |
| ErrorStacks.ErrorStack.Reset | include/errorstack.h:178-186 | As clearing, and the buffer is returned holding no living object. |

## Left out

- Floating point: rounding, overflow, infinities and NaN. All numbers are reals, and the time
  tolerance is the constant of include/common.h:91.
- Integer widths: indices, depths and counters are unbounded; the source's are 32 or 64 bits.
- Calls into BLAS and LAPACK (include/densematrix.h:562-566, 584-589, 633-641, 656-664, 846-912
  and the copy and scaling shortcuts): the loops that run otherwise are modelled for all strides.
- Complex element types, and the products built on `dot`.
- Debug checks (`DBGCHECK`) are preconditions here: square matrices, matching lengths, and at
  least one row, without which the loop bound of include/densematrix.h:933 wraps around.
- `DenseSolver.FactorAndLuSolve`: division by a zero last pivot has a placeholder value, and
  nothing is claimed about the solution then. A matrix and its right-hand sides may lie in one
  buffer but share no cell.
- `DenseMatrices.DenseMatrix.AddRow`: what the new row holds is left open, as the source asks of
  its callers. Resizing, copying and moving matrices are not modelled.
- `CircularBuffers.CircularBuffer.Upsize`: nothing is said about future depths of the grown ring
  beyond what the past depths fix; the source keeps only the past. Growing, reading or moving a
  ring whose write position a removal put past the end is not modelled; there the source can leave
  its buffer.
- `CircularBuffers.CircularBuffer.Add`: needs a ring with capacity, as the source does
  (include/ansupport.h:75-84 would write into an empty buffer).
- `DelayLineHistory.DelayLines.AddSample`: without any delay line the timepoint ring needs
  capacity, or the source writes into an empty buffer. Times increase and the longest delays stay
  as they are during a run, which is what the run theorems quantify over.
- `DelayLineHistory.Transient`: stands for the analysis as far as delay lines see it; the solver
  that finds the timepoints and solutions is not modelled.
- Binding delay lines to unknowns and matrices (include/coredelay.h:47-71) and the plain getters.
- `SparsityMaps.SparsityMap.Enumerate`: the library sort is replaced by ordered insertion; by
  `OrderedListingUnique` any sort gives the same list.
- `CscBlockMatrices.CscBlockMatrix.Rebuild`: needs an enumerated map with positions 1..n and
  n >= 1, which the source takes for granted (lib/cscblkmatrix.cpp:117-118). The bucket is a fresh
  array here; the source may reuse its storage. What reading the bucket yields is left open.
- `CscBlockMatrices.CscBlockMatrix.ElementIndex`: returns an index, not a pointer; real and
  imaginary components are not modelled.
- The scalar sparse matrix's own `rebuild`, its solver interface, checks and dumps.
- `ErrorStacks.ErrorStack.Push`: the exceptions are result values. Formatting messages, the
  consumer that forwards to a status object and the machine representation of objects are left
  out; an object is its code and a payload.
- Newton iteration, homotopy, transient stepping, integrator coefficients, parsing, expression
  evaluation, output files, device loading and the pool allocator.
