# Proofs about the numeric and combinatorial kernels of pqR

This project models the kernels of `src/appl` that keep exact invariants over arrays changed in place, and
four small state machines of `src/gnuwin32`, and proves what they keep and compute. Code that works step by
step is imperative here too: classes with the fields of the original's static variables and structs, arrays
overwritten in place, loops with invariants. Each such method is tied to functions on sequences, sets and
multisets, and the lemmas about those functions say what the code promises.

`dafny verify dfyconfig.toml` checks everything. Floating point numbers are exact reals, square roots are known
only by their squares, and random draws are arbitrary reals strictly between 0 and 1. Arrays that the original
indexes from 1 have an unused place 0.

| files | what they model |
|---|---|
| Naturals, FactorSplits, FftFactor, MixedRadix, FftReorder, FftRotate, FftFinish | `fft_factor`, and the last stage of `fftmx`: block sizes, reverse-carry counter, cycle marks, block rotation |
| Hypergeometric, CellWalk, ContingencyTable, Rcont2 | `rcont2`, random tables with given margins |
| ErrorList, Bisections, Qags | `rdqpsrt` and the adaptive bisection `rdqagse`: the list of errors, the record of a run, the routine |
| Vectors, Blas, CorrectionMemory, FreeVariables, RestrictedProducts, CacheDriver | the caches of L-BFGS-B: `matupd`, `freev`, the incremental part of `formk`, and the loop of `mainlb` around them |
| BreakpointHeap, PassingOrder, BoxPath, QuadraticModel, ModelPath, CauchyPoint, TiedSearch, SubspaceStep | `hpsolb`, `cauchy`, `active`, the backtracking of `subsm` |
| Matrices, QrUpdate, Bfgs, Secfac, Secunf | `qrupdt` and the two BFGS updates of `uncmin.c` |
| Parabola, BrentMin | `Brent_fmin` |
| Signals | signal masks, pending signals and handlers |
| Complex, Polynomials, Cpoly | the steps of the complex root finder and its deflation |
| GlobPattern, GlobCompile, GlobLaws, BraceExpansion | wildcard patterns: meaning, compiler, matcher, the laws of the written patterns, brace expansion |
| ConsoleBuffer | the line buffer of the console |
| Basics | what several of these need |

## Main results

- `FftRotate.UnscrambleSquareFree` puts the whole reorder stage together: whatever the square-free factors, block
  j of each section ends where its mixed-radix digit reversal says. `FftFinish.Finish` runs it on the plan of any
  accepted length, with the block sizes that `fftmx` computes and the scratch space that the plan asks for.
- `FftFactor.FftPlan.Factor` rejects a length exactly if it has too many factors; `FactorSplits.SplitIsUnique` shows
  that a length has only one split into square and square-free factors.
- `Rcont2.Rcont2` produces the table that its draws determine; `ContingencyTable.TableWeightIsFisher` shows that
  the draws giving a table t have exactly Fisher's conditional probability of t as their volume.
- `Qags.Run.Integrate` states, for every bisection of a run, partition, sums, the choice of the largest error and
  the reason to go on; and for the end of the run, which test ended it, which answer was chosen, and why ier is what
  it is.
- `CorrectionMemory.Memory.EndIteration`, `FreeVariables.FreeSet.Freev` and `RestrictedProducts.Subspace.Formk` bring
  the three caches to what plain recomputation gives. `CacheDriver.Driver.Run` puts them into the loop of the driver:
  over any run of passes, refreshes included, the matrix of restricted products is right exactly when the calls left
  out and the pairs dropped since say so, and always if some variable is free in every pass.
- `CauchyPoint.PathSearch.Cauchy` returns a point of the projected gradient path. The products and derivatives that it
  carries from breakpoint to breakpoint are exact (`QuadraticModel.Derivatives.Proceed`). For a definite model whose
  curvature is never raised, the point is the first from which the model rises along the path if and only if there is
  no tie at which the search ends short, a condition on the variables and the model alone (`ModelPath.EndsShort`);
  otherwise it is the first such tie. The order in which tied variables are taken is that of `PassingOrder.Order`.
- `Secfac.Secfac` and `Secunf.Secunf` meet one specification, for which `Bfgs.Secant` proves the secant equation.
- `BrentMin.BrentFmin` evaluates the vertex of the parabola through the three best points so far, or a golden point,
  exactly as the rules say (`Parabola.StepToVertex` shows that the formulas give the vertex), and bounds the number of
  evaluations and the error.
- `Signals.Process.SigprocmaskAtRest` gives the exact set of deliveries of one call, as section 2.4.1 of the
  System Interfaces volume of POSIX.1-2008 asks of a change of the mask; `Signals.Process.RaiseTwice` and
  `Signals.Process.BlockRaiseUnblock` follow a signal through several calls.
- `Cpoly.RootFinder.Cpolyroot` fails exactly if the leading coefficient is zero or the search does, and otherwise the
  polynomial is made up of the zeros found and the remainders left.
- `GlobCompile.CompileAndMatch` decides the declarative meaning of a pattern. The laws of `GlobLaws` give that meaning
  text by text: characters, `?`, `*`, sets, ranges, negation, and one text behind another.
- `BraceExpansion.HandedIsCshExactly` says for which patterns brace expansion is that of the C shell.
- `ConsoleBuffer.BufferedRetains` and `ConsoleBuffer.XBuf.AddString` make the buffer a window on the output log.

## Where the code differs from what it says

- `fft_factor`: the comment (src/appl/fft.c:746-749) announces the value 1 in `*pmaxp` when there are too many
  factors; the code stores 0. The least length that is ever rejected is 12754584.
  `*pmaxf` is announced as the maximum factor size (src/appl/fft.c:743), but the code looks at four entries only: it is
  the largest factor except when a square 4 is missed (`FftFactor.MaxfIsLargest`), as for 11664
  (`FftFactor.FourIsMissed`). The transform is safe all the same, since it needs the odd factors only.
- `formk` is not called when no variable is free (src/appl/lbfgsb.c:810-814), and the next call relies on what is
  stored. `RestrictedProducts.SkipExactly` gives the exact condition under which that is right: for unchanged pairs,
  for a new pair, and for a new pair in the place of the oldest. `RestrictedProducts.FreshPlaceIsWrong` shows that it
  is never right when the memory grows for the first time, and `RestrictedProducts.FirstPairSkipped` is an instance.
  The harm lasts until the wrong pairs have been dropped (`CacheDriver.RightAgain`) or the memory is refreshed, unless
  another call is left out meanwhile.
- `secfac` and `secunf`: a zero step or an unchanged gradient passes the curvature test; with a positive epsilon
  these are the only steps for which y's is zero (`Secfac.NoCurvature`). `Secfac.UndefinedExactly` says when an update
  divides by zero if the factor has no zero on its diagonal. A first step without change makes the Hessian zero
  (`Secfac.FirstStepWithoutChange`); `Secfac.SingularHessian` says when the updates after it divide by zero.
- `dos_wglob` keeps only the low 14 bits of each ordinary character of a pattern (src/gnuwin32/dos_wglob.c:110, 127 and
  500): such a character is matched by the one that these bits stand for. A text without special characters matches
  itself exactly if all of it lies below 0x4000 when case counts
  (`GlobCompile.MatchesItself`, `GlobCompile.MatchesItselfBelow`); `GlobCompile.WideCharacter` is an instance.
- `cauchy`: when several variables meet their bounds at once, they are taken one by one (src/appl/lbfgsb.c:1688-1761),
  and the search stops if the model rises from there with only some of them stopped, though it falls with all of them
  stopped. It misses the first minimum exactly if this happens at a tie up to which the model has not risen
  (`ModelPath.EndsShort`, `ModelPath.EndsAt`); without ties it cannot (`ModelPath.NoTiesNoneShort`).
  `TiedSearch.TiedRun` runs it on an instance, with one pair and three variables.
- `rdqagse`: the exit below the loop is reached only by a jump from inside it (`Qags.Run.Iterate`). The `continue` in
  the inner loop (src/appl/integrate.c:1510-1518) goes on with that loop, so that an extrapolation is never put off to
  cut the larger intervals first, as the comment above it announces: `extrap` is off again before every cut, and
  `iroff2` and `ierro` stay 0. The flag 3 of the documentation is never returned; a bad spot gives 4 and a row of useless
  extrapolations 5. `neval` is only set if a flag above 2 is, or if the first estimate is accepted
  (src/appl/integrate.c:1589-1592).
- `dos_wglob` compares a character with the ends of a range in lower case when case does not count, so that a range can
  lose its own ends (`GlobLaws.RangeHasItsEnds`, `GlobLaws.RangeFromZ`).
- `globexp1`: the exception for a lone `{}` applies to every intermediate pattern, not only to the word given.
- `xbufshift` does not move the terminator behind the current line when the buffer is full. After `consoleclear` that
  line is terminated exactly if some room was left, or it was the only line, or the place where the end now belongs
  held a zero before (`ConsoleBuffer.XBuf.Clear`); `ConsoleBuffer.ClearedWithoutEnd` is an instance where it is not.

## Model

| member | source | states |
|---|---|---|
| `FftFactor.OddTrialIsPrime` | src/appl/fft.c:778-783 | a square divisor j*j that survives the ascending odd trial squares has a prime j, although the loop never tests j for primality |
| `FftFactor.TrialIsPrime` | src/appl/fft.c:800-808 | every divisor met by the ascending trial division is prime |
| `FftFactor.FewFactors` | src/appl/fft.c:763-816 | a length that has been split with few enough factors has no other split with too many |
| `FftFactor.FactorisationSize` | src/appl/fft.c:763-809 | a length with kt square factors and r middle factors is at least the least such length; what makes 15 slots enough |
| `FftFactor.RejectedIsLong` | src/appl/fft.c:813-816 | whenever the squares do not fit once mirrored, the length is at least 12754584 = 2^3 * 3^13 |
| `FftFactor.ManyFactorsOverflow` | src/appl/fft.c:724-730 | no length that fits an int has 15 factors with squares counted once, so nfac is never overrun before the check |
| `FftFactor.FftPlan.ExtractSquares` | src/appl/fft.c:768-783 | keeps "product of squares times rest is n" and leaves a rest without 16 and without odd squares |
| `FftFactor.FftPlan.ExtractPrimes` | src/appl/fft.c:800-808 | trial division ends with k = 1, and the factors found are increasing primes whose product is the square-free rest |
| `FftFactor.FftPlan.ExtractFactors` | src/appl/fft.c:763-812 | square part, then square-free middle part or a single 4, product n, with maxp the least number that covers the scratch space of both permutation stages |
| `FftFactor.FftPlan.Mirror` | src/appl/fft.c:817-822 | the square factors follow again in reverse order |
| `FftFactor.FftPlan.SetMaxf` | src/appl/fft.c:823-828 | maxf bounds every odd factor and the slice length of the transform, though only four entries are looked at; it is the largest factor, as the comment says, if and only if no square 4 is missed (MissesFour), and otherwise it is 3 |
| `FftFactor.MaxfIsLargest` | src/appl/fft.c:823-828 | a factor is larger than maxf exactly if the first square factor is 4, three smaller ones follow at the end and the last middle factor is smaller too |
| `FftFactor.FourIsMissed` | src/appl/fft.c:823-828 | this happens for 11664 = 2^4 * 3^6, which splits into the squares 4, 3, 3, 3 |
| `FftFactor.FftPlan.Factor` | src/appl/fft.c:738-831 | the three outcomes: n <= 0; too many factors, which happens exactly if some split of n has too many (then n is at least 12754584, which is itself rejected, and the outputs are 0, 0, unlike the comment, which promises 1); or a mirrored factorisation with product n, the least maxp that covers the scratch space, and maxf the largest factor unless a 4 is missed |
| `Primes.Euclid` | src/appl/fft.c:763-809 | a prime that divides a product divides a factor: what makes the split into factors unique |
| `FactorSplits.SplitIsUnique` | src/appl/fft.c:763-809 | a length has only one square part and one middle part, a single 4 in the middle included |
| `MixedRadix.ReversalInverse` | src/appl/fft.c:633-659 | digit reversal over the factors is undone by reversal over the reversed factors |
| `MixedRadix.ReversalFixesLast` | src/appl/fft.c:643-659 | the last index reverses to itself |
| `MixedRadix.ReversalInjective` | src/appl/fft.c:633-659 | digit reversal is one to one |
| `MixedRadix.CarryIsNext` | src/appl/fft.c:647-659 | adding one at the leading digit with carries to the right turns the reversal of j into that of j + 1 |
| `Cycles.CycleFrom` | src/appl/fft.c:666-671 | following a permutation from any index closes a cycle |
| `Cycles.LeaderOf` | src/appl/fft.c:661-678 | every index lies on the cycle of a leader no greater than itself, which moves if the index does |
| `Cycles.LeadersOfCycle` | src/appl/fft.c:661-678 | on a cycle written from its least index exactly that index is the leader |
| `FftReorder.CumulateFactors` | src/appl/fft.c:637-642 | the factors are overwritten by their cumulative products from the right |
| `FftReorder.ReverseCarry` | src/appl/fft.c:647-653 | one round of the jump-driven counter is exactly one reverse carry |
| `FftReorder.ReverseDigits` | src/appl/fft.c:643-659 | np[j] is the mixed-radix digit reversal of j for every j |
| `FftReorder.ReversalIsPermutation` | src/appl/fft.c:633-659 | hence np is a permutation of 1..nn that fixes nn |
| `FftReorder.ReversalMovesOne` | src/appl/fft.c:633-659 | with two or more factors index 1 moves, which lets the downward scan stop there |
| `FftReorder.NegateCycle` | src/appl/fft.c:666-671 | negates np along one cycle except at its start |
| `FftReorder.NextUnmarked` | src/appl/fft.c:672-673 | the upward scan finds the least index not yet marked |
| `FftReorder.MarkCycles` | src/appl/fft.c:661-678 | afterwards np is positive exactly at the least index of each nontrivial cycle and k3 is the greatest such index |
| `FftRotate.SourceUntouched` | src/appl/fft.c:696-709 | the block about to be copied from has not been overwritten yet |
| `FftRotate.RotateChunk` | src/appl/fft.c:684-716 | one pass with the scratch vector rotates a slice of the blocks of one cycle |
| `FftRotate.RotateCycle` | src/appl/fft.c:682-718 | slice by slice, at most maxf elements at a time, every block of the cycle has moved and nothing else has |
| `FftRotate.NextLeader` | src/appl/fft.c:681-682 | the scan downwards finds the next positive mark and skips none |
| `FftRotate.RotateSection` | src/appl/fft.c:680-719 | block k holds what block abs(np[k]) held, for every k, and nothing outside the blocks has changed |
| `FftRotate.ReorderSections` | src/appl/fft.c:680-722 | the same for every section of the data, from the top down, stopping exactly at index 1 |
| `FftRotate.UnscrambleSquareFree` | src/appl/fft.c:629-722 | the whole stage: counter, marking and rotation bring the blocks of each section into digit-reversed order, and with fewer than two middle factors nothing moves |
| `FftRotate.PlanFitsStage` | src/appl/fft.c:811-830 | a plan accepted by fft_factor meets the demands of this stage on nfac and np: factors, sentinel in nfac, range of np |
| `FftFinish.BlockSizes` | src/appl/fft.c:558-573 | the table of block sizes, divided down from one side and multiplied up from the other, meets in the middle: jc is the spacing times the square factors, and kspnn is jc times the middle factors |
| `FftFinish.SliceLength` | src/appl/fft.c:179-180 | the number of elements rotated at a time is positive and no more than the scratch space planned |
| `FftFinish.PlanDemands` | src/appl/fft.c:811-830 | an accepted plan meets all demands of the stages, sizes and slice length included |
| `FftFinish.Finish` | src/appl/fft.c:558-722 | for every accepted length the last stage runs within its scratch space and leaves the blocks in digit-reversed order, whatever the number of transforms and their spacing |
| `Binomials.Vandermonde` | src/appl/rcont.c:67-120 | the sum of C(d,i) C(c,a-i) is C(d+c,a) |
| `Binomials.ChooseFactorial` | src/appl/rcont.c:72-74 | Pascal's recurrence and the factorial form agree |
| `Hypergeometric.WeightUp` | src/appl/rcont.c:86-90 | the recurrence of the upward walk gives the probability of the next value |
| `Hypergeometric.WeightDown` | src/appl/rcont.c:100-104 | the recurrence of the downward walk gives the probability of the next value down |
| `Hypergeometric.WeightsSumToOne` | src/appl/rcont.c:67-120 | the probabilities of all feasible values of a cell add up to one |
| `CellWalk.StartFeasible` | src/appl/rcont.c:69-74 | the rounded expected value lies between max(0, ia+id-ie) and min(ia, id), so no factorial is indexed outside its table |
| `CellWalk.VisitsEveryValueOnce` | src/appl/rcont.c:84-116 | one full sweep up and down visits every feasible value exactly once |
| `CellWalk.VisitsNearestFirst` | src/appl/rcont.c:84-116 | it goes from near to far, and of two values equally near it visits the upper one first |
| `CellWalk.VisitsMass` | src/appl/rcont.c:84-116 | and its probabilities add up to one |
| `CellWalk.PickFromInterval` | src/appl/rcont.c:75-109 | the value picked is the one whose cumulative interval holds the draw |
| `CellWalk.PickInterval` | src/appl/rcont.c:75-109 | the draws that pick k are a half-open interval within [0, 1] whose length is the probability of k |
| `ContingencyTable.TableHasMargins` | src/appl/rcont.c:40-134 | whatever the draws, the table has exactly the given row and column totals |
| `ContingencyTable.RowIffDrawsSelect` | src/appl/rcont.c:50-127 | a row comes out if and only if its draws lie in a box of intervals |
| `ContingencyTable.TableIffDrawsSelect` | src/appl/rcont.c:45-134 | the same for a whole table |
| `ContingencyTable.TableWeightIsFisher` | src/appl/rcont.c:45-134 | the volume of that box is the factorials of the margins over those of the total and the cells: the tables have Fisher's conditional distribution |
| `Rcont2.RatioUp` | src/appl/rcont.c:85-91 | the fast update of x is the probability of the next value |
| `Rcont2.RatioDown` | src/appl/rcont.c:99-105 | the fast update of y is the probability of the next value down |
| `Rcont2.SweepIsComplete` | src/appl/rcont.c:118-120 | no sweep ends below the draw, so drawing again is never reached |
| `Rcont2.WalkDown` | src/appl/rcont.c:96-114 | the inner loop picks the right value or keeps the invariant of the walk |
| `Rcont2.DrawCell` | src/appl/rcont.c:64-122 | the two-directional walk picks exactly the value whose interval holds the draw |
| `Rcont2.DrawRow` | src/appl/rcont.c:46-127 | a row of the table, the early exit for an empty remainder included, and what the columns still have |
| `Rcont2.Rcont2` | src/appl/rcont.c:24-137 | the matrix is the table determined by the draws; it is non-negative with the given margins, although the last column total is never read |
| `ErrorList.LargestFirst` | src/appl/integrate.c:2330-2336 | the first entries of the list are the largest errors of all intervals, although the list is cut off |
| `ErrorList.PlaceChanged` | src/appl/integrate.c:2340-2365 | top-down insertion keeps the order |
| `ErrorList.PlaceNew` | src/appl/integrate.c:2347-2358 | bottom-up insertion keeps the order |
| `ErrorList.InsertBoth` | src/appl/integrate.c:2340-2365 | both errors are inserted: the list is the old one without the cut interval, with both halves, in order |
| `ErrorList.Resort` | src/appl/integrate.c:2312-2370 | one call keeps distinctness, order and coverage of the truncated list |
| `ErrorList.Rdqpsrt` | src/appl/integrate.c:2237-2372 | the same for the whole routine, the first two intervals included; maxerr is at position nrmax of the list |
| `Bisections.CutPartition` | src/appl/integrate.c:1448-1464 | cutting one interval keeps a gap-free partition of [a, b] |
| `Bisections.CutConsistent` | src/appl/integrate.c:1409-1464 | and area the sum of the results, errsum the sum of the errors |
| `Bisections.Problem.RecordMore` | src/appl/integrate.c:1394-1471 | one more cut: the record of a run, from the whole interval on, says of each cut what was cut and why the run had to go on |
| `Bisections.Problem.OneMoreWithoutGain` | src/appl/integrate.c:1415-1419 | the counter iroff1 is the number of recorded cuts whose halves gave the same result without a smaller error |
| `Bisections.Problem.OneMoreGrowing` | src/appl/integrate.c:1421-1422 | and iroff3 the number of those after the tenth interval whose error has grown |
| `Bisections.Problem.BestErrorFalls` | src/appl/integrate.c:1520-1535 | the least error of the extrapolations never grows |
| `Qags.Run.StoreHalves` | src/appl/integrate.c:1448-1464 | the half with the larger error takes the place of the interval that was cut |
| `Qags.Run.Bisect` | src/appl/integrate.c:1396-1464 | one bisection keeps partition and sums, and is recorded |
| `Qags.Run.CheckRoundoff` | src/appl/integrate.c:1412-1444 | flag and counters after a cut: 4 if the interval can hardly be told from its midpoint, else 1 at the limit, else 2 after ten or twenty cuts that point to roundoff |
| `Qags.Run.LargestIsFirst` | src/appl/integrate.c:1396-1404 | the interval about to be cut has the largest error estimate of all |
| `Qags.Run.BisectAndSort` | src/appl/integrate.c:1394-1471 | bisection and sorting together keep the whole invariant |
| `Qags.Run.OneMoreExtrapolation` | src/appl/integrate.c:1523-1526 | the test on ktmin holds exactly if the last five extrapolations have brought nothing and the best error is small |
| `Qags.Run.Extrapolate` | src/appl/integrate.c:1520-1547 | it ends the run exactly if it comes after such a row, or is the best so far and accurate enough; the answer kept is the one with the least error |
| `Qags.Run.Control` | src/appl/integrate.c:1481-1554 | an extrapolation is made exactly if there are three intervals, none has left nothing to go on with, and the next interval is small; however far nrmax has been moved, it is 1 again before the next bisection |
| `Qags.Run.FirstEstimate` | src/appl/integrate.c:1340-1366 | flag 6 exactly for invalid tolerances; 1, 2 or 0 for the first estimate, which is accepted exactly if a flag is set or it is accurate |
| `Qags.Run.AfterCut` | src/appl/integrate.c:1472-1474 | after a cut the run is over exactly if the sums are accurate or a flag is set |
| `Qags.Run.Pass` | src/appl/integrate.c:1394-1554 | one pass of the loop keeps everything: the run goes on for a reason or ends for one |
| `Qags.Run.Iterate` | src/appl/integrate.c:1394-1554 | the loop is always left from inside, and only if the sums are accurate, a flag is set, or an extrapolation ends it |
| `Qags.Run.GiveUp` | src/appl/integrate.c:1559-1576 | the sum is preferred exactly if its relative error is smaller |
| `Qags.Run.TestDivergence` | src/appl/integrate.c:1578-1584 | flag 5 exactly if extrapolation and sum are far apart or the sum is less than its error, unless both are small against the integral of the modulus |
| `Qags.Run.Finish` | src/appl/integrate.c:1557-1593 | when the answer is the plain sum and when it is the best extrapolation, and the flag and neval that go with it; without a flag it meets the accuracy |
| `Qags.Run.Integrate` | src/appl/integrate.c:1093-1594 | over the whole run: the intervals partition [a, b]; every interval cut had the largest error, and before each cut the sums were not accurate, no flag was due and no extrapolation ended the run; the run ends exactly for one of these reasons, and ier says for which: 1 only at the limit, 2, 4 and 5 by the tests over the recorded cuts and extrapolations, 3 never; ier = 0 implies abserr <= max(epsabs, epsrel abs(result)) |
| `Vectors.DotInChange` | src/appl/lbfgsb.c:2197-2252 | the product over a set of components changes by those that enter and leave |
| `Vectors.DotOverIsDotIn` | src/appl/lbfgsb.c:2157-2166 | summing along an index list without repetitions is summing over the set |
| `CorrectionMemory.SlotStep` | src/appl/lbfgsb.c:2836-2845 | walking with p % m + 1 from head reaches the columns of the ring in order and returns to head |
| `CorrectionMemory.ShiftProducts` | src/appl/lbfgsb.c:2822-2833 | the diagonal shift drops the products of the oldest pair and keeps all others |
| `CorrectionMemory.AddProducts` | src/appl/lbfgsb.c:2834-2845 | the loop along the ring fills the last row of sy and the last column of ss |
| `CorrectionMemory.StepProducts` | src/appl/lbfgsb.c:965-979 | the products with the scaled step, from those the line search leaves |
| `CorrectionMemory.Memory.Reset` | src/appl/lbfgsb.c:790-796 | a reset forgets all pairs and restores the empty memory |
| `CorrectionMemory.Memory.PlacePair` | src/appl/lbfgsb.c:2806-2816 | the new pair takes the free column, or that of the oldest pair |
| `CorrectionMemory.Memory.UpdateProducts` | src/appl/lbfgsb.c:2819-2851 | the cached products are those of exactly the pairs kept, the newest included |
| `CorrectionMemory.Memory.MatUpd` | src/appl/lbfgsb.c:2750-2853 | the ring holds the last min(iupdat, m) pairs in order, ss and sy their inner products, and theta = y'y / y's of the newest |
| `CorrectionMemory.Memory.EndIteration` | src/appl/lbfgsb.c:965-998 | a pair is remembered exactly if y's exceeds epsmch times -g's, and then y's > 0; invariant over any run of updates, skips and resets |
| `FreeVariables.FreeSet.FindLeaving` | src/appl/lbfgsb.c:2451-2462 | indx2 lists, from its end, exactly the variables that were free and are not |
| `FreeVariables.FreeSet.FindEntering` | src/appl/lbfgsb.c:2463-2476 | and from its start those that have become free, without the two lists meeting |
| `FreeVariables.FreeSet.Relist` | src/appl/lbfgsb.c:2480-2490 | indx lists the free variables from the left and the others from the right |
| `FreeVariables.FreeSet.Freev` | src/appl/lbfgsb.c:2393-2495 | the lists are the two set differences; wrk says whether the pairs or the free set have changed |
| `RestrictedProducts.DeltaIsExact` | src/appl/lbfgsb.c:2197-2252 | the correction of an entry for variables that enter and leave is exact, with its sign in each block |
| `RestrictedProducts.KeptEntry` | src/appl/lbfgsb.c:2122-2252 | shifting and correcting an old entry gives the entry computed from scratch |
| `RestrictedProducts.SkipExactly` | src/appl/lbfgsb.c:810-814 | when the driver leaves the call out because no variable is free, a matrix that was right for the pairs behind the first k stays right for them if and only if, among these pairs: without a new pair, all pairs vanish on the variables that have left; with a new one, also the places of the new pair happen to hold its products; with a new one in the place of the oldest, the unmoved entries happen to be the products wanted |
| `RestrictedProducts.SamePairsWithoutFree` | src/appl/lbfgsb.c:810-814 | the products of the same pairs, those behind the first j, over the old free variables are those over none if and only if these pairs vanish there |
| `RestrictedProducts.FreshPlaceIsWrong` | src/appl/lbfgsb.c:810-814 | after the memory has grown for the first time, a call left out is always harmful |
| `RestrictedProducts.FirstPairSkipped` | src/appl/lbfgsb.c:810-814 | for instance for the first pair in a memory of two |
| `RestrictedProducts.Subspace.CorrectSquares` | src/appl/lbfgsb.c:2199-2226 | the loop corrects every entry of blocks (1,1) and (2,2) once |
| `RestrictedProducts.Subspace.CorrectBlock21` | src/appl/lbfgsb.c:2228-2252 | the loop corrects every entry of block (2,1) once, with opposite signs on both sides of its diagonal |
| `RestrictedProducts.Subspace.AddPair` | src/appl/lbfgsb.c:2122-2192 | shift, new rows and new column: the entries of the newest pair are products computed afresh |
| `RestrictedProducts.Subspace.Formk` | src/appl/lbfgsb.c:2115-2252 | the blocks are what computing from scratch gives for the new pairs and free set, if and only if the entries kept were right before; the same for the pairs behind the first k, for every k |
| `RestrictedProducts.Subspace.FormIfNeeded` | src/appl/lbfgsb.c:809-830 | the call is made exactly if some variable is free, there are pairs and something has changed; then as above, and otherwise the matrix stays as it is |
| `CacheDriver.RightAgain` | src/appl/lbfgsb.c:810-830 | after a call is left out that leaves the matrix wrong for the oldest pairs, it is right again exactly when as many pairs have been dropped |
| `CacheDriver.RightWithoutHarm` | src/appl/lbfgsb.c:810-830 | as long as no call has been left out with harm, nothing is missing |
| `CacheDriver.NothingLeftOut` | src/appl/lbfgsb.c:810-830 | if some variable is free in every pass, no call is left out |
| `CacheDriver.KeptFollows` | src/appl/lbfgsb.c:985-998 | the pairs in the ring before and after an iteration: the same, one more, or a new one for the oldest |
| `CacheDriver.PassEnds` | src/appl/lbfgsb.c:764-998 | only convergence ends the run, or a failure of the step with an empty memory; every other failure empties the memory and goes on |
| `CacheDriver.SecondFailureEnds` | src/appl/lbfgsb.c:897-932 | two failures of the step in a row end the run |
| `CacheDriver.Driver.FindFree` | src/appl/lbfgsb.c:764-809 | the free set of the pass and its changes, with and without bounds |
| `CacheDriver.Driver.Form` | src/appl/lbfgsb.c:764-830 | when the call is made, when it is due but left out, and when it is not due; after a call is left out the matrix is right behind the first k pairs exactly under the condition of SkipExactly, for every k behind which it was right before |
| `CacheDriver.Driver.Refresh` | src/appl/lbfgsb.c:786-800 | the memory is empty and nothing is missing |
| `CacheDriver.Driver.Finish` | src/appl/lbfgsb.c:940-998 | the end of an iteration remembers the step exactly if its curvature is large enough, and keeps the invariant of the loop |
| `CacheDriver.Driver.Step` | src/appl/lbfgsb.c:758-1027 | one pass of the loop: what becomes of the memory and whether the run ends, for each outcome; the events are the specified ones, and how far the matrix is right is what they say |
| `CacheDriver.Driver.Run` | src/appl/lbfgsb.c:758-1027 | the same for any run of passes; at its end the matrix is right exactly if nothing is missing, and always if some variable was free in every pass |
| `BreakpointHeap.FirstIsLeast` | src/appl/lbfgsb.c:2553-2574 | the first entry of a heap is its least |
| `BreakpointHeap.AddToHeap` | src/appl/lbfgsb.c:2555-2573 | one more element is sifted up; contents are kept |
| `BreakpointHeap.ChildIsLeast` | src/appl/lbfgsb.c:2583-2592 | the child that the loop looks at is a least one, and less than the element that sinks, or there is none |
| `BreakpointHeap.Sink` | src/appl/lbfgsb.c:2578-2599 | the last element sinks into the hole at the top; contents are kept |
| `BreakpointHeap.TakeLeast` | src/appl/lbfgsb.c:2575-2603 | the least element goes to the end and the others stay a heap |
| `BreakpointHeap.Hpsolb` | src/appl/lbfgsb.c:2498-2605 | contents kept, the minimum last, a heap before it, nothing beyond n touched, and equal entries in the order that the specified functions give |
| `PassingOrder.FirstOfLeastIsIndex` | src/appl/lbfgsb.c:1594-1606 | the breakpoint that the first loop marks is the first of the least |
| `PassingOrder.SolvedIsRight` | src/appl/lbfgsb.c:2498-2605 | the specified result of hpsolb has a least entry last, a heap before it, and the same contents |
| `PassingOrder.DrainIsSorted` | src/appl/lbfgsb.c:1672-1687 | called on ever shorter lists, hpsolb hands out the breakpoints in ascending order |
| `PassingOrder.OrderAscends` | src/appl/lbfgsb.c:1666-1687 | the order in which cauchy takes the breakpoints, the marked one first and the others through the heap, is ascending and has each of them once |
| `QuadraticModel.TransAdd` | src/appl/lbfgsb.c:1733-1734 | W'(z + a d) = W'z + a W'd, in both halves of W = [Y theta S] |
| `QuadraticModel.TransUpdate` | src/appl/lbfgsb.c:1751-1753 | stopping one variable subtracts its row of W |
| `QuadraticModel.SlopeMoves` | src/appl/lbfgsb.c:1730-1734 | moving on by dt the slope of the model grows by dt times the curvature |
| `QuadraticModel.NextSlope` | src/appl/lbfgsb.c:1727-1755 | the formula for f1 is the slope of the model after one variable has stopped |
| `QuadraticModel.CurvatureDrops` | src/appl/lbfgsb.c:1727-1756 | the formula for f2 is the curvature of the direction without that variable |
| `QuadraticModel.Derivatives.Include` | src/appl/lbfgsb.c:1577-1589 | p gains the row of a moving variable and f1 its square, while theta is still left out |
| `QuadraticModel.Derivatives.ScaleHalf` | src/appl/lbfgsb.c:1621-1624 | p = W'd |
| `QuadraticModel.Derivatives.Begin` | src/appl/lbfgsb.c:1636-1649 | c = 0, and f1 and f2 are slope and curvature of the model at the start |
| `QuadraticModel.Derivatives.TakeRow` | src/appl/lbfgsb.c:1735-1742 | wbp is the row of W of the variable that stops, through the ring |
| `QuadraticModel.Derivatives.Shift` | src/appl/lbfgsb.c:1733-1753 | c = W'z and p = W'd for the new point and direction |
| `QuadraticModel.Derivatives.NextDerivatives` | src/appl/lbfgsb.c:1727-1757 | the updates of f1 and f2, with the products of the middle matrix or without pairs, are exact |
| `QuadraticModel.Derivatives.Proceed` | src/appl/lbfgsb.c:1725-1758 | at the next breakpoint p, c, f1 and f2 are again exact, f1 and f2 unless a curvature below the least one has been raised |
| `QuadraticModel.Derivatives.Conclude` | src/appl/lbfgsb.c:1786-1791 | c = W'(xcp - x) at the end |
| `BoxPath.PathIsPiecewiseLinear` | src/appl/lbfgsb.c:1546-1616 | the projection of x - s g on the box is a line up to the breakpoint computed here and constant from there on |
| `BoxPath.PathWithinBounds` | src/appl/lbfgsb.c:1546-1616 | points of the path lie within the bounds |
| `BoxPath.FoundExactly` | src/appl/lbfgsb.c:1590-1607 | each variable that meets a bound has exactly one breakpoint |
| `ModelPath.RiseOnSegment` | src/appl/lbfgsb.c:1662-1701 | between two breakpoints the slope of the model along the path grows in proportion |
| `ModelPath.FallsOn` | src/appl/lbfgsb.c:1697-1704 | if the stationary point is not before the next breakpoint, the model does not rise on the way there |
| `ModelPath.StopsAtMinimum` | src/appl/lbfgsb.c:1697-1701 | where the search stops away from ties, the path first rises |
| `ModelPath.StopsAtTie` | src/appl/lbfgsb.c:1688-1701 | where it stops at a tie, the model falls on exactly if the search ends short there, and then it is the first such tie |
| `ModelPath.RisesAfter` | src/appl/lbfgsb.c:1305-1325 | behind a point from which the model does not fall it rises before the next variable stops |
| `ModelPath.NeverShort` | src/appl/lbfgsb.c:1305-1325 | where the path first rises, and no tie before was such that the search ends short, none is |
| `ModelPath.NoTiesNoneShort` | src/appl/lbfgsb.c:1688-1761 | if no two variables meet their bounds at once, the search cannot end short |
| `CauchyPoint.PathSearch.Classify` | src/appl/lbfgsb.c:1547-1614 | status, direction and breakpoint of a variable are those of the path |
| `CauchyPoint.PathSearch.Prepare` | src/appl/lbfgsb.c:1546-1616 | the list of breakpoints is complete, ibkmin marks the first of the least, bnded tells whether all moving variables meet a bound, nfree whether all that move do, and p and f1 are built up for the direction |
| `CauchyPoint.PathSearch.NextBreak` | src/appl/lbfgsb.c:1666-1687 | the next breakpoint of the order, a least one of those ahead, whether remembered, moved or taken from the heap |
| `CauchyPoint.PathSearch.Fix` | src/appl/lbfgsb.c:1704-1717 | fixing a variable at its breakpoint keeps all others where the path has them |
| `CauchyPoint.PathSearch.Pass` | src/appl/lbfgsb.c:1663-1767 | the search stops exactly if the stationary point comes before the next breakpoint of the order; otherwise this one is passed |
| `CauchyPoint.PathSearch.DirectionIsStopped` | src/appl/lbfgsb.c:1704-1717 | d is the first direction with the variables of the breakpoints passed so far stopped |
| `CauchyPoint.PathSearch.GoesStraight` | src/appl/lbfgsb.c:1662-1708 | up to the next breakpoint ahead the path leads straight on along d |
| `CauchyPoint.PathSearch.ExactSlopes` | src/appl/lbfgsb.c:1725-1761 | for a definite model whose curvature is never raised, f1 and f2 are those of the model, or nothing moves any more |
| `CauchyPoint.PathSearch.StopsRight` | src/appl/lbfgsb.c:1697-1701 | where the loop stops the path first rises if and only if there is no tie at which the search ends short, and otherwise it stops at the first such tie |
| `CauchyPoint.PathSearch.DescendsOn` | src/appl/lbfgsb.c:1697-1704 | a breakpoint is passed only if the model does not rise before it, and not at a tie with some of its variables stopped |
| `CauchyPoint.PathSearch.NextRound` | src/appl/lbfgsb.c:1662-1717 | one round: the search stops as it should, or a breakpoint is passed |
| `CauchyPoint.PathSearch.Walk` | src/appl/lbfgsb.c:1662-1770 | the loop stops at a stationary point before the next breakpoint, or when all are passed; the derivatives it decides by are those of the model along the path |
| `CauchyPoint.PathSearch.Cauchy` | src/appl/lbfgsb.c:1305-1801 | the result is a point of the projected path, hence within the box, and iwhere reports a variable as fixed only at that bound; it searches exactly if some variable moves; c is left as W'(xcp - x); for a definite model whose curvature is never raised, xcp is the first point from which the model rises along the path if and only if there is no tie at which the search ends short, and otherwise the first such tie |
| `CauchyPoint.Active` | src/appl/lbfgsb.c:1073-1168 | x becomes the nearest point of the box, with the flags that say whether it moved |
| `TiedSearch.TiedIsShort` | src/appl/lbfgsb.c:1688-1761 | two breakpoints at 1: the model rises from there with the first variable stopped and falls with both |
| `TiedSearch.TieStopsEarly` | src/appl/lbfgsb.c:1688-1761 | for this definite model the search can only end at 1, from where the model falls on |
| `TiedSearch.TiedNeverFlat` | src/appl/lbfgsb.c:1758-1758 | no curvature of this model is raised, and its first direction is not zero |
| `TiedSearch.TiedRun` | src/appl/lbfgsb.c:1305-1801 | cauchy run on this input ends at s = 1 with xcp = (1, 1, 1), though the model falls on from there |
| `SubspaceStep.LimitIsExact` | src/appl/lbfgsb.c:3134-3149 | a fraction of the step keeps a variable within its bounds if and only if it does not exceed this limit |
| `SubspaceStep.LargestStep` | src/appl/lbfgsb.c:3129-3156 | the loop finds the largest fraction that all variables allow and one that blocks |
| `SubspaceStep.Backtrack` | src/appl/lbfgsb.c:3128-3171 | alpha is the largest fraction in [0,1] for which every free variable stays within its bounds; all of them do, and iword = 1 exactly if the step was cut |
| `Matrices.RankOneApplies` | src/appl/uncmin.c:375-435 | (a + u w')x = a x + (w'x) u |
| `Matrices.GramApplies` | src/appl/uncmin.c:1341-1343 | equal products of columns give equal products a'(a x) |
| `QrUpdate.TurnKeepsDot` | src/appl/uncmin.c:353-373 | turning two entries of two vectors alike keeps their product |
| `QrUpdate.TurnKeepsGram` | src/appl/uncmin.c:353-373 | turning two rows keeps r'r |
| `QrUpdate.RotationIsOrthogonal` | src/appl/uncmin.c:357-359 | the rotation is orthogonal and turns its pair into (hypot, 0) |
| `QrUpdate.Qraux1` | src/appl/uncmin.c:316-338 | exactly rows i and i+1 are exchanged, from column i on |
| `QrUpdate.Qraux2` | src/appl/uncmin.c:340-373 | exactly rows i and i+1 are rotated, from column i on |
| `QrUpdate.FoldUp` | src/appl/uncmin.c:405-415 | one step of the first pass, exchange or rotation, keeps r'r and one more subdiagonal at most |
| `QrUpdate.FirstPass` | src/appl/uncmin.c:394-416 | r + u v' becomes an upper Hessenberg matrix plus a change of the first row |
| `QrUpdate.AddToFirstRow` | src/appl/uncmin.c:418-421 | adding to the first row is adding the rank-one matrix |
| `QrUpdate.SecondPass` | src/appl/uncmin.c:423-434 | the Hessenberg matrix becomes triangular, zero pivots included |
| `QrUpdate.Qrupdt` | src/appl/uncmin.c:375-435 | R* is upper triangular with R*'R* = (R + u v')'(R + u v') |
| `Bfgs.CloseToEither` | src/appl/uncmin.c:1300-1317 | the update is left out exactly if everywhere y differs from the prediction by less than the tolerance times one gradient or times the other |
| `Bfgs.Rescaled` | src/appl/uncmin.c:1286-1299 | rescaling the Hessian before the first update makes s'Hs equal to s'y |
| `Bfgs.Secant` | src/appl/uncmin.c:1319-1343 | the updated Hessian takes the step to the change of the gradient |
| `Bfgs.NextIsSecant` | src/appl/uncmin.c:1276-1343 | so does the Hessian after every update that is carried out, rescaled before or not |
| `Secfac.GramTimes` | src/appl/uncmin.c:1283-1302 | ll's is l applied to l's |
| `Secfac.FactorUpdate` | src/appl/uncmin.c:1319-1343 | (l' + u w') has the products of the BFGS update of ll' |
| `Secfac.Mvmltl` | src/appl/uncmin.c:125-151 | the product with the lower triangle |
| `Secfac.Mvmltu` | src/appl/uncmin.c:153-174 | the product with its transpose |
| `Secfac.Raise` | src/appl/uncmin.c:1332-1339 | l becomes l' in the upper triangle, with zeros below |
| `Secfac.CopyBack` | src/appl/uncmin.c:1345-1351 | and back |
| `Secfac.FirstRescaling` | src/appl/uncmin.c:1286-1299 | factor, l's and the two scalars before the first update |
| `Secfac.Transform` | src/appl/uncmin.c:1319-1351 | the new factor l+ satisfies l+ l+' = BFGS(ll') |
| `Secfac.Secfac` | src/appl/uncmin.c:1234-1352 | skipped, in agreement, undefined or updated as the tests say; the factor left in a is that of the specified Hessian, and after an update l+ l+'(xpls-x) = gpls-g |
| `Secfac.NoCurvature` | src/appl/uncmin.c:1276-1288 | a step that passes the curvature test divides by zero in y's if and only if the step is zero or the gradient has not changed |
| `Secfac.FactorIsRegular` | src/appl/uncmin.c:1283-1288 | the factor is regular, as demanded below, if and only if no diagonal entry of the array is zero |
| `Secfac.RegularFactor` | src/appl/uncmin.c:1283-1288 | for a factor without a zero on its diagonal s'll's is zero if and only if s is |
| `Secfac.UndefinedExactly` | src/appl/uncmin.c:1276-1317 | with such a factor the update divides by zero if and only if the step is zero and it is the first, or the step is zero or the gradient unchanged and some entry of the new gradient is not close to the prediction |
| `Secfac.SingularHessian` | src/appl/uncmin.c:1276-1317 | with a Hessian that takes the step to zero the update divides by zero if and only if the curvature test is passed and it is the first or the gradient has changed by the tolerance somewhere |
| `Secfac.FirstStepWithoutChange` | src/appl/uncmin.c:1288-1317 | if the first step changes no gradient, the Hessian is rescaled to the zero matrix and kept |
| `Secunf.CopyDown` | src/appl/uncmin.c:1178-1184 | the symmetric matrix moves from the upper triangle to the lower one |
| `Secunf.Mvmlts` | src/appl/uncmin.c:177-207 | the product with a symmetric matrix stored in its lower triangle |
| `Secunf.AddUpdate` | src/appl/uncmin.c:1226-1231 | the loops add exactly the BFGS terms |
| `Secunf.Secunf` | src/appl/uncmin.c:1140-1232 | takes the same decision and leaves the same Hessian as the factored routine, both being tied to one specification; after an update it takes xpls-x to gpls-g |
| `Parabola.FormulasOf` | src/appl/fmin.c:112-115 | for the parabola through the three points, p is a multiple of its slope at x and q of its second coefficient, with the same factor |
| `Parabola.StepToVertex` | src/appl/fmin.c:112-116 | s leads from x to the vertex of the parabola through three different points if and only if q is not zero and q s = -p |
| `BrentMin.FitParabola` | src/appl/fmin.c:107-118 | after the change of signs p / q, for q > 0, is the step to the vertex, and there is none if q = 0 |
| `BrentMin.TestOfStep` | src/appl/fmin.c:121-122 | the test on products is that on the step p / q itself: less than half the step before last, and strictly inside the bracket |
| `BrentMin.ChooseStep` | src/appl/fmin.c:121-138 | the parabolic step is taken exactly if it passes that test, kept from the ends; otherwise it is the golden part of the longer side |
| `BrentMin.NextPoint` | src/appl/fmin.c:107-147 | the next point is the vertex of the parabola through the last three points if that step is acceptable, and otherwise the golden point of the longer side; it keeps its distance from the best point and from both ends |
| `BrentMin.StepKeeps` | src/appl/fmin.c:151-165 | one evaluation keeps all invariants and shortens the bracket by at least tol/3 |
| `BrentMin.StepBrackets` | src/appl/fmin.c:151-165 | the bracket keeps the minimiser of a strictly unimodal function |
| `BrentMin.UpdateState` | src/appl/fmin.c:151-165 | the assignments to the six variables are the specified update |
| `BrentMin.StillRemembered` | src/appl/fmin.c:151-165 | x, w and v are the best, the second and the third best of all points evaluated, and the ends of the bracket are points evaluated or the given ends |
| `BrentMin.Continues` | src/appl/fmin.c:99-106 | if the stopping test fails, one side is long enough for a step |
| `BrentMin.Ends` | src/appl/fmin.c:99-106 | if it holds, the error bound follows |
| `BrentMin.Step` | src/appl/fmin.c:99-165 | one pass: the point evaluated is the chosen one, and the best points stay remembered |
| `BrentMin.BrentFmin` | src/appl/fmin.c:69-170 | in every pass the point evaluated is the vertex of the parabola through the three best points so far, or the golden point, as the step before last decides; f is evaluated only strictly inside (ax, bx), points keep apart, the search ends as soon as its test holds, and for a strictly unimodal f the result is within the stopping tolerance of the minimiser |
| `Signals.DeliveredTwice` | src/gnuwin32/psignal.c:369-379 | two runs of deliveries compose: each signal is still delivered once |
| `Signals.PendingFalls` | src/gnuwin32/psignal.c:61-132 | deliveries take signals from the pending ones and add none |
| `Signals.Process.Raise` | src/gnuwin32/psignal.c:61-132 | a masked signal becomes pending; any other one is delivered now, followed only by pending ones, each once, also if a default action ends the run by leaving the process |
| `Signals.Process.OneDelivered` | src/gnuwin32/psignal.c:61-132 | what a single delivery does: the handler, with its mask and its own signal blocked, or the default action; the settings stay as they are, but a handler under SA_RESETHAND gives way to the default action |
| `Signals.Process.RunHandler` | src/gnuwin32/psignal.c:93-128 | a delivery to a handler: it comes first, is followed only by pending signals, and the old mask is put back; alone if its mask has no pending signal in it |
| `Signals.Process.ReleaseOne` | src/gnuwin32/psignal.c:372-378 | one pending signal is delivered and what its handler sets free, nothing twice |
| `Signals.Process.Sigprocmask` | src/gnuwin32/psignal.c:332-382 | the loop delivers every pending signal that the change unmasks, each exactly once even through nested restores, the least one first, and in ascending order if no handler mask has a pending signal in it; blocked and freed are exactly the signals of the set; errors change nothing |
| `Signals.Process.Sigaction` | src/gnuwin32/psignal.c:188-231 | new settings clear the pending count of that signal and nothing else; the previous ones are returned |
| `Signals.Process.Signal` | src/gnuwin32/psignal.c:234-252 | the same for signal, with SIG_ERR for a bad number |
| `Signals.Process.Sigpending` | src/gnuwin32/psignal.c:310-329 | the signals with a positive count, all masked when the process is at rest |
| `Signals.Process.RaiseAtRest` | src/gnuwin32/psignal.c:61-132 | between calls only masked signals are pending; raising keeps that; a masked signal counts one more, and any other is delivered alone, with its settings left as they should be |
| `Signals.Process.SigprocmaskAtRest` | src/gnuwin32/psignal.c:332-382 | from rest to rest: delivered are exactly the old pending signals outside the new mask, the least one first |
| `Signals.Process.RaiseTwice` | src/gnuwin32/psignal.c:61-132 | two signals with a handler call it twice exactly if the reset flag is off; with it the second one finds the default action |
| `Signals.Process.SignalAndRaise` | src/gnuwin32/psignal.c:61-252 | a handler set by signal stays: two signals call it twice |
| `Signals.Process.BlockRaiseUnblock` | src/gnuwin32/psignal.c:61-382 | however often a signal is raised while it is blocked, it is pending once and delivered once when it is set free |
| `Polynomials.Quotient` | src/appl/cpoly.c:538-560 | P(z) = (z - s) Q(z) + P(s), with the partial sums as coefficients of Q |
| `Polynomials.NextH` | src/appl/cpoly.c:506-523 | (z - s) H+(z) = P(z) + t H(z) for all z |
| `Polynomials.ShiftedH` | src/appl/cpoly.c:524-533 | (z - s) H+(z) = H(z) - H(s) when h(s) is taken for zero |
| `Polynomials.DeflateOnce` | src/appl/cpoly.c:229-237 | one more zero: P is linear factors, remainders and a shorter quotient |
| `Polynomials.FactorsMakeUp` | src/appl/cpoly.c:182-243 | without remainders the linear factors and the leading coefficient make up P |
| `Cpoly.Cdivid` | src/appl/cpoly.c:687-711 | the quotient by a nonzero divisor, in both branches of Smith's method |
| `Cpoly.Polyev` | src/appl/cpoly.c:538-560 | the value and all partial sums |
| `Cpoly.Iteration.Calct` | src/appl/cpoly.c:484-504 | t h(s) = -p(s), unless h(s) is taken for zero |
| `Cpoly.Iteration.Nexth` | src/appl/cpoly.c:506-534 | the new h satisfies the identity above for every z |
| `Cpoly.ConstantTerm` | src/appl/cpoly.c:264-265 | the last coefficient is H(0), so the test is one on H(0): its modulus against ten eta times that of the second last coefficient of P |
| `Cpoly.Iteration.NoShiftStep` | src/appl/cpoly.c:262-289 | the in-place step is the case s = 0, though it overwrites the coefficients it reads: z H+ = P + t H with t H(0) = -P(0), and only if H(0) is taken for zero z H+ = H - H(0) |
| `Cpoly.Iteration.Noshft` | src/appl/cpoly.c:250-290 | the derivative over the degree, then l1 such steps, each of them of the kind that its H(0) demands |
| `Cpoly.RootFinder.RemoveOrigin` | src/appl/cpoly.c:145-153 | exactly the zeros at the origin are split off; the last coefficient that remains is not zero |
| `Cpoly.RootFinder.Deflate` | src/appl/cpoly.c:229-237 | stores a zero and replaces p by its quotient, with remainder P(s) |
| `Cpoly.RootFinder.FindZeros` | src/appl/cpoly.c:182-237 | each zero is the one that the search finds for the quotient left by those before; it fails exactly for the first quotient for which the search does |
| `Cpoly.RootFinder.Cpolyroot` | src/appl/cpoly.c:117-244 | it fails if and only if the leading coefficient is zero or the search fails for one of the successive quotients; on success the scaled polynomial is made up of the linear factors of all zeros found and the remainders left when each was divided out |
| `GlobPattern.TwoStars` | src/gnuwin32/dos_wglob.c:491-498 | two stars in a row stand for the same names as one |
| `GlobPattern.CollapseKeepsMeaning` | src/gnuwin32/dos_wglob.c:491-498 | collapsing stars changes no pattern's meaning, whatever follows |
| `GlobPattern.MatchItems` | src/gnuwin32/dos_wglob.c:821-832 | the scan of a set finds its end and whether one of its items fits; when case counts, whether the character is one of those from the first to the last of some item |
| `GlobPattern.MatchOne` | src/gnuwin32/dos_wglob.c:811-840 | one code against one character |
| `GlobPattern.MatchStar` | src/gnuwin32/dos_wglob.c:802-810 | a star matches if some suffix of the name does |
| `GlobPattern.Match` | src/gnuwin32/dos_wglob.c:794-844 | matching the compiled codes agrees with the meaning of the pattern |
| `GlobCompile.CompileItem` | src/gnuwin32/dos_wglob.c:474-482 | one item of a set, range or single character |
| `GlobCompile.CompileBracket` | src/gnuwin32/dos_wglob.c:460-486 | a bracket opens a set only if one closes it; otherwise it is a character |
| `GlobCompile.CompileNext` | src/gnuwin32/dos_wglob.c:457-503 | one round of the loop compiles one token |
| `GlobCompile.Compile` | src/gnuwin32/dos_wglob.c:444-504 | the codes are those of the pattern with its stars collapsed, even if both buffers are the same, and never more is written than was read |
| `GlobCompile.CompileAndMatch` | src/gnuwin32/dos_wglob.c:444-504 | compiling and matching together decide the declarative meaning of the pattern, for which GlobLaws gives the laws |
| `GlobCompile.MatchesItself` | src/gnuwin32/dos_wglob.c:474-500 | a text without special characters matches itself, from any place on, if and only if no character is told from its low 14 bits |
| `GlobCompile.MatchesItselfBelow` | src/gnuwin32/dos_wglob.c:474-500 | when case counts, that is if and only if all characters lie below 0x4000 |
| `GlobCompile.WideCharacter` | src/gnuwin32/dos_wglob.c:474-500 | the character 0x4E2D as a pattern does not match itself |
| `GlobLaws.ParseOfSum` | src/gnuwin32/dos_wglob.c:457-504 | a text whose brackets are all closed is read the same, whatever follows |
| `GlobLaws.Concatenation` | src/gnuwin32/dos_wglob.c:444-504 | it stands, with another behind it, for the names of the first followed by names of the second |
| `GlobLaws.EmptyText` | src/gnuwin32/dos_wglob.c:841-844 | the empty text stands for the empty name |
| `GlobLaws.QuestionMark` | src/gnuwin32/dos_wglob.c:811-814 | a question mark stands for exactly the names of length one |
| `GlobLaws.StarAlone` | src/gnuwin32/dos_wglob.c:802-810 | a star stands for every name |
| `GlobLaws.OtherCharacter` | src/gnuwin32/dos_wglob.c:499-501 | any other character stands for its low 14 bits |
| `GlobLaws.SetOfOne` | src/gnuwin32/dos_wglob.c:474-482 | a set of one character stands for what the character stands for elsewhere |
| `GlobLaws.RangeOfCharacters` | src/gnuwin32/dos_wglob.c:478-482 | when case counts, [lo-hi] stands for exactly the characters from lo to hi, both of them included |
| `GlobLaws.RangeWithoutCase` | src/gnuwin32/dos_wglob.c:824-827 | when case does not count, for those whose lower case form lies between the lower case forms of lo and hi |
| `GlobLaws.RangeHasItsEnds` | src/gnuwin32/dos_wglob.c:824-827 | such a range has its own ends if and only if their lower case forms are in order |
| `GlobLaws.RangeFromZ` | src/gnuwin32/dos_wglob.c:824-827 | [Z-a] has Z when case counts and stands for nothing when it does not |
| `GlobLaws.Union` | src/gnuwin32/dos_wglob.c:474-483 | a set of two parts stands for what one or the other stands for |
| `GlobLaws.Negation` | src/gnuwin32/dos_wglob.c:472-473 | [!...] stands for exactly the names of length one that [...] does not stand for |
| `GlobLaws.NotOfOne` | src/gnuwin32/dos_wglob.c:472-473 | [!c] stands for the other characters, c being possibly the exclamation mark itself |
| `GlobLaws.Intersection` | src/gnuwin32/dos_wglob.c:472-483 | [!...] of two parts stands for what both stand for |
| `GlobLaws.OpenBracket` | src/gnuwin32/dos_wglob.c:460-470 | a bracket that is not closed stands for itself |
| `GlobLaws.CaseIsIgnored` | src/gnuwin32/dos_wglob.c:824-839 | when case does not count, names with the same lower case forms are treated alike |
| `BraceExpansion.CloseSkips` | src/gnuwin32/dos_wglob.c:295-315 | the scan for the closing brace passes over every balanced pattern |
| `BraceExpansion.SegmentsAreAlts` | src/gnuwin32/dos_wglob.c:323-378 | splitting at the commas of depth zero finds the alternatives in order |
| `BraceExpansion.BracesFall` | src/gnuwin32/dos_wglob.c:261-276 | replacing a brace by one of its alternatives lowers the number of braces: what makes the recursion end |
| `BraceExpansion.ExpansionsOfJoin` | src/gnuwin32/dos_wglob.c:262-383 | the expansions of two patterns in a row are all products, the first varying slowest |
| `BraceExpansion.HandedIsExpansions` | src/gnuwin32/dos_wglob.c:262-383 | if no {} is left over, the texts handed to glob0 are the expansions of the C shell, in order |
| `BraceExpansion.BracesAreHanded` | src/gnuwin32/dos_wglob.c:268-269 | if one is, the text {} itself is handed on |
| `BraceExpansion.HandedIsCshExactly` | src/gnuwin32/dos_wglob.c:262-383 | so the code agrees with the C shell if and only if the pattern is {} itself or leaves no {} over |
| `BraceExpansion.NestedEmptyBraces` | src/gnuwin32/dos_wglob.c:268-269 | the pattern {{}} shows the difference |
| `BraceExpansion.FindBalanced` | src/gnuwin32/dos_wglob.c:294-315 | the index of the matching brace |
| `BraceExpansion.Globexp1` | src/gnuwin32/dos_wglob.c:262-276 | hands on exactly the specified texts |
| `BraceExpansion.Globexp2` | src/gnuwin32/dos_wglob.c:284-383 | the same for a pattern with a brace; the buffer never overflows if the pattern fits |
| `ConsoleBuffer.WriteRetains` | src/gnuwin32/console.c:213-242 | a character written to log and window keeps the window an end of the log |
| `ConsoleBuffer.RoomIsLeast` | src/gnuwin32/console.c:201-209 | no more lines go than the first number of shifts that makes room |
| `ConsoleBuffer.BufferedRetains` | src/gnuwin32/console.c:244-253 | over any text the window shows the last lines of the log, only the first of which may be cut |
| `ConsoleBuffer.FreeIsUsed` | src/gnuwin32/console.c:101-136 | the lines and the terminators between them take exactly the places before the first free one, so that av counts the rest |
| `ConsoleBuffer.XBuf.constructor` | src/gnuwin32/console.c:101-136 | an empty buffer shows one empty line |
| `ConsoleBuffer.XBuf.Shift` | src/gnuwin32/console.c:175-199 | drops the first lines in place; afterwards the current line is terminated if and only if some room was left or its new end held a zero before |
| `ConsoleBuffer.XBuf.MakeRoom` | src/gnuwin32/console.c:201-209 | reserves room, dropping lines as long as it has to, or refuses and changes nothing |
| `ConsoleBuffer.XBuf.Back` | src/gnuwin32/console.c:220-225 | backspace takes the last character of the current line, if there is one |
| `ConsoleBuffer.XBuf.AddChar` | src/gnuwin32/console.c:213-242 | one character, tabs aside |
| `ConsoleBuffer.XBuf.AddString` | src/gnuwin32/console.c:244-253 | a string: the buffer holds exactly the window of the specification |
| `ConsoleBuffer.XBuf.FixLast` | src/gnuwin32/console.c:296-304 | counts again after the line has been edited in place |
| `ConsoleBuffer.XBuf.Clear` | src/gnuwin32/console.c:2261-2273 | drops all lines but the current one, which is terminated afterwards if and only if some room was left, or it was the only line, or the place of its new end held a zero before |
| `ConsoleBuffer.ClearedWithoutEnd` | src/gnuwin32/console.c:2261-2273 | a full buffer of three places, cleared, shows bb without an end |

## Left out

- Rounding, overflow to infinity and NaN: all arithmetic on doubles is exact.
- The butterflies and trigonometric recurrences of `fftmx`.
- FftFinish.Finish: leaves out the swap stage for the square factors, between the block sizes and the last stage; the data are those after it.
- FftRotate.UnscrambleSquareFree: models an index increment of one, and the real and imaginary arrays, which move in lock step, as one array of elements.
- Rcont2.Rcont2: takes factorials as exact numbers instead of a table of their logarithms; the truncation of products to `int`, the error for an underflow of exp and drawing again have no counterpart in exact arithmetic.
- Gauss-Kronrod weights, the epsilon algorithm `rdqelg` (any sequence of results is allowed), and the variant `rdqagie`, which repeats the same bisection.
- ErrorList.Rdqpsrt: demands that the changed error is not smaller than the new one and that nrmax lies within the list, as the driver ensures.
- Matrices of the originals are column-major stretches of one array; here they are two-dimensional arrays.
- `bmv`, `formt`, the Cholesky and triangular solves and the line search of L-BFGS-B; in `cauchy` the product with the middle matrix is that with any symmetric one, and which solve fails and what a division by zero gives are arbitrary.
- CauchyPoint.PathSearch.Cauchy: says where the search ends only for a definite model of which no curvature is so small that `cauchy` raises it; of what it returns without searching it says nothing about c.
- RestrictedProducts.Subspace.Formk: ends where wn1 is complete; the assembly of wn and its factorisation are left out.
- CacheDriver.Driver.Run: what `cauchy` leaves in iwhere, which routine fails, and the gradients and steps of the line search are arbitrary inputs; after a call is left out on a matrix that is already wrong for some of the oldest pairs, nothing says whether it has by chance become right for some of these.
- `choldc`, `chlhsn`, `lnsrch` and the trust-region routines of `uncmin.c`.
- BrentMin.BrentFmin: bounds the error for strictly unimodal functions only, as the algorithm does; for other functions it promises the safeguards, the least value among the points tried, and termination.
- Signal handlers that call back into this module or jump out, the start-up of the module, `pause` and `sigsuspend`, and the width of `sigset_t`: sets of signal numbers stand for its bits.
- Cpoly.RootFinder.Cpolyroot: the search for each zero and the scale factor are arbitrary functions; stages two and three, `errev`, `cpoly_cauchy` and `cpoly_scale` are left out.
- Cpoly.Cdivid: leaves out the infinite result for a zero divisor, which the callers modelled here never ask for.
- Directory access, tilde expansion, quoting, sorting and the final list of paths of `dos_wglob`; patterns with a character whose low 14 bits are all zero.
- BraceExpansion.Globexp1: covers patterns with balanced braces and no bracket; globexp2 has other paths for these.
- ConsoleBuffer.XBuf.AddChar: leaves out tabs, whose padding depends on the display width of the current line.
- ConsoleBuffer.XBuf.MakeRoom: assumes that no earlier reservation is open; the column kept beside each line (`user`), `xbufgrow` and failing allocations are left out.
- Windows, menus, the clipboard, the registry, pipes, drawing, and the simple loops and floating-point utilities of `src/appl`, which would only add easy members.
