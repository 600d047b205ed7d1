# Parallel Gaussian elimination (gaussianpar.c), modelled in Dafny

`gaussianpar.c` reduces an N x N system `A x = b` to unit upper-triangular
form. T workers share the global arrays `A`, `b` and `y`. For each pivot
step k, the workers:

- divide row k to the right of the diagonal by the pivot;
- let worker 0 capture `y[k] = b[k] / A[k][k]`;
- wait at a barrier;
- let worker 0 set the pivot to 1.0;
- subtract a multiple of row k from every row below it, updating `b` and
  zeroing column k;
- wait at a second barrier.

Inside each phase, worker `tid` handles the indices
`k + 1 + tid, k + 1 + tid + T, ...`.

The model has six modules:

- `Stride` covers the strided split. The slices of the T workers are
  disjoint and together cover every index at or after `k + 1`. Each
  index belongs to its round-robin owner `(c - k - 1) % T`.
- `Pool` covers worker identities. A *schedule* is an order in which
  workers 0 .. T-1 each run once. `SpawnOrder` is the order in which
  `work` hands the identities out.
- `GaussSpec` is the value-level meaning of the engine. A `State` holds
  A, b and y. `Divided`, `Eliminated` and `Pivoted` are the phases of one
  step, and `Reduced` is the whole run. The lemmas cover:
  - division and pivot capture;
  - the cleared column;
  - the elimination formula;
  - the frame of a step;
  - the unit upper-triangular result;
  - the run on an already-reduced matrix;
  - the N = 1 case.
- `Engine` is the imperative engine. `A` is an `array2<real>`, and `b` and
  `y` are `array<real>`. Each worker's share of a phase is a method. Each
  barrier-delimited phase runs all T workers one after the other, in an
  arbitrary schedule. Every phase is proved equal to its `GaussSpec`
  counterpart, and that counterpart mentions neither T nor the schedule.
  So the final A, b and y are the same for every worker count and every
  order of the workers within a phase.
- `FastInit` covers the "fast" initialiser: 5.0 on the diagonal, 2.0
  elsewhere, `b` all 2.0 and `y` all 1.0. It proves that no pivot met
  from that start is ever zero, for any N. So the engine runs on it
  unconditionally. `Init_Matrix` in gaussianpar.c comments this fill
  as "diagonal dominance" (gaussianpar.c:152), but 5 > 2·(N−1) holds
  only for N ≤ 3. What keeps the
  pivots nonzero is that each step leaves a trailing block of the same
  form: d on the diagonal, e off it, 0 < e < d.
- `Solutions` says what the result means. x solves A x = b exactly when
  it solves A' x = y, the unit upper-triangular system the run leaves
  behind. Back-substitution on (A', y) therefore yields the solutions of
  the original system. Each pivot step is a row operation that keeps the
  solution set: row k is divided by the pivot, and every row below loses
  a multiple of it.

`Scenarios` holds a worked 2 x 2 run, computed exactly.

Values are exact reals, and a zero pivot is a precondition violation.

## Model

| member | source | states |
|---|---|---|
| Stride.SliceIsOwner | gaussianpar.c:69 | Index c ≥ k+1 is visited by worker tid's loop `j = k+1+tid; j += T` exactly when tid is its round-robin owner (c-k-1) mod T |
| Stride.SlicesDisjoint | gaussianpar.c:80 | Two different workers never visit the same row (or column) in one phase |
| Stride.SlicesCover | gaussianpar.c:80 | Every index at or after k+1 is visited by some worker, namely its owner |
| Stride.SliceAdvance | gaussianpar.c:69 | One iteration of the strided loop moves from a visited index to the next one in the slice, skipping nothing in it |
| Pool.SpawnOrder | gaussianpar.c:105-110 | The identities `work` hands out (1 .. T-1 to created workers, then 0 to the caller) form a schedule: each of 0 .. T-1 exactly once, ending with 0 |
| GaussSpec.PivotRowDivided | gaussianpar.c:69-78 | After step k, A[k][j] = old A[k][j] / old A[k][k] for j > k, y[k] = b[k] / old A[k][k] (the pivot before it is overwritten), and A[k][k] = 1.0 |
| GaussSpec.PivotColumnCleared | gaussianpar.c:86 | After step k, A[i][k] = 0.0 for every row i below the pivot |
| GaussSpec.PivotEliminates | gaussianpar.c:80-87 | For i, j > k, A[i][j] = old A[i][j] − m_i · (old A[k][j] / pivot) and b[i] = old b[i] − m_i · (b[k] / pivot), with m_i the value of A[i][k] before it is zeroed |
| GaussSpec.PivotFrame | gaussianpar.c:67-90 | Step k leaves rows < k, columns < k, b[0..k] and every y[j] with j ≠ k unchanged |
| GaussSpec.PivotExtendsUnitUpper | gaussianpar.c:77-87 | If columns 0 .. k-1 are already unit upper-triangular, step k makes columns 0 .. k so |
| GaussSpec.ReducedUnitUpperFrom | gaussianpar.c:67-90 | Running steps k .. N-1 from a state whose first k columns are unit upper-triangular leaves A unit upper-triangular (induction over k) |
| GaussSpec.ReducedUnitUpper | gaussianpar.c:67-90 | After all N pivot steps, the diagonal of A is 1.0 and every entry below it is 0.0 |
| GaussSpec.ReducedOverwritesY | gaussianpar.c:72-73 | The initial y[k ..] is irrelevant: y[k] is written in step k before any read, so two states differing only there reach the same result |
| GaussSpec.PivotOnUnitUpper | gaussianpar.c:67-90 | On a unit upper-triangular A, step k changes only y[k], which becomes b[k] |
| GaussSpec.ReducedFixesUnitUpper | gaussianpar.c:67-90 | Running the engine again on its own output leaves A and b unchanged and sets y[k ..] to b[k ..] (no pivot is zero there) |
| GaussSpec.ReducedSingle | gaussianpar.c:67-90 | For N = 1 the run sets y[0] = b[0] / A[0][0] and A[0][0] = 1.0 and leaves b alone; nothing is eliminated |
| GaussSpec.PivotSingle | gaussianpar.c:67-90 | The single pivot step of an N = 1 run: only y[0] is captured and the pivot becomes 1.0 |
| Engine.DivisionWorker | gaussianpar.c:69-73 | Worker tid divides exactly the columns of its slice of row k by the old pivot; worker 0 also sets y[k] = b[k] / pivot; nothing else changes (an empty slice changes nothing); its loop counter never exceeds INT_MAX |
| Engine.EliminateRow | gaussianpar.c:82-86 | Row i's entries right of column k lose A[i][k] · A[k][j], b[i] loses A[i][k] · y[k], A[i][k] becomes 0.0, all with the multiplier read before the row was touched; no other entry changes |
| Engine.EliminateRowAsSpecified | gaussianpar.c:80-87 | A row that still holds the phase's starting state becomes exactly the corresponding row of the elimination phase's result |
| Engine.EliminateSlice | gaussianpar.c:80-87 | Worker tid's strided row loop turns exactly the rows of its slice into the elimination phase's rows, and leaves all other rows and b entries alone; its loop counter never exceeds INT_MAX |
| Engine.EliminationWorker | gaussianpar.c:77-87 | Worker tid's share of the elimination phase: worker 0 sets the pivot to 1.0, and the rows below it that tid owns become the specified rows; nothing else changes |
| Engine.DivisionPhase | gaussianpar.c:69-75 | All T workers' division shares, in any schedule, produce exactly the specified division phase (independent of T and order) |
| Engine.EliminationPhase | gaussianpar.c:77-89 | All T workers' elimination shares, in any schedule, produce exactly the specified elimination phase (independent of T and order) |
| Engine.PivotStep | gaussianpar.c:67-90 | One iteration of the outer loop, both phases with their barriers, produces the specified pivot step |
| Engine.WorkScheduled | gaussianpar.c:67-90 | The whole run, with arbitrary per-phase schedules, leaves A, b and y equal to the specified reduction, and A unit upper-triangular |
| Engine.Work | gaussianpar.c:95-122 | `work` with T workers in the order it spawns them computes the specified reduction and leaves A unit upper-triangular, for 1 ≤ T ≤ INT_MAX − 4096 |
| Engine.WorkerCountIrrelevant | gaussianpar.c:105-110 | Two runs on equal inputs with any worker counts T1, T2 ≥ 1 end with equal A, b and y |
| FastInit.InitFast | gaussianpar.c:146-165 | A[i][i] = 5.0, A[i][j] = 2.0 for i ≠ j, b[i] = 2.0 and y[i] = 1.0 for all i < N |
| FastInit.UniformStep | gaussianpar.c:67-90 | A pivot step on a block with d on the diagonal and e off it (0 < e < d) has a nonzero pivot and leaves a block of the same shape with values d − e²/d and e − e²/d, still 0 < e' < d' |
| FastInit.UniformPivotsNonzero | gaussianpar.c:67-90 | From such a block, no pivot met in the remaining steps is zero (induction over k) |
| FastInit.FastPivotsNonzero | gaussianpar.c:146-158 | The fast initial matrix never presents a zero pivot, for any N |
| FastInit.FastRun | gaussianpar.c:146-165 | Fast initialisation followed by `work` runs with nonzero pivots throughout and leaves A unit upper-triangular, for any worker count |
| Solutions.RowOpsKeepEquations | gaussianpar.c:67-90 | On left-hand sides l = A x: keeping rows < k, dividing row k and its right-hand side by a nonzero pivot, and taking m_i times the divided row from each row i > k keeps exactly the same equations satisfied (both directions) |
| Solutions.DotMinus | gaussianpar.c:83 | (u − c·v)·x = u·x − c·(v·x): the row update of the elimination step, read on dot products (induction over the row) |
| Solutions.DotOver | gaussianpar.c:70 | (v / p)·x times p is v·x: the division step, read on dot products (induction over the row) |
| Solutions.PivotRowScaled | gaussianpar.c:69-78 | After step k, row k is the old row k divided by the pivot in every column (columns before k already 0.0), and y[k] times the pivot is b[k] |
| Solutions.PivotRowReduced | gaussianpar.c:80-87 | After step k, each row i > k is the old row minus A[i][k] times the new row k, in every column |
| Solutions.PivotReducesB | gaussianpar.c:85 | After step k, b[i] = old b[i] − A[i][k] · y[k] for every i > k |
| Solutions.PivotApplyBelow | gaussianpar.c:69-87 | On A x: the new row k times the pivot gives the old row k, and each row i > k loses A[i][k] times the new row k |
| Solutions.PivotApplyAbove | gaussianpar.c:67-90 | Step k leaves A x and y unchanged in the rows before k |
| Solutions.PivotStepRelated | gaussianpar.c:67-90 | Pivot step k is such a row operation (StepRelated) |
| Solutions.StepKeepsSolutions | gaussianpar.c:67-90 | Any state related to s by the row operation of step k has exactly the solutions s has |
| Solutions.PivotKeepsSolutions | gaussianpar.c:67-90 | If the first k columns are unit upper-triangular, x solves the system before step k exactly when it solves it after step k |
| Solutions.ReducedKeepsSolutionsFrom | gaussianpar.c:67-90 | Steps k .. N−1 together keep the solution set (induction over k) |
| Solutions.ReducedKeepsSolutions | gaussianpar.c:67-90 | For every x: A x = b holds for the input exactly when A' x = y holds for the output of the whole run |
| Solutions.SolvedByEnds | gaussianpar.c:67-90 | Before step 0 every equation's right-hand side is b[i]; after step N it is y[i] |
| Scenarios.TwoByTwo | gaussianpar.c:67-90 | A = [[2,1],[1,3]], b = [3,4] reduces to A = [[1,0.5],[0,1]], b = [3,2.5], y = [1.5,1] |

## Left out

- Threads and barriers (gaussianpar.c:75, :89, :99-121). The workers of
  a phase run one after the other, in any schedule. Each worker reads
  and writes its own entries. Apart from those, every read in a phase is
  of data that no other worker of that phase writes. The worker
  contracts and the phase loop invariants carry this argument, through
  the round-robin owner of each index (`Stride.SliceIsOwner`, which
  `Stride.SlicesDisjoint` and `Stride.SlicesCover` restate as
  disjointness and coverage). So every interleaving of whole worker
  shares gives the same result. Finer interleavings within a phase are
  not modelled.
- IEEE doubles. Values are exact `real`s, so rounding, NaN and infinity
  from a zero pivot are not modelled. A nonzero pivot at every step
  (`GaussSpec.PivotsNonzero`) is a precondition of `Engine.Work`.
- The fixed `MAX_SIZE` buffers (gaussianpar.c:16-26). The arrays have
  exactly N rows and columns, and `N <= 4096` is a precondition.
- The "rand" initialiser (gaussianpar.c:133-145), because it calls
  `rand()`. The case where the init type is neither "rand" nor "fast"
  (A left as it was) is not modelled either.
- `main`, `Read_Options`, `Print_Matrix`, the timing with `gettimeofday`
  and all `printf` output, because they are I/O.
- `Init_Default` (gaussianpar.c:195-202). It only assigns default values
  to N, T, the init type, maxnum and the print switch. The model takes N,
  T and the initial arrays as parameters instead.
- Integer widths. `N`, `T` and the indices are unbounded integers in the
  model. `Read_Options` takes T from `atoi` without a bound
  (gaussianpar.c:221). For T > INT_MAX − N, the counters `k + 1 + tid`
  and `j += T` / `i += T` (gaussianpar.c:69, :80) overflow a C `int`,
  which is undefined behaviour. The engine's methods therefore require
  `T <= INT_MAX - 4096` (`Engine.CountersFit`), and the worker loops
  prove that their counters stay within `INT_MAX`.
