# smsp-example: single-machine total tardiness scheduler

This project models the scheduling core of smsp-example in Dafny: the Rust heuristic for single-machine scheduling with total tardiness, and the Python step that turns its answer into a schedule.

- **`src/lib.rs`**
  - `solve` zips the ids, processing times and due dates into jobs. It stable-sorts them by due date and runs the in-place decomposition `sort` from time 0. It reports the ids in the final order together with `calc_delay` of that order.
  - `sort` works on a slice whose first job starts at `start`. It takes the last job of maximal processing time. It slides that job right while exchanging it with its right neighbour strictly lowers the pair's tardiness. It fixes the job there, then recurses on the part to its left from `start` and on the part to its right from the time the fixed job completes.
  - `calc_delay` sums the clipped lateness along the order.
- **`python/solve.py`**
  - `solve_dp_problem` calls the scheduler with the table's index labels. It selects the rows in the returned order with `iloc`. It adds the columns `end_time` (a cumulative sum), `start_time` (shifted by one, filled with 0) and `delay` (`end_time - due` clipped at 0). It keys the result by `job_id`.

Module layout:

- `Jobs` (jobs.dfy): the job record, `saturating_sub` as `Tardiness`, total processing time `SumP`, and total tardiness `TotalTardiness` of jobs run back to back.
- `Decomposition` (decompose.dfy): the decomposition as functions on sequences. `Decompose(s, start)` is the order `sort` leaves. The module also proves that order's properties.
- `DueOrder` (dueorder.dfy): `sort_by_key(|x| x.due)` as a stable insertion sort, with sortedness, permutation and stability.
- `Scheduler` (scheduler.dfy): `calc_delay` as a loop, and `sort` as a recursive method on an array slice `a[lo..hi]` whose shifting loop mirrors the Rust one. Both are proved equal to their specification functions. It also holds `solve`.
- `Multisets` (multisets.dfy): permutation facts shared by the two sides.
- `DpProblem` (dpproblem.dfy): the column computations of `solve_dp_problem` as functions over sequences. `iloc` past the end and a repeated `job_id` in `to_dict(orient='index')` are modelled as errors.

`solve_dp_problem` passes `df.index` to the scheduler and uses the returned labels as `iloc` positions. The two agree only for the default index `0..n-1`, which is what `read_csv` produces in main.py. For other labels there are two outcomes:

- A label past the last position makes `iloc` raise (`DpProblem.NonPositionalIndexRaises`).
- Labels that are the positions in another order, such as a sorted table whose index was not reset, make `iloc` succeed with the wrong rows. The reported objective then differs from the sum of the returned delays (`DpProblem.LabelIndexMisreports`, listed under Findings).

The table-level guarantees are stated for the default index, and `DpProblem.SolveDpProblemByPosition` passes positions instead of labels.

## Model

| member | source | states |
|---|---|---|
| Scheduler.CalcDelay | src/lib.rs:45-53 | the loop returns the sum over positions k of the tardiness of job k completing at p_0+...+p_k (0 for no jobs) |
| Scheduler.SortRange | src/lib.rs:55-86 | sorting `a[lo..hi]` in place from `start` leaves exactly `Decompose` of the old slice there and changes nothing outside it |
| Scheduler.SlideLongest | src/lib.rs:64-79 | when the loop ends, the jobs before the longest are untouched, the jobs it passed are shifted left by one, the longest sits at `tgt_ix - 1`, and `cur_start` is `start` plus the processing time of the first `tgt_ix` jobs; `tgt_ix` is where the slide specification stops |
| Scheduler.SortSides | src/lib.rs:80-85 | the two recursive calls sort the left part from `start` and the right part from `cur_start`, leaving the fixed longest job between them |
| Scheduler.LoopStop | src/lib.rs:67-73 | when `swapped_delay >= delay` the slide specification stops at the current `tgt_ix` |
| Scheduler.LoopAdvance | src/lib.rs:67-76 | when `swapped_delay < delay` the slide continues from `tgt_ix + 1` with `cur_start` advanced by the passed job's processing time |
| Scheduler.StartAdvance | src/lib.rs:64-76 | loop invariant: `cur_start` is `start` plus the processing time of the jobs before the longest and of those it has passed |
| Scheduler.SortWhole | src/lib.rs:19 | `sort(&mut jobs, 0)` leaves `Decompose(jobs, 0)` |
| Scheduler.IdsOf | src/lib.rs:21 | collecting the job ids: one id per job, the k-th being job k's id |
| Scheduler.ZipJobs | src/lib.rs:13-17 | `zip` builds as many jobs as the shortest input, job k from the k-th id, processing time and due date |
| Scheduler.Solve | src/lib.rs:13-22 | returns the ids of the decomposed due-date order and the total tardiness of exactly that order; the ids are a permutation of the zipped ids (of the input ids when the lengths agree), and the delay is at most that of plain due-date order |
| Scheduler.SolveSpec | src/lib.rs:13-22 | the returned ids are a permutation of the zipped ids (the input ids when the lengths agree), and the order is never worse than plain due-date order |
| Jobs.Tardiness | src/lib.rs:50 | `saturating_sub`: never below `completion - due`, and either 0 or exactly `completion - due` |
| Jobs.TotalTardiness | src/lib.rs:45-53 | the sum over positions k of the tardiness of job k completing at start+p_0+...+p_k; 0 for no jobs |
| Jobs.NoTardinessIffOnTime | src/lib.rs:45-53 | the total tardiness is 0 exactly when every job completes by its due date |
| Decomposition.LastMaxIndex | src/lib.rs:59-63 | the index `max_by_key` returns lies inside the slice (its choice is characterised by `LastMaxIndexIsLastLongest`) |
| Decomposition.Slide | src/lib.rs:65-77 | the final `tgt_ix` lies between its starting value and the slice length (where it stops is characterised by `SlideStops` and `SlidePassesOnlyImprovements`) |
| Decomposition.Decompose | src/lib.rs:55-86 | the order `sort` leaves has the slice's length; that it is a permutation, where the longest job ends and that it is never worse are the lemmas below |
| Decomposition.LastMaxIndexIsLastLongest | src/lib.rs:59-63 | the chosen job has maximal processing time, and every later job is strictly shorter (`max_by_key` keeps the last maximum) |
| Decomposition.ExchangeImprovesFormula | src/lib.rs:67-71 | the loop test `swapped_delay < delay` holds exactly when running the neighbour first gives the pair a smaller total tardiness |
| Decomposition.SlidePassesOnlyImprovements | src/lib.rs:66-76 | every job the longest job slides past was a strictly improving exchange at the time it was passed |
| Decomposition.SlideStops | src/lib.rs:66-73 | the slide stops at the end of the slice or at the first exchange that does not strictly improve |
| Decomposition.SlideNoWorse | src/lib.rs:66-77 | each slide step strictly lowers the slice's total tardiness, so the slid order is no worse than the original |
| Decomposition.DecomposeShort | src/lib.rs:56-58 | slices of length 0 or 1 are left unchanged |
| Decomposition.DecomposePermutes | src/lib.rs:59-85 | the decomposition preserves the multiset of jobs |
| Decomposition.DecomposePlacesLongest | src/lib.rs:78-85 | the longest job ends at `tgt_ix - 1` with maximal processing time, the two recursive parts are strictly shorter than the slice, and they only permute `[0, tgt_ix - 1)` and `[tgt_ix, len)` |
| Decomposition.DecomposeSumP | src/lib.rs:79-84 | the decomposition preserves total processing time, so the right part's offset does not depend on how the left part is reordered |
| Decomposition.DecomposeNoWorse | src/lib.rs:55-86 | the decomposed order's total tardiness is at most that of its input order run from the same start |
| DueOrder.SortByDue | src/lib.rs:18 | `sort_by_key` on the due date keeps the number of jobs; sortedness, permutation and stability are the three lemmas below |
| DueOrder.SortByDueSorted | src/lib.rs:18 | the jobs come out in non-decreasing due-date order |
| DueOrder.SortByDuePermutes | src/lib.rs:18 | the sort is a permutation of its input |
| DueOrder.SortByDueStable | src/lib.rs:18 | for every due date, the jobs due then keep their relative input order |
| DpProblem.Reorder | python/solve.py:113 | `iloc` succeeds exactly when every position is in range, and then row k is the row at position `ix[k]` |
| DpProblem.CumSum | python/solve.py:114 | `cumsum()` keeps the column's length; each total is a prefix sum by `CumSumIsPrefixSum` |
| DpProblem.CumSumIsPrefixSum | python/solve.py:114 | each running total is the sum of the column up to and including its row |
| DpProblem.EndTimesArePrefixSums | python/solve.py:114 | the end time of the job at row k is p_0+...+p_k |
| DpProblem.Shift | python/solve.py:115 | `shift(1, fill_value=0)` puts the fill value first and moves every other value one row down |
| DpProblem.NoIdleNoOverlap | python/solve.py:114-115 | the first job starts at 0, each later job starts when the previous one ends, and each job ends its processing time after it starts |
| DpProblem.Clip | python/solve.py:116 | `clip(0)` is never negative, never below its input, and is either 0 or the input |
| DpProblem.Delays | python/solve.py:116 | `(end_time - due).clip(0)` row by row: each delay is the clipped difference of its row's end time and due date |
| DpProblem.AddColumns | python/solve.py:114-116 | the three added columns have one value per row; their meaning is `EndTimesArePrefixSums`, `NoIdleNoOverlap` and `DelayIsTardiness` |
| DpProblem.DelayIsTardiness | python/solve.py:116 | each delay is the job's tardiness at its end time, the same quantity the Rust solver sums |
| DpProblem.ToIndexDict | python/solve.py:117 | keying by `job_id` succeeds exactly when the ids are distinct, and then has one entry per id holding that row's values |
| DpProblem.Derive | python/solve.py:113-121 | an out-of-range position raises, otherwise a repeated `job_id` raises, otherwise the objective passes through unchanged and each job maps to its start time and delay |
| DpProblem.TotalDelay | python/solve.py:114-116 | the delay column of an order sums to that order's total tardiness, the quantity `calc_delay` computes |
| DpProblem.ScheduledRows | python/solve.py:108-113 | with the default index, the returned ids are a permutation of the row positions, and each job carries its row's processing time and due date |
| DpProblem.ReorderPermutes | python/solve.py:113 | selecting rows by a permutation of their positions succeeds and only reorders the table |
| DpProblem.DeriveFromPermutation | python/solve.py:113-117 | for any permutation of positions, the result raises exactly when a `job_id` repeats, and otherwise has exactly one entry per input `job_id` |
| DpProblem.DpSolutionSpec | python/solve.py:107-121 | with the default index, every row is selected once, the call raises exactly on a repeated `job_id`, the keys are the input job ids, and the reported objective equals the sum of the delay column |
| DpProblem.SolveDpProblem | python/solve.py:107-121 | the result is the report derived from the scheduler's order and objective; with the default index it succeeds exactly when the job ids are distinct and then has one entry per job id |
| DpProblem.NonPositionalIndexRaises | python/solve.py:108-113 | index labels are used as positions: a one-row table labelled 1 raises `IndexError` |
| DpProblem.ReportedObjective | python/solve.py:113-117 | for any permutation of the positions, the delays in the returned mapping, read back by job id, sum to the delay column of the reordered table |
| DpProblem.ObjectiveIsSumOfDelays | python/solve.py:107-121 | with the default index, the reported objective value is the sum of the delays in the returned mapping |
| DpProblem.LabelIndexMisreports | python/solve.py:108-113 | with labels [1, 0] on rows a (p=1, due=0) and b (p=5, due=100), the call succeeds but reports objective 1 while the returned delays sum to 6 |
| DpProblem.SolveDpProblemByPosition | python/solve.py:107-121 | with row positions passed as ids: raises exactly when a job id repeats, otherwise has one entry per job id and an objective equal to the sum of the returned delays |

## Left out

- The LP and CP-SAT solvers of python/solve.py (`solve_lp_problem`, `solve_sat_problem`): their answers come from an external engine.
- `get_testdata` and its seeded random generator, main.py (CLI, CSV reading, JSON output, progress bars), and the pyo3/numpy glue of src/lib.rs. None of these is part of this model.
- The `uint64`/`usize` conversions and machine-width overflow: times are unbounded naturals, so `saturating_sub` is exactly `max(0, a - b)`.
- No claim that `sort` finds an optimal order. The model proves only that it never makes its input order worse.
- Scheduler.Solve: `jobs.sort_by_key` is a library routine. It is modelled as the pure stable sort `DueOrder.SortByDue`, not as an in-place array sort.
- DpProblem.Derive: a Python dict keeps insertion order, a Dafny map does not, so the key order of the returned mapping is not modelled.
- DpProblem.Row: `job_id` is modelled as a string, and the table holds only the columns the function reads.
- DpProblem.SolveDpProblem: beyond the exact result, its guarantees hold only for the default index `0..n-1`. Two other cases are exhibited: labels past the end raise (`NonPositionalIndexRaises`), and permuted labels misreport (`LabelIndexMisreports`). No general characterisation is given for other indexes.

## Findings

| source | as written | input that shows it | evidently intended | confidence | as-written member | corrected member |
|---|---|---|---|---|---|---|
| python/solve.py:109,113 | the scheduler receives the index labels, and its answer is used as `iloc` positions | rows a (p_time 1, due 0) and b (p_time 5, due 100) labelled [1, 0]: objective_value 1, while the returned delays are a: 6, b: 0 | pass the row positions (for example `np.arange(len(df))`) so the selected rows are the jobs that were scheduled | medium, not executed | DpProblem.LabelIndexMisreports | DpProblem.SolveDpProblemByPosition |
