# MLSMOTE, modelled in Dafny

A model of `mlsmote.py`, the MLSMOTE (multi-label SMOTE) oversampling pipeline, and proofs
about it. The pipeline:

- counts the 1-entries of every 0/1 label column;
- derives each label's imbalance ratio IRLbl = max(counts) / (count, or 1 for a count of 0) and their mean MeanIR;
- takes the tail labels (IRLbl above MeanIR) and the rows carrying one of them (the minority subset);
- synthesises new rows from the minority subset, each from a reference row and one of its nearest neighbours, with labels set by majority vote over the reference's neighbourhood;
- stacks the result under the input, once (`MLSMOTE`) or in an accept/reject loop (`MLSMOTE_iterative`) that keeps a candidate while MeanIR improves or stays above a threshold.

Modules, in dependency order:

- `Wrappers` (wrappers.dfy): `Option` and `Result`.
- `Frames` (frames.dfy): a data frame as a width and a sequence of rows. A row's position stands for its index label. Also `pd.concat` and selection of the rows at a set of positions.
- `Imbalance` (imbalance.dfy): the two counting rules, IRLbl and MeanIR, and the loop of `get_irlb` (`ImbalanceRatios`). It also holds the bounds of the mean.
- `Tail` (tail.dfy): `get_tail_label`.
- `Minority` (minority.dfy): `get_index` and `get_minority_instace`.
- `Synthesis` (synthesis.dfy): `augment`. Its loop writes into two preallocated arrays (`Augment`), and it is proved against the function `Synthesized`.
- `Controller` (controller.dfy): `MLSMOTE` and `MLSMOTE_iterative`. The `while True` loop is the method `MLSMOTEIterative`, proved against the function `Iterative`.

What the model takes as inputs:

- **The random module.** A `Generator` stands for the values successive calls return after seeding. Call k of `randbelow(n)` returns `below(k, n)`; `random.randint(0, n - 1)` and `random.choice` both go through it. Call k of `random()` returns `unit(k)`. Sample i of a call to `augment` uses calls pos + 3i, pos + 3i + 1 and pos + 3i + 2, in the source's order: reference, neighbour slot, ratio. `MLSMOTE_iterative` seeds once, so its first pass starts at call 0.
- **The nearest-neighbour search.** It is a function from feature rows to a neighbour table. When there are at least 5 rows, the table holds one row of 5 distinct in-range positions per row.

The model follows the code at these points, where its behaviour is easy to misread:

- A label column without 1s gets IRLbl = max count / 1 = max count, not 0.
- `get_tail_label` counts a column only when it holds two distinct values, while `get_irlb` counts it when a 1 occurs. The model keeps both rules (`CountRule`) and proves how they differ (`CountRulesCompared`).
- `get_index` returns `list(index)` of a set, in no particular order; the model returns the set. Selecting by `isin` keeps frame order, so the order is never observed.
- Column 0 of a neighbour-table row is not assumed to be the row itself.
- An empty or too small minority subset is not short-circuited. `augment` hands it to the neighbour search, which raises. The model returns `Failure(TooFewSamples)` (or `Failure(NoFeatures)` for a frame without columns) and propagates it out of both drivers.

## Model

| member | source | states |
|---|---|---|
| Frames.Frame.Concat | mlsmote.py:160-161 | `pd.concat` of two frames of one width: the rows of the first, then the rows of the second; row count is the sum, width unchanged |
| Frames.Restrict | mlsmote.py:109-110 | `f[f.index.isin(idx)].reset_index(drop=True)`: row i is the input row at the i-th selected position, renumbered from 0, width unchanged |
| Frames.PositionsOfIndex | mlsmote.py:108-111 | the selected positions are one per member of the index set, so the subset has exactly \|index\| rows |
| Frames.PositionsIncreasing | mlsmote.py:109-110 | the selected positions ascend, so selection keeps the original relative order and repeats no row |
| Imbalance.MaxCount | mlsmote.py:39 | `max(irpl)`: at least every count and equal to one of them |
| Imbalance.Ratio | mlsmote.py:39 | IRLbl of one column, the max count over the column's count (over 1 for a zero count): times that divisor it gives the max count; max count for a zero count; 1 for the column with the max count; at least 1 when the count is positive |
| Imbalance.ImbalanceRatios | mlsmote.py:29-41 | the loop of `get_irlb` (and of `get_tail_label`, lines 54-69) returns exactly IRLbl and MeanIR under its counting rule |
| Imbalance.IRLblFacts | mlsmote.py:39-40 | every IRLbl is ≥ 0; a zero-count column gets the max count; a column with the max positive count gets 1; all IRLbl are ≥ 1 when some count is positive; MeanIR lies between the smallest and the largest IRLbl |
| Imbalance.MeanIRAtLeastOne | mlsmote.py:39-40 | MeanIR ≥ 1 when some count is positive |
| Imbalance.MeanBetween | mlsmote.py:40 | `np.average` lies between the minimum and the maximum |
| Imbalance.VariesHasOne | mlsmote.py:61-63 | on 0/1 labels a column with more than one distinct value holds a 1, so `vc[1]` after the `len(vc) > 1` test finds an entry |
| Imbalance.CountRulesCompared | mlsmote.py:35-38 | `get_irlb` counts every 1 of a 0/1 column; `get_tail_label` (lines 62-66) counts them only when a 0 occurs too; the two differ exactly on a non-empty all-ones column |
| Tail.TailColumns | mlsmote.py:71-75 | every returned column is in range with ratio above the mean, and every such column is returned |
| Tail.TailLabelsExact | mlsmote.py:67-75 | a column is a tail label iff its IRLbl is strictly above MeanIR; the tail labels ascend (column order, no duplicates) |
| Tail.GetTailLabel | mlsmote.py:44-75 | the loops of `get_tail_label` return exactly the columns with IRLbl > MeanIR, ascending |
| Tail.MaxColumnNotTail | mlsmote.py:67-75 | a column with the max positive count is never a tail label |
| Tail.EqualRatiosNoTail | mlsmote.py:71-75 | when all IRLbl are equal there is no tail label |
| Tail.ScenarioTail | mlsmote.py:69-75 | IRLbl 1, 10, 2 give MeanIR 13/3 and the single tail label 1 |
| Tail.ScenarioRatios | mlsmote.py:67 | counts 100, 10, 50 give IRLbl 1, 10, 2 |
| Minority.RowsWithAnySnoc | mlsmote.py:92 | one more tail label adds exactly its rows to the union |
| Minority.GetIndex | mlsmote.py:78-93 | the loop of `get_index` returns the union over the tail labels: r is in it iff y[r][t] == 1 for a tail label t; a set, so no row twice |
| Minority.MinorityInstance | mlsmote.py:96-111 | X_sub and y_sub are aligned with as many rows as the index has members, widths unchanged, 0/1 labels, and every y_sub row has a 1 in a tail column |
| Minority.MinorityInOrder | mlsmote.py:108-111 | row i of X_sub and y_sub is the input row at the i-th selected position; the positions ascend and are exactly those of `get_index` |
| Synthesis.DrawAt | mlsmote.py:149-155 | the draws of one sample: a reference below n, a neighbour slot among 1..4 (`indices2[reference, 1:]`), a ratio in [0, 1) |
| Synthesis.Vote | mlsmote.py:152-154 | a synthetic label is 0 or 1 |
| Synthesis.Interpolate | mlsmote.py:155-157 | `ref + ratio * (ref - nb)`: one feature per column, with offset from nb equal to (1 + ratio) times the reference's |
| Synthesis.Synthesized | mlsmote.py:129-162 | `augment`: fails iff the neighbour search does (fewer than 5 rows or no features), with that error; otherwise both outputs have len(X) + n_sample rows, n_sample defaulting to 5 per label column, widths unchanged |
| Synthesis.SynthesizedShape | mlsmote.py:142-147 | on success the outputs stay aligned, start with the input rows, and the next draw is 3 per sample on |
| Synthesis.SynthesizedBinary | mlsmote.py:154 | 0/1 input labels give 0/1 output labels |
| Synthesis.Augment | mlsmote.py:129-162 | the loop of `augment` over its preallocated row buffers returns exactly `Synthesized` |
| Synthesis.Sample | mlsmote.py:149-157 | one pass of the loop computes the features and labels of synthetic sample i |
| Synthesis.SyntheticSample | mlsmote.py:149-157 | synthetic sample i is `ref[k] + ratio * (ref[k] - nb[k])` in every feature for the reference row and its neighbour in slot 1..4, and every label is 0 or 1 and is 1 iff the column sums to more than 2 over the reference's neighbourhood |
| Synthesis.SyntheticRow | mlsmote.py:148-161 | output row len(X) + i of both frames is synthetic sample i, drawn from calls pos + 3i onwards |
| Synthesis.VoteIsMajority | mlsmote.py:151-154 | with 0/1 labels, the neighbourhood has 5 rows and a synthetic label is 1 iff more than 2 of them carry it |
| Controller.Stack | mlsmote.py:168-170 | `augment` of a subset stacked under X and y: fails iff the subset has fewer than 5 rows or no columns; otherwise labelled, widths unchanged, starts with X and y, with len(X) + len(subset) + n_sample rows |
| Controller.StackLayout | mlsmote.py:168-170 | a successful stack holds X and y, then the subset itself, then exactly the rows `augment(X_sub, y_sub, n_sample)` appends after the subset (whose content `Synthesis.SyntheticRow` states) |
| Controller.Oversample | mlsmote.py:167-170 | the stack of the minority subset: fails iff it has fewer than 5 rows or there are no features; otherwise starts with the input rows and has len(X) + \|index\| + n_sample rows |
| Controller.MLSMOTE | mlsmote.py:165-173 | `MLSMOTE` fails iff the minority subset has fewer than 5 rows or there are no features; otherwise labelled, widths unchanged, len(X) + len(X_sub) + n_sample rows |
| Controller.MLSMOTELayout | mlsmote.py:167-170 | a successful `MLSMOTE` returns X and y, then X_sub and y_sub, then exactly the rows `augment(X_sub, y_sub, n_sample)` appends after them: the neighbour search succeeds and row len(X) + len(X_sub) + i is synthetic sample i by `Synthesis.SyntheticRow` |
| Controller.Candidate | mlsmote.py:185-191 | X_cur and y_cur are the input rows followed by the copied (cp) or augmented minority subset of the accumulated frames; with cp it always succeeds, uses no draws and adds exactly \|index\| rows |
| Controller.Step | mlsmote.py:185-201 | an accepted pass keeps the loop invariant, starts with the input rows and passes the acceptance test; a rejected pass had a candidate |
| Controller.StepDecides | mlsmote.py:185-201 | a pass fails iff the candidate does; otherwise it is accepted iff (no threshold and cur < last) or (threshold and cur > threshold), and the accepted state is the candidate with its MeanIR |
| Controller.AcceptedLowersMeanIR | mlsmote.py:194-199 | without a threshold every accepted candidate has a strictly lower MeanIR than the state it replaces |
| Controller.Iterate | mlsmote.py:184-202 | the loop, at most fuel passes: the state it ends in keeps the invariant |
| Controller.IterateKeeps | mlsmote.py:184-202 | a property kept by every accepted pass holds of the state the loop returns |
| Controller.IterateStops | mlsmote.py:199-201 | when the loop breaks, the pass from the returned state is rejected |
| Controller.Iterative | mlsmote.py:176-202 | `MLSMOTE_iterative` from the input and its MeanIR: what it returns keeps the invariant (labelled, input widths, `last` is its MeanIR) |
| Controller.OnePass | mlsmote.py:185-201 | one pass of the loop body computes exactly `Step` |
| Controller.MLSMOTEIterative | mlsmote.py:176-202 | the `while True` loop returns exactly `Iterative` |
| Controller.IterativeStops | mlsmote.py:194-202 | when it breaks, `MLSMOTE_iterative` returns the last accepted state (or the input), whose candidate is rejected |
| Controller.StepImproves | mlsmote.py:194-198 | an accepted pass from a state that improves on the input leads to a state that does too |
| Controller.IterativeImproves | mlsmote.py:176-202 | the returned frames are the input itself, or start with the input rows and have MeanIR below the input's (no threshold) or above the threshold |
| Controller.MinorityRowsFrom | mlsmote.py:185 | every row pair of the minority subset is a row pair of the frames it is taken from |
| Controller.CopyStep | mlsmote.py:186-191 | with cp, an accepted pass adds only copies of row pairs of the input |
| Controller.CopyOnlyDuplicates | mlsmote.py:176-202 | with cp, every row pair `MLSMOTE_iterative` returns is a row pair of its input: no synthetic values |

## Left out

- `create_dataset` and the `__main__` driver: a demo data source built on sklearn and `pd.get_dummies`, outside the pipeline.
- `nearest_neighbour`: the sklearn KD-tree search is a function parameter. The model assumes only what `augment` relies on: 5 distinct in-range positions per row when there are at least 5 rows. Its errors are modelled: fewer than 5 rows, or a frame without columns.
- The `random` module and `random.seed(42)`: the draws are the abstract `Generator` described above. The Mersenne Twister itself is not modelled.
- The `print` diagnostics: they change no data.
- Floating point: features, IRLbl and MeanIR are exact reals, so rounding in the ratios, the mean and the comparisons of the acceptance test is not modelled.
- pandas index labels: rows are addressed by position. `pd.concat` without `reset_index` leaves duplicate index labels in the accumulated frames of `MLSMOTE_iterative`. On such frames, `get_index` and `isin` select by label, and can pick rows that carry an aliased label rather than a tail label. The model selects by position.
- `get_index` returns `list(set)` in an unspecified order; the model returns the set. Every use selects with `isin`, which keeps frame order, so the order is never observed.
- Non-0/1 labels: `get_tail_label`, `get_index`, `get_minority_instace`, the drivers and the 0/1 facts about `augment` require 0/1 label entries (`Binary`). `get_irlb` (`IRLbl`, `MeanIR`, `ImbalanceRatios`) and `augment` itself (`Synthesized`) accept any integer labels and compute what the source does with them.
- Imbalance.ImbalanceRatios: with rule `TwoDistinct` on a column that varies but holds no 1 (values 0 and 2, say), `get_tail_label` raises `KeyError` at `vc[1]` while the model counts 0. The members that model `get_tail_label` require 0/1 labels, under which `Imbalance.VariesHasOne` shows the lookup always finds a 1.
- A negative `n_sample`: the count is an `Option<nat>` in `SampleCount`, `Synthesized`, `Augment`, `Stack` and `MLSMOTE`. On a negative count `augment` raises `ValueError` at `np.zeros((n_sample, X.shape[1]))` (mlsmote.py:146), after a successful neighbour search; `MLSMOTE` passes its caller's `n_sample` through unchanged (mlsmote.py:168). That error is not modelled, and a count that is not an integer is not either.
- A label frame without columns: `max` of the empty count list raises in the source. The model requires at least one label column.
- Iterate: the `while True` loop is bounded by `fuel` passes and ends in `OutOfFuel` when they run out. With a threshold, or with cp, the source loop need not terminate.
- Controller.MLSMOTELayout: it does not state row by row which input row each minority row is. `Minority.MinorityInOrder` states that about the subset the layout places there.
