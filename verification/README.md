# pysarts corrections — a Dafny model

This project models the control and bookkeeping layer of `pysarts/corrections.py`,
the weather-model correction of InSAR interferograms. It covers four parts:

- **The global search** (`optim_era_delay`, `_optim_era_delay`).
  - Find `min_plevel` among the master model's pressure levels.
  - Try every pair (master level, slave level) from the top of the column down to that level, master level varying slowest.
  - Return one record `{master_p, slave_p, std}` per pair, in order.
  - The pool hands the candidates to its workers in chunks of consecutive tasks. A worker unpickles one copy of the models per chunk, and `add_rainfall` changes that copy in place. So a candidate is scored on models that already carry the injections of the earlier candidates of its chunk.
- **The patch walk** (`patches_era_delay`).
  - Cut every input into overlapping windows with a step of half the patch size.
  - Visit the windows in `np.ndindex` (row-major) order.
  - Give a window with no rain on either date the pure weather-model correction, and any other window the greedy search.
  - Write each result back through the window's view of output arrays that start as zeros. Where windows overlap, the last writer wins.
- **The greedy patch search** (`_optimise_zenith_delay`).
  - Find `min_plevel` in the master patch's levels.
  - A date with no rain is tried only at level index 0, with no rainfall injected.
  - Loop master-outer, slave-inner. Start from a best deviation of +infinity and accept a trial only on a strict `<`.
  - Keep the accepted trial's zenith delays and levels, or the pure correction with NaN levels when no trial is accepted.
- **The helpers.** The grid-size guard of `calculate_era_zenith_delay`, and `calc_ifg_delay`.

The physics is a parameter: the `Physics` datatype carries four functions.

- The per-pixel zenith-delay integral.
- Rainfall injection (`ERAModel.add_rainfall`).
- The slant projection (`zenith2slant`).
- The standard deviation (`.std()`).

NaN is `None` in an `Option<real>`. A NaN deviation is never `<` anything, so a trial whose deviation is NaN is never accepted. Errors are a `Result`:

- `LevelNotFound` for the `IndexError` of a missing `min_plevel`.
- `GridMismatch` for the `IndexError` of the size guard.
- `InvalidPatch` for the `ValueError` that `view_as_windows` raises on a patch it cannot cut.

Modules, in dependency order:

- `Wrappers`, `Errors`: `Option`, `Result` and the error kinds.
- `Grids`, `Sequences`: fields as `seq<seq<T>>`, shapes, pointwise maps, sums, the row-major product of two index lists.
- `Levels`: the level lookup.
- `Atmosphere`: columns, weather models, DEM, the physics parameter, `calculate_era_zenith_delay`, injection, slant, `calc_ifg_delay`, the corrected interferogram.
- `GlobalSearch`: `optim_era_delay` and `_optim_era_delay`, with the pool's chunking of the candidates.
- `Greedy`: the strict-improvement scan over a list of trials. It is generic in the score and the stored output, and has a loop implementation `Scan` proved equal to its functional definition.
- `PatchSearch`: `_optimise_zenith_delay`.
- `Windows`: window geometry along one axis.
- `Assembly`: writing patches back through window views.
- `Tiling`: the row-major window walk. It is generic in what each window produces, and has a loop implementation `AssembleWindows`.
- `Patches`: `patches_era_delay` itself, with the scene, the window slices and the dry-window shortcut.

## Model

| member | source | states |
|---|---|---|
| Levels.FindLevel | pysarts/corrections.py:22-26 | Succeeds exactly when `min_plevel` is a level. The index it returns holds that level and no earlier index does. A miss is LevelNotFound. |
| Atmosphere.CalculateEraZenithDelay | pysarts/corrections.py:367-390 | Fails with GridMismatch exactly when the model's latitude or longitude count differs from the DEM's. Otherwise every pixel's wet and dry delays come from that pixel's own column and elevation, and the total is wet + dry. |
| Atmosphere.ZenithFields | pysarts/corrections.py:446-462 | The per-pixel loop: each output pixel depends only on its own column and elevation. |
| Atmosphere.InjectModel | pysarts/corrections.py:49-50 | Rainfall injection changes only the humidity of each column, to the injected humidity of that column's rain rate. Grid, coordinates, levels, temperature and geopotential are unchanged. |
| Atmosphere.InjectRainfall | pysarts/corrections.py:303-306 | Per pixel, the humidity becomes the injected one and the other column fields are kept. |
| Atmosphere.Slant | pysarts/corrections.py:55-56 | The projection is applied pixel by pixel and keeps the shape. |
| Atmosphere.CalcIfgDelay | pysarts/corrections.py:484-498 | Each pixel is the master delay minus the slave delay. |
| Atmosphere.CalcIfgDelaySwap | pysarts/corrections.py:484-498 | Swapping master and slave negates every pixel of the interferometric delay. |
| Atmosphere.CalcIfgDelayRestoresMaster | pysarts/corrections.py:484-498 | Adding the slave delay back to the interferometric delay gives the master delay. |
| Atmosphere.Corrected | pysarts/corrections.py:55-59 | Each pixel of the corrected interferogram is the observed one minus the difference of the two dates' total slant delays. |
| Atmosphere.CorrectedSwap | pysarts/corrections.py:55-59 | Swapping the dates and negating the interferogram negates the corrected field. |
| GlobalSearch.EvaluateCandidate | pysarts/corrections.py:42-69 | One call on the models it is handed: the record carries exactly the two levels it was given. It fails, with GridMismatch, exactly when a model's grid differs from the DEM's. |
| GlobalSearch.InjectAll | pysarts/corrections.py:49-50 | Repeated in-place injections on one model object: grid, coordinates and levels are kept, no threshold leaves the model as given, and each further threshold is one more `add_rainfall` on the result so far. |
| GlobalSearch.PoolChunkSize | pysarts/corrections.py:36-37 | The chunk size `starmap` uses with no chunksize argument: the least size giving at most four chunks per worker. One task per chunk when there are at most four tasks per worker, more otherwise. |
| GlobalSearch.EvaluateInChunk | pysarts/corrections.py:36-50 | A task is run on its chunk's copy of the models, after the injections of the earlier tasks of its chunk. It carries its own levels and fails only on a grid mismatch. |
| GlobalSearch.EvaluateCandidateSwap | pysarts/corrections.py:49-61 | If the deviation ignores sign, the swapped dates with swapped levels give the same deviation, and the record has its levels exchanged. |
| GlobalSearch.Gather | pysarts/corrections.py:36-37 | The pool's result succeeds exactly when every call succeeds. It keeps their number, and a failure is one of the calls' failures. |
| GlobalSearch.GatherIndex | pysarts/corrections.py:36-37 | Each gathered result sits at the position of its call: `starmap` keeps input order. |
| GlobalSearch.Evaluations | pysarts/corrections.py:31-37 | One evaluation per candidate pair, each carrying its own pair. |
| GlobalSearch.EvaluateAll | pysarts/corrections.py:28-39 | The records are the product of the level list with itself, master-major, one per pair. It fails only on a grid mismatch. |
| GlobalSearch.OptimEraDelay | pysarts/corrections.py:18-39 | On a pool of `workers` processes: LevelNotFound exactly when `min_plevel` is not a master level. GridMismatch exactly when it is but a grid differs. Otherwise the records list every (master, slave) pair of levels from index 0 to the level's index, in product order. |
| GlobalSearch.EvaluateAllRecords | pysarts/corrections.py:28-50 | Every gathered record is the evaluation of its own two levels on the models into which the earlier records of its chunk injected rainfall, in order. |
| GlobalSearch.OptimEraDelayRecords | pysarts/corrections.py:31-50 | Every record of the search is what `_optim_era_delay` returns for the levels it carries, called on models that carry the injections of the earlier records of its pool chunk: nothing is dropped, reordered or altered, and nothing resets the humidity between calls. |
| GlobalSearch.OptimEraDelayFreshRecords | pysarts/corrections.py:31-50 | With at most four candidates per worker, every record is the evaluation of its two levels on the models as given. |
| GlobalSearch.OptimEraDelaySecondRecord | pysarts/corrections.py:31-50 | With more than four candidates per worker, the second record is scored on models that already carry the first record's injection on both dates. |
| GlobalSearch.RecordAt | pysarts/corrections.py:28-33 | The record for master level i and slave level j sits at position `i * count + j`. |
| GlobalSearch.ThreeLevelScenario | pysarts/corrections.py:22-33 | Levels 1000/800/600 with `min_plevel` 600 give nine records. 550 is not a level and raises LevelNotFound. |
| GlobalSearch.SwapRecordAt | pysarts/corrections.py:18-69 | If the deviation ignores sign and both searches have at most four candidates per worker, the swapped-date search records the exchanged pair with the same deviation. |
| GlobalSearch.OptimEraDelaySwapSucceeds | pysarts/corrections.py:18-39 | With the same level list on both dates, the swapped search succeeds exactly when the original does, with as many records. |
| Grids.SumZeroIff | pysarts/corrections.py:274-275 | A field of non-negative rain rates sums to zero exactly when it is zero at every pixel. |
| Greedy.Best | pysarts/corrections.py:329-336 | The kept trial, when there is one, is in range and has a finite score. |
| Greedy.BestIsFirstMin | pysarts/corrections.py:265-336 | Nothing is kept exactly when every score is NaN. Otherwise the kept trial has the smallest score, and no earlier trial reaches it. |
| Greedy.FirstMinUnique | pysarts/corrections.py:329 | There is at most one first minimum. |
| Greedy.FirstBestIsFirstMin | pysarts/corrections.py:292-336 | A first best trial is exactly a first minimum of the scores in loop order. |
| Greedy.SearchAllNaN | pysarts/corrections.py:265-269 | When every trial's deviation is NaN, the search returns the initial (pure) output. |
| Greedy.SearchFirstBest | pysarts/corrections.py:292-336 | The search returns the output of the first trial with the smallest finite deviation. |
| Greedy.FirstBestExists | pysarts/corrections.py:329-336 | A first best trial exists as soon as one deviation is finite. |
| Greedy.SearchResult | pysarts/corrections.py:266-336 | The search returns the initial output or one trial's output. |
| Greedy.SearchSameOutput | pysarts/corrections.py:266-333 | When every trial would store the initial output, that is what the search returns. |
| Greedy.BestStep | pysarts/corrections.py:329-336 | One loop step accepts exactly a finite score below the best so far. |
| Greedy.Step | pysarts/corrections.py:299-341 | One trial of the loop keeps the scan state, and the best deviation only decreases. |
| Greedy.ScanRow | pysarts/corrections.py:293-341 | The inner loop over slave levels advances the scan state by one row of trials. |
| Greedy.Scan | pysarts/corrections.py:292-341 | The two nested loops, master-outer, return the functional search over the row-major trial list. |
| PatchSearch.PixelGrid | pysarts/corrections.py:330-335 | Every pixel of the stored patch holds the trial's delays and its two levels. |
| PatchSearch.PureOutput | pysarts/corrections.py:259-269 | The pure correction: every pixel holds the zenith delays of the un-injected models, with NaN levels. |
| PatchSearch.LevelRange | pysarts/corrections.py:277-293 | A dry date tries exactly index 0. A rainy date tries exactly 0, 1, ..., idx, in order. No index exceeds idx. |
| PatchSearch.TrialsInLevels | pysarts/corrections.py:292-296 | Every trial names a level of both models. |
| PatchSearch.TrialColumns | pysarts/corrections.py:297-306 | Humidity is reset before each trial. A dry date keeps the columns as given. On a rainy date every pixel keeps temperature and geopotential, and its humidity is the original column's injected above level `a`. |
| PatchSearch.MasterDelays | pysarts/corrections.py:299-310 | Each pixel's master delays come from its trial column and elevation. A dry master date gives the delays of the model as given, whatever the level index. |
| PatchSearch.SlaveDelays | pysarts/corrections.py:300-312 | The same for the slave date. |
| PatchSearch.TrialCorrected | pysarts/corrections.py:314-327 | Each pixel of the trial's corrected interferogram is the observed value minus the master's total slant delay plus the slave's. |
| PatchSearch.TrialScore | pysarts/corrections.py:297-329 | The score is the deviation of the trial's corrected interferogram. On a dry date the level index does not change the score. |
| PatchSearch.LevelUsed | pysarts/corrections.py:334-335 | The stored level is NaN exactly on a dry date, else the level tried. |
| PatchSearch.SearchOutput | pysarts/corrections.py:264-343 | The patch result is patch-shaped, and is the pure correction or the output of one trial whose level indices are at most idx. |
| PatchSearch.PureOrTrialOutput | pysarts/corrections.py:264-343 | The search keeps the pure correction or the output of one trial within 0..idx. |
| PatchSearch.SearchAllNaNIsPure | pysarts/corrections.py:264-269 | When every trial scores NaN, the patch keeps the pure correction with NaN levels. |
| PatchSearch.TrialOutputAt | pysarts/corrections.py:292-293 | Each trial's level indices are at most idx. |
| PatchSearch.SearchKeepsFirstBest | pysarts/corrections.py:292-336 | The patch keeps the delays and levels of the first trial with the smallest deviation, at indices no deeper than idx. |
| PatchSearch.DrySearchIsPure | pysarts/corrections.py:282-306 | With no rain on either date, the single trial injects nothing, so the search yields the pure correction. |
| PatchSearch.TrialLevelsWithin | pysarts/corrections.py:334-335 | A trial's output has NaN levels on a dry date and levels within 0..idx otherwise. |
| PatchSearch.SearchLevelsWithin | pysarts/corrections.py:243-246 | Whatever the search keeps, stored levels are NaN on a dry date and never deeper than `min_plevel`. |
| PatchSearch.OptimiseZenithDelay | pysarts/corrections.py:228-343 | Fails, with LevelNotFound, exactly when `min_plevel` is not a master level. Otherwise it returns the search result, patch-shaped. |
| Windows.WindowCount | pysarts/corrections.py:125-128 | There is at least one window per axis for an accepted patch. |
| Windows.CoveredExtent | pysarts/corrections.py:125-128 | The windows reach `n - (n - p) mod step` and never past the axis. |
| Windows.WindowInBounds | pysarts/corrections.py:125-128 | Every window lies inside the axis. |
| Windows.OwnerIsLastWindow | pysarts/corrections.py:161 | A covered pixel's owner window covers it, and no later window does. |
| Windows.CoverageIff | pysarts/corrections.py:125-128 | A pixel is covered by some window exactly when it lies before the covered extent. |
| Windows.FullCoverageIff | pysarts/corrections.py:92-95 | The windows cover the axis exactly when the step divides the length left after the first window. |
| Windows.EvenPatchCoversAxis | pysarts/corrections.py:92-95 | An even patch whose half divides the axis covers it. |
| Windows.DividingEvenPatchCovers | pysarts/corrections.py:92-95 | The documented requirement, a patch size that divides the grid, guarantees coverage when the patch is even. |
| Windows.OddPatchCoversNine | pysarts/corrections.py:124-128 | An odd patch of five covers an axis of nine that it does not divide: divisibility does not decide coverage. |
| Windows.DivModUnique | pysarts/corrections.py:125 | Quotient and remainder of the step division are unique. |
| Windows.OddPatchLeavesGap | pysarts/corrections.py:92-95 | A patch of five divides an axis of ten, yet windows of five with step two leave pixel 9 unwritten. |
| Assembly.Paste | pysarts/corrections.py:188-193 | Writing through a view changes exactly the covered rectangle, to the patch's values. |
| Assembly.Assemble | pysarts/corrections.py:188-218 | Writing a list of fitting placements into the output keeps its shape. |
| Assembly.AssembleLastWriter | pysarts/corrections.py:213-218 | After all writes, a cell holds the value from the last placement covering it. |
| Assembly.AssembleUntouched | pysarts/corrections.py:146-158 | A cell no placement covers keeps its initial value. |
| Tiling.WindowFits | pysarts/corrections.py:153-158 | Each window's write-back fits in the output. |
| Tiling.Run | pysarts/corrections.py:161-218 | A walk that succeeds has the output's shape. |
| Tiling.RunStaysFailed | pysarts/corrections.py:199-212 | Once a window raises, the walk's outcome no longer changes. |
| Tiling.RunFailsIff | pysarts/corrections.py:161-218 | The walk fails exactly when some window fails, with the first failure's error. |
| Tiling.Placements | pysarts/corrections.py:153-158 | The write-backs of the windows all fit the output. |
| Tiling.RunAssembles | pysarts/corrections.py:161-218 | A walk with no failure writes every window's result in ndindex order. |
| Tiling.RowMajorAfter | pysarts/corrections.py:161 | A later window in ndindex order is on a later row, or further right on the same row. |
| Tiling.OwnerWindowIsLast | pysarts/corrections.py:161 | The owner window of a covered pixel is listed, covers it, and is the last listed window that does. |
| Tiling.TiledCovered | pysarts/corrections.py:161-218 | A covered pixel holds its owner window's result at the pixel's place in that window. |
| Tiling.TiledPixel | pysarts/corrections.py:161-218 | The same for a successful walk, naming the owner window and its result. |
| Tiling.TiledUncovered | pysarts/corrections.py:146-158 | A pixel beyond the covered extent keeps its initial value. |
| Tiling.RunStep | pysarts/corrections.py:199-218 | One window either ends the walk with its error or pastes its result. |
| Tiling.AssembleWindows | pysarts/corrections.py:161-218 | The nested window loops compute the functional walk, stopping at the first failure. |
| Patches.Truncate | pysarts/corrections.py:140-143 | Each field of a slave column is cut to its first `nplevels` values, or kept whole when shorter: a prefix of that length. |
| Patches.PatchAt | pysarts/corrections.py:124-143 | A window's slices are all patch-shaped and lie inside the scene. Pixel (i, j) of every slice is the scene's pixel at the window's origin plus (i, j); the slave column there is cut to `nplevels`. Master levels are the model's; slave levels are the slave's first `nplevels`. |
| Patches.PatchOutcome | pysarts/corrections.py:167-218 | A dry window gives the pure correction. A rainy window fails with LevelNotFound when `min_plevel` is not a master level, and otherwise gives the search over the levels down to its index. Any result is patch-shaped. |
| Patches.Walk | pysarts/corrections.py:145-218 | A successful walk has the scene's shape. |
| Patches.OutcomeShaped | pysarts/corrections.py:188-218 | Every window result has the patch size. |
| Patches.PatchesEraDelay | pysarts/corrections.py:72-225 | InvalidPatch exactly when the patch size or level depth is refused. Otherwise the row-major walk from all-zero outputs. |
| Patches.NeverInvalid | pysarts/corrections.py:124-143 | Once the arguments are accepted, no window raises InvalidPatch. |
| Patches.WindowListed | pysarts/corrections.py:161 | Every visited window is a window of the scene. |
| Patches.PatchOutcomeFails | pysarts/corrections.py:167-212 | A dry window never fails. A rainy one fails, with LevelNotFound, exactly when `min_plevel` is not a master level. |
| Patches.DryShortcutAgrees | pysarts/corrections.py:167-195 | For a dry window the shortcut equals what the search would give. The shortcut only skips the level lookup. |
| Patches.WindowIndex | pysarts/corrections.py:161 | Window (y, x) is visited at position `y * columns + x`. |
| Patches.WalkFailsIff | pysarts/corrections.py:161-218 | The walk fails exactly when some window has rain and `min_plevel` is not a master level, and then with LevelNotFound. |
| Patches.WalkAllSucceed | pysarts/corrections.py:161-218 | A successful walk succeeded on every window. |
| Patches.WalkCoveredPixel | pysarts/corrections.py:161-218 | A covered pixel holds its owner window's delays and levels (the last window in ndindex order containing it), at its offset in that window. |
| Patches.WalkUncoveredPixel | pysarts/corrections.py:146-158 | In a walk that succeeds, a pixel past the covered extent keeps the initial zeros, levels included. |

Where the code and its documentation disagree, the model follows the code:

- **When LevelNotFound is raised.**
  - In `patches_era_delay` the level is looked up only inside `_optimise_zenith_delay`, that is, only when a window with rain is reached.
  - A scene with no rain anywhere never fails on an unknown `min_plevel`.
  - The dry-window shortcut never looks the level up.
- **The starting best deviation.** It is +infinity (line 265; the pure-correction baseline on line 264 is commented out). So the first finite trial is always accepted, and the result need not beat the pure correction.
- **Patch sizes that do not fit.**
  - The docstring (lines 93-95) asks for patch sizes that divide the grid, but nothing checks it.
  - Divisibility is not what decides coverage. A gap appears exactly when (n − p) mod ⌊p/2⌋ ≠ 0 (`FullCoverageIff`). A patch that divides the grid is guaranteed to cover it only when it is even (`DividingEvenPatchCovers`). An odd patch may divide the grid and leave a gap (`OddPatchLeavesGap`), or not divide it and cover it (`OddPatchCoversNine`).
  - Unwritten rows or columns keep the zeros of `np.zeros`, including zero, not NaN, levels (`WalkUncoveredPixel`).
- **Level depth.** The window depth is the master's level count `nplevels`.
  - A slave model with more levels is cut to the first `nplevels`.
  - One with fewer makes `view_as_windows` raise, which is modelled as InvalidPatch.
- **Candidates in the global search are not independent.** `_optim_era_delay` documents its record as the deviation for the two levels it names. But `add_rainfall` (lines 49-50) changes the models in place, with no reset as in the patch search (lines 299-300). Each worker unpickles one copy of the models per `starmap` chunk, so a record's deviation also depends on the earlier candidates of its chunk and, through the chunk size, on the number of workers. The model follows the code (`OptimEraDelayRecords`). Records equal the independent evaluation only when every chunk holds one task (`OptimEraDelayFreshRecords`).
- **Level lists in the global search.** The global search takes both dates' candidate levels from the master's pressure list. The patch search stores the slave level from the slave's own list.

## Left out

- The physics is a parameter, not modelled:
  - the zenith-delay integral (`_calculate_zenith_delay_jit`: interpolation, refractivity, trapezoidal integration);
  - `ERAModel.add_rainfall`;
  - `zenith2slant`;
  - `.std()`.

  These are floating-point numerics or live in `pysarts/era.py`, `pysarts/insar.py` and `pysarts/util.py`, which are not part of this model. Injection is assumed to act pixel by pixel on the column, the rain rate and the threshold level. The look angle is a scalar.
- Floating point: sums and differences are exact reals. NaN is `None`, and only the deviation and the stored levels can be NaN. Rain sums are exact, so `SumZeroIff` needs non-negative rates.
- Pressure levels are stored once per model, not per column. `pressure[0, 0, :]` is the model's level list, or empty for an empty grid.
- `multiprocessing.Pool` scheduling is concurrency. The model keeps what decides the results: the chunk size, taken from the `starmap` rule with the worker count (`os.cpu_count()`) as a parameter, and one fresh copy of the models per chunk, run in order. Results are returned in input order.
- GlobalSearch.InjectAll: that `add_rainfall` changes the model in place is taken from how its result is discarded at lines 49-50. `pysarts/era.py`, which defines it, is not part of this model.
- GlobalSearch.SwapRecordAt: states the date symmetry only when every chunk holds one task. With larger chunks the swapped search visits the pairs in another order, so the injections each record inherits differ, and no symmetry is promised.
- Logging, `print` and `sys.stdout.flush`, and the numba `@jit` decorators are left out: they are diagnostics and compilation.
- `liquid_zenith_delay` is left out: it is one multiplication with no bookkeeping.
- `pysarts/__main__.py` (command line) and `pysarts/plot.py` (plotting) are left out: they are I/O and not part of this core.
- The `SAR`, `GeoGrid` and `ERAModel` result objects are left out. Outputs are plain grids, and the six output arrays of `patches_era_delay` are one grid of six-field pixels.
- Only a successful `calculate_era_zenith_delay` is used inside a patch: the patch models are built on the patch's own grid, so the size guard cannot fire there.
- Assembly.Assemble: its contract states only the output's shape. Its contents are stated by `AssembleLastWriter` and `AssembleUntouched`.
- Patches.Walk: its contract states only the output's shape. Its meaning is stated by `WalkFailsIff`, `WalkCoveredPixel` and `WalkUncoveredPixel`.
- PatchSearch.SearchOutput: its contract states the shape and that the result is the pure correction or one trial's output. Which one is stated by `SearchAllNaNIsPure`, `SearchKeepsFirstBest` and `DrySearchIsPure`.
- Tiling.Run: its contract states only the output's shape. Its meaning is stated by `RunFailsIff`, `RunAssembles`, `TiledCovered` and `TiledUncovered`.
