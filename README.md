# Disaggregation engine of the OpenQuake hazard calculator, in Dafny

This project models the core of the OpenQuake engine's disaggregation calculator and proves properties of the model. For one site, the calculator:

1. collects the raw bin data of every rupture near the site;
2. merges the results of its `collect_bins` tasks;
3. numbers the tectonic region types and inverts that numbering;
4. defines the bin edges for magnitude, distance, longitude, latitude and epsilon;
5. fills the six-dimensional disaggregation matrix.

The progress counter of the calculator base class is modelled too. It counts completed tasks and calls a progress handler whenever the whole percentage rises.

Files:

- `wrappers.dfy`: `Option` and `Result`.
- `types.dfy`: intensity measure types, disaggregation keys, and the raw bin data. The raw bin data (`Bins`) is six parallel lists: magnitudes, distances, longitudes, latitudes, tectonic region type numbers, and per-record no-exceedance probabilities.
- `bin_edges.dfy`: `_define_bins`.
- `arrange.dfy`: bin membership and `_arrange_data_in_bins`. The matrix is a Dafny `array6`, filled in place by the six nested loops.
- `collect.dfy`: `_collect_bins_data` (a loop appending to six lists), the zero-curve test of `get_iml`, and `collect_bins` (three nested loops building a dictionary).
- `progress.dfy`: the `Calculator` class and its progress fields. It covers `register_progress_handler`, `initialize_percent`, `log_percent`, `task_completed` and a sequential `parallelize`.
- `disagg_calculator.dfy`:
  - `trt_num` and `trt_names`;
  - the merge of task results (`collect_result`);
  - for one site, the body of `full_disaggregation`, as the class `DisaggHazardCalculator`.

Modelling decisions:

- **Exact arithmetic.** Reals are exact and integers unbounded. The percentage is the exact floor `done * 100 / total`.
- **`num_tasks` before any count.** Python's `None` is written as `numTasks == 0`.
- **Inheritance.** `DisaggHazardCalculator` holds its `Calculator` base as the field `base`, because Dafny classes do not inherit.
- **The progress handler** takes a name (`Handler`). Each call to it is appended to the calculator's `notifications` list. The class invariant `Valid()` says that, since the last `initialize_percent`, the handler was called exactly at the percentages where the count rose (`Progress.Rises`).
- **Callers into code not modelled** become function-typed parameters:
  - the ground-motion physics (`Collect.Physics`): GSIM contexts, `disaggregate_poe` and `get_probability_no_exceedance`, with failure as a `Result`;
  - `numpy.interp` (`Collect.Interp`);
  - the stored hazard curves (`Site.curve`);
  - `get_longitudinal_extent` (`Arrange.Extent`), an uninterpreted signed extent;
  - the longitude edges (`lonEdgesOf` of `DefineBins`).
- **Dictionaries.**
  - Dictionaries are Dafny maps.
  - A loop over a dictionary (`collect_result`, and the arrange arguments built from `self.result`) picks its keys in an unspecified order.
  - The dictionaries of intensity measure types and of realizations are iterated in a given order, as sequences.
- **Rupture data.** A source's ruptures, with their distance and closest point to the site, are given as data (`SourceRuptures`, `Rupture`).
- **`trt_names`.** It is defined as the types listed at the position they are numbered by, in position order. `DisaggCalculator.TrtNamesSorted` proves this order is the order of `sorted((num, trt))`.
- **Latitude edges** use the smallest and largest latitude as the south and north of the bounding box.
- **Sequential tasks.** `parallelize` is modelled as one task after the other. Each completion calls the callback. The collect phase stops at the first task that raises.

Two points where the code is not what its purpose suggests:

- `_arrange_data_in_bins` calls `log_percent_gen`, which `openquake/engine/calculators/base.py` does not define. That per-cell logging is not part of this model.
- The fixed-width edge formula can give a single edge and so no bin (see Findings). `BinEdges.DefineBins` models the formula as written. `BinEdges.DefineBinsCovering` is the corrected definition, proved to enclose the data with at least one bin and to agree with the written one whenever that defines a bin.

## Model

| member | source | states |
|---|---|---|
| DisaggTypes.KeyOfInjective | openquake/engine/calculators/hazard/disaggregation/core.py:353 | two results get the same key exactly when their realization id, poe, level and intensity measure type all agree, so no two of them overwrite each other |
| DisaggTypes.Extend | openquake/engine/calculators/hazard/disaggregation/core.py:471-472 | extending each of the six lists keeps them parallel and adds the record counts |
| DisaggTypes.ExtendMonoid | openquake/engine/calculators/hazard/disaggregation/core.py:464-472 | extending is associative and six empty lists are its identity on both sides |
| BinEdges.Floor | openquake/engine/calculators/hazard/disaggregation/core.py:132 | `f <= x < f + 1` |
| BinEdges.Ceil | openquake/engine/calculators/hazard/disaggregation/core.py:133 | `x <= c < x + 1` |
| BinEdges.Min | openquake/engine/calculators/hazard/disaggregation/core.py:132 | the result is an element of the list and at most every element |
| BinEdges.Max | openquake/engine/calculators/hazard/disaggregation/core.py:133 | the result is an element of the list and at least every element |
| BinEdges.ScaledRangeAt | openquake/engine/calculators/hazard/disaggregation/core.py:131-134 | edge `i` of `width * arange(lo, hi + 1)` is `width * (lo + i)` |
| BinEdges.ScaledRangeIncreasing | openquake/engine/calculators/hazard/disaggregation/core.py:131-134 | a scaled integer range is strictly increasing, from `width*lo` to `width*hi` |
| BinEdges.FixedWidthEdgesCover | openquake/engine/calculators/hazard/disaggregation/core.py:131-139 | the edges as written number `ceil(max/w) - floor(min/w) + 1`; they start at `w*floor(min/w) <= min`, end at `w*ceil(max/w) >= max`, and are strictly increasing |
| BinEdges.FixedWidthEdgesDegenerate | openquake/engine/calculators/hazard/disaggregation/core.py:131-134 | as written, `min == max == w*k` gives the single edge `[w*k]`, i.e. no bin |
| BinEdges.SingleMagnitudeHasNoBin | openquake/engine/calculators/hazard/disaggregation/core.py:131-134 | magnitudes all 7.0 with width 0.5 give the edges `[7.0]` |
| BinEdges.CoveringEdgesAgree | openquake/engine/calculators/hazard/disaggregation/core.py:131-134 | the corrected edges equal the written ones whenever those define at least one bin |
| BinEdges.CoveringEdgesCover | openquake/engine/calculators/hazard/disaggregation/core.py:131-139 | the corrected edges have at least two values, are strictly increasing, start at or below `min` and end at or above `max` |
| BinEdges.CoveringEdgesCoverData | openquake/engine/calculators/hazard/disaggregation/core.py:150-153 | the corrected edges enclose every value lying between `min` and `max` |
| BinEdges.LinspaceLast | openquake/engine/calculators/hazard/disaggregation/core.py:155-156 | `linspace(lo, hi, n)` ends at `hi` for `n >= 2` |
| BinEdges.LinspaceIncreasing | openquake/engine/calculators/hazard/disaggregation/core.py:155-156 | `linspace` over `lo < hi` is strictly increasing |
| BinEdges.EpsilonEdgesShape | openquake/engine/calculators/hazard/disaggregation/core.py:155-156 | the epsilon edges number `n_epsilons + 1`; they start at `-t`, end at `t`, are spaced `2t/n_epsilons` apart, and are strictly increasing for `t > 0` |
| BinEdges.FixedWidthEdgesGrid | openquake/engine/calculators/hazard/disaggregation/core.py:131-134 | the edges as written are the multiples `w * i` for the consecutive integers `i` from `floor(min/w)` to `ceil(max/w)` |
| BinEdges.FixedWidthEdgesCoverData | openquake/engine/calculators/hazard/disaggregation/core.py:131-139 | the edges as written enclose every value lying between `min` and `max` |
| BinEdges.DefineBins | openquake/engine/calculators/hazard/disaggregation/core.py:117-157 | fails exactly when a list is empty; otherwise the magnitude, distance and latitude edges are the fixed-width grid from `floor(min/w)` to `ceil(max/w)` and enclose all the data; the longitude edges are the geodesic library's and the epsilon edges are `linspace(-t, t, n+1)` with `n+1` values from `-t` to `t` |
| BinEdges.SingleMagnitudeDefinesNoBin | openquake/engine/calculators/hazard/disaggregation/core.py:131-134 | as written, ruptures that all have magnitude 7.0, binned 0.5 wide, get the single magnitude edge 7.0 and so no magnitude bin |
| BinEdges.DefineBinsCovering | openquake/engine/calculators/hazard/disaggregation/core.py:117-157 | the corrected `_define_bins`: fails exactly when `_define_bins` does; otherwise the magnitude, distance and latitude edges have two or more values and enclose the data, and they are `_define_bins`'s own edges whenever those have two or more; longitude and epsilon edges are `_define_bins`'s |
| BinEdges.MinMaxPermutation | openquake/engine/calculators/hazard/disaggregation/core.py:132-133 | `min` and `max` of a list do not depend on the order of its values |
| BinEdges.DefineBinsPermutation | openquake/engine/calculators/hazard/disaggregation/core.py:117-157 | raw data holding the same values in another order gets the same edges, given longitude edges that depend only on the points |
| Arrange.BinMask | openquake/engine/calculators/hazard/disaggregation/core.py:176-183 | entry `j` holds iff value `j` lies in bin `i`: `v <= e[i+1]`, and also `e[i] < v` when `i > 0` |
| Arrange.LonMask | openquake/engine/calculators/hazard/disaggregation/core.py:186-190 | entry `j` holds iff `ext(lon, hi) >= 0`, and also `ext(lo, lon) > 0` when `i > 0` |
| Arrange.CellMask | openquake/engine/calculators/hazard/disaggregation/core.py:205-206 | entry `j` holds iff record `j` is in the magnitude, distance, longitude and latitude bins and has the trt number |
| Arrange.FillTrts | openquake/engine/calculators/hazard/disaggregation/core.py:199-212 | the innermost loop sets the `num_trt` cells of one epsilon bin to their values, so the filled prefix of the matrix grows past that bin, and leaves every later cell as it was |
| Arrange.ArrangeDataInBins | openquake/engine/calculators/hazard/disaggregation/core.py:160-215 | a fresh matrix of shape `(len(mag)-1, …, len(eps)-1, num_trt)`; every cell is `1 - prod` of its epsilon column over the records in the cell |
| Arrange.BinOf | openquake/engine/calculators/hazard/disaggregation/core.py:175-178 | a value at most the last edge lies in the bin returned |
| Arrange.ExactlyOneBin | openquake/engine/calculators/hazard/disaggregation/core.py:175-195 | with sorted edges, a value is in some bin iff it is at most the last edge (bin 0 has no lower test), and in at most one bin |
| Arrange.StrictlyIncreasingIsSorted | openquake/engine/calculators/hazard/disaggregation/core.py:131-134 | strictly increasing edges are sorted |
| Arrange.CoveredValueInOneBin | openquake/engine/calculators/hazard/disaggregation/core.py:175-195 | every value enclosed by the edges lies in exactly one bin |
| Arrange.ProductInUnit | openquake/engine/calculators/hazard/disaggregation/core.py:208-210 | a product of probabilities is a probability |
| Arrange.ProductConcat | openquake/engine/calculators/hazard/disaggregation/core.py:208-210 | the product of a concatenation is the product of the products |
| Arrange.SelectProbabilities | openquake/engine/calculators/hazard/disaggregation/core.py:209 | selecting from probabilities gives probabilities |
| Arrange.SelectNothing | openquake/engine/calculators/hazard/disaggregation/core.py:209 | an all-false mask selects nothing |
| Arrange.SelectConcat | openquake/engine/calculators/hazard/disaggregation/core.py:209 | boolean indexing distributes over concatenation |
| Arrange.CellValueInUnit | openquake/engine/calculators/hazard/disaggregation/core.py:208-210 | with no-exceedance probabilities in `[0,1]`, every cell is in `[0,1]` |
| Arrange.EmptyCellIsZero | openquake/engine/calculators/hazard/disaggregation/core.py:205-210 | a cell with no record in it is 0 |
| Arrange.TwoRecordCell | openquake/engine/calculators/hazard/disaggregation/core.py:205-210 | two records with no-exceedance 0.8 and 0.5 in one cell give 0.6 |
| Arrange.ColumnConcat | openquake/engine/calculators/hazard/disaggregation/core.py:209 | the epsilon column of concatenated records is the concatenation of the columns |
| Arrange.CellMaskConcat | openquake/engine/calculators/hazard/disaggregation/core.py:205-206 | the cell mask of extended lists is the concatenation of the masks |
| Arrange.ArrangeInputExtend | openquake/engine/calculators/hazard/disaggregation/core.py:471-472 | extended lists remain valid input to the matrix assembly |
| Arrange.CellColumnConcat | openquake/engine/calculators/hazard/disaggregation/core.py:205-210 | the selected column of extended lists is the concatenation of the selected columns |
| Arrange.CellValueOfExtend | openquake/engine/calculators/hazard/disaggregation/core.py:208-210 | merging raw data multiplies the cells' non-exceedances: `1 - v(x++y) == (1 - v(x)) * (1 - v(y))` |
| Arrange.CellValueMergeOrder | openquake/engine/calculators/hazard/disaggregation/core.py:208-210 | the order in which two raw data lists are merged does not change any cell |
| Collect.RuptureFailureSticks | openquake/engine/calculators/hazard/disaggregation/core.py:78-104 | once the physics fails on a prefix of the ruptures, the source's records fail with that error |
| Collect.CollectedFailureSticks | openquake/engine/calculators/hazard/disaggregation/core.py:74-109 | once a prefix of the sources fails, the whole collection fails with that error |
| Collect.CollectBinsData | openquake/engine/calculators/hazard/disaggregation/core.py:51-114 | the six-list loop returns exactly the collected records, or raises the first source's error |
| Collect.FlatLength | openquake/engine/calculators/hazard/disaggregation/core.py:74-78 | the flattened ruptures number the total of the sources' ruptures |
| Collect.RuptureRecordsContent | openquake/engine/calculators/hazard/disaggregation/core.py:78-104 | earlier records kept; one record per rupture appended in order, with the source's trt number and the probabilities the physics gave |
| Collect.CollectedRecords | openquake/engine/calculators/hazard/disaggregation/core.py:74-104 | the six lists are parallel, one entry per rupture in source-then-rupture order; each trt entry is `trt_num[source trt]` and each probability vector is the physics' result |
| Collect.RuptureRecordsSucceed | openquake/engine/calculators/hazard/disaggregation/core.py:78-109 | a source's records succeed iff the physics succeeds on each of its ruptures |
| Collect.CollectedSucceeds | openquake/engine/calculators/hazard/disaggregation/core.py:74-109 | `_collect_bins_data` returns iff every source has a GSIM, a trt number and physics that succeeds |
| Collect.CollectedFailureNamesSource | openquake/engine/calculators/hazard/disaggregation/core.py:105-109 | the error raised names the id of the first source that cannot be collected |
| Collect.AllZero | openquake/engine/calculators/hazard/disaggregation/core.py:304 | true iff every poe of the curve is 0.0 |
| Collect.GetIml | openquake/engine/calculators/hazard/disaggregation/core.py:291-306 | `None` iff every curve poe is 0.0; otherwise the interpolation over the reversed curve and levels |
| Collect.PoesFailureSticks | openquake/engine/calculators/hazard/disaggregation/core.py:346-357 | a failure in the poe loop is the loop's result |
| Collect.RlzsFailureSticks | openquake/engine/calculators/hazard/disaggregation/core.py:345-357 | a failure in the realization loop is the loop's result |
| Collect.ImtsFailureSticks | openquake/engine/calculators/hazard/disaggregation/core.py:343-357 | a failure in the intensity measure type loop is the loop's result |
| Collect.CollectPoes | openquake/engine/calculators/hazard/disaggregation/core.py:346-357 | the poe loop skips all-zero curves and stores the collected data under each key |
| Collect.CollectBins | openquake/engine/calculators/hazard/disaggregation/core.py:309-358 | `{}` without ruptures; otherwise the three nested loops' dictionary, or the first error raised |
| Collect.OverPoesContent | openquake/engine/calculators/hazard/disaggregation/core.py:346-357 | the poe loop keeps its starting keys and adds exactly the keys its iterations store, each with data collected at that iteration |
| Collect.OverRlzsContent | openquake/engine/calculators/hazard/disaggregation/core.py:345-357 | the same for the realization loop |
| Collect.OverImtsContent | openquake/engine/calculators/hazard/disaggregation/core.py:343-357 | the same for the intensity measure type loop |
| Collect.CollectBinsKeys | openquake/engine/calculators/hazard/disaggregation/core.py:333-358 | the result is `{}` without ruptures; a key is present iff some iteration with a non-zero curve stores it, with that iteration's data |
| Collect.ZeroCurveSkipped | openquake/engine/calculators/hazard/disaggregation/core.py:304-305 | no key of the result has the realization and intensity measure type of an all-zero curve |
| Progress.Percent | openquake/engine/calculators/base.py:132 | `p * total <= done * 100 < (p + 1) * total`: the whole percentage |
| Progress.PercentMonotone | openquake/engine/calculators/base.py:131-135 | more completed tasks never give a smaller percentage |
| Progress.PercentBounds | openquake/engine/calculators/base.py:132 | at most 100 while no more tasks complete than were spawned; exactly 100 when all are done |
| Progress.RisesShape | openquake/engine/calculators/base.py:131-136 | the handler's percentages strictly increase, lie in `1..percent` and end at the current percent |
| Progress.AtMostHundredCalls | openquake/engine/calculators/base.py:131-136 | the handler fires at most 100 times per count, and after all tasks its last call is with 100 |
| Progress.Calculator.constructor | openquake/engine/calculators/base.py:42-45 | `num_tasks` unset, the default handler, no calls made |
| Progress.Calculator.RegisterProgressHandler | openquake/engine/calculators/base.py:47-57 | sets the handler and nothing else |
| Progress.Calculator.InitializePercent | openquake/engine/calculators/base.py:104-112 | returns the arguments unchanged; sets the task name, `num_tasks = len(args)`, `tasksdone = 0` and `percent = 0` |
| Progress.Calculator.LogPercent | openquake/engine/calculators/base.py:124-136 | `tasksdone` goes up by one; `percent` becomes the new whole percentage and never decreases; the handler is called with it iff it rose; nothing else changes |
| Progress.Calculator.TaskCompleted | openquake/engine/calculators/base.py:114-122 | exactly the contract of `log_percent` |
| Progress.Calculator.Parallelize | openquake/engine/calculators/base.py:86-102 | all tasks counted, each through `task_completed` with its result; the returned list of results is a modelling device (the source returns nothing) that records what each completion was given; percent 100; at most 100 handler calls, strictly increasing and ending at 100 |
| Progress.EpochBound | openquake/engine/calculators/base.py:124-136 | a valid calculator has called its handler at most 100 times since the count started, and is at 100 once all tasks are done |
| DisaggCalculator.TrtNum | openquake/engine/calculators/hazard/disaggregation/core.py:433-434 | every listed type is numbered, and only those; each by its last position in the list |
| DisaggCalculator.TrtNamesSorted | openquake/engine/calculators/hazard/disaggregation/core.py:444-445 | `trt_names` lists every numbered type once, by strictly increasing number |
| DisaggCalculator.DistinctNumbering | openquake/engine/calculators/hazard/disaggregation/core.py:433-434 | with no type listed twice, each type is numbered by its own position |
| DisaggCalculator.TrtNamesInvert | openquake/engine/calculators/hazard/disaggregation/core.py:433-445 | with no type listed twice, `trt_names` is the list of types and `trt_names[trt_num[t]] == t` |
| DisaggCalculator.Merged | openquake/engine/calculators/hazard/disaggregation/core.py:461-472 | the keys of either map; an incoming key's six lists are the old ones (empty for a new key) followed by the incoming ones; other keys are unchanged |
| DisaggCalculator.PriorMerged | openquake/engine/calculators/hazard/disaggregation/core.py:461-472 | under every key, the merged lists are the accumulated lists followed by the incoming lists |
| DisaggCalculator.MergedIdentity | openquake/engine/calculators/hazard/disaggregation/core.py:461-472 | merging nothing changes nothing; merging into nothing gives the incoming result |
| DisaggCalculator.MergedAssociative | openquake/engine/calculators/hazard/disaggregation/core.py:461-472 | merging two results one after the other is merging their merge |
| DisaggCalculator.MergedSizes | openquake/engine/calculators/hazard/disaggregation/core.py:469-472 | merging keeps lists parallel and adds the record counts |
| DisaggCalculator.ThreeWayCell | openquake/engine/calculators/hazard/disaggregation/core.py:469-472 | two incoming lists appended in either order give the same matrix cell |
| DisaggCalculator.ProductSwap | openquake/engine/calculators/hazard/disaggregation/core.py:208-210 | the product is unchanged when the last two blocks are swapped |
| DisaggCalculator.MergeOrderIrrelevant | openquake/engine/calculators/base.py:89-90 | task results arrive in no set order; for the same bin edges, whichever of two comes first, every cell of the matrix of the merged lists is the same |
| DisaggCalculator.MergeOrderSameEdges | openquake/engine/calculators/hazard/disaggregation/core.py:446-447 | whichever of two results comes first, `_define_bins` of the merged lists gives the same edges (or the same failure), given longitude edges that depend only on the points |
| DisaggCalculator.MergeOrderSameMatrix | openquake/engine/calculators/hazard/disaggregation/core.py:446-447 | whichever of two results comes first, the matrix the arrange task builds for a key has the same edges and the same value in every cell |
| DisaggCalculator.MergeStep | openquake/engine/calculators/hazard/disaggregation/core.py:461-472 | one more incoming key folded in takes the merge one key further |
| DisaggCalculator.CollectedAllKeys | openquake/engine/calculators/hazard/disaggregation/core.py:438-440 | the site's merged result has exactly the keys some task stored |
| DisaggCalculator.CollectedAllFailureSticks | openquake/engine/calculators/hazard/disaggregation/core.py:438-440 | a task that raises ends the collection phase with its error |
| DisaggCalculator.ArrangeJobs | openquake/engine/calculators/hazard/disaggregation/core.py:446-447 | one arrange job per key of the merged result, with distinct keys, each carrying `trt_names` and that key's lists |
| DisaggCalculator.DisaggHazardCalculator.constructor | openquake/engine/calculators/base.py:42-45 | a fresh base calculator with nothing counted and an empty result |
| DisaggCalculator.DisaggHazardCalculator.CollectResult | openquake/engine/calculators/hazard/disaggregation/core.py:454-473 | `self.result` becomes the merge of the old result and the incoming one, and `log_percent` runs exactly once |
| DisaggCalculator.DisaggHazardCalculator.CollectSite | openquake/engine/calculators/hazard/disaggregation/core.py:432-440 | the `collect_bins` tasks' results merged in order into `self.result`, all tasks counted, percent 100; or the first error raised |
| DisaggCalculator.DisaggHazardCalculator.ArrangeSite | openquake/engine/calculators/hazard/disaggregation/core.py:448-450 | `self.result` cleared, one count per arrange job, percent 100 |
| DisaggCalculator.DisaggHazardCalculator.DisaggregateSite | openquake/engine/calculators/hazard/disaggregation/core.py:425-450 | fails iff a collect task raises, with its error; the site is skipped iff nothing was collected; otherwise one arrange job per merged key, all of them counted, and the result cleared |

## Left out

- Database access and persistence are left out (I/O): `_save_disagg_matrix`, the `models` lookups of `collect_bins` and `arrange_and_save_disagg_matrix`, and the hazard-curve query of `get_iml`. The curve becomes the function `Site.curve`.
- `pmf_dict` is left out: it calls hazardlib's `disagg.pmf_map`, whose code is not part of this model.
- `arrange_and_save_disagg_matrix` is not modelled as one task. Its arithmetic parts are modelled by `BinEdges.DefineBins` and `Arrange.ArrangeDataInBins`; its saving is I/O. `DisaggHazardCalculator.ArrangeSite` models only the counting of the arrange tasks.
- The longitude edges are left out (foreign geodesic library, floating point). `get_spherical_bounding_box`, `get_longitudinal_extent` and `npoints_between` become the parameter `lonEdgesOf` of `BinEdges.DefineBins`. Longitude membership uses an uninterpreted signed extent.
- `numpy.interp` is left out (floating-point interpolation). It is the parameter `interp` of `Collect.GetIml`.
- The ground-motion physics is left out (foreign code): GSIM contexts, `disaggregate_poe`, Joyner-Boore distance, closest points and `get_probability_no_exceedance`. The distance and closest point of a rupture are given data. The no-exceedance vector is the result of the parameter `physics`.
- Rupture generation is left out (database and foreign hazardlib code): `gen_ruptures_for_site`. The ruptures near the site are given.
- Celery distribution and `OQ_NO_DISTRIBUTE` are left out (concurrency). Tasks run in sequence. The order of completions is covered only by `DisaggCalculator.MergeOrderSameMatrix` and the lemmas it uses.
- Monitors, logging, `export`, `clean_up`, `monitor`, `task_arg_gen`, `pre_execute` and `post_process` are left out. They do I/O or only raise `NotImplementedError`.
- The call `super().post_execute()` in `full_disaggregation` is left out: the classical calculator is not part of this model. The loop over the site collection is left out too: `DisaggregateSite` is the body for one site.
- `log_percent_gen` (per-cell progress inside `_arrange_data_in_bins`) is not part of this model, because it is not defined in `openquake/engine/calculators/base.py`.
- Progress.Percent: computes the exact floor of `done * 100 / total`, not `int(float(done) / total * 100)`. The float formula can be one lower: 29 of 100 gives 28.
- BinEdges.DefineBins: requires positive bin widths. The source divides by them and has no other handling of a zero width.
- Progress.Calculator.LogPercent: requires `num_tasks > 0`. The source divides by `num_tasks`, which is `None` before any count and 0 for an empty argument list; neither case is handled.
- DisaggCalculator.TrtNamesInvert: requires the list of tectonic region types to have no repeats. With a repeated type, `trt_num` keeps its last position, `trt_names` is shorter than the list, and the inverse property can fail.
- DisaggCalculator.MergeOrderSameEdges: assumes the longitude edges depend only on the values of the longitudes and latitudes, not on their order (`BinEdges.PointOrderFree`). The geodesic library that computes them is not part of this model.
- Arrange.ArrangeDataInBins: proves every cell holds its value once the loops finish. It does not state that each cell is assigned exactly once.

## Findings

| source | as written | input that shows it | evidently intended | confidence | as-written member | corrected member |
|---|---|---|---|---|---|---|
| openquake/engine/calculators/hazard/disaggregation/core.py:131-153 | the magnitude, distance and latitude edges run from `floor(min/w)` to `ceil(max/w)`; when `min == max` is a multiple of `w`, that is one edge and no bin, so every record falls outside the matrix | all magnitudes 7.0 with magnitude bin width 0.5 give the edges `[7.0]`, a matrix with no magnitude bin | at least one bin enclosing the data | not executed; medium | BinEdges.SingleMagnitudeDefinesNoBin | BinEdges.DefineBinsCovering |
