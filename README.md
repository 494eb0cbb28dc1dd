# Economic complexity indices

A Dafny model of the dense-matrix engine of `py-economic-complexity`
(Datawheel). The engine computes the indices of the economic-complexity
literature from a locations × activities table:

- revealed comparative advantage (RCA);
- the binarized advantage matrix;
- proximity between activities and the relatedness (density) of a location to an activity, with its distance;
- the opportunity gain;
- the method of reflections behind ECI and PCI, and its "subnational" variant with an external PCI;
- cross-proximity and cross-relatedness between two kinds of activities;
- product-measure indices (PGI, PEII), which are share-weighted averages of a per-location measure.

The repository holds several generations of the same functions:

- the legacy `complexity/` package;
- the NumPy-era top-level `economic_complexity/` modules;
- the `economic_complexity/pandas/` and `economic_complexity/polars/` engines.

The generations differ in observable ways. Some take a cutoff parameter and others fix the threshold at 1. `ge(cutoff).astype(int)` turns a missing cell into 0, while masked assignment (`x[x >= 1] = 1; x[x < 1] = 0`) keeps it missing. Some functions binarize their input and others assume it is already 0/1. Several carry outright defects. The model states each generation against one shared algebra, so that the differences show up as lemmas.

## Conventions

- A cell is `Num = Fin(v) | NaN`, with `v` an exact `real`. In the model, every division by zero gives `NaN`. On the non-negative data of the library only 0/0 arises; IEEE infinities are not modelled.
- A frame is a `Matrix = seq<seq<Num>>`: locations are rows and activities are columns. The column count is carried explicitly, so a frame with no rows keeps its width. Labels are positional.
- pandas `.sum()` skips missing cells (`SkipSum`). NumPy sums and `DataFrame.dot` propagate them (`NumSum`, `NumDot`).
- Square roots (the `"sqrt"` proximity and `std`) go through a caller-supplied `root: real -> real`. The lemmas about them state what holds when `root` is a true square root.
- Code that updates in place is imperative:
  - masked assignment on a copy (`Frames.MaskInPlace` on an `array2`);
  - `np.fill_diagonal` (`Frames.FillDiagonal`);
  - the two caller frames that the legacy `cross_proximity` rewrites (`LegacyCross.CrossProximity`);
  - the `for` loops of the method of reflections (`Reflections.Reflect`) and of `complexity_subnational` (`PandasComplexity.ComplexitySubnational`).
- Errors the source raises on every call are `Result` values with the Python exception as `PyError`.

## Modules

| module | models |
|---|---|
| `Numeric`, `Algebra`, `Stats` | cells, sums, dot products, transpose, matrix product, mean/std standardization |
| `Advantage`, `Frames` | the two binarizations, zero-filling, in-place masking, copy, diagonal fill |
| `PivotRca`, `LegacyRca`, `PolarsRca` | `economic_complexity/rca.py`, `complexity/rca.py`, `economic_complexity/polars/rca.py` |
| `Space`, `PandasProximity`, `PandasRelatedness` | proximity and density; `economic_complexity/pandas/proximity.py`, `relatedness.py` |
| `Gain`, `PandasOppGain` | opportunity gain; `economic_complexity/pandas/opp_gain.py` |
| `MeasureIndex`, `PandasPmi` | the product-measure index; `economic_complexity/pandas/pmi.py` |
| `Reflections`, `PandasComplexity`, `MaskedComplexity`, `Subnational` | the method of reflections; `economic_complexity/pandas/complexity.py`, `economic_complexity/complexity.py` and its legacy twin `complexity/complexity.py`, `economic_complexity/subnational.py` |
| `CrossSpace` | `economic_complexity/cross_space.py` |
| `NumpyProductSpace` | `economic_complexity/product_space.py` |
| `PolarsProductSpace` | `economic_complexity/polars/product_space.py` |
| `LegacyProductSpace` | `complexity/product_space.py` and the identical `complexity/relatedness.py`, `complexity/opportunity_gain.py` |
| `LegacyCross` | `complexity/cross_proximity.py`, `complexity/cross_relatedness.py` |

## Model

| member | source | states |
|---|---|---|
| Advantage.GeBinarize | economic_complexity/pandas/proximity.py:35 | the result has the input's shape and only 0/1 cells; a cell is 1 exactly when the RCA is defined and at least the cutoff, so a missing RCA becomes 0 |
| Advantage.MaskBinarize | economic_complexity/complexity.py:42-43 | the result has the input's shape; a cell is missing exactly when the RCA is; a defined cell becomes a bit that is 1 exactly when the RCA is at least 1 |
| Advantage.FillMissing | economic_complexity/rca.py:30 | `fillna(0)`: no missing cell remains, defined cells are unchanged, missing cells become 0 |
| Advantage.GeBinarizeKeepsBinary | economic_complexity/pandas/opp_gain.py:50 | binarizing a 0/1 frame again at threshold 1 returns it unchanged |
| Advantage.GeRowExtremes | economic_complexity/pandas/relatedness.py:46 | a row with no cell at the cutoff binarizes to all 0, a row with every cell at the cutoff to all 1 |
| Advantage.FlipRow | economic_complexity/pandas/opp_gain.py:44 | `1 - M` turns an all-1 row into all 0 and an all-0 row into all 1 |
| Advantage.FlipBinary | economic_complexity/pandas/opp_gain.py:44 | `1 - M` of a 0/1 frame is 0/1 and has a 1 exactly where M has a 0 |
| Advantage.MaskAgreesWithGe | economic_complexity/complexity.py:42-43 | on a frame with no missing cell, masked assignment at 1 equals `ge(1).astype(int)` |
| Advantage.FillMaskIsGe | complexity/product_space.py:27-33 | zero-filling the masked frame gives exactly `ge(1).astype(int)` |
| Advantage.MaskTwice | complexity/cross_proximity.py:17-20 | masking is idempotent, so masking the same frame a second time changes nothing |
| Advantage.MaskFlipMasked | complexity/product_space.py:146-152 | the inverse `1 - M` of a masked frame is left unchanged by the masking inside `relatedness` |
| Advantage.MaskSkipSums | complexity/product_space.py:42 | the skip-missing column sums of the masked frame equal those of `ge(1).astype(int)` |
| Advantage.FillMaskTransposed | complexity/product_space.py:33 | `rcas.T.fillna(0)` of the masked frame is the transpose of `ge(1).astype(int)` |
| Advantage.MaskRowExtremes | complexity/product_space.py:88-90 | a defined row entirely below 1 masks to all 0, one entirely at or above 1 to all 1 |
| Frames.Copy | economic_complexity/complexity.py:41 | a fresh array with the frame's shape and contents |
| Frames.Where | economic_complexity/complexity.py:42 | `x[p(x)] = v`: every cell meeting the mask becomes `v`, every other cell keeps its old value |
| Frames.FillDiagonal | economic_complexity/pandas/proximity.py:66 | `np.fill_diagonal(phi, 0)`: diagonal cells become 0 and every other cell is unchanged |
| Frames.MaskInPlace | economic_complexity/complexity.py:42-43 | the array's new contents are the masked binarization of its old contents |
| Frames.MaskBinarizeCopy | complexity/relatedness.py:16-18 | copying and masking in place yields exactly the masked binarization of the caller's frame |
| Stats.StandardizedSumsToZero | economic_complexity/pandas/complexity.py:75-76 | when the std is defined and non-zero, the defined standardized values sum to 0 |
| Stats.StandardizeCell | economic_complexity/pandas/complexity.py:75-76 | a standardized cell is defined exactly when the cell and the std are defined and the std is non-zero |
| Stats.ConstantIsUndefined | economic_complexity/pandas/complexity.py:75-76 | a vector whose defined values are all equal standardizes to all missing (0/0) |
| Stats.MeanBetween | economic_complexity/pandas/complexity.py:75 | the skip-missing mean of values within [lo, hi] is defined and within [lo, hi] |
| PivotRca.Rca | economic_complexity/rca.py:35-41 | the output has the input's rows and columns |
| PivotRca.MissingAsZero | economic_complexity/rca.py:30 | a frame and its zero-filled copy have the same RCA |
| PivotRca.CellValue | economic_complexity/rca.py:32-40 | on non-negative data a cell is defined exactly when its row sum and column sum are positive, and then equals `V·total / (rowSum·colSum)` |
| PivotRca.ScaleInvariant | economic_complexity/rca.py:32-40 | multiplying every cell by a non-zero constant leaves every RCA value unchanged |
| PivotRca.SharesSumToOne | economic_complexity/rca.py:35-40 | for a location with positive total, `Σ_a R[l,a]·colSum(a)/total = 1` |
| PivotRca.WeightedCell | economic_complexity/rca.py:35-40 | each term `R[l,a]·colSum(a)/total` is the location's share `V[l,a]/rowSum(l)` |
| LegacyRca.NotBinarized | complexity/rca.py:18-21 | the output is not thresholded: `[[1,0],[1,1]]` gives RCA 1.5 at the first cell |
| LegacyRca.MissingCellIsZero | complexity/rca.py:8-18 | a missing cell whose row and column totals are positive gets RCA 0 |
| LegacyRca.EmptyLocationUndefined | complexity/rca.py:10-18 | a location whose zero-filled total is 0 gets an undefined RCA in every column |
| LegacyRca.EmptyActivityUndefined | complexity/rca.py:14-18 | an activity whose zero-filled total is 0 gets an undefined RCA in every row |
| PolarsRca.Threshold | economic_complexity/polars/rca.py:89-91 | the binarized value is a bit, and it is 1 exactly when the RCA is missing or at least the cutoff |
| PolarsRca.Rca | economic_complexity/polars/rca.py:59-93 | one output record per input record, with the same location and activity and the zero-filled measure |
| PolarsRca.MissingAsZero | economic_complexity/polars/rca.py:62 | zero-filling the measure beforehand changes no output record |
| PolarsRca.Binarized | economic_complexity/polars/rca.py:82-93 | with `binary=False` the RCA is the raw row RCA; with `binary=True` it is a bit that is 1 exactly when the raw RCA is missing or at least the cutoff |
| PolarsRca.RowValue | economic_complexity/polars/rca.py:65-80 | on non-negative data a row's RCA is defined exactly when its location and activity totals are positive, and then equals `value·grand / (locTotal·actTotal)` |
| PolarsRca.ScaleInvariant | economic_complexity/polars/rca.py:78-80 | scaling every measure by a non-zero constant leaves each row's RCA unchanged, binarized or not |
| Space.ProcedureOf | economic_complexity/pandas/proximity.py:56-61 | the geometric-mean denominator is chosen exactly for `"sqrt"`; every other name takes the max branch |
| Space.PhiFrom | economic_complexity/pandas/proximity.py:65-66 | the proximity is activities × activities with a zero diagonal |
| Space.MaxIgnoresRoot | economic_complexity/pandas/proximity.py:61 | the max procedure does not depend on the square root |
| Space.FillProximity | economic_complexity/pandas/proximity.py:65-66 | dividing and then zeroing the diagonal in place yields `PhiFrom` |
| Space.PhiSymmetric | economic_complexity/pandas/proximity.py:58-65 | under either procedure a symmetric count gives a symmetric proximity |
| Space.GramIsSymmetric | economic_complexity/pandas/proximity.py:45 | `Mᵀ·M` is symmetric |
| Space.GramCounts | economic_complexity/pandas/proximity.py:39-48 | on a 0/1 frame `count[i,j]` is the number of locations holding both i and j, `k[i]` the number holding i, and the count is at most each prevalence |
| Space.BinaryColSumsAgree | economic_complexity/product_space.py:31 | on a 0/1 frame NumPy's column sums equal the skip-missing ones |
| Space.MaxProximityCell | economic_complexity/pandas/proximity.py:61-65 | under the max procedure an off-diagonal cell is undefined exactly when both prevalences are 0, and otherwise lies in [0, 1] |
| Space.BinaryProximity | economic_complexity/pandas/proximity.py:45-66 | the proximity of a 0/1 frame is symmetric with a zero diagonal, obeys the max bound under the max procedure and the sqrt bound under the sqrt procedure |
| Space.SqrtProximityCell | economic_complexity/pandas/proximity.py:56-59 | under the sqrt procedure a defined off-diagonal cell lies in [0, 1] wherever `root` is a true square root of `k_i·k_j` |
| Space.OnesLikeNoMissing | complexity/relatedness.py:26-27 | `rcas*0 + 1` of a frame without missing cells is all ones |
| Space.OnesLikeRow | complexity/relatedness.py:26-27 | `rcas*0 + 1` of a row without missing cells is all ones |
| Space.DensityDenominator | economic_complexity/pandas/relatedness.py:54-57 | with an all-ones row the denominator is the column sum of Φ, the same for every location |
| Space.ShareUndefined | economic_complexity/pandas/relatedness.py:60 | for a 0/1 row the share is undefined exactly when the proximity column has a missing cell or sums to 0 |
| Space.ShareBounded | economic_complexity/pandas/relatedness.py:60 | for a 0/1 row and a non-negative column with positive sum the share is defined and within [0, 1] |
| Space.DensityCell | economic_complexity/pandas/relatedness.py:49-60 | a density cell of a 0/1 row is undefined exactly when the column is incomplete or sums to 0, and within [0, 1] for non-negative columns with positive sum |
| Space.ExtremeShares | economic_complexity/pandas/relatedness.py:49-60 | an all-0 row has share 0 and an all-1 row share 1 of any complete column with non-zero sum |
| Space.DensityExtremeRows | economic_complexity/pandas/relatedness.py:49-60 | a location holding nothing has density 0, one holding everything density 1 |
| Space.DensityMissingRow | complexity/relatedness.py:16-32 | one missing cell in a location's row makes every density of that location undefined |
| Gain.RatioColumnSumsToOne | economic_complexity/pandas/opp_gain.py:40 | every column of `proximities / proximities.sum()` with non-zero sum sums to 1 |
| Gain.MiddleCell | economic_complexity/pandas/opp_gain.py:47 | `middle` is 0 where the location holds the activity and `pci[a]` where it does not |
| Gain.InverseExtremes | economic_complexity/pandas/opp_gain.py:50-52 | the relatedness of the inverse is 0 for a location holding everything and 1 for one holding nothing |
| Gain.HoldsEverything | economic_complexity/pandas/opp_gain.py:44-57 | a location holding every activity gets gain `−pci[a]` |
| Gain.HoldsNothing | economic_complexity/pandas/opp_gain.py:44-57 | a location holding nothing gets the proximity-weighted mean of pci over column a |
| Gain.HoldsNothingBounded | economic_complexity/pandas/opp_gain.py:44-57 | that gain lies between the smallest and largest pci |
| Gain.MissingRow | complexity/opportunity_gain.py:8-30 | one missing cell in a location's advantage row makes that location's every gain undefined |
| PandasProximity.Proximity | economic_complexity/pandas/proximity.py:6-68 | the result is the binarize-count-divide-zero-diagonal proximity and obeys the proximity laws over the prevalences of the binarized frame |
| PandasProximity.CoOccurrence | economic_complexity/pandas/proximity.py:35-48 | `count[i,j]` is the number of locations at the cutoff in both, is symmetric, and is at most each prevalence |
| PandasProximity.NobodyHolds | economic_complexity/pandas/proximity.py:48 | a prevalence is 0 exactly when no location reaches the cutoff in that activity |
| PandasRelatedness.AsDensity | economic_complexity/pandas/relatedness.py:43-60 | relatedness is the density of `ge(cutoff)` over the given or default proximities with an all-ones denominator row |
| PandasRelatedness.DefaultProximity | economic_complexity/pandas/relatedness.py:43-44 | passing no proximities equals passing the max-procedure proximity at the same cutoff |
| PandasRelatedness.RowIndependentDenominator | economic_complexity/pandas/relatedness.py:54-57 | each cell is `M[l]·Φ[:,a]` over the column sum of Φ |
| PandasRelatedness.Bounded | economic_complexity/pandas/relatedness.py:60 | a cell is undefined exactly when the proximity column is incomplete or sums to 0, and within [0, 1] for a non-negative column with positive sum |
| PandasRelatedness.NoAdvantage | economic_complexity/pandas/relatedness.py:49-60 | a location with no activity at the cutoff has relatedness 0 in every complete column with non-zero sum |
| PandasRelatedness.FullAdvantage | economic_complexity/pandas/relatedness.py:49-60 | a location with every activity at the cutoff has relatedness 1 there |
| PandasRelatedness.DefaultBounded | economic_complexity/pandas/relatedness.py:43-60 | with default proximities and every activity held somewhere, a cell is defined exactly when its proximity column sums to a positive value, and then lies in [0, 1] |
| PandasRelatedness.DistanceComplement | economic_complexity/pandas/relatedness.py:90 | distance is defined exactly where relatedness is, the two add up to 1, and distance is in [0, 1] when relatedness is |
| PandasOppGain.InverseRelatedness | economic_complexity/pandas/opp_gain.py:44-50 | `relatedness(1 − M, proximities=Φ)` at its default cutoff 1 is the density of the inverse frame |
| PandasOppGain.AsGain | economic_complexity/pandas/opp_gain.py:34-57 | the gain is the shared gain formula over `ge(cutoff)` and the given or default proximities |
| PandasOppGain.FullAdvantageGain | economic_complexity/pandas/opp_gain.py:37-57 | a location at the cutoff in every activity gets `−pci[a]` |
| PandasOppGain.NoAdvantageGain | economic_complexity/pandas/opp_gain.py:37-57 | a location at the cutoff in no activity gets the proximity-weighted mean of pci |
| PandasOppGain.CutoffStillUsed | economic_complexity/pandas/opp_gain.py:24-37 | with proximities given, the cutoff still decides the result: one activity gives `−pci` at or above the cutoff and `pci` below it |
| MeasureIndex.Common | economic_complexity/pandas/pmi.py:44 | the intersection lists every label of both indexes exactly once |
| MeasureIndex.SortLabels | economic_complexity/pandas/pmi.py:49-51 | sorting keeps the same labels and makes distinct labels strictly increasing |
| MeasureIndex.Kept | economic_complexity/pandas/pmi.py:42-51 | the kept locations are exactly the common ones, strictly increasing |
| MeasureIndex.SharesSumToOne | economic_complexity/pandas/pmi.py:54-56 | a kept row with positive total has defined shares summing to 1; a zero total makes every share undefined |
| MeasureIndex.WeightAt | economic_complexity/pandas/pmi.py:45-59 | the k-th kept weight of activity a is `m[l,a]·tbl[l,a]/rowSum(l)` for the row l carrying the k-th kept label, and the kept measure is that label's zero-filled value |
| MeasureIndex.PmiBetween | economic_complexity/pandas/pmi.py:59-64 | with at least one contributing location, the index is defined and lies between the smallest and largest measure of the contributing locations |
| MeasureIndex.ConstantMeasure | economic_complexity/pandas/pmi.py:62-64 | a measure equal to c on every kept location gives index c |
| MeasureIndex.NoContributorUndefined | economic_complexity/pandas/pmi.py:59-64 | when no kept location contributes to the activity, `normp` is 0 and the index is undefined |
| MeasureIndex.ZeroTotalUndefined | economic_complexity/pandas/pmi.py:54-64 | a kept location with zero export total makes every activity's index undefined |
| MeasureIndex.MissingAdvantageUndefined | economic_complexity/product_space.py:191-218 | a missing advantage cell of a kept location makes that activity's index undefined |
| MeasureIndex.MissingMeasureAsZero | economic_complexity/pandas/pmi.py:36 | zero-filling the measure beforehand changes nothing |
| MeasureIndex.MissingExportAsZero | economic_complexity/pandas/pmi.py:35 | zero-filling the export table beforehand changes nothing |
| MeasureIndex.IndexFrame.Rename | economic_complexity/pandas/pmi.py:99 | renaming in place sets the column name and keeps the values |
| PandasPmi.PmiBounds | economic_complexity/pandas/pmi.py:39-64 | with `m = ge(cutoff)` and a contributing location, the index lies between the contributing locations' smallest and largest measure |
| PandasPmi.ConstantPmi | economic_complexity/pandas/pmi.py:62-64 | a constant measure c yields c |
| PandasPmi.NoAdvantageUndefined | economic_complexity/pandas/pmi.py:39-64 | an activity in which no kept location reaches the cutoff gets an undefined index |
| PandasPmi.RenamedPmi | economic_complexity/pandas/pmi.py:98-100 | `pgi`/`peii` (also lines 134-136) return a fresh frame holding the index under the given column name |
| Reflections.KeepRows | economic_complexity/complexity.py:47 | `dropna(how="all")` keeps exactly the rows that are not entirely missing |
| Reflections.KeptCols | economic_complexity/complexity.py:48 | `dropna(how="all", axis=1)` keeps, in order, exactly the columns that are not entirely missing |
| Reflections.DropAllMissing | economic_complexity/complexity.py:46-50 | the warning flag is set exactly when the drop changed the shape |
| Reflections.DropLeavesNoMissingLine | economic_complexity/complexity.py:46-48 | after the drop no row and no column is entirely missing |
| Reflections.DropKeepsComplete | economic_complexity/complexity.py:46-50 | a non-empty frame without missing cells is kept as it is and no warning is raised |
| Reflections.DropWarnsIff | economic_complexity/complexity.py:46-51 | the warning is raised exactly when some row or column is entirely missing |
| Reflections.Reflect | economic_complexity/pandas/complexity.py:63-73 | the loop leaves kc after `iterations−2` and kp after `iterations−1` simultaneous updates with the fixed divisors `kc0`, `kp0` |
| Reflections.Indices | economic_complexity/pandas/complexity.py:63-76 | the outputs are those iterates, standardized |
| Reflections.KcStepWithin | economic_complexity/pandas/complexity.py:73 | a new `kc[c]` with positive diversity is the mean of kp over the held activities and lies in kp's range |
| Reflections.KpStepWithin | economic_complexity/pandas/complexity.py:71 | a new `kp[p]` with positive ubiquity is the mean of kc over the holding locations and lies in kc's range |
| Reflections.IteratesBounded | economic_complexity/pandas/complexity.py:63-73 | on a 0/1 frame where every location and activity is present, every iterate is defined and within [1, larger dimension] |
| Reflections.UnheldActivityCascade | economic_complexity/pandas/complexity.py:63-73 | an activity nobody holds is 0/0 from the first update, makes every kc undefined from the second and every kp from the third |
| Reflections.MissingCellCascade | economic_complexity/complexity.py:55-65 | a missing cell makes its kc and kp undefined after one update and all of kc and kp after two |
| Reflections.MissingCellUndefinesAll | economic_complexity/complexity.py:55-68 | with a missing cell and at least 4 iterations, every ECI and PCI is undefined |
| Reflections.UnheldActivityUndefinesAll | economic_complexity/pandas/complexity.py:63-76 | with an activity nobody holds and at least 4 iterations, every ECI and PCI is undefined |
| PandasComplexity.Complexity | economic_complexity/pandas/complexity.py:49-78 | the flag is the drop step's warning, and ECI/PCI are the standardized iterates of the frame in use |
| PandasComplexity.BinarizedDrop | economic_complexity/pandas/complexity.py:49-61 | after `ge().astype(int)` the warning fires exactly when the frame has rows but no columns or columns but no rows; otherwise the drop changes nothing |
| PandasComplexity.DropIgnored | economic_complexity/pandas/complexity.py:60-61 | unless the frame is empty, `drop` has no effect |
| PandasComplexity.MissingRowUnwarned | economic_complexity/pandas/complexity.py:49-59 | an all-missing RCA row would be dropped, but after binarization no warning is raised |
| PandasComplexity.HeldLabels | economic_complexity/pandas/complexity.py:124-126 | exactly the labels of the activities whose binarized cell is 1 |
| PandasComplexity.Selected | economic_complexity/pandas/complexity.py:129 | every selected value belongs to a held label, and the selection is empty exactly when no label is held |
| PandasComplexity.RowEci | economic_complexity/pandas/complexity.py:129-132 | a location's ECI is undefined exactly when no external pci entry has a held label |
| PandasComplexity.ComplexitySubnational | economic_complexity/pandas/complexity.py:105-147 | one ECI per row left by the drop, in row order, standardized only if asked; the external pci is returned unchanged |
| PandasComplexity.SubnationalVisitsAll | economic_complexity/pandas/complexity.py:112-119 | unless the frame is empty, the loop visits every row of the binarized frame |
| PandasComplexity.EciBetween | economic_complexity/pandas/complexity.py:129-132 | when every listed pci of a held activity lies in [lo, hi] and one is listed, the ECI is defined and in [lo, hi] |
| PandasComplexity.MissingPciHalves | economic_complexity/pandas/complexity.py:132 | a listed missing pci counts in `len` but not in `sum`: pcis 2 and missing give ECI 1 |
| MaskedComplexity.Complexity | economic_complexity/complexity.py:41-68 | the flag is the drop step's warning on the masked frame, and ECI/PCI are the standardized iterates of the frame in use |
| MaskedComplexity.WarnsIff | economic_complexity/complexity.py:46-51 | the warning fires exactly when the RCA frame has an entirely missing row or column, whatever `drop` is |
| MaskedComplexity.DropCleans | economic_complexity/complexity.py:52-53 | with `drop` no entirely missing line remains; without it the masked frame is used as is |
| MaskedComplexity.AgreesWithPandas | economic_complexity/complexity.py:41-53 | for a non-empty frame without missing cells the frame used equals the pandas engine's at cutoff 1, and no warning fires |
| MaskedComplexity.MissingCellSurvives | complexity/complexity.py:18-31 | a missing cell whose row and column also hold defined cells survives the drop |
| MaskedComplexity.MissingCellUndefines | economic_complexity/complexity.py:55-68 | with at least 4 iterations, a missing cell in the frame used makes every ECI and PCI undefined |
| Subnational.AlwaysRaises | economic_complexity/subnational.py:33-39 | every call raises `UnboundLocalError` for `rcas` |
| CrossSpace.CrossCounts | economic_complexity/cross_space.py:40-51 | `count[i,j]` is the number of locations with A-advantage in i and B-advantage in j, and is at most both prevalences |
| CrossSpace.CrossBounded | economic_complexity/cross_space.py:54-62 | every cell is defined, within [0, 1], at most each zero-filled quotient, and 0 when either prevalence is 0 |
| CrossSpace.CrossSwap | economic_complexity/cross_space.py:44-62 | swapping the two 0/1 frames transposes the result |
| CrossSpace.CrossProximitySwap | economic_complexity/cross_space.py:40-62 | swapping the two RCA frames transposes the cross-proximity |
| CrossSpace.SelfCrossDiagonal | economic_complexity/cross_space.py:44-62 | no diagonal adjustment: crossing a frame with itself gives 1 on the diagonal of every held activity |
| CrossSpace.CrossRelatednessCell | economic_complexity/cross_space.py:103-108 | a cell is `M[l]·X[:,j]` over the column sum of X, undefined exactly when the column is incomplete or sums to 0, and within [0, 1] for a non-negative column with positive sum |
| CrossSpace.CrossChain | economic_complexity/cross_space.py:40-108 | with X computed from the same frames, a cell is undefined exactly when X's column sums to 0 and otherwise lies in [0, 1] |
| NumpyProductSpace.Proximity | economic_complexity/product_space.py:27-45 | raises `ValueError` exactly when the procedure is "sqrt" and there is more than one activity; otherwise returns the raw-input proximity, symmetric with a zero diagonal |
| NumpyProductSpace.SqrtShapeFails | economic_complexity/product_space.py:31-36 | "sqrt" with two or more activities raises; every other call returns the proximity of the frame |
| NumpyProductSpace.CorrectedProximityAgrees | economic_complexity/product_space.py:27-45 | with the prevalences laid out as a row against a column, a 0/1 input gives the pandas proximity at cutoff 1 under both procedures, and the proximity laws hold |
| NumpyProductSpace.BinaryProximityAgrees | economic_complexity/product_space.py:27-45 | on a 0/1 input "max" always returns, and every returned proximity equals the pandas one at cutoff 1 and obeys the proximity laws |
| NumpyProductSpace.RawProximityExceedsOne | economic_complexity/product_space.py:27-45 | without binarization the [0, 1] bound fails: with "max", the row `[2, 2]` gives proximity 2 |
| NumpyProductSpace.MissingRcaUndefines | economic_complexity/product_space.py:29-45 | a missing RCA in column a makes every off-diagonal proximity of a undefined: "max" returns them undefined, "sqrt" raises |
| NumpyProductSpace.RelatednessCell | economic_complexity/product_space.py:73-85 | a cell is `R[l]·Φ[:,a]` over the column sum of Φ, on the raw input |
| NumpyProductSpace.BinaryRelatednessAgrees | economic_complexity/product_space.py:73-85 | on a 0/1 input it equals the pandas relatedness at cutoff 1 |
| NumpyProductSpace.BinaryRowBounded | economic_complexity/product_space.py:73-103 | for a 0/1 row relatedness and distance are undefined together, and for a non-negative column with positive sum both lie in [0, 1] and add up to 1 |
| NumpyProductSpace.RawRelatednessExceedsOne | economic_complexity/product_space.py:73-85 | without binarization the [0, 1] bound fails: with one activity of non-zero self-proximity the relatedness is the raw RCA itself, so RCA 2 gives 2 |
| NumpyProductSpace.OpportunityGainFails | economic_complexity/product_space.py:118-137 | every call raises `AttributeError` on `multiply` |
| NumpyProductSpace.InverseAgrees | economic_complexity/product_space.py:127-133 | `relatedness(1 − M, Φ)` is the density of the inverse frame |
| NumpyProductSpace.CorrectedIsGain | economic_complexity/product_space.py:118-140 | the gain with `right` computed on a frame is the shared gain formula over the masked frame |
| NumpyProductSpace.CorrectedAgreesWithPandas | economic_complexity/product_space.py:118-140 | without missing cells it equals the pandas opportunity gain at cutoff 1 |
| NumpyProductSpace.CorrectedMissingRow | economic_complexity/product_space.py:118-140 | a missing RCA makes its location's every gain undefined |
| NumpyProductSpace.MeasureFrame | economic_complexity/product_space.py:186-221 | `_pmi` returns a fresh frame named `measure_name` holding the index over the masked advantages |
| NumpyProductSpace.Pgi | economic_complexity/product_space.py:241 | `pgi` is `_pmi` named `pgi` |
| NumpyProductSpace.Peii | economic_complexity/product_space.py:264 | `peii` is `_pmi` named `peii` |
| NumpyProductSpace.MaskedPmiAgrees | economic_complexity/product_space.py:191-193 | without missing RCA it equals the pandas index at cutoff 1 |
| NumpyProductSpace.MissingRcaUndefined | economic_complexity/product_space.py:191-218 | a missing RCA of a kept location makes that activity's index undefined |
| NumpyProductSpace.MaskedPmiBounds | economic_complexity/product_space.py:208-218 | with defined RCA and a contributing location the index lies between the contributors' smallest and largest measure |
| PolarsProductSpace.ToMatrix | economic_complexity/polars/product_space.py:31 | `to_numpy()`: row l holds the l-th value of every column, in column order |
| PolarsProductSpace.CalculateProximity | economic_complexity/polars/product_space.py:31-58 | raises `ValueError` exactly when the procedure is "sqrt" and there is more than one activity; otherwise the raw-input proximity of the frame's array, symmetric with a zero diagonal |
| PolarsProductSpace.SqrtShapeFails | economic_complexity/polars/product_space.py:40-47 | "sqrt" on a frame of two or more activities raises |
| PolarsProductSpace.BinaryProximity | economic_complexity/polars/product_space.py:45-56 | on 0/1 input "max" always returns, and every returned proximity obeys the proximity laws |
| PolarsProductSpace.FromArray | economic_complexity/polars/product_space.py:106 | the new frame's column names are the given headers |
| PolarsProductSpace.CorrectedLayout | economic_complexity/polars/product_space.py:90-107 | with headers taken from the remaining columns: a missing location column is an error; otherwise the activity columns keep their names, hold `R[l]·Φ[:,j]` over the column sum of Φ, and the location column is appended unchanged |
| PolarsProductSpace.AgreesWhenLocationFirst | economic_complexity/polars/product_space.py:90-107 | when the location column comes first, `columns[1:]` names the columns correctly |
| PolarsProductSpace.LocationNotFirst | economic_complexity/polars/product_space.py:90-107 | otherwise the result is named after `columns[1:]`, which drops the first activity's name and keeps the location's, and has one column fewer than the layout meant |
| LegacyProductSpace.ProximityFails | complexity/product_space.py:50-55 | every call raises `NameError` for `np` |
| LegacyProductSpace.CorrectedProximity | complexity/product_space.py:27-60 | with NumPy imported, the result is the pandas proximity at cutoff 1 and obeys the proximity laws over the prevalences of `ge(1)` |
| LegacyProductSpace.Relatedness | complexity/product_space.py:88-104 | the masked copy's density over Φ with the `rcas*0+1` denominator row |
| LegacyProductSpace.Distance | complexity/product_space.py:122 | distance is undefined exactly where relatedness is, and otherwise is `1 − relatedness` |
| LegacyProductSpace.RelatednessCell | complexity/relatedness.py:21-32 | for a defined row, a cell is undefined exactly when the proximity column is incomplete or sums to 0, and within [0, 1] for a non-negative column with positive sum |
| LegacyProductSpace.RowIndependentDenominator | complexity/product_space.py:98-104 | for a defined row the denominator is the column sum of Φ |
| LegacyProductSpace.MissingRowUndefined | complexity/relatedness.py:16-32 | a missing RCA makes its location's every relatedness undefined |
| LegacyProductSpace.RelatednessExtremes | complexity/product_space.py:93-104 | a defined row entirely below 1 has relatedness 0, one entirely at or above 1 has relatedness 1 |
| LegacyProductSpace.RelatednessAgreesWithPandas | complexity/relatedness.py:16-32 | without missing cells it equals the pandas relatedness at cutoff 1 |
| LegacyProductSpace.OpportunityGain | complexity/product_space.py:137-159 | the gain is the shared gain formula over the masked frame |
| LegacyProductSpace.MiddleCell | complexity/opportunity_gain.py:17-20 | for a defined RCA, `middle` is 0 at or above 1 and `pci[a]` below it |
| LegacyProductSpace.GainAgreesWithPandas | complexity/opportunity_gain.py:8-30 | without missing cells it equals the pandas opportunity gain at cutoff 1 |
| LegacyProductSpace.GainMissingRow | complexity/opportunity_gain.py:8-30 | a missing RCA makes its location's every gain undefined |
| LegacyProductSpace.ExtremeGains | complexity/opportunity_gain.py:23-30 | a defined row entirely at or above 1 gets `−pci[a]`, one entirely below 1 the proximity-weighted mean of pci |
| LegacyCross.CrossProximity | complexity/cross_proximity.py:17-41 | the caller's two frames are masked in place, even when they are the same frame, and the result is the cross-proximity of the masked frames |
| LegacyCross.MissingZeroes | complexity/cross_proximity.py:23-34 | a missing cell in either column makes the count, and so the cell, 0 after `fillna(0)` |
| LegacyCross.AgreesWhereDefined | complexity/cross_proximity.py:23-41 | where both columns are defined, the cell equals the current cross-proximity at cutoff 1 |
| LegacyCross.CrossBounded | complexity/cross_proximity.py:33-41 | every cell is defined, within [0, 1], and 0 when either masked prevalence is 0 |
| LegacyCross.AgreesWithCurrent | complexity/cross_proximity.py:17-41 | without missing cells it equals the current cross-proximity at cutoff 1 |
| LegacyCross.PlusOne | complexity/cross_relatedness.py:23 | `rcas_a + 1` adds 1 to every cell |
| LegacyCross.CrossRelatedness | complexity/cross_relatedness.py:16-27 | the masked copy's density over X with the `rcas_a + 1` denominator row |
| LegacyCross.ShiftDot | complexity/cross_relatedness.py:23-25 | `(M[l] + 1)·X[:,j]` is `M[l]·X[:,j]` plus the column sum |
| LegacyCross.CrossRelatednessCell | complexity/cross_relatedness.py:20-27 | for a defined row and column, a cell is `n / (n + s)` with n the numerator and s the column sum |
| LegacyCross.RowWeight | complexity/cross_relatedness.py:20 | for a non-negative column the numerator n is defined and `0 ≤ n ≤ s` |
| LegacyCross.HalfBound | complexity/cross_relatedness.py:20-27 | for a non-negative column with positive sum a cell lies in [0, 1/2], and is 0 for a location with no advantage |
| LegacyCross.FullRowHalf | complexity/cross_relatedness.py:22-27 | a location holding every activity gets 1/2 as written but 1 when corrected |
| LegacyCross.CorrectedCell | complexity/cross_relatedness.py:20-27 | with the all-ones row, a cell is `n / s`, undefined exactly when the column is incomplete or sums to 0, and within [0, 1] for a non-negative column with positive sum |
| LegacyCross.CorrectedAgrees | complexity/cross_relatedness.py:16-27 | without missing cells the corrected legacy function equals the current cross-relatedness at cutoff 1 |
| LegacyCross.AsWrittenFromCorrected | complexity/cross_relatedness.py:22-27 | the value as written is `c / (c + 1)` of the corrected value c |

## Left out

- IEEE floating point: infinities, rounding, signed zeros and NaN payloads. Cells are exact reals, and division by zero gives the missing value.
- Pandas label alignment, reindexing, pivoting and DataFrame/LazyFrame conversion. Frames are positional: cells are combined by position, and duplicate labels are excluded where pandas would raise.
- MeasureIndex.PmiFrom, PandasPmi.Pmi, NumpyProductSpace.MaskedPmi (and through them the `pgi`/`peii` functions and their renames): the final `np.divide(num, normp)` is modelled positionally, as pandas before 2.0 computes it. `num` is labelled by the measure's name and `normp` by `0`; under pandas releases whose ufuncs align labels, the two columns do not match and every value would be missing, which the model does not capture.
- PolarsRca.Rca: location and activity keys are assumed never null, because `fill_null(0)` fills only the numeric measure and the inner joins would drop records with a null key; output records are compared in input order, which a Polars join does not promise to keep.
- Polars null and NaN are one missing value. The Polars functions are modelled on eager frames, so `collect()` is not modelled.
- PolarsRca.Threshold: Polars orders NaN above every number, so a missing RCA (0/0) binarizes to 1.0. The model follows that ordering.
- PolarsProductSpace.ToMatrix: the model assumes `to_numpy()` keeps row order; a Polars array's memory layout (row- or column-major) is not modelled.
- Space.SqrtProximityCell: the square root is a parameter; the bound is stated only where it is a true square root of `k_i·k_j`.
- Stats.ConstantIsUndefined: `std` goes through the same root parameter; the lemma needs only `root(0) = 0`.
- Logging and printing: the drop-step warning is a returned flag.
- The index name that `complexity_subnational` copies onto its result, and the labels of the ECI series.
- MeasureIndex.MissingExportAsZero: `tbl.dropna(how="all", axis=1)` is modelled as zero-filling that column. Both give the same index for every other activity, but the model keeps the dropped activity as a column.
- PandasPmi.RenamedPmi: `pgi` and `peii` of the pandas engine are the same code, so one method models both, with the name as a parameter.
- LegacyCross.CrossRelatedness: the value `rcas_a * 0` at complexity/cross_relatedness.py:22 is overwritten at line 23 and is not computed.
- Export similarity (`economic_complexity/pandas/similarity.py` and the `similarity` function of `economic_complexity/product_space.py`): logarithms and Pearson correlation are transcendental floating-point numerics.
- `relative_relatedness` of `economic_complexity/pandas/relatedness.py`: it calls the keyword-only `relatedness` positionally, which raises `TypeError`, and it needs a row-wise std.
- `economic_complexity/polars/run.py`: dispatch glue importing names that the polars files do not define.
- Packaging: the `__init__.py` files, `setup.py`, and the tests and their CSV fixtures. `complexity/__init__.py` imports a `cross_space` module that is not part of this model.

## Findings

| source | as written | input that shows it | evidently intended | confidence | as-written member | corrected member |
|---|---|---|---|---|---|---|
| economic_complexity/subnational.py:33 | `rcas.index.name` is read before `rcas` is assigned at line 39 | any call | read the index name from `df_rca`, as the pandas engine does | not executed | Subnational.AlwaysRaises | PandasComplexity.ComplexitySubnational |
| complexity/product_space.py:53-55 | `np.power`/`np.maximum` with only pandas imported | any call of `proximity` | import NumPy | not executed | LegacyProductSpace.ProximityFails | LegacyProductSpace.CorrectedProximity |
| economic_complexity/product_space.py:137 | `dcp.multiply(pci)` on the ndarray that `relatedness` returns | any call of `opportunity_gain` | multiply the relatedness frame by pci column-wise | not executed | NumpyProductSpace.OpportunityGainFails | NumpyProductSpace.CorrectedIsGain |
| complexity/cross_relatedness.py:23 | `rcas_ones = rcas_a + 1` replaces the ones row of line 22, so the denominator is numerator plus column sum | `rcas_a = [[1]]`, `cross_proximity = [[1]]` gives 0.5 | divide by the column sum, so the value lies in [0, 1] and a location holding everything gets 1 | not executed | LegacyCross.FullRowHalf | LegacyCross.CorrectedAgrees |
| economic_complexity/product_space.py:34-36 | `kp0_trans.dot(kp0)` multiplies an `(n, 1)` array by an `(n,)` one, which NumPy refuses for n ≠ 1 | any frame with two activities and `procedure="sqrt"` | the outer product of the prevalences, as the pandas engine builds it | not executed | NumpyProductSpace.SqrtShapeFails | NumpyProductSpace.CorrectedProximityAgrees |
| economic_complexity/polars/product_space.py:45-47 | the same `kp0_trans.dot(kp0)` on the collected frame's array | any frame with two activity columns and `procedure="sqrt"` | the outer product of the prevalences | not executed | PolarsProductSpace.SqrtShapeFails | NumpyProductSpace.CorrectedProximityAgrees |
| economic_complexity/polars/product_space.py:91 | `headers = rca.columns[1:]` whichever column holds the location | a frame whose columns are `a, location, b` gives result columns `location, b` | name the densities after the columns left once the location column is dropped | not executed | PolarsProductSpace.LocationNotFirst | PolarsProductSpace.CorrectedLayout |
