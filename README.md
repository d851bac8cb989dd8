# Combining SMPS and APS particle size distributions

This project models, in Dafny, how `py_aps_smps` joins two binned particle size distributions
into one. The two distributions come from two instruments:

- the scanning mobility particle sizer (SMPS, fine particles);
- the aerodynamic particle sizer (APS, coarse particles).

Each distribution is a table of size bins. A bin has a centre diameter `dpes`, a lower and an
upper edge, a particle count `dn`, a normalised density `dndlogd` and a `flag`.
`combine_SMPS_APS_sd` works in these steps:

1. It tags the two input frames in place.
2. It concatenates them.
3. It classifies the two size ranges as overlapping, separated by a gap, or touching.
4. Depending on that, it either fills the gap with new log-spaced bins or merges the overlap:
   - To fill the gap, it interpolates their densities linearly in `dpes` between two smoothed edge anchors.
   - To merge the overlap, it folds every overlapping SMPS bin into the one or two APS bins it
     touches, drops those SMPS bins and sorts the rows by centre.
5. It recomputes the density of every row that no longer carries an instrument flag.

Modules, in dependency order:

- `SizeBins`: bins, flags, missing values, errors and the decimal-log axis.
- `Tables`: the column operations the program takes from pandas:
  - maximum and minimum;
  - boolean selection together with the row labels;
  - `idxmax`/`idxmin`;
  - `drop`;
  - a stable sort by centre.
- `BinGeometry`: bin edges from a centre and a resolution, the channel resolution and the gap grid.
- `GapInterpolation`: `interpolate_dndlogd_gap`, including the imperative method that mirrors its slice writes.
- `OverlapMerge`: the three merge rules, the loop over overlapping SMPS bins (both as a function and as a method with an index list), the drop and the sort.
- `MergeProperties`: what the merge keeps, changes and drops.
- `Combine`: range classification, the two paths, the final density recompute, and `CombineSmpsApsSd`. `CombineSmpsApsSd` is a method over two `Frame` objects, and it tags both frames in place.

`log10` and `10**x` are the two function fields of a `LogAxis` value. The model assumes only:

- `10**x` is positive and strictly increasing;
- `10**0 == 1`;
- `10**log10(x) == x`;
- where the bin-edge formula needs it, `10**y * 10**-y == 1`.

The count-to-density conversion `calc_dXdlogd_from_dX` is defined outside this core. It is a parameter `density(dn, lower, upper)`. Where a lemma needs it to invert the count formula, that is stated as the predicate `InvertsCount`.

All paths below are relative to the repository root.

## Model

| member | source | states |
|---|---|---|
| SizeBins.Tag | py_aps_smps/lib/sd_processing/structure.py:46-47 | every row keeps its diameters, count and density and gets the given flag |
| SizeBins.LogIncreasing | py_aps_smps/lib/sd_processing/structure.py:18 | the decimal logarithm is strictly increasing on positive diameters, so larger diameters span positive decades |
| SizeBins.LogAxis.Decades | py_aps_smps/lib/sd_processing/structure.py:79 | the decade span between two positive diameters from < to is positive |
| Tables.MaxOf | py_aps_smps/lib/sd_processing/structure.py:52 | the column maximum is an element of the column and bounds every element from above |
| Tables.MinOf | py_aps_smps/lib/sd_processing/structure.py:52 | the column minimum is an element of the column and bounds every element from below |
| Tables.FirstBest | py_aps_smps/lib/sd_processing/structure.py:92-93 | -1 iff no row below n has the flag; otherwise a flagged row whose key is the largest among flagged rows, and no earlier flagged row reaches that key |
| Tables.Select | py_aps_smps/lib/sd_processing/structure.py:141-145 | a boolean selection holds exactly the labelled rows whose value satisfies the mask, in increasing label order (the frame's row order) |
| Tables.FilterPairs | py_aps_smps/lib/sd_processing/structure.py:177 | a filter keeps exactly the labelled rows passing the test, and keeps them in increasing label order |
| Tables.IncreasingUnique | py_aps_smps/lib/sd_processing/structure.py:141-145 | two label-ordered selections with the same rows are the same sequence, so a selection's order is determined by its rows |
| Tables.SameHead | py_aps_smps/lib/sd_processing/structure.py:141-145 | two label-ordered selections with the same rows start with the same row |
| Tables.SameTailMembers | py_aps_smps/lib/sd_processing/structure.py:141-145 | after a common first row, two label-ordered selections with the same rows have the same remaining rows |
| Tables.LaterInTail | py_aps_smps/lib/sd_processing/structure.py:141-145 | a row after the first one of a label-ordered selection that also occurs in another with the same first row occurs after that first row there too |
| Tables.IncreasingTail | py_aps_smps/lib/sd_processing/structure.py:141-145 | dropping the first row of a label-ordered selection leaves it in label order |
| Tables.Kept | py_aps_smps/lib/sd_processing/structure.py:232 | the labels below n outside the set, strictly increasing, and every such label occurs |
| Tables.DroppedBelow | py_aps_smps/lib/sd_processing/structure.py:232 | exactly the labels below n that are in the set |
| Tables.KeptCount | py_aps_smps/lib/sd_processing/structure.py:232 | every label below n is either kept or dropped, so the two counts add up to n |
| Tables.PicksKeptStep | py_aps_smps/lib/sd_processing/structure.py:232 | appending the last row unless its label is dropped extends the rows picked at the kept labels |
| Tables.PicksKeptMembers | py_aps_smps/lib/sd_processing/structure.py:232 | the rows picked at the kept labels are exactly the rows whose label is not dropped |
| Tables.Drop | py_aps_smps/lib/sd_processing/structure.py:232 | after dropping a set of labels the kept rows remain, each once and in their order, at the increasing labels outside the set; kept rows plus dropped labels make up the input rows; a bin is present iff some row with a label outside the set holds it |
| Tables.IdxMaxUpper | py_aps_smps/lib/sd_processing/structure.py:92 | -1 iff no row has the flag; otherwise the first flagged row whose upper edge is the largest among flagged rows |
| Tables.IdxMinLower | py_aps_smps/lib/sd_processing/structure.py:93 | -1 iff no row has the flag; otherwise the first flagged row whose lower edge is the smallest among flagged rows |
| Tables.SortByDpes | py_aps_smps/lib/sd_processing/structure.py:130 | the result is sorted by centre and is a permutation of the input rows |
| Tables.Insert | py_aps_smps/lib/sd_processing/structure.py:233 | inserting into a sorted table keeps it sorted and adds exactly that bin to the multiset of rows |
| Tables.SortedOrder | py_aps_smps/lib/sd_processing/structure.py:130 | in a table sorted by centre, a row with a smaller centre comes earlier |
| BinGeometry.CalcBinBoundaries | py_aps_smps/lib/sd_processing/structure.py:21-26 | for a positive centre and resolution: 0 < lower < centre < upper, and upper = 10^(1/res) * lower |
| BinGeometry.BinsPerDecade | py_aps_smps/lib/sd_processing/structure.py:18 | the ratio is finite iff the decade span is non-zero, and then resolution times span equals the bin count |
| BinGeometry.ChannelResolution | py_aps_smps/lib/sd_processing/structure.py:16-18 | an empty table has no finite resolution; otherwise the count of bins per decade between the smallest and largest centre |
| BinGeometry.ResolutionOfSpread | py_aps_smps/lib/sd_processing/structure.py:16-18 | the resolution is finite iff the centres are not all equal, and then it is positive |
| BinGeometry.SpreadPerDecade | py_aps_smps/lib/sd_processing/structure.py:18 | for positive diameters lo <= hi the ratio is finite iff lo < hi, and then positive |
| BinGeometry.InterpolResolution | py_aps_smps/lib/sd_processing/structure.py:72-75 | finite iff both resolutions are; then the floor of their mean, non-negative for positive inputs |
| BinGeometry.RoundHalfEven | py_aps_smps/lib/sd_processing/structure.py:80 | the nearest integer, with ties going to the even one |
| BinGeometry.GapBinCount | py_aps_smps/lib/sd_processing/structure.py:80 | the bin count is within one half of the resolution times the decade span |
| BinGeometry.BinBoundariesInInterval | py_aps_smps/lib/sd_processing/structure.py:77-88 | an infinite resolution fails with NonFiniteBinCount; otherwise the grid exists iff the rounded bin count is positive, has that many bins and is contiguous from x_start to x_end, and every bin spans the same log10 width, 1/n of the decades from x_start to x_end |
| BinGeometry.GridIsContiguous | py_aps_smps/lib/sd_processing/structure.py:82-87 | log-spaced lowers without the end point and uppers shifted by one with x_end appended: lowers start at x_start, each upper is the next lower, the last upper is x_end, every cell is non-empty |
| BinGeometry.GridLower | py_aps_smps/lib/sd_processing/structure.py:82-85 | every log-spaced lower edge is positive, and the first one is x_start |
| BinGeometry.GridEvenlySpaced | py_aps_smps/lib/sd_processing/structure.py:82-87 | every cell of the grid spans log10 width (log10(x_end) - log10(x_start)) / n |
| BinGeometry.InnerCellWidth | py_aps_smps/lib/sd_processing/structure.py:82-85 | consecutive log-spaced lower edges differ by one step in log10 |
| BinGeometry.LastCellWidth | py_aps_smps/lib/sd_processing/structure.py:82-87 | the last lower edge lies one step in log10 below x_end |
| BinGeometry.LogOfExp | py_aps_smps/lib/sd_processing/structure.py:82-85 | log10 undoes the exponential that places the grid edges |
| BinGeometry.NextStep | py_aps_smps/lib/sd_processing/structure.py:82-85 | the exponents i*step and (i+1)*step differ by one step |
| BinGeometry.LastStep | py_aps_smps/lib/sd_processing/structure.py:82-87 | n equal steps cover the whole span, so the last one ends it |
| BinGeometry.GridCell | py_aps_smps/lib/sd_processing/structure.py:82-85 | every log-spaced lower edge is positive and below x_end, and the lower edges strictly increase |
| BinGeometry.GridMonotone | py_aps_smps/lib/sd_processing/structure.py:82-87 | in a contiguous grid every upper edge is at most every later lower edge, and all edges lie in [x_start, x_end] |
| BinGeometry.GridChain | py_aps_smps/lib/sd_processing/structure.py:87 | in a contiguous grid, the upper edge of cell i is at most the lower edge of any later cell j |
| BinGeometry.GapBins | py_aps_smps/lib/sd_processing/structure.py:123-128 | one `interpolated` bin per grid cell, centred at the arithmetic mean of its edges, with no count and no density |
| BinGeometry.GapBinsInsideGap | py_aps_smps/lib/sd_processing/structure.py:123-128 | gap bins are well formed, lie inside the gap and have strictly increasing centres |
| GapInterpolation.WindowDensities | py_aps_smps/lib/sd_processing/structure.py:98-99 | the densities of the label slice from..to inclusive, clamped to the table |
| GapInterpolation.KnownCount | py_aps_smps/lib/sd_processing/structure.py:98-99 | the number of present values; zero iff every value is missing |
| GapInterpolation.MeanOfKnown | py_aps_smps/lib/sd_processing/structure.py:98-99 | the mean skipping missing values is missing iff every value is missing |
| GapInterpolation.MeanWithin | py_aps_smps/lib/sd_processing/structure.py:98-99 | the mean of present values lies between any bounds of those values |
| GapInterpolation.SumWithin | py_aps_smps/lib/sd_processing/structure.py:98-99 | the sum of k present values in [lo, hi] lies in [k*lo, k*hi] |
| GapInterpolation.PrevKnown | py_aps_smps/lib/sd_processing/structure.py:109 | the nearest present value before k, or -1; everything between it and k is missing |
| GapInterpolation.NextKnown | py_aps_smps/lib/sd_processing/structure.py:109 | the nearest present value after k, or the end; everything between is missing |
| GapInterpolation.LerpAtKnots | py_aps_smps/lib/sd_processing/structure.py:109 | the straight line through two knots passes through both knots |
| GapInterpolation.Lerp | py_aps_smps/lib/sd_processing/structure.py:109 | for distinct knots the value lies on the straight line through both: its rise over the run from x0 is the slope of the knots |
| GapInterpolation.LerpBetween | py_aps_smps/lib/sd_processing/structure.py:109 | between two knots the line stays between the two knot values |
| GapInterpolation.InterpolateAt | py_aps_smps/lib/sd_processing/structure.py:109 | present values are kept; a value stays missing iff nothing before it is present |
| GapInterpolation.InterpolateBetweenNeighbours | py_aps_smps/lib/sd_processing/structure.py:109 | a filled missing value equals its previous present value when nothing follows, and otherwise lies between its two present neighbours |
| GapInterpolation.InterpolateIndex | py_aps_smps/lib/sd_processing/structure.py:109 | interpolating along the slice fills every position independently, as InterpolateAt says |
| GapInterpolation.InterpolateBetweenEnds | py_aps_smps/lib/sd_processing/structure.py:109 | with only the two ends present, every inner point gets the straight-line value in `dpes` between them |
| GapInterpolation.OnlyAnchorsKnown | py_aps_smps/lib/sd_processing/structure.py:109 | with only the two ends present, every inner point's neighbours are the two ends |
| GapInterpolation.AnchoredDensities | py_aps_smps/lib/sd_processing/structure.py:102-105 | the slice from edge to edge with the first density replaced by the lower-window mean and the last by the upper-window mean |
| GapInterpolation.AnchoredSlice | py_aps_smps/lib/sd_processing/structure.py:102-105 | writing the two anchors into the edge-to-edge slice gives AnchoredDensities and keeps the centres |
| GapInterpolation.ReplaceInterior | py_aps_smps/lib/sd_processing/structure.py:108-113 | only densities strictly between the edges change, to the given values; the edges and every other row stay as they were |
| GapInterpolation.FillInterior | py_aps_smps/lib/sd_processing/structure.py:102-113 | only densities strictly inside the edge-to-edge slice change; the two edges are restored; inner rows get the interpolation of the anchored slice |
| GapInterpolation.WithDensities | py_aps_smps/lib/sd_processing/structure.py:109 | writing a column of densities into a label range changes only those densities |
| GapInterpolation.GapFilled | py_aps_smps/lib/sd_processing/structure.py:90-115 | NoEdgeBin iff there is no smps or no aps row; EmptyGapSlice iff the aps edge comes before the smps edge; otherwise the filled table |
| GapInterpolation.InterpolateDndlogdGap | py_aps_smps/lib/sd_processing/structure.py:90-115 | the method writing anchors, interpolating a copy and restoring the edges computes GapFilled |
| GapInterpolation.RestoredEdges | py_aps_smps/lib/sd_processing/structure.py:108-113 | interpolating the whole slice and then restoring the two edge cells is FillInterior |
| GapInterpolation.FilledAt | py_aps_smps/lib/sd_processing/structure.py:109 | each inner row gets the interpolation of the anchored slice at its own offset |
| GapInterpolation.InteriorBetweenAnchors | py_aps_smps/lib/sd_processing/structure.py:98-109 | in a sorted table with an empty interior, each inner row gets the straight line in `dpes` between the two anchors, so its value lies between them |
| GapInterpolation.InteriorOnLine | py_aps_smps/lib/sd_processing/structure.py:98-109 | the same for any inner row whose centre lies between the edge centres |
| GapInterpolation.AnchoredLine | py_aps_smps/lib/sd_processing/structure.py:102-109 | with only the two window means present in the anchored slice, an inner row is interpolated to the straight line between them |
| GapInterpolation.GapRowsBetweenEdges | py_aps_smps/lib/sd_processing/structure.py:92-130 | in a sorted table, a row whose centre lies strictly between the two edges sits between them |
| GapInterpolation.EdgesInOrder | py_aps_smps/lib/sd_processing/structure.py:92-102 | when the smps edge ends below the aps edge in a sorted table, the edge slice is non-empty and the fill succeeds |
| OverlapMerge.Apply | py_aps_smps/lib/sd_processing/structure.py:164-171 | a merge writes edges, centre and count, sets the flag to merged and leaves the density alone |
| OverlapMerge.LaterUpdateWins | py_aps_smps/lib/sd_processing/structure.py:164-228 | a second merge into the same aps row replaces the first completely |
| OverlapMerge.LeftEdgeUpdate | py_aps_smps/lib/sd_processing/structure.py:159-170 | the merged bin runs from the smps lower edge to the aps upper edge, centred at their arithmetic mean |
| OverlapMerge.LeftEdgeDn | py_aps_smps/lib/sd_processing/structure.py:167-170 | the left-edge count is present iff both input counts are |
| OverlapMerge.ContainedUpdate | py_aps_smps/lib/sd_processing/structure.py:185-189 | the aps bin keeps its edges and centre |
| OverlapMerge.ContainedDn | py_aps_smps/lib/sd_processing/structure.py:188-189 | the contained count is present iff both input counts are |
| OverlapMerge.StraddleFirstUpdate | py_aps_smps/lib/sd_processing/structure.py:197-208 | the first aps bin keeps its edges and centre |
| OverlapMerge.StraddleSecondUpdate | py_aps_smps/lib/sd_processing/structure.py:214-225 | the second aps bin keeps its edges and centre |
| OverlapMerge.StraddleDn | py_aps_smps/lib/sd_processing/structure.py:207-225 | the straddle count is present iff both input counts are |
| OverlapMerge.LeftEdgeKeepsDensity | py_aps_smps/lib/sd_processing/structure.py:159-170 | when both counts come from one density per unit diameter, the left-edge count is that density over the merged width |
| OverlapMerge.ContainedKeepsDensity | py_aps_smps/lib/sd_processing/structure.py:188-189 | for counts from one density, the contained rule keeps the aps count |
| OverlapMerge.StraddleFirstKeepsDensity | py_aps_smps/lib/sd_processing/structure.py:200-208 | for counts from one density, the first straddle rule keeps the aps count |
| OverlapMerge.StraddleSecondKeepsDensity | py_aps_smps/lib/sd_processing/structure.py:217-225 | for counts from one density, the second straddle rule keeps the aps count |
| OverlapMerge.StraddleShares | py_aps_smps/lib/sd_processing/structure.py:207-208 | when the aps-only width plus the overlap is the aps width, the straddle formula gives back the density times the aps width |
| OverlapMerge.LeftEdgeNonNegative | py_aps_smps/lib/sd_processing/structure.py:159-170 | non-negative counts in a true left-edge position give a non-negative merged count |
| OverlapMerge.LeftEdgeParts | py_aps_smps/lib/sd_processing/structure.py:167-170 | the left-edge count of non-negative counts and widths is non-negative |
| OverlapMerge.ContainedNonNegative | py_aps_smps/lib/sd_processing/structure.py:188-189 | non-negative counts and an smps bin no wider than the aps bin give a non-negative count |
| OverlapMerge.StraddleNonNegative | py_aps_smps/lib/sd_processing/structure.py:207-225 | non-negative counts and widths give a non-negative straddle count |
| OverlapMerge.WriteRow | py_aps_smps/lib/sd_processing/structure.py:164-171 | writing into one labelled row changes that row only |
| OverlapMerge.LeftEdgeCandidates | py_aps_smps/lib/sd_processing/structure.py:153 | exactly the overlap aps rows whose lower edge lies below the smps upper edge, kept in label order |
| OverlapMerge.IntersectingCandidates | py_aps_smps/lib/sd_processing/structure.py:177 | exactly the overlap aps rows that intersect the smps bin, kept in label order, so with two candidates the first has the smaller label |
| OverlapMerge.LeftEdgeStep | py_aps_smps/lib/sd_processing/structure.py:152-171 | fails iff the candidate count is not one; otherwise only the single candidate row changes, to the left-edge update |
| OverlapMerge.InnerStep | py_aps_smps/lib/sd_processing/structure.py:176-228 | one intersecting aps bin gets the contained update; two get the first and the second straddle update, both computed from the pre-loop snapshot; with neither one nor two nothing changes; only overlap aps rows change and become merged |
| OverlapMerge.MergeStep | py_aps_smps/lib/sd_processing/structure.py:148-228 | fails with EmptyDistribution iff there are no overlap aps rows, and with AmbiguousLeftEdge iff a left-edge bin meets other than one aps bin; otherwise changes only overlap aps rows, which become merged |
| OverlapMerge.MergeSmpsBin | py_aps_smps/lib/sd_processing/structure.py:149-228 | the loop body as a method computes MergeStep |
| OverlapMerge.MergeAll | py_aps_smps/lib/sd_processing/structure.py:148-230 | errors are only EmptyDistribution or AmbiguousLeftEdge; the table keeps its length |
| OverlapMerge.MergeAllFrame | py_aps_smps/lib/sd_processing/structure.py:148-230 | after the loop every row is unchanged or an overlap aps row flagged merged with its density untouched |
| OverlapMerge.MergeAllFirst | py_aps_smps/lib/sd_processing/structure.py:148 | a successful first iteration leaves the rest of the loop to run on the updated table |
| OverlapMerge.MergeAllFails | py_aps_smps/lib/sd_processing/structure.py:154 | a failing iteration stops the loop with its error |
| OverlapMerge.FlagRows | py_aps_smps/lib/sd_processing/structure.py:141-142 | exactly the labelled rows with the flag, in label order, empty iff no row has it |
| OverlapMerge.MaxUpperOf | py_aps_smps/lib/sd_processing/structure.py:142 | the largest upper edge among rows with the flag |
| OverlapMerge.MinLowerOf | py_aps_smps/lib/sd_processing/structure.py:141 | the smallest lower edge among rows with the flag |
| OverlapMerge.OverlapAps | py_aps_smps/lib/sd_processing/structure.py:142-144 | exactly the aps rows whose lower edge lies below the largest smps upper edge, in label order |
| OverlapMerge.OverlapSmps | py_aps_smps/lib/sd_processing/structure.py:141-145 | exactly the smps rows whose upper edge lies above the smallest aps lower edge, in label order |
| OverlapMerge.LabelList | py_aps_smps/lib/sd_processing/structure.py:230 | the labels of the selection, in order |
| OverlapMerge.LabelListSet | py_aps_smps/lib/sd_processing/structure.py:230-232 | the appended labels are exactly the labels of the smps overlap selection |
| OverlapMerge.MergeOverlapSpec | py_aps_smps/lib/sd_processing/structure.py:141-233 | errors are only EmptyDistribution or AmbiguousLeftEdge |
| OverlapMerge.MergeOverlapSpecOk | py_aps_smps/lib/sd_processing/structure.py:141-233 | a successful loop gives the loop's table without the smps overlap rows, sorted by centre |
| OverlapMerge.MergeOverlapSpecErr | py_aps_smps/lib/sd_processing/structure.py:154 | a failing loop makes the merge fail with the same error |
| OverlapMerge.MergeLoop | py_aps_smps/lib/sd_processing/structure.py:147-230 | the for loop computes MergeAll and collects the labels of every smps overlap bin, whichever branch ran |
| OverlapMerge.MergeOverlap | py_aps_smps/lib/sd_processing/structure.py:141-233 | selection, loop, drop and sort compute MergeOverlapSpec |
| MergeProperties.WriteRowWellFormed | py_aps_smps/lib/sd_processing/structure.py:164-171 | writing a well-formed update keeps the table well formed |
| MergeProperties.MergeStepWellFormed | py_aps_smps/lib/sd_processing/structure.py:148-228 | one merge iteration keeps the table well formed |
| MergeProperties.MergeAllWellFormed | py_aps_smps/lib/sd_processing/structure.py:148-230 | the whole loop keeps the table well formed |
| MergeProperties.MergeAllNotEmpty | py_aps_smps/lib/sd_processing/structure.py:152 | with overlap aps rows present, the loop never fails with EmptyDistribution |
| MergeProperties.OverlapApsNotEmpty | py_aps_smps/lib/sd_processing/structure.py:141-144 | when some smps bin overlaps, some aps bin does too |
| MergeProperties.LowestApsRow | py_aps_smps/lib/sd_processing/structure.py:141 | some aps row carries the smallest aps lower edge |
| MergeProperties.MergedParts | py_aps_smps/lib/sd_processing/structure.py:141-233 | a successful merge had both instruments, a successful loop, and is the sorted loop table without the smps overlap rows |
| MergeProperties.MergeEmptyIff | py_aps_smps/lib/sd_processing/structure.py:141-142 | the merge fails with EmptyDistribution iff one of the instruments has no rows |
| MergeProperties.MergedRowCount | py_aps_smps/lib/sd_processing/structure.py:141-232 | the merged table has as many rows as the input less the smps overlap rows |
| MergeProperties.DroppedLabels | py_aps_smps/lib/sd_processing/structure.py:232 | dropping the labels of a labelled selection removes exactly that many rows |
| MergeProperties.OverlapLoopNotEmpty | py_aps_smps/lib/sd_processing/structure.py:148-152 | with both instruments present, the loop never fails with EmptyDistribution |
| MergeProperties.MergedWellFormed | py_aps_smps/lib/sd_processing/structure.py:232-233 | the merged table is sorted by centre and well formed |
| MergeProperties.MergedRowOrigin | py_aps_smps/lib/sd_processing/structure.py:148-233 | every result row comes from a row outside the smps overlap, either unchanged or as a merged overlap aps row with the same density |
| MergeProperties.UnmergedRowsKept | py_aps_smps/lib/sd_processing/structure.py:148-233 | a result row that is not merged is an input row |
| MergeProperties.SmpsBelowAps | py_aps_smps/lib/sd_processing/structure.py:141-232 | every smps row that survives ends at or below the lower edge of every input aps row |
| MergeProperties.OverlapResolved | py_aps_smps/lib/sd_processing/structure.py:141-233 | in the result no smps row reaches past the lower edge of any aps row |
| MergeProperties.OutsideOverlapKept | py_aps_smps/lib/sd_processing/structure.py:141-232 | interpolated and merged rows, aps rows above the smps range and smps rows below the aps range are kept |
| MergeProperties.MergeStepTouches | py_aps_smps/lib/sd_processing/structure.py:148-228 | an iteration changes a row only if that row is an overlap aps row the smps bin intersects |
| MergeProperties.LeftEdgeTouches | py_aps_smps/lib/sd_processing/structure.py:152-171 | the left-edge rule changes only an aps row the smps bin intersects |
| MergeProperties.InnerTouches | py_aps_smps/lib/sd_processing/structure.py:176-228 | the contained and straddle rules change only aps rows the smps bin intersects |
| MergeProperties.MergeAllTouches | py_aps_smps/lib/sd_processing/structure.py:148-230 | the loop changes a row only if some overlapping smps bin intersects it |
| MergeProperties.UntouchedApsKept | py_aps_smps/lib/sd_processing/structure.py:141-233 | an aps row that no smps row intersects survives the merge with all its fields |
| Combine.Classify | py_aps_smps/lib/sd_processing/structure.py:52-65 | fails iff an instrument is empty; the two flags are never both set; overlap iff some smps upper edge exceeds some aps lower edge; gap iff every smps upper edge is below every aps lower edge |
| Combine.Combined | py_aps_smps/lib/sd_processing/structure.py:46-238 | an empty instrument makes the whole combination fail with EmptyDistribution |
| Combine.CombineTagged | py_aps_smps/lib/sd_processing/structure.py:49-238 | an empty instrument fails with EmptyDistribution; a success has at most one row per input row unless a gap was filled |
| Combine.RangeWitnesses | py_aps_smps/lib/sd_processing/structure.py:52-60 | the compared maximum and minimum are attained by rows |
| Combine.TouchingPassThrough | py_aps_smps/lib/sd_processing/structure.py:52-137 | touching ranges set neither flag and the result is the plain concatenation |
| Combine.PassThrough | py_aps_smps/lib/sd_processing/structure.py:49-238 | when neither step runs the result is the unsorted concatenation, unchanged by the final recompute |
| Combine.TagKeepsEdges | py_aps_smps/lib/sd_processing/structure.py:46-47 | tagging sets the flag everywhere and keeps the edges and well-formedness |
| Combine.ConcatWellFormed | py_aps_smps/lib/sd_processing/structure.py:49 | the concatenation of well-formed tables is well formed |
| Combine.Scale | py_aps_smps/lib/sd_processing/structure.py:134 | a scaled value is present iff the density is |
| Combine.DnFromDensity | py_aps_smps/lib/sd_processing/structure.py:134 | every row's count becomes its density times its width in decades; nothing else changes |
| Combine.DensityOf | py_aps_smps/lib/sd_processing/structure.py:236-238 | the recomputed density is present iff the count is |
| Combine.RecomputeDensity | py_aps_smps/lib/sd_processing/structure.py:235-238 | smps and aps rows are unchanged; every other row gets its density from its count and edges |
| Combine.RecomputeInstrumentRows | py_aps_smps/lib/sd_processing/structure.py:235-238 | a table of only instrument rows is unchanged by the final recompute |
| Combine.RecomputeRow | py_aps_smps/lib/sd_processing/structure.py:235-238 | an instrument row is in the result iff it was in the input, and every result row has the geometry of an input row |
| Combine.GapGrid | py_aps_smps/lib/sd_processing/structure.py:118-122 | the grid fails only with NonFiniteBinCount or NoGapBins, and otherwise is contiguous across the gap |
| Combine.GapTable | py_aps_smps/lib/sd_processing/structure.py:123-130 | sorted by centre and a permutation of the smps rows, aps rows and gap bins, so one row per input row and grid cell |
| Combine.GapTableRow | py_aps_smps/lib/sd_processing/structure.py:129-130 | every row of the gap table is an smps row, an aps row or a gap bin |
| Combine.GapRowMissing | py_aps_smps/lib/sd_processing/structure.py:123-129 | a row of the gap table flagged interpolated has no density yet |
| Combine.InGapTable | py_aps_smps/lib/sd_processing/structure.py:129-130 | every instrument row is in the gap table |
| Combine.GapTableWellFormed | py_aps_smps/lib/sd_processing/structure.py:123-130 | the gap table is well formed |
| Combine.SmpsEdgeOfTable | py_aps_smps/lib/sd_processing/structure.py:92-118 | the smps edge exists and ends at or below the gap start |
| Combine.ApsEdgeOfTable | py_aps_smps/lib/sd_processing/structure.py:93-118 | the aps edge exists and starts at or above the gap end |
| Combine.GapTableFills | py_aps_smps/lib/sd_processing/structure.py:118-133 | for a real gap the smps edge comes before the aps edge and interpolation succeeds |
| Combine.FillGapErrors | py_aps_smps/lib/sd_processing/structure.py:118-133 | the gap path fails iff the grid does, with the grid's error |
| Combine.FillGap | py_aps_smps/lib/sd_processing/structure.py:117-134 | fails with the grid's error when the grid fails; a successful fill has one row per input row and grid cell |
| Combine.FillGapParts | py_aps_smps/lib/sd_processing/structure.py:117-134 | a successful gap path is the grid, the sorted table, its two edges and the counts recomputed from the interior fill |
| Combine.GapRowInside | py_aps_smps/lib/sd_processing/structure.py:118-129 | every interpolated row of the gap table lies strictly inside the gap |
| Combine.GapTableBounds | py_aps_smps/lib/sd_processing/structure.py:118-130 | the table has one row per input row and grid cell, both edges exist and bound the gap, gap rows lie inside it |
| Combine.FilledWellFormed | py_aps_smps/lib/sd_processing/structure.py:133-134 | filling and recomputing counts keep the table well formed |
| Combine.FilledRows | py_aps_smps/lib/sd_processing/structure.py:133-134 | each row keeps its geometry and flag, gets a count that matches its density, keeps its density outside the gap, and gets the interpolated density inside |
| Combine.SameGeometrySorted | py_aps_smps/lib/sd_processing/structure.py:133-238 | rewriting counts and densities keeps the table sorted |
| Combine.FilledRow | py_aps_smps/lib/sd_processing/structure.py:133-238 | an instrument row keeps its geometry, has a consistent count and keeps its density outside the gap or when it had one |
| Combine.GapFillResult | py_aps_smps/lib/sd_processing/structure.py:117-238 | the gap path's result has a row per input row and grid cell, sorted and well formed; gap rows lie between the edges; instrument rows have consistent counts and keep their densities outside the gap |
| Combine.FilledTable | py_aps_smps/lib/sd_processing/structure.py:133-238 | the same, for a given sorted table with its two edges |
| Combine.GapPathCombine | py_aps_smps/lib/sd_processing/structure.py:68-238 | with a gap and interpolation on, the result is the filled table recomputed, or the fill's error |
| Combine.GapPathErrors | py_aps_smps/lib/sd_processing/structure.py:80-88 | the gap path fails only with NonFiniteBinCount or NoGapBins |
| Combine.RecomputeAfterCounts | py_aps_smps/lib/sd_processing/structure.py:134-238 | after line 134 recomputes the counts, a density conversion that inverts the count formula leaves every density as it was |
| Combine.DensityOfCount | py_aps_smps/lib/sd_processing/structure.py:236-238 | recomputing the density of a consistent row gives back its density |
| Combine.GapPathRecomputeIdle | py_aps_smps/lib/sd_processing/structure.py:117-238 | on the gap path the final recompute changes nothing and every row has a consistent count |
| Combine.FilledLine | py_aps_smps/lib/sd_processing/structure.py:98-134 | when only gap bins lie between the edges, each inner row of the filled table carries the straight line in `dpes` between the two window means, so its density lies between them |
| Combine.GapInteriorOnLine | py_aps_smps/lib/sd_processing/structure.py:98-238 | end to end: with a gap, interpolation on and a density conversion that inverts the count formula, the combination succeeds and each gap bin between the edges carries that straight line |
| Combine.MergePathParts | py_aps_smps/lib/sd_processing/structure.py:137-238 | on the merge path the result is the merged concatenation with the final recompute |
| Combine.MergePathErrors | py_aps_smps/lib/sd_processing/structure.py:154 | with an overlap, the merge path fails only at the left-edge assertion |
| Combine.MergePathResult | py_aps_smps/lib/sd_processing/structure.py:137-238 | the merged result is sorted and well formed; unmerged rows are input rows; merged rows get the recomputed density; no smps row reaches into an aps row; smps rows below the aps range and aps rows no smps row intersects survive |
| Combine.MergeKeepsOutside | py_aps_smps/lib/sd_processing/structure.py:141-238 | smps rows below the aps range and aps rows no smps row intersects survive the merge and the recompute |
| Combine.LowSmpsKept | py_aps_smps/lib/sd_processing/structure.py:141-238 | an smps row that ends at or below the smallest aps lower edge survives |
| Combine.UntouchedApsSurvives | py_aps_smps/lib/sd_processing/structure.py:141-238 | an aps row that no smps row intersects survives |
| Combine.UntouchedApsMerged | py_aps_smps/lib/sd_processing/structure.py:141-233 | the merge keeps an aps row that no smps row intersects |
| Combine.ConcatUntouched | py_aps_smps/lib/sd_processing/structure.py:49 | in the concatenation an aps row sits after all smps rows, and no smps row there intersects it when none did before |
| Combine.CombinedErrors | py_aps_smps/lib/sd_processing/structure.py:29-239 | the combination fails only with EmptyDistribution, NonFiniteBinCount, NoGapBins or AmbiguousLeftEdge, and with EmptyDistribution iff an instrument is empty |
| Combine.Frame.constructor | py_aps_smps/lib/sd_processing/structure.py:29 | a frame holds the given rows |
| Combine.CombineSmpsApsSd | py_aps_smps/lib/sd_processing/structure.py:29-239 | both caller frames are re-flagged in place, and the result is the combination of the original rows |

## Left out

- Floating point: all arithmetic is on exact reals. IEEE rounding, overflow and the NaN produced by `0/0` are not modelled. A missing value (`Missing`) stands for the NaN cells pandas creates and skips.
- `log10`, `10**x`, `np.logspace`: `log10` and `10**x` are parameters assumed to satisfy `LogAxis.Valid`, which lists (in its body) exactly what is assumed. `np.logspace` is the closed-form sequence `10**(log10(x_start) + i * decades / n)`, with no rounding.
- Infinite resolutions: a division by a zero decade span gives `inf` in numpy, and `round` then raises. The model keeps such a resolution as `NotFinite` and fails with `NonFiniteBinCount`.
- A bin count of zero or less: numpy and pandas fail on such a grid (the two edge columns then differ in length, or `logspace` rejects the count). The model fails with `NoGapBins` and does not distinguish the two exceptions.
- `calc_dXdlogd_from_dX` in `content.py` is not part of this model. It is the parameter `density`. RecomputeAfterCounts, DensityOfCount and GapPathRecomputeIdle hold only for conversions that satisfy `InvertsCount`, so that is an assumption about code outside the model.
- `verbose` printing is left out, since it prints only.
- `_is_copy` assignments are left out, since they only silence pandas warnings.
- Sort order of equal centres: pandas' default sort is not stable. The model sorts with a stable insertion sort, so rows with equal centres may come out in another order than pandas would give.
- Aliasing: CombineSmpsApsSd requires the two frames to be different objects. Passing one frame as both arguments is not modelled.
- Inputs whose bins are not well formed (a positive lower edge, below the centre, below the upper edge) are excluded by the `requires` clauses. This is an assumption about the code that prepares the tables. `py_aps_smps/lib/io/sd.py:100` fills only the `dp_lower` and `dp_upper` columns. No code in this model derives the `dpes`, `dpes_lower` and `dpes_upper` columns that `combine_SMPS_APS_sd` reads.
- MergeAll: the count conservation of the whole merge is not proved, and nothing promises it. The per-rule results are: each rule is exact for counts drawn from one density (LeftEdgeKeepsDensity, ContainedKeepsDensity, StraddleFirstKeepsDensity, StraddleSecondKeepsDensity), and the rules give non-negative counts.
- UntouchedApsKept: states survival only for aps rows that no smps row intersects. An aps row in the overlap selection that the loop happens not to change is kept too, but no lemma states that.
- np.interp with equal `dpes`: two knots with the same centre would divide by zero. `Lerp` returns the left value there. What pandas returns in that case is not modelled.
- Interpolation of leading missing values: pandas leaves them missing and fills trailing missing values with the last present value. The model does the same, but only inside the edge-to-edge slice, which is all the program interpolates.

## Notes on the code

- The documentation of `combine_SMPS_APS_sd` describes the happy path. The code differs in these places, and the model follows the code:
  - An empty instrument table makes `max()`/`min()` raise. The model returns `Err(EmptyDistribution)`.
  - When the ranges touch exactly, or the step for their case is switched off, the result is the concatenation of smps and aps rows without sorting.
  - Line 134 recomputes the count of every row, not only of the gap rows.
  - The interpolation is linear in the centre diameter (`method='index'` on a `dpes` index), not in its logarithm.
  - An overlapping smps bin that matches none of the three rules is still dropped, without any error.
  - A gap interior row that already has a density keeps it, because interpolation only fills missing values.
  - `get_interpol_resolution` floors the mean resolution (`// 2`) instead of rounding it.
- Merge updates are computed from the snapshot of aps rows taken before the loop. A later smps bin hitting the same aps row overwrites the earlier result (LaterUpdateWins).
