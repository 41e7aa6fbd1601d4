# pybaselines: classification masks and banded storage, in Dafny

This project models two parts of pybaselines, a Python library that estimates
the baseline of a measured signal.

**Point classification** (`pybaselines/classification.py`). A classifier marks
each data point as baseline (True) or peak (False). It then builds a rough
baseline by interpolating across the peak segments and refines it. The model
covers the exact, index-level part of this:

- the removal of lone points (`_remove_single_points`);
- the peak segments of a mask (`_find_peak_segments`);
- which cells `_averaged_interp` may overwrite;
- how each classifier combines its mask with the weights, and the dilation of
  `std_distribution` and the reflect-padded erosion of `cwt_br`;
- the post-pass of `fastchrom`, which grows the mask;
- the iteration control and tolerance history of `dietrich` and `cwt_br`;
- the scale sweep of `cwt_br`, with its entropy stop rule;
- the unnormalised `_haar` wavelet.

The numeric kernels are uninterpreted parameters: least squares, the
pseudo-inverse, `relative_difference`, the standard-deviation cutoff, the
Shannon entropy and the linear interpolation `_interp_inplace`.

**Banded storage** (`pybaselines._banded_utils`, whose implementation is not
part of this model). Its behaviour is taken from the exact integer expectations
in `tests/test_banded_utils.py`. This covers `difference_matrix`, the penalty
DᵀD, `diff_penalty_diagonals`, `_pad_diagonals`, `_add_diagonals`,
`_lower_to_full` and the in-place `_shift_rows`.

A square matrix with band k is stored as 2k + 1 rows, running from offset +k
down to −k. The row for offset d holds entry (j − d, j) in column j, and 0
where that index falls outside the matrix. The lower form keeps the last
k + 1 rows. Everything in this part is integer-valued and exact.

Modules, one per file:

- `Results`: Result/Option.
- `Masks`: erosion, dilation, `_remove_single_points`.
- `Segments`: `_find_peak_segments`.
- `Interp`: `_averaged_interp`.
- `Classifiers`: weight and fill combination, the `cwt_br` wavelet mask.
- `Fastchrom`: the post-pass.
- `Dietrich`: iteration control.
- `CwtBr`: the scale sweep and the refinement loop.
- `Haar`: the wavelet.
- `Difference`: the difference matrix and the penalty.
- `Diagonals`: the diagonal storage, padding, addition, `_lower_to_full`.
- `RowShift`: `_shift_rows`.

The code is imperative where the source is. These are methods with loops over
arrays, proved against specification functions:

- `_averaged_interp` writes into its copied output;
- the `fastchrom` post-pass sets mask cells;
- `dietrich` and `cwt_br` fill a preallocated tolerance history and update
  the rough baseline and the mask in place;
- the scale loop carries `shannon_old` and `shannon_current`;
- `_shift_rows` shifts the rows of a two-dimensional array in place.

The rest is functions and lemmas about them.

## Model

| member | source | states |
|---|---|---|
| Masks.ErodeOnesAt | pybaselines/classification.py:860 | erosion by a full window of half-width h holds at i exactly when every point within h of i is True, with points outside counting as False |
| Masks.DropLoneTrueAt | pybaselines/classification.py:49 | after the first pass a cell is True exactly when it was True and has a True neighbour |
| Masks.FillLoneFalseAt | pybaselines/classification.py:51 | the second pass sets a cell exactly when it was set or both neighbours are set |
| Masks.RemoveSinglePointsAt | pybaselines/classification.py:27-51 | an output cell is True exactly when it survives the first pass, or both neighbours survive it |
| Masks.LoneTrueRemoved | pybaselines/classification.py:49 | a True with no True neighbour becomes False |
| Masks.NeighbouredTrueKept | pybaselines/classification.py:49-51 | a True with a True neighbour stays True |
| Masks.FalseFlipsIff | pybaselines/classification.py:51 | a False becomes True exactly when it is interior and both neighbours survive; one at index 0 or N−1 never flips |
| Masks.RemoveSinglePointsAll | pybaselines/classification.py:27-51 | the cell rule holds at every index, including outside the mask |
| Masks.RemoveSinglePointsClean | pybaselines/classification.py:41-51 | the output has no lone True and no interior lone False |
| Masks.RemoveSinglePointsFixedIff | pybaselines/classification.py:27-51 | a mask is left unchanged exactly when it has no lone True and no interior lone False |
| Masks.RemoveSinglePointsIdempotent | pybaselines/classification.py:27-51 | applying the removal twice equals applying it once |
| Segments.RawStartsMembers | pybaselines/classification.py:73-74 | the raw starts are exactly the indices that begin a maximal False run |
| Segments.RawPairing | pybaselines/classification.py:72-79 | the k-th raw start and the k-th raw end bound the same maximal False run, and the runs come in order |
| Segments.RawRunsComplete | pybaselines/classification.py:72-79 | every maximal False run appears as a raw (start, end) pair |
| Segments.AdjustStartsAt | pybaselines/classification.py:75-76 | each start moves one index back, unless it is 0 |
| Segments.AdjustEndsAt | pybaselines/classification.py:80-81 | each end moves one index forward, unless it is N−1 |
| Segments.PeakSegmentsRuns | pybaselines/classification.py:72-83 | one (start, end) pair per run: start is the index before the run or 0, end is the index after it or N−1 |
| Segments.SegmentBounds | pybaselines/classification.py:72-83 | the starts and ends are equally many and lie in [0, N); start < end when N ≥ 2 |
| Segments.SegmentInterior | pybaselines/classification.py:72-83 | every index strictly between a start and its end is False |
| Segments.SegmentOrder | pybaselines/classification.py:72-83 | the starts and the ends are each strictly increasing, and end_k ≤ start_{k+1} |
| Segments.AllBaselineNoSegments | pybaselines/classification.py:72-83 | an all-True mask has no segments |
| Segments.AllPeakOneSegment | pybaselines/classification.py:72-83 | a non-empty all-False mask has the single segment (0, N−1) |
| Interp.Window | pybaselines/classification.py:122-127 | the averaging window is non-empty, contains the anchor, lies in [0, N) and is cut only at the array ends |
| Interp.CountTrue | pybaselines/classification.py:111 | the count is 0 exactly when there is no True, and N exactly when every cell is True |
| Interp.ApplySegment | pybaselines/classification.py:121-128 | one loop turn leaves every cell outside [start, end] unchanged |
| Interp.ApplyFromOutside | pybaselines/classification.py:121-128 | the remaining loop turns change no cell outside the remaining segments |
| Interp.InterpolatedChangesOnlySegments | pybaselines/classification.py:110-130 | the output differs from y only inside some peak segment, and equals y when the mask is all True |
| Interp.ZeroHalfWindowAnchors | pybaselines/classification.py:122-127 | with half-window 0 the anchor value is the data value at the segment end |
| Interp.ApplySegmentInPlace | pybaselines/classification.py:121-128 | writing the interpolated section into the array gives the specified loop turn |
| Interp.AveragedInterp | pybaselines/classification.py:110-130 | the in-place loop returns the specified output, with the warning for no baseline or no peak points |
| Classifiers.ClassifierMaskAt | pybaselines/classification.py:663 | a point is baseline exactly when the removal of lone points keeps it and its weight is non-zero, so a zero weight gives a peak point; lines 214, 366 and 971 combine the same way |
| Classifiers.ClassifierMaskClean | pybaselines/classification.py:214 | with all weights non-zero the mask is the cleaned mask and is clean |
| Classifiers.StdDistributionMaskIff | pybaselines/classification.py:553-556 | a point is baseline exactly when its weight is non-zero and no flagged point lies within fill_half_window of it |
| Classifiers.Reflect | pybaselines/classification.py:833 | a reflect-padded position maps into [0, N) and is the identity inside the array |
| Classifiers.ReflectNear | pybaselines/classification.py:833 | within one width of an edge, reflection mirrors about that edge without repeating it |
| Classifiers.PadReflect | pybaselines/classification.py:833 | the padded mask has N + 2h cells, each copied from its reflected source |
| Classifiers.CwtBrWaveletMask | pybaselines/classification.py:832-835 | the wavelet mask exists exactly when the input is non-empty and h ≥ 1, and then has N cells |
| Classifiers.CwtBrWaveletMaskIff | pybaselines/classification.py:832-835 | a point is baseline exactly when its weight is non-zero and every flag within h, read through the reflection, is set |
| Classifiers.CwtBrWaveletMaskInterior | pybaselines/classification.py:832-835 | away from the edges this is the plain erosion combined with the weights |
| Fastchrom.Lowest | pybaselines/classification.py:683 | argmin: the first index in [start, end] where data minus rough baseline is least |
| Fastchrom.SectionMask | pybaselines/classification.py:677 | the section mask is True exactly where the rough baseline lies below the data |
| Fastchrom.WideLowestBelow | pybaselines/classification.py:677-683 | in a wide segment the point made baseline lies on or below the rough baseline |
| Fastchrom.BelowDataNotWide | pybaselines/classification.py:677-681 | a segment where the rough baseline lies below the data everywhere is never wide |
| Fastchrom.Pick | pybaselines/classification.py:679-683 | a segment sets a cell exactly when it is wide, and that cell lies inside the segment |
| Fastchrom.MarkedSetsLowest | pybaselines/classification.py:672-683 | a round sets the lowest point of every wide segment and no other new cell; it keeps every baseline point, adds points only inside segments, and leaves the mask unchanged when no segment is wide |
| Fastchrom.MarkRound | pybaselines/classification.py:671-683 | the in-place round leaves exactly the old mask plus the lowest point of every wide segment, and reports a change exactly when some segment is wide |
| Fastchrom.RoundInPlace | pybaselines/classification.py:671-683 | the in-place round leaves the mask that one pass over the segments gives, reports whether it ran, and leaves the mask alone when it did not |
| Fastchrom.PostPassSpec | pybaselines/classification.py:670-689 | the remaining rounds run at most as often as max_iter allows, keep every baseline point, add points only inside the segments, and stop early only when no segment is wide for the final rough baseline |
| Fastchrom.FastchromMaskSpec | pybaselines/classification.py:664-689 | the post-pass runs at most max_iter rounds, only flips cells from False to True inside the segments found once at line 669, leaves a mask without both kinds of point alone, and stops early only when no segment is wide |
| Fastchrom.PostPassRounds | pybaselines/classification.py:670-689 | the in-place loop ends with the mask and round count of the specified rounds, and with the rough baseline of that mask |
| Fastchrom.FastchromRefine | pybaselines/classification.py:664-689 | the method returns the mask and round count of the specified post-pass, and the rough baseline of that mask |
| Dietrich.RoughKeepsPeakPoints | pybaselines/classification.py:378 | a peak point of the rough baseline is never replaced |
| Dietrich.RoughTakesFit | pybaselines/classification.py:378-380 | after a round, a baseline point holds the previous fit |
| Dietrich.ReplaceInPlace | pybaselines/classification.py:378 | the in-place replacement gives the specified rough baseline |
| Dietrich.DietrichRound | pybaselines/classification.py:378-380 | one round advances the rough baseline and the coefficients to the next round |
| Dietrich.DietrichLoop | pybaselines/classification.py:375-386 | the history has length in [1, max_iter−1]; entry j is the relative difference of the coefficient vectors of rounds j and j+1; every entry but the last is ≥ tol, and the last is < tol unless the array is full; the baseline is the last fit |
| Dietrich.DietrichRefine | pybaselines/classification.py:369-386 | the history exists exactly when max_iter > 1; with max_iter ≤ 0 the baseline is the rough baseline, with max_iter = 1 the first fit |
| Dietrich.DietrichFit | pybaselines/classification.py:366-386 | the method combines the classifier mask, the interpolated rough baseline and the refinement: the history exists exactly when max_iter > 1 and then satisfies the full history facts of the loop, with the last fit as the baseline; max_iter ≤ 0 gives the rough baseline and max_iter = 1 the first fit |
| Haar.HaarValues | pybaselines/classification.py:873-882 | entries are −1, 0 or 1; 0 at x = 0 and wherever abs(x) ≥ scale/2; 1 exactly on (−scale/2, 0) and −1 exactly on (0, scale/2) |
| Haar.HaarAntisymmetric | pybaselines/classification.py:873-882 | w[i] = −w[n−1−i] |
| Haar.AntisymmetricSumZero | pybaselines/classification.py:873-882 | an antisymmetric sequence sums to 0 |
| Haar.HaarSumZero | pybaselines/classification.py:873-882 | the wavelet sums to 0 |
| Haar.HaarExample | pybaselines/classification.py:871-882 | gives the wavelets of 6 and of 5 points at scale 4 |
| CwtBr.MinScale | pybaselines/classification.py:784 | min_scale is at least 2 and at least N // 500 |
| CwtBr.SweepFromRule | pybaselines/classification.py:785-797 | from any scale on, the sweep ends at the first scale where the stop rule holds, or at max_scale |
| CwtBr.SweepStopRule | pybaselines/classification.py:784-797 | a scale exists exactly when min_scale ≤ max_scale; it lies in [min_scale, max_scale]; it is the first s ≥ min_scale+2 with E(s−1) < E(s−2) and E(s) > E(s−1), or max_scale |
| CwtBr.SweepReturnsScaleAfterDip | pybaselines/classification.py:794-797 | with the entropy least at scale 3 the sweep returns 4, the scale after the dip |
| CwtBr.ScaleSweep | pybaselines/classification.py:784-797 | the loop carrying shannon_old and shannon_current returns the specified sweep |
| CwtBr.TrimOnlyRemoves | pybaselines/classification.py:844-845 | trimming only removes points: a point survives exactly when it was in the mask and its residual does not exceed the cutoff |
| CwtBr.CwtBrMaskLengths | pybaselines/classification.py:841-861 | every mask and fit of the loop has one entry per data point |
| CwtBr.ReadmittedBelowFit | pybaselines/classification.py:860-861 | a point that re-enters the mask without surviving the trim lies, with every point within num_y // 200 of it, strictly below that round's fit, and that window lies inside the array (given that the round's mask and fit have one entry per point, as CwtBr.CwtBrMaskLengths shows) |
| CwtBr.ReadmitWindow | pybaselines/classification.py:860-861 | the same fact for one fit and one trimmed mask |
| CwtBr.ReadmissionIgnoresWeights | pybaselines/classification.py:835-861 | a point that the weights excluded from the wavelet mask can be in the mask after one round |
| CwtBr.TrimInPlace | pybaselines/classification.py:845 | the in-place trim gives the specified mask |
| CwtBr.OrInPlace | pybaselines/classification.py:861 | the in-place or of added_points into the mask gives the elementwise or |
| CwtBr.Expecteds | pybaselines/classification.py:855-856 | the expected history of n rounds has length n |
| CwtBr.ExpectedsAt | pybaselines/classification.py:855-856 | entry j of the history compares baseline_old of round j with the fit of round j |
| CwtBr.RecordedSnoc | pybaselines/classification.py:855-859 | a round that did not stop keeps the history exact |
| CwtBr.TrimRound | pybaselines/classification.py:842-853 | one fit, trim and second fit give the specified trimmed mask and its fit |
| CwtBr.ReadmitRound | pybaselines/classification.py:860-861 | re-admission gives the specified mask |
| CwtBr.RefineFrom | pybaselines/classification.py:841-861 | the loop ends with between one more (if a round is left) and max_iter+1 history entries |
| CwtBr.RefineFromSpec | pybaselines/classification.py:841-861 | from any round on, the loop ends with an exact history. It stops at the first difference below tol, returning that round's fit and trimmed mask, or after max_iter+1 rounds, returning the last fit and the re-admitted mask |
| CwtBr.CwtBrRefine | pybaselines/classification.py:838-866 | the preallocated, in-place loop returns the specified refinement, and an error exactly when max_iter < 0 |
| CwtBr.CwtBrRefineSpec | pybaselines/classification.py:840-866 | the history has length in [1, max_iter+1], with every entry but the last ≥ tol; the last is < tol or the history is full; baseline and mask are the last round's |
| Difference.CoefBand | tests/test_banded_utils.py:310-315 | the difference coefficients vanish outside [0, k], and the last one is 1 |
| Difference.DifferenceMatrix | tests/test_banded_utils.py:310-375 | fails exactly on a negative size or order; otherwise has max(n−k, 0) rows of n columns |
| Difference.DiffNEntry | tests/test_banded_utils.py:310-315 | row i of the k-fold row difference of the identity holds the k-th difference coefficients starting at column i |
| Difference.DifferenceMatrixEntries | tests/test_banded_utils.py:310-315 | the same for difference_matrix |
| Difference.DifferenceMatrixOrder0 | tests/test_banded_utils.py:338-348 | order 0 is the identity |
| Difference.DifferenceMatrixOrder2 | tests/test_banded_utils.py:318-336 | order 2 has rows 1, −2, 1 |
| Difference.DifferenceMatrixTooHigh | tests/test_banded_utils.py:357-370 | an order of at least n gives no rows |
| Difference.GramSymmetric | tests/test_banded_utils.py:79 | DᵀD is symmetric |
| Difference.PenaltyBanded | tests/test_banded_utils.py:78-80 | the penalty of order k is symmetric and has band k |
| Difference.PenaltyOrder1 | tests/test_banded_utils.py:34-44 | the first-order penalty has 1, 2, …, 2, 1 on the diagonal and −1 beside it |
| Diagonals.DiaLossless | tests/test_banded_utils.py:79-80 | storing a band-k matrix zeroes the outside positions and loses nothing |
| Diagonals.DiaOfFromDia | tests/test_banded_utils.py:79-80 | every stored array with zero outside positions stores exactly one band-k matrix |
| Diagonals.PadDiagonals | tests/test_banded_utils.py:218-236 | padding adds that many rows below (lower form) or on both sides, and none when padding ≤ 0 |
| Diagonals.PadDiagonalsRoundTrip | tests/test_banded_utils.py:218-236 | unpadding gives the input back, padding ≤ 0 changes nothing, and the added rows are zero |
| Diagonals.PadDiagonalsWidensBand | tests/test_banded_utils.py:83-88 | padding the storage of a band-k matrix by p gives its storage with band k + p |
| Diagonals.DiffPenaltyDiagonals | tests/test_banded_utils.py:66-104 | fails exactly when n ≤ 0 or the order is negative; otherwise has (k+1 or 2k+1) rows plus the padding |
| Diagonals.DiffPenaltyDiagonalsStores | tests/test_banded_utils.py:74-82 | without padding the full form stores DᵀD exactly, and the lower form is its last k+1 rows |
| Diagonals.DiffPenaltyDiagonalsPadded | tests/test_banded_utils.py:83-90 | with padding p it stores the same penalty with band k + p |
| Diagonals.DiffPenaltyDiagonalsOrder1 | tests/test_banded_utils.py:34-44 | gives the three first-order rows, with the padding zeros at the ends of the off-diagonal rows |
| Diagonals.AddDiagonals | tests/test_banded_utils.py:288-306 | fails exactly on a column mismatch, or on an odd row difference in the full form; otherwise has max(rows) rows |
| Diagonals.AddDiagonalsCommutes | tests/test_banded_utils.py:260-285 | the addition is commutative |
| Diagonals.AddStorageEntry | tests/test_banded_utils.py:260-285 | each entry of the aligned sum is the stored entry of the summed matrix |
| Diagonals.AddStorageOrdered | tests/test_banded_utils.py:260-285 | adding the narrower storage to the wider one stores the sum of the matrices |
| Diagonals.AddDiagonalsStoresSum | tests/test_banded_utils.py:260-285 | adding two storages of banded matrices stores their sum with the wider band |
| Diagonals.AddPenaltyDiagonals | tests/test_banded_utils.py:263-285 | the sum of two penalty storages stores the sum of the penalties, for every pair of orders |
| Diagonals.AddDiagonalsExample | tests/test_banded_utils.py:239-306 | gives the simple lower-form sum and both failures |
| Diagonals.LowerToFull | tests/test_banded_utils.py:172-189 | from k+1 lower rows it gives 2k+1 rows whose bottom k+1 rows are the input |
| Diagonals.LowerToFullSymmetric | tests/test_banded_utils.py:212-215 | for a symmetric matrix the lower form determines the full storage |
| Diagonals.LowerToFullPenalty | tests/test_banded_utils.py:212-215 | the full penalty storage is recovered from the lower one, and its bottom half is the lower form again |
| Diagonals.LowerToFullExample | tests/test_banded_utils.py:172-189 | gives the three-row example |
| RowShift.ShiftedRowsShape | tests/test_banded_utils.py:107-169 | shifting keeps the shape and leaves the rows between the shifted ones unchanged |
| RowShift.ShiftedRowsAt | tests/test_banded_utils.py:107-169 | each entry after the shift is the entry that many columns to the left (upper rows) or right (lower rows), or 0 |
| RowShift.ShiftRowRight | tests/test_banded_utils.py:107-127 | one row moves right by s with zeros coming in, and the other rows are untouched |
| RowShift.ShiftRowLeft | tests/test_banded_utils.py:107-127 | one row moves left by s with zeros coming in, and the other rows are untouched |
| RowShift.ShiftUpperRows | tests/test_banded_utils.py:107-127 | the first loop shifts the first `upper` rows as specified and leaves the rest |
| RowShift.ShiftLowerRows | tests/test_banded_utils.py:149-169 | the second loop shifts the last `lower` rows, counted from the bottom, and leaves the rest |
| RowShift.ShiftRows | tests/test_banded_utils.py:107-169 | shifts the array in place and returns the same array, its rows being the specified shifted rows |
| RowShift.ShiftRowsExamples | tests/test_banded_utils.py:107-169 | gives the three matrices of the tests |
| RowShift.ShiftRowsAligns | tests/test_banded_utils.py:107-169 | shifting row-aligned diagonals by k above and below gives the column-aligned storage |

## Left out

- Floating point: data, weights and fits are exact reals. NaN, infinities and rounding are not modelled; `-np.inf` of the entropy sweep is a separate constructor.
- The numeric kernels are uninterpreted parameters: `np.linalg.lstsq` and `vander.dot`, the pseudo-inverse fit of `dietrich`, `relative_difference`, `num_std * np.std(residual)`, the Shannon entropy of a scale and `_interp_inplace`. Each is assumed only to return arrays of the right length.
- The thresholds that feed the classifier masks are inputs: grey dilation and erosion in `golotvin`, `_iter_threshold`, `_rolling_std`, the median-halving loop of `std_distribution`, percentiles, and the histogram and Gaussian `curve_fit` refinement of `cwt_br`. These are floating-point statistics or SciPy wrappers.
- `cwt`/`ricker`, `uniform_filter1d`, `pad_edges`, `_get_vander`, `_setup_classification`, `_convert_coef` and `_whittaker_smooth` are not part of this model. So the final smoothing of `fastchrom` and the domain mapping of `cwt_br` are left out, as is `return_coef`.
- Haar.Haar: leaves out the final division by sqrt(scale), a floating-point normalisation.
- Warnings (`ParameterWarning`) are returned as a value (`Interp.InterpWarning`) and are not issued.
- Failures of the source (an unbound loop variable, a ValueError from NumPy) become `Err` results. Their messages are not modelled.
- `pybaselines/_banded_utils.py` is not part of this model. The banded operations follow the integer expectations of its tests, not its code, and these are left out:
  - the sparse-matrix formats of `difference_matrix` and the forms of helpers `_diff_1_diags` to `_diff_3_diags`;
  - the float B-spline fixture of tests/test_banded_utils.py:192-215 (`_lower_to_full` is modelled on integers only);
  - the `PenalizedSystem` factorization.
- Difference.DifferenceMatrix: a matrix is a sequence of rows, so a result with no rows does not record its column count n.
- Diagonals.DiffPenaltyDiagonals: always stores 2k + 1 (or k + 1) rows. `todia()` in the tests drops diagonals that are entirely zero, which only happens when n is smaller than the band; those cases are not distinguished.
- Diagonals.LowerToFull: requires at least one row, because the source expression is not defined for an empty array.
- RowShift.ShiftRows: requires upper + lower to be at most the number of rows. The tests never leave that range.
- Dietrich and CwtBr: `np.empty` tolerance histories are modelled by their filled prefix only.
- Fastchrom.RoughOf and Fastchrom.RoundOf: give the data, or end the rounds, for a mask or rough baseline of the wrong length. The post-pass never passes one.
- CwtBr.TrimStep and CwtBr.ReadmitStep: leave a mask of the wrong length unchanged. The loop never passes one, as `CwtBr.CwtBrMaskLengths` shows.
- The weight property is not claimed for the final masks of `fastchrom` and `cwt_br`. The `fastchrom` post-pass (line 683) can make a zero-weight point a baseline point. So can the re-admission of `cwt_br` (line 861), as `CwtBr.ReadmissionIgnoresWeights` shows.
- The doc-comment of `cwt_br` says the sweep picks the scale of least entropy. The code returns the scale after the dip, and the model follows the code (`CwtBr.SweepReturnsScaleAfterDip`).
