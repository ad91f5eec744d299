# Spectral band averaging, in Dafny

This project models the band-averaging engine of a small ocean-colour study and proves properties of that model. The study compares two ways to compute what a satellite sensor band reports:

- **Reflectance space**: band-average the remote-sensing reflectance spectrum R_rs directly.
- **Radiance space**: band-average the water-leaving radiance Lw and the downwelling irradiance Ed separately, then take the ratio.

It models:

- **The engine** (module `BandAveraging`):
  - zero-clamped linear interpolation of a spectrum onto the band grid (`Interpolation`);
  - trapezoidal integration (`Trapezoid`);
  - the band average, trapz(interp · w) / trapz(w);
  - its batch form, which works on many spectra at once.
- **The difference statistics** (`Differences`, `Statistics`, `Percentiles`, `Sorting`):
  - absolute and relative differences;
  - a NaN-ignoring median with error bars from the 15.9th and 84.1st percentiles, computed with numpy's default linear percentile on the sorted values;
  - the scaled summaries the report prints (`Reporting`).
- **Splitting a table into spectra** (`SpectrumTable`, `Text`): pick the columns whose key contains a quantity, in table order, and read each wavelength from the text after the key's last underscore.
- **The response sweep** (`Responses`, `Sweep`):
  - boxcar responses;
  - the boxcar and Gaussian coverage tests;
  - the two sweep loops that fill a (width × centre) grid that starts out all NaN. Each computed cell is the median relative gap between radiance space and reflectance space.
- **The field-data conversion scripts** (`FieldData`, `Selection`, `Columns`):
  - deriving Lw and R_rs;
  - normalising at 750 nm;
  - the row filters, which keep the order of the surviving rows;
  - trimming columns by wavelength;
  - the column renames of the SeaSWIR and HE302 conversions.

NaN is explicit where the code computes with it: `Numbers.Number` is `Num(val)` or `NaN`. It is used for band averages, differences, statistics, the field-data rows, the sweep's gaps and the sweep grids. Arithmetic on `Number` propagates NaN, and a comparison with NaN is false, as in numpy. The spectra and weights that go into a band average, and the columns of a table being split, are plain `real`s that hold no NaN (see "Left out"). Everything else is exact arithmetic over `real`.

Lines 11-48 of `bandaveraging.py` are the same five functions as lines 7-44 of `sba/bandaveraging.py`, with the same text. The rows below cite the `sba` copy, and every statement about it holds for the other copy too.

## Model

| member | source | states |
|---|---|---|
| Interpolation.Interp | sba/bandaveraging.py:17 | the interpolated value is 0 at any band wavelength below the first or above the last data wavelength (`left=0, right=0`) |
| Interpolation.InterpAtNode | sba/bandaveraging.py:17 | at a data wavelength, the interpolated value is that wavelength's data value |
| Interpolation.InterpLinear | sba/bandaveraging.py:17 | interpolating a·f + b·g gives a·interp(f) + b·interp(g) at every point |
| Interpolation.InterpConstant | sba/bandaveraging.py:17 | inside the data range, interpolating a constant spectrum c gives c |
| Interpolation.InterpBounded | sba/bandaveraging.py:17 | the interpolated value lies within any bounds that hold the data values and 0 |
| Trapezoid.TrapzLinear | sba/bandaveraging.py:19-20 | the trapezoidal integral on a non-uniform grid is linear in the integrand |
| Trapezoid.TrapzScaled | sba/bandaveraging.py:19-20 | scaling the integrand by k scales the integral by k |
| Trapezoid.TrapzProductScaled | sba/bandaveraging.py:18-19 | scaling the weights by k scales the integral of data · weights by k |
| Trapezoid.TrapzExtend | sba/bandaveraging.py:19 | extending the grid by one point adds exactly that point's panel to the integral |
| Trapezoid.TrapzNonNegative | sba/bandaveraging.py:20 | on an increasing grid, a non-negative integrand has a non-negative integral |
| Trapezoid.TrapzPositive | sba/bandaveraging.py:20 | on an increasing grid, a non-negative integrand with one positive value has a positive integral |
| Trapezoid.TrapzRows | sba/bandaveraging.py:27 | integrating all rows at once, panel by panel (`axis=1`), gives each row's own trapezoidal integral |
| BandAveraging.Resample | sba/bandaveraging.py:17 | one interpolated value per band wavelength, each the zero-clamped interpolant of the data there |
| BandAveraging.ResampleZeroFill | sba/bandaveraging.py:17 | the resampled spectrum is 0 outside the data's wavelength range and equals the data value at a data wavelength |
| BandAveraging.BandAverage | sba/bandaveraging.py:16-22 | errors on three conditions: empty data, data values not matching the wavelengths, or weights not matching the band grid; otherwise a value, which is NaN exactly when trapz(weights) is 0 |
| BandAveraging.BandAverageIsRatio | sba/bandaveraging.py:16-22 | the band average is trapz(interp · w) divided by trapz(w), so average · trapz(w) gives back the weighted integral |
| BandAveraging.BandAverageScaleInvariant | sba/bandaveraging.py:16-22 | multiplying every weight by the same non-zero k leaves the band average unchanged, including its errors and NaN |
| BandAveraging.IntegralsScaled | sba/bandaveraging.py:18-20 | scaling the weights by k scales both the numerator and the denominator integral by k |
| BandAveraging.BandAverageConstant | sba/bandaveraging.py:16-22 | a constant spectrum c on a band grid inside the data range, with trapz(w) ≠ 0, band-averages to exactly c |
| BandAveraging.WeightedIntegralConstant | sba/bandaveraging.py:17-19 | for a constant spectrum c inside the data range, the weighted integral is c · trapz(w) |
| BandAveraging.ResampleConstant | sba/bandaveraging.py:17 | a constant spectrum resamples to the same constant on a band grid inside the data range |
| BandAveraging.BandAverageLinear | sba/bandaveraging.py:17-22 | the band average of a·s1 + b·s2 is a·avg(s1) + b·avg(s2) |
| BandAveraging.WeightedIntegralLinear | sba/bandaveraging.py:17-19 | the weighted integral of a·s1 + b·s2 is the same combination of the two weighted integrals |
| BandAveraging.ResampleLinear | sba/bandaveraging.py:17 | resampling a·s1 + b·s2 gives the same combination of the two resampled spectra |
| BandAveraging.WeightedLinear | sba/bandaveraging.py:18-19 | integrating a combination of resampled spectra times the weights is the combination of the separate integrals |
| BandAveraging.BandAverageMulti | sba/bandaveraging.py:24-30 | errors exactly when the batch or the grid is empty, some row's length differs from the grid's, or the weights do not match the band grid, and then with the error of a failing row; otherwise one value per spectrum, and value i is the single-spectrum band average of spectrum i |
| Sorting.Sort | sba/bandaveraging.py:39-41 | the values the percentiles read are a sorted permutation of the input |
| Sorting.SortedUnique | sba/bandaveraging.py:39-41 | two sorted permutations of the same values are equal, so the sorted order is unique |
| Sorting.SortPermutation | sba/bandaveraging.py:39-41 | the input's order does not matter: permutations sort to the same sequence |
| Sorting.SortSorted | sba/bandaveraging.py:39-41 | sorting an already sorted sequence returns it unchanged |
| Sorting.SortApply | sba/bandaveraging.py:39-41 | sorting commutes with any order-preserving map |
| Sorting.SortScaled | bandaveraging.py:140-143 | sorting values scaled by k > 0 gives the sorted values scaled by k |
| Percentiles.Percentile | sba/bandaveraging.py:39-41 | a linear percentile of sorted values lies between the smallest and the largest value |
| Percentiles.MedianIsPercentile | sba/bandaveraging.py:40 | the median is the 50th percentile |
| Percentiles.PercentileAtSample | sba/bandaveraging.py:39-41 | when the rank p/100 · (n−1) is a whole number k, the percentile is exactly the k-th sorted value |
| Percentiles.PercentileMonotone | sba/bandaveraging.py:39-43 | p ≤ q implies percentile p ≤ percentile q, which is why both error bars are non-negative |
| Percentiles.PercentileIsInterp | sba/bandaveraging.py:39-41 | numpy's linear percentile is the interpolant of the sorted values at position p/100 · (n−1), so it is the same interpolation the band average uses |
| Percentiles.PercentileApply | sba/bandaveraging.py:39-41 | an order-preserving map that commutes with linear interpolation commutes with every percentile |
| Statistics.PresentMembers | sba/bandaveraging.py:39-41 | the values the nan-statistics use are exactly the non-NaN entries |
| Statistics.PresentSkipsNaN | sba/bandaveraging.py:39-41 | inserting a NaN anywhere changes nothing the nan-statistics see |
| Statistics.PresentEmpty | sba/bandaveraging.py:39-41 | nothing is left to summarise exactly when every entry is NaN |
| Statistics.NanPercentile | sba/bandaveraging.py:39-41 | `np.nanpercentile` is NaN exactly when every entry is NaN |
| Statistics.NanPercentileBounds | sba/bandaveraging.py:39-41 | a non-NaN percentile lies between the smallest and largest non-NaN entry |
| Statistics.NanMedian | sba/bandaveraging.py:40 | `np.nanmedian` is NaN exactly when every entry is NaN, and is the 50th nan-percentile |
| Statistics.Summarise | sba/bandaveraging.py:38-44 | median and both errors are NaN exactly when the row is all NaN; otherwise both errors are ≥ 0, with the 15.9th percentile = median − lower and the 84.1st percentile = median + upper |
| Statistics.PercentilesOrdered | sba/bandaveraging.py:39-43 | for a row with some number, 15.9th percentile ≤ median ≤ 84.1st percentile |
| Statistics.MedianAndErrors | sba/bandaveraging.py:38-44 | one summary per row, and each row's summary is that row's own |
| Statistics.SummariseMultiset | sba/bandaveraging.py:38-44 | the summary depends only on the multiset of non-NaN values, not their order or the NaNs |
| Statistics.NanPercentileScaled | bandaveraging.py:140-143 | the nan-percentile of values scaled by k > 0 is k times the percentile |
| Statistics.NanMedianScaled | bandaveraging.py:140-143 | the nan-median of values scaled by k > 0 is k times the median |
| Statistics.SummariseScaled | bandaveraging.py:140-143 | scaling a row by k > 0 scales its median and both errors by k |
| Statistics.ExamplePercentiles | sba/bandaveraging.py:39-41 | for 1, 2, 3, 4, 5, 100 the 15.9th percentile is 1.795, the median is 3.5 and the 84.1st percentile is 24.475 |
| Statistics.SummariseExample | sba/bandaveraging.py:38-44 | the same row with a NaN among it gives median 3.5, lower error 1.705 and upper error 20.975 |
| Differences.CalculateDifferences | sba/bandaveraging.py:32-36 | fails exactly when the lengths differ and neither is 1, as numpy's broadcasting does; otherwise the result has the longer length (a length-1 operand is stretched, also to length 0), rad + absolute = refl entry by entry (NaN exactly when an operand is) and relative · rad = 100 · absolute (NaN also when rad is 0) |
| Differences.BroadcastIsRepeat | sba/bandaveraging.py:33-34 | comparing with a one-element array gives the same differences as comparing with that element repeated to full length |
| Differences.DifferencesOfEqual | sba/bandaveraging.py:32-36 | comparing a non-zero result with itself gives zero absolute and zero relative difference |
| Differences.RelativeRecovers | sba/bandaveraging.py:33-34 | a finite relative difference gives back the reflectance-space value at the same broadcast position: refl = rad · (1 + relative/100) |
| Reporting.LabelsOrDefault | bandaveraging.py:126-127 | with no labels given there is one empty label per row of differences; given labels are used as they are |
| Reporting.BoxplotRelative | bandaveraging.py:125-131 | one report line per (label, row) pair that `zip` forms, carrying that label and the row's median and error summary |
| Reporting.BoxplotAbsolute | bandaveraging.py:136-145 | one report line per (label, row) pair that `zip` forms, with one empty label per row when none are given, each summarising its row multiplied by 10^exponent |
| Reporting.BoxplotAbsoluteIsScaled | bandaveraging.py:140-143 | each absolute line is the relative-style summary scaled by 10^exponent: median and both errors multiplied by the same factor |
| Reporting.DefaultScale | bandaveraging.py:136-140 | the default exponent 6 scales by 1 000 000 |
| Reporting.BoxplotAbsoluteMatchesRelative | bandaveraging.py:125-145 | the absolute report has the same lines and labels as the relative report of the same differences, with every number scaled |
| Text.ParseIntStr | sba/bandaveraging.py:9 | `float` reads back a whole wavelength written as digits |
| Text.ParseOneDecimal | sba/bandaveraging.py:9 | `float` reads back a wavelength written with one decimal (`{:.1f}`) as tenths/10 |
| Text.OneDecimalInjective | convert_seaswir-r.py:14 | different wavelengths in tenths give different one-decimal texts |
| Text.ParseHeaderWavelength | convert_seaswir-r.py:22-27 | the header text (no decimals when whole, one decimal otherwise) parses back to the same wavelength |
| Text.LastSegmentAfter | sba/bandaveraging.py:9 | the text after the last separator is the tail that holds no separator |
| Text.KeyWavelengthOneDecimal | sba/bandaveraging.py:9 | the wavelength read from `quantity_{w:.1f}` is w, whatever the quantity |
| Text.KeyWavelengthWhole | sba/bandaveraging.py:9 | the wavelength read from `quantity_{w}` with whole w is w |
| Text.ContainsInside | sba/bandaveraging.py:8 | a key built around a quantity contains that quantity |
| SpectrumTable.Relevant | sba/bandaveraging.py:8 | every column kept contains the quantity in its key and comes from the table |
| SpectrumTable.RelevantMembers | sba/bandaveraging.py:8 | a column is kept exactly when it is in the table and its key contains the quantity |
| SpectrumTable.RelevantInOrder | sba/bandaveraging.py:8 | the kept columns are the table's, in table order |
| SpectrumTable.SplitSpectrum | sba/bandaveraging.py:7-14 | fails exactly when some relevant key has no parsable wavelength; otherwise one wavelength per relevant key, in order, each parsed after the key's last `_`, and the spectra are the relevant columns transposed (row i, column c = column c's value i) |
| SpectrumTable.SplitFailsExactly | sba/bandaveraging.py:9 | the split raises exactly when a key containing the quantity has an unparsable tail |
| SpectrumTable.SplitAllNamed | sba/bandaveraging.py:7-14 | a table whose every key carries the quantity and a wavelength splits into those wavelengths and the transposed table |
| SpectrumTable.SplitGridColumns | sba/bandaveraging.py:7-14 | splitting a table written as `quantity_{w:.1f}` columns gives back the grid wavelengths and the data transposed |
| Selection.KeptExactly | process_data/so-p4.py:44-59 | a row survives a filter exactly when it does not fail the filter's test |
| Selection.KeptAscending | process_data/so-p4.py:44-59 | the survivors keep their original relative order |
| Selection.KeptElements | process_data/so-p4.py:44-59 | the filtered table is the original rows at the surviving positions |
| Selection.RemoveRowsIsWithout | process_data/so-p4.py:46-47 | removing the listed failing indices is the same as keeping the rows that pass |
| Selection.RemoveMatching | process_data/so-p4.py:46-47 | `remove_rows` of the matching indices leaves exactly the rows that pass |
| Selection.WithoutTwice | convert_msm21_3r.py:39-46 | running a second filter on the first one's survivors removes exactly the rows failing either test |
| Selection.WithoutAppend | process_data/so-p4.py:46-47 | filtering a concatenation is filtering each part |
| Selection.WithoutNothing | process_data/so-p4.py:46-47 | a filter nothing fails leaves the table unchanged |
| Selection.SuccessiveFilters | convert_msm21_3r.py:39-46 | two filters in a row are one filter on the disjunction of their tests |
| Selection.ThreeSuccessiveFilters | convert_seaswir-r.py:41-52 | three filters in a row are one filter on the disjunction of their tests |
| FieldData.Grid5 | convert_msm21_3r.py:12 | the grid is 320, 325, …, 950 nm: 127 wavelengths |
| FieldData.SeaSwirGrid | convert_seaswir-r.py:10 | the SeaSWIR grid is 350, 352.5, …, 900 nm: 221 wavelengths |
| FieldData.GridPositions | process_data/so-p4.py:39-45 | positions 16, 17, 86 and 96 of the grid are 400, 405, 750 and 800 nm; position 20 of the SeaSWIR grid is 400 nm |
| FieldData.WaterLeaving | process_data/so-p4.py:30 | Lw is a number exactly when Lu and Ls are, and Lw + 0.028 · Ls = Lu |
| FieldData.FromRadiance | process_data/so-p4.py:21-36 | with Lu converted from µW/cm² (factor 0.01): Lw = 0.01 · Lu − 0.028 · Ls, and R_rs · Ed = Lw wherever R_rs is a number, R_rs being NaN exactly when Lw or Ed is NaN or Ed is 0 |
| FieldData.FromReflectance | convert_seaswir-r.py:28-39 | Ed converted by the unit factor and Lw = R_rs · Ed, NaN exactly when an operand is |
| FieldData.DerivationsInverse | convert_seaswir-r.py:35-39 | dividing the derived Lw by Ed gives back R_rs |
| FieldData.RadianceReflectanceAgree | process_data/so-p4.py:29-36 | a derived R_rs times Ed is the derived Lw, so the radiance-side and reflectance-side derivations agree |
| FieldData.Normalise | process_data/so-p4.py:38-42 | subtracts the R_rs(750) read before any update: afterwards R_rs(750) is 0, differences between wavelengths are unchanged, NaN spreads from R_rs(750), and Lw = R_rs · Ed at every wavelength |
| FieldData.NormaliseColumns | process_data/so-p4.py:39-42 | the column-by-column loop computes the same as subtracting the saved copy everywhere at once |
| FieldData.WindowColumnsExactly | process_data/so-p4.py:62-64 | exactly the wavelengths from 375 to 700 nm keep their columns, in grid order |
| FieldData.TrimColumns | process_data/so-p4.py:62-64 | the Ed, Lw and R_rs columns left are those of the 375-700 nm wavelengths |
| FieldData.SoP4Survivors | process_data/so-p4.py:44-59 | the three SO-P4 filters in order remove exactly the rows with an Ed(400)−Ed(405) dip > 0.15, a neighbouring R_rs step ≥ 0.002, or some R_rs < −0.001 |
| FieldData.SoP4 | process_data/so-p4.py:29-64 | the SO-P4 table is the derived, normalised rows failing no filter, in order, with their columns trimmed |
| FieldData.SoP4SurvivorProperties | process_data/so-p4.py:39-59 | every surviving row passes all three tests, has R_rs(750) = 0 (or NaN) and Lw = R_rs · Ed at every wavelength |
| FieldData.Msm21Survivors | convert_msm21_3r.py:39-46 | MSM21 keeps, in order, exactly the rows with no R_rs ≤ −0.001 and neither R_rs(400) < 0 nor R_rs(800) ≥ 0.003 |
| FieldData.SeaSwirSurvivors | convert_seaswir-r.py:41-52 | SeaSWIR keeps, in order, exactly the rows with no R_rs ≤ −0.001, no R_rs > 0.1, and R_rs(400) not below 0 |
| FieldData.SeaSwirKeepsBrightAt800 | convert_seaswir-r.py:50-52 | a row whose R_rs(800) ≥ 0.003 but is otherwise in range survives SeaSWIR's third filter, as the code is written |
| FieldData.He302 | process_data/he302.py:22-30 | HE302 derives Lw = Ed · R_rs with Ed already in W/m²/nm and removes exactly the rows with R_rs(800) ≥ 0.003, keeping order |
| FieldData.FilterKeepsExactly | process_data/he302.py:28-29 | a row survives a filter exactly when it does not fail the test, and every survivor passes it |
| Columns.Rename | process_data/he302.py:33 | `rename_column` fails when the old name is missing or the new one is already taken, and otherwise changes only that column's name, in place |
| Columns.RenameKeepsDistinct | process_data/he302.py:33 | renaming keeps column names unique, and the names afterwards are the old ones minus `from` plus `to` |
| Columns.RemoveColumns | convert_seaswir-r.py:20 | `remove_columns` fails exactly when a named column is missing; otherwise it keeps exactly the other columns, in order |
| Columns.ColKeyInjective | convert_seaswir-r.py:18-19 | different indices j give different generic names `col{j}` |
| Columns.RenameGeneric | convert_seaswir-r.py:18-19 | renaming `col1`, `col2`, … to the given names succeeds exactly when there are no more names than columns and the names are unique; the result is the names followed by the untouched generic columns |
| Columns.RrsKeysDistinct | convert_seaswir-r.py:14 | the R_rs column names `R_rs_{w:.1f}` are unique, one per wavelength |
| Columns.EdKeyWavelength | convert_seaswir-r.py:22-27 | the Ed header wavelength and the new `Ed_{w:.1f}` key both read back as the same wavelength |
| Columns.MergeCopiesSucceeds | process_data/he302.py:33-34 | with `key_1` and `key_2` present and `key` free, renaming `key_1` to `key` and dropping `key_2` succeeds, keeps names unique, adds `key` and removes only the two copies |
| Columns.MergeAllSucceeds | process_data/he302.py:32-34 | merging the copies of several distinct keys, one after the other, never fails, and leaves every key present and none of its copies |
| Columns.CopiesStayGone | process_data/he302.py:32-34 | merging never brings back a name that was absent and is not one of the merged keys |
| Columns.BaseSurvivesMerges | process_data/he302.py:32-34 | every other column survives the merges |
| Responses.Boxcar | generate_spectral_responses.py:22-25 | one weight per wavelength: 1 exactly where the wavelength is within fwhm/2 of the centre, 0 exactly where it is further |
| Responses.GaussianFitsBoxcarFits | generate_spectral_responses.py:44-56 | a width whose Gaussian passes the ±1.5·fwhm test also passes the boxcar ±fwhm/2 test |
| Responses.BoxcarWeightPositive | generate_spectral_responses.py:44-50 | on an increasing grid no coarser than the width, a boxcar that fits has a positive weight integral, so its band average is a number |
| Responses.SweepBoxcarsWeighted | generate_spectral_responses.py:12-15 | every boxcar cell the sweep computes has a positive weight integral on the 0.1 nm band grid |
| Responses.BandGridShape | generate_spectral_responses.py:12 | the band grid runs from 320 to 799.9 nm in increasing steps of 0.1 nm |
| Responses.SweepCoverageAtEnds | generate_spectral_responses.py:44-56 | at the 350 nm centre boxcars up to 60 nm wide fit and Gaussians up to 20 nm; at 779 nm up to 41 nm and 13 nm |
| Sweep.Gap | generate_spectral_responses.py:50-51 | the relative gap (rad − refl)/rad with rad = Lw/Ed satisfies gap · Lw = Lw − refl · Ed, and is a number exactly when all three are numbers and Ed and Lw are non-zero |
| Sweep.StrictMedian | generate_spectral_responses.py:51 | `np.median` is a number exactly when there is an entry and none is NaN, and then it equals the NaN-ignoring median |
| Sweep.Averages | generate_spectral_responses.py:49-50 | each observation's entry is its own band average |
| Sweep.Cell | generate_spectral_responses.py:48-51 | the three batch band averages and the median give the cell value for that response |
| Sweep.NanGrid | generate_spectral_responses.py:17-18 | a grid of the given shape whose every cell is NaN |
| Sweep.BoxcarGrid | generate_spectral_responses.py:40-51 | shape widths × centres, and cell [j, i] is the boxcar cell value when the boxcar fits and NaN otherwise |
| Sweep.GaussianGrid | generate_spectral_responses.py:53-60 | cell [j, i] is computed only when both the boxcar and the Gaussian tests pass, and is NaN otherwise |
| Sweep.VisitStep | generate_spectral_responses.py:40-60 | writing cell [j, i] touches no other cell, and the visited cells keep their final value |
| Sweep.SkipStep | generate_spectral_responses.py:44-47 | a skipped cell keeps its initial NaN, which is its final value |
| Sweep.AllVisited | generate_spectral_responses.py:40-60 | once every centre has been visited, the grid is the intended one |
| Sweep.BoxcarGaussianSweep | generate_spectral_responses.py:17-60 | the loops turn the NaN grids into exactly the boxcar and Gaussian grids: every (width, centre) cell ends as its computed value where the fit tests pass and NaN where they skip |
| Sweep.BoxcarSweep | boxcar.py:17-46 | the boxcar-only loop turns the NaN grid into exactly the boxcar grid |
| Sweep.GaussianComputedBoxcarComputed | generate_spectral_responses.py:44-56 | wherever the Gaussian grid holds a number, the boxcar cell at the same place was computed |
| Sweep.CellNumber | generate_spectral_responses.py:49-51 | a cell is a number exactly when every observation's relative gap is a number, and then each observation's R_rs, Lw and Ed band averages are numbers with Lw and Ed non-zero |
| Sweep.GapOfAgreement | generate_spectral_responses.py:50-51 | when Lw = refl · Ed the relative gap is exactly 0 |
| Sweep.FlatReflectanceNoDifference | generate_spectral_responses.py:48-51 | if every observation has a flat R_rs = c with Lw = c · Ed, and the response lies inside the data range, radiance and reflectance space agree and the cell is 0 |

## Left out

- Plotting, maps and printing: the boxplots, imshow and contour figures, map output and the formatted `print` lines. The report lines carry the numbers printed, not their text formatting.
- File and argument input and output: table reading and writing, `sys.argv`, joining tables on an event or date key, and the `vstack` of the two campaigns. The sweep receives its observations already split into Ed, Lw and R_rs on one wavelength grid.
- Units: conversions are fixed factors. Lu from µW/cm² is 0.01, SeaSWIR Ed from mW is 0.001, and HE302 data are taken as already in W/m²/nm with R_rs in 1/sr. HE302's `convert_to_unit` comes from a module that is not part of this model.
- The Lu and Ls columns, and the latitude, longitude and date columns, are not carried through the field rows. Only their names appear, in the HE302 merge.
- IEEE floating point: rounding, ±inf (a non-zero value divided by 0 is NaN here, where numpy gives ±inf) and the end-point quirks of `np.arange` with a float step. The grids are written out exactly.
- `generate_gaussian` depends on `exp`. It is a parameter of the sweep, constrained only to return one weight per band wavelength; its coverage test is modelled.
- The unused `wavelengths_interp` grids of both sweep scripts.
- msi.py, spectacle.py, chla/satellite_algorithms_all.py, process_data/orinoco.py, process_data/sfp.py and process_data/all_map.py are not part of this model: they are thin wrappers around modules not part of this model, input readers, or map plots.
- BandAveraging.BandAverageMulti: an empty batch is an `EmptyBatch` error. numpy would fail with a broadcast error instead of returning an empty array, so both are failures but of different kinds.
- BandAveraging.BandAverage: requires increasing data wavelengths, the same assumption `np.interp` makes without checking. An unsorted grid gives numpy's unspecified result and is not modelled.
- Sweep.BoxcarGaussianSweep: requires `WellShaped` observations (a non-empty increasing grid, at least one observation, aligned tables), the conditions under which the source's `bandaverage_multi` calls do not raise.
- Sweep.BoxcarSweep: requires `WellShaped` observations, as above.
- Sweep.Cell: requires `WellShaped` observations and a response with one weight per band wavelength, as above.
- Text.ParseDecimal: reads only unsigned decimals: one or more digits, optionally followed by a `.` and one or more digits. Python's `float` also accepts a point with digits on one side only (`400.` is 400.0, `.5` is 0.5), signs, exponents, surrounding whitespace, `inf` and `nan`; here those are `None`. Every key in the tables this code reads has its wavelength in the modelled form.
- Columns.RenameGeneric: requires no new name to start with `col` (`Columns.Specific`), which the SeaSWIR name list satisfies. This is broader than a clash needs: only `col` followed by digits can name a column not yet renamed. Names such as `colour` are excluded as well, and a name like `col5`, which would clash, is not modelled.
- FieldData.FromRadiance: requires Lu, Ls and Ed to have one value per wavelength. The tables come from joined files with one column per wavelength of the grid.
- FieldData.SoP4Survivors: the SO-P4 filters read fixed grid positions (400, 405 and 750 nm) and so apply to full 127-wavelength rows. A row of another length fails no position-based test.
- FieldData.Msm21Survivors: the R_rs(400) and R_rs(800) test reads grid positions 16 and 96 and applies only to full 127-wavelength rows. A row of another length fails no position-based test, where numpy would read whatever sits at those positions or raise.
- FieldData.SeaSwirSurvivors: the R_rs(400) test reads position 20 of the 221-wavelength SeaSWIR grid and applies only to rows of that length, as above.
- FieldData.He302: the R_rs(800) test reads position 96 and applies only to full 127-wavelength rows, as above.
- BandAveraging.BandAverage: weights whose length differs from the band grid's are a `ResponseShapeMismatch` error. numpy broadcasts a length-1 array instead, so two shapes pass without error: one weight on a two-point band grid gives a zero weight integral and a ±inf or NaN average, and two weights on a one-point band grid give 0/0 = NaN. Every other mismatch raises in numpy as well.
- BandAveraging.BandAverage: spectra are NaN-free `real`s. In numpy a NaN sample makes the interpolant NaN on the band wavelengths of the segments next to it, and then trapz and the band average are NaN whatever the weights (NaN · 0 is NaN). The model has no such input.
- BandAveraging.BandAverageMulti: the same two length-1 weight shapes, and NaN samples in a row, behave in numpy as described for `BandAverage`.
- Sweep.Cell: the observations are NaN-free, as above. In numpy a NaN sample of Ed, Lw or R_rs in the band's range makes that observation's band average NaN, its gap NaN, and `np.median` makes the cell NaN. `Sweep.StrictMedian` models that last step for NaN gaps.
- Sweep.Gap: a zero Lw band average with a non-zero Ed one gives rad = 0, and numpy's gap is then ∓inf (NaN only when refl is 0 too). The model's gap is NaN, so `Sweep.StrictMedian` makes the cell NaN, where `np.median` of a few infinities among finite gaps stays finite.
- SpectrumTable.SplitSpectrum: columns hold NaN-free `real`s. numpy carries a NaN or masked entry into the spectra unchanged.
- Differences.CalculateDifferences: broadcasting is modelled for one-dimensional arrays only. Arrays of two or more dimensions are not modelled.
- The non-NaN reading of "a non-NaN Gaussian cell implies a non-NaN boxcar cell" does not hold: the boxcar cell can be a computed NaN (a zero Ed band average, say) where the Gaussian's is a number. `Sweep.GaussianComputedBoxcarComputed` states what the code guarantees instead: the boxcar cell was computed.
- SeaSWIR's third filter prints a message about R_rs(400) < 0 or R_rs(800) ≥ 0.003 but tests only R_rs(400) < 0. The model follows the code, and `FieldData.SeaSwirKeepsBrightAt800` exhibits a row the message suggests is removed but which survives.
