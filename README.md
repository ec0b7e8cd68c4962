# clean_data of the house-price data processor

This project models `clean_data`, the cleaning step of the house-price
data processor, and proves properties of it. The step takes a table of
house records and works in two stages:

1. **Imputation.** Each column of a working copy that has any missing
   cells is filled:
   - a numeric column with the median of its non-missing values;
   - a categorical column with its mode, the most frequent value, and on
     ties the least one in string order.
2. **Outlier filter.** Rows whose `price` lies outside the IQR fences are
   dropped:
   - the fences are `[Q1 - 1.5 * IQR, Q3 + 1.5 * IQR]`, where `Q1` and
     `Q3` are the linear 0.25- and 0.75-quantiles and `IQR = Q3 - Q1`;
   - when no row is outside the fences, the table is returned unchanged.

The modules follow that structure:

- `Tables` (`tables.dfy`): the data model and the pandas primitives the
  step uses.
  - A table is a sequence of named columns. Each column has a kind tag,
    numeric or categorical, in place of pandas' dtype.
  - A cell is `None`, meaning missing, or a number or a string.
  - Also defined here: `fillna`, boolean masks and row selection.
- `Stats` (`stats.dfy`): sorting, linear quantiles, the median and the
  mode.
- `Imputer` (`imputer.dfy`): the per-column fill and the column loop. The
  loop is an imperative method over a working copy of the columns.
- `OutlierFilter` (`outliers.dfy`): the IQR fences and the row filter.
- `Cleaning` (`cleaning.dfy`): the whole step, including its error cases.
- `Scenarios` (`scenarios.dfy`): worked examples, among them the price
  column 100, 102, 98, 101, 99, 1000000. Q1 = 99.25 and Q3 = 101.75, so
  the fences are [95.5, 105.5]; only the last row is dropped.

Numbers are exact reals, so there is no floating-point rounding. pandas
raises an exception in three cases, and the model returns an error value
instead:

- mode()[0] of a categorical column with gaps but no value;
- a table without a `price` column;
- a non-numeric `price` column with at least one row, on which quantile
  fails. On a table without rows, quantile gives NaN whatever the column's
  kind, so the table comes back unchanged.

The quartiles are pandas' linear quantiles: for the price column above
they are exactly Q1 = 99.25 and Q3 = 101.75, not the rounder values one
might estimate by eye, and five rows remain.

Ties in the mode go to the least tied value, not to the first one seen:
the code takes element 0 of pandas' `mode()`, which returns the modes
sorted.

## Model

| member | source | states |
|---|---|---|
| Stats.Sort | src/data/run_processing.py:35 | the ascending rearrangement: sorted, same length, same multiset of values |
| Stats.SortIsUnique | src/data/run_processing.py:35 | any sorted sequence with the same values as s equals Sort(s), so the median and quantiles depend only on the values |
| Stats.SortedUnique | src/data/run_processing.py:35 | two sorted sequences with the same values are equal |
| Stats.SortBounds | src/data/run_processing.py:44-45 | every value lies between the first and the last element of the sorted values |
| Stats.Interpolate | src/data/run_processing.py:44-45 | the value at a fractional position of sorted values lies between the neighbouring values, and equals the value itself at a whole position |
| Stats.InterpolateGap | src/data/run_processing.py:44-45 | between positions j and j + 1 the interpolation is linear in the fraction |
| Stats.InterpolateMonotone | src/data/run_processing.py:44-45 | a later position never gives a smaller value |
| Stats.Position | src/data/run_processing.py:44-45 | the fractional position (n - 1) * p of the p-quantile lies within the sorted values |
| Stats.PositionMonotone | src/data/run_processing.py:44-45 | a larger p never gives an earlier position |
| Stats.Quantile | src/data/run_processing.py:44-45 | the linear quantile lies between the least and the greatest value |
| Stats.QuantileMonotone | src/data/run_processing.py:44-46 | a larger p never gives a smaller quantile; in particular Q1 <= Q3, so IQR >= 0 |
| Stats.QuantileEnds | src/data/run_processing.py:44-45 | the 0- and 1-quantiles are the minimum and the maximum |
| Stats.MedianOfSorted | src/data/run_processing.py:35 | on sorted values the median is the middle value, or the mean of the two middle values for an even count |
| Stats.Median | src/data/run_processing.py:35 | at least half the values are at most the median and at least half are at least the median |
| Stats.MedianIsHalfQuantile | src/data/run_processing.py:35 | the median equals the linear 0.5-quantile |
| Stats.Mode | src/data/run_processing.py:39 | the mode is a value of the column, no value is more frequent, and it is the least of the equally frequent values |
| Stats.ModeUnique | src/data/run_processing.py:39 | any value with those three properties is the mode |
| Stats.LexLe | src/data/run_processing.py:39 | Python's string order used to sort the modes: a prefix of a string is at most that string |
| Stats.LexLeFirstDifference | src/data/run_processing.py:39 | past a common prefix, the first differing character decides the order |
| Stats.LexLeAntisymmetric | src/data/run_processing.py:39 | the string order used to break ties is antisymmetric, so the tie-break picks one value |
| Tables.Numbers | src/data/run_processing.py:35 | a number is among the values the median uses exactly when some cell holds it |
| Tables.NumbersCount | src/data/run_processing.py:35 | each number is counted as often as the cells hold it, so the median sees repeated values with their multiplicity and ignores missing cells |
| Tables.Texts | src/data/run_processing.py:39 | a string is among the values the mode uses exactly when some cell holds it |
| Tables.TextsCount | src/data/run_processing.py:39 | each string is counted as often as the cells hold it, so missing cells do not count toward the mode |
| Tables.FillNa | src/data/run_processing.py:36 | every missing cell becomes the fill value and every present cell is kept |
| Tables.Kept | src/data/run_processing.py:55-56 | the selected row indices, strictly increasing, each selected, and every selected row among them |
| Tables.KeptComplement | src/data/run_processing.py:50-56 | the rows a mask keeps and the rows its complement keeps add up to all rows |
| Tables.Select | src/data/run_processing.py:55-56 | boolean indexing keeps the selected elements in their original order |
| Tables.FilterRows | src/data/run_processing.py:55-56 | filtering rows keeps the schema and validity; each output cell is the cell of the k-th selected row |
| Tables.FilterRowsRows | src/data/run_processing.py:55-56 | the k-th output row is, cell for cell, the k-th selected input row |
| Imputer.Imputable | src/data/run_processing.py:38-39 | a column can be imputed unless it is categorical with gaps and no string at all, the case where the mode is empty and taking its first element fails |
| Imputer.HasValueIffTexts | src/data/run_processing.py:39 | a categorical column has a value exactly when it has a string for the mode to count |
| Imputer.ImputeColumn | src/data/run_processing.py:29-41 | a column without gaps, or a numeric one without values, is returned unchanged; otherwise every gap is filled, present cells are kept, and the name, kind and length stay the same |
| Imputer.ImputeNumericFill | src/data/run_processing.py:34-36 | in a numeric column with gaps and a value, every gap receives the median of the non-missing numbers, each counted as often as the column holds it |
| Imputer.ImputeCategoricalFill | src/data/run_processing.py:38-40 | every gap of a categorical column receives one value of the column that is most frequent and least among ties |
| Imputer.ModeOfCells | src/data/run_processing.py:39 | the mode, stated over the cells: it occurs in them, and missing cells do not count |
| Imputer.ImputeTable | src/data/run_processing.py:26-41 | the imputed table is valid with the same schema and height; a column has no gap left exactly when it had no gap or had a value; present cells are unchanged |
| Imputer.ImputeMissing | src/data/run_processing.py:26-41 | the column loop fails exactly when some categorical column has gaps but no value; otherwise it returns the column-by-column imputation |
| OutlierFilter.PriceBounds | src/data/run_processing.py:44-48 | the fences enclose the interquartile range: lower <= Q1 <= Q3 <= upper |
| OutlierFilter.Prices | src/data/run_processing.py:50-56 | the prices are read off a fully numeric column, one per row |
| OutlierFilter.OutlierMask | src/data/run_processing.py:50-51 | a row is flagged exactly when its price is not within the fences |
| OutlierFilter.KeepMask | src/data/run_processing.py:55-56 | the keep mask is the complement of the outlier mask |
| OutlierFilter.RemoveOutliers | src/data/run_processing.py:43-57 | the filtered table is valid, keeps the schema and never grows |
| OutlierFilter.Survivors | src/data/run_processing.py:55-56 | the positions of the rows the filter keeps: row positions of the input, strictly increasing |
| OutlierFilter.OutlierCount | src/data/run_processing.py:50-54 | the number of outlier rows, len(outliers): together with the surviving rows they make up every row |
| OutlierFilter.SurvivorsInBounds | src/data/run_processing.py:55-56 | a row survives exactly when its price lies within the fences |
| OutlierFilter.NoOutliersKeepsAll | src/data/run_processing.py:50-56 | without outliers the keep mask selects every row in order |
| OutlierFilter.RemoveOutliersRows | src/data/run_processing.py:50-57 | the output rows are exactly the in-fence input rows, in order, whole; a row is kept exactly when its price is within the fences |
| OutlierFilter.OutputWithinBounds | src/data/run_processing.py:55-56 | every remaining price lies within the fences computed from the input |
| OutlierFilter.RowAccounting | src/data/run_processing.py:50-57 | output rows = input rows - outlier rows |
| OutlierFilter.UnchangedIffNoOutliers | src/data/run_processing.py:53-57 | the table comes back unchanged exactly when no row is an outlier |
| OutlierFilter.InterquartileKept | src/data/run_processing.py:44-56 | a row whose price lies in [Q1, Q3] is never removed |
| OutlierFilter.TwoSortedLower | src/data/run_processing.py:44-47 | for two sorted prices the lower fence lies below the smaller one |
| OutlierFilter.TwoPricesLower | src/data/run_processing.py:44-47 | with two prices the lower fence lies below the smaller one |
| OutlierFilter.ManySortedLower | src/data/run_processing.py:44-47 | for three or more sorted prices the lower fence lies below the sorted price at Q3's position, rounded down |
| OutlierFilter.ManyPricesLower | src/data/run_processing.py:44-47 | the same for unsorted prices, through their sorted order |
| OutlierFilter.LowerFenceBelow | src/data/run_processing.py:44-47 | the lower fence lies below the sorted price at Q3's position, rounded down, for any number of prices |
| OutlierFilter.SurvivorRows | src/data/run_processing.py:53-57 | the output rows are the surviving input rows, whole and in order, whether or not any row was an outlier |
| OutlierFilter.SomePriceInBounds | src/data/run_processing.py:44-56 | some price always lies within its own fences |
| OutlierFilter.NonEmptyStaysNonEmpty | src/data/run_processing.py:43-57 | a table with at least one row never loses all its rows |
| Cleaning.FindColumn | src/data/run_processing.py:44 | the index of the first column with the name, or none exactly when no column has it |
| Cleaning.FindColumnSchema | src/data/run_processing.py:44 | looking up a column depends only on the column names, so the price column is the same before and after imputation |
| Cleaning.ImputedNumericColumn | src/data/run_processing.py:34-36 | after imputation a numeric column is either complete or entirely missing |
| Cleaning.CleanData | src/data/run_processing.py:22-59 | the error cases, each exactly when it occurs: empty mode, no price column, categorical price on a table with rows. Otherwise the result is the imputed table with its price outliers removed, or the imputed table itself when there are no rows or no price at all |
| Cleaning.CleanedRowsAreImputedRows | src/data/run_processing.py:26-57 | every cleaned row is an imputed row, and no column that had a value has a missing cell in the output |
| Scenarios.NumericFillExample | src/data/run_processing.py:34-36 | [x, y, missing, z] with x <= y <= z becomes [x, y, y, z] |
| Scenarios.CategoricalFillExample | src/data/run_processing.py:38-40 | [a, a, b, missing] with a != b becomes [a, a, b, a] |
| Scenarios.FillExamples | src/data/run_processing.py:29-41 | [10, 20, missing, 30] becomes [10, 20, 20, 30] and ["A", "A", "B", missing] becomes ["A", "A", "B", "A"] |
| Scenarios.SortSix | src/data/run_processing.py:44-45 | six distinct values in the order of the worked example sort to the expected order |
| Scenarios.ScenarioBounds | src/data/run_processing.py:44-48 | for prices 100, 102, 98, 101, 99, 1000000 the fences are [95.5, 105.5] |
| Scenarios.ScenarioKept | src/data/run_processing.py:55-56 | within those fences rows 0 to 4 are kept |
| Scenarios.PriceScenario | src/data/run_processing.py:43-57 | on that table only the last row is dropped, leaving 5 rows |
| Scenarios.CleanPriceScenario | src/data/run_processing.py:22-59 | the whole cleaning step on that table succeeds and returns 5 rows |
| Scenarios.EmptyPriceScenario | src/data/run_processing.py:43-59 | a header-only table with a categorical price column comes back unchanged, with no error |

## Left out

- load_data, process_data and the command-line entry point (src/data/run_processing.py:16-19 and 62-91): file and CSV I/O, directory creation and argument parsing.
- Logging: every `logger.info` call. It has no effect on the result.
- dtype inference: pandas decides whether a column is numeric from its contents. The model takes the kind of each column as a given tag, with every present cell agreeing with it.
- Floating point: prices and medians are exact reals. Rounding in the median, the quantile interpolation and the fences is not modelled.
- NaN as a value: a missing cell is `None`. A numeric column without any value keeps its gaps, because pandas fills it with a NaN median, which changes nothing.
- A price column without any value: the quantiles are NaN, no comparison with NaN holds, and the table is returned as imputed. CleanData states this case. The quantile of NaN itself is not modelled.
- A price column that has gaps after imputation but also numbers cannot occur. ImputedNumericColumn proves this, so the model does not give pandas' NaN-skipping quantile for mixed columns.
- Row labels: pandas keeps the original index labels of the surviving rows. The model gives the surviving rows' positions instead, through Survivors.
- Mode: strings are compared by code point. Locale collation and mixed-type object columns are not modelled.
- Imputation of the whole table happens before the price lookup. A missing `price` column is reported after the loop, so an empty-mode error takes precedence, as in the code.
- src/api/main.py and the model-training code are not part of this model.
