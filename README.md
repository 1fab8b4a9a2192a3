# Wastewater energy dataset: cleaning rules

This project models the data-cleaning core of a single exploratory script,
`data_preprocessing.py`. The script works on a wastewater-treatment dataset:
one row per day, holding plant flows, energy consumption, contaminant loads
and weather readings. The model covers:

- **Validity audit** (`Validity`): eleven rules, each a disjunction of bound
  checks on named columns of the raw table. Each rule is reported as the number
  of rows that fail it. A rule that names a column the table lacks fails the
  way a pandas column lookup does.
- **Decimal-place audit** (`Decimals`): the number of decimal places of a value
  is read off its text form. A float64 column is inconsistent when its values
  show more than one count. This module also models the report of float64
  columns whose values are all whole numbers.
- **Duplicate audit** (`Duplicates`): the number of rows equal to some earlier row.
- **Column pruning** (`Pruning`): the report of columns whose cells are more
  than half zero, and the drop of a fixed list of columns.
- **Outlier filter** (`Quantiles`, `Outliers`):
  - quartiles follow pandas' default linear interpolation between order statistics;
  - the fences Q1 − 1.5·IQR and Q3 + 1.5·IQR come from the unfiltered table;
  - a row is removed when any of its cells lies strictly outside its column's fence.
- **Column updates** (`ColumnUpdates`): the in-place loops that round a listed
  set of columns to two decimals, and convert another listed set to integers.
  Each loop skips names the table does not have. This is a `Table` class over
  an array of rows, proved against the value-level function `MapListed`.
- **Cleaning sequence** (`Pipeline`): drop, then outlier removal, then
  rounding, then conversion. It is a method on the `Table` class, proved equal
  to a value-level `Cleaned` function whose shape and cell contents are proved
  as lemmas.
- **SOM labels** (`Som`): the winning cell (i, j) of the 10 × 10
  self-organising map becomes the label i·10 + j.

`Frames` holds the shared table type: a header of column names and rows of
real cells. It also holds the order-preserving `Filter` and its index form
`Selected`.

Cells are exact reals. Numeric text and binary floating point are not modelled.
Rounding is exact round-half-even on the hundredths (numpy's rule). The
conversion to integer is truncation toward zero, as `astype(int)` does:
`Truncate` silently drops the fraction, and nothing checks that the converted
columns hold whole numbers.

## Model

| member | source | states |
|---|---|---|
| Validity.Resolve | data_preprocessing.py:84-139 | looking up a rule's columns fails exactly when some column is absent, and names the first absent one; on success each check reads the cell under its own column name with its own comparison and limit |
| Validity.InvalidCount | data_preprocessing.py:84-139 | a rule's count fails exactly when one of its columns is absent; otherwise it is at most the number of rows |
| Validity.ResolvedRuleAgrees | data_preprocessing.py:84-139 | with unique column names, the looked-up mask flags a row exactly when some check of the rule holds of the cell under that check's column name |
| Validity.InvalidCountIsViolatingRows | data_preprocessing.py:84-139 | when the rule's columns are present, the count equals the number of row positions whose row fails the rule (the OR of its checks) |
| Validity.Audit | data_preprocessing.py:84-139 | the audit yields one count per rule in order, succeeding exactly when every rule's columns are present; a failure names a missing column of the first rule whose columns are not all present, every earlier rule having succeeded |
| Decimals.LastSegment | data_preprocessing.py:154 | the text after the last '.' is the longest suffix with no '.', preceded by '.' when shorter than the text |
| Decimals.CountDecimalPlaces | data_preprocessing.py:149-155 | a value that is not a float, or an integral float, counts 0; a float never counts more places than its text has characters |
| Decimals.DecimalPlacesAreDotFreeSuffix | data_preprocessing.py:153 | a non-integral float counts the characters of a suffix of its text that holds no '.' and is either the whole text or preceded by a '.' |
| Decimals.DecimalPlacesAfterLastDot | data_preprocessing.py:150-155 | a non-integral float written `head.digits`, with no '.' in `digits`, has `len(digits)` decimal places |
| Decimals.DecimalPlacesWithoutDot | data_preprocessing.py:150-155 | a non-integral float whose text has no '.' counts the whole text |
| Decimals.DecimalPlaceSet | data_preprocessing.py:161-164 | the set of counts is empty exactly when the column is |
| Decimals.DecimalPlaceSetMembers | data_preprocessing.py:161-164 | a count is in the set exactly when some value of the column has it |
| Decimals.ColumnDecimalPlaces | data_preprocessing.py:161-164 | the loop over a column's values gathers exactly the set of their counts |
| Decimals.InconsistentIffCountsDiffer | data_preprocessing.py:166-172 | a column has more than one distinct count exactly when two of its values differ in count |
| Decimals.DecimalPlaceConsistency | data_preprocessing.py:157-172 | the map's keys are exactly the float64 columns; each value is the number of distinct counts in that column, and exceeds 1 exactly when two values differ in count |
| Decimals.IntegerValuedColumns | data_preprocessing.py:190-196 | a name is reported exactly when it is a float64 column all of whose values are whole floats |
| Duplicates.DuplicateCount | data_preprocessing.py:180 | the duplicate count is at most the number of rows |
| Duplicates.IsDuplicate | data_preprocessing.py:180 | a row is marked exactly when it occurs among the rows before it; the first row never is |
| Duplicates.DuplicateCountIsMarkedRows | data_preprocessing.py:180 | the count equals the number of positions i whose row equals the row at some earlier position j < i |
| Duplicates.DuplicateCountIsRowsMinusDistinct | data_preprocessing.py:180 | the count equals the number of rows minus the number of distinct rows |
| Pruning.PercentageAboveHalf | data_preprocessing.py:240-242 | for a non-empty column, a zero share above 50 percent means the zero count is more than half the length |
| Pruning.ZeroPercentage | data_preprocessing.py:240 | the zero percentage of a non-empty column lies in [0, 100] |
| Pruning.HighZero | data_preprocessing.py:242 | a column is selected exactly when twice its zero count exceeds its length |
| Pruning.HighZeroIffMostlyZero | data_preprocessing.py:240-242 | a column is reported exactly when strictly more than half of its cells are 0 (an empty column never is) |
| Pruning.HighZeroPrefix | data_preprocessing.py:240-242 | the report over the first k columns names exactly those among them that meet the zero criterion |
| Pruning.HighZeroColumns | data_preprocessing.py:240-242 | the report names exactly the columns that meet the zero criterion |
| Pruning.HighZeroColumnsExactly | data_preprocessing.py:240-242 | the report names exactly the columns more than half of whose cells are 0 |
| Pruning.FirstMissing | data_preprocessing.py:249 | no name is returned exactly when every listed name is a column; a returned name is listed and absent |
| Pruning.KeepColumns | data_preprocessing.py:249 | removing listed columns keeps a well-formed table with the same row count and exactly the unlisted columns |
| Pruning.KeepColumnsKeepsData | data_preprocessing.py:249 | every remaining cell holds the original cell of the same row under the same column name |
| Pruning.DropColumns | data_preprocessing.py:247-249 | the drop fails exactly when a listed name is absent; otherwise the result has the same row count and exactly the columns not listed |
| Pruning.DropKeepsRemainingColumns | data_preprocessing.py:247-249 | a successful drop keeps the remaining columns in their original order, and each keeps its data row by row |
| Quantiles.Insert | data_preprocessing.py:267-268 | inserting into a sorted sequence keeps it sorted and adds exactly that element |
| Quantiles.Sort | data_preprocessing.py:267-268 | the sorted column is sorted and a permutation of the column |
| Quantiles.Lerp | data_preprocessing.py:267-268 | linear interpolation between a ≤ b with weight in [0, 1) lies in [a, b] |
| Quantiles.Quantile | data_preprocessing.py:267-268 | the q-quantile lies between the minimum and maximum, and between the order statistics either side of position (n − 1)·q |
| Quantiles.QuantileMonotone | data_preprocessing.py:267-268 | a larger q never gives a smaller quantile |
| Outliers.ColumnQuartiles | data_preprocessing.py:267-269 | an empty column has no quartiles; otherwise Q1 ≤ Q3, some cell is ≤ Q1 and some cell is ≥ Q3 |
| Outliers.FenceOrdered | data_preprocessing.py:269-271 | IQR ≥ 0 and lower fence ≤ Q1 ≤ Q3 ≤ upper fence |
| Outliers.TableQuartiles | data_preprocessing.py:267-268 | one quartile pair per column, absent exactly when the table has no rows, with Q1 ≤ Q3 |
| Outliers.Flagged | data_preprocessing.py:271 | a cell between its column's Q1 and Q3 is never flagged, nor any cell of a column without quartiles |
| Outliers.OutlierRow | data_preprocessing.py:281 | a row whose every cell lies between its column's quartiles is not an outlier row |
| Outliers.KeepMask | data_preprocessing.py:281 | the keep mask keeps every row within the quartile box and drops every row with a flagged cell |
| Outliers.RemoveOutliers | data_preprocessing.py:281 | the filtered table is well formed, has the same columns and no more rows |
| Outliers.RemovedIffSomeCellOutside | data_preprocessing.py:271-281 | the kept rows are the input rows at strictly increasing positions; a row is kept exactly when none of its cells is strictly outside its column's fence |
| Outliers.KeptCellsWithinFences | data_preprocessing.py:267-281 | every cell of every kept row lies within the fences computed from the unfiltered table |
| ColumnUpdates.RoundHalfEven | data_preprocessing.py:304 | the result is an integer within 0.5 of the input, and even when the input is exactly halfway |
| ColumnUpdates.Round2 | data_preprocessing.py:304 | the rounded value is a whole number of hundredths within 0.005 of the input; at an exact tie it is the even hundredth |
| ColumnUpdates.Truncate | data_preprocessing.py:325 | the integer part lies toward zero: 0 ≤ r ≤ x < r + 1 when x ≥ 0, and r − 1 < x ≤ r ≤ 0 when x < 0 |
| ColumnUpdates.TruncateWhole | data_preprocessing.py:325 | a whole number converts to itself |
| ColumnUpdates.MapListed | data_preprocessing.py:302-325 | the listed updates keep the number of rows |
| ColumnUpdates.MapListedAbsentNames | data_preprocessing.py:302-325 | a list naming no column of the table leaves the rows unchanged, each name being skipped by the presence guard |
| ColumnUpdates.MapListedKeepsShape | data_preprocessing.py:302-325 | the updates keep the number of rows and the width of every row |
| ColumnUpdates.UnlistedColumnsUnchanged | data_preprocessing.py:302-325 | every cell of a column that is not listed is unchanged |
| ColumnUpdates.MapListedEffect | data_preprocessing.py:302-325 | with unique columns and names, each cell of a listed column that the table has holds the op of its old value; every other cell is unchanged |
| ColumnUpdates.Table.MapListedColumns | data_preprocessing.py:302-304 | the in-place loop leaves the rows equal to `MapListed` of the old rows |
| ColumnUpdates.Table.RoundColumns | data_preprocessing.py:289-304 | the rounding loop over the fixed round list gives `MapListed` with `Round2` |
| ColumnUpdates.Table.ConvertColumns | data_preprocessing.py:315-325 | the conversion loop over the fixed convert list gives `MapListed` with truncation |
| Pipeline.Cleaned | data_preprocessing.py:247-325 | the sequence fails exactly when one of the columns to drop is absent; otherwise the cleaned table is well formed |
| Pipeline.Clean | data_preprocessing.py:249-325 | running drop, outlier removal and the two in-place loops on a working table gives exactly `Cleaned` |
| Pipeline.SequencedUpdates | data_preprocessing.py:302-325 | two listed updates in a row compose cell by cell |
| Pipeline.UpdatesEffect | data_preprocessing.py:302-325 | after rounding and then converting, each cell is its old value rounded if its column is in the round list, then truncated if it is in the convert list |
| Pipeline.ConvertedCellsWhole | data_preprocessing.py:323-325 | every cell of a converted column ends as a whole number |
| Pipeline.CleanedShape | data_preprocessing.py:249-281 | when the table has every column to drop, cleaning succeeds; the cleaned table keeps the unlisted columns in order, and as many rows as survive outlier removal, no more than the input |
| Pipeline.CleanedCells | data_preprocessing.py:281-325 | when the table has every column to drop, cleaning succeeds and each cleaned cell is its surviving cell rounded and/or truncated according to its column's name |
| Som.Label | data_preprocessing.py:402 | a winner on the 10 × 10 grid gets a label in [0, 100) whose tens digit is its row and whose units digit is its column |
| Som.Cell | data_preprocessing.py:402 | every label in [0, 100) names a cell on the grid |
| Som.LabelCellInverse | data_preprocessing.py:402 | labels and cells are inverse to each other |
| Som.LabelInjective | data_preprocessing.py:402 | two grid cells share a label exactly when they are the same cell |
| Som.Labels | data_preprocessing.py:400-402 | one label per sample, each in [0, 100) |
| Som.SameLabelIffSameWinner | data_preprocessing.py:400-402 | two samples get the same label exactly when they have the same winning cell |

## Left out

- Reading the CSV, writing the cleaned CSV, the Streamlit front end, every plot and every `print`: these are I/O and display.
- Standard scaling, PCA, the six clustering algorithms and their silhouette and Davies-Bouldin scores: these are numerical library calls outside the cleaning rules.
- The training of the self-organising map: the winning cells are taken as inputs, so only their flattening into labels is modelled.
- Binary floating point: cells are exact reals, so no NaN, no infinity, no rounding error, and exact rather than binary round-half-even.
- Decimals.CountDecimalPlaces: takes the text of the float (`str(value)`) as an input; Python's shortest-repr float printing is not modelled.
- Dropping the unnamed index column (line 206), renaming the columns (lines 209-232) and `select_dtypes`: all are column bookkeeping. `Pipeline` starts from the renamed table.
- The dtype change made by `astype(int)`: the model keeps cells as reals and records only the truncated value.
- ColumnUpdates.Truncate: is unbounded, so it does not model int64 storage; numpy does not truncate a float outside the int64 range to its integer part. The dataset's values lie far inside that range.
- Pruning.DropColumns: pandas reports every missing label in its error, but the model reports one listed name.
- Validity.Audit: the failing rule is the first one with a missing column, as in the script, which stops there; within that rule the model names the first missing column in the rule's order of checks.
- Decimals.DecimalPlaceConsistency: requires distinct column names. pandas' CSV reader renames duplicate headers, so the table never has two columns of one name.
- ColumnUpdates.MapListedEffect: requires each listed name to appear once. The two fixed lists do (`Pipeline.UpdateListsDistinct`).
- The second zero-fraction report after the drop (lines 254-259) is the same computation as the first, on the pruned table, so `Pruning.HighZeroColumns` covers it.
