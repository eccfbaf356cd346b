# House price predictor: prediction encoder and training-data cleaner

This project models, in Dafny, the two deterministic pieces of the house-price
predictor that sit around its learned models.

- **Predictor** (`src/api/inference.py`, module `Inference`). `predict_price`
  refuses with "Model not loaded" when the model file could not be loaded.
  Otherwise it encodes the request into the 10 features the trained model
  expects, in this order: sqft, bedrooms, bathrooms, house_age,
  bed_bath_ratio, three location indicators and two condition indicators.
  It then rounds the model's output to cents and returns it with a ±10% band
  and a constant feature-importance map. The loaded model is a parameter
  `Option<seq<real> -> real>`: `None` means "failed to load".
- **Data cleaner** (`src/data/run_processing_test.py`, module `Processing`,
  with the column statistics in module `Stats`). `clean_data` copies the
  table and walks its columns. Each column with missing cells gets them
  filled: numeric columns with the median of their present values, other
  columns with the first of their sorted modes. It then calls
  `remove_outliers_isolation_forest` on `['price']` with contamination 0.05,
  which keeps exactly the rows the Isolation Forest labels 1. The Isolation
  Forest is a parameter `(Table, real) -> Option<seq<Label>>`: `None` means
  it rejected its input, and `Label` is 1 or -1.

A table is a row count plus a sequence of columns. Each column has a name, a
kind (numeric or categorical) and one `Option<Value>` cell per row, where
`None` is a missing value. `clean_data` is the method `CleanData`; its loop
over the columns is the method `FillColumns`, whose per-column body is
`FillColumn`: the same branches as the function `ImputeColumnIn`, written as
statements. All three are proved equal to the functional specification
(`ImputeColumnIn`, `ImputeColumns`, `CleanSpec`).
The lemmas state the properties of that specification. Tables are values, so
the copy `clean_data` makes leaves the caller's table unchanged by
construction.

Python floats are modelled as exact reals. `round(x, 2)` is modelled as exact
decimal rounding of a real to the nearest cent, with ties going to the even
cent (`Round2`).

The model follows the code as written:
- Bathrooms below 1, 0 included, are divided as if they were 1. So zero
  bathrooms give a ratio equal to the bedroom count, not 0 (`ZeroBathrooms`).
- `house_age` is measured from the literal year 2025, not the current year.
- A numeric column with every cell missing is left unfilled. Its median is
  NaN, and `fillna(NaN)` changes nothing. No error is raised.
- A categorical column with every cell missing fails, because `mode()[0]`
  indexes an empty result (`NoModeForEmptyColumn`).
- A column label that two columns share makes `df_cleaned[column]` a
  DataFrame, so `missing_count` is a Series and `if missing_count > 0`
  raises ValueError (`AmbiguousColumn`). The loop raises at the first such
  column, after imputing the columns before it, whether or not any cell is
  missing (`RepeatedLabelRaises`).
- The response carries no prediction time.

## Model

| member | source | states |
|---|---|---|
| `Inference.PredictPrice` | src/api/inference.py:17-55 | Fails with `ModelNotLoaded` exactly when no model is loaded. On success the price is `Round2` of the model's output on the encoded request: a whole number of cents within half a cent of it. Low and high are `Round2(0.9·p)` and `Round2(1.1·p)`: whole cents within half a cent of 0.9·p and 1.1·p. For p ≥ 0 the band contains p. The importance map is the same constant for every request. |
| `Inference.ResponseDependsOnlyOnPrediction` | src/api/inference.py:21-55 | Two calls whose models give the same value on their encoded requests return identical responses. The only state read besides the request is the model. |
| `Inference.EncodeFeatures` | src/api/inference.py:35-46 | The feature vector always has exactly 10 entries. |
| `Inference.HouseAge` | src/api/inference.py:22 | The age added to year_built gives 2025. It is non-negative exactly when the house was built in 2025 or earlier. |
| `Inference.FeatureNamesMatchEncoding` | src/api/inference.py:34-46 | There is one feature name per encoded entry. |
| `Inference.NumericFeatures` | src/api/inference.py:22-23 | Entries 0-4 are the features named sqft, bedrooms, bathrooms, house_age and bed_bath_ratio. Entries 0-2 pass sqft, bedrooms and bathrooms through. Entry 3 is 2025 − year_built. Entry 4 equals bedrooms when bathrooms < 1, and otherwise is the value that multiplied by bathrooms gives bedrooms. |
| `Inference.Max` | src/api/inference.py:23 | Python's `max`: the result is one of the two arguments and at least both of them. |
| `Inference.BedBathRatio` | src/api/inference.py:23 | Below one bathroom the ratio is the bedroom count. From one bathroom up it is bedrooms / bathrooms, so there is never a division by zero. |
| `Inference.ZeroBathrooms` | src/api/inference.py:23 | Zero bathrooms give bed_bath_ratio == bedrooms. |
| `Inference.LowerChar` | src/api/inference.py:26-32 | Lower-cases one ASCII letter (code point + 32). Every other character is unchanged. |
| `Inference.Lower` | src/api/inference.py:26-32 | `.lower()` keeps the length and lower-cases each character. |
| `Inference.LowerOfLowercase` | src/api/inference.py:26-32 | A string with no upper-case letter is its own lower-case form. |
| `Inference.LowerIdempotent` | src/api/inference.py:26-32 | Lower-casing twice equals lower-casing once. |
| `Inference.Indicator` | src/api/inference.py:26-32 | A `1 if … else 0` indicator is 0 or 1, and is 1 exactly when its comparison holds. |
| `Inference.LocationOneHot` | src/api/inference.py:26-28 | Entries 5-7 are location_urban, location_suburban and location_rural. Each location indicator is 0 or 1 and at most one is 1. Each is 1 exactly when the lower-cased location is "urban", "suburban" or "rural" respectively. All are 0 exactly for any other location. |
| `Inference.ConditionOneHot` | src/api/inference.py:31-32 | Entries 8-9 are condition_good and condition_excellent. Each condition indicator is 0 or 1 and at most one is 1, matching "good" / "excellent" case-insensitively. Both are 0 exactly for any other condition. |
| `Inference.EncodingIsCaseInsensitive` | src/api/inference.py:21-46 | Requests with the same numeric fields whose categories agree up to case get the same feature vector. |
| `Inference.EncodingOfNormalisedRequest` | src/api/inference.py:26-32 | Lower-casing the location and condition before encoding changes nothing. |
| `Inference.MixedCaseCategories` | src/api/inference.py:26-32 | "SubUrban" / "EXCELLENT" set exactly location_suburban and condition_excellent. |
| `Inference.LowerSubUrban` | src/api/inference.py:26 | "SubUrban" lower-cases to "suburban". |
| `Inference.LowerExcellent` | src/api/inference.py:31 | "EXCELLENT" lower-cases to "excellent". |
| `Inference.UnknownCategories` | src/api/inference.py:25-32 | "Waterfront" / "Fair" set no indicator at all. |
| `Inference.WorkedExample` | src/api/inference.py:21-46 | 2000 sqft, 3 bedrooms, 2 bathrooms, "Urban", built 2000, "Good" encodes to [2000, 3, 2, 25, 1.5, 1, 0, 0, 1, 0]. |
| `Inference.RoundHalfEven` | src/api/inference.py:49 | Returns the integer nearest to its argument; on an exact tie, the even one. |
| `Inference.Round2` | src/api/inference.py:49 | `round(x, 2)` gives a whole number of cents within half a cent of x. That number of cents is `RoundHalfEven(100·x)`, so a tie goes to the even cent. |
| `Inference.Round2OfCents` | src/api/inference.py:49 | Rounding an amount that is already whole cents changes nothing. |
| `Inference.BandContainsPrice` | src/api/inference.py:53 | For a rounded price p ≥ 0: round(0.9·p, 2) ≤ p ≤ round(1.1·p, 2). |
| `Inference.NegativeBandIsReversed` | src/api/inference.py:53 | For a rounded price p < 0 the band comes out reversed: round(1.1·p, 2) ≤ p ≤ round(0.9·p, 2). |
| `Inference.BandOrder` | src/api/inference.py:53 | Both cases of the band's order around a rounded price. |
| `Stats.Insert` | src/data/run_processing_test.py:56 | Inserting into a sorted sequence gives a sorted sequence with one more copy of the value, which starts with the smaller of the value and the old first element. |
| `Stats.SortAsc` | src/data/run_processing_test.py:56 | The result is sorted and is a permutation of the input. |
| `Stats.SortedUnique` | src/data/run_processing_test.py:56 | Two sorted permutations of the same values are equal. |
| `Stats.Median` | src/data/run_processing_test.py:55-57 | The median lies between some value and some value of the input. For an odd count it is one of the values. |
| `Stats.MedianFromSorted` | src/data/run_processing_test.py:56 | For any sorted arrangement s of the values, the median is s's middle element (odd count) or the mean of its two middle elements (even count). |
| `Stats.MedianOfPermutation` | src/data/run_processing_test.py:56 | The median depends only on the multiset of values, not on row order. |
| `Stats.MedianOddExample` | src/data/run_processing_test.py:56 | median of [3, 1, 2] is 2. |
| `Stats.MedianEvenExample` | src/data/run_processing_test.py:56 | median of [4, 1, 3, 2] is 2.5, the mean of the two middle values. |
| `Stats.StrLe` | src/data/run_processing_test.py:61 | Python's string order, by code point: a prefix comes before any string it starts. |
| `Stats.StrLeTotal` | src/data/run_processing_test.py:61 | String order (by code point, as Python sorts the modes) is total. |
| `Stats.StrLeAntisymmetric` | src/data/run_processing_test.py:61 | String order is antisymmetric. |
| `Stats.StrLeTransitive` | src/data/run_processing_test.py:61 | String order is transitive. |
| `Stats.ModeAmong` | src/data/run_processing_test.py:61 | Picks a candidate with the highest count. Among candidates with that count it picks the least string. |
| `Stats.Mode` | src/data/run_processing_test.py:61 | `mode()[0]` is a value of the column. No value occurs more often. Among equally frequent values it is the least in string order. |
| `Stats.ModeUnique` | src/data/run_processing_test.py:61 | Those three properties determine the mode uniquely. |
| `Stats.ModeExample` | src/data/run_processing_test.py:61 | For good, fair, good, fair, excellent, the tie between "fair" and "good" goes to "fair". |
| `Processing.MissingCount` | src/data/run_processing_test.py:50 | `isnull().sum()` is 0 exactly when every cell is present. It equals the column length exactly when every cell is missing. |
| `Processing.NumbersOf` | src/data/run_processing_test.py:56 | The median's inputs are present numeric cells only. The result is empty exactly when the column has none. |
| `Processing.StringsOf` | src/data/run_processing_test.py:61 | The mode's inputs are present string cells only. The result is empty exactly when the column has none. |
| `Processing.NumbersOfComplete` | src/data/run_processing_test.py:56 | The median's inputs hold each number exactly as many times as the column has a present cell with that number. |
| `Processing.StringsOfComplete` | src/data/run_processing_test.py:61 | The mode's inputs hold each string exactly as many times as the column has a present cell with that string. |
| `Processing.ModeOfCells` | src/data/run_processing_test.py:61 | Read on the column's own cells, the fill value `mode()[0]` is a string some cell holds. No string is held by more cells, and among the strings held by equally many cells it is the least in string order. |
| `Processing.FillMissing` | src/data/run_processing_test.py:57 | `fillna(v)` keeps the length and every present cell, and turns every missing cell into v. |
| `Processing.ImputeColumn` | src/data/run_processing_test.py:50-62 | Imputing one column keeps its name, kind and length. It fails only for a categorical column, with `NoModeForEmptyColumn` naming that column. |
| `Processing.ImputeColumnFails` | src/data/run_processing_test.py:59-62 | Imputing one column fails, with `NoModeForEmptyColumn`, exactly for a non-empty categorical column whose every cell is missing. |
| `Processing.ImputeColumnKeeps` | src/data/run_processing_test.py:49-62 | Imputation keeps the name, kind, length and cell typing, and every present cell. A column with no missing cell is untouched. So is an entirely missing one (numeric case). |
| `Processing.ImputeNumericFills` | src/data/run_processing_test.py:54-57 | A numeric column with a present number has at least one number to take the median of. Afterwards it has no missing cell, and each cell that was missing holds that median. |
| `Processing.ImputeCategoricalFills` | src/data/run_processing_test.py:59-62 | A categorical column with a present string has at least one string to take the mode of. Afterwards it has no missing cell, and each cell that was missing holds the first mode. |
| `Processing.ImputeColumnFills` | src/data/run_processing_test.py:54-62 | A column with at least one present value has no missing cell afterwards. Each missing cell of a numeric column becomes the median of the present numbers. Each missing cell of a categorical column becomes the first mode of the present strings. |
| `Processing.Names` | src/data/run_processing_test.py:49 | `df_cleaned.columns` lists one label per column, in column order. |
| `Processing.Repeated` | src/data/run_processing_test.py:50 | The label occurs more than once in `df.columns`, so it is one of the labels. `RepeatedIff` characterises it. |
| `Processing.RepeatedIff` | src/data/run_processing_test.py:49-51 | A column's label counts as repeated among `df.columns` exactly when another column carries the same label. |
| `Processing.DistinctNamesIff` | src/data/run_processing_test.py:49-51 | No label is repeated exactly when the column labels are pairwise distinct. |
| `Processing.ImputeColumnIn` | src/data/run_processing_test.py:50-62 | One loop pass in a frame labelled `names`. It succeeds only for an unrepeated label, keeping the column's name, kind and length. Its error is `AmbiguousColumn` for a repeated label, and otherwise `NoModeForEmptyColumn` for a categorical column. `ImputeColumnsPointwise` characterises it. |
| `Processing.ImputeColumns` | src/data/run_processing_test.py:49-63 | The column loop returns one column per input column, each with that column's name and kind, and succeeds only on distinct labels. On failure the error is either a missing mode or an ambiguous label, naming one of the input columns. |
| `Wrappers.MapUntilFailure` | src/data/run_processing_test.py:49-63 | A loop that stops at the first raising element returns, when it completes, one result per element. |
| `Processing.ImputeColumnsPointwise` | src/data/run_processing_test.py:49-63 | The loop succeeds exactly when no column's label is repeated and every column imputes on its own. The labels are then distinct, and each output column is its own input column imputed independently. On failure, the error comes from the first column that has a repeated label (`AmbiguousColumn`) or fails to impute, and every column before it succeeded. |
| `Processing.ImputeColumnsSucceed` | src/data/run_processing_test.py:49-63 | The success half of `ImputeColumnsPointwise`. |
| `Processing.ImputeColumnsRaise` | src/data/run_processing_test.py:49-63 | The failure half of `ImputeColumnsPointwise`: the first column with a repeated label or a failing imputation raises, and all earlier ones succeeded. |
| `Wrappers.MapUntilFailurePointwise` | src/data/run_processing_test.py:49-63 | A loop that stops at the first raising element succeeds exactly when every element does, and then returns each element's result in order. Otherwise it raises the error of the first failing element, all earlier ones having succeeded. |
| `Wrappers.MapUntilFailureStep` | src/data/run_processing_test.py:49-63 | One more iteration extends the loop's results by the next element's result, or raises that element's error. |
| `Wrappers.MapUntilFailurePrefix` | src/data/run_processing_test.py:49-63 | Once the column loop raises on a prefix of the columns, the whole loop raises that same error. |
| `Processing.ImputeTable` | src/data/run_processing_test.py:46-63 | Imputation keeps the row count and the number of columns, and keeps the table well formed. |
| `Processing.ImputeTableSpec` | src/data/run_processing_test.py:46-63 | The table fails exactly when two columns share a label, or when a categorical column of a non-empty table is entirely missing. Otherwise it keeps the row count, the column names and kinds, every present cell and every complete column. It leaves no missing cell in any column that had a value. |
| `Processing.ImputedNamesDistinct` | src/data/run_processing_test.py:49-63 | A table that gets through imputation has pairwise distinct column labels, before and after. |
| `Processing.RepeatedLabelRaises` | src/data/run_processing_test.py:49-51 | A one-row table with a complete column "a" and a second, missing column "a" raises `AmbiguousColumn("a")`. |
| `Processing.ImputedCell` | src/data/run_processing_test.py:46-63 | After imputation a present cell is unchanged, and every cell of a column that had a value is present. |
| `Processing.CountLabel` | src/data/run_processing_test.py:32 | The number of rows with a given label is at most the number of rows. |
| `Processing.CountLabelMultiplicity` | src/data/run_processing_test.py:32 | That number is the multiplicity of the label among the labels. |
| `Processing.CountsPartition` | src/data/run_processing_test.py:29-36 | With labels in {1, -1}, inliers plus outliers make up every row. |
| `Processing.Positions` | src/data/run_processing_test.py:36 | The selected row numbers are strictly increasing and all carry the label. Every row with that label is among them. There are as many as there are such labels. |
| `Processing.Pick` | src/data/run_processing_test.py:36 | Masking one column picks exactly the cells at those row numbers, in order. |
| `Processing.RowsLabelled` | src/data/run_processing_test.py:32-36 | `df[labels == l]` has one row per label l and keeps every column's name and kind. The table stays well formed. |
| `Processing.KeepsExactlyInliers` | src/data/run_processing_test.py:29-36 | The filtered table has n minus the number of -1 labels rows. Its k-th row is the input row at the k-th inlier position, whole and unmodified. Positions are increasing. A row is kept exactly when its label is 1. |
| `Processing.KeptCell` | src/data/run_processing_test.py:36 | Cell k of a filtered column is the input cell at the k-th inlier position. |
| `Processing.OutliersCount` | src/data/run_processing_test.py:32 | The logged outlier count is the number of -1 labels. Added to the kept rows, it gives the row count. |
| `Processing.FindColumn` | src/data/run_processing_test.py:25 | Returns a column of the table with the given name, or none exactly when no column has that name. |
| `Processing.FindColumnFirst` | src/data/run_processing_test.py:25 | The column found is the first one with that name: no earlier column carries it. |
| `Processing.FindColumnOnly` | src/data/run_processing_test.py:25 | With distinct labels, the column found is the only column with that name, which is what pandas selects. |
| `Processing.SelectColumns` | src/data/run_processing_test.py:25 | A successful `df[columns]` returns columns of the table with the names asked for, in that order, with the same rows, and keeps the table well formed. |
| `Processing.SelectColumnsFails` | src/data/run_processing_test.py:25 | `df[columns]` succeeds exactly when every name exists. Otherwise it raises `MissingColumn` naming a column the table lacks. |
| `Processing.SelectOne` | src/data/run_processing_test.py:25 | Selecting one existing name gives a one-column table with the same rows, holding the first column of that name. |
| `Processing.RemoveOutliersIsolationForest` | src/data/run_processing_test.py:20-39 | Succeeds exactly when the columns exist, the detector accepts them and it returns one label per row. The result then has n minus the outlier-count rows and is the rows labelled 1. |
| `Processing.FillColumn` | src/data/run_processing_test.py:50-63 | The loop body for one column computes exactly `ImputeColumnIn`: the ambiguous-label error for a repeated label, and otherwise `ImputeColumn`. |
| `Processing.FillColumns` | src/data/run_processing_test.py:46-63 | The in-place loop over the copied columns returns exactly `ImputeColumns`: every column filled, or the error of the first column that cannot be, a repeated label included. |
| `Processing.CleanSpec` | src/data/run_processing_test.py:41-68 | A successful clean passed imputation, is well formed, has no more rows than the input and keeps the number of columns. A missing-column failure can only be about 'price'. |
| `Processing.CleanLabels` | src/data/run_processing_test.py:29 | A successful clean got one label per input row from the detector, and its result is the imputed rows with label 1. |
| `Processing.CleanData` | src/data/run_processing_test.py:41-68 | The copy-and-loop implementation returns exactly the specification: imputation, then outlier removal on the imputed table. |
| `Processing.CleanedColumns` | src/data/run_processing_test.py:41-68 | A successful clean is well formed, has no more rows than the input, keeps every column's name and kind, and leaves no missing cell in a column that had a value. |
| `Processing.CleanedRows` | src/data/run_processing_test.py:29-36 | The rows of a successful clean are the input rows at the increasing inlier positions, with every present input cell unchanged. |
| `Processing.ImputedThenFiltered` | src/data/run_processing_test.py:46-66 | Once every column is imputed, the clean's result is the outlier filter on the imputed table, which is well formed. |
| `Processing.CleanedTable` | src/data/run_processing_test.py:41-68 | A successful clean is well formed and has no more rows than the input. It keeps every column's name and kind, and leaves no missing cell in a column that had a value. Its rows are input rows in increasing order, with every present input cell unchanged. |
| `Processing.CleanNeedsPrice` | src/data/run_processing_test.py:66 | Without a 'price' column, a clean that passes imputation fails with `MissingColumn("price")`. |
| `Processing.DetectorSeesImputedPrice` | src/data/run_processing_test.py:66 | The detector runs on the imputed table's 'price' column alone, at contamination 0.05. That column has no missing value if 'price' had any value. The result is the imputed rows the detector labels 1. |
| `Processing.FirstColumnFound` | src/data/run_processing_test.py:25 | Column lookup picks the same position in two tables whose columns have the same names. |

## Left out

- Model loading: `joblib.load` and its try/except, and the module-level prints. Only their outcome is modelled, as the `Option` model.
- The trained regressor's internals: `model.predict` is an opaque function on one feature row. Passing it a one-row 2-D array and taking element `[0]` is folded into that function.
- Floating point: prices and features are exact reals. `Round2` rounds the exact real, not the binary double, and products such as `p * 0.9` are exact. `np.array`'s conversion of integers to float64, which rounds integers above 2^53, is not modelled.
- `Inference.Lower`: folds ASCII `A`-`Z` only. Python's `.lower()` also folds other scripts, and a few non-ASCII characters lower-case to ASCII letters (the Kelvin sign to `k`). None of those can produce "urban", "suburban", "rural", "good" or "excellent".
- Request and response classes: `HousePredictionRequest` / `PredictionResponse` validation lives in the `schemas` module, which is not part of this model. Plain datatypes stand in for them.
- Other prediction code: `batch_predict` and the 16-feature preprocessor encoding live only in `src/api/inference copy.py`, which is not part of this model.
- Isolation Forest: its fit, its randomness (`random_state=42`) and how contamination sets the decision threshold are not modelled. The detector is a parameter. It either returns labels or rejects its input (NaN, non-numeric or empty input), and all such rejections become one error, `DetectorRejected`.
- Default contamination: `remove_outliers_isolation_forest` defaults `contamination` to 0.1. `RemoveOutliersIsolationForest` always takes it as an argument, and `clean_data`'s only call passes 0.05 (`CleaningContamination`).
- Row labels: `df[mask]` keeps the original pandas index labels of the kept rows. A `Table` has no index, so the result's rows are renumbered from 0. `CleanedRows` says which input row each kept row came from.
- `Processing.SelectColumns`: reports the first missing name. pandas' KeyError lists all of them.
- `Processing.FindColumn`: takes the first column with a given name, where pandas would select every column with that name. `clean_data` only looks up names in a table that got through imputation, whose labels are distinct (`ImputedNamesDistinct`), and there the two agree (`FindColumnOnly`).
- Column kinds: pandas' dtype inference is replaced by a given kind per column. Boolean, datetime and mixed-type object columns are not modelled. Categorical values are strings, ordered by code point for the mode's tie-break.
- I/O and logging: `load_data`, `process_data` (CSV read and write, `mkdir`), the `__main__` block and every logging call are left out. The logged outlier count is modelled as `OutliersCount`.
