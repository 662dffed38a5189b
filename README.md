# IFSC results podium model — feature builder and chronological split

A Dafny model of the data-preparation core of a climbing-competition
podium predictor. The model covers three parts of the repository:

- **The feature builder** `Features.add_features` (src/feature_engineering.py).
  It turns a table of round-level event results into one row per distinct
  combination of the columns left after dropping `round`, `score` and
  `round_rank` (typically one per athlete and event), with engineered
  columns:
  - the athlete's age in days and years active;
  - a podium flag;
  - cohort counts over (`event_id`, `dcat`): Japanese and French athletes,
    and whether athlete 1147 competes;
  - trailing-year statistics per athlete: events, podiums, finals,
    semi-finals, mean rank;
  - the two progression ratios.

  It then drops the first calendar year, which has no full trailing year,
  and collapses the round-level rows.
- **The chronological splitter** `train_test_split` (src/data_split.py).
  It puts the newest `ceil(test_ratio × #partitions)` partitions into the
  test table and everything else into the training table.
- **The feature-name cleaning** in `_get_clean_feature_names`
  (src/explainability.py). It deletes every non-overlapping occurrence of
  `remainder__`, then of `cat__`, then of `ath__`, anywhere in each name the
  preprocessor reports, not only at its start. Each pass scans once, so it
  can leave behind an occurrence that its own deletions create
  (`Explainability.SinglePassKeepsJoinedPattern`).

All three are pure transformations. They are modelled as Dafny functions
over sequences of rows, and the properties are lemmas about those functions.

How the model is built:

- **Files.** `seqs.dfy` holds generic table operations: filter, map, keep-first
  `unique`, `n_unique` and sums. `calendar.dfy` holds the Gregorian date
  arithmetic behind polars `Date`. The feature builder is split into
  `rows.dfy`, `row_features.dfy`, `rolling.dfy`, `join.dfy` and
  `features.dfy`, following the steps of `add_features`.
- **Reference definition.** `features_spec.dfy` writes every output column
  directly from its meaning over the input table, with no sorting, rolling
  window, `unique()` or join. It then proves that `AddFeatures` computes
  exactly that (`FeaturesSpec.AddFeaturesSpec`).
- **Splitter and names.** `data_split.dfy` models the splitter generically.
  Its inputs are a partition-key function (`partition_by`), an integer order
  key (`order_by`, e.g. `Calendar.DayNumber` of `status_as_of`) and
  `test_ratio` as the exact rational `p / q`. `explainability.dfy` models the
  name cleaning.

Two behaviours of the code at its edges are kept as written:

- **Empty table.** An empty table raises at `min_year`
  (src/feature_engineering.py:68): `min().item()` is `None`, and `None.year`
  fails. The model returns `Err(EmptyTable)`.
- **Negative ratio.** Nothing checks that `0 < test_ratio < 1`
  (src/data_split.py:4-7). A negative ratio gives a negative `head` length,
  and polars `head(n)` with `n < 0` keeps all but the last `|n|` partitions
  (`DataSplit.TestPartitionCount`, `DataSplit.NegativeRatioTakesMost`).
  Monotonicity in the ratio is proved for non-negative ratios only, because
  it fails across zero.

## Model

| member | source | states |
|---|---|---|
| Rows.ConvertTypes | src/feature_engineering.py:85-92 | The conversion succeeds exactly when every row has a valid `status_as_of`, a valid `birthday` and a `first_season` in the UInt32 range; on success no value changes; otherwise the first bad column in conversion order names the error (parse error for the two dates, cast error for `first_season`). |
| Calendar.OneYearEarlier | src/feature_engineering.py:45 | The `1y` offset gives a valid date one calendar year earlier and strictly before the input: the same month and day, except that 29 February becomes 28 February. |
| Calendar.DayNumberOrder | src/feature_engineering.py:42 | On valid dates, calendar order is the order of day numbers (days since 1970-01-01, the physical value of a polars `Date`), and equal dates have equal day numbers, both ways. |
| Calendar.DaysBetweenSign | src/feature_engineering.py:12 | The difference of two valid dates is positive exactly when the first is later, and zero exactly when they are equal. |
| Calendar.EpochIsDayZero | src/feature_engineering.py:12 | Day numbers count from 1970-01-01, which is day 0; 2000-03-01 is day 11017. |
| RowFeatures.PodiumFlag | src/feature_engineering.py:16 | `is_on_podium` is 0 or 1, and it is 1 exactly when `comp_rank <= 3`. |
| RowFeatures.AgeInDaysPositive | src/feature_engineering.py:12 | The age in days is positive exactly when the birthday is before the observation date. |
| RowFeatures.CountryAthletesCountIsDistinct | src/feature_engineering.py:18-29 | The JPN/FRA count of a row is the number of distinct athlete ids of that country in the row's (`event_id`, `dcat`) cohort. It is 0 exactly when the cohort has no athlete of that country. |
| RowFeatures.JanjaFlag | src/feature_engineering.py:31-39 | `is_janja_competing` is 0 or 1, and it is 1 exactly when athlete 1147 has a row in the cohort. |
| RowFeatures.Enrich | src/feature_engineering.py:11-39 | The added columns keep every row and its order. Rows of the same cohort carry the same cohort columns. |
| Rolling.SortByDate | src/feature_engineering.py:42 | The sort returns a reordering of the table, with the same rows and multiplicities, in non-decreasing date order. |
| Rolling.WindowContents | src/feature_engineering.py:43-48 | The window of (athlete, t) holds exactly that athlete's rows dated in [t − 1y, t). A row of the same instant is never in it. A row dated exactly one year earlier always is. |
| Rolling.LookBackIsWindow | src/feature_engineering.py:41-48 | On the date-sorted table, looking back from a row over the rows before it finds the whole trailing-year window. |
| Rolling.EventsAreDistinctEvents | src/feature_engineering.py:50 | `events_last_year` is the number of distinct event ids in the window. |
| Rolling.PodiumsAreDistinctPodiumEvents | src/feature_engineering.py:51 | `podiums_last_year` is the number of distinct event ids among the window's podium rows. |
| Rolling.ToLowerSpec | src/feature_engineering.py:53 | `str.to_lowercase` keeps the length, changes no character that is not an upper-case letter, leaves no upper-case letter, and a second application changes nothing. |
| Rolling.SemiFinalSpellings | src/feature_engineering.py:52-53 | A round spelled `Semi-Final`, `semi-final` or `SEMI-FINAL` counts as a semi-final and not as a final. |
| Rolling.FinalIsCaseSensitive | src/feature_engineering.py:52-53 | The final count compares case-sensitively: `Final` is a final and no semi-final, `FINAL` is neither. |
| Rolling.AggregateCounts | src/feature_engineering.py:49-55 | Podiums never exceed events. Events are 0 exactly when the window is empty, and then finals and semi-finals are 0 and the mean rank is null. |
| Rolling.AggregatePermutation | src/feature_engineering.py:49-55 | The aggregates depend only on the multiset of rows in the window, not on their order. |
| Rolling.RollingRowValue | src/feature_engineering.py:41-55 | Every aggregate row carries the key of an input row and the aggregates of that key's trailing-year window over the input table. |
| Rolling.RollingDataLookup | src/feature_engineering.py:41-56 | After `unique()`, each (athlete, date) key of the input has exactly one aggregate row, holding its window's aggregates. A key with no input row has none. |
| Join.LeftJoinOneToOne | src/feature_engineering.py:58 | When each key has at most one row on the right, the left join keeps the row count and row order, and gives each row its own key's aggregates, or null when there are none. |
| Join.LeftJoinDuplicatesRows | src/feature_engineering.py:58 | A key that matches twice on the right doubles its left row. |
| Features.RatiosAreSafe | src/feature_engineering.py:60-63 | For aggregates of a window, both progression ratios are finite and non-negative. Each is the count divided by the events, or 0 when there are no events; never NaN and never infinite. |
| Features.MinDate | src/feature_engineering.py:68 | The minimum date of a non-empty table is attained by some row and is no later than any row's date. |
| Features.TrimWarmUpSpec | src/feature_engineering.py:67-69 | The trim removes exactly the rows of the earliest year, at least one row. It keeps every other row in order. |
| Features.DropRoundColumnsKeepsTheRest | src/feature_engineering.py:74-80 | Two rows become the same output row exactly when they differ at most in `round`, `score` and `round_rank`. |
| Features.CollapseSpec | src/feature_engineering.py:80 | The collapsed table has no duplicate rows. It holds exactly the round-free forms of its input rows, and a second `unique()` leaves it unchanged. |
| Seqs.Dedup | src/feature_engineering.py:56 | `unique()` returns a duplicate-free table with exactly the rows of its input, and never more rows. |
| FeaturesSpec.AggregateIsExpected | src/feature_engineering.py:41-55 | The rolling aggregates of (athlete, t) equal their reference definitions over the input table: distinct events, distinct podium events, finals, semi-finals and mean rank of the rows in [t − 1y, t). |
| FeaturesSpec.CohortIsExpected | src/feature_engineering.py:18-39 | The cohort columns equal the sizes of the distinct JPN and FRA athlete sets of the cohort and the presence flag of athlete 1147. |
| FeaturesSpec.JoinedTableShape | src/feature_engineering.py:41-63 | Lines 11-63 keep every row in order. Each row receives the aggregates of its own trailing-year window, because after `unique()` the join adds no rows. |
| FeaturesSpec.JoinedTableRows | src/feature_engineering.py:11-63 | Row i of the joined table, without its round columns, is the reference feature row of input row i. |
| FeaturesSpec.TrimMatchesEarlierYear | src/feature_engineering.py:67-69 | A row is dropped by the warm-up trim exactly when no input row lies in an earlier calendar year. |
| FeaturesSpec.OutputRowsAreImages | src/feature_engineering.py:67-80 | After the trim and the collapse, the table holds exactly the reference rows of the input rows that have an earlier year in the table. |
| FeaturesSpec.AddFeaturesFails | src/feature_engineering.py:6-69 | `add_features` fails exactly when the conversion fails, with its error, or when the table is empty. |
| FeaturesSpec.AddFeaturesRow | src/feature_engineering.py:6-82 | On a typed, non-empty table, a row is in the output exactly when it is the reference row of an input row that has an earlier year in the table. |
| FeaturesSpec.AddFeaturesSpec | src/feature_engineering.py:6-82 | The whole feature builder: its error cases, a duplicate-free output, and an output that is exactly the reference rows of the input rows not in the earliest year. |
| FeaturesSpec.NoRowFromFirstYear | src/feature_engineering.py:67-69 | No output row is dated in the earliest year of the input. |
| DataSplit.MaxOrder | src/data_split.py:5 | A partition's date is the largest order value among its rows, and some row of the partition has it. |
| DataSplit.GroupsAreOwnGroups | src/data_split.py:5 | The grouped table has one group per distinct partition value, carrying that partition's maximum, with no duplicates. |
| DataSplit.PartitionsAreKeys | src/data_split.py:5 | A value is a partition exactly when some input row has it. |
| DataSplit.SortDescendingSpec | src/data_split.py:5 | The descending sort reorders the groups, keeping their multiset, into newest-first order. |
| DataSplit.SortedGroups | src/data_split.py:5 | The sorted grouped table holds one group per partition, newest first, each with its partition's maximum, and no key twice. |
| DataSplit.CeilDiv | src/data_split.py:6 | The rounded-up quotient `c` of `a / q` satisfies `c·q ≥ a > (c − 1)·q`. |
| DataSplit.CeilDivIsLeast | src/data_split.py:6 | The rounded-up quotient is the least integer `c` with `c·q ≥ a`. |
| DataSplit.TakeNewestSpec | src/data_split.py:6-7 | The chosen partitions are distinct. Their number is the `head` length of the rounded-up count, and a group is chosen exactly when it is among the leading ones. |
| DataSplit.TakeNewestIsNewest | src/data_split.py:5-7 | In the sorted grouped table, every chosen group is dated no earlier than every group that is not chosen. |
| DataSplit.SplitOnIsPartition | src/data_split.py:9-11 | The two filters put every row into exactly one table, according to its partition. Together the tables hold the input's rows with their multiplicities, each in input order. A partition is never split, and an empty input gives two empty tables. |
| DataSplit.SplitOnNothing | src/data_split.py:9-11 | With no test partitions, the test table is empty and the training table is the input. |
| DataSplit.SplitIsPartition | src/data_split.py:4-14 | `train_test_split` returns a partition of the input's multiset. A row is in the test table exactly when its partition is chosen, and in the training table exactly when it is not, so no row is in both. Both tables keep input order, a partition is never split on either side, and empty input gives empty output. |
| DataSplit.TestPartitionCount | src/data_split.py:5-7 | The test partitions are distinct and are exactly the partitions of the test rows. There are `min(#partitions, c)` of them for `c = ceil(p/q · #partitions) ≥ 0`, in general the `head` length of `c`. |
| DataSplit.ZeroCountEmptyTest | src/data_split.py:6-11 | When the rounded-up count is 0, the test table is empty and the training table is the whole input. |
| DataSplit.TestIsNewest | src/data_split.py:5-11 | Every test row's partition has a maximum order value at least that of every training row's partition. |
| DataSplit.TestCountMonotone | src/data_split.py:6 | For ratios `0 ≤ p1/q1 ≤ p2/q2`, the rounded-up counts are ordered the same way and are non-negative. |
| DataSplit.MoreRatioMoreTest | src/data_split.py:5-11 | Raising a non-negative ratio never removes a test partition. The smaller ratio's test partitions are a prefix of the larger one's, and its test rows remain test rows. |
| DataSplit.NegativeRatioTakesMost | src/data_split.py:6-7 | With ten partitions, ratio −1/10 puts nine partitions in the test table and ratio 0 puts none. |
| DataSplit.DefaultRatioOnTenPartitions | src/data_split.py:4-7 | The default ratio 0.2 over ten partitions puts exactly two partitions in the test table. |
| Explainability.ContainsAt | src/explainability.py:5 | A pattern is contained in a name exactly when it occurs at some position. |
| Explainability.RemoveAll | src/explainability.py:5 | `str.replace(pat, "")` never lengthens a string. It returns the string unchanged when the pattern does not occur, and removes at least one pattern length when it does. |
| Explainability.CleanNameSpec | src/explainability.py:5 | Cleaning never lengthens a name. It leaves a name unchanged exactly when none of `remainder__`, `cat__` and `ath__` occurs in it. |
| Explainability.CleanNamesSpec | src/explainability.py:5 | The cleaned list has the input's length. Element i is the cleaned input name i, no longer than it. |
| Explainability.CleanRemainderExample | src/explainability.py:5 | `remainder__comp_rank` becomes `comp_rank`. |
| Explainability.CleanCatExample | src/explainability.py:5 | `cat__dcat_lead` becomes `dcat_lead`. |
| Explainability.SinglePassKeepsJoinedPattern | src/explainability.py:5 | Each pass scans once, so `catcat____` becomes `cat__`: deleting one occurrence can create another, and that one stays. |

## Left out

- **Text parsing.** Parsing `status_as_of` from `%Y-%m-%d %H:%M:%S %Z` text, including the time zone, and `birthday` from `%Y-%m-%d` text is not modelled. Dates arrive as calendar fields. A parse error is modelled as a field triple that is not a calendar date, and the `UInt32` cast as a range check on an integer.
- **`set_sorted()`.** Line 87 flags `status_as_of` as sorted without sorting it. The model does not carry the flag; it assumes the sort at line 42 always takes effect. Polars may treat a column flagged as sorted as already in order, and may then skip that sort. If so, on input not already in `status_as_of` order the rolling step could compute wrong windows or raise. The model therefore matches the source for input that is already in date order. For other input it describes what the code evidently intends. This reading of polars has not been confirmed against the library.
- **Row order of `unique()` and of `group_by`.** Polars does not specify this order. The model keeps the first occurrences in input order. The properties proved do not depend on this choice, except where a lemma states an order.
- **Ties in the split's sort.** When several partitions share the same maximum order value at the cut, polars may pick any of them. The model breaks ties by a fixed stable order. `DataSplit.TestIsNewest` holds for any tie order.
- **Floating point.** Floating-point rounding is not modelled:
  - the ratios and the mean rank are exact reals;
  - `test_ratio × n` is an exact rational. In binary floating point `0.07 × 100` is `7.000000000000001`, which `np.ceil` takes to 8; the model computes exactly 7.
- **Integer widths.** The `UInt8`, `UInt32` and `Int64` column types are not modelled; all values are unbounded integers. No value in these columns can overflow its type.
- **Nulls.** Null values in the input columns are not modelled. Every input cell holds a value.
- **Non-ASCII case.** `str.to_lowercase` is modelled for ASCII letters only.
- **Columns.** Columns appear as the fields of `Rows.Row`, and all further columns are collapsed into `other`.
  - Column-name errors, such as a missing column in `drop`, are not modelled.
  - `added_cols` (src/feature_engineering.py:65) is computed but never used, and is not modelled.
- **Years active.** `RowFeatures.YearsActive` takes `athlete_years_active` (src/feature_engineering.py:13) as its definition, the observation year minus `first_season`. No property beyond that integer difference is stated; it reaches the output through `FeaturesSpec.JoinedTableRows`.
- **Age column type.** The age column is modelled as a whole number of days from the start. This folds the duration value of line 12 and its conversion at line 71 into one step.
- **Other code.** src/modelling.py, src/plotting.py, `compute_shap` (src/explainability.py:8-17) and the `get_feature_names_out` call (src/explainability.py:4) are not part of this model. The cleaning takes the list of names as its input.
