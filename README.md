# Community load forecasting: features, dataset split, preparation and evaluation

This Dafny project models the deterministic core of an energy-community
forecasting pipeline:

- the leakage-free feature engine of `src/features.py`:
  - the trailing least-squares slope (`rolling_slope`);
  - the feature-table builder (`make_features_no_leakage`), which adds lag,
    rolling, diff, calendar and temperature columns;
  - the train/test splitter (`build_dataset_leakage_free`);
- the data preparation of `src/prep.py`:
  - decoding a metering-point number into its federal state;
  - hourly bucket sums;
  - generation split by energy source;
- the postal-code weights of `src/weather/plz_weights.py`;
- the weather-file coverage report of `src/weather/era5_coverage.py`;
- the cost table and the per-model error metrics of
  `src/evaluation/community_costs.py`;
- the day-ahead price request string and its date guard in
  `read_spot_price.py`;
- the day-floor helper of `src/utils/time.py`.

Representation:

- A floating-point value is a `real`; NaN is `None` of `Option`.
- A raised exception is `Err` of `Result`.
- In the feature and dataset modules, timestamps are `int` hour counts
  since 1970-01-01 00:00 UTC. Elsewhere they are `int` seconds.
- A pandas series is a `seq` of observations.
- The feature table is a `map` keyed by the `FeatureKey` datatype rather
  than by column-name strings.
- `rolling_slope`, `make_features_no_leakage`,
  `prepare_generation_by_source_1h` and the group loop of
  `compute_forecast_metrics` fill a buffer, a dict or a list in a loop in
  the source. They are modelled as methods with loops, each proved equal
  to a specification function.
- The remaining operations are pipelines of expressions in the source and
  are modelled as functions.

Modules, one file each:

- `Values`: Option/Result, sums and means of reals.
- `Calendar`: the proleptic Gregorian calendar of Python's `date`.
- `Slope`, `Features`, `Dataset`: `src/features.py`.
- `Prep`: `src/prep.py`.
- `StringOrder`: Python's string order and `sorted`.
- `PlzWeights`: `src/weather/plz_weights.py`.
- `Era5Coverage`: `src/weather/era5_coverage.py`.
- `CommunityCosts`: `src/evaluation/community_costs.py`.
- `SpotRequest`: `read_spot_price.py`.
- `TimeUtils`: `src/utils/time.py`.

Facts about the code that the model follows:

- The code does not check `train_start <= test_start <= test_end`.
  `Dataset.BuildDataset` requires a series in time order and
  `trainStart <= testStart`, and accepts any `testEnd`.
- A zero lag, diff or rolling window makes the feature builder raise. The
  feature members require positive ones (`Features.Positive`).
- A model whose complete rows all have actual consumption 0 has capacity 0,
  and the nMAE division then raises ZeroDivisionError for the whole call.
- Lags and diffs are positional (`values[i-L]`), not "L hours earlier".
  They agree only on a gap-free hourly index (`Features.LagIsHoursEarlier`,
  `Features.LagAcrossGap`).
- Training targets are read from the forward-filled series, not from the
  raw one (`Dataset.TrainTargetsFilled`).
- Which training rows exist up to hour t can depend on whether the series
  has a later observation: `asfreq` extends the hourly grid to the last
  observation, and the forward fill then fills the gap before it. So
  `Dataset.NoLeakage` compares series that both reach t.
- The test features are built on the filled history followed by the test
  span with its NaN rows dropped (`Dataset.TestInput`).

## Model

| member | source | states |
|---|---|---|
| Slope.RollingSlope | src/features.py:11-30 | output has the input's length; all NaN when the window exceeds the series; NaN before position w-1; from there on, the least-squares slope of the window when all its values are present and NaN otherwise; equal to the specification `SlopeAt` at every position |
| Slope.SlopeDefinedIff | src/features.py:15-28 | a slope is present exactly when w >= 2, a full window ends at i, and no value in it is NaN (the strict policy) |
| Slope.AbscissaVariationPositive | src/features.py:18-20 | the shared denominator sum((x - mean x)^2) is non-zero exactly when w >= 2, and then positive |
| Slope.AbscissaMean | src/features.py:18-19 | the mean of 0..w-1 is (w-1)/2 |
| Slope.SlopeOfFullLengthWindow | src/features.py:15-28 | for a fully present series as long as the window, the only slope is at the final position |
| Slope.LinearWindowSlope | src/features.py:25-28 | a window of values m*k + c has slope m |
| Slope.LinearSeriesSlope | src/features.py:22-28 | on a series y[j] = m*j + c, every full-window position has slope m |
| Slope.ConstantWindowSlope | src/features.py:25-28 | a window of one repeated value has slope 0 |
| Slope.SlopePrefix | src/features.py:24-28 | the slope at i depends only on positions 0..i |
| Features.LagColumn | src/features.py:52-56 | for a lag L >= 1 (required on a non-empty series, where L = 0 raises), the lag column has n entries; entry i is values[i-L] for i >= L and NaN otherwise |
| Features.DiffColumn | src/features.py:70-74 | for d >= 1 (required on a non-empty series), the diff column has n entries; entry i is values[i] - values[i-d] for i >= d (NaN if either is NaN) and NaN otherwise |
| Features.AddLags | src/features.py:52-56 | after the loop the table holds the earlier columns plus one lag column per configured lag, each as specified |
| Features.AddWindow | src/features.py:59-67 | for a window w >= 1 (w = 0 raises), adds the rolling mean, std, min, max and slope columns of one window, each as specified |
| Features.AddWindows | src/features.py:59-67 | after the loop the table holds the rolling columns of every configured window |
| Features.AddDiffs | src/features.py:70-74 | after the loop the table holds one diff column per configured diff |
| Features.AddCalendar | src/features.py:77-80 | adds the hour, weekday, month and weekend columns |
| Features.AddTemperature | src/features.py:83-88 | adds the reindexed temperature, its 24 h and 168 h lags and its 24 h diff |
| Features.MakeFeatures | src/features.py:37-90 | for positive windows, and positive lags and diffs on a non-empty series, the table built in place equals the specification table: exactly the configured columns, each of the index's length |
| Features.Features | src/features.py:37-90 | the table holds exactly the configured columns (one per lag, five per window, one per diff, the four calendar columns, and the four temperature columns when a temperature series is given), each as long as the series and each equal to its column's specification |
| Features.DateOfHour | src/features.py:77-79 | the calendar date of an hour count is a valid date whose day number is the hour count divided by 24 plus the day number of 1970-01-01 |
| Features.NoLookAhead | src/features.py:44-90 | row i of every column depends only on rows 0..i of the index and of the values |
| Features.FeaturesNoLookAhead | src/features.py:44-90 | two inputs that agree up to row i give tables with the same columns and the same row i |
| Features.LagIsHoursEarlier | src/features.py:52-56 | on a gap-free hourly index, the lag-L entry is the value observed exactly L hours earlier |
| Features.LagAcrossGap | src/features.py:55 | across a gap in the index, the lag-1 entry is the previous row's value, not the value one hour earlier |
| Features.DiffIsValueMinusLag | src/features.py:70-74 | a diff is present exactly when the value and its lag are present, and then equals value minus lag |
| Features.RollingStatistics | src/features.py:59-65 | the relaxed mean, min and max are present exactly when some value of the trailing window is present; then min <= mean <= max, and min and max are values of the window; the std is present exactly when at least two values of the window are present (ddof = 1), needs the mean, and is never negative |
| Features.ConstantWindow | src/features.py:59-65 | over a window whose present values all equal c, the mean, min and max are c and the variance is 0 |
| Features.RelaxedMeanStrictSlope | src/features.py:60-67 | a full window with one NaN and one present value has a rolling mean but no slope: the two policies differ |
| Features.CalendarColumns | src/features.py:77-80 | hour in 0..23, weekday in 0..6, month in 1..12, and the weekend flag is 1 exactly for weekdays 5 and 6 |
| Features.NextDayDate | src/features.py:77-79 | 24 hours later is the next calendar day |
| Features.NextDayWeekday | src/features.py:78 | 24 hours later is the next weekday, modulo 7 |
| Features.TemperatureAligned | src/features.py:83-88 | the temperature column is the exogenous value at the row's own timestamp, NaN when that timestamp is missing; its 24 h lag is the temperature 24 rows earlier |
| Dataset.AsFreqGrid | src/features.py:106 | asfreq spans first to last observation hour by hour, is increasing, keeps every observation, and adds only NaN rows |
| Dataset.FilterMember | src/features.py:110-112 | a boolean mask keeps exactly the accepted observations |
| Dataset.FFillSpec | src/features.py:115 | the forward fill keeps present values; a NaN is filled exactly when a present value lies at most `limit` rows before it, and then takes the nearest such value |
| Dataset.FFillPrefix | src/features.py:115 | the forward fill never looks ahead |
| Dataset.HistoryWindow | src/features.py:104-110 | on a series that covers them, the history buffer holds exactly the 336 hours before train_start |
| Dataset.HistTrainIncreasing | src/features.py:114-115 | history followed by the training span is in time order, and so is its filled copy; all of it lies before test_start |
| Dataset.TrainSpanTimes | src/features.py:110-117 | after the history buffer, the filled series holds the training span's hours |
| Dataset.TrainRows | src/features.py:117-128 | every training row lies in [train_start, test_start) |
| Dataset.BuildDataset | src/features.py:97-140 | for a series in time order and train_start <= test_start, training rows lie in [train_start, test_start) and test rows in [test_start, test_end] |
| Dataset.SelectKeeps | src/features.py:126-128 | every position whose target and features are all present gives a row, with the table's row at that position |
| Dataset.SelectOnlyPicked | src/features.py:126-128 | every row comes from one position whose target and features are all present |
| Dataset.RowsExact | src/features.py:120-128 | the rows from an offset on are exactly the positions at or after it whose target and features are all present |
| Dataset.TrainRowsExact | src/features.py:114-128 | the training rows are exactly the positions after the history buffer of the filled series whose target and features are all present, each with the feature row of its position |
| Dataset.TestRowsExact | src/features.py:130-138 | the test rows are exactly the positions after the filled history and training span of the test input whose target and features are all present, each with the feature row of its position |
| Dataset.TestRows | src/features.py:118-138 | every test row lies in [test_start, test_end] and its target is a present observation of the test span |
| Dataset.SplitSpans | src/features.py:110-138 | train rows lie in [train_start, test_start), test rows in [test_start, test_end], every train row precedes every test row, and every row holds every feature column |
| Dataset.TestTargetsObserved | src/features.py:118 | every test target is a raw observation of the input, never filled and never NaN |
| Dataset.TrainTargetsFilled | src/features.py:114-117 | every training target is a present value of the input observed at or before its row, and no earlier than the start of the history buffer |
| Dataset.RowOf | src/features.py:126-127 | a row is kept exactly when every feature column is present there, and then carries those values |
| Dataset.TrainNoLeakage | src/features.py:108-128 | the training rows up to hour t depend only on the observations up to t |
| Dataset.TestNoLeakage | src/features.py:130-138 | the test rows up to hour t depend only on the observations up to t |
| Dataset.NoLeakage | src/features.py:97-140 | two raw series with the same observations up to hour t, both of which have an observation at or after t, give the same training and test rows up to t, whatever follows t |
| Prep.OperatorCode | src/prep.py:26 | the operator code is six characters |
| Prep.FederalState | src/prep.py:23-28 | None for a non-string or a string shorter than 8; otherwise the state is present exactly when characters 2..8 are an operator code in the table, and it is always a state the table names |
| Prep.StateDependsOnlyOnCode | src/prep.py:26-28 | two numbers with the same characters 2..8 have the same state |
| Prep.SeveralOperatorsPerState | src/prep.py:9-21 | three operator codes map to Upper Austria; a code outside the table gives None |
| Prep.StateCell | src/prep.py:34 | the state cell is missing exactly when no state is found, and otherwise holds the state |
| Prep.WithStateColumn | src/prep.py:30-37 | present exactly when the frame has a Number column; then the copy has the same height, the old columns plus the state column, the other columns unchanged, and each row's state |
| Prep.WithStateColumnIdempotent | src/prep.py:34 | adding the state column twice equals adding it once |
| Prep.AddStateColumns | src/prep.py:30-37 | fails exactly when either frame lacks a Number column; otherwise gives both frames with their state columns |
| Prep.Hourly | src/prep.py:44-50 | one bucket per hour from the first reading's hour to the last one's, each the bucket of its hour |
| Prep.HourlyGrid | src/prep.py:44-50 | every reading falls in a bucket of the grid, and the first and last buckets each hold a reading |
| Prep.AggregateConsumption1h | src/prep.py:39-51 | no readings give no buckets and some give some; the Consumption buckets add up to the present Consumption, and likewise for ConsumptionCommunity |
| Prep.ResampleGeneration1h | src/prep.py:53-66 | no rows give no buckets and some give some; the Generation buckets add up to the present Generation of all sources, and likewise for GenerationCommunity |
| Prep.BucketPresentIff | src/prep.py:47 | a bucket sum is present exactly when some reading of its hour has a present amount (min_count=1) |
| Prep.HourlyPresent | src/prep.py:44-50 | bucket k of the hourly table is present exactly when some reading of its hour has a present amount |
| Prep.BucketValuesAreTotals | src/prep.py:44-50 | each bucket, with NaN counted as 0, is the sum of the present amounts of its hour |
| Prep.HourlyConserves | src/prep.py:44-50 | the buckets add up to the sum of all present amounts: aggregation neither loses nor invents energy |
| Prep.OfSourceEmptyIff | src/prep.py:84-86 | the rows of a source are empty exactly when no row carries its code |
| Prep.SourceNamesDistinct | src/prep.py:69-76 | the six published source names are distinct |
| Prep.PrepareGenerationBySource1h | src/prep.py:68-95 | a listed source has an entry exactly when some row carries its code, and the entry is the hourly aggregation of those rows; every key is a listed source name |
| Prep.RunFullPreparation | src/prep.py:98-123 | fails with the KeyError of the Number column exactly when either raw frame lacks it; otherwise the three results are the hourly consumption, the hourly total generation and the per-source generation, as specified |
| PlzWeights.InWindowMember | src/weather/plz_weights.py:17-23 | a reading is in the window exactly when reference - lookback days <= t < reference |
| PlzWeights.PostalCodes | src/weather/plz_weights.py:24 | the group keys are the distinct postal codes of the readings, ascending |
| PlzWeights.Grouped | src/weather/plz_weights.py:24-25 | one entry per group key, carrying the sum of that code's readings |
| PlzWeights.AtLeastMember | src/weather/plz_weights.py:28 | the threshold keeps exactly the entries whose total reaches the minimum |
| PlzWeights.GetActivePlz | src/weather/plz_weights.py:4-33 | an error carries the "no active postal code" message; a result is non-empty |
| PlzWeights.ActiveIff | src/weather/plz_weights.py:17-28 | a code is kept with total T exactly when it has a reading in the window, T is the sum of its window readings, and T >= min_generation |
| PlzWeights.ErrIff | src/weather/plz_weights.py:28-31 | the error is raised exactly when every code with a reading in the window stays below the minimum |
| PlzWeights.Normalise | src/weather/plz_weights.py:33 | each code keeps its place, and its weight times the sum of the totals is its total |
| PlzWeights.NormaliseFacts | src/weather/plz_weights.py:33 | normalising positive totals gives weights in (0, 1] that sum to 1 and are proportional to the totals |
| PlzWeights.WeightsNormalised | src/weather/plz_weights.py:19-33 | the weights sum to 1, lie in (0, 1], keep the kept codes in ascending order, and are proportional to the raw totals |
| Era5Coverage.Stem | src/weather/era5_coverage.py:34 | the stem followed by ".csv" is the file name |
| Era5Coverage.RemoveAllAbsent | src/weather/era5_coverage.py:34 | a stem without "era5_" is left as it is |
| Era5Coverage.SinglePass | src/weather/era5_coverage.py:34 | the deletion is one pass: "eraera5_5_" becomes "era5_" |
| Era5Coverage.FileCoversCode | src/weather/era5_coverage.py:33-36 | the file era5_<code>.csv puts the code in the existing set when the code contains no "era5_" |
| Era5Coverage.PartMember | src/weather/era5_coverage.py:39-40 | the covered and missing parts hold exactly the weighted codes with and without a file |
| Era5Coverage.MissingPart | src/weather/era5_coverage.py:39-40 | the missing codes ascend without repeats and are exactly the active codes without a file; the two parts share out the codes |
| Era5Coverage.PartSums | src/weather/era5_coverage.py:42 | the covered and missing weights add up to the total weight |
| Era5Coverage.CheckEra5Coverage | src/weather/era5_coverage.py:9-53 | the check fails exactly when the weights fail |
| Era5Coverage.ReportPartition | src/weather/era5_coverage.py:39-48 | missing_plz is ascending, has no repeats and holds the active codes without a file; n_active_plz counts the active codes; n_missing + n_with_era5 = n_active_plz |
| Era5Coverage.CoverageBounds | src/weather/era5_coverage.py:42-49 | coverage_pct lies in [0, 100] and is 100 exactly when no active code is missing |
| StringOrder.BelowTotal | src/weather/era5_coverage.py:39 | Python's string order is total on distinct strings |
| StringOrder.BelowTransitive | src/weather/era5_coverage.py:39 | Python's string order is transitive |
| StringOrder.Insert | src/weather/plz_weights.py:24 | inserting into a sorted list keeps it sorted and adds exactly the element |
| StringOrder.SortedUnique | src/weather/era5_coverage.py:39 | the sorted list of a set is unique |
| CommunityCosts.LeftJoinUnique | src/evaluation/community_costs.py:56 | with unique right keys, the left join keeps one row per left row, in order, combined with the matching right row or with none |
| CommunityCosts.CostRowArithmetic | src/evaluation/community_costs.py:58-68 | the error is present exactly when forecast and actual are, and actual + error = forecast; the absolute error is non-negative; impact * 1000 = error * price; exposure equals the absolute impact when the price is not negative |
| CommunityCosts.LeftJoinCoversLeft | src/evaluation/community_costs.py:56 | a left join loses no left row: each appears combined with every right row of its key, and combined with none when no right row has its key |
| CommunityCosts.LeftJoinFromLeft | src/evaluation/community_costs.py:56 | every row of a left join is a left row combined with a partner or with none |
| CommunityCosts.ComputeCosts | src/evaluation/community_costs.py:50-70 | no forecast row is lost: each yields a cost row with every actual of its timestamp, and one with a NaN actual when no actual has that timestamp; every cost row carries the timestamp, model and forecast of a forecast row; there are at least as many rows as forecasts |
| CommunityCosts.CostsPerForecast | src/evaluation/community_costs.py:50-70 | with one actual and one price per timestamp, the table has one row per forecast, in order, with that timestamp's actual and price (NaN when absent) |
| CommunityCosts.SortReals | src/evaluation/community_costs.py:96 | sorting gives a permutation of the values |
| CommunityCosts.SortedEnds | src/evaluation/community_costs.py:96-98 | the sorted values ascend, starting at the minimum and ending at the maximum |
| CommunityCosts.Quantile | src/evaluation/community_costs.py:96 | the 0-quantile is the first value and the 1-quantile the last |
| CommunityCosts.QuantileBounds | src/evaluation/community_costs.py:96 | the interpolated quantile lies between the smallest and the largest value |
| CommunityCosts.Capacity | src/evaluation/community_costs.py:96-98 | the capacity lies between the smallest and the largest actual, is positive exactly when the largest actual is, and is 0 exactly when the largest actual is 0 |
| CommunityCosts.CapacityFacts | src/evaluation/community_costs.py:96-98 | the capacity is the quantile when that is positive and the maximum otherwise, and the quantile lies between the smallest and the largest actual |
| CommunityCosts.Nmae | src/evaluation/community_costs.py:100 | for a nonzero capacity, nMAE * capacity = MAE * 100, and nMAE is not negative when MAE is not and the capacity is positive |
| CommunityCosts.MaeNonNegative | src/evaluation/community_costs.py:90-92 | MAE is not negative |
| CommunityCosts.ModelMetricsFacts | src/evaluation/community_costs.py:86-100 | for a model with complete rows and a nonzero capacity: MAE is the mean absolute error over its complete rows and is not negative; the capacity is that of its actuals; nMAE is MAE as a percentage of it, not negative when the capacity is positive |
| CommunityCosts.MetricsTable | src/evaluation/community_costs.py:84-110 | when no capacity is 0, each row of the table is a model of the rows with a complete row, a nonzero capacity and its own metrics |
| CommunityCosts.Models | src/evaluation/community_costs.py:85 | the group keys are the distinct models, ascending |
| CommunityCosts.MetricsModels | src/evaluation/community_costs.py:84-110 | the table lists, in ascending order, exactly the models that have a row with both forecast and actual present, each with its own metrics |
| CommunityCosts.MetricsEmptyIff | src/evaluation/community_costs.py:84-112 | the table is empty exactly when no row has both forecast and actual present |
| CommunityCosts.DivisionByZeroIff | src/evaluation/community_costs.py:84-100 | the nMAE division raises exactly when some model has a complete row and the largest actual of its complete rows is 0 |
| CommunityCosts.ComputeForecastMetrics | src/evaluation/community_costs.py:75-112 | fails with ZeroDivisionError when some model's capacity is 0; otherwise the loop's result is the metrics table, or the set_index error when that table is empty |
| Calendar.NextDay | read_spot_price.py:11 | the next day is a valid date |
| Calendar.NextDayOrdinal | read_spot_price.py:11 | the next day's number is one more, so it comes after the day |
| Calendar.FromOrdinalOfOrdinal | read_spot_price.py:11 | converting a date to its day number and back gives the date |
| Calendar.BeforeIffOrdinalLess | read_spot_price.py:15 | date comparison is the comparison of day numbers |
| Calendar.EpochOrdinalIsJanuaryFirst1970 | src/features.py:77-79 | the origin of the hour counts is 1970-01-01, a Thursday |
| SpotRequest.PadRoundTrip | read_spot_price.py:11 | a zero-padded number reads back as itself |
| SpotRequest.StampRoundTrip | read_spot_price.py:11 | a day stamp reads back as its date |
| SpotRequest.AggregateString | read_spot_price.py:9-11 | fails exactly for 9999-12-31; otherwise 35 characters with '/' at index 17, the part before it reading back as the day and the part after it as the next day |
| SpotRequest.AggregateStringShape | read_spot_price.py:9-11 | fails only for 9999-12-31; otherwise 35 characters, its only '/' at index 17, the day before it, the next calendar day after it, both ending in T000000 |
| SpotRequest.AggregateStringInjective | read_spot_price.py:9-11 | different days give different interval strings |
| SpotRequest.RequestUrl | read_spot_price.py:14-18 | refused exactly for days after tomorrow; any other failure is the overflow of the day after 9999-12-31 |
| SpotRequest.RequestUrlLayout | read_spot_price.py:14-18 | a built URL is the fixed head, the interval from the day to the next day, and the fixed tail |
| TimeUtils.Latest | src/utils/time.py:5 | the maximum is a value of the list and bounds all of them |
| TimeUtils.FloorFacts | src/utils/time.py:6 | the floor is a midnight at or before t, less than a day before it |
| TimeUtils.GetLastCompleteDay | src/utils/time.py:4-6 | NaT exactly when no timestamp is present; otherwise a midnight within a day of the latest timestamp and not after it |
| TimeUtils.OrderIndependent | src/utils/time.py:4-6 | the result does not depend on the order of the rows |
| TimeUtils.LastDayMayBeIncomplete | src/utils/time.py:6 | readings at 00:00 and 23:00 of day 0 and 00:00 of day 1 give day 1 as written, day 0 when corrected |
| TimeUtils.LastCompleteDayIsComplete | src/utils/time.py:4-6 | the corrected day is a midnight whose 23:00 hour is reached, while the following day's 23:00 hour is not |

## Left out

- Reading from the database, CSV files and the network: the callers'
  loading, `read_spot_price_hourly` and the HTTP request. The spot table,
  the directory listing, the reference day and "today" are parameters.
  The CSV parsing of the price response is not modelled.
- The module-level request and plot at read_spot_price.py:38-40,
  plotting, `print` and progress output.
- IEEE floating point: reals are exact. Infinite values and rounding
  are not modelled.
- RMSE and nRMSE (a square root) are not modelled. The rest of each
  metrics row is.
- Features.RollVarAt: the rolling standard deviation is modelled as the
  sample variance. The square root is not modelled, which keeps its
  presence pattern and sign.
- Era5Coverage.CheckEra5Coverage: coverage_pct is `coverage * 100`,
  without rounding to two decimals.
- CommunityCosts.Capacity: the `not np.isfinite(cap)` branch is not
  modelled. With exact reals and a non-empty group the quantile is always
  finite.
- CommunityCosts.Nmae: requires a nonzero capacity. The ZeroDivisionError
  of a zero capacity is `Err` of `CommunityCosts.ComputeForecastMetrics`,
  with Python's message.
- CommunityCosts.Quantile: requires 0 <= q <= 1. pandas raises
  otherwise, and the caller's default is 0.995.
- CommunityCosts.ComputeForecastMetrics: the error that `set_index("model")`
  raises on an empty table is represented by a fixed message.
- PlzWeights.GetActivePlz: requires min_generation > 0 (the default
  is 1.0), which the weights' (0, 1] bound depends on.
- Dataset.BuildDataset: requires a series in time order and
  train_start <= test_start. The source checks neither. On an unsorted
  series pandas `asfreq` spans the smallest to the largest label and
  raises on a repeated one. When the test span starts before the training
  span, the concatenated labels repeat and `.loc` returns every copy.
  Neither behaviour is modelled.
- Features.MakeFeatures: a zero lag, diff or window makes the source
  raise. The model excludes these by preconditions instead of returning
  an error.
- Postal codes and energy-source codes are strings. The numeric dtypes
  and the `astype(str)` conversions are not modelled.
- pandas merge column-name collisions are not modelled.
- Datetime parsing, time zones and DST are not modelled. Timestamps are
  already in UTC.
- Prep.RunFullPreparation: the raw tables are given twice, as frames of
  cells for the federal-state step and as typed rows for the
  aggregations. The state columns that `run_full_preparation` adds do not
  reach its results, so the model aggregates the raw rows.
- Column names are not modelled: a column is a `FeatureKey`.
- SpotRequest.DayStamp: models four-digit years (1..9999) zero-padded.
  How `%Y` pads years below 1000 depends on the platform.
- SpotRequest.RequestUrl: compares day numbers. The `OverflowError` of
  `date.today() + timedelta(days=1)` on 9999-12-31 is not modelled.

## Findings

| source | as written | input that shows it | evidently intended | confidence | as-written member | corrected member |
|---|---|---|---|---|---|---|
| src/utils/time.py:6 | `get_last_complete_day` floors the latest timestamp to midnight, so it returns the latest day with any data | hourly readings at 1970-01-01 00:00 and 23:00 and at 1970-01-02 00:00 give 1970-01-02, a day holding one of its 24 hours | the last day whose hours are all reached (its 23:00 reading is at or before the latest timestamp) | medium, not executed | TimeUtils.LastDayMayBeIncomplete | TimeUtils.LastCompleteDayIsComplete |
