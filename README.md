# fast_statistics in Dafny

`fast_statistics` is a Ruby extension. It takes an array of numeric columns
(a Ruby array of Ruby arrays of Floats) and returns, for each column, a hash
with seven keys: `min`, `max`, `mean`, `median`, `q1`, `q3` and
`standard_deviation`. The repository holds two implementations of the
extension.

- The C extension (`fast_statistics.c`) works directly on the Ruby arrays. It
  has a scalar driver and two lane-packed SSE drivers: two doubles per
  register, or four floats per register.
- The C++ extension (`fast_statistics.cpp` over `array_2d.hpp` /
  `array_2d.cpp`) first copies the input into a column-major matrix, `DFloat`.
  A scalar engine or a lane-packed engine then works on that matrix. This
  extension also exposes an `Array2D` class, whose options pick one of four
  storage types.

Both extensions sort each column in place, then read the extremes, the mean,
the population variance and three quartiles. A quartile uses the
rank/percentile rule: rank `pct * (rows - 1)`, interpolated between the cell
at the floored rank and the next cell. The benchmark helper
`percentile(p, arr, len)` is the Ruby reference for that rule.

The model works over exact reals. The float and double instantiations
therefore differ only in their lane width `w` (4 or 2). An SSE register is a
sequence of `w` lanes.

The modules, in dependency order:

| module | file | models |
|---|---|---|
| `Base` | base.dfy | `Option`, `Result`, the TypeError reasons, Ruby's `rb_ary_entry` (negative indices count from the end; out of range is `nil`) |
| `Sorting` | sorting.dfy | `std::sort` / `rb_ary_sort_bang` as the unique ascending permutation |
| `Statistics` | statistics.dfy | the `Stats` record, the running sum and variance, the rank/percentile rule, one column's record |
| `Hashes` | hashes.dfy | the result hash, with its seven keys in insertion order |
| `BenchmarkHelpers` | helpers.dfy | `Helpers#percentile` |
| `Layout` | layout.dfy | the column-major offsets `base_ptr(col)` |
| `Lanes` | lanes.dfy | the SSE intrinsics, lane by lane |
| `Matrix` | matrix.dfy | the `DFloat` class: its constructor, its scalar engine and its packed engine |
| `RubyArrays` | ruby_arrays.dfy | the C extension's drivers and its `Init_fast_statistics` table |
| `FastStatistics` | fast_statistics_ext.dfy | the C++ extension: `build_results_hashes`, the module drivers, `Array2D`, `Init_fast_statistics` |

State that the source changes in place is modelled in place:

- `DFloat` is a class whose `entries` is an `array<real>`.
- The C drivers take the outer Ruby array as an `array<seq<real>>`. Sorting an
  inner array through `current_cols` changes what the caller sees.
- A `VALUE` in `current_cols` is the index of the inner array it refers to,
  and `Qnil` is `None`.

Two functions carry the meaning of one column's result:

- `StatsOf(column)` sorts the column and summarises it.
- `LeadingStats(column, rows)` sorts the whole inner array and summarises its
  first `rows` elements, as the C drivers do.

Each driver is proved against these functions. Their properties are lemmas:
the record is ordered, the extremes are elements of the column, a single row
gives that value in every field, and each quartile lies between the two cells
it interpolates.

## Model

| member | source | states |
|---|---|---|
| Base.Entry | ext/fast_statistics/fast_statistics.c:14 | `rb_ary_entry` returns a value iff the index is within the array, counting a negative index from the end: element `i` for `0 <= i`, element `len + i` for a negative `i`; otherwise `nil` |
| Sorting.SortSeq | ext/fast_statistics/array_2d.hpp:100-105 | the sorted column is ascending, a permutation of the input, and of the same length |
| Sorting.SortIsCanonical | ext/fast_statistics/array_2d.hpp:100-105 | any ascending permutation of a column is the one `SortSeq` gives, so the results do not depend on the sorting algorithm |
| Sorting.SortedPermutationUnique | ext/fast_statistics/fast_statistics.c:92-99 | two ascending sequences with the same elements are equal, so `rb_ary_sort_bang` and `std::sort` agree |
| Sorting.SortIdempotent | ext/fast_statistics/array_2d.hpp:183-195 | sorting an already sorted column changes nothing |
| Sorting.SortSameElements | ext/fast_statistics/array_2d.hpp:100-105 | a value occurs in the sorted column iff it occurs in the input |
| Sorting.SortedEnds | ext/fast_statistics/array_2d.hpp:157-158 | after sorting, the first cell is the least element of the column and the last cell the greatest, and both are elements of it |
| Statistics.FloorRankBounds | ext/fast_statistics/array_2d.hpp:112-115 | for a quartile below 1, the floored rank and its successor are positions in the column when it has two rows or more; with one row the rank is 0 and the successor is one past the end |
| Statistics.PercentileIgnoresBeyond | ext/fast_statistics/array_2d.hpp:114-116 | whatever the read one past a one-row column returns, the percentile is the same |
| Statistics.PercentileOfSingleRow | ext/fast_statistics/array_2d.hpp:107-117 | with one row, every percentile is the sole value |
| Statistics.InterpolationBetween | ext/fast_statistics/array_2d.hpp:116 | interpolation by a weight in [0, 1] lies between its two ends |
| Statistics.PercentileBetween | ext/fast_statistics/array_2d.hpp:107-117 | on an ascending column of two rows or more, a percentile below 1 lies between the cell at the floored rank and the next cell |
| Statistics.PercentileWithinColumn | ext/fast_statistics/array_2d.hpp:107-117 | on an ascending column, every percentile lies between the first cell and the last |
| Statistics.PercentileMonotone | ext/fast_statistics/array_2d.hpp:107-117 | on an ascending column, a larger quantile never gives a smaller percentile |
| Statistics.PercentileAtZero | ext/fast_statistics/array_2d.hpp:112-116 | the 0 quantile is the first cell |
| Statistics.PercentileAtIntegralRank | ext/fast_statistics/array_2d.hpp:111-116 | when the rank is a whole number `k`, the percentile is exactly cell `k` |
| Statistics.SumBounds | ext/fast_statistics/array_2d.hpp:119-128 | a total of `n` values that lie in [lo, hi] lies in [n*lo, n*hi] |
| Statistics.SumOfZeros | ext/fast_statistics/array_2d.hpp:119-128 | a column of zeros totals zero |
| Statistics.VarianceSumNonnegative | ext/fast_statistics/array_2d.hpp:130-143 | the accumulated `(x - mean)^2 / rows` is never negative |
| Statistics.MeanBetween | ext/fast_statistics/array_2d.hpp:162-163 | the mean of an ascending column lies between its first and last cells |
| Statistics.StatsOfExtremes | ext/fast_statistics/array_2d.hpp:155-158 | a record's `min` and `max` are elements of the column, and no element lies outside them |
| Statistics.StatsOfOrdered | ext/fast_statistics/array_2d.hpp:155-164 | min <= q1 <= median <= q3 <= max, min <= mean <= max, and the variance is not negative |
| Statistics.SingleRowRecord | ext/fast_statistics/array_2d.hpp:145-170 | for a one-row column, min, max, mean, median, q1 and q3 are the sole value and the variance is 0 |
| Hashes.ResultHash | ext/fast_statistics/fast_statistics.cpp:23-32 | a result hash holds the seven keys min, max, mean, median, q1, q3, standard_deviation, in insertion order |
| Hashes.KeysDistinct | ext/fast_statistics/fast_statistics.cpp:14-20 | the seven key symbols are pairwise distinct |
| Hashes.LookupKey | ext/fast_statistics/fast_statistics.cpp:26-32 | looking up any of the seven keys gives the value stored under it |
| Hashes.HashRoundTrip | ext/fast_statistics/fast_statistics.cpp:22-35 | reading the seven keys back out of a result hash gives the record it was built from |
| Hashes.ResultHashInjective | ext/fast_statistics/fast_statistics.cpp:22-35 | different records give different hashes |
| BenchmarkHelpers.Percentile | benchmark/helpers.rb:4-10 | `p == 100` returns `arr[len - 1]`, and `nil` exactly when that index is outside the array; only the other branch raises, and it never raises for `0 <= p < 100` with `2 <= len <= arr.length`; its value is stated by `BenchmarkHelpers.AgreesWithPercentileOf` |
| BenchmarkHelpers.PercentileAtHundred | benchmark/helpers.rb:5 | `p == 100` returns the last element |
| BenchmarkHelpers.AgreesWithPercentileOf | benchmark/helpers.rb:4-10 | with two elements or more, or at 100, the helper returns the extension's percentile of the same column; with one element below 100 it raises |
| BenchmarkHelpers.PercentileAtZero | benchmark/helpers.rb:6-9 | `p == 0` returns the first element |
| BenchmarkHelpers.PercentileAtIntegralRank | benchmark/helpers.rb:6-9 | when the rank is a whole number `k`, the helper returns element `k` |
| BenchmarkHelpers.PercentileBetween | benchmark/helpers.rb:6-9 | on an ascending array, the result lies between the two elements it interpolates |
| Layout.BaseIsProduct | ext/fast_statistics/array_2d.hpp:47 | column `c` starts at `c * rows` |
| Layout.BaseMonotone | ext/fast_statistics/array_2d.hpp:47 | later columns start no earlier |
| Layout.ColumnInBuffer | ext/fast_statistics/array_2d.hpp:90 | every column of a `cols`-column matrix lies inside the buffer of `cols * rows` cells |
| Layout.ColumnsInBuffer | ext/fast_statistics/array_2d.hpp:90 | the same, for all columns at once |
| Layout.ColumnsApart | ext/fast_statistics/array_2d.hpp:47 | two different columns never overlap |
| Layout.ColumnOf | ext/fast_statistics/array_2d.hpp:47 | row `r` of column `c` is cell `base_ptr(c) + r` |
| Layout.WithColumnColumns | ext/fast_statistics/array_2d.hpp:104 | rewriting one column of the buffer changes that column and no other |
| Lanes.GroupOfColumn | ext/fast_statistics/array_2d.cpp:115-151 | column `w*k + s` is lane `s` of the group that starts at column `w*k` |
| Matrix.SumLanesStep | ext/fast_statistics/array_2d.cpp:121-124 | adding one packed row keeps each lane's running total equal to its column's total so far |
| Matrix.VarianceLanesStep | ext/fast_statistics/array_2d.cpp:132-137 | adding one packed row keeps each lane's running variance equal to its column's so far |
| Matrix.GroupLog | ext/fast_statistics/array_2d.cpp:140-153 | after the group at `col`, every column so far was stored once, from lane `c % w` of group `w * (c / w)` |
| Matrix.DFloat.BasePtr | ext/fast_statistics/array_2d.hpp:47 | `base_ptr(col)` is the column's offset, and the column fits in the buffer |
| Matrix.DFloat.constructor | ext/fast_statistics/array_2d.hpp:83-98 | `cols` and `rows` come from the outer array and the first inner array; column `j` holds the first `rows` elements of inner array `j`; `stats` is null |
| Matrix.DFloat.SafeEntry | ext/fast_statistics/array_2d.hpp:172-181 | inside the matrix it is the cell of column `col` at row `row`; outside it is 0 |
| Matrix.DFloat.SafeEntryCell | ext/fast_statistics/array_2d.hpp:172-181 | `safe_entry` reads the cell inside the matrix and 0 outside it |
| Matrix.DFloat.Sort | ext/fast_statistics/array_2d.hpp:100-105 | the column becomes its sorted permutation, and every other column is unchanged |
| Matrix.DFloat.SortColumns | ext/fast_statistics/array_2d.hpp:183-195 | columns `start .. start+w-1` that exist are sorted, and every other column is unchanged |
| Matrix.DFloat.Percentile | ext/fast_statistics/array_2d.hpp:107-117 | the scalar percentile is the rank/percentile rule applied to the column, including the one-row read past the column |
| Matrix.DFloat.Sum | ext/fast_statistics/array_2d.hpp:119-128 | the loop returns the column's total |
| Matrix.DFloat.Variance | ext/fast_statistics/array_2d.hpp:130-143 | the loop returns the accumulated `(x - mean)^2 / rows` of the column |
| Matrix.DFloat.ColumnStatistics | ext/fast_statistics/array_2d.hpp:151-167 | one iteration sorts column `col`, stores its record, and touches no other column or record |
| Matrix.DFloat.SortedColumnRecord | ext/fast_statistics/array_2d.hpp:157-164 | the fields read off a sorted column form that column's record |
| Matrix.DFloat.DescriptiveStatistics | ext/fast_statistics/array_2d.hpp:145-170 | every column ends up sorted, and record `c` is the record of the original column `c` |
| Matrix.DFloat.Pack | ext/fast_statistics/array_2d.cpp:7-25 | lane `i` of a packed row is `safe_entry(start + i, row)` |
| Matrix.DFloat.PackLanes | ext/fast_statistics/array_2d.cpp:7-25 | a packed row holds row `row` of each lane's column, zero-padded to the right |
| Matrix.DFloat.PackCell | ext/fast_statistics/array_2d.cpp:7-25 | for a column inside the matrix, its lane of a packed row is its cell |
| Matrix.DFloat.PercentilePacked | ext/fast_statistics/array_2d.cpp:27-53 | each real lane holds its column's percentile, and each padding lane holds 0 |
| Matrix.DFloat.InterpolatedLanes | ext/fast_statistics/array_2d.cpp:30-52 | the packed interpolation below the maximum gives each real lane its column's percentile |
| Matrix.DFloat.InterpolatedColumn | ext/fast_statistics/array_2d.cpp:46-52 | interpolating the two `safe_entry` reads of a column gives its percentile (0 past the last column) |
| Matrix.DFloat.PackedSums | ext/fast_statistics/array_2d.cpp:120-124 | each lane of the packed sum is its lane column's total |
| Matrix.DFloat.PackedVariances | ext/fast_statistics/array_2d.cpp:131-137 | each lane of the packed variance is its lane column's accumulated variance |
| Matrix.DFloat.PackedStatistics | ext/fast_statistics/array_2d.cpp:118-138 | the registers of one group give each real lane its column's record and each padding lane the zero record |
| Matrix.DFloat.RealLaneRecords | ext/fast_statistics/array_2d.cpp:140-151 | the slot of a real lane is its column's record |
| Matrix.DFloat.PaddingLaneRecords | ext/fast_statistics/array_2d.cpp:118-138 | the slot of a padding lane is the zero record |
| Matrix.DFloat.StoreGroup | ext/fast_statistics/array_2d.cpp:115-153 | one group sorts its columns and stores their records, and leaves every other column and record alone |
| Matrix.DFloat.StoreSlots | ext/fast_statistics/array_2d.cpp:140-153 | the slots of the real lanes are stored at `col + slot`, and nothing else is written |
| Matrix.DFloat.DescriptiveStatisticsSimd | ext/fast_statistics/array_2d.cpp:107-157 | every column ends up sorted, record `c` is the record of the original column `c`, and it is written from lane `c % w` of group `w * (c / w)` |
| RubyArrays.SafeArrayEntry | ext/fast_statistics/fast_statistics.c:9-27 | a nil slot reads 0; a slot naming an inner array reads its element `row`, and raises TypeError exactly when `row` is outside that array |
| RubyArrays.PackRow | ext/fast_statistics/fast_statistics.c:29-45 | the pack succeeds iff every slot reads; slot `k` fills lane `w-1-k`; a nil read raises TypeError |
| RubyArrays.GetNextColumns | ext/fast_statistics/fast_statistics.c:49-62 | slot `w-1-s` names inner array `base + s` when it exists and is nil otherwise |
| RubyArrays.GroupMembers | ext/fast_statistics/fast_statistics.c:49-62 | the slots name exactly the existing inner arrays `base .. base+w-1` |
| RubyArrays.GroupRow | ext/fast_statistics/fast_statistics.c:29-62 | after the reversal in `get_next_columns`, lane `s` of a packed row reads inner array `base + s`, so lane order is Ruby order |
| RubyArrays.LongGroupRow | ext/fast_statistics/fast_statistics.c:131-133 | in a group of long enough columns, every row inside `rows` packs, lane by lane |
| RubyArrays.ReadWithinLongGroup | ext/fast_statistics/fast_statistics.c:9-17 | reads inside a group of long enough columns never raise |
| RubyArrays.EndsReadable | ext/fast_statistics/fast_statistics.c:127-128 | when the reads of row 0 and row `rows-1` succeed, every column of the group is long enough |
| RubyArrays.ArrayPercentilePacked | ext/fast_statistics/fast_statistics.c:64-90 | the packed percentile fails only with TypeError; its lane values are stated by `RubyArrays.PackedPercentileLanes` and its one-row failure by `RubyArrays.SingleRowPercentileRaises` |
| RubyArrays.PackedPercentileLanes | ext/fast_statistics/fast_statistics.c:64-90 | with two rows or more in every column of the group, each lane holds its column's percentile, and 0 for a padding lane |
| RubyArrays.SingleRowPercentileRaises | ext/fast_statistics/fast_statistics.c:68-71 | with one row, the read at the floored rank + 1 is nil, so the packed quartile raises TypeError |
| RubyArrays.PackedSums | ext/fast_statistics/fast_statistics.c:130-134 | each lane of the packed sum is its column's total over the first `rows` rows |
| RubyArrays.PackedVariances | ext/fast_statistics/fast_statistics.c:144-150 | each lane of the packed variance is its column's accumulated variance |
| RubyArrays.SlotRecord | ext/fast_statistics/fast_statistics.c:153-172 | the fields read out of one slot are the record of that slot's column (first `rows` sorted elements), or the zero record for padding |
| RubyArrays.PaddingRecord | ext/fast_statistics/fast_statistics.c:155 | a padding slot's fields are all 0 |
| RubyArrays.GroupSlots | ext/fast_statistics/fast_statistics.c:127-150 | the group's registers give each slot its column's record |
| RubyArrays.GroupStatistics | ext/fast_statistics/fast_statistics.c:127-151 | the group succeeds iff there are two rows or more and every column of the group is long enough; it then gives each slot its column's record; otherwise it raises TypeError |
| RubyArrays.PushSlots | ext/fast_statistics/fast_statistics.c:153-176 | one hash is pushed per existing column of the group, in order, built from its slot |
| RubyArrays.SortArrays | ext/fast_statistics/fast_statistics.c:92-99 | exactly the inner arrays the slots name are sorted in place |
| RubyArrays.LeadingStatsOfFullColumn | ext/fast_statistics/fast_statistics.c:316-325 | for an inner array as long as the first, the C record is the column's record |
| RubyArrays.FirstShortExactly | ext/fast_statistics/fast_statistics.c:101-180 | an input is unreadable iff it has a first failing column, and that column is unique |
| RubyArrays.FirstShortInGroup | ext/fast_statistics/fast_statistics.c:126-128 | a group that fails holds the first failing column |
| RubyArrays.PackedFailure | ext/fast_statistics/fast_statistics.c:120-128 | a failing group ends with the input unreadable, in the group of the first failing column |
| RubyArrays.ProcessGroup | ext/fast_statistics/fast_statistics.c:120-177 | one group sorts its inner arrays, succeeds iff it is readable, and then pushes the records of its columns |
| RubyArrays.DescriptiveStatisticsPacked | ext/fast_statistics/fast_statistics.c:101-260 | the packed driver succeeds iff there are two rows or more and no inner array is shorter than the first; it then returns, per inner array, the hash of its first `rows` sorted elements, with every inner array sorted; otherwise it raises TypeError after sorting up to the end of the group of the first failing column |
| RubyArrays.RubyArrayPercentile | ext/fast_statistics/fast_statistics.c:265-273 | below `pct == 1` it succeeds iff the cells at the floored rank and the next one are both inside the array (a negative floored rank counts from the end), and otherwise raises TypeError; its value is stated by `RubyArrays.RubyPercentileOfColumn` |
| RubyArrays.RubyPercentileOfColumn | ext/fast_statistics/fast_statistics.c:265-273 | with two rows or more, `ruby_array_percentile` is the rank/percentile rule on the first `rows` elements |
| RubyArrays.QuartileReadsNeedRows | ext/fast_statistics/fast_statistics.c:320-322 | for an inner array that is not of a middle length (strictly between `Reach(rows)`, the highest index the quartiles read, and `rows`), the three quartile reads all succeed only when there are two rows or more and the array has at least `rows` elements; a middle-length array passes the quartile reads, and the drivers' contracts exclude it (see `RubyArrays.DescriptiveStatisticsUnpacked` under "Left out") |
| RubyArrays.RubyArraySum | ext/fast_statistics/fast_statistics.c:275-283 | the loop returns the total of the first `length` elements |
| RubyArrays.RubyArrayVariance | ext/fast_statistics/fast_statistics.c:285-296 | the loop succeeds iff the inner array has `length` elements and returns their accumulated variance; a nil read raises TypeError |
| RubyArrays.UnpackedColumn | ext/fast_statistics/fast_statistics.c:316-325 | one column succeeds iff there are two rows or more and the inner array is long enough, and it then gives the record of its first `rows` elements |
| RubyArrays.ScalarFailure | ext/fast_statistics/fast_statistics.c:316-325 | the column at which the scalar driver raises is the first failing column |
| RubyArrays.ProcessColumn | ext/fast_statistics/fast_statistics.c:312-336 | one iteration sorts its inner array, succeeds iff it is readable, and then pushes its hash |
| RubyArrays.DescriptiveStatisticsUnpacked | ext/fast_statistics/fast_statistics.c:298-339 | the scalar driver succeeds iff there are two rows or more and no inner array is shorter than the first; it then returns, per inner array, the hash of its first `rows` sorted elements; otherwise it raises TypeError after sorting up to the first failing column |
| RubyArrays.InitBindings | ext/fast_statistics/fast_statistics.c:343-376 | with SSE the default and the `float64` names bind the double packed driver and `float32` the float one; without it every statistics name binds the scalar driver; `simd_enabled?` reports the build |
| FastStatistics.BuildResultsHashes | ext/fast_statistics/fast_statistics.cpp:9-38 | one hash per record, in index order |
| FastStatistics.ConvertCells | ext/fast_statistics/array_2d.hpp:93-97 | the cell copy succeeds iff no inner array is shorter than the first; a short one raises TypeError |
| FastStatistics.DescriptiveStatisticsPacked | ext/fast_statistics/fast_statistics.cpp:42-64 | the packed module driver succeeds iff no inner array is shorter than the first, and then returns the hash of each column's first `rows` elements |
| FastStatistics.DescriptiveStatisticsUnpacked | ext/fast_statistics/fast_statistics.cpp:73-83 | the scalar module driver succeeds iff no inner array is shorter than the first, and then returns the hash of each column's first `rows` elements |
| FastStatistics.EnginesAgree | ext/fast_statistics/fast_statistics.c:316-325 | on rectangular input with two rows or more, the C and C++ engines report the same records |
| FastStatistics.EnginesDisagreeOnLongerColumn | ext/fast_statistics/fast_statistics.c:316-318 | with an inner array longer than the first, the C driver can report as the minimum a value the C++ engines never read |
| FastStatistics.ResolveOptions | ext/fast_statistics/fast_statistics.cpp:126-131 | `dtype` is the option given, or `:double` when it is nil or missing; `packed` is the option given, or `true` when it is nil or missing |
| FastStatistics.CheckArguments | ext/fast_statistics/fast_statistics.cpp:133-137 | the checks pass iff there is a first inner array, `dtype` is a symbol and `packed` is true or false; a missing first array or a non-symbol `dtype` raises the `Check_Type` error before the boolean check |
| FastStatistics.SelectVariant | ext/fast_statistics/fast_statistics.cpp:146-160 | a storage type is selected iff `dtype` is `:float` or `:double`; it is the float type iff `dtype` is `:float`, packed iff `packed` is true; any other symbol raises TypeError |
| FastStatistics.ResolveDefaults | ext/fast_statistics/fast_statistics.cpp:126-131 | with no options hash, or an empty one, the matrix is `:double` and packed; a non-nil option is kept as given, and neither resolved option is nil |
| FastStatistics.PackedMustBeBoolean | ext/fast_statistics/fast_statistics.cpp:133-137 | a `packed:` that is neither true nor false always makes the checks raise; once the arrays and `dtype` pass `Check_Type`, the error is the boolean check's |
| FastStatistics.ExactlyOneVariant | ext/fast_statistics/fast_statistics.cpp:146-160 | `:float` and `:double` each select one storage type per `packed:`, different options select different types, every type is reachable, and any other symbol raises |
| FastStatistics.Array2D.constructor | ext/fast_statistics/fast_statistics.cpp:165-171 | a fresh instance has no instance variables and no matrix |
| FastStatistics.Array2D.Initialize | ext/fast_statistics/fast_statistics.cpp:118-163 | the argument checks run first and change nothing when they raise; `@dtype` and `@packed` are set before an unknown dtype raises; a short inner array raises; on success the matrix holds the input's columns |
| FastStatistics.Array2D.DescriptiveStatistics | ext/fast_statistics/fast_statistics.cpp:173-205 | with a known `@dtype`, it returns the hash of each original column, records each column's statistics in the matrix's record array, and leaves every column sorted, whatever `@packed` is; an unknown `@dtype` raises TypeError and leaves the matrix and its cells unchanged |
| FastStatistics.Init | ext/fast_statistics/fast_statistics.cpp:207-254 | the module functions are bound by the same table as the C extension's (`RubyArrays.InitBindings`): with SSE, the default and `_float64` names bind the double packed driver, `_float32` the float one and `_unpacked` the scalar one; without SSE every statistics name binds the scalar driver; `simd_enabled?` reports the build; `Array2D` gets `initialize` (arity -1) and `descriptive_statistics` (arity 0) |

## Where the engines differ

The model follows the code in each of these cases. The last two bullets
concern `Array2D`: a comment the code does not follow, and its dispatch.

- **The C drivers reject a single row.** With one row, every field should
  be the sole value and the standard deviation 0
  (`Statistics.SingleRowRecord`). The C++ packed engine gives that: its
  read after the floored rank goes through `safe_entry`, which gives 0 for
  row 1 (`Matrix.DFloat.DescriptiveStatisticsSimd`). The C++ scalar engine,
  which `descriptive_statistics_unpacked` and every `Array2D` use, reads
  `col[1]` directly. That is the next column's first cell, or, for the last
  column, one cell past the buffer, which is undefined behaviour; the model
  gives that cell the value 0 (see `Matrix.DFloat.Percentile` under
  "Left out"). The interpolation weight is 0, so over exact reals the
  scalar record is also the sole value. The C drivers reject a single row
  outright: every quartile reads the cell after the floored rank, which is
  past the end of a one-row array and so `nil`, and `NUM2DBL(nil)` raises
  TypeError (`RubyArrays.SingleRowPercentileRaises`,
  `RubyArrays.QuartileReadsNeedRows`). Both C drivers therefore succeed only
  with two rows or more.
- **The drivers treat ragged input differently.** The C++ constructor raises
  only for an inner array shorter than the first, and ignores cells past
  `rows`. The C drivers
  sort the whole of every inner array and then read its first `rows`
  elements, so a longer array can report values the C++ engines never read
  (`FastStatistics.EnginesDisagreeOnLongerColumn`).
- **The default dtype.** The comment above `cArray2D_initialize` gives
  `dtype: :float` as the default. The code falls back to `:double`
  (`FastStatistics.ResolveDefaults`).
- **`Array2D#descriptive_statistics` never runs the packed engine.** All four
  storage types are dispatched to the scalar `descriptive_statistics`, even
  with `packed: true`. The model does the same. The result is identical,
  because both engines give every column its record
  (`Matrix.DFloat.DescriptiveStatistics`, `Matrix.DFloat.DescriptiveStatisticsSimd`).

## Left out

- Square roots are not modelled. The `Stats` field `variance` holds the
  population variance. The source stores its square root as
  `standard_deviation`, and `Hashes.ResultHash` puts the variance under that
  key.
- Floating-point rounding, NaN/infinity, the `float`/`double` casts and
  `DBL2NUM` are not modelled. Values are exact reals, so the float32 and
  float64 variants differ only in lane width. Float rounding can make a
  computed rank fall on the other side of a whole number; that is not
  captured.
- The Ruby C API boundary is not modelled: `Check_Type` on a non-Array
  argument, elements that are not Floats, and `rb_scan_args` edge cases. The
  model's inputs are arrays of arrays of reals. The only nil read it models is
  a read past the end of an inner array.
- Memory management is not modelled: `malloc`/`free`, `delete`,
  `free_wrapped_array`, `wrapped_array_size`, the `TypedData` wrapper, GC, and
  the destructor's log line.
- An empty outer array is not modelled: every driver then reads the first
  inner array's length from a missing element (undefined behaviour), so all
  drivers require at least one column. A first inner array with no elements
  is not modelled for the `DFloat` engines alone: they read
  `col[rows - 1] = col[-1]` from the buffer (undefined behaviour), so the
  C++ drivers and the `DFloat` engines require at least one row. The C drivers
  handle that case: `rb_ary_entry` gives `nil` for the row they read, and
  `NUM2DBL(nil)` raises TypeError. The model covers it, as `Readable` needs
  two rows (`RubyArrays.DescriptiveStatisticsPacked`,
  `RubyArrays.DescriptiveStatisticsUnpacked`).
- RubyArrays.RubyArrayPercentile requires `pct != 1.0`. Its `pct == 1.0` branch
  returns the Ruby `VALUE` itself as a `double`, and the drivers never take
  it: they pass only 0.25, 0.5 and 0.75.
- RubyArrays.DescriptiveStatisticsUnpacked requires that the driver never
  reaches an inner array that is shorter than the first but longer than the
  quartile reads reach (`Reach(rows)`). For such an array the quartiles
  succeed and `ruby_array_sum` then applies `RFLOAT_VALUE` to `nil`, which is
  undefined behaviour rather than an exception.
- FastStatistics.Array2D.DescriptiveStatistics requires a built matrix with
  at least one row whenever `@dtype` is known. After an `initialize` whose
  cell copy raised, the source leaves a partly built `DFloat` in the wrapped
  memory; the model does not represent that object.
- Matrix.DFloat.Percentile: with one row the scalar engine reads `col[1]`.
  For the last column that cell is one past the `cols * rows` buffer, which
  is undefined behaviour. The model reads 0 there instead. Its weight in the
  interpolation is 0, so the result is unaffected over exact reals, but the
  model does not capture whatever the source reads or the NaN that a
  non-finite garbage value would produce. The same substitution is behind
  the one-row results of Matrix.DFloat.DescriptiveStatistics,
  FastStatistics.DescriptiveStatisticsUnpacked and
  FastStatistics.Array2D.DescriptiveStatistics.
- RubyArrays.SortArrays, RubyArrays.DescriptiveStatisticsPacked and
  RubyArrays.DescriptiveStatisticsUnpacked do not model aliasing between
  inner arrays. Each slot of the outer array is modelled as its own value,
  while in Ruby two slots can hold the same Array object (`[x, short, x]`).
  On the error path the source has then also sorted the later alias, but the
  model's final state leaves every column after the last one processed
  unchanged. On the success path the results are the same, because sorting
  a sorted array changes nothing (`Sorting.SortIdempotent`).
- Matrix.DFloat.constructor requires every inner array to be at least as long
  as the first. The raising path of that constructor is modelled separately,
  by FastStatistics.ConvertCells.
- `simd_enabled` / `simd_disabled` appear only as the `SimdFlag` binding in
  the `Init` tables. The choice of build (`HAVE_XMMINTRIN_H`) is a parameter.
- The SSE intrinsics are modelled lane by lane; their register layout in
  memory (`MM_GET_INDEX_*`) is taken to be lane order.
