/**
 * `DFloat`: the column-major matrix of the C++ extension and its two engines,
 * the scalar `descriptive_statistics` and the lane-packed
 * `descriptive_statistics_simd`. Element values are exact reals, so the
 * float32/float64 instantiations differ only in their lane width `w`
 * (4 for `Packed32`, 2 for `Packed64`).
 */
module Matrix {
  import opened Sorting
  import opened Statistics
  import opened Layout
  import opened Lanes

  function Min(a: nat, b: nat): nat {
    if a < b then a else b
  }

  /** Adding one more element to a left-to-right total. */
  lemma SumStep(s: seq<real>, k: nat)
    requires k < |s|
    ensures Sum(s[..k + 1]) == Sum(s[..k]) + s[k]
  {
    assert s[..k + 1][..k] == s[..k];
  }

  /** Adding one more squared deviation to the variance accumulator. */
  lemma VarianceSumStep(s: seq<real>, k: nat, mean: real, n: real)
    requires k < |s| && n != 0.0
    ensures VarianceSum(s[..k + 1], mean, n) ==
            VarianceSum(s[..k], mean, n) + (s[k] - mean) * (s[k] - mean) / n
  {
    assert s[..k + 1][..k] == s[..k];
  }

  /** The accumulator after one more cell at deviation `d` from the mean, for a current total `acc`. */
  lemma VarianceDeviationNext(s: seq<real>, k: nat, mean: real, n: real, acc: real, d: real)
    requires k < |s| && n != 0.0 && acc == VarianceSum(s[..k], mean, n) && d == s[k] - mean
    ensures acc + d * d / n == VarianceSum(s[..k + 1], mean, n)
  {
    VarianceSumStep(s, k, mean, n);
  }

  /** The accumulator after one more cell, for a current total `acc`. */
  lemma VarianceSumNext(s: seq<real>, k: nat, mean: real, n: real, acc: real, v: real)
    requires k < |s| && n != 0.0 && acc == VarianceSum(s[..k], mean, n) && v == s[k]
    ensures acc + (v - mean) * (v - mean) / n == VarianceSum(s[..k + 1], mean, n)
  {
    VarianceSumStep(s, k, mean, n);
  }

  /** One pass of the packed sum loop: lane `i` totals one more row of its column. */
  lemma SumLanesStep(lanes: seq<seq<real>>, row: nat, sums: Vec, packed: Vec)
    requires |lanes| == |sums| == |packed|
    requires forall i :: 0 <= i < |lanes| ==> row < |lanes[i]|
    requires forall i :: 0 <= i < |lanes| ==> sums[i] == Sum(lanes[i][..row])
    requires forall i :: 0 <= i < |lanes| ==> packed[i] == lanes[i][row]
    ensures forall i :: 0 <= i < |lanes| ==> Add(sums, packed)[i] == Sum(lanes[i][..row + 1])
  {
    forall i | 0 <= i < |lanes|
      ensures Add(sums, packed)[i] == Sum(lanes[i][..row + 1])
    {
      SumStep(lanes[i], row);
    }
  }

  /** A prefix as long as the lane is the whole lane. */
  lemma WholePrefixes(lanes: seq<seq<real>>, n: nat)
    requires forall i :: 0 <= i < |lanes| ==> |lanes[i]| == n
    ensures forall i :: 0 <= i < |lanes| ==> lanes[i][..n] == lanes[i]
  {
  }

  /**
   * One pass of the packed variance loop: lane `i` of the new accumulator is
   * lane `i`'s column accumulated one row further.
   */
  lemma VarianceLanesStep(lanes: seq<seq<real>>, row: nat, means: Vec, n: real,
                          variances: Vec, packed: Vec, lengths: Vec)
    requires |lanes| == |means| == |variances| == |packed| == |lengths| && n != 0.0
    requires forall i :: 0 <= i < |lanes| ==> row < |lanes[i]|
    requires forall i :: 0 <= i < |lanes| ==> variances[i] == VarianceSum(lanes[i][..row], means[i], n)
    requires forall i :: 0 <= i < |lanes| ==> packed[i] == lanes[i][row]
    requires forall i :: 0 <= i < |lanes| ==> lengths[i] == n
    ensures forall i :: 0 <= i < |lanes| ==>
      Add(variances, Div(Mul(Sub(packed, means), Sub(packed, means)), lengths))[i]
        == VarianceSum(lanes[i][..row + 1], means[i], n)
  {
    var q := Div(Mul(Sub(packed, means), Sub(packed, means)), lengths);
    forall i | 0 <= i < |lanes|
      ensures Add(variances, q)[i] == VarianceSum(lanes[i][..row + 1], means[i], n)
    {
      LaneSquaredDeviation(packed, means, lengths, i);
      VarianceSumNext(lanes[i], row, means[i], n, variances[i], packed[i]);
    }
  }

  /**
   * The write log after group `k` (starting at `col == w * k`): entries
   * before the group keep their (group, slot) and each new entry `c` has
   * group `w * (c / w)` and slot `c % w`.
   */
  lemma GroupLog(previous: seq<(nat, nat)>, written: seq<(nat, nat)>, col: nat, w: nat, k: nat)
    requires w >= 1 && col == w * k && |previous| == col <= |written| <= col + w
    requires forall c :: 0 <= c < col ==> previous[c] == (w * (c / w), c % w)
    requires written[..col] == previous
    requires forall c :: col <= c < |written| ==> written[c] == (col, c - col)
    ensures forall c :: 0 <= c < |written| ==> written[c] == (w * (c / w), c % w)
  {
    forall c | 0 <= c < |written|
      ensures written[c] == (w * (c / w), c % w)
    {
      if c < col {
        assert written[c] == written[..col][c];
      } else {
        GroupOfColumn(c, w, k, c - col);
      }
    }
  }

  /** A lane of zeros around a zero mean accumulates no variance. */
  lemma {:induction false} VarianceSumOfZeros(s: seq<real>, n: real)
    requires n != 0.0 && forall i :: 0 <= i < |s| ==> s[i] == 0.0
    ensures VarianceSum(s, 0.0, n) == 0.0
  {
    if s != [] {
      VarianceSumOfZeros(s[..|s| - 1], n);
    }
  }

  /** Copies `cells` over `buffer` from offset `base`; no other cell changes. */
  method WriteCells(buffer: array<real>, base: nat, cells: seq<real>)
    requires base + |cells| <= buffer.Length
    modifies buffer
    ensures buffer[..] == old(buffer[..])[..base] + cells + old(buffer[..])[base + |cells|..]
  {
    ghost var before := buffer[..];
    var i: nat := 0;
    while i < |cells|
      invariant i <= |cells|
      invariant forall k :: 0 <= k < buffer.Length ==>
        buffer[k] == if base <= k < base + i then cells[k - base] else before[k]
    {
      buffer[base + i] := cells[i];
      i := i + 1;
    }
    Spliced(before, buffer[..], base, cells);
  }

  class DFloat {
    const cols: nat
    const rows: nat
    /** `entries[col * rows + row]`: column-major cells. */
    const entries: array<real>
    /** The record array of the last statistics call; null before one. */
    var stats: array?<Stats>

    ghost predicate Valid() {
      entries.Length == Base(cols, rows)
    }

    /**
     * `base_ptr(col)`: the offset of column `col` (`col * rows`, by
     * `BaseIsProduct`), whose cells lie within the buffer.
     */
    function BasePtr(col: nat): (p: nat)
      requires col < cols
      ensures p + rows <= Base(cols, rows)
      ensures p == Base(col, rows)
    {
      ColumnInBuffer(col, cols, rows);
      Base(col, rows)
    }

    /** The `rows` cells of column `col`. */
    function Column(col: nat): (c: seq<real>)
      reads entries
      requires Valid() && col < cols
      ensures |c| == rows
    {
      ColumnOf(entries[..], cols, rows, col)
    }

    /** What a lane reads for column `c`: the column, or zeros past the last column. */
    ghost function LaneColumn(c: nat): (lane: seq<real>)
      reads entries
      requires Valid()
      ensures |lane| == rows
    {
      if c < cols then Column(c) else seq(rows, _ => 0.0)
    }

    /** The columns read by the `w` lanes of the group starting at `start`. */
    ghost function LaneColumns(start: nat, w: nat): (lanes: seq<seq<real>>)
      reads entries
      requires Valid()
      ensures |lanes| == w
      ensures forall i :: 0 <= i < w ==> lanes[i] == LaneColumn(start + i)
    {
      if w == 0 then [] else LaneColumns(start, w - 1) + [LaneColumn(start + w - 1)]
    }

    /** All columns, in order. */
    ghost function Columns(): (cs: seq<seq<real>>)
      reads entries
      requires Valid()
      ensures |cs| == cols && forall c :: 0 <= c < cols ==> cs[c] == Column(c)
    {
      var cs := LaneColumns(0, cols);
      assert forall c :: 0 <= c < cols ==> cs[c] == LaneColumn(c);
      cs
    }

    /** Lane `i` of `pack(start, row)` is row `row` of lane `i`'s column. */
    lemma PackLanes(start: nat, row: nat, w: nat, lanes: seq<seq<real>>)
      requires Valid() && (w == 2 || w == 4) && row < rows && lanes == LaneColumns(start, w)
      ensures forall i :: 0 <= i < w ==> Pack(start, row, w)[i] == lanes[i][row]
    {
      forall i | 0 <= i < w
        ensures Pack(start, row, w)[i] == lanes[i][row]
      {
        PackLane(start, row, w, i);
      }
    }

    lemma PackLane(start: nat, row: nat, w: nat, i: nat)
      requires Valid() && (w == 2 || w == 4) && row < rows && i < w
      ensures Pack(start, row, w)[i] == LaneColumn(start + i)[row]
    {
      SafeEntryCell(start + i, row);
    }

    /**
     * `DFloat(VALUE arrays)`: `cols` is the number of input columns, `rows` the
     * length of the first, and cell `j * rows + i` holds `input[j][i]`, so each
     * input array becomes one column. A shorter column makes `NUM2DBL(nil)`
     * raise before this is reached (see `FastStatistics.CheckShape`).
     */
    constructor (input: seq<seq<real>>)
      requires |input| >= 1
      requires forall j :: 0 <= j < |input| ==> |input[j]| >= |input[0]|
      ensures cols == |input| && rows == |input[0]| && Valid()
      ensures fresh(entries) && stats == null
      ensures forall j :: 0 <= j < cols ==> Column(j) == input[j][..rows]
    {
      var width, height := |input|, |input[0]|;
      var cells := new real[CellCount(width, height)];
      var j: nat := 0;
      while j < width
        invariant j <= width
        invariant forall j' :: 0 <= j' < j ==> ColumnOf(cells[..], width, height, j') == input[j'][..height]
      {
        ghost var before := cells[..];
        ColumnInBuffer(j, width, height);
        WriteCells(cells, Base(j, height), input[j][..height]);
        WithColumnColumns(before, width, height, j, input[j][..height]);
        j := j + 1;
      }
      cols, rows, entries, stats := width, height, cells, null;
    }

    /** `safe_entry(col, row)`. */
    function SafeEntry(col: nat, row: nat): (v: real)
      reads entries
      requires Valid()
      ensures col < cols && row < rows ==> v == Column(col)[row]
      ensures !(col < cols && row < rows) ==> v == 0.0
    {
      if col < cols && row < rows then entries[BasePtr(col) + row] else 0.0
    }

    /**
     * `safe_entry` is the stored cell inside the matrix and 0 outside it;
     * within the rows it is the cell of the lane's column.
     */
    lemma SafeEntryCell(col: nat, row: nat)
      requires Valid()
      ensures col < cols && row < rows ==> SafeEntry(col, row) == Column(col)[row]
      ensures !(col < cols && row < rows) ==> SafeEntry(col, row) == 0.0
      ensures row < rows ==> SafeEntry(col, row) == LaneColumn(col)[row]
    {
    }

    /**
     * `sort(col)` (`std::sort` over the column's cells): the column becomes
     * its ascending permutation and every other cell keeps its value.
     */
    method Sort(col: nat)
      requires Valid() && col < cols
      modifies entries
      ensures Sorted(Column(col)) && multiset(Column(col)) == multiset(old(Column(col)))
      ensures Column(col) == SortSeq(old(Column(col)))
      ensures forall c :: 0 <= c < cols && c != col ==> Column(c) == old(Column(c))
    {
      var base := BasePtr(col);
      assert entries[base..base + rows] == Column(col);
      var sorted := SortSeq(entries[base..base + rows]);
      ghost var before := entries[..];
      WriteCells(entries, base, sorted);
      WithColumnColumns(before, cols, rows, col, sorted);
    }

    /**
     * `sort_columns(start_col, pack_size)`: sorts exactly the columns
     * `start_col .. start_col + pack_size - 1` that exist; others are untouched.
     */
    method SortColumns(start: nat, w: nat)
      requires Valid()
      modifies entries
      ensures forall c :: 0 <= c < cols ==>
        Column(c) == if start <= c < start + w then SortSeq(old(Column(c))) else old(Column(c))
    {
      var i := 0;
      while i < w
        invariant 0 <= i <= w
        invariant forall c :: 0 <= c < cols ==>
          Column(c) == if start <= c < start + i then SortSeq(old(Column(c))) else old(Column(c))
      {
        if start + i < cols {
          Sort(start + i);
        }
        i := i + 1;
      }
    }

    /**
     * `percentile(col, pct)`. For one row the upper read `col[1]` is the next
     * column's first cell (past the buffer for the last column, modelled as 0);
     * either way the result is the column's rank/percentile value.
     */
    function Percentile(col: nat, pct: real): (p: real)
      reads entries
      requires Valid() && col < cols && rows >= 1 && 0.0 <= pct <= 1.0
      ensures p == PercentileOf(Column(col), pct, 0.0)
    {
      var base := BasePtr(col);
      if pct == 1.0 then entries[base + rows - 1]
      else
        FloorRankBounds(pct, rows);
        var rank := pct * ((rows - 1) as real);
        var flooredRank := rank.Floor;
        var lower := entries[base + flooredRank];
        var upperIndex := base + flooredRank + 1;
        var upper := if upperIndex < entries.Length then entries[upperIndex] else 0.0;
        PercentileFromCells(Column(col), pct, lower, upper);
        Interpolate(lower, upper, rank - flooredRank as real)
    }

    /** `sum(col)`: the left-to-right total of the column. */
    method Sum(col: nat) returns (total: real)
      requires Valid() && col < cols
      ensures total == Statistics.Sum(Column(col))
    {
      var base := BasePtr(col);
      total := 0.0;
      var row: nat := 0;
      while row < rows
        invariant row <= rows
        invariant total == Statistics.Sum(Column(col)[..row])
      {
        SumStep(Column(col), row);
        total := total + entries[base + row];
        row := row + 1;
      }
      assert Column(col)[..rows] == Column(col);
    }

    /**
     * `standard_deviation(col, mean)` before its final `sqrt`: the running
     * total of `(x - mean)^2 / rows` over the column.
     */
    method Variance(col: nat, mean: real) returns (variance: real)
      requires Valid() && col < cols && rows >= 1
      ensures variance == VarianceSum(Column(col), mean, rows as real)
    {
      var base := BasePtr(col);
      ghost var column := Column(col);
      var n := rows as real;
      variance := 0.0;
      var i: nat := 0;
      while i < rows
        invariant i <= rows
        invariant variance == VarianceSum(column[..i], mean, n)
      {
        var value := entries[base + i];
        VarianceSumNext(column, i, mean, n, variance, value);
        variance := variance + (value - mean) * (value - mean) / n;
        i := i + 1;
      }
      assert column[..rows] == column;
    }

    /**
     * One iteration of `descriptive_statistics()`: sorts column `col`, reads
     * its record off the sorted cells and stores it at `stats[col]`.
     */
    method ColumnStatistics(result: array<Stats>, col: nat, ghost before: seq<seq<real>>)
      requires Valid() && col < cols && rows >= 1 && result.Length == cols
      requires |before| == cols && Column(col) == before[col]
      modifies entries, result
      ensures Column(col) == SortSeq(before[col]) && result[col] == StatsOf(before[col])
      ensures forall c :: 0 <= c < cols && c != col ==> Column(c) == old(Column(c)) && result[c] == old(result[c])
    {
      Sort(col);
      var record := SortedColumnRecord(col);
      result[col] := record;
    }

    /** The record read off column `col` once it is sorted. */
    method SortedColumnRecord(col: nat) returns (record: Stats)
      requires Valid() && col < cols && rows >= 1
      ensures record == ColumnStats(Column(col))
    {
      var base := BasePtr(col);
      ghost var sorted := Column(col);
      var min := entries[base];
      var max := entries[base + rows - 1];
      var median := Percentile(col, 0.5);
      var q1 := Percentile(col, 0.25);
      var q3 := Percentile(col, 0.75);
      var total := Sum(col);
      var mean := total / (rows as real);
      var variance := Variance(col, mean);
      record := Stats(min, max, mean, median, q1, q3, variance);
      assert min == sorted[0] && max == sorted[rows - 1];
      ColumnStatsFields(sorted, record);
    }

    /**
     * `descriptive_statistics()`: sorts every column in place and records, per
     * column in order, its ends, mean, quartiles and population variance.
     */
    method DescriptiveStatistics() returns (result: array<Stats>)
      requires Valid() && rows >= 1
      modifies this, entries
      ensures stats == result && fresh(result) && result.Length == cols
      ensures forall c :: 0 <= c < cols ==> Column(c) == SortSeq(old(Column(c)))
      ensures forall c :: 0 <= c < cols ==> result[c] == StatsOf(old(Column(c)))
    {
      ghost var before := Columns();
      result := new Stats[cols](_ => ZeroStats);
      stats := result;
      var col: nat := 0;
      while col < cols
        invariant stats == result
        invariant forall c :: 0 <= c < cols && c < col ==> Column(c) == SortSeq(before[c]) && result[c] == StatsOf(before[c])
        invariant forall c :: col <= c < cols ==> Column(c) == before[c]
      {
        ColumnStatistics(result, col, before);
        col := col + 1;
      }
    }

    /**
     * `pack(start_col, row)`: one register holding row `row` of the `w`
     * columns from `start_col`, lane `i` from column `start_col + i` (through
     * `safe_entry`, so lanes past the last column hold 0).
     */
    function Pack(start: nat, row: nat, w: nat): (v: Vec)
      reads entries
      requires Valid() && (w == 2 || w == 4)
      ensures |v| == w
      ensures forall i :: 0 <= i < w ==> v[i] == SafeEntry(start + i, row)
    {
      if w == 2 then SetPd(SafeEntry(start + 1, row), SafeEntry(start + 0, row))
      else SetPs(SafeEntry(start + 3, row), SafeEntry(start + 2, row),
                 SafeEntry(start + 1, row), SafeEntry(start + 0, row))
    }

    /**
     * `percentile_packed(start_col, pct)`: the rank rule of `percentile`
     * applied lane-wise. A real column's lane is that column's percentile; a
     * lane past the last column is 0.
     */
    function PercentilePacked(start: nat, pct: real, w: nat): (v: Vec)
      reads entries
      requires Valid() && rows >= 1 && (w == 2 || w == 4) && 0.0 <= pct <= 1.0
      ensures |v| == w
      ensures forall i :: 0 <= i < w ==>
        v[i] == if start + i < cols then PercentileOf(Column(start + i), pct, 0.0) else 0.0
    {
      if pct == 1.0 then Pack(start, rows - 1, w)
      else
        FloorRankBounds(pct, rows);
        var rank := pct * ((rows - 1) as real);
        var flooredRank := rank.Floor;
        var lower := Pack(start, flooredRank, w);
        var upper := Pack(start, flooredRank + 1, w);
        var upperMinusLower := Sub(upper, lower);
        var rankMinusFlooredRank := Sub(Splat(rank, w), Splat(flooredRank as real, w));
        var v := Add(lower, Mul(upperMinusLower, rankMinusFlooredRank));
        InterpolatedLanes(start, pct, w, flooredRank, lower, upper, v);
        v
    }

    /** Each lane of the packed interpolation is its own column's percentile. */
    lemma InterpolatedLanes(start: nat, pct: real, w: nat, flooredRank: nat, lower: Vec, upper: Vec, v: Vec)
      requires Valid() && rows >= 1 && (w == 2 || w == 4) && 0.0 <= pct < 1.0
      requires flooredRank == Rank(pct, rows).Floor
      requires lower == Pack(start, flooredRank, w) && upper == Pack(start, flooredRank + 1, w)
      requires v == Add(lower, Mul(Sub(upper, lower), Sub(Splat(Rank(pct, rows), w), Splat(flooredRank as real, w))))
      ensures forall i :: 0 <= i < w ==>
        v[i] == if start + i < cols then PercentileOf(Column(start + i), pct, 0.0) else 0.0
    {
      PackedInterpolation(start, w, flooredRank, Rank(pct, rows), v);
      forall i | 0 <= i < w
        ensures v[i] == if start + i < cols then PercentileOf(Column(start + i), pct, 0.0) else 0.0
      {
        InterpolatedColumn(start + i, pct, flooredRank);
      }
    }

    /** Lane `i` of the packed interpolation between rows `lo` and `lo + 1`. */
    lemma PackedInterpolation(start: nat, w: nat, lo: nat, rank: real, v: Vec)
      requires Valid() && (w == 2 || w == 4)
      requires v == Add(Pack(start, lo, w), Mul(Sub(Pack(start, lo + 1, w), Pack(start, lo, w)),
                                               Sub(Splat(rank, w), Splat(lo as real, w))))
      ensures forall i :: 0 <= i < w ==>
        v[i] == Interpolate(SafeEntry(start + i, lo), SafeEntry(start + i, lo + 1), rank - lo as real)
    {
      forall i | 0 <= i < w
        ensures v[i] == Interpolate(SafeEntry(start + i, lo), SafeEntry(start + i, lo + 1), rank - lo as real)
      {
        LaneInterpolation(Pack(start, lo, w), Pack(start, lo + 1, w), rank, lo as real, v, i,
                          SafeEntry(start + i, lo), SafeEntry(start + i, lo + 1));
      }
    }

    /** The interpolation of one column's `safe_entry` reads is its percentile. */
    lemma InterpolatedColumn(c: nat, pct: real, flooredRank: nat)
      requires Valid() && rows >= 1 && 0.0 <= pct < 1.0
      requires flooredRank == Rank(pct, rows).Floor
      ensures Interpolate(SafeEntry(c, flooredRank), SafeEntry(c, flooredRank + 1), Rank(pct, rows) - flooredRank as real)
              == if c < cols then PercentileOf(Column(c), pct, 0.0) else 0.0
    {
      FloorRankBounds(pct, rows);
      SafeEntryCell(c, flooredRank);
      SafeEntryCell(c, flooredRank + 1);
    }

    /** The sum loop of one lane group: lane `i` totals its own column. */
    method PackedSums(start: nat, w: nat) returns (sums: Vec)
      requires Valid() && (w == 2 || w == 4)
      ensures |sums| == w
      ensures forall i :: 0 <= i < w ==> sums[i] == Statistics.Sum(LaneColumns(start, w)[i])
    {
      ghost var lanes := LaneColumns(start, w);
      sums := Splat(0.0, w);
      var row: nat := 0;
      while row < rows
        invariant row <= rows && |sums| == w
        invariant forall i :: 0 <= i < w ==> sums[i] == Statistics.Sum(lanes[i][..row])
      {
        var packed := Pack(start, row, w);
        PackLanes(start, row, w, lanes);
        SumLanesStep(lanes, row, sums, packed);
        sums := Add(sums, packed);
        row := row + 1;
      }
      WholePrefixes(lanes, rows);
    }

    /**
     * The variance loop of one lane group: lane `i` accumulates the squared
     * deviations of its own column from `means[i]`, each divided by `rows`.
     */
    method PackedVariances(start: nat, w: nat, means: Vec) returns (variances: Vec)
      requires Valid() && rows >= 1 && (w == 2 || w == 4) && |means| == w
      ensures |variances| == w
      ensures forall i :: 0 <= i < w ==>
        variances[i] == VarianceSum(LaneColumns(start, w)[i], means[i], rows as real)
    {
      ghost var lanes := LaneColumns(start, w);
      var n := rows as real;
      var lengths := Splat(n, w);
      variances := Splat(0.0, w);
      var row: nat := 0;
      while row < rows
        invariant row <= rows && |variances| == w
        invariant forall i :: 0 <= i < w ==> variances[i] == VarianceSum(lanes[i][..row], means[i], n)
      {
        var packed := Pack(start, row, w);
        PackLanes(start, row, w, lanes);
        VarianceLanesStep(lanes, row, means, n, variances, packed, lengths);
        var deviation := Sub(packed, means);
        var sqrDeviation := Mul(deviation, deviation);
        variances := Add(variances, Div(sqrDeviation, lengths));
        row := row + 1;
      }
      WholePrefixes(lanes, rows);
    }

    /**
     * The register work of one lane group of `descriptive_statistics_simd`
     * on already sorted columns: ends, sums, means, quartiles and variances,
     * each lane computed from its own column only. A lane of a real column
     * holds that column's record; a padding lane holds zeros.
     */
    method PackedStatistics(start: nat, w: nat) returns (p: PackedStats)
      requires Valid() && rows >= 1 && (w == 2 || w == 4)
      ensures p.Width(w)
      ensures forall i :: 0 <= i < w && start + i < cols ==> p.Slot(i) == ColumnStats(Column(start + i))
      ensures forall i :: 0 <= i < w && cols <= start + i ==> p.Slot(i) == ZeroStats
    {
      ghost var lanes := LaneColumns(start, w);
      var lengths := Splat(rows as real, w);
      var mins := Pack(start, 0, w);
      var maxes := Pack(start, rows - 1, w);
      var sums := PackedSums(start, w);
      var means := Div(sums, lengths);
      var medians := PercentilePacked(start, 0.5, w);
      var q1s := PercentilePacked(start, 0.25, w);
      var q3s := PercentilePacked(start, 0.75, w);
      var variances := PackedVariances(start, w, means);
      p := PackedStats(mins, maxes, means, medians, q1s, q3s, variances);
      RealLaneRecords(start, w, sums, p);
      PaddingLaneRecords(start, w, sums, p);
    }

    /** What the registers of one lane group hold once its loops are done. */
    ghost predicate GroupRegisters(start: nat, w: nat, sums: Vec, p: PackedStats)
      reads entries
      requires Valid() && rows >= 1 && (w == 2 || w == 4)
    {
      var lanes := LaneColumns(start, w);
      && p.Width(w) && |sums| == w
      && p.mins == Pack(start, 0, w) && p.maxes == Pack(start, rows - 1, w)
      && (forall i :: 0 <= i < w ==> sums[i] == Statistics.Sum(lanes[i]))
      && p.means == Div(sums, Splat(rows as real, w))
      && p.medians == PercentilePacked(start, 0.5, w)
      && p.q1s == PercentilePacked(start, 0.25, w)
      && p.q3s == PercentilePacked(start, 0.75, w)
      && (forall i :: 0 <= i < w ==> p.variances[i] == VarianceSum(lanes[i], p.means[i], rows as real))
    }

    /** A lane of a real column holds that column's record. */
    lemma RealLaneRecords(start: nat, w: nat, sums: Vec, p: PackedStats)
      requires Valid() && rows >= 1 && (w == 2 || w == 4) && GroupRegisters(start, w, sums, p)
      ensures forall i :: 0 <= i < w && start + i < cols ==> p.Slot(i) == ColumnStats(Column(start + i))
    {
      forall i | 0 <= i < w && start + i < cols
        ensures p.Slot(i) == ColumnStats(Column(start + i))
      {
        RealLaneRecord(start, w, sums, p, i);
      }
    }

    lemma RealLaneRecord(start: nat, w: nat, sums: Vec, p: PackedStats, i: nat)
      requires Valid() && rows >= 1 && (w == 2 || w == 4) && GroupRegisters(start, w, sums, p)
      requires i < w && start + i < cols
      ensures p.Slot(i) == ColumnStats(Column(start + i))
    {
      var column := Column(start + i);
      assert LaneColumns(start, w)[i] == column;
      PackCell(start, 0, w, i);
      PackCell(start, rows - 1, w, i);
      LaneQuotient(sums, rows as real, i);
      assert p.medians[i] == PercentileOf(column, 0.5, 0.0);
      assert p.q1s[i] == PercentileOf(column, 0.25, 0.0);
      assert p.q3s[i] == PercentileOf(column, 0.75, 0.0);
      assert p.variances[i] == VarianceSum(column, p.means[i], rows as real);
      ColumnStatsFields(column, p.Slot(i));
    }

    /** Lane `i` of `pack(start, row)` is row `row` of column `start + i`. */
    lemma PackCell(start: nat, row: nat, w: nat, i: nat)
      requires Valid() && (w == 2 || w == 4) && i < w && start + i < cols && row < rows
      ensures Pack(start, row, w)[i] == Column(start + i)[row]
    {
      SafeEntryCell(start + i, row);
    }

    /** A padding lane holds zeros in every register. */
    lemma PaddingLaneRecords(start: nat, w: nat, sums: Vec, p: PackedStats)
      requires Valid() && rows >= 1 && (w == 2 || w == 4) && GroupRegisters(start, w, sums, p)
      ensures forall i :: 0 <= i < w && cols <= start + i ==> p.Slot(i) == ZeroStats
    {
      var lanes := LaneColumns(start, w);
      forall i | 0 <= i < w && cols <= start + i
        ensures p.Slot(i) == ZeroStats
      {
        SumOfZeros(lanes[i]);
        assert p.means[i] == 0.0 / (rows as real) == 0.0;
        VarianceSumOfZeros(lanes[i], rows as real);
      }
    }

    /**
     * One pass of the group loop of `descriptive_statistics_simd()`: sorts the
     * group's columns, runs the lane arithmetic and stores each real lane's
     * record at its own column. `written` extends `writes` by one
     * (group start, slot) entry per record stored.
     */
    method StoreGroup(result: array<Stats>, col: nat, w: nat, ghost before: seq<seq<real>>, ghost writes: seq<(nat, nat)>)
      returns (ghost written: seq<(nat, nat)>)
      requires Valid() && rows >= 1 && (w == 2 || w == 4) && result.Length == cols && col < cols
      requires |before| == cols && forall c :: col <= c < cols ==> Column(c) == before[c]
      requires |writes| == col
      modifies entries, result
      ensures forall c :: 0 <= c < cols && col <= c < col + w ==>
        Column(c) == SortSeq(before[c]) && result[c] == StatsOf(before[c])
      ensures forall c :: 0 <= c < cols && !(col <= c < col + w) ==>
        Column(c) == old(Column(c)) && result[c] == old(result[c])
      ensures |written| == Min(col + w, cols) && written[..col] == writes
      ensures forall c :: col <= c < |written| ==> written[c] == (col, c - col)
    {
      SortColumns(col, w);
      var p := PackedStatistics(col, w);
      written := StoreSlots(result, col, w, p, writes);
      assert forall c :: col <= c < col + w && c < cols ==> p.Slot(c - col) == StatsOf(before[c]);
    }

    /**
     * The slot loop of one group: `stats[col + slot]` receives lane `slot` of
     * every register, for the slots whose column exists; every other record
     * is left alone.
     */
    method StoreSlots(result: array<Stats>, col: nat, w: nat, p: PackedStats, ghost writes: seq<(nat, nat)>)
      returns (ghost written: seq<(nat, nat)>)
      requires result.Length == cols && col < cols && p.Width(w) && |writes| == col
      modifies result
      ensures forall c :: 0 <= c < cols ==>
        result[c] == if col <= c < col + w then p.Slot(c - col) else old(result[c])
      ensures |written| == Min(col + w, cols) && written[..col] == writes
      ensures forall c :: col <= c < |written| ==> written[c] == (col, c - col)
    {
      written := writes;
      var slot := 0;
      while slot < w
        invariant 0 <= slot <= w
        invariant |written| == Min(col + slot, cols) && written[..col] == writes
        invariant forall c :: col <= c < |written| ==> written[c] == (col, c - col)
        invariant forall c :: 0 <= c < cols ==>
          result[c] == if col <= c < col + slot then p.Slot(c - col) else old(result[c])
      {
        if col + slot < cols {
          result[col + slot] := p.Slot(slot);
          written := written + [(col, slot)];
        }
        slot := slot + 1;
      }
    }

    /**
     * `descriptive_statistics_simd()`: walks the columns in groups of `w`
     * (`col = 0, w, 2w, ...`), sorts each group, and stores each real lane's
     * record at its own column. The result is the same as the scalar engine's.
     * `writes[c]` is the (group start, slot) whose lane produced `stats[c]`:
     * every column is written exactly once, by the group `w * (c / w)` at slot
     * `c % w`, and no index past the last column is written.
     */
    method DescriptiveStatisticsSimd(w: nat) returns (result: array<Stats>, ghost writes: seq<(nat, nat)>)
      requires Valid() && rows >= 1 && (w == 2 || w == 4)
      modifies this, entries
      ensures stats == result && fresh(result) && result.Length == cols
      ensures forall c :: 0 <= c < cols ==> Column(c) == SortSeq(old(Column(c)))
      ensures forall c :: 0 <= c < cols ==> result[c] == StatsOf(old(Column(c)))
      ensures |writes| == cols
      ensures forall c :: 0 <= c < cols ==> writes[c] == (w * (c / w), c % w)
    {
      ghost var before := Columns();
      result := new Stats[cols](_ => ZeroStats);
      stats := result;
      writes := [];
      var col := 0;
      ghost var k := 0;
      while col < cols
        invariant col == w * k
        invariant stats == result
        invariant |writes| == Min(col, cols)
        invariant forall c :: 0 <= c < |writes| ==> writes[c] == (w * (c / w), c % w)
        invariant forall c :: 0 <= c < cols && c < col ==> Column(c) == SortSeq(before[c]) && result[c] == StatsOf(before[c])
        invariant forall c :: col <= c < cols ==> Column(c) == before[c]
      {
        ghost var previous := writes;
        writes := StoreGroup(result, col, w, before, writes);
        GroupLog(previous, writes, col, w, k);
        col := col + w;
        k := k + 1;
      }
    }
  }
}
