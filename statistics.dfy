/**
 * The statistics the engines compute, as functions of one column: the
 * accumulations `sum` and `standard_deviation` perform (over exact reals), the
 * rank/percentile rule, and the seven-field record of one column.
 */
module Statistics {
  import opened Sorting

  /**
   * One column's result record (the source's `Stats`). The source's last field
   * is `standard_deviation`, the square root of the population variance; the
   * model keeps the variance itself, since square roots are not modelled.
   */
  datatype Stats = Stats(min: real, max: real, mean: real, median: real,
                         q1: real, q3: real, variance: real)

  /** `Stats()`: every field zero. */
  const ZeroStats := Stats(0.0, 0.0, 0.0, 0.0, 0.0, 0.0, 0.0)

  /** Left-to-right running total, as `sum += col[row]` accumulates it. */
  function Sum(s: seq<real>): real {
    if s == [] then 0.0 else Sum(s[..|s| - 1]) + s[|s| - 1]
  }

  /** Left-to-right total of `(x - mean)^2 / n`, as the variance loop accumulates it. */
  function VarianceSum(s: seq<real>, mean: real, n: real): real
    requires n != 0.0
  {
    if s == [] then 0.0
    else
      var d := s[|s| - 1] - mean;
      VarianceSum(s[..|s| - 1], mean, n) + d * d / n
  }

  /** Arithmetic mean: total divided by the number of rows. */
  function Mean(s: seq<real>): real
    requires |s| > 0
  {
    Sum(s) / (|s| as real)
  }

  /** Population variance: divisor is the number of rows, not one less. */
  function Variance(s: seq<real>): real
    requires |s| > 0
  {
    VarianceSum(s, Mean(s), |s| as real)
  }

  /** `pct * (rows - 1)`: the fractional position of a quantile in a column. */
  function Rank(pct: real, rows: nat): real {
    pct * ((rows - 1) as real)
  }

  /**
   * For a quantile below 1 the floored rank and its successor are positions of
   * the column when it has at least two rows; with one row the successor is
   * position 1, one past the column's end.
   */
  lemma FloorRankBounds(pct: real, rows: nat)
    requires 0.0 <= pct < 1.0 && rows >= 1
    ensures 0 <= Rank(pct, rows).Floor
    ensures rows >= 2 ==> Rank(pct, rows).Floor + 1 <= rows - 1
    ensures rows == 1 ==> Rank(pct, rows) == 0.0 && Rank(pct, rows).Floor == 0
  {
    var r := Rank(pct, rows);
    assert 0.0 <= r;
    if rows >= 2 {
      var m := (rows - 1) as real;
      assert m >= 1.0;
      assert r < m by {
        assert (1.0 - pct) * m > 0.0;
      }
    }
  }

  /**
   * The rank/percentile rule on an ascending column. `beyond` is whatever the
   * read one past the column returns; it is only read for a one-row column,
   * where its weight `rank - floor(rank)` is zero.
   */
  function PercentileOf(col: seq<real>, pct: real, beyond: real): real
    requires |col| >= 1 && 0.0 <= pct <= 1.0
  {
    if pct == 1.0 then col[|col| - 1]
    else
      FloorRankBounds(pct, |col|);
      var rank := Rank(pct, |col|);
      var lo := rank.Floor;
      var lower := col[lo];
      var upper := if lo + 1 < |col| then col[lo + 1] else beyond;
      Interpolate(lower, upper, rank - lo as real)
  }

  /**
   * Interpolating between the cell at the floored rank and the next read,
   * whatever that read is past a one-row column, gives the percentile.
   */
  lemma PercentileFromCells(col: seq<real>, pct: real, lower: real, upper: real)
    requires |col| >= 1 && 0.0 <= pct < 1.0
    requires 0 <= Rank(pct, |col|).Floor < |col| && lower == col[Rank(pct, |col|).Floor]
    requires Rank(pct, |col|).Floor + 1 < |col| ==> upper == col[Rank(pct, |col|).Floor + 1]
    ensures Interpolate(lower, upper, Rank(pct, |col|) - Rank(pct, |col|).Floor as real)
            == PercentileOf(col, pct, 0.0)
  {
    PercentileIgnoresBeyond(col, pct, upper, 0.0);
  }

  /** The read past a one-row column never changes the percentile. */
  lemma PercentileIgnoresBeyond(col: seq<real>, pct: real, b1: real, b2: real)
    requires |col| >= 1 && 0.0 <= pct <= 1.0
    ensures PercentileOf(col, pct, b1) == PercentileOf(col, pct, b2)
  {
    if pct < 1.0 {
      FloorRankBounds(pct, |col|);
    }
  }

  /** With one row every percentile is the sole value. */
  lemma PercentileOfSingleRow(col: seq<real>, pct: real, beyond: real)
    requires |col| == 1 && 0.0 <= pct <= 1.0
    ensures PercentileOf(col, pct, beyond) == col[0]
  {
    if pct < 1.0 {
      FloorRankBounds(pct, |col|);
    }
  }

  lemma ProductNonnegative(a: real, b: real)
    requires a >= 0.0 && b >= 0.0
    ensures a * b >= 0.0
  {
  }

  /** The point a fraction `t` of the way from `lower` to `upper`. */
  function Interpolate(lower: real, upper: real, t: real): real {
    lower + (upper - lower) * t
  }

  /** Interpolation lies between its ends for `0 <= t <= 1`. */
  lemma InterpolationBetween(lower: real, upper: real, t: real)
    requires lower <= upper && 0.0 <= t <= 1.0
    ensures lower <= Interpolate(lower, upper, t) <= upper
  {
    ProductNonnegative(upper - lower, t);
    ProductNonnegative(upper - lower, 1.0 - t);
    assert (upper - lower) * t + (upper - lower) * (1.0 - t) == upper - lower;
  }

  /**
   * On an ascending column with at least two rows and a quantile below 1, the
   * percentile lies between the elements at the floored rank and the next one.
   */
  lemma PercentileBetween(col: seq<real>, pct: real, beyond: real)
    requires Sorted(col) && |col| >= 2 && 0.0 <= pct < 1.0
    ensures var lo := Rank(pct, |col|).Floor;
      0 <= lo && lo + 1 < |col| &&
      col[lo] <= PercentileOf(col, pct, beyond) <= col[lo + 1]
  {
    FloorRankBounds(pct, |col|);
    var rank := Rank(pct, |col|);
    var lo := rank.Floor;
    InterpolationBetween(col[lo], col[lo + 1], rank - lo as real);
  }

  /** Every percentile of an ascending column lies between its ends. */
  lemma PercentileWithinColumn(col: seq<real>, pct: real, beyond: real)
    requires Sorted(col) && |col| >= 1 && 0.0 <= pct <= 1.0
    ensures col[0] <= PercentileOf(col, pct, beyond) <= col[|col| - 1]
  {
    if pct < 1.0 {
      if |col| == 1 {
        PercentileOfSingleRow(col, pct, beyond);
      } else {
        PercentileBetween(col, pct, beyond);
      }
    }
  }

  /** With ascending ends, interpolation grows with the fraction. */
  lemma InterpolationMonotone(lower: real, upper: real, t: real, u: real)
    requires lower <= upper && t <= u
    ensures Interpolate(lower, upper, t) <= Interpolate(lower, upper, u)
  {
    ProductNonnegative(upper - lower, u - t);
    assert (upper - lower) * u - (upper - lower) * t == (upper - lower) * (u - t);
  }

  /** On an ascending column the percentile grows with the quantile. */
  lemma PercentileMonotone(col: seq<real>, p: real, q: real, beyond: real)
    requires Sorted(col) && |col| >= 1 && 0.0 <= p <= q <= 1.0
    ensures PercentileOf(col, p, beyond) <= PercentileOf(col, q, beyond)
  {
    var n := |col|;
    if q == 1.0 {
      PercentileWithinColumn(col, p, beyond);
    } else if n == 1 {
      PercentileOfSingleRow(col, p, beyond);
      PercentileOfSingleRow(col, q, beyond);
    } else {
      var rp, rq := Rank(p, n), Rank(q, n);
      assert rp <= rq by {
        ProductNonnegative(q - p, (n - 1) as real);
        assert rq - rp == (q - p) * ((n - 1) as real);
      }
      var lp, lq := rp.Floor, rq.Floor;
      PercentileBetween(col, p, beyond);
      PercentileBetween(col, q, beyond);
      if lp == lq {
        InterpolationMonotone(col[lp], col[lp + 1], rp - lp as real, rq - lp as real);
      } else {
        assert lp + 1 <= lq;
        assert col[lp + 1] <= col[lq];
      }
    }
  }

  /** Quantile 0 is the first element, for any column with at least one row. */
  lemma PercentileAtZero(col: seq<real>, beyond: real)
    requires |col| >= 1
    ensures PercentileOf(col, 0.0, beyond) == col[0]
  {
    FloorRankBounds(0.0, |col|);
  }

  /** A quantile whose rank is a whole number `k` returns element `k` exactly. */
  lemma PercentileAtIntegralRank(col: seq<real>, pct: real, k: nat, beyond: real)
    requires |col| >= 1 && 0.0 <= pct <= 1.0
    requires Rank(pct, |col|) == k as real
    ensures k < |col| && PercentileOf(col, pct, beyond) == col[k]
  {
    if pct < 1.0 {
      FloorRankBounds(pct, |col|);
    } else {
      assert k as real == ((|col| - 1) as real);
    }
  }

  /** Every element within `[lo, hi]` bounds the left-to-right total. */
  lemma {:induction false} SumBounds(s: seq<real>, lo: real, hi: real)
    requires forall i :: 0 <= i < |s| ==> lo <= s[i] <= hi
    ensures (|s| as real) * lo <= Sum(s) <= (|s| as real) * hi
  {
    if s != [] {
      SumBounds(s[..|s| - 1], lo, hi);
    }
  }

  /** A total of zeros is zero: a padding lane adds nothing to its accumulator. */
  lemma {:induction false} SumOfZeros(s: seq<real>)
    requires forall i :: 0 <= i < |s| ==> s[i] == 0.0
    ensures Sum(s) == 0.0
  {
    if s != [] {
      SumOfZeros(s[..|s| - 1]);
    }
  }

  /** The accumulated squared deviations are never negative. */
  lemma {:induction false} VarianceSumNonnegative(s: seq<real>, mean: real, n: real)
    requires n > 0.0
    ensures VarianceSum(s, mean, n) >= 0.0
  {
    if s != [] {
      VarianceSumNonnegative(s[..|s| - 1], mean, n);
      var d := s[|s| - 1] - mean;
      assert d * d >= 0.0;
    }
  }

  /**
   * The record of one ascending column: ends of the column, mean, the three
   * quartiles by the rank/percentile rule, and the population variance.
   */
  function ColumnStats(sorted: seq<real>): Stats
    requires |sorted| >= 1
  {
    Stats(sorted[0], sorted[|sorted| - 1], Mean(sorted),
          PercentileOf(sorted, 0.5, 0.0), PercentileOf(sorted, 0.25, 0.0),
          PercentileOf(sorted, 0.75, 0.0), Variance(sorted))
  }

  /**
   * A record whose fields are read off an ascending column the way both
   * engines read them is that column's record.
   */
  lemma ColumnStatsFields(sorted: seq<real>, r: Stats)
    requires |sorted| >= 1
    requires r.min == sorted[0] && r.max == sorted[|sorted| - 1]
    requires r.mean == Sum(sorted) / (|sorted| as real)
    requires r.median == PercentileOf(sorted, 0.5, 0.0)
    requires r.q1 == PercentileOf(sorted, 0.25, 0.0) && r.q3 == PercentileOf(sorted, 0.75, 0.0)
    requires r.variance == VarianceSum(sorted, r.mean, |sorted| as real)
    ensures r == ColumnStats(sorted)
  {
  }

  /** The record of one input column: sort it, then summarise it. */
  function StatsOf(column: seq<real>): Stats
    requires |column| >= 1
  {
    ColumnStats(SortSeq(column))
  }

  /** A column's min and max are its least and greatest elements. */
  lemma StatsOfExtremes(column: seq<real>)
    requires |column| >= 1
    ensures var st := StatsOf(column);
      && st.min in column && st.max in column
      && (forall i :: 0 <= i < |column| ==> st.min <= column[i] <= st.max)
  {
    var s := SortSeq(column);
    SortedEnds(column);
    assert StatsOf(column).min == s[0] && StatsOf(column).max == s[|s| - 1];
  }

  /**
   * A column's record is ordered: min <= q1 <= median <= q3 <= max, the mean
   * lies between min and max, and the variance is not negative.
   */
  lemma StatsOfOrdered(column: seq<real>)
    requires |column| >= 1
    ensures var st := StatsOf(column);
      && st.min <= st.q1 <= st.median <= st.q3 <= st.max
      && st.min <= st.mean <= st.max
      && st.variance >= 0.0
  {
    var s := SortSeq(column);
    PercentileWithinColumn(s, 0.25, 0.0);
    PercentileWithinColumn(s, 0.75, 0.0);
    PercentileMonotone(s, 0.25, 0.5, 0.0);
    PercentileMonotone(s, 0.5, 0.75, 0.0);
    MeanBetween(s);
    VarianceSumNonnegative(s, Mean(s), |s| as real);
  }

  /** A single-row column: every field is the sole value and the variance is zero. */
  lemma SingleRowRecord(x: real)
    ensures StatsOf([x]) == Stats(x, x, x, x, x, x, 0.0)
  {
    ShortSortIsIdentity([x]);
    PercentileOfSingleRow([x], 0.5, 0.0);
    PercentileOfSingleRow([x], 0.25, 0.0);
    PercentileOfSingleRow([x], 0.75, 0.0);
    assert [x][..0] == [];
    assert Sum([x]) == x;
    assert Mean([x]) == x;
    assert VarianceSum([x], x, 1.0) == 0.0;
  }

  /** The mean of an ascending column lies between its first and last elements. */
  lemma MeanBetween(s: seq<real>)
    requires Sorted(s) && |s| >= 1
    ensures s[0] <= Mean(s) <= s[|s| - 1]
  {
    SumBounds(s, s[0], s[|s| - 1]);
    DivideBounds(Sum(s), |s| as real, s[0], s[|s| - 1]);
  }

  /** Dividing `n * lo <= x <= n * hi` by a positive `n`. */
  lemma DivideBounds(x: real, n: real, lo: real, hi: real)
    requires n > 0.0 && n * lo <= x <= n * hi
    ensures lo <= x / n <= hi
  {
    var q := x / n;
    assert q * n == x;
    assert n * (q - lo) == x - n * lo;
    assert n * (hi - q) == n * hi - x;
    if q < lo {
      ProductPositive(n, lo - q);
    }
    if hi < q {
      ProductPositive(n, q - hi);
    }
  }

  lemma ProductPositive(a: real, b: real)
    requires a > 0.0 && b > 0.0
    ensures a * b > 0.0
  {
  }
}
