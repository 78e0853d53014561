/**
 * The C extension's engines, which work directly on a Ruby array of Ruby
 * arrays of Floats: the lane-packed drivers `descriptive_statistics_packed_float64`
 * / `_packed_float32` and the scalar `descriptive_statistics`, plus the table
 * `Init_fast_statistics` builds.
 *
 * The outer array is an `array<seq<real>>`: the drivers sort its inner arrays
 * in place, and the caller sees that. A `VALUE` held in `current_cols` is the
 * index of the inner array it refers to, and `nil` is `None`. An element read
 * past the end of an inner array is `nil`. `NUM2DBL` then raises TypeError,
 * which is how short columns, and columns of one row, end a call.
 */
module RubyArrays {
  import opened Base
  import opened Sorting
  import opened Statistics
  import opened Lanes
  import opened Hashes
  import Matrix

  /** `NUM2DBL`: a Float converts, `nil` raises TypeError. */
  function Num2Dbl(v: Option<real>): Result<real> {
    match v
    case Some(x) => Ok(x)
    case None => Err(TypeError(NilToFloat))
  }

  /** Every non-nil slot of `current_cols` names an inner array of the outer one. */
  predicate SlotsIn(current: seq<Option<nat>>, cols: nat) {
    forall k :: 0 <= k < |current| && current[k].Some? ==> current[k].value < cols
  }

  /** `safe_array_entry_f64/f32_from_columns`: a nil slot reads 0. */
  function SafeArrayEntry(heap: seq<seq<real>>, current: seq<Option<nat>>, index: nat, row: int): (r: Result<real>)
    requires index < |current| && SlotsIn(current, |heap|)
    ensures current[index].None? ==> r == Ok(0.0)
    ensures current[index].Some? ==>
      (r.Ok? <==> -|heap[current[index].value]| <= row < |heap[current[index].value]|)
    ensures current[index].Some? && 0 <= row < |heap[current[index].value]| ==>
      r == Ok(heap[current[index].value][row])
    ensures r.Err? ==> r.error == TypeError(NilToFloat)
  {
    match current[index]
    case None => Ok(0.0)
    case Some(c) => Num2Dbl(Entry(heap[c], row))
  }

  /**
   * `pack_float64` / `pack_float32`. Slot 0 is the first argument of
   * `_mm_set_pd` / `_mm_set_ps`, and that argument goes to the highest lane,
   * so slot `k` fills lane `w - 1 - k`. The pack fails if any read fails.
   */
  function PackRow(heap: seq<seq<real>>, current: seq<Option<nat>>, row: int, w: nat): (r: Result<Vec>)
    requires (w == 2 || w == 4) && |current| == w && SlotsIn(current, |heap|)
    ensures r.Ok? <==> forall k :: 0 <= k < w ==> SafeArrayEntry(heap, current, k, row).Ok?
    ensures r.Err? ==> r.error == TypeError(NilToFloat)
    ensures r.Ok? ==> (|r.value| == w &&
      forall k :: 0 <= k < w ==> r.value[w - 1 - k] == SafeArrayEntry(heap, current, k, row).value)
  {
    if w == 2 then
      match (SafeArrayEntry(heap, current, 0, row), SafeArrayEntry(heap, current, 1, row))
      case (Ok(e1), Ok(e0)) => Ok(SetPd(e1, e0))
      case _ => Err(TypeError(NilToFloat))
    else
      match (SafeArrayEntry(heap, current, 0, row), SafeArrayEntry(heap, current, 1, row),
             SafeArrayEntry(heap, current, 2, row), SafeArrayEntry(heap, current, 3, row))
      case (Ok(e3), Ok(e2), Ok(e1), Ok(e0)) => Ok(SetPs(e3, e2, e1, e0))
      case _ => Err(TypeError(NilToFloat))
  }

  /**
   * `current_cols` once `get_next_columns(current_cols, w, base, cols, arrays)`
   * has run. Slots are filled in reverse: slot `k` holds column
   * `base + (w - 1 - k)`, or nil when that column does not exist.
   */
  predicate HoldsGroup(current: seq<Option<nat>>, base: nat, cols: nat, w: nat) {
    |current| == w &&
    forall k :: 0 <= k < w ==>
      current[k] == if base + (w - 1 - k) < cols then Some(base + (w - 1 - k)) else None
  }

  /** `get_next_columns`: fills the `w` slots of `current` for the group at `base`. */
  method GetNextColumns(current: array<Option<nat>>, w: nat, base: nat, cols: nat)
    requires current.Length == w
    modifies current
    ensures HoldsGroup(current[..], base, cols, w)
  {
    var slot: nat := 0;
    while slot < w
      invariant slot <= w
      invariant forall k :: w - slot <= k < w ==>
        current[k] == if base + (w - 1 - k) < cols then Some(base + (w - 1 - k)) else None
    {
      var index := w - slot - 1;
      if base + slot < cols {
        current[index] := Some(base + slot);
      } else {
        current[index] := None;
      }
      slot := slot + 1;
    }
  }

  /** A group's slots name exactly the existing columns `base .. base + w - 1`. */
  lemma GroupMembers(current: seq<Option<nat>>, base: nat, cols: nat, w: nat)
    requires HoldsGroup(current, base, cols, w)
    ensures SlotsIn(current, cols)
    ensures forall c :: Some(c) in current <==> base <= c < base + w && c < cols
  {
    forall c | base <= c < base + w && c < cols
      ensures Some(c) in current
    {
      var k := w - 1 - (c - base);
      assert current[k] == Some(c);
    }
  }

  /** What lane `s` of group `base` reads at `row`: column `base + s`, or 0 past the last column. */
  function LaneEntry(heap: seq<seq<real>>, base: nat, s: nat, row: int): Result<real> {
    if base + s < |heap| then Num2Dbl(Entry(heap[base + s], row)) else Ok(0.0)
  }

  /**
   * The reversed slot order and the reversed lane order cancel out: lane `s`
   * of a packed row belongs to column `base + s`, which keeps Ruby's column
   * order in the results.
   */
  lemma GroupRow(heap: seq<seq<real>>, current: seq<Option<nat>>, base: nat, w: nat, row: int)
    requires (w == 2 || w == 4) && HoldsGroup(current, base, |heap|, w)
    ensures SlotsIn(current, |heap|)
    ensures var r := PackRow(heap, current, row, w);
      && (r.Ok? <==> forall s :: 0 <= s < w ==> LaneEntry(heap, base, s, row).Ok?)
      && (r.Ok? ==> forall s :: 0 <= s < w ==> r.value[s] == LaneEntry(heap, base, s, row).value)
  {
    GroupMembers(current, base, |heap|, w);
    forall s | 0 <= s < w
      ensures SafeArrayEntry(heap, current, w - 1 - s, row) == LaneEntry(heap, base, s, row)
    {
      assert current[w - 1 - s] == if base + s < |heap| then Some(base + s) else None;
    }
    forall k | 0 <= k < w
      ensures SafeArrayEntry(heap, current, k, row) == LaneEntry(heap, base, w - 1 - k, row)
    {
      assert w - 1 - (w - 1 - k) == k;
    }
  }

  /** Every existing column of the group has at least `rows` elements. */
  predicate GroupLong(heap: seq<seq<real>>, base: nat, rows: nat, w: nat) {
    forall c :: base <= c < base + w && c < |heap| ==> rows <= |heap[c]|
  }

  /** The first `rows` elements of each lane's column; a lane past the last column is zeros. */
  function GroupLanes(heap: seq<seq<real>>, base: nat, rows: nat, w: nat): (lanes: seq<seq<real>>)
    requires GroupLong(heap, base, rows, w)
    ensures |lanes| == w && forall s :: 0 <= s < w ==> |lanes[s]| == rows
  {
    seq(w, s requires 0 <= s < w => if base + s < |heap| then heap[base + s][..rows] else seq(rows, _ => 0.0))
  }

  /** In a long group every row below `rows` packs, lane `s` holding its lane's cell. */
  lemma LongGroupRow(heap: seq<seq<real>>, current: seq<Option<nat>>, base: nat, rows: nat, w: nat, row: nat)
    requires (w == 2 || w == 4) && HoldsGroup(current, base, |heap|, w)
    requires GroupLong(heap, base, rows, w) && row < rows
    ensures SlotsIn(current, |heap|)
    ensures var r := PackRow(heap, current, row, w);
      r.Ok? && |r.value| == w && forall s :: 0 <= s < w ==> r.value[s] == GroupLanes(heap, base, rows, w)[s][row]
  {
    GroupRow(heap, current, base, w, row);
  }

  /** Lane `s` of a packed row below `rows` of a long group. */
  lemma LaneCell(heap: seq<seq<real>>, current: seq<Option<nat>>, base: nat, rows: nat, w: nat, row: nat, s: nat)
    requires (w == 2 || w == 4) && HoldsGroup(current, base, |heap|, w)
    requires GroupLong(heap, base, rows, w) && row < rows && s < w
    ensures SlotsIn(current, |heap|)
    ensures var r := PackRow(heap, current, row, w);
      r.Ok? && |r.value| == w && r.value[s] == GroupLanes(heap, base, rows, w)[s][row]
  {
    LongGroupRow(heap, current, base, rows, w, row);
  }

  /** The contrapositive the drivers use: a failed read below `rows` means a short column. */
  lemma ReadWithinLongGroup(heap: seq<seq<real>>, current: seq<Option<nat>>, base: nat, rows: nat, w: nat, row: int)
    requires (w == 2 || w == 4) && HoldsGroup(current, base, |heap|, w)
    ensures SlotsIn(current, |heap|)
    ensures GroupLong(heap, base, rows, w) && 0 <= row < rows ==> PackRow(heap, current, row, w).Ok?
  {
    GroupMembers(current, base, |heap|, w);
    if GroupLong(heap, base, rows, w) && 0 <= row < rows {
      LongGroupRow(heap, current, base, rows, w, row);
    }
  }

  /**
   * Reading row 0 and row `rows - 1` both succeed only when the group is
   * long: for the first group, column 0 has exactly `rows` elements, so this
   * also rules out an empty first column.
   */
  lemma EndsReadable(heap: seq<seq<real>>, current: seq<Option<nat>>, base: nat, rows: nat, w: nat)
    requires (w == 2 || w == 4) && HoldsGroup(current, base, |heap|, w) && base < |heap|
    requires |heap[0]| == rows && (base == 0 || rows >= 2)
    requires SlotsIn(current, |heap|)
    requires PackRow(heap, current, 0, w).Ok? && PackRow(heap, current, rows - 1, w).Ok?
    ensures rows >= 1 && GroupLong(heap, base, rows, w)
  {
    GroupRow(heap, current, base, w, 0);
    GroupRow(heap, current, base, w, rows - 1);
    assert LaneEntry(heap, base, 0, 0).Ok?;
    forall c | base <= c < base + w && c < |heap|
      ensures rows <= |heap[c]|
    {
      assert LaneEntry(heap, base, c - base, rows - 1).Ok?;
    }
  }

  /**
   * `array_percentile_packed_float64/32(current_cols, pct, length)`: the rank
   * rule applied lane-wise to the rows at the floored rank and the next one.
   */
  function ArrayPercentilePacked(heap: seq<seq<real>>, current: seq<Option<nat>>, pct: real, length: int, w: nat): (r: Result<Vec>)
    requires (w == 2 || w == 4) && |current| == w && SlotsIn(current, |heap|)
    ensures r.Err? ==> r.error == TypeError(NilToFloat)
  {
    if pct == 1.0 then PackRow(heap, current, length - 1, w)
    else
      var rank := pct * ((length - 1) as real);
      var flooredRank := rank.Floor;
      match (PackRow(heap, current, flooredRank, w), PackRow(heap, current, flooredRank + 1, w))
      case (Ok(lower), Ok(upper)) =>
        Ok(Add(lower, Mul(Sub(upper, lower), Sub(Splat(rank, w), Splat(flooredRank as real, w)))))
      case _ => Err(TypeError(NilToFloat))
  }

  /**
   * On a long group of at least two rows every lane of the packed percentile
   * is the percentile of its lane: of the column's first `rows` elements, or
   * of zeros past the last column.
   */
  lemma PackedPercentileLanes(heap: seq<seq<real>>, current: seq<Option<nat>>, base: nat, rows: nat, w: nat, pct: real)
    requires (w == 2 || w == 4) && HoldsGroup(current, base, |heap|, w)
    requires rows >= 2 && GroupLong(heap, base, rows, w) && 0.0 <= pct <= 1.0
    ensures SlotsIn(current, |heap|)
    ensures var r := ArrayPercentilePacked(heap, current, pct, rows, w);
      && r.Ok? && |r.value| == w
      && forall s :: 0 <= s < w ==> r.value[s] == PercentileOf(GroupLanes(heap, base, rows, w)[s], pct, 0.0)
  {
    PackedPercentileOk(heap, current, base, rows, w, pct);
    forall s | 0 <= s < w
      ensures ArrayPercentilePacked(heap, current, pct, rows, w).value[s] ==
        PercentileOf(GroupLanes(heap, base, rows, w)[s], pct, 0.0)
    {
      PackedPercentileLane(heap, current, base, rows, w, pct, s);
    }
  }

  /** On a long group of at least two rows the packed percentile does not raise. */
  lemma PackedPercentileOk(heap: seq<seq<real>>, current: seq<Option<nat>>, base: nat, rows: nat, w: nat, pct: real)
    requires (w == 2 || w == 4) && HoldsGroup(current, base, |heap|, w)
    requires rows >= 2 && GroupLong(heap, base, rows, w) && 0.0 <= pct <= 1.0
    ensures SlotsIn(current, |heap|)
    ensures var r := ArrayPercentilePacked(heap, current, pct, rows, w); r.Ok? && |r.value| == w
  {
    GroupMembers(current, base, |heap|, w);
    if pct == 1.0 {
      LongGroupRow(heap, current, base, rows, w, rows - 1);
    } else {
      FloorRankBounds(pct, rows);
      LongGroupRow(heap, current, base, rows, w, Rank(pct, rows).Floor);
      LongGroupRow(heap, current, base, rows, w, Rank(pct, rows).Floor + 1);
    }
  }

  /** Lane `s` of the packed percentile of a long group of at least two rows. */
  lemma PackedPercentileLane(heap: seq<seq<real>>, current: seq<Option<nat>>, base: nat, rows: nat, w: nat,
                             pct: real, s: nat)
    requires (w == 2 || w == 4) && HoldsGroup(current, base, |heap|, w)
    requires rows >= 2 && GroupLong(heap, base, rows, w) && 0.0 <= pct <= 1.0 && s < w
    ensures SlotsIn(current, |heap|)
    ensures var r := ArrayPercentilePacked(heap, current, pct, rows, w);
      r.Ok? && |r.value| == w && r.value[s] == PercentileOf(GroupLanes(heap, base, rows, w)[s], pct, 0.0)
  {
    if pct == 1.0 {
      LongGroupRow(heap, current, base, rows, w, rows - 1);
    } else {
      InterpolatedLane(heap, current, base, rows, w, pct, s);
    }
  }

  /** Below the maximum, lane `s` is the percentile of its lane. */
  lemma InterpolatedLane(heap: seq<seq<real>>, current: seq<Option<nat>>, base: nat, rows: nat, w: nat,
                         pct: real, s: nat)
    requires (w == 2 || w == 4) && HoldsGroup(current, base, |heap|, w)
    requires rows >= 2 && GroupLong(heap, base, rows, w) && 0.0 <= pct < 1.0 && s < w
    ensures SlotsIn(current, |heap|)
    ensures var r := ArrayPercentilePacked(heap, current, pct, rows, w);
      r.Ok? && |r.value| == w && r.value[s] == PercentileOf(GroupLanes(heap, base, rows, w)[s], pct, 0.0)
  {
    var lane := GroupLanes(heap, base, rows, w)[s];
    FloorRankBounds(pct, rows);
    var lo: nat := Rank(pct, rows).Floor;
    LaneCells(heap, current, base, rows, w, pct, s);
    PercentileFromCells(lane, pct, lane[lo], lane[lo + 1]);
  }

  /**
   * Below the maximum, lane `s` interpolates between its lane's cells at the
   * floored rank and the next row.
   */
  lemma LaneCells(heap: seq<seq<real>>, current: seq<Option<nat>>, base: nat, rows: nat, w: nat,
                  pct: real, s: nat)
    requires (w == 2 || w == 4) && HoldsGroup(current, base, |heap|, w)
    requires rows >= 2 && GroupLong(heap, base, rows, w) && 0.0 <= pct < 1.0 && s < w
    ensures SlotsIn(current, |heap|) && 0 <= Rank(pct, rows).Floor && Rank(pct, rows).Floor + 1 < rows
    ensures var r := ArrayPercentilePacked(heap, current, pct, rows, w);
      var lane := GroupLanes(heap, base, rows, w)[s];
      var lo := Rank(pct, rows).Floor;
      r.Ok? && |r.value| == w && r.value[s] == Interpolate(lane[lo], lane[lo + 1], Rank(pct, rows) - lo as real)
  {
    var lane := GroupLanes(heap, base, rows, w)[s];
    FloorRankBounds(pct, rows);
    var rank := Rank(pct, rows);
    var lo: nat := rank.Floor;
    LaneCell(heap, current, base, rows, w, lo, s);
    LaneCell(heap, current, base, rows, w, lo + 1, s);
    var lower := PackRow(heap, current, lo, w).value;
    var upper := PackRow(heap, current, lo + 1, w).value;
    PackedBelowMax(heap, current, pct, rows, w);
    var v := ArrayPercentilePacked(heap, current, pct, rows, w).value;
    LaneInterpolation(lower, upper, rank, lo as real, v, s, lane[lo], lane[lo + 1]);
  }

  /** Below the maximum, the packed percentile interpolates between the packed rows at the floored rank and the next one. */
  lemma PackedBelowMax(heap: seq<seq<real>>, current: seq<Option<nat>>, pct: real, length: nat, w: nat)
    requires (w == 2 || w == 4) && |current| == w && SlotsIn(current, |heap|) && 0.0 <= pct < 1.0
    requires PackRow(heap, current, Rank(pct, length).Floor, w).Ok?
    requires PackRow(heap, current, Rank(pct, length).Floor + 1, w).Ok?
    ensures var lower := PackRow(heap, current, Rank(pct, length).Floor, w).value;
      var upper := PackRow(heap, current, Rank(pct, length).Floor + 1, w).value;
      ArrayPercentilePacked(heap, current, pct, length, w) ==
        Ok(Add(lower, Mul(Sub(upper, lower), Sub(Splat(Rank(pct, length), w), Splat(Rank(pct, length).Floor as real, w)))))
  {
  }

  /**
   * With one row the rank is 0, so the upper read is row 1, past the end of
   * a one-element column: the packed percentile raises.
   */
  lemma SingleRowPercentileRaises(heap: seq<seq<real>>, current: seq<Option<nat>>, base: nat, w: nat, pct: real)
    requires (w == 2 || w == 4) && HoldsGroup(current, base, |heap|, w)
    requires 0.0 <= pct < 1.0
    ensures SlotsIn(current, |heap|)
    ensures base < |heap| && |heap[base]| == 1 ==> ArrayPercentilePacked(heap, current, pct, 1, w).Err?
  {
    GroupRow(heap, current, base, w, 1);
    if base < |heap| && |heap[base]| == 1 {
      assert pct * ((1 - 1) as real) == 0.0;
      assert LaneEntry(heap, base, 0, 1).Err?;
    }
  }

  /** The packed sum loop of one group: lane `s` totals its lane's cells. */
  method PackedSums(heap: seq<seq<real>>, current: seq<Option<nat>>, base: nat, rows: nat, w: nat) returns (sums: Vec)
    requires (w == 2 || w == 4) && HoldsGroup(current, base, |heap|, w) && GroupLong(heap, base, rows, w)
    ensures |sums| == w && forall s :: 0 <= s < w ==> sums[s] == Sum(GroupLanes(heap, base, rows, w)[s])
  {
    ghost var lanes := GroupLanes(heap, base, rows, w);
    GroupMembers(current, base, |heap|, w);
    sums := Splat(0.0, w);
    var row: nat := 0;
    while row < rows
      invariant row <= rows && |sums| == w
      invariant forall s :: 0 <= s < w ==> sums[s] == Sum(lanes[s][..row])
    {
      LongGroupRow(heap, current, base, rows, w, row);
      var packed := PackRow(heap, current, row, w).value;
      Matrix.SumLanesStep(lanes, row, sums, packed);
      sums := Add(sums, packed);
      row := row + 1;
    }
    Matrix.WholePrefixes(lanes, rows);
  }

  /**
   * The packed variance loop of one group: lane `s` accumulates the squared
   * deviations of its lane's cells from `means[s]`, each divided by `rows`.
   */
  method PackedVariances(heap: seq<seq<real>>, current: seq<Option<nat>>, base: nat, rows: nat, w: nat, means: Vec)
    returns (variances: Vec)
    requires (w == 2 || w == 4) && HoldsGroup(current, base, |heap|, w) && GroupLong(heap, base, rows, w)
    requires rows >= 1 && |means| == w
    ensures |variances| == w && forall s :: 0 <= s < w ==>
      variances[s] == VarianceSum(GroupLanes(heap, base, rows, w)[s], means[s], rows as real)
  {
    ghost var lanes := GroupLanes(heap, base, rows, w);
    GroupMembers(current, base, |heap|, w);
    var n := rows as real;
    var lengths := Splat(n, w);
    variances := Splat(0.0, w);
    var row: nat := 0;
    while row < rows
      invariant row <= rows && |variances| == w
      invariant forall s :: 0 <= s < w ==> variances[s] == VarianceSum(lanes[s][..row], means[s], n)
    {
      LongGroupRow(heap, current, base, rows, w, row);
      var packed := PackRow(heap, current, row, w).value;
      Matrix.VarianceLanesStep(lanes, row, means, n, variances, packed, lengths);
      var deviation := Sub(packed, means);
      var sqrDeviation := Mul(deviation, deviation);
      variances := Add(variances, Div(sqrDeviation, lengths));
      row := row + 1;
    }
    Matrix.WholePrefixes(lanes, rows);
  }

  /**
   * A slot whose fields were computed from its lane the way the packed loops
   * compute them holds its column's record, or zeros past the last column.
   */
  lemma SlotRecord(heap: seq<seq<real>>, base: nat, rows: nat, w: nat, slot: Stats, s: nat)
    requires rows >= 2 && GroupLong(heap, base, rows, w) && s < w
    requires var lane := GroupLanes(heap, base, rows, w)[s];
      && slot.min == lane[0] && slot.max == lane[rows - 1]
      && slot.mean == Sum(lane) / (rows as real)
      && slot.median == PercentileOf(lane, 0.5, 0.0)
      && slot.q1 == PercentileOf(lane, 0.25, 0.0) && slot.q3 == PercentileOf(lane, 0.75, 0.0)
      && slot.variance == VarianceSum(lane, slot.mean, rows as real)
    ensures slot == if base + s < |heap| then ColumnStats(heap[base + s][..rows]) else ZeroStats
  {
    var lane := GroupLanes(heap, base, rows, w)[s];
    if base + s < |heap| {
      assert lane == heap[base + s][..rows];
      ColumnStatsFields(lane, slot);
    } else {
      assert forall i :: 0 <= i < rows ==> lane[i] == 0.0;
      PercentileOfZeros(lane, 0.5);
      PercentileOfZeros(lane, 0.25);
      PercentileOfZeros(lane, 0.75);
      PaddingRecord(lane, rows, slot);
    }
  }

  /** Every percentile of a lane of zeros is 0. */
  lemma PercentileOfZeros(lane: seq<real>, pct: real)
    requires |lane| >= 2 && 0.0 <= pct < 1.0 && forall i :: 0 <= i < |lane| ==> lane[i] == 0.0
    ensures PercentileOf(lane, pct, 0.0) == 0.0
  {
    FloorRankBounds(pct, |lane|);
    assert lane[Rank(pct, |lane|).Floor] == 0.0;
  }

  /** A lane of zeros, read the way a packed group reads it, has the all-zero record. */
  lemma PaddingRecord(lane: seq<real>, rows: nat, slot: Stats)
    requires rows >= 1 && |lane| == rows && forall i :: 0 <= i < rows ==> lane[i] == 0.0
    requires slot.min == 0.0 && slot.max == 0.0 && slot.median == 0.0 && slot.q1 == 0.0 && slot.q3 == 0.0
    requires slot.mean == Sum(lane) / (rows as real)
    requires slot.variance == VarianceSum(lane, slot.mean, rows as real)
    ensures slot == ZeroStats
  {
    SumOfZeros(lane);
    assert slot.mean == 0.0;
    Matrix.VarianceSumOfZeros(lane, rows as real);
  }

  /** Once a long group's loops are done, slot `s` of its registers is column `base + s`'s record. */
  lemma GroupSlots(heap: seq<seq<real>>, current: seq<Option<nat>>, base: nat, rows: nat, w: nat,
                   sums: Vec, p: PackedStats)
    requires (w == 2 || w == 4) && HoldsGroup(current, base, |heap|, w) && SlotsIn(current, |heap|)
    requires rows >= 2 && GroupLong(heap, base, rows, w)
    requires PackRow(heap, current, 0, w) == Ok(p.mins) && PackRow(heap, current, rows - 1, w) == Ok(p.maxes)
    requires |sums| == w && forall s :: 0 <= s < w ==> sums[s] == Sum(GroupLanes(heap, base, rows, w)[s])
    requires p.means == Div(sums, Splat(rows as real, w))
    requires ArrayPercentilePacked(heap, current, 0.5, rows, w) == Ok(p.medians)
    requires ArrayPercentilePacked(heap, current, 0.25, rows, w) == Ok(p.q1s)
    requires ArrayPercentilePacked(heap, current, 0.75, rows, w) == Ok(p.q3s)
    requires |p.variances| == w && forall s :: 0 <= s < w ==>
      p.variances[s] == VarianceSum(GroupLanes(heap, base, rows, w)[s], p.means[s], rows as real)
    ensures p.Width(w) && forall s :: 0 <= s < w ==>
      p.Slot(s) == if base + s < |heap| then ColumnStats(heap[base + s][..rows]) else ZeroStats
  {
    LongGroupRow(heap, current, base, rows, w, 0);
    LongGroupRow(heap, current, base, rows, w, rows - 1);
    PackedPercentileLanes(heap, current, base, rows, w, 0.5);
    PackedPercentileLanes(heap, current, base, rows, w, 0.25);
    PackedPercentileLanes(heap, current, base, rows, w, 0.75);
    forall s | 0 <= s < w
      ensures p.Slot(s) == if base + s < |heap| then ColumnStats(heap[base + s][..rows]) else ZeroStats
    {
      LaneQuotient(sums, rows as real, s);
      SlotRecord(heap, base, rows, w, p.Slot(s), s);
    }
  }

  /**
   * The register work of one lane group of a packed driver, on already
   * sorted inner arrays. It raises exactly when the group has a column
   * shorter than the first inner array, or when there is only one row; it
   * cannot be reached with fewer than two rows except for the first group.
   * Otherwise lane `s` holds the record of the first `rows` elements of
   * column `base + s`, and a lane past the last column holds zeros.
   */
  method GroupStatistics(heap: seq<seq<real>>, current: seq<Option<nat>>, base: nat, rows: nat, w: nat)
    returns (r: Result<PackedStats>)
    requires (w == 2 || w == 4) && base < |heap| && HoldsGroup(current, base, |heap|, w)
    requires |heap[0]| == rows && (base == 0 || rows >= 2)
    ensures r.Ok? <==> rows >= 2 && GroupLong(heap, base, rows, w)
    ensures r.Err? ==> r.error == TypeError(NilToFloat)
    ensures r.Ok? ==> r.value.Width(w) && forall s :: 0 <= s < w ==>
      r.value.Slot(s) == if base + s < |heap| then ColumnStats(heap[base + s][..rows]) else ZeroStats
  {
    GroupMembers(current, base, |heap|, w);
    var mins := PackRow(heap, current, 0, w);
    if mins.Err? {
      ReadWithinLongGroup(heap, current, base, rows, w, 0);
      return Err(mins.error);
    }
    var maxes := PackRow(heap, current, rows - 1, w);
    if maxes.Err? {
      ReadWithinLongGroup(heap, current, base, rows, w, rows - 1);
      return Err(maxes.error);
    }
    EndsReadable(heap, current, base, rows, w);
    var lengths := Splat(rows as real, w);
    var sums := PackedSums(heap, current, base, rows, w);
    var means := Div(sums, lengths);
    SingleRowPercentileRaises(heap, current, base, w, 0.5);
    var medians := ArrayPercentilePacked(heap, current, 0.5, rows, w);
    if medians.Err? {
      return Err(medians.error);
    }
    PackedPercentileOk(heap, current, base, rows, w, 0.25);
    PackedPercentileOk(heap, current, base, rows, w, 0.75);
    var q1s := ArrayPercentilePacked(heap, current, 0.25, rows, w).value;
    var q3s := ArrayPercentilePacked(heap, current, 0.75, rows, w).value;
    var variances := PackedVariances(heap, current, base, rows, w, means);
    var p := PackedStats(mins.value, maxes.value, means, medians.value, q1s, q3s, variances);
    GroupSlots(heap, current, base, rows, w, sums, p);
    return Ok(p);
  }

  /**
   * The slot loop of one group: one result hash is pushed onto the results for
   * each slot whose column exists, in slot order.
   */
  method PushSlots(results: seq<Hash>, base: nat, cols: nat, w: nat, p: PackedStats) returns (pushed: seq<Hash>)
    requires p.Width(w) && |results| == base < cols
    ensures |pushed| == Matrix.Min(base + w, cols) && pushed[..base] == results
    ensures forall c :: base <= c < |pushed| ==> pushed[c] == ResultHash(p.Slot(c - base))
  {
    pushed := results;
    var slot: nat := 0;
    while slot < w
      invariant slot <= w
      invariant |pushed| == Matrix.Min(base + slot, cols) && pushed[..base] == results
      invariant forall c :: base <= c < |pushed| ==> pushed[c] == ResultHash(p.Slot(c - base))
    {
      if base + slot < cols {
        pushed := pushed + [ResultHash(p.Slot(slot))];
      }
      slot := slot + 1;
    }
  }

  /**
   * `sort_arrays(current_cols, count)`: every inner array a slot names is
   * sorted in place; an array named twice ends up sorted all the same.
   */
  method SortArrays(arrays: array<seq<real>>, current: array<Option<nat>>, count: nat)
    requires count <= current.Length && SlotsIn(current[..], arrays.Length)
    modifies arrays
    ensures forall c :: 0 <= c < arrays.Length ==>
      arrays[c] == if Some(c) in current[..count] then SortSeq(old(arrays[c])) else old(arrays[c])
  {
    ghost var before := arrays[..];
    var index: nat := 0;
    while index < count
      invariant index <= count
      invariant forall c :: 0 <= c < arrays.Length ==>
        arrays[c] == if Some(c) in current[..index] then SortSeq(before[c]) else before[c]
    {
      assert current[..index + 1] == current[..index] + [current[index]];
      if current[index].Some? {
        var c := current[index].value;
        assert current[index] == current[..][index];
        SortIdempotent(before[c]);
        arrays[c] := SortSeq(arrays[c]);
      }
      index := index + 1;
    }
  }

  /** The record of the `rows` smallest elements of a column, as the C engines report it. */
  function LeadingStats(column: seq<real>, rows: nat): Stats
    requires 1 <= rows <= |column|
  {
    ColumnStats(SortSeq(column)[..rows])
  }

  /** For a column exactly as long as the first one, that is the column's record. */
  lemma LeadingStatsOfFullColumn(column: seq<real>)
    requires |column| >= 1
    ensures LeadingStats(column, |column|) == StatsOf(column)
  {
    assert SortSeq(column)[..|column|] == SortSeq(column);
  }

  /** The drivers succeed: at least two rows, and no inner array shorter than the first. */
  predicate Readable(heap: seq<seq<real>>) {
    |heap| >= 1 && |heap[0]| >= 2 && forall c :: 0 <= c < |heap| ==> |heap[0]| <= |heap[c]|
  }

  /**
   * `f` is the first column at which a driver raises: there is a single
   * row or none, or `f` is the first inner array shorter than the first one.
   */
  predicate FirstShort(heap: seq<seq<real>>, f: nat) {
    f < |heap| && (|heap[0]| < 2 || |heap[f]| < |heap[0]|) &&
    forall c :: 0 <= c < f ==> 2 <= |heap[0]| <= |heap[c]|
  }

  /** A driver's input is unreadable exactly when it has a first failing column, and that one is unique. */
  lemma FirstShortExactly(heap: seq<seq<real>>, f: nat, g: nat)
    requires |heap| >= 1
    ensures FirstShort(heap, f) ==> !Readable(heap)
    ensures FirstShort(heap, f) && FirstShort(heap, g) ==> f == g
    ensures !Readable(heap) ==> exists e :: FirstShort(heap, e)
  {
    if !Readable(heap) {
      if |heap[0]| < 2 {
        assert FirstShort(heap, 0);
      } else {
        var b :| 0 <= b < |heap| && |heap[b]| < |heap[0]|;
        var e: nat := 0;
        while |heap[e]| >= |heap[0]|
          invariant e <= b && forall c :: 0 <= c < e ==> |heap[0]| <= |heap[c]|
          decreases b - e
        {
          e := e + 1;
        }
        assert FirstShort(heap, e);
      }
    }
  }

  /** The outer array with its first `n` inner arrays sorted. */
  function SortedUpTo(heap: seq<seq<real>>, n: int): (sorted: seq<seq<real>>)
    ensures |sorted| == |heap| && forall c :: 0 <= c < |heap| ==> |sorted[c]| == |heap[c]|
  {
    seq(|heap|, c requires 0 <= c < |heap| => if c < n then SortSeq(heap[c]) else heap[c])
  }

  /** Sorting inner array `n` in place extends the sorted prefix by one. */
  lemma SortedUpToNext(heap: seq<seq<real>>, n: nat)
    requires n < |heap|
    ensures SortedUpTo(heap, n)[n := SortSeq(heap[n])] == SortedUpTo(heap, n + 1)
  {
  }

  /** `col` is one of `0, w, 2w, ...`, the columns the group loop starts at. */
  predicate GroupStart(col: nat, w: nat) {
    col == 0 || (col >= w && w >= 1 && GroupStart(col - w, w))
  }

  /** The end of the group of `w` columns that holds column `c`. */
  function GroupEnd(c: nat, w: nat): nat
    requires w >= 1
  {
    if c < w then w else GroupEnd(c - w, w) + w
  }

  /** A group starting at `col` holds the columns whose group ends at `col + w`. */
  lemma {:induction false} GroupEndOf(col: nat, w: nat, c: nat)
    requires w >= 1 && GroupStart(col, w) && col <= c < col + w
    ensures GroupEnd(c, w) == col + w
  {
    if col != 0 {
      GroupEndOf(col - w, w, c - w);
    }
  }

  /**
   * A group whose register work raised holds the first failing column when
   * every earlier column was readable.
   */
  lemma FirstShortInGroup(heap: seq<seq<real>>, col: nat, w: nat) returns (f: nat)
    requires w >= 1 && col < |heap|
    requires col > 0 ==> |heap[0]| >= 2
    requires forall c :: 0 <= c < col ==> |heap[0]| <= |heap[c]|
    requires !(|heap[0]| >= 2 && GroupLong(heap, col, |heap[0]|, w))
    ensures FirstShort(heap, f) && col <= f < col + w
  {
    var rows := |heap[0]|;
    if rows < 2 {
      f := 0;
    } else {
      var b :| col <= b < col + w && b < |heap| && |heap[b]| < rows;
      f := col;
      while |heap[f]| >= rows
        invariant col <= f <= b && forall c :: 0 <= c < f ==> rows <= |heap[c]|
        decreases b - f
      {
        f := f + 1;
      }
    }
  }

  /** `sort_arrays` on a group sorts that group on top of the already sorted prefix. */
  lemma GroupSorted(before: seq<seq<real>>, mid: seq<seq<real>>, after: seq<seq<real>>,
                    current: seq<Option<nat>>, col: nat, w: nat)
    requires mid == SortedUpTo(before, col) && |after| == |mid| && HoldsGroup(current, col, |mid|, w)
    requires forall c :: 0 <= c < |after| ==> after[c] == if Some(c) in current then SortSeq(mid[c]) else mid[c]
    ensures after == SortedUpTo(before, col + w)
  {
    GroupMembers(current, col, |mid|, w);
  }

  /**
   * The hashes pushed so far: one per column below `n`, each the hash of the record of
   * the `rows` smallest elements of that column, which is at least `rows` long.
   */
  predicate Pushed(heap: seq<seq<real>>, rows: nat, results: seq<Hash>, n: nat) {
    n <= |heap| && |results| == n && (n > 0 ==> rows >= 1) &&
    forall c :: 0 <= c < n ==> rows <= |heap[c]| && results[c] == ResultHash(LeadingStats(heap[c], rows))
  }

  /** Records for columns `n` up to `m` extend what was pushed. */
  lemma PushedExtend(heap: seq<seq<real>>, rows: nat, results: seq<Hash>, pushed: seq<Hash>, n: nat, m: nat)
    requires Pushed(heap, rows, results, n) && n <= m <= |heap| && |pushed| == m && pushed[..n] == results
    requires rows >= 1 && forall c :: n <= c < m ==> rows <= |heap[c]| && pushed[c] == ResultHash(LeadingStats(heap[c], rows))
    ensures Pushed(heap, rows, pushed, m)
  {
    forall c | 0 <= c < n
      ensures pushed[c] == results[c]
    {
      assert pushed[..n][c] == pushed[c];
    }
  }

  /** A hash for every column: the input was readable. */
  lemma PushedAll(heap: seq<seq<real>>, rows: nat, results: seq<Hash>)
    requires |heap| >= 1 && rows == |heap[0]| && rows >= 2 && Pushed(heap, rows, results, |heap|)
    ensures Readable(heap) && |results| == |heap|
    ensures forall c :: 0 <= c < |heap| ==> results[c] == ResultHash(LeadingStats(heap[c], rows))
  {
  }

  /** Sorting past the last inner array changes nothing. */
  lemma SortedUpToBeyond(heap: seq<seq<real>>, n: nat)
    requires n >= |heap|
    ensures SortedUpTo(heap, n) == SortedUpTo(heap, |heap|)
  {
  }

  /**
   * A group whose register work raised, after readable groups: its first
   * failing column ends that group, and the input is not readable.
   */
  lemma PackedFailure(heap: seq<seq<real>>, rows: nat, results: seq<Hash>, col: nat, w: nat) returns (f: nat)
    requires w >= 1 && col < |heap| && rows == |heap[0]| && GroupStart(col, w)
    requires Pushed(heap, rows, results, col) && (col > 0 ==> rows >= 2)
    requires !(rows >= 2 && GroupLong(heap, col, rows, w))
    ensures FirstShort(heap, f) && GroupEnd(f, w) == col + w && !Readable(heap)
  {
    f := FirstShortInGroup(heap, col, w);
    GroupEndOf(col, w, f);
    FirstShortExactly(heap, f, f);
  }

  /**
   * The hashes a group pushes, read off its sorted arrays, are those of the records
   * of the `rows` smallest elements of the original columns.
   */
  lemma GroupRecords(before: seq<seq<real>>, heap: seq<seq<real>>, rows: nat, results: seq<Hash>,
                     pushed: seq<Hash>, col: nat, w: nat, p: PackedStats)
    requires heap == SortedUpTo(before, col + w) && col < |before| && rows >= 2
    requires Pushed(before, rows, results, col) && GroupLong(heap, col, rows, w) && p.Width(w)
    requires forall s :: 0 <= s < w ==> p.Slot(s) == if col + s < |heap| then ColumnStats(heap[col + s][..rows]) else ZeroStats
    requires |pushed| == Matrix.Min(col + w, |heap|) && pushed[..col] == results
    requires forall c :: col <= c < |pushed| ==> pushed[c] == ResultHash(p.Slot(c - col))
    ensures Pushed(before, rows, pushed, Matrix.Min(col + w, |before|))
  {
    forall c | col <= c < |pushed|
      ensures rows <= |before[c]| && pushed[c] == ResultHash(LeadingStats(before[c], rows))
    {
      assert heap[c] == SortSeq(before[c]);
      assert pushed[c] == ResultHash(p.Slot(c - col));
      assert rows <= |heap[col + (c - col)]|;
    }
    PushedExtend(before, rows, results, pushed, col, |pushed|);
  }

  /**
   * One pass of the group loop of a packed driver: fresh `current_cols`,
   * the group's arrays sorted in place, the register work, and one hash
   * pushed per existing column. A raised TypeError leaves the group sorted.
   */
  method ProcessGroup(arrays: array<seq<real>>, col: nat, w: nat, rows: nat, results: seq<Hash>,
                      ghost before: seq<seq<real>>)
    returns (r: Result<seq<Hash>>)
    requires (w == 2 || w == 4) && col < arrays.Length && Pushed(before, rows, results, col)
    requires |before| == arrays.Length && arrays[..] == SortedUpTo(before, col)
    requires |before[0]| == rows && (col == 0 || rows >= 2)
    modifies arrays
    ensures arrays[..] == SortedUpTo(before, col + w)
    ensures r.Ok? <==> rows >= 2 && GroupLong(before, col, rows, w)
    ensures r.Err? ==> r.error == TypeError(NilToFloat)
    ensures r.Ok? ==> Pushed(before, rows, r.value, Matrix.Min(col + w, arrays.Length))
  {
    var current := new Option<nat>[w](_ => None);
    GetNextColumns(current, w, col, arrays.Length);
    GroupMembers(current[..], col, arrays.Length, w);
    ghost var mid := arrays[..];
    SortArrays(arrays, current, w);
    assert current[..w] == current[..];
    var heap := arrays[..];
    GroupSorted(before, mid, heap, current[..], col, w);
    assert GroupLong(heap, col, rows, w) <==> GroupLong(before, col, rows, w);
    var group := GroupStatistics(heap, current[..], col, rows, w);
    if group.Err? {
      return Err(group.error);
    }
    var pushed := PushSlots(results, col, arrays.Length, w, group.value);
    GroupRecords(before, heap, rows, results, pushed, col, w, group.value);
    return Ok(pushed);
  }

  /**
   * `descriptive_statistics_packed_float64` (`w == 2`) and
   * `descriptive_statistics_packed_float32` (`w == 4`). The columns are walked
   * in groups of `w`. Each group's inner arrays are sorted in place, then the
   * hashes are pushed in column order. With at least two rows and no inner
   * array shorter than the first, hash `c` is the hash of the record of the first
   * `rows` elements of sorted column `c`, and every inner array ends up
   * sorted. Otherwise TypeError is raised at the group holding the first
   * failing column, and every group up to and including that one has been
   * sorted.
   */
  method DescriptiveStatisticsPacked(arrays: array<seq<real>>, w: nat) returns (r: Result<seq<Hash>>)
    requires (w == 2 || w == 4) && arrays.Length >= 1
    modifies arrays
    ensures r.Ok? <==> Readable(old(arrays[..]))
    ensures r.Ok? ==> (arrays[..] == SortedUpTo(old(arrays[..]), arrays.Length) &&
      |r.value| == arrays.Length &&
      forall c :: 0 <= c < arrays.Length ==> r.value[c] == ResultHash(LeadingStats(old(arrays[c]), |old(arrays[0])|)))
    ensures r.Err? ==> (r.error == TypeError(NilToFloat) &&
      exists f: nat :: FirstShort(old(arrays[..]), f) && arrays[..] == SortedUpTo(old(arrays[..]), GroupEnd(f, w)))
  {
    ghost var before := arrays[..];
    var cols := arrays.Length;
    var rows := |arrays[0]|;
    var results: seq<Hash> := [];
    var col: nat := 0;
    while col < cols
      invariant GroupStart(col, w)
      invariant col > 0 ==> rows >= 2
      invariant Pushed(before, rows, results, Matrix.Min(col, cols))
      invariant arrays[..] == SortedUpTo(before, col)
    {
      var outcome := ProcessGroup(arrays, col, w, rows, results, before);
      if outcome.Err? {
        ghost var f := PackedFailure(before, rows, results, col, w);
        return Err(outcome.error);
      }
      assert arrays[..] == SortedUpTo(before, col + w);
      results := outcome.value;
      col := col + w;
    }
    SortedUpToBeyond(before, col);
    PushedAll(before, rows, results);
    return Ok(results);
  }

  /**
   * `ruby_array_percentile(sorted_arr, pct, length)` below `pct == 1`: the
   * rank rule over `NUM2DBL` reads, which raise past the end of the array.
   */
  function RubyArrayPercentile(arr: seq<real>, pct: real, length: int): (r: Result<real>)
    requires pct != 1.0
    ensures var lo := (pct * ((length - 1) as real)).Floor;
      r.Ok? <==> -|arr| <= lo && lo + 1 < |arr|
    ensures r.Err? ==> r.error == TypeError(NilToFloat)
  {
    var rank := pct * ((length - 1) as real);
    var flooredRank := rank.Floor;
    match (Num2Dbl(Entry(arr, flooredRank)), Num2Dbl(Entry(arr, flooredRank + 1)))
    case (Ok(lower), Ok(upper)) => Ok(Interpolate(lower, upper, rank - flooredRank as real))
    case _ => Err(TypeError(NilToFloat))
  }

  /** On a sorted array with at least `rows >= 2` elements it is the percentile of the first `rows`. */
  lemma RubyPercentileOfColumn(arr: seq<real>, pct: real, rows: nat)
    requires 0.0 <= pct < 1.0 && 2 <= rows <= |arr|
    ensures RubyArrayPercentile(arr, pct, rows) == Ok(PercentileOf(arr[..rows], pct, 0.0))
  {
    FloorRankBounds(pct, rows);
    var lo := Rank(pct, rows).Floor;
    PercentileFromCells(arr[..rows], pct, arr[lo], arr[lo + 1]);
  }

  /** The highest index the three quartile reads touch. */
  function Reach(rows: nat): int {
    Rank(0.75, rows).Floor + 1
  }

  /**
   * The three quartile reads all succeed only with at least two rows and an
   * array at least `rows` long (given the first array's length is `rows`, or
   * there are two rows, and the array is not of a length that reaches
   * `ruby_array_sum`'s undefined read).
   */
  lemma QuartileReadsNeedRows(arr: seq<real>, rows: nat)
    requires |arr| == rows || rows >= 2
    requires rows <= |arr| || |arr| <= Reach(rows)
    ensures (RubyArrayPercentile(arr, 0.5, rows).Ok? && RubyArrayPercentile(arr, 0.25, rows).Ok? &&
             RubyArrayPercentile(arr, 0.75, rows).Ok?) ==> 2 <= rows <= |arr|
  {
    if rows == 0 {
      assert 0.5 * ((0 - 1) as real) == -0.5;
      assert (-0.5).Floor == -1;
    } else if rows == 1 {
      assert 0.5 * ((1 - 1) as real) == 0.0;
    } else if |arr| < rows {
      FloorRankBounds(0.75, rows);
    }
  }

  /**
   * `ruby_array_sum(arr, length)`: the left-to-right total of the first
   * `length` elements (`RFLOAT_VALUE` of a read past the end is undefined).
   */
  method RubyArraySum(arr: seq<real>, length: nat) returns (result: real)
    requires length <= |arr|
    ensures result == Sum(arr[..length])
  {
    result := 0.0;
    var i: nat := 0;
    while i < length
      invariant i <= length && result == Sum(arr[..i])
    {
      var value := arr[i];
      Matrix.SumStep(arr, i);
      result := result + value;
      i := i + 1;
    }
  }

  /**
   * `ruby_array_standard_deviation(arr, mean, length)` up to its final square
   * root: the squared deviations of the first `length` elements from `mean`,
   * each divided by `length`. A read past the end raises TypeError.
   */
  method RubyArrayVariance(arr: seq<real>, mean: real, length: nat) returns (r: Result<real>)
    ensures r.Ok? <==> length <= |arr|
    ensures r.Err? ==> r.error == TypeError(NilToFloat)
    ensures r.Ok? && length >= 1 ==> r.value == VarianceSum(arr[..length], mean, length as real)
    ensures r.Ok? && length == 0 ==> r.value == 0.0
  {
    var variance := 0.0;
    var i: nat := 0;
    while i < length
      invariant i <= length && i <= |arr|
      invariant length == 0 ==> variance == 0.0
      invariant length >= 1 ==> variance == VarianceSum(arr[..i], mean, length as real)
    {
      var value := Num2Dbl(Entry(arr, i));
      if value.Err? {
        return Err(value.error);
      }
      var n := length as real;
      var deviation := value.value - mean;
      Matrix.VarianceDeviationNext(arr, i, mean, n, variance, deviation);
      var sqrDeviation := deviation * deviation;
      variance := variance + sqrDeviation / n;
      i := i + 1;
    }
    return Ok(variance);
  }

  /**
   * One pass of the loop of the scalar `descriptive_statistics`, on a column
   * already sorted in place: `min` and `max` are the elements at 0 and
   * `rows - 1`, then the three quartiles, the mean of the sum and the
   * variance. It raises unless there are at least two rows and the column
   * is at least `rows` long.
   */
  method UnpackedColumn(col: seq<real>, rows: nat) returns (r: Result<Stats>)
    requires |col| == rows || rows >= 2
    requires rows <= |col| || |col| <= Reach(rows)
    ensures r.Ok? <==> 2 <= rows <= |col|
    ensures r.Err? ==> r.error == TypeError(NilToFloat)
    ensures r.Ok? ==> r.value == ColumnStats(col[..rows])
  {
    var min := Entry(col, 0);
    var max := Entry(col, rows - 1);
    var median := RubyArrayPercentile(col, 0.5, rows);
    var q1 := RubyArrayPercentile(col, 0.25, rows);
    var q3 := RubyArrayPercentile(col, 0.75, rows);
    QuartileReadsNeedRows(col, rows);
    if median.Err? || q1.Err? || q3.Err? {
      return Err(TypeError(NilToFloat));
    }
    var sum := RubyArraySum(col, rows);
    var mean := sum / (rows as real);
    var variance := RubyArrayVariance(col, mean, rows);
    RubyPercentileOfColumn(col, 0.5, rows);
    RubyPercentileOfColumn(col, 0.25, rows);
    RubyPercentileOfColumn(col, 0.75, rows);
    var record := Stats(min.value, max.value, mean, median.value, q1.value, q3.value, variance.value);
    ColumnStatsFields(col[..rows], record);
    return Ok(record);
  }

  /** A column of a length whose quartile reads succeed but whose total reads past its end. */
  predicate MiddleLength(len: nat, rows: nat) {
    Reach(rows) < len < rows
  }

  /**
   * `ruby_array_sum` never reads past the end of the array: the scalar
   * driver reaches no column whose length is `MiddleLength` before some
   * earlier column has raised.
   */
  predicate SumReadsDefined(heap: seq<seq<real>>)
    requires |heap| >= 1
  {
    forall c {:trigger MiddleLength(|heap[c]|, |heap[0]|)} :: 0 <= c < |heap| && MiddleLength(|heap[c]|, |heap[0]|) ==>
      exists e :: 0 <= e < c && |heap[e]| < |heap[0]|
  }

  /**
   * `descriptive_statistics`, the scalar driver. Each inner array is
   * sorted in place and the hash of its record is pushed, in column order. With at least
   * two rows and no inner array shorter than the first, hash `c` is the
   * hash of the record of the first `rows` elements of sorted column `c`. Otherwise
   * TypeError is raised at the first failing column, and the columns up to
   * and including it have been sorted.
   */
  method DescriptiveStatisticsUnpacked(arrays: array<seq<real>>) returns (r: Result<seq<Hash>>)
    requires arrays.Length >= 1 && SumReadsDefined(arrays[..])
    modifies arrays
    ensures r.Ok? <==> Readable(old(arrays[..]))
    ensures r.Ok? ==> (arrays[..] == SortedUpTo(old(arrays[..]), arrays.Length) &&
      |r.value| == arrays.Length &&
      forall c :: 0 <= c < arrays.Length ==> r.value[c] == ResultHash(LeadingStats(old(arrays[c]), |old(arrays[0])|)))
    ensures r.Err? ==> (r.error == TypeError(NilToFloat) &&
      exists f: nat :: FirstShort(old(arrays[..]), f) && arrays[..] == SortedUpTo(old(arrays[..]), f + 1))
  {
    ghost var before := arrays[..];
    var cols := arrays.Length;
    var rows := |arrays[0]|;
    var results: seq<Hash> := [];
    var col: nat := 0;
    while col < cols
      invariant col > 0 ==> rows >= 2
      invariant Pushed(before, rows, results, col)
      invariant arrays[..] == SortedUpTo(before, col)
    {
      NoMiddleColumn(before, rows, col, results);
      var outcome := ProcessColumn(arrays, col, rows, results, before);
      if outcome.Err? {
        ScalarFailure(before, rows, results, col);
        return Err(outcome.error);
      }
      assert arrays[..] == SortedUpTo(before, col + 1);
      results := outcome.value;
      col := col + 1;
    }
    PushedAll(before, rows, results);
    return Ok(results);
  }

  /** The scalar driver never reaches a column of a length on which `ruby_array_sum` reads past the end. */
  lemma NoMiddleColumn(heap: seq<seq<real>>, rows: nat, col: nat, results: seq<Hash>)
    requires col < |heap| && rows == |heap[0]| && SumReadsDefined(heap) && Pushed(heap, rows, results, col)
    ensures rows <= |heap[col]| || |heap[col]| <= Reach(rows)
  {
    assert !MiddleLength(|heap[col]|, |heap[0]|);
  }

  /** A column whose reads raised, after readable columns, is the first failing one. */
  lemma ScalarFailure(heap: seq<seq<real>>, rows: nat, results: seq<Hash>, col: nat)
    requires col < |heap| && rows == |heap[0]| && Pushed(heap, rows, results, col) && (col > 0 ==> rows >= 2)
    requires !(2 <= rows <= |heap[col]|)
    ensures FirstShort(heap, col) && !Readable(heap)
  {
    FirstShortExactly(heap, col, col);
  }

  /**
   * One pass of the loop of the scalar driver: inner array `col` is sorted
   * in place and, unless a read raises, the hash of its record is pushed.
   */
  method ProcessColumn(arrays: array<seq<real>>, col: nat, rows: nat, results: seq<Hash>, ghost before: seq<seq<real>>)
    returns (r: Result<seq<Hash>>)
    requires col < arrays.Length && Pushed(before, rows, results, col) && |before| == arrays.Length
    requires arrays[..] == SortedUpTo(before, col) && |before[0]| == rows && (col == 0 || rows >= 2)
    requires rows <= |before[col]| || |before[col]| <= Reach(rows)
    modifies arrays
    ensures arrays[..] == SortedUpTo(before, col + 1)
    ensures r.Ok? <==> 2 <= rows <= |before[col]|
    ensures r.Err? ==> r.error == TypeError(NilToFloat)
    ensures r.Ok? ==> Pushed(before, rows, r.value, col + 1)
  {
    SortedUpToNext(before, col);
    arrays[col] := SortSeq(arrays[col]);
    var record := UnpackedColumn(arrays[col], rows);
    if record.Err? {
      return Err(record.error);
    }
    PushedExtend(before, rows, results, results + [ResultHash(record.value)], col, col + 1);
    return Ok(results + [ResultHash(record.value)]);
  }

  /** What `Init_fast_statistics` binds a module function to. */
  datatype Binding = PackedFloat64 | PackedFloat32 | Unpacked | SimdFlag(enabled: bool)

  /** The module functions `Init_fast_statistics` defines. */
  const ModuleFunctions: set<string> := {
    "descriptive_statistics", "descriptive_statistics_packed_float32",
    "descriptive_statistics_packed_float64", "descriptive_statistics_unpacked", "simd_enabled?"
  }

  /**
   * The table `Init_fast_statistics` builds, with and without SSE. With SSE
   * the default `descriptive_statistics` is the double-precision packed
   * driver. Without it every statistics function is the scalar driver, and
   * `simd_enabled?` reports which build this is.
   */
  function InitBindings(simd: bool): (m: map<string, Binding>)
    ensures m.Keys == ModuleFunctions
    ensures m["simd_enabled?"] == SimdFlag(simd)
    ensures simd ==> m["descriptive_statistics"] == m["descriptive_statistics_packed_float64"] == PackedFloat64
    ensures simd ==> m["descriptive_statistics_packed_float32"] == PackedFloat32
    ensures forall name :: name in m && name != "simd_enabled?" ==>
      (m[name] == Unpacked <==> !simd || name == "descriptive_statistics_unpacked")
  {
    if simd then
      map["descriptive_statistics" := PackedFloat64,
          "descriptive_statistics_packed_float32" := PackedFloat32,
          "descriptive_statistics_packed_float64" := PackedFloat64,
          "descriptive_statistics_unpacked" := Unpacked,
          "simd_enabled?" := SimdFlag(true)]
    else
      map["descriptive_statistics" := Unpacked,
          "descriptive_statistics_packed_float32" := Unpacked,
          "descriptive_statistics_packed_float64" := Unpacked,
          "descriptive_statistics_unpacked" := Unpacked,
          "simd_enabled?" := SimdFlag(false)]
  }
}
