/**
 * The reference `percentile(p, arr, len)` the benchmarks compare the
 * extension against: `p` is given in percent and `arr` is a Ruby array, so an
 * index past either end yields `nil`, and a negative index counts from the end.
 */
module BenchmarkHelpers {
  import opened Base
  import opened Sorting
  import opened Statistics

  /** What a call of the Ruby method can end in. */
  datatype Outcome = Number(value: real) | NilReturned | Raised

  /**
   * `percentile(p, arr, len)`. Arithmetic on a `nil` bound raises
   * (NoMethodError or TypeError); the `p == 100` branch hands back whatever
   * `arr[len - 1]` is, `nil` included.
   */
  function Percentile(p: real, arr: seq<real>, len: int): (o: Outcome)
    ensures o.NilReturned? <==> p == 100.0 && !(-|arr| <= len - 1 < |arr|)
    ensures p == 100.0 && 1 <= len <= |arr| ==> o == Number(arr[len - 1])
    ensures o.Raised? ==> p != 100.0
    ensures 0.0 <= p < 100.0 && 2 <= len <= |arr| ==> o.Number?
  {
    if p == 100.0 then
      match Entry(arr, len - 1)
      case Some(v) => Number(v)
      case None => NilReturned
    else
      var rank := p / 100.0 * ((len - 1) as real);
      var lower := Entry(arr, rank.Floor);
      var upper := Entry(arr, rank.Floor + 1);
      if lower.None? || upper.None? then
        if 0.0 <= p < 100.0 && 2 <= len then
          FloorRankBounds(p / 100.0, len);
          Raised
        else Raised
      else Number(lower.value + (upper.value - lower.value) * (rank - rank.Floor as real))
  }

  /** `p == 100` returns the last element. */
  lemma PercentileAtHundred(arr: seq<real>)
    requires |arr| >= 1
    ensures Percentile(100.0, arr, |arr|) == Number(arr[|arr| - 1])
  {
  }

  /**
   * The reference coincides with the extension's rule for `p = 100 * pct`
   * whenever it returns a number; it fails only on a one-element array with
   * `p < 100`, where it reads `arr[1]`.
   */
  lemma {:induction false} AgreesWithPercentileOf(arr: seq<real>, pct: real, beyond: real)
    requires |arr| >= 1 && 0.0 <= pct <= 1.0
    ensures |arr| >= 2 || pct == 1.0 ==>
      Percentile(100.0 * pct, arr, |arr|) == Number(PercentileOf(arr, pct, beyond))
    ensures |arr| == 1 && pct < 1.0 ==> Percentile(100.0 * pct, arr, |arr|) == Raised
  {
    if pct < 1.0 {
      FloorRankBounds(pct, |arr|);
      assert 100.0 * pct / 100.0 == pct;
      assert 100.0 * pct != 100.0;
    }
  }

  /** `p == 0` returns the first element. */
  lemma PercentileAtZero(arr: seq<real>)
    requires |arr| >= 2
    ensures Percentile(0.0, arr, |arr|) == Number(arr[0])
  {
    AgreesWithPercentileOf(arr, 0.0, 0.0);
    Statistics.PercentileAtZero(arr, 0.0);
  }

  /** A whole-number rank `k` returns `arr[k]` exactly. */
  lemma PercentileAtIntegralRank(arr: seq<real>, p: real, k: nat)
    requires |arr| >= 2 && 0.0 <= p <= 100.0
    requires p / 100.0 * ((|arr| - 1) as real) == k as real
    ensures k < |arr| && Percentile(p, arr, |arr|) == Number(arr[k])
  {
    var pct := p / 100.0;
    assert 100.0 * pct == p;
    AgreesWithPercentileOf(arr, pct, 0.0);
    Statistics.PercentileAtIntegralRank(arr, pct, k, 0.0);
  }

  /**
   * On an ascending array and `0 <= p < 100`, the result lies between
   * `arr[floor(rank)]` and `arr[floor(rank) + 1]`.
   */
  lemma PercentileBetween(arr: seq<real>, p: real)
    requires Sorted(arr) && |arr| >= 2 && 0.0 <= p < 100.0
    ensures var lo := (p / 100.0 * ((|arr| - 1) as real)).Floor;
      0 <= lo && lo + 1 < |arr| &&
      Percentile(p, arr, |arr|).Number? &&
      arr[lo] <= Percentile(p, arr, |arr|).value <= arr[lo + 1]
  {
    var pct := p / 100.0;
    assert 100.0 * pct == p;
    assert p / 100.0 * ((|arr| - 1) as real) == Rank(pct, |arr|);
    AgreesWithPercentileOf(arr, pct, 0.0);
    assert Percentile(p, arr, |arr|) == Number(PercentileOf(arr, pct, 0.0));
    Statistics.PercentileBetween(arr, pct, 0.0);
  }
}
