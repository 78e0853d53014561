/**
 * SSE registers as lane vectors. A `__m128d` is a `Vec` of 2 lanes, a
 * `__m128` one of 4; each intrinsic acts lane by lane, so lanes never mix.
 */
module Lanes {
  import opened Statistics

  type Vec = seq<real>

  /** `_mm_set1_pd` / `_mm_set_ps1` / `_mm_setzero_*`: every lane `x`. */
  function Splat(x: real, w: nat): (v: Vec)
    ensures |v| == w
  {
    seq(w, _ => x)
  }

  /** `_mm_add_*`. */
  function Add(a: Vec, b: Vec): (v: Vec)
    requires |a| == |b|
    ensures |v| == |a|
  {
    seq(|a|, i requires 0 <= i < |a| => a[i] + b[i])
  }

  /** `_mm_sub_*`. */
  function Sub(a: Vec, b: Vec): (v: Vec)
    requires |a| == |b|
    ensures |v| == |a|
  {
    seq(|a|, i requires 0 <= i < |a| => a[i] - b[i])
  }

  /** `_mm_mul_*`. */
  function Mul(a: Vec, b: Vec): (v: Vec)
    requires |a| == |b|
    ensures |v| == |a|
  {
    seq(|a|, i requires 0 <= i < |a| => a[i] * b[i])
  }

  /** `_mm_div_*`, divisor lanes nonzero. */
  function Div(a: Vec, b: Vec): (v: Vec)
    requires |a| == |b| && forall i :: 0 <= i < |b| ==> b[i] != 0.0
    ensures |v| == |a|
  {
    seq(|a|, i requires 0 <= i < |a| => a[i] / b[i])
  }

  /** Lane `i` of `(packed - means)^2 / lengths`, spelled out. */
  lemma LaneSquaredDeviation(packed: Vec, means: Vec, lengths: Vec, i: nat)
    requires |packed| == |means| == |lengths| && i < |packed|
    requires forall j :: 0 <= j < |lengths| ==> lengths[j] != 0.0
    ensures Div(Mul(Sub(packed, means), Sub(packed, means)), lengths)[i]
      == (packed[i] - means[i]) * (packed[i] - means[i]) / lengths[i]
  {
  }

  /** Lane `i` of `sums / splat(n)`, spelled out. */
  lemma LaneQuotient(sums: Vec, n: real, i: nat)
    requires n != 0.0 && i < |sums|
    ensures Div(sums, Splat(n, |sums|))[i] == sums[i] / n
  {
  }

  /** Lane `i` of `lower + (upper - lower) * (rank - floored)`, spelled out. */
  lemma LaneInterpolation(lower: Vec, upper: Vec, rank: real, floored: real, v: Vec, i: nat, a: real, b: real)
    requires |lower| == |upper| && i < |lower|
    requires v == Add(lower, Mul(Sub(upper, lower), Sub(Splat(rank, |lower|), Splat(floored, |lower|))))
    requires lower[i] == a && upper[i] == b
    ensures v[i] == Interpolate(a, b, rank - floored)
  {
  }

  /** `_mm_set_pd(e1, e0)`: the LAST argument goes to lane 0. */
  function SetPd(e1: real, e0: real): Vec {
    [e0, e1]
  }

  /** `_mm_set_ps(e3, e2, e1, e0)`: the LAST argument goes to lane 0. */
  function SetPs(e3: real, e2: real, e1: real, e0: real): Vec {
    [e0, e1, e2, e3]
  }

  /** The seven result registers of one lane group. */
  datatype PackedStats = PackedStats(mins: Vec, maxes: Vec, means: Vec, medians: Vec,
                                     q1s: Vec, q3s: Vec, variances: Vec)
  {
    predicate Width(w: nat) {
      |mins| == w && |maxes| == w && |means| == w && |medians| == w &&
      |q1s| == w && |q3s| == w && |variances| == w
    }

    /** `MM_GET_INDEX_*` of every register at one slot. */
    function Slot(i: nat): Stats
      requires i < |mins| && i < |maxes| && i < |means| && i < |medians|
      requires i < |q1s| && i < |q3s| && i < |variances|
    {
      Stats(mins[i], maxes[i], means[i], medians[i], q1s[i], q3s[i], variances[i])
    }
  }

  lemma ScaleUp(w: nat, a: nat, b: nat)
    requires a < b
    ensures w * a + w <= w * b
  {
    assert w * b == w * a + w * (b - a);
    assert w * (b - a) == w + w * (b - a - 1);
  }

  /** Euclidean division has one quotient and one remainder. */
  lemma DivModUnique(a: nat, w: nat, q: nat, r: nat)
    requires 0 <= r < w && a == w * q + r
    ensures a / w == q && a % w == r
  {
    var q', r' := a / w, a % w;
    assert a == w * q' + r' && 0 <= r' < w;
    if q' < q {
      ScaleUp(w, q', q);
    } else if q < q' {
      ScaleUp(w, q, q');
    }
    assert q' == q;
  }

  /**
   * The group loop visits `0, w, 2w, ...`. Column `c` belongs to exactly one
   * group: the one starting at `w * (c / w)`, at slot `c % w`.
   */
  lemma GroupOfColumn(c: nat, w: nat, k: nat, s: nat)
    requires w >= 1 && s < w && c == w * k + s
    ensures w * (c / w) == w * k && c % w == s
  {
    DivModUnique(c, w, k, s);
  }
}
