/**
 * The column-major layout of `DFloat::entries`: a buffer of `cols * rows`
 * cells in which column `c` occupies the `rows` consecutive cells starting at
 * `c * rows` (`base_ptr`). Offsets are built up column by column (`Base`), and
 * `BaseIsProduct` ties them to the products the source computes.
 */
module Layout {

  /**
   * `base_ptr(col) - entries`: where column `c` starts, after `c` whole
   * columns; `Base(cols, rows)` is the size of the buffer.
   */
  function Base(c: nat, rows: nat): nat {
    if c == 0 then 0 else Base(c - 1, rows) + rows
  }

  /** The offset is the product `c * rows` the source computes. */
  lemma {:induction false} BaseIsProduct(c: nat, rows: nat)
    ensures Base(c, rows) == c * rows
  {
    if c > 0 {
      BaseIsProduct(c - 1, rows);
      assert c * rows == (c - 1) * rows + rows;
    }
  }

  /** `cols * rows`: the number of cells the source allocates. */
  function CellCount(cols: nat, rows: nat): (n: nat)
    ensures n == Base(cols, rows)
  {
    BaseIsProduct(cols, rows);
    cols * rows
  }

  /** Later columns start later. */
  lemma {:induction false} BaseMonotone(a: nat, b: nat, rows: nat)
    requires a <= b
    ensures Base(a, rows) <= Base(b, rows)
  {
    if a < b {
      BaseMonotone(a, b - 1, rows);
    }
  }

  /** Column `c` of a `cols`-column buffer lies inside the buffer. */
  lemma ColumnInBuffer(c: nat, cols: nat, rows: nat)
    requires c < cols
    ensures Base(c, rows) + rows <= Base(cols, rows)
  {
    BaseMonotone(c + 1, cols, rows);
  }

  /** Every column of a `cols`-column buffer lies inside the buffer. */
  lemma ColumnsInBuffer(cols: nat, rows: nat)
    ensures forall c :: 0 <= c < cols ==> Base(c, rows) + rows <= Base(cols, rows)
  {
    forall c | 0 <= c < cols
      ensures Base(c, rows) + rows <= Base(cols, rows)
    {
      ColumnInBuffer(c, cols, rows);
    }
  }

  /** An earlier column ends before a later one starts. */
  lemma ColumnsApart(c1: nat, c2: nat, rows: nat)
    requires c1 < c2
    ensures Base(c1, rows) + rows <= Base(c2, rows)
  {
    BaseMonotone(c1 + 1, c2, rows);
  }

  /** The cells of column `c`. */
  function ColumnOf(s: seq<real>, cols: nat, rows: nat, c: nat): (col: seq<real>)
    requires |s| == Base(cols, rows) && c < cols
    ensures |col| == rows && Base(c, rows) + rows <= |s|
    ensures forall r :: 0 <= r < rows ==> col[r] == s[Base(c, rows) + r]
  {
    ColumnInBuffer(c, cols, rows);
    s[Base(c, rows)..Base(c, rows) + rows]
  }

  /** The buffer `s` with column `c` replaced by `col`. */
  function WithColumn(s: seq<real>, cols: nat, rows: nat, c: nat, col: seq<real>): (t: seq<real>)
    requires |s| == Base(cols, rows) && c < cols && |col| == rows
    ensures |t| == |s|
  {
    ColumnInBuffer(c, cols, rows);
    s[..Base(c, rows)] + col + s[Base(c, rows) + rows..]
  }

  /**
   * A buffer that agrees with `before` except on `|cells|` cells from `base`,
   * which hold `cells`, is `before` with those cells spliced in.
   */
  lemma Spliced(before: seq<real>, after: seq<real>, base: nat, cells: seq<real>)
    requires base + |cells| <= |before| == |after|
    requires forall k :: 0 <= k < |after| ==>
      after[k] == if base <= k < base + |cells| then cells[k - base] else before[k]
    ensures after == before[..base] + cells + before[base + |cells|..]
  {
  }

  /** Replacing column `c` sets column `c` and leaves every other column alone. */
  lemma WithColumnColumns(s: seq<real>, cols: nat, rows: nat, c: nat, col: seq<real>)
    requires |s| == Base(cols, rows) && c < cols && |col| == rows
    ensures var t := WithColumn(s, cols, rows, c, col);
      && ColumnOf(t, cols, rows, c) == col
      && forall d :: 0 <= d < cols && d != c ==> ColumnOf(t, cols, rows, d) == ColumnOf(s, cols, rows, d)
  {
    var t := WithColumn(s, cols, rows, c, col);
    assert ColumnOf(t, cols, rows, c) == col;
    forall d | 0 <= d < cols && d != c
      ensures ColumnOf(t, cols, rows, d) == ColumnOf(s, cols, rows, d)
    {
      if d < c { ColumnsApart(d, c, rows); } else { ColumnsApart(c, d, rows); }
    }
  }
}
