/** The column-compressed (CSC) sparse matrix the Khatri-Rao kernel reads.

    `jc` holds `cols + 1` column offsets, `ir` the row index of each stored
    entry and `pr` its value; the entries of column `c` are those at the
    positions `jc[c] .. jc[c + 1]` (half open) of `ir` and `pr`.  The arrays
    `ir` and `pr` may be longer than the stored entries (spare capacity). */
module SparseMatrix {

  datatype Csc = Csc(rows: nat, cols: nat, jc: seq<nat>, ir: seq<nat>, pr: seq<int>)

  /** The offsets are non-decreasing and stay inside both entry arrays. */
  predicate WellFormed(m: Csc)
  {
    |m.jc| == m.cols + 1 &&
    (forall c, d :: 0 <= c <= d <= m.cols ==> m.jc[c] <= m.jc[d]) &&
    m.jc[m.cols] <= |m.ir| && m.jc[m.cols] <= |m.pr|
  }

  /** Start of column `c`'s half-open entry range. */
  function ColumnStart(m: Csc, c: nat): nat
    requires WellFormed(m) && c < m.cols
  {
    m.jc[c]
  }

  /** End of column `c`'s half-open entry range. */
  function ColumnEnd(m: Csc, c: nat): nat
    requires WellFormed(m) && c < m.cols
  {
    m.jc[c + 1]
  }

  /** Number of entries stored in column `c`; the range lies inside both entry arrays. */
  function ColumnNnz(m: Csc, c: nat): (k: nat)
    requires WellFormed(m) && c < m.cols
    ensures ColumnStart(m, c) + k == ColumnEnd(m, c)
    ensures ColumnEnd(m, c) <= |m.ir| && ColumnEnd(m, c) <= |m.pr|
  {
    m.jc[c + 1] - m.jc[c]
  }

  /** Position `i` holds an entry of column `c`. */
  predicate InColumn(m: Csc, c: nat, i: nat)
    requires WellFormed(m) && c < m.cols
  {
    ColumnStart(m, c) <= i < ColumnEnd(m, c)
  }

  /** Row index of the entry stored at position `i` of column `c`. */
  function RowIndex(m: Csc, c: nat, i: nat): nat
    requires WellFormed(m) && c < m.cols && InColumn(m, c, i)
  {
    assert m.jc[c + 1] <= m.jc[m.cols];
    m.ir[i]
  }

  /** Value of the entry stored at position `i` of column `c`. */
  function Value(m: Csc, c: nat, i: nat): int
    requires WellFormed(m) && c < m.cols && InColumn(m, c, i)
  {
    assert m.jc[c + 1] <= m.jc[m.cols];
    m.pr[i]
  }

  /** Every row index stored in column `c` is below the row count. */
  ghost predicate ColumnRowsInRange(m: Csc, c: nat)
    requires WellFormed(m) && c < m.cols
  {
    forall i :: InColumn(m, c, i) ==> RowIndex(m, c, i) < m.rows
  }

  /** The row indices stored in column `c` strictly increase with position. */
  ghost predicate ColumnRowsIncreasing(m: Csc, c: nat)
    requires WellFormed(m) && c < m.cols
  {
    forall i, j :: InColumn(m, c, i) && InColumn(m, c, j) && i < j ==> RowIndex(m, c, i) < RowIndex(m, c, j)
  }
}
