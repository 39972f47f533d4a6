/** What one output column holds, stated against the inputs' CSC arrays.

    A choice `t` picks, for each input `n`, the entry at offset `t[n]` inside
    column `c` of `a[n]` (stored position `ColumnStart(a[n], c) + t[n]`).
    Output column `c` lists one entry per choice, choices in lexicographic
    order; each entry's value is the product of the picked values and its
    row index is the mixed-radix number of the picked row indices. */
module KhatriRaoColumn {
  import opened SparseMatrix
  import opened Radix
  import opened KhatriRaoSpec
  import opened KhatriRaoGroup

  /** `t` picks one entry of column `c` from every input. */
  predicate IsChoice(a: seq<Csc>, c: nat, t: seq<nat>)
    requires Covers(a, c + 1)
  {
    InRadix(t, Nnzs(a, c))
  }

  /** The values a choice picks, read from the inputs' `pr` arrays. */
  function ChoiceValues(a: seq<Csc>, c: nat, t: seq<nat>): (v: seq<int>)
    requires Covers(a, c + 1) && IsChoice(a, c, t)
    ensures |v| == |a| && forall n :: 0 <= n < |a| ==> v[n] == Value(a[n], c, ColumnStart(a[n], c) + t[n])
  {
    seq(|a|, n requires 0 <= n < |a| => Value(a[n], c, ColumnStart(a[n], c) + t[n]))
  }

  /** The row indices a choice picks, read from the inputs' `ir` arrays. */
  function ChoiceRows(a: seq<Csc>, c: nat, t: seq<nat>): (r: seq<nat>)
    requires Covers(a, c + 1) && IsChoice(a, c, t)
    ensures |r| == |a| && forall n :: 0 <= n < |a| ==> r[n] == RowIndex(a[n], c, ColumnStart(a[n], c) + t[n])
  {
    seq(|a|, n requires 0 <= n < |a| => RowIndex(a[n], c, ColumnStart(a[n], c) + t[n]))
  }

  /** The output entry of a choice: the product of the picked values at the
      mixed-radix row index of the picked rows (input 0 most significant). */
  function ChoiceEntry(a: seq<Csc>, c: nat, t: seq<nat>): Entry
    requires Covers(a, c + 1) && IsChoice(a, c, t)
  {
    Entry(IntProd(ChoiceValues(a, c, t)), Compose(ChoiceRows(a, c, t), RowCounts(a)))
  }

  /** A choice is a pick over the column views, and the entry the recursion
      builds for it is the choice's entry. */
  lemma ChoiceIsPick(a: seq<Csc>, c: nat, t: seq<nat>)
    requires Covers(a, c + 1)
    ensures IsPick(Views(a, c), 0, t) <==> IsChoice(a, c, t)
    ensures IsChoice(a, c, t) ==> EntryOf(Views(a, c), RowCounts(a), 0, 1, 0, t) == ChoiceEntry(a, c, t)
  {
    var vs, rows := Views(a, c), RowCounts(a);
    assert Lengths(vs)[0..] == Nnzs(a, c);
    if IsChoice(a, c, t) {
      var v, d := PickedValues(vs, 0, t), PickedRows(vs, 0, t);
      assert v == ChoiceValues(a, c, t);
      assert d == ChoiceRows(a, c, t);
      assert rows[0..] == rows;
      MulAllProd(1, v);
      HornerCompose(0, d, rows);
    }
  }

  /** Output column `c` has one entry per choice: as many entries as the
      product of the inputs' entry counts in column `c`, and the entry of
      choice `t` at the mixed-radix position of `t`. */
  lemma ColumnIsProduct(a: seq<Csc>, c: nat)
    requires Covers(a, c + 1)
    ensures |Column(a, c)| == Prod(Nnzs(a, c))
    ensures forall t :: IsChoice(a, c, t) ==>
              Compose(t, Nnzs(a, c)) < |Column(a, c)| && Column(a, c)[Compose(t, Nnzs(a, c))] == ChoiceEntry(a, c, t)
  {
    var vs, rows := Views(a, c), RowCounts(a);
    assert Lengths(vs)[0..] == Nnzs(a, c);
    ExpandLength(vs, rows, 0, 1, 0);
    forall t | IsChoice(a, c, t)
      ensures Compose(t, Nnzs(a, c)) < |Column(a, c)| && Column(a, c)[Compose(t, Nnzs(a, c))] == ChoiceEntry(a, c, t)
    {
      ChoiceIsPick(a, c, t);
      ExpandAt(vs, rows, 0, 1, 0, t);
    }
  }

  /** The first `k` output columns; each has as many entries as the sizing pass counts. */
  function Columns(a: seq<Csc>, k: nat): (cs: seq<seq<Entry>>)
    requires Covers(a, k)
    ensures |cs| == k
    ensures forall c :: 0 <= c < k ==> cs[c] == Column(a, c) && |cs[c]| == ColumnCounts(a, k)[c]
  {
    ColumnSizes(a, k);
    seq(k, c requires 0 <= c < k => Column(a, c))
  }

  lemma ColumnSizes(a: seq<Csc>, k: nat)
    requires Covers(a, k)
    ensures forall c :: 0 <= c < k ==> |Column(a, c)| == ColumnCounts(a, k)[c]
  {
    forall c | 0 <= c < k ensures |Column(a, c)| == ColumnCounts(a, k)[c] {
      ColumnIsProduct(a, c);
    }
  }

  /** An output column is empty exactly when column `c` of some input is empty. */
  lemma EmptyColumn(a: seq<Csc>, c: nat)
    requires Covers(a, c + 1)
    ensures |Column(a, c)| == 0 <==> exists n :: 0 <= n < |a| && ColumnNnz(a[n], c) == 0
  {
    ColumnIsProduct(a, c);
    ProdZero(Nnzs(a, c));
  }

  /** Output column `c` holds nothing else: each of its entries is the entry
      of the choice whose mixed-radix position it occupies. */
  lemma ColumnChoiceAt(a: seq<Csc>, c: nat, k: nat) returns (t: seq<nat>)
    requires Covers(a, c + 1) && k < |Column(a, c)|
    ensures IsChoice(a, c, t) && Compose(t, Nnzs(a, c)) == k && Column(a, c)[k] == ChoiceEntry(a, c, t)
  {
    var vs, rows := Views(a, c), RowCounts(a);
    t := ExpandOnlyPicks(vs, rows, 0, 1, 0, k);
    ChoiceIsPick(a, c, t);
    assert Lengths(vs)[0..] == Nnzs(a, c);
  }

  /** When every input's row indices in column `c` are below its row count,
      the picked rows are digits of the output row index: it is below the
      product of the row counts and decomposes back into the picked rows. */
  lemma ColumnRowsDecode(a: seq<Csc>, c: nat, k: nat) returns (t: seq<nat>)
    requires Covers(a, c + 1) && k < |Column(a, c)|
    requires forall n :: 0 <= n < |a| ==> ColumnRowsInRange(a[n], c)
    ensures IsChoice(a, c, t) && Column(a, c)[k] == ChoiceEntry(a, c, t)
    ensures Column(a, c)[k].row < Prod(RowCounts(a))
    ensures forall n :: 0 <= n < |a| ==> RowCounts(a)[n] > 0
    ensures Decompose(Column(a, c)[k].row, RowCounts(a)) == ChoiceRows(a, c, t)
  {
    t := ColumnChoiceAt(a, c, k);
    var d := ChoiceRows(a, c, t);
    RowsInRadix(a, c, t);
    ComposeBound(d, RowCounts(a));
    DecomposeCompose(d, RowCounts(a));
  }

  /** When every input's row indices in column `c` are in range and strictly
      increasing, so are the row indices of output column `c`. */
  lemma ColumnRowsSorted(a: seq<Csc>, c: nat, k1: nat, k2: nat)
    requires Covers(a, c + 1) && k1 < k2 < |Column(a, c)|
    requires forall n :: 0 <= n < |a| ==> ColumnRowsInRange(a[n], c) && ColumnRowsIncreasing(a[n], c)
    ensures Column(a, c)[k1].row < Column(a, c)[k2].row
  {
    var t := ColumnChoiceAt(a, c, k1);
    var u := ColumnChoiceAt(a, c, k2);
    LexTotal(t, u);
    if LexLess(u, t) {
      ComposeLexMonotone(u, t, Nnzs(a, c));
      assert false;
    }
    ChoiceRowsLex(a, c, t, u);
    RowsInRadix(a, c, t);
    RowsInRadix(a, c, u);
    ComposeLexMonotone(ChoiceRows(a, c, t), ChoiceRows(a, c, u), RowCounts(a));
  }

  /** With increasing rows in every input, a lexicographically smaller
      choice picks lexicographically smaller rows. */
  lemma ChoiceRowsLex(a: seq<Csc>, c: nat, t: seq<nat>, u: seq<nat>)
    requires Covers(a, c + 1) && IsChoice(a, c, t) && IsChoice(a, c, u) && LexLess(t, u)
    requires forall n :: 0 <= n < |a| ==> ColumnRowsIncreasing(a[n], c)
    ensures LexLess(ChoiceRows(a, c, t), ChoiceRows(a, c, u))
  {
    var j :| 0 <= j < |t| && t[..j] == u[..j] && t[j] < u[j];
    ChoiceRowsPrefix(a, c, t, u, j);
    ChoiceRowLess(a, c, t, u, j);
  }

  /** Choices that agree before input `j` pick the same rows before `j`. */
  lemma ChoiceRowsPrefix(a: seq<Csc>, c: nat, t: seq<nat>, u: seq<nat>, j: nat)
    requires Covers(a, c + 1) && IsChoice(a, c, t) && IsChoice(a, c, u)
    requires j < |t| && t[..j] == u[..j]
    ensures ChoiceRows(a, c, t)[..j] == ChoiceRows(a, c, u)[..j]
  {
    var d, e := ChoiceRows(a, c, t), ChoiceRows(a, c, u);
    forall n | 0 <= n < j ensures d[n] == e[n] {
      assert t[n] == t[..j][n] == u[..j][n] == u[n];
    }
  }

  /** With increasing rows, a later entry of one column has a larger row. */
  lemma ChoiceRowLess(a: seq<Csc>, c: nat, t: seq<nat>, u: seq<nat>, j: nat)
    requires Covers(a, c + 1) && IsChoice(a, c, t) && IsChoice(a, c, u)
    requires j < |t| && t[j] < u[j] && ColumnRowsIncreasing(a[j], c)
    ensures ChoiceRows(a, c, t)[j] < ChoiceRows(a, c, u)[j]
  {
    assert InColumn(a[j], c, ColumnStart(a[j], c) + t[j]);
    assert InColumn(a[j], c, ColumnStart(a[j], c) + u[j]);
  }

  /** A matrix whose columns are the output columns has every row index
      below the product of the input row counts, and strictly increasing
      row indices in each column, when every input has both properties in
      every column. */
  lemma OutputRowsSorted(a: seq<Csc>, m: Csc)
    requires Covers(a, m.cols) && WellFormed(m) && m.rows == Prod(RowCounts(a))
    requires forall c :: 0 <= c < m.cols ==> ColumnView(m, c) == Column(a, c)
    requires forall n, c :: 0 <= n < |a| && 0 <= c < m.cols ==>
               ColumnRowsInRange(a[n], c) && ColumnRowsIncreasing(a[n], c)
    ensures forall c :: 0 <= c < m.cols ==> ColumnRowsInRange(m, c) && ColumnRowsIncreasing(m, c)
  {
    forall c | 0 <= c < m.cols ensures ColumnRowsInRange(m, c) && ColumnRowsIncreasing(m, c) {
      OutputColumnSorted(a, m, c);
    }
  }

  lemma OutputColumnSorted(a: seq<Csc>, m: Csc, c: nat)
    requires Covers(a, c + 1) && WellFormed(m) && c < m.cols && m.rows == Prod(RowCounts(a))
    requires ColumnView(m, c) == Column(a, c)
    requires forall n :: 0 <= n < |a| ==> ColumnRowsInRange(a[n], c) && ColumnRowsIncreasing(a[n], c)
    ensures ColumnRowsInRange(m, c) && ColumnRowsIncreasing(m, c)
  {
    forall i: nat | InColumn(m, c, i) ensures RowIndex(m, c, i) < m.rows {
      OutputRowInRange(a, m, c, i);
    }
    forall i: nat, j: nat | InColumn(m, c, i) && InColumn(m, c, j) && i < j
      ensures RowIndex(m, c, i) < RowIndex(m, c, j)
    {
      OutputRowsIncrease(a, m, c, i, j);
    }
  }

  lemma OutputRowInRange(a: seq<Csc>, m: Csc, c: nat, i: nat)
    requires Covers(a, c + 1) && WellFormed(m) && c < m.cols && m.rows == Prod(RowCounts(a))
    requires ColumnView(m, c) == Column(a, c) && InColumn(m, c, i)
    requires forall n :: 0 <= n < |a| ==> ColumnRowsInRange(a[n], c)
    ensures RowIndex(m, c, i) < m.rows
  {
    var k := i - ColumnStart(m, c);
    assert RowIndex(m, c, i) == ColumnView(m, c)[k].row;
    var _ := ColumnRowsDecode(a, c, k);
  }

  lemma OutputRowsIncrease(a: seq<Csc>, m: Csc, c: nat, i: nat, j: nat)
    requires Covers(a, c + 1) && WellFormed(m) && c < m.cols
    requires ColumnView(m, c) == Column(a, c) && InColumn(m, c, i) && InColumn(m, c, j) && i < j
    requires forall n :: 0 <= n < |a| ==> ColumnRowsInRange(a[n], c) && ColumnRowsIncreasing(a[n], c)
    ensures RowIndex(m, c, i) < RowIndex(m, c, j)
  {
    var lo := ColumnStart(m, c);
    assert RowIndex(m, c, i) == ColumnView(m, c)[i - lo].row;
    assert RowIndex(m, c, j) == ColumnView(m, c)[j - lo].row;
    ColumnRowsSorted(a, c, i - lo, j - lo);
  }

  /** With row indices in range, a choice's rows are digits in the radix of the row counts. */
  lemma RowsInRadix(a: seq<Csc>, c: nat, t: seq<nat>)
    requires Covers(a, c + 1) && IsChoice(a, c, t)
    requires forall n :: 0 <= n < |a| ==> ColumnRowsInRange(a[n], c)
    ensures InRadix(ChoiceRows(a, c, t), RowCounts(a))
  {
    var d := ChoiceRows(a, c, t);
    forall n | 0 <= n < |a| ensures d[n] < RowCounts(a)[n] {
      assert InColumn(a[n], c, ColumnStart(a[n], c) + t[n]);
    }
  }

  /** The product is associative: column `c` of the product of `A`, `B` and
      `C` equals column `c` of the product of `A` with any matrix `M` that
      holds the product of `B` and `C` (same row count, same column `c`). */
  lemma ColumnAssoc(A: Csc, B: Csc, C: Csc, M: Csc, c: nat)
    requires WellFormed(A) && WellFormed(B) && WellFormed(C) && WellFormed(M)
    requires c < A.cols && c < B.cols && c < C.cols && c < M.cols
    requires M.rows == B.rows * C.rows
    requires ColumnView(M, c) == Column([B, C], c)
    ensures Column([A, M], c) == Column([A, B, C], c)
  {
    var vs3, rows3 := Views([A, B, C], c), RowCounts([A, B, C]);
    assert vs3[1..] == Views([B, C], c) && rows3[1..] == RowCounts([B, C]);
    assert Prod(rows3[1..]) == M.rows by {
      var r := rows3[1..];
      assert r[..1] == [B.rows] && r[1] == C.rows;
      assert [B.rows][..0] == [];
      assert Prod(r[..1]) == B.rows;
    }
    assert Views([A, M], c) == [vs3[0], Expand(vs3[1..], rows3[1..], 0, 1, 0)];
    assert RowCounts([A, M]) == [rows3[0], Prod(rows3[1..])];
    GroupTailUpTo(vs3, rows3, |vs3[0]|);
  }
}
