/** The Khatri-Rao kernel itself: the sizing loops, the output buffers with
    their write cursor, the recursive column fill and the driver that runs
    them in order.  Inputs are immutable CSC values; the output lives in
    arrays that the methods fill in place. */
module KhatriRao {
  import opened SparseMatrix
  import opened Radix
  import opened KhatriRaoSpec
  import opened KhatriRaoColumn

  /** What the kernel assumes of its inputs without checking: at least two
      matrices (the column count is read from the second one), each
      well-formed, each with at least that many columns. */
  predicate Conforming(a: seq<Csc>)
  {
    |a| >= 2 && Covers(a, a[1].cols)
  }

  /** Row count of the output: the product of the input row counts. */
  method OutputRows(a: seq<Csc>) returns (bNoRows: nat)
    ensures bNoRows == Prod(RowCounts(a))
  {
    var rows := RowCounts(a);
    bNoRows := 1;
    var n := 0;
    while n < |a|
      invariant 0 <= n <= |a|
      invariant bNoRows == Prod(rows[..n])
    {
      assert rows[..n + 1][..n] == rows[..n];
      bNoRows := bNoRows * a[n].rows;
      n := n + 1;
    }
    assert rows[..|a|] == rows;
  }

  /** Entries of output column `c`: the product of the inputs' entry counts
      in column `c`, each read as the width of its half-open range. */
  method ColumnProduct(a: seq<Csc>, c: nat) returns (prod: nat)
    requires Covers(a, c + 1)
    ensures prod == Prod(Nnzs(a, c))
  {
    var s := Nnzs(a, c);
    prod := 1;
    var n := 0;
    while n < |a|
      invariant 0 <= n <= |a|
      invariant prod == Prod(s[..n])
    {
      ghost var width := a[n].jc[c + 1] - a[n].jc[c];
      assert width == s[n] && s[..n + 1][..n] == s[..n] && s[..n + 1][n] == s[n];
      prod := prod * (a[n].jc[c + 1] - a[n].jc[c]);
      assert prod == Prod(s[..n + 1]);
      n := n + 1;
    }
    assert s[..|a|] == s;
  }

  /** Capacity the output is allocated with: one slot more than the total
      number of output entries, since the count starts at 1. */
  method OutputCapacity(a: seq<Csc>, noCols: nat) returns (bNnz: nat)
    requires Covers(a, noCols)
    ensures bNnz == 1 + Sum(ColumnCounts(a, noCols))
  {
    var s := ColumnCounts(a, noCols);
    bNnz := 1;
    var c := 0;
    while c < noCols
      invariant 0 <= c <= noCols
      invariant bNnz == 1 + Sum(s[..c])
    {
      var prod := ColumnProduct(a, c);
      SumStep(s, c);
      bNnz := bNnz + prod;
      c := c + 1;
    }
    assert s[..noCols] == s;
  }

  /** `col` sits in `b` and `ir` from slot `start` on. */
  ghost predicate Holds(b: seq<int>, ir: seq<nat>, start: nat, col: seq<Entry>)
  {
    start + |col| <= |b| && |ir| == |b| &&
    forall k :: 0 <= k < |col| ==> b[start + k] == col[k].val && ir[start + k] == col[k].row
  }

  /** Entries written after a run that is in place extend it, provided the
      slots of the run were left alone. */
  lemma HoldsAppend(b0: seq<int>, ir0: seq<nat>, b1: seq<int>, ir1: seq<nat>,
                    start: nat, done: seq<Entry>, more: seq<Entry>)
    requires Holds(b0, ir0, start, done) && Holds(b1, ir1, start + |done|, more)
    requires |b1| == |b0| && forall p :: start <= p < start + |done| ==> b1[p] == b0[p] && ir1[p] == ir0[p]
    ensures Holds(b1, ir1, start, done + more)
  {
    var all := done + more;
    forall k | 0 <= k < |all| ensures b1[start + k] == all[k].val && ir1[start + k] == all[k].row {
      if k >= |done| {
        assert all[k] == more[k - |done|];
      } else {
        assert all[k] == done[k];
      }
    }
  }

  /** Columns already in place survive writes at or after the end of the last of them. */
  lemma HoldsKept(b0: seq<int>, ir0: seq<nat>, b1: seq<int>, ir1: seq<nat>,
                  jc: seq<nat>, cols: seq<seq<Entry>>, c: nat)
    requires |jc| == |cols| + 1 && c <= |cols|
    requires forall e, f :: 0 <= e <= f < |jc| ==> jc[e] <= jc[f]
    requires forall e :: 0 <= e < |cols| ==> jc[e + 1] == jc[e] + |cols[e]|
    requires forall e :: 0 <= e < c ==> Holds(b0, ir0, jc[e], cols[e])
    requires |b1| == |b0| == |ir0| == |ir1|
    requires forall p :: 0 <= p < jc[c] && p < |b0| ==> b1[p] == b0[p] && ir1[p] == ir0[p]
    ensures forall e :: 0 <= e < c ==> Holds(b1, ir1, jc[e], cols[e])
  {
    forall e | 0 <= e < c ensures Holds(b1, ir1, jc[e], cols[e]) {
      assert jc[e + 1] <= jc[c];
      assert Holds(b0, ir0, jc[e], cols[e]);
    }
  }

  /** Arrays whose offsets step by the column sizes and hold every column in
      its range form a well-formed matrix with those columns. */
  lemma AllColumnsHeld(m: Csc, cols: seq<seq<Entry>>)
    requires |m.jc| == m.cols + 1 && |cols| == m.cols && |m.ir| == |m.pr|
    requires forall e, f :: 0 <= e <= f <= m.cols ==> m.jc[e] <= m.jc[f]
    requires m.jc[m.cols] <= |m.pr|
    requires forall e :: 0 <= e < m.cols ==> m.jc[e + 1] == m.jc[e] + |cols[e]|
    requires forall e :: 0 <= e < m.cols ==> Holds(m.pr, m.ir, m.jc[e], cols[e])
    ensures WellFormed(m)
    ensures forall c :: 0 <= c < m.cols ==> ColumnView(m, c) == cols[c]
  {
    forall c | 0 <= c < m.cols ensures ColumnView(m, c) == cols[c] {
      assert Holds(m.pr, m.ir, m.jc[c], cols[c]);
      ViewOf(m, c, cols[c]);
    }
  }

  /** The kernel: sizes the output, allocates it, fills the column offsets,
      then fills the columns in order, each at the cursor left by the one
      before.  Output column `c` holds exactly `Column(a, c)` at its offset
      range; the one spare slot at the end stays zero. */
  method SparseKhatriRao(a: seq<Csc>) returns (out: Output)
    requires Conforming(a)
    ensures out.Valid() && fresh(out.b) && fresh(out.ir) && fresh(out.jc)
    ensures out.noRows == Prod(RowCounts(a)) && out.noCols == a[1].cols
    ensures out.b.Length == 1 + Sum(ColumnCounts(a, out.noCols))
    ensures out.jc[0] == 0
    ensures forall c :: 0 <= c < out.noCols ==> out.jc[c + 1] == out.jc[c] + Prod(Nnzs(a, c))
    ensures out.cnt == out.jc[out.noCols] == out.b.Length - 1
    ensures WellFormed(out.AsCsc())
    ensures forall c :: 0 <= c < out.noCols ==> ColumnView(out.AsCsc(), c) == Column(a, c)
    ensures out.b[out.b.Length - 1] == 0 && out.ir[out.b.Length - 1] == 0
  {
    out := AllocateOutput(a);
    out.FillColumns(a);
  }

  /** The sizing pass: the output's row count, its capacity (one more than
      its entry count), a zero-filled allocation of that size and the column
      offsets as prefix sums of the column sizes. */
  method AllocateOutput(a: seq<Csc>) returns (out: Output)
    requires Conforming(a)
    ensures out.Valid() && fresh(out.b) && fresh(out.ir) && fresh(out.jc)
    ensures out.noRows == Prod(RowCounts(a)) && out.noCols == a[1].cols
    ensures out.b.Length == 1 + Sum(ColumnCounts(a, out.noCols))
    ensures out.jc[0] == 0
    ensures forall c :: 0 <= c < out.noCols ==> out.jc[c + 1] == out.jc[c] + Prod(Nnzs(a, c))
    ensures forall c, d :: 0 <= c <= d <= out.noCols ==> out.jc[c] <= out.jc[d]
    ensures out.jc[out.noCols] == out.b.Length - 1
    ensures forall p :: 0 <= p < out.b.Length ==> out.b[p] == 0 && out.ir[p] == 0
  {
    var noCols := a[1].cols;
    var bNoRows := OutputRows(a);
    var bNnz := OutputCapacity(a, noCols);
    out := new Output(bNoRows, noCols, bNnz);
    out.ComputeJc(a);
    ghost var s := ColumnCounts(a, noCols);
    assert s[..noCols] == s;
  }

  /** The output matrix under construction: values `b`, row indices `ir`,
      column offsets `jc`, and the cursor `cnt` of the next slot to write. */
  class Output {
    const noRows: nat
    const noCols: nat
    const b: array<int>
    const ir: array<nat>
    const jc: array<nat>
    var cnt: nat

    ghost predicate Valid()
      reads this
    {
      b.Length == ir.Length && jc.Length == noCols + 1 && ir != jc
    }

    /** The arrays read as a CSC value. */
    function AsCsc(): Csc
      reads this, b, ir, jc
    {
      Csc(noRows, noCols, jc[..], ir[..], b[..])
    }

    /** A fresh `rows` by `cols` matrix with room for `nnz` entries, every
      slot and offset zero. */
    constructor (rows: nat, cols: nat, nnz: nat)
      ensures Valid() && noRows == rows && noCols == cols
      ensures b.Length == nnz && fresh(b) && fresh(ir) && fresh(jc)
      ensures forall p :: 0 <= p < nnz ==> b[p] == 0 && ir[p] == 0
      ensures forall c :: 0 <= c <= cols ==> jc[c] == 0
      ensures cnt == 0
    {
      noRows, noCols := rows, cols;
      b := new int[nnz](_ => 0);
      ir := new nat[nnz](_ => 0);
      jc := new nat[cols + 1](_ => 0);
      cnt := 0;
    }

    /** Fills the column offsets by prefix sums of the column sizes. */
    method ComputeJc(a: seq<Csc>)
      requires Valid() && Covers(a, noCols)
      modifies jc
      ensures Valid()
      ensures jc[0] == 0
      ensures forall c :: 0 <= c < noCols ==> jc[c + 1] == jc[c] + Prod(Nnzs(a, c))
      ensures forall c :: 0 <= c <= noCols ==> jc[c] == Sum(ColumnCounts(a, noCols)[..c])
      ensures forall c, d :: 0 <= c <= d <= noCols ==> jc[c] <= jc[d]
    {
      ghost var s := ColumnCounts(a, noCols);
      jc[0] := 0;
      var c := 0;
      while c < noCols
        invariant 0 <= c <= noCols
        invariant jc[0] == 0
        invariant forall e :: 0 <= e < c ==> jc[e + 1] == jc[e] + s[e]
      {
        var prod := ColumnProduct(a, c);
        jc[c + 1] := jc[c] + prod;
        c := c + 1;
      }
      PrefixSums(jc[..], s);
    }

    /** The recursion for column `c` from input `n` on, with partial value
      `x` and partial row index `ind`: writes the expansion's entries at the
      cursor, in order, and advances the cursor past them; no other slot
      changes. */
    method ComputeOutputColumn(a: seq<Csc>, c: nat, n: nat, x: int, ind: nat)
      requires Valid() && Covers(a, c + 1) && n < |a|
      requires cnt + |Expand(Views(a, c), RowCounts(a), n, x, ind)| <= b.Length
      modifies this`cnt, b, ir
      ensures Valid()
      ensures cnt == old(cnt) + |Expand(Views(a, c), RowCounts(a), n, x, ind)|
      ensures Holds(b[..], ir[..], old(cnt), Expand(Views(a, c), RowCounts(a), n, x, ind))
      ensures forall p :: 0 <= p < b.Length && !(old(cnt) <= p < cnt) ==> b[p] == old(b[p]) && ir[p] == old(ir[p])
      decreases |a| - n
    {
      ghost var vs, rows := Views(a, c), RowCounts(a);
      ghost var start := cnt;
      var lo, hi := a[n].jc[c], a[n].jc[c + 1];
      assert hi - lo == |vs[n]|;
      var i := lo;
      ghost var written: seq<Entry> := [];
      while i < hi
        invariant lo <= i <= hi
        invariant written == ExpandUpTo(vs, rows, n, x, ind, i - lo)
        invariant cnt == start + |written| <= b.Length
        invariant Holds(b[..], ir[..], start, written)
        invariant forall p :: 0 <= p < b.Length && !(start <= p < cnt) ==> b[p] == old(b[p]) && ir[p] == old(ir[p])
      {
        ghost var b0, ir0 := b[..], ir[..];
        ghost var j := i - lo;
        assert vs[n][j] == Entry(a[n].pr[i], a[n].ir[i]) by {
          assert vs[n][j] == ColumnView(a[n], c)[j];
        }
        var xNew := x * a[n].pr[i];
        var indNew := ind * a[n].rows + a[n].ir[i];
        ghost var blk := Block(vs, rows, n, x, ind, j);
        assert blk == Expand(vs, rows, n + 1, xNew, indNew);
        assert ExpandUpTo(vs, rows, n, x, ind, j + 1) == written + blk;
        ExpandUpToPrefix(vs, rows, n, x, ind, j + 1, hi - lo);
        if n < |a| - 1 {
          ComputeOutputColumn(a, c, n + 1, xNew, indNew);
        } else {
          assert blk == [Entry(xNew, indNew)];
          b[cnt] := xNew;
          ir[cnt] := indNew;
          cnt := cnt + 1;
        }
        assert Holds(b[..], ir[..], start + |written|, blk);
        assert forall p :: start <= p < start + |written| ==> b[..][p] == b0[p] && ir[..][p] == ir0[p];
        HoldsAppend(b0, ir0, b[..], ir[..], start, written, blk);
        written := written + blk;
        i := i + 1;
      }
    }

    /** Fills the columns in order from a zero cursor; column `c` lands in
      its offset range `jc[c] .. jc[c + 1]`, so the arrays then hold a
      well-formed matrix whose columns are the output columns, and the
      slots past the last column are left alone. */
    method FillColumns(a: seq<Csc>)
      requires Valid() && |a| > 0 && Covers(a, noCols)
      requires jc[0] == 0 && jc[noCols] < b.Length
      requires forall e :: 0 <= e < noCols ==> jc[e + 1] == jc[e] + Prod(Nnzs(a, e))
      requires forall e, f :: 0 <= e <= f <= noCols ==> jc[e] <= jc[f]
      modifies this`cnt, b, ir
      ensures Valid()
      ensures cnt == jc[noCols]
      ensures WellFormed(AsCsc())
      ensures forall c :: 0 <= c < noCols ==> ColumnView(AsCsc(), c) == Column(a, c)
      ensures forall p :: jc[noCols] <= p < b.Length ==> b[p] == old(b[p]) && ir[p] == old(ir[p])
    {
      ghost var cols, offsets := Columns(a, noCols), jc[..];
      assert forall e :: 0 <= e < noCols ==> offsets[e + 1] == offsets[e] + |cols[e]|;
      FillInOrder(a, cols, offsets);
      AllColumnsHeld(AsCsc(), cols);
    }

    /** The column loop: each column is written at the cursor the previous
      one left, which is its offset. */
    method FillInOrder(a: seq<Csc>, ghost cols: seq<seq<Entry>>, ghost offsets: seq<nat>)
      requires Valid() && |a| > 0 && Covers(a, noCols) && |cols| == noCols && jc[..] == offsets
      requires forall e :: 0 <= e < noCols ==> cols[e] == Column(a, e)
      requires forall e :: 0 <= e < noCols ==> offsets[e + 1] == offsets[e] + |cols[e]|
      requires forall e, f :: 0 <= e <= f <= noCols ==> offsets[e] <= offsets[f]
      requires offsets[0] == 0 && offsets[noCols] <= b.Length
      modifies this`cnt, b, ir
      ensures Valid() && cnt == offsets[noCols]
      ensures forall e :: 0 <= e < noCols ==> Holds(b[..], ir[..], offsets[e], cols[e])
      ensures forall p :: offsets[noCols] <= p < b.Length ==> b[p] == old(b[p]) && ir[p] == old(ir[p])
    {
      cnt := 0;
      var c := 0;
      while c < noCols
        invariant 0 <= c <= noCols
        invariant Valid() && cnt == offsets[c]
        invariant forall e :: 0 <= e < c ==> Holds(b[..], ir[..], offsets[e], cols[e])
        invariant forall p :: offsets[c] <= p < b.Length ==> b[p] == old(b[p]) && ir[p] == old(ir[p])
      {
        ghost var b0, ir0 := b[..], ir[..];
        assert cols[c] == Expand(Views(a, c), RowCounts(a), 0, 1, 0);
        assert offsets[c + 1] <= offsets[noCols];
        ComputeOutputColumn(a, c, 0, 1, 0);
        HoldsKept(b0, ir0, b[..], ir[..], offsets, cols, c);
        c := c + 1;
      }
    }
  }
}
