/** Grouping inputs of the Khatri-Rao recursion.

    The recursion is associative: the inputs after the first may be replaced
    by one input holding their product, whose row count is the product of
    their row counts, without changing what is written.  This module proves
    it at the level of column views. */
module KhatriRaoGroup {
  import opened Radix
  import opened KhatriRaoSpec

  /** `es` with every value multiplied by `y` and every row index shifted by `z`. */
  function Scaled(es: seq<Entry>, y: int, z: nat): (r: seq<Entry>)
    ensures |r| == |es| && forall k :: 0 <= k < |es| ==> r[k] == Entry(y * es[k].val, es[k].row + z)
  {
    seq(|es|, k requires 0 <= k < |es| => Entry(y * es[k].val, es[k].row + z))
  }

  lemma ScaledAppend(es: seq<Entry>, fs: seq<Entry>, y: int, z: nat)
    ensures Scaled(es + fs, y, z) == Scaled(es, y, z) + Scaled(fs, y, z)
  {
    assert forall k :: 0 <= k < |es| + |fs| ==> (es + fs)[k] == if k < |es| then es[k] else fs[k - |es|];
  }

  /** Starting the recursion from a value scaled by `y` and a row index
      raised by `z` scales every value it writes by `y` and raises every row
      index by `z` times the product of the remaining row counts. */
  lemma {:induction false} ExpandShift(vs: seq<seq<Entry>>, rows: seq<nat>, n: nat, x: int, ind: nat, y: int, z: nat)
    requires |rows| == |vs| && n <= |vs|
    ensures Expand(vs, rows, n, y * x, ind + z) == Scaled(Expand(vs, rows, n, x, ind), y, z * Prod(rows[n..]))
    decreases |vs| - n, 1, 0
  {
    if n == |vs| {
      assert rows[n..] == [];
    } else {
      ExpandUpToShift(vs, rows, n, x, ind, y, z, |vs[n]|);
    }
  }

  lemma {:induction false} ExpandUpToShift(vs: seq<seq<Entry>>, rows: seq<nat>, n: nat, x: int, ind: nat, y: int, z: nat, i: nat)
    requires |rows| == |vs| && n < |vs| && i <= |vs[n]|
    ensures ExpandUpTo(vs, rows, n, y * x, ind + z, i) == Scaled(ExpandUpTo(vs, rows, n, x, ind, i), y, z * Prod(rows[n..]))
    decreases |vs| - n, 0, i
  {
    if i > 0 {
      var e := vs[n][i - 1];
      var x', ind', z' := x * e.val, ind * rows[n] + e.row, z * rows[n];
      ExpandUpToShift(vs, rows, n, x, ind, y, z, i - 1);
      ExpandShift(vs, rows, n + 1, x', ind', y, z');
      RegroupStep(x, y, e.val, ind, z, rows[n], e.row);
      ProdCons(rows[n..]);
      assert rows[n..][1..] == rows[n + 1..];
      assert z' * Prod(rows[n + 1..]) == z * Prod(rows[n..]) by {
        assert z' * Prod(rows[n + 1..]) == z * (rows[n] * Prod(rows[n + 1..]));
      }
      ScaledAppend(ExpandUpTo(vs, rows, n, x, ind, i - 1), Block(vs, rows, n, x, ind, i - 1), y, z * Prod(rows[n..]));
    }
  }

  lemma RegroupStep(x: int, y: int, v: int, ind: nat, z: nat, r: nat, row: nat)
    ensures (y * x) * v == y * (x * v)
    ensures (ind + z) * r + row == (ind * r + row) + z * r
  {
  }

  /** From input `n >= 1` on, the recursion ignores the inputs before: it is
      the recursion over the inputs with the first one dropped. */
  lemma {:induction false} ExpandDropFirst(vs: seq<seq<Entry>>, rows: seq<nat>, n: nat, x: int, ind: nat)
    requires |rows| == |vs| && 1 <= n <= |vs|
    ensures Expand(vs, rows, n, x, ind) == Expand(vs[1..], rows[1..], n - 1, x, ind)
    decreases |vs| - n, 1, 0
  {
    if n < |vs| {
      ExpandUpToDropFirst(vs, rows, n, x, ind, |vs[n]|);
    }
  }

  lemma {:induction false} ExpandUpToDropFirst(vs: seq<seq<Entry>>, rows: seq<nat>, n: nat, x: int, ind: nat, i: nat)
    requires |rows| == |vs| && 1 <= n < |vs| && i <= |vs[n]|
    ensures ExpandUpTo(vs, rows, n, x, ind, i) == ExpandUpTo(vs[1..], rows[1..], n - 1, x, ind, i)
    decreases |vs| - n, 0, i
  {
    if i > 0 {
      var e := vs[n][i - 1];
      assert vs[1..][n - 1] == vs[n] && rows[1..][n - 1] == rows[n];
      ExpandUpToDropFirst(vs, rows, n, x, ind, i - 1);
      ExpandDropFirst(vs, rows, n + 1, x * e.val, ind * rows[n] + e.row);
    }
  }

  /** At the last input the recursion writes that input's column, each value
      scaled by the partial product and each row index raised by the shifted
      partial row index. */
  lemma LastLayer(vs: seq<seq<Entry>>, rows: seq<nat>, x: int, ind: nat)
    requires |rows| == |vs| > 0
    ensures Expand(vs, rows, |vs| - 1, x, ind) == Scaled(vs[|vs| - 1], x, ind * rows[|vs| - 1])
  {
    LastLayerUpTo(vs, rows, x, ind, |vs[|vs| - 1]|);
    assert vs[|vs| - 1][..|vs[|vs| - 1]|] == vs[|vs| - 1];
  }

  lemma {:induction false} LastLayerUpTo(vs: seq<seq<Entry>>, rows: seq<nat>, x: int, ind: nat, i: nat)
    requires |rows| == |vs| > 0 && i <= |vs[|vs| - 1]|
    ensures ExpandUpTo(vs, rows, |vs| - 1, x, ind, i) == Scaled(vs[|vs| - 1][..i], x, ind * rows[|vs| - 1])
  {
    var n := |vs| - 1;
    if i > 0 {
      LastLayerUpTo(vs, rows, x, ind, i - 1);
      var col := vs[n];
      assert col[..i] == col[..i - 1] + [col[i - 1]];
      ScaledAppend(col[..i - 1], [col[i - 1]], x, ind * rows[n]);
      var e := col[i - 1];
      assert Block(vs, rows, n, x, ind, i - 1) == [Entry(x * e.val, ind * rows[n] + e.row)];
      assert Scaled([e], x, ind * rows[n]) == [Entry(x * e.val, e.row + ind * rows[n])];
    }
  }

  /** Grouping the inputs after the first: the recursion over the first
      input and the product of the rest (as one input whose row count is the
      product of theirs) writes what the recursion over all of them writes. */
  lemma {:induction false} GroupTailUpTo(vs: seq<seq<Entry>>, rows: seq<nat>, i: nat)
    requires |rows| == |vs| >= 2 && i <= |vs[0]|
    ensures ExpandUpTo([vs[0], Expand(vs[1..], rows[1..], 0, 1, 0)], [rows[0], Prod(rows[1..])], 0, 1, 0, i)
         == ExpandUpTo(vs, rows, 0, 1, 0, i)
  {
    if i > 0 {
      GroupTailUpTo(vs, rows, i - 1);
      var tail, rest := Expand(vs[1..], rows[1..], 0, 1, 0), Prod(rows[1..]);
      var vs2, rows2 := [vs[0], tail], [rows[0], rest];
      var e := vs[0][i - 1];
      var x, ind := 1 * e.val, 0 * rows[0] + e.row;
      LastLayer(vs2, rows2, x, ind);
      ExpandDropFirst(vs, rows, 1, x, ind);
      ExpandShift(vs[1..], rows[1..], 0, 1, 0, x, ind);
      assert x * 1 == x && 0 + ind == ind && rows[1..][0..] == rows[1..];
    }
  }
}
