/** What the filling pass of the Khatri-Rao kernel writes, as pure functions.

    For one column `c` the kernel recurses over the inputs `a[0] .. a[N-1]`,
    picking one stored entry of column `c` per input; each complete pick
    yields one output entry whose value is the product of the picked values
    and whose row index is the mixed-radix number of the picked row indices
    (input 0 most significant).  `Expand` is that recursion, over the
    column-`c` views of the inputs, as the sequence of entries in the order
    the kernel writes them. */
module KhatriRaoSpec {
  import opened SparseMatrix
  import opened Radix

  /** A value with its row index: a stored input entry or a written output entry. */
  datatype Entry = Entry(val: int, row: nat)

  /** Every input is well-formed and has at least `k` columns. */
  predicate Covers(a: seq<Csc>, k: nat)
  {
    forall n :: 0 <= n < |a| ==> WellFormed(a[n]) && k <= a[n].cols
  }

  /** Row counts of the inputs: the radices of an output row index. */
  function RowCounts(a: seq<Csc>): (r: seq<nat>)
    ensures |r| == |a| && forall n :: 0 <= n < |a| ==> r[n] == a[n].rows
  {
    seq(|a|, n requires 0 <= n < |a| => a[n].rows)
  }

  /** Entries each input stores in column `c`. */
  function Nnzs(a: seq<Csc>, c: nat): (s: seq<nat>)
    requires Covers(a, c + 1)
    ensures |s| == |a| && forall n :: 0 <= n < |a| ==> s[n] == ColumnNnz(a[n], c)
  {
    seq(|a|, n requires 0 <= n < |a| => ColumnNnz(a[n], c))
  }

  /** Entries of each of the first `k` output columns, as the sizing pass counts them. */
  function ColumnCounts(a: seq<Csc>, k: nat): (s: seq<nat>)
    requires Covers(a, k)
    ensures |s| == k && forall c :: 0 <= c < k ==> s[c] == Prod(Nnzs(a, c))
  {
    seq(k, c requires 0 <= c < k => Prod(Nnzs(a, c)))
  }

  /** The entries `m` stores in column `c`, in stored order: entry `k` is the
      one at position `ColumnStart(m, c) + k` of `ir` and `pr`. */
  function ColumnView(m: Csc, c: nat): (v: seq<Entry>)
    requires WellFormed(m) && c < m.cols
    ensures |v| == ColumnNnz(m, c)
    ensures forall k :: 0 <= k < |v| ==>
              v[k] == Entry(Value(m, c, ColumnStart(m, c) + k), RowIndex(m, c, ColumnStart(m, c) + k))
  {
    seq(ColumnNnz(m, c), k requires 0 <= k < ColumnNnz(m, c) =>
      Entry(Value(m, c, ColumnStart(m, c) + k), RowIndex(m, c, ColumnStart(m, c) + k)))
  }

  /** A column whose range holds the entries of `col`, in order, has `col` as its view. */
  lemma ViewOf(m: Csc, c: nat, col: seq<Entry>)
    requires WellFormed(m) && c < m.cols && ColumnEnd(m, c) == ColumnStart(m, c) + |col|
    requires forall k :: 0 <= k < |col| ==>
               ColumnStart(m, c) + k < |m.pr| && m.pr[ColumnStart(m, c) + k] == col[k].val && m.ir[ColumnStart(m, c) + k] == col[k].row
    ensures ColumnView(m, c) == col
  {
  }

  /** Column `c` of every input. */
  function Views(a: seq<Csc>, c: nat): (vs: seq<seq<Entry>>)
    requires Covers(a, c + 1)
    ensures |vs| == |a| && forall n :: 0 <= n < |a| ==> vs[n] == ColumnView(a[n], c)
    ensures Lengths(vs) == Nnzs(a, c)
  {
    var vs := seq(|a|, n requires 0 <= n < |a| => ColumnView(a[n], c));
    assert Lengths(vs) == Nnzs(a, c);
    vs
  }

  /** Number of entries in each view. */
  function Lengths(vs: seq<seq<Entry>>): (l: seq<nat>)
    ensures |l| == |vs| && forall n :: 0 <= n < |vs| ==> l[n] == |vs[n]|
  {
    seq(|vs|, n requires 0 <= n < |vs| => |vs[n]|)
  }

  /** Output entries produced from input `n` on, given the column views `vs`
      and row counts `rows` of the inputs, the partial product `x` and the
      partial row index `ind` accumulated so far.  Past the last input the
      pick is complete and yields one entry. */
  function Expand(vs: seq<seq<Entry>>, rows: seq<nat>, n: nat, x: int, ind: nat): seq<Entry>
    requires |rows| == |vs| && n <= |vs|
    decreases |vs| - n, 1, 0
  {
    if n == |vs| then [Entry(x, ind)]
    else ExpandUpTo(vs, rows, n, x, ind, |vs[n]|)
  }

  /** The part of `Expand(vs, rows, n, x, ind)` that comes from the first `i`
      entries of input `n`: one block per entry, in stored order. */
  function ExpandUpTo(vs: seq<seq<Entry>>, rows: seq<nat>, n: nat, x: int, ind: nat, i: nat): seq<Entry>
    requires |rows| == |vs| && n < |vs| && i <= |vs[n]|
    decreases |vs| - n, 0, i
  {
    if i == 0 then []
    else ExpandUpTo(vs, rows, n, x, ind, i - 1) + Block(vs, rows, n, x, ind, i - 1)
  }

  /** The entries produced once entry `i` of input `n` is picked: its value
      joins the partial product and its row index becomes the next
      mixed-radix digit of the partial row index. */
  function Block(vs: seq<seq<Entry>>, rows: seq<nat>, n: nat, x: int, ind: nat, i: nat): seq<Entry>
    requires |rows| == |vs| && n < |vs| && i < |vs[n]|
    decreases |vs| - n, 0, 0
  {
    Expand(vs, rows, n + 1, x * vs[n][i].val, ind * rows[n] + vs[n][i].row)
  }

  /** Output column `c`: the expansion started with value 1 and row index 0. */
  function Column(a: seq<Csc>, c: nat): seq<Entry>
    requires Covers(a, c + 1)
  {
    Expand(Views(a, c), RowCounts(a), 0, 1, 0)
  }

  /** A pick from input `n` on: `t[j]` indexes the entries of input `n + j`. */
  predicate IsPick(vs: seq<seq<Entry>>, n: nat, t: seq<nat>)
    requires n <= |vs|
  {
    InRadix(t, Lengths(vs)[n..])
  }

  /** Where the pick `t` lands in `Expand(vs, _, n, _, _)`: the mixed-radix
      number of its indices, with the inputs' entry counts as radices. */
  function Position(vs: seq<seq<Entry>>, n: nat, t: seq<nat>): nat
    requires n <= |vs| && IsPick(vs, n, t)
  {
    Compose(t, Lengths(vs)[n..])
  }

  /** The values the pick `t` selects. */
  function PickedValues(vs: seq<seq<Entry>>, n: nat, t: seq<nat>): (v: seq<int>)
    requires n <= |vs| && IsPick(vs, n, t)
    ensures |v| == |t| && forall j :: 0 <= j < |t| ==> v[j] == vs[n + j][t[j]].val
  {
    seq(|t|, j requires 0 <= j < |t| => vs[n + j][t[j]].val)
  }

  /** The row indices the pick `t` selects. */
  function PickedRows(vs: seq<seq<Entry>>, n: nat, t: seq<nat>): (r: seq<nat>)
    requires n <= |vs| && IsPick(vs, n, t)
    ensures |r| == |t| && forall j :: 0 <= j < |t| ==> r[j] == vs[n + j][t[j]].row
  {
    seq(|t|, j requires 0 <= j < |t| => vs[n + j][t[j]].row)
  }

  /** The entry the pick `t` yields when the inputs before `n` contributed
      the partial value `x` and partial row index `ind`: the running product
      and running mixed-radix row index, carried on through `t`. */
  function EntryOf(vs: seq<seq<Entry>>, rows: seq<nat>, n: nat, x: int, ind: nat, t: seq<nat>): Entry
    requires |rows| == |vs| && n <= |vs| && IsPick(vs, n, t)
  {
    Entry(MulAll(x, PickedValues(vs, n, t)), Horner(ind, PickedRows(vs, n, t), rows[n..]))
  }

  // ---------------------------------------------------------------- sizes

  /** The expansion from input `n` on has one entry per pick: the product of
      the remaining inputs' entry counts. */
  lemma {:induction false} ExpandLength(vs: seq<seq<Entry>>, rows: seq<nat>, n: nat, x: int, ind: nat)
    requires |rows| == |vs| && n <= |vs|
    ensures |Expand(vs, rows, n, x, ind)| == Prod(Lengths(vs)[n..])
    decreases |vs| - n, 1, 0
  {
    var s := Lengths(vs);
    if n == |vs| {
      assert s[n..] == [];
    } else {
      ExpandUpToLength(vs, rows, n, x, ind, |vs[n]|);
      ProdCons(s[n..]);
      assert s[n..][1..] == s[n + 1..];
    }
  }

  /** Each of the first `i` entries of input `n` contributes one block of
      `Prod(Lengths(vs)[n + 1..])` entries. */
  lemma {:induction false} ExpandUpToLength(vs: seq<seq<Entry>>, rows: seq<nat>, n: nat, x: int, ind: nat, i: nat)
    requires |rows| == |vs| && n < |vs| && i <= |vs[n]|
    ensures |ExpandUpTo(vs, rows, n, x, ind, i)| == i * Prod(Lengths(vs)[n + 1..])
    decreases |vs| - n, 0, i
  {
    if i > 0 {
      ExpandUpToLength(vs, rows, n, x, ind, i - 1);
      BlockLength(vs, rows, n, x, ind, i - 1);
      MulSucc(i - 1, Prod(Lengths(vs)[n + 1..]));
    }
  }

  lemma {:induction false} BlockLength(vs: seq<seq<Entry>>, rows: seq<nat>, n: nat, x: int, ind: nat, i: nat)
    requires |rows| == |vs| && n < |vs| && i < |vs[n]|
    ensures |Block(vs, rows, n, x, ind, i)| == Prod(Lengths(vs)[n + 1..])
    decreases |vs| - n, 0, 0
  {
    ExpandLength(vs, rows, n + 1, x * vs[n][i].val, ind * rows[n] + vs[n][i].row);
  }

  lemma MulSucc(k: nat, p: nat)
    ensures k * p + p == (k + 1) * p
  {
  }

  /** Filling in stored order only appends: a shorter run is a prefix of a longer one. */
  lemma {:induction false} ExpandUpToPrefix(vs: seq<seq<Entry>>, rows: seq<nat>, n: nat, x: int, ind: nat, i: nat, j: nat)
    requires |rows| == |vs| && n < |vs| && i <= j <= |vs[n]|
    ensures ExpandUpTo(vs, rows, n, x, ind, i) <= ExpandUpTo(vs, rows, n, x, ind, j)
    decreases j - i
  {
    if i < j {
      ExpandUpToPrefix(vs, rows, n, x, ind, i, j - 1);
    }
  }

  /** Entry `k` of the block of entry `j` sits right after the blocks of the entries before `j`. */
  lemma ExpandUpToBlock(vs: seq<seq<Entry>>, rows: seq<nat>, n: nat, x: int, ind: nat, i: nat, j: nat, k: nat)
    requires |rows| == |vs| && n < |vs| && j < i <= |vs[n]|
    requires k < |Block(vs, rows, n, x, ind, j)|
    ensures |ExpandUpTo(vs, rows, n, x, ind, j)| + k < |ExpandUpTo(vs, rows, n, x, ind, i)|
    ensures ExpandUpTo(vs, rows, n, x, ind, i)[|ExpandUpTo(vs, rows, n, x, ind, j)| + k]
         == Block(vs, rows, n, x, ind, j)[k]
  {
    var pre, e := ExpandUpTo(vs, rows, n, x, ind, j), Block(vs, rows, n, x, ind, j);
    assert ExpandUpTo(vs, rows, n, x, ind, j + 1) == pre + e;
    ExpandUpToPrefix(vs, rows, n, x, ind, j + 1, i);
    assert (pre + e)[|pre| + k] == e[k];
  }

  // ---------------------------------------------------------------- picks

  /** Peeling the first index of a pick: the rest is a pick from input
      `n + 1` on, it lands inside the block of the first index, and it yields
      the entry the recursion computes with the updated partial value and
      row index. */
  lemma PickCons(vs: seq<seq<Entry>>, rows: seq<nat>, n: nat, x: int, ind: nat, t: seq<nat>)
    requires |rows| == |vs| && n < |vs| && IsPick(vs, n, t)
    ensures t[0] < |vs[n]| && IsPick(vs, n + 1, t[1..])
    ensures Position(vs, n, t) == |ExpandUpTo(vs, rows, n, x, ind, t[0])| + Position(vs, n + 1, t[1..])
    ensures EntryOf(vs, rows, n, x, ind, t)
         == EntryOf(vs, rows, n + 1, x * vs[n][t[0]].val, ind * rows[n] + vs[n][t[0]].row, t[1..])
  {
    var s := Lengths(vs);
    assert s[n..][1..] == s[n + 1..];
    ExpandUpToLength(vs, rows, n, x, ind, t[0]);
    var r, d, v := rows[n..], PickedRows(vs, n, t), PickedValues(vs, n, t);
    assert r[1..] == rows[n + 1..];
    assert d[1..] == PickedRows(vs, n + 1, t[1..]);
    assert v[1..] == PickedValues(vs, n + 1, t[1..]);
  }

  /** Every pick appears in the expansion, at its position, with its entry. */
  lemma {:induction false} ExpandAt(vs: seq<seq<Entry>>, rows: seq<nat>, n: nat, x: int, ind: nat, t: seq<nat>)
    requires |rows| == |vs| && n <= |vs| && IsPick(vs, n, t)
    ensures Position(vs, n, t) < |Expand(vs, rows, n, x, ind)|
    ensures Expand(vs, rows, n, x, ind)[Position(vs, n, t)] == EntryOf(vs, rows, n, x, ind, t)
    decreases |vs| - n
  {
    if n == |vs| {
      assert rows[n..] == [];
    } else {
      var j := t[0];
      PickCons(vs, rows, n, x, ind, t);
      ExpandAt(vs, rows, n + 1, x * vs[n][j].val, ind * rows[n] + vs[n][j].row, t[1..]);
      ExpandUpToBlock(vs, rows, n, x, ind, |vs[n]|, j, Position(vs, n + 1, t[1..]));
    }
  }

  /** Every entry of the expansion is the entry of some pick at that position. */
  lemma {:induction false} ExpandOnlyPicks(vs: seq<seq<Entry>>, rows: seq<nat>, n: nat, x: int, ind: nat, k: nat)
    returns (t: seq<nat>)
    requires |rows| == |vs| && n <= |vs| && k < |Expand(vs, rows, n, x, ind)|
    ensures IsPick(vs, n, t) && Position(vs, n, t) == k
    ensures Expand(vs, rows, n, x, ind)[k] == EntryOf(vs, rows, n, x, ind, t)
    decreases |vs| - n, 1, 0
  {
    if n == |vs| {
      t := [];
      assert Lengths(vs)[n..] == [] && rows[n..] == [];
    } else {
      t := ExpandUpToOnlyPicks(vs, rows, n, x, ind, |vs[n]|, k);
    }
  }

  lemma {:induction false} ExpandUpToOnlyPicks(vs: seq<seq<Entry>>, rows: seq<nat>, n: nat, x: int, ind: nat, i: nat, k: nat)
    returns (t: seq<nat>)
    requires |rows| == |vs| && n < |vs| && i <= |vs[n]|
    requires k < |ExpandUpTo(vs, rows, n, x, ind, i)|
    ensures IsPick(vs, n, t) && Position(vs, n, t) == k
    ensures ExpandUpTo(vs, rows, n, x, ind, i)[k] == EntryOf(vs, rows, n, x, ind, t)
    decreases |vs| - n, 0, i
  {
    var prev, blk := ExpandUpTo(vs, rows, n, x, ind, i - 1), Block(vs, rows, n, x, ind, i - 1);
    assert ExpandUpTo(vs, rows, n, x, ind, i) == prev + blk;
    if k < |prev| {
      t := ExpandUpToOnlyPicks(vs, rows, n, x, ind, i - 1, k);
      assert (prev + blk)[k] == prev[k];
    } else {
      t := BlockOnlyPicks(vs, rows, n, x, ind, i - 1, k - |prev|);
      assert (prev + blk)[k] == blk[k - |prev|];
    }
  }

  /** Every entry of the block of entry `j` is the entry of a pick that starts with `j`. */
  lemma {:induction false} BlockOnlyPicks(vs: seq<seq<Entry>>, rows: seq<nat>, n: nat, x: int, ind: nat, j: nat, k: nat)
    returns (t: seq<nat>)
    requires |rows| == |vs| && n < |vs| && j < |vs[n]|
    requires k < |Block(vs, rows, n, x, ind, j)|
    ensures IsPick(vs, n, t) && Position(vs, n, t) == |ExpandUpTo(vs, rows, n, x, ind, j)| + k
    ensures Block(vs, rows, n, x, ind, j)[k] == EntryOf(vs, rows, n, x, ind, t)
    decreases |vs| - n, 0, 0
  {
    var x', ind' := x * vs[n][j].val, ind * rows[n] + vs[n][j].row;
    var blk := Block(vs, rows, n, x, ind, j);
    assert blk == Expand(vs, rows, n + 1, x', ind');
    var rest := ExpandOnlyPicks(vs, rows, n + 1, x', ind', k);
    t := [j] + rest;
    PickExtend(vs, n, j, rest);
    PickCons(vs, rows, n, x, ind, t);
    assert EntryOf(vs, rows, n, x, ind, t) == EntryOf(vs, rows, n + 1, x', ind', rest);
  }

  /** Prefixing a pick from input `n + 1` on with an entry of input `n` gives a pick from `n` on. */
  lemma PickExtend(vs: seq<seq<Entry>>, n: nat, j: nat, rest: seq<nat>)
    requires n < |vs| && j < |vs[n]| && IsPick(vs, n + 1, rest)
    ensures IsPick(vs, n, [j] + rest) && ([j] + rest)[0] == j && ([j] + rest)[1..] == rest
  {
    var t, r := [j] + rest, Lengths(vs)[n..];
    forall k | 0 <= k < |t| ensures t[k] < r[k] {
      if k > 0 {
        assert t[k] == rest[k - 1] && r[k] == Lengths(vs)[n + 1..][k - 1];
      }
    }
  }

  /** Picks come out in lexicographic order. */
  lemma PositionLexOrder(vs: seq<seq<Entry>>, n: nat, t: seq<nat>, u: seq<nat>)
    requires n <= |vs| && IsPick(vs, n, t) && IsPick(vs, n, u) && LexLess(t, u)
    ensures Position(vs, n, t) < Position(vs, n, u)
  {
    ComposeLexMonotone(t, u, Lengths(vs)[n..]);
  }
}
