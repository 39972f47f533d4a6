# Sparse Khatri-Rao product, modelled in Dafny

The kernel computes the Khatri-Rao product (the column-wise Kronecker product) of
N sparse matrices stored column-compressed (CSC): `jc` holds the column offsets,
`ir` the row indices and `pr` the values. Column `c` of the output holds one entry
for every choice of one stored entry from column `c` of each input. The entry's
value is the product of the chosen values. Its row index is the mixed-radix
number `((r0 * rows1 + r1) * rows2 + r2) ...` of the chosen row indices, with
input 0 as the most significant digit.

The kernel works in two passes:

- **Sizing.** It multiplies the row counts, multiplies the per-column entry
  counts of the inputs, allocates the output with a capacity one larger than the
  total, and fills the output offsets `b_jc` by prefix sums.
- **Filling.** The recursion `compute_output_column` walks the inputs depth
  first. It writes each completed choice at a global cursor `cnt`.

The model is organised as follows:

- `SparseMatrix` is the CSC value: well-formedness, the half-open column range
  `jc[c] .. jc[c + 1]` and reads of `ir` and `pr` inside it. The accessors
  `ColumnStart`, `ColumnEnd`, `RowIndex` and `Value` serve the specifications
  only. The methods index `jc`, `ir` and `pr` directly, as the C code does.
- `Radix` holds products and sums folded as the kernel's accumulator loops fold
  them. It also holds mixed-radix numbers and lexicographic order:
  - `Compose`;
  - `Decompose`, its inverse both ways below the product of the radices;
  - `Horner`, the kernel's running `ind * rows + ir` form.
- `KhatriRaoSpec` states what the recursion writes, as a pure function:
  - `Expand` over the inputs' column views;
  - `ExpandUpTo` for the first `i` loop iterations;
  - `Block` for one iteration.

  A *pick* gives, for each input, the index of the chosen entry within its column.
  A pick's position is its mixed-radix number with the entry counts as radices.
- `KhatriRaoGroup` proves that the recursion is associative. Grouping the inputs
  after the first into one input holding their product leaves what is written
  unchanged. The grouped input's row count is the product of theirs.
- `KhatriRaoColumn` restates the output column against the inputs' CSC arrays. It
  covers the number of entries, each entry's value and row, emptiness, row bounds,
  the decoding of rows, sortedness and associativity.
- `KhatriRao` is the imperative kernel:
  - the sizing loops as methods;
  - the class `Output` with the arrays `b`, `ir`, `jc` and the cursor `cnt`;
  - the recursive `ComputeOutputColumn`;
  - the column loop;
  - the top-level `SparseKhatriRao`.

  Each method is proved against the spec functions above.

Inputs are immutable `seq<Csc>` values, so the inputs cannot change. The methods'
`modifies` clauses name only `b`, `ir`, `jc` and `cnt`.

## Model

| member | source | states |
|---|---|---|
| SparseMatrix.ColumnNnz | sparse_khatrirao_c.c:38 | a column's entry count is the width of its offset range, and the range lies inside both entry arrays |
| Radix.ProdZero | sparse_khatrirao_c.c:80-83 | a product of entry counts is zero exactly when one of the counts is zero |
| Radix.PrefixSums | sparse_khatrirao_c.c:94-101 | offsets built by `jc[0] = 0; jc[c+1] = jc[c] + s[c]` are the prefix sums of the sizes and never decrease |
| Radix.ComposeBound | sparse_khatrirao_c.c:40 | a mixed-radix row index whose digits are below their radices is below the product of the radices |
| Radix.DecomposeCompose | sparse_khatrirao_c.c:40 | splitting a composed row index by the row counts gives back the digits, so distinct choices of rows give distinct indices |
| Radix.ComposeDecompose | sparse_khatrirao_c.c:40 | every number below the product of the row counts splits into in-range digits that compose back to it, so each output row index is reachable from exactly one choice of rows |
| Radix.ComposeLexMonotone | sparse_khatrirao_c.c:38-46 | composing is strictly increasing in the lexicographic order of the digits |
| Radix.HornerCompose | sparse_khatrirao_c.c:40 | the running form `ind * rows[n] + ir[i]` equals the positional value of the digits, shifted by the starting index |
| Radix.MulAllProd | sparse_khatrirao_c.c:39 | multiplying a running value by each chosen value in turn is multiplying it by their product |
| KhatriRaoSpec.ExpandLength | sparse_khatrirao_c.c:35-49 | the recursion from input `n` on writes exactly the product of the remaining inputs' entry counts |
| KhatriRaoSpec.ExpandUpToLength | sparse_khatrirao_c.c:38-47 | after `i` iterations of the loop at depth `n`, `i` blocks of the size of the deeper product have been written |
| KhatriRaoSpec.ExpandUpToPrefix | sparse_khatrirao_c.c:38-47 | each loop iteration only appends: the output of fewer iterations is a prefix of the output of more |
| KhatriRaoSpec.ExpandUpToBlock | sparse_khatrirao_c.c:38-47 | entry `k` of the iteration for stored entry `j` lands right after everything written by the iterations before `j` |
| KhatriRaoSpec.PickCons | sparse_khatrirao_c.c:39-42 | choosing entry `t[0]` at depth `n` passes on the updated value and row index, and the rest of the pick lands inside that iteration's block |
| KhatriRaoSpec.ExpandAt | sparse_khatrirao_c.c:35-49 | every pick is written at its mixed-radix position, with the value and row index the recursion accumulates for it |
| KhatriRaoSpec.ExpandOnlyPicks | sparse_khatrirao_c.c:35-49 | every written entry is the entry of some pick, at that pick's position |
| KhatriRaoSpec.PositionLexOrder | sparse_khatrirao_c.c:38 | picks are written in lexicographic order of their stored positions |
| KhatriRaoColumn.ChoiceIsPick | sparse_khatrirao_c.c:39-40 | a choice over the CSC arrays is a pick, and starting from value 1 and index 0 the recursion yields the product of the chosen `pr` values at the mixed-radix index of the chosen `ir` values |
| KhatriRaoColumn.ColumnIsProduct | sparse_khatrirao_c.c:35-49 | output column `c` has the product of the inputs' column-`c` entry counts as its length and holds each choice's entry at the choice's position |
| KhatriRaoColumn.ColumnChoiceAt | sparse_khatrirao_c.c:35-49 | every entry of output column `c` is the entry of the choice whose position it occupies |
| KhatriRaoColumn.EmptyColumn | sparse_khatrirao_c.c:38 | output column `c` is empty exactly when column `c` of some input is empty |
| KhatriRaoColumn.ColumnRowsDecode | sparse_khatrirao_c.c:40 | with input rows in range, every output row index is below the product of the row counts and decomposes into the chosen rows |
| KhatriRaoColumn.ChoiceRowsLex | sparse_khatrirao_c.c:38-40 | with increasing input rows, a lexicographically smaller choice picks lexicographically smaller rows |
| KhatriRaoColumn.ColumnRowsSorted | sparse_khatrirao_c.c:38-46 | with input rows in range and strictly increasing, the row indices of output column `c` strictly increase |
| KhatriRaoColumn.OutputRowsSorted | sparse_khatrirao_c.c:38-46 | a matrix holding the output columns with the output row count has in-range, strictly increasing rows in every column when all inputs do |
| KhatriRaoGroup.ExpandShift | sparse_khatrirao_c.c:35-49 | starting the recursion from a value scaled by `y` and a row index raised by `z` scales every written value by `y` and raises every written row by `z` times the product of the remaining row counts |
| KhatriRaoGroup.ExpandDropFirst | sparse_khatrirao_c.c:35-49 | from depth `n >= 1` on, the recursion writes what it writes over the inputs without the first one, from depth `n - 1` |
| KhatriRaoGroup.LastLayer | sparse_khatrirao_c.c:38-46 | at the last input the recursion writes that input's column with each value scaled by `x` and each row raised by `ind * rows` |
| KhatriRaoGroup.GroupTailUpTo | sparse_khatrirao_c.c:35-49 | the first input with the product of the rest, as one input whose row count is their product, writes what all the inputs write, loop iteration by loop iteration |
| KhatriRaoColumn.ColumnAssoc | sparse_khatrirao_c.c:35-49 | associativity: column `c` of the product of `A` and `M`, where `M` holds column `c` of the product of `B` and `C` and has `B.rows * C.rows` rows, equals column `c` of the product of `A`, `B` and `C` |
| KhatriRao.OutputRows | sparse_khatrirao_c.c:72-75 | the output row count is the product of the input row counts |
| KhatriRao.ColumnProduct | sparse_khatrirao_c.c:80-83 | the per-column loop computes the product of the inputs' entry counts in column `c` |
| KhatriRao.OutputCapacity | sparse_khatrirao_c.c:78-85 | the capacity is one more than the total entry count over all columns |
| KhatriRao.Output.constructor | sparse_khatrirao_c.c:88-91 | the output is fresh, zero-filled, with the requested row count, column count and capacity |
| KhatriRao.Output.ComputeJc | sparse_khatrirao_c.c:94-101 | `jc[0] == 0`, `jc[c+1] == jc[c] +` the column's product, `jc[c]` is the prefix sum, and `jc` never decreases |
| KhatriRao.AllocateOutput | sparse_khatrirao_c.c:72-101 | the sizing pass allocates exactly `1 + Σ_c Π_n nnz` slots, so `jc[no_cols]` is one less than the capacity |
| KhatriRao.Output.ComputeOutputColumn | sparse_khatrirao_c.c:35-49 | the recursion writes exactly its expansion at the cursor, advances the cursor by its length and changes no other slot |
| KhatriRao.Output.FillInOrder | sparse_khatrirao_c.c:104-107 | starting from `cnt = 0`, each column is written at the cursor the previous one left, which is its offset `jc[c]` |
| KhatriRao.Output.FillColumns | sparse_khatrirao_c.c:104-107 | after the column loop the arrays form a well-formed CSC matrix whose column `c` is output column `c`, and the cursor ends at `jc[no_cols]` |
| KhatriRao.SparseKhatriRao | sparse_khatrirao_c.c:69-107 | the kernel's output lives in fresh arrays. It has the product row count, the column count of input 1, `jc[0] == 0` with `jc[c+1] == jc[c] +` the column's product, capacity one above its entry count, every column equal to the expansion, and an untouched zero spare slot |

## Left out

- The MATLAB interface is not modelled: reading the cell array, `mxGetPr`/`mxGetIr`/`mxGetJc`/`mxGetM`/`mxGetN`, `plhs`/`prhs` (sparse_khatrirao_c.c:57-68, 89-91). The inputs are a `seq<Csc>` parameter. The globals `a`, `a_ir`, `a_jc` and `a_no_rows` become that parameter.
- `mxCreateSparse` (sparse_khatrirao_c.c:88) is modelled by the `Output` constructor: fresh, zero-filled arrays.
- `malloc` and `free` (sparse_khatrirao_c.c:59-62, 110-113) are left out. Nothing in the model allocates or frees the input pointer tables.
- Values are `int`, not IEEE doubles, so rounding in `x*a[n][i]` is not modelled. The value of an entry is the exact product.
- Counts and indices are unbounded `nat`. The wrap-around of `mwIndex` in the row-count product, the column products, the capacity sum and `ind*a_no_rows[n] + a_ir[n][i]` is not modelled, and neither is its absence of overflow checks.
- The kernel checks nothing (sparse_khatrirao_c.c:12). The model states its assumptions as preconditions (`Conforming`):
  - at least two inputs, since the column count is read from input 1 (sparse_khatrirao_c.c:69);
  - every input is a well-formed CSC matrix;
  - every input has at least that many columns.

  Too few inputs, too few columns, or offsets beyond `ir`/`pr` make the C code
  read out of bounds. Decreasing offsets do not. The loop at
  sparse_khatrirao_c.c:38 then runs zero times, but the unsigned width
  `a_jc[n][c+1] - a_jc[n][c]` at lines 82 and 98 wraps to a huge value. That
  gives a wrong capacity (84) and wrong offsets (100), and the fill (44-46) can
  then write outside the buffer. None of these inputs is modelled.
- Input columns beyond `a[1].cols` are ignored, as in the code. The model does not require equal column counts.
- The row bound and sortedness results (`ColumnRowsDecode`, `ColumnRowsSorted`, `OutputRowsSorted`) hold under the assumption that input row indices are in range and strictly increasing within each column. The code neither checks nor relies on this.
- Execution is single-threaded with a global cursor. There is no concurrency to model.
