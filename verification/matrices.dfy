/** Integer matrices as the matrix programs use them: `calc_row_col`'s dot
    product of a row of A and a column of B, the full product of
    `multiply_matrices`, the accumulating row-block multiply of the MPI
    ranks, and the contiguous storage `new_matrix` allocates. Entries are
    mathematical integers; the source's `int` overflow is not modelled. */
module Matrices {
  import opened Layout

  /** `MAX_ELEMENT` of the MPI programs and `MAX_EL` of the threaded ones. */
  const MAX_ELEMENT: nat := 20

  type Matrix = seq<seq<int>>

  /** `m` has `rows` rows of `cols` entries each. */
  predicate IsMatrix(m: Matrix, rows: nat, cols: nat) {
    |m| == rows && forall r :: 0 <= r < rows ==> |m[r]| == cols
  }

  /** The sum of `x[i] * y[i]` over the first `n` positions. */
  function DotUpTo(x: seq<int>, y: seq<int>, n: nat): int
    requires n <= |x| && n <= |y|
  {
    if n == 0 then 0 else DotUpTo(x, y, n - 1) + x[n - 1] * y[n - 1]
  }

  /** Column `col` of `b`, top to bottom. */
  function Column(b: Matrix, col: nat): (v: seq<int>)
    requires forall r :: 0 <= r < |b| ==> col < |b[r]|
    ensures |v| == |b|
    ensures forall i :: 0 <= i < |b| ==> v[i] == b[i][col]
  {
    seq(|b|, i requires 0 <= i < |b| => b[i][col])
  }

  /** Entry (row, col) of the product: row `row` of `a` times column `col`
      of the size-by-size `b`. */
  function Entry(a: Matrix, b: Matrix, row: nat, col: nat, size: nat): int
    requires row < |a| && |a[row]| == size && IsMatrix(b, size, size) && col < size
  {
    DotUpTo(a[row], Column(b, col), size)
  }

  /** Reference definition of the product of the rows of `a` with `b`. */
  function Product(a: Matrix, b: Matrix, size: nat): (p: Matrix)
    requires IsMatrix(a, |a|, size) && IsMatrix(b, size, size)
    ensures IsMatrix(p, |a|, size)
  {
    seq(|a|, r requires 0 <= r < |a| => seq(size, c requires 0 <= c < size => Entry(a, b, r, c, size)))
  }

  /** `calc_row_col`: the loop adding `a[row][i] * b[i][col]` for i < size. */
  method CalcRowCol(a: Matrix, b: Matrix, row: nat, col: nat, size: nat) returns (result: int)
    requires row < |a| && |a[row]| == size && IsMatrix(b, size, size) && col < size
    ensures result == Entry(a, b, row, col, size)
  {
    result := 0;
    var i := 0;
    while i < size
      invariant 0 <= i <= size
      invariant result == DotUpTo(a[row], Column(b, col), i)
    {
      result := result + a[row][i] * b[i][col];
      i := i + 1;
    }
  }

  /** One row of `multiply_matrices`: `result[r][c] = calc_row_col(...)` for
      every column. */
  method ProductRow(a: Matrix, b: Matrix, r: nat, size: nat) returns (row: seq<int>)
    requires IsMatrix(a, |a|, size) && IsMatrix(b, size, size) && r < |a|
    ensures row == Product(a, b, size)[r]
  {
    row := [];
    var c := 0;
    while c < size
      invariant 0 <= c <= size && |row| == c
      invariant forall k :: 0 <= k < c ==> row[k] == Entry(a, b, r, k, size)
    {
      var v := CalcRowCol(a, b, r, c, size);
      row := row + [v];
      c := c + 1;
    }
  }

  /** `multiply_matrices` of the OpenMP program read sequentially: every
      entry of the result is the dot product of its row and column. The
      inputs are values, so the multiply cannot change them. */
  method MultiplyMatrices(a: Matrix, b: Matrix, size: nat) returns (result: Matrix)
    requires IsMatrix(a, size, size) && IsMatrix(b, size, size)
    ensures result == Product(a, b, size)
  {
    result := [];
    var r := 0;
    while r < size
      invariant 0 <= r <= size && |result| == r
      invariant forall k :: 0 <= k < r ==> result[k] == Product(a, b, size)[k]
    {
      var row := ProductRow(a, b, r, size);
      result := result + [row];
      r := r + 1;
    }
  }

  /** The innermost loop of the ranks' multiply: `c[row][col] += a[row][i] *
      b[i][col]` for i < size, starting from the entry's current value. */
  method AddDot(acc: int, a: Matrix, b: Matrix, row: nat, col: nat, size: nat) returns (v: int)
    requires row < |a| && |a[row]| == size && IsMatrix(b, size, size) && col < size
    ensures v == acc + Entry(a, b, row, col, size)
  {
    v := acc;
    var i := 0;
    while i < size
      invariant 0 <= i <= size
      invariant v == acc + DotUpTo(a[row], Column(b, col), i)
    {
      v := v + a[row][i] * b[i][col];
      i := i + 1;
    }
  }

  /** The column loop of the ranks' multiply on row `row` of `c`. */
  method AddRow(crow: seq<int>, a: Matrix, b: Matrix, row: nat, size: nat) returns (out: seq<int>)
    requires row < |a| && |a[row]| == size && IsMatrix(b, size, size) && |crow| == size
    ensures |out| == size
    ensures forall col :: 0 <= col < size ==> out[col] == crow[col] + Entry(a, b, row, col, size)
  {
    out := crow;
    var col := 0;
    while col < size
      invariant 0 <= col <= size && |out| == size
      invariant forall k :: 0 <= k < col ==> out[k] == crow[k] + Entry(a, b, row, k, size)
      invariant forall k :: col <= k < size ==> out[k] == crow[k]
    {
      var v := AddDot(out[col], a, b, row, col, size);
      out := out[col := v];
      col := col + 1;
    }
  }

  /** The local multiply of a rank (mm-mpi-omp.cpp): for its `rows` rows of
      A, every column and every i, `c[row][col] += a[row][i] * b[i][col]`.
      Each entry of `c` gains exactly the dot product of its row and column. */
  method LocalMultiply(a: Matrix, b: Matrix, c: Matrix, rows: nat, size: nat) returns (out: Matrix)
    requires IsMatrix(a, rows, size) && IsMatrix(b, size, size) && IsMatrix(c, rows, size)
    ensures IsMatrix(out, rows, size)
    ensures forall row, col :: 0 <= row < rows && 0 <= col < size ==>
      out[row][col] == c[row][col] + Entry(a, b, row, col, size)
  {
    out := c;
    var row := 0;
    while row < rows
      invariant 0 <= row <= rows && IsMatrix(out, rows, size)
      invariant forall r, col :: 0 <= r < row && 0 <= col < size ==>
        out[r][col] == c[r][col] + Entry(a, b, r, col, size)
      invariant forall r :: row <= r < rows ==> out[r] == c[r]
    {
      var newRow := AddRow(out[row], a, b, row, size);
      out := out[row := newRow];
      row := row + 1;
    }
  }

  /** Row `r` of a block of `rows * cols` cells: the `cols` cells from
      offset `r * cols`, which is where `new_matrix` points `matrix[r]`. */
  function RowOf(block: seq<int>, r: nat, rows: nat, cols: nat): (row: seq<int>)
    requires |block| == rows * cols && r < rows
    ensures |row| == cols
  {
    MulLeftMonotone(r + 1, rows, cols);
    block[r * cols..r * cols + cols]
  }

  /** `new_matrix(rows, cols)` over the cell block `block`: one allocation
      of `rows * cols` cells, row `r` starting at offset `r * cols`. */
  function NewMatrix(block: seq<int>, rows: nat, cols: nat): (m: Matrix)
    requires |block| == rows * cols
    ensures IsMatrix(m, rows, cols)
    ensures forall r :: 0 <= r < rows ==> m[r] == RowOf(block, r, rows, cols)
  {
    seq(rows, r requires 0 <= r < rows => RowOf(block, r, rows, cols))
  }

  /** Cell (r, c) of a `new_matrix` is cell `r * cols + c` of its block. */
  lemma NewMatrixCell(block: seq<int>, rows: nat, cols: nat, r: nat, c: nat)
    requires |block| == rows * cols && r < rows && c < cols
    ensures FlatIndex(r, c, cols) < |block|
    ensures NewMatrix(block, rows, cols)[r][c] == block[FlatIndex(r, c, cols)]
  {
    FlatIndexBounds(r, c, rows, cols);
  }

  /** The rows of a matrix laid end to end: the cell block behind it. */
  function Flatten(m: Matrix): seq<int>
  {
    if m == [] then [] else Flatten(m[..|m| - 1]) + m[|m| - 1]
  }

  lemma {:induction false} FlattenLength(m: Matrix, cols: nat)
    requires IsMatrix(m, |m|, cols)
    ensures |Flatten(m)| == |m| * cols
  {
    if m != [] {
      FlattenLength(m[..|m| - 1], cols);
      MulSucc(|m| - 1, cols);
    }
  }

  lemma {:induction false} FlattenAppend(x: Matrix, y: Matrix)
    ensures Flatten(x + y) == Flatten(x) + Flatten(y)
    decreases |y|
  {
    if y != [] {
      assert (x + y)[..|x + y| - 1] == x + y[..|y| - 1];
      FlattenAppend(x, y[..|y| - 1]);
    } else {
      assert x + y == x;
    }
  }

  /** Viewing a block as a matrix and flattening it again gives the block
      back: `new_matrix` neither loses nor reorders cells. */
  lemma {:induction false} FlattenNewMatrix(block: seq<int>, rows: nat, cols: nat)
    requires |block| == rows * cols
    ensures Flatten(NewMatrix(block, rows, cols)) == block
    decreases rows
  {
    var m := NewMatrix(block, rows, cols);
    if rows > 0 {
      var n := rows - 1;
      RowFits(n, rows, cols);
      var front := block[..n * cols];
      NewMatrixFront(block, rows, cols);
      FlattenNewMatrix(front, n, cols);
      assert Flatten(m) == Flatten(m[..n]) + m[n];
      assert m[n] == block[n * cols..];
      assert block == front + block[n * cols..];
    }
  }

  /** Dropping the last row of a `new_matrix` view is the view of the block
      without that row's cells. */
  lemma NewMatrixFront(block: seq<int>, rows: nat, cols: nat)
    requires |block| == rows * cols && rows > 0
    ensures (rows - 1) * cols <= |block|
    ensures NewMatrix(block, rows, cols)[..rows - 1] == NewMatrix(block[..(rows - 1) * cols], rows - 1, cols)
  {
    var n := rows - 1;
    RowFits(n, rows, cols);
    var front := block[..n * cols];
    var m, v := NewMatrix(block, rows, cols), NewMatrix(front, n, cols);
    forall r | 0 <= r < n
      ensures m[r] == v[r]
    {
      RowFits(r, n, cols);
    }
  }

  /** The converse: a matrix is the `new_matrix` view of its own cells. */
  lemma NewMatrixOfFlatten(m: Matrix, cols: nat)
    requires IsMatrix(m, |m|, cols)
    ensures |Flatten(m)| == |m| * cols
    ensures NewMatrix(Flatten(m), |m|, cols) == m
  {
    FlattenLength(m, cols);
    var block := Flatten(m);
    var v := NewMatrix(block, |m|, cols);
    FlattenNewMatrix(block, |m|, cols);
    forall r | 0 <= r < |m|
      ensures v[r] == m[r]
    {
      FlattenRow(m, cols, r);
    }
  }

  /** Row `r` of a matrix sits at offset `r * cols` of its flattened cells. */
  lemma {:induction false} FlattenRow(m: Matrix, cols: nat, r: nat)
    requires IsMatrix(m, |m|, cols) && r < |m|
    ensures |Flatten(m)| == |m| * cols
    ensures RowOf(Flatten(m), r, |m|, cols) == m[r]
    decreases |m|
  {
    FlattenLength(m, cols);
    var n := |m| - 1;
    var front := m[..n];
    FlattenLength(front, cols);
    var f, g := Flatten(m), Flatten(front);
    assert f == g + m[n];
    RowFits(r, |m|, cols);
    if r < n {
      FlattenRow(front, cols, r);
      RowFits(r, n, cols);
      assert f[r * cols..r * cols + cols] == g[r * cols..r * cols + cols];
    } else {
      assert r * cols == |g|;
    }
  }

  /** `new_zero_matrix`: a `new_matrix` whose cells are all set to 0. */
  function ZeroMatrix(rows: nat, cols: nat): (m: Matrix)
    ensures IsMatrix(m, rows, cols)
    ensures forall r, c :: 0 <= r < rows && 0 <= c < cols ==> m[r][c] == 0
  {
    var block := seq(rows * cols, _ => 0);
    var m := NewMatrix(block, rows, cols);
    assert forall r, c :: 0 <= r < rows && 0 <= c < cols ==> m[r][c] == 0 by {
      forall r, c | 0 <= r < rows && 0 <= c < cols
        ensures m[r][c] == 0
      {
        NewMatrixCell(block, rows, cols, r, c);
      }
    }
    m
  }

  /** `new_rand_matrix` and `create_matrix`: the cells are filled row by row
      with `rand() % MAX_ELEMENT`, the `k`-th call to `rand` being `draws[k]`. */
  function RandMatrix(rows: nat, cols: nat, draws: seq<nat>): (m: Matrix)
    requires |draws| >= rows * cols
    ensures IsMatrix(m, rows, cols)
    ensures forall r, c :: 0 <= r < rows && 0 <= c < cols ==> 0 <= m[r][c] < MAX_ELEMENT
  {
    var block := seq(rows * cols, k requires 0 <= k < rows * cols => draws[k] % MAX_ELEMENT);
    var m := NewMatrix(block, rows, cols);
    assert forall r, c :: 0 <= r < rows && 0 <= c < cols ==> 0 <= m[r][c] < MAX_ELEMENT by {
      forall r, c | 0 <= r < rows && 0 <= c < cols
        ensures 0 <= m[r][c] < MAX_ELEMENT
      {
        NewMatrixCell(block, rows, cols, r, c);
      }
    }
    m
  }

  /** Each cell of a random matrix is the draw of its row-major position. */
  lemma RandMatrixCell(rows: nat, cols: nat, draws: seq<nat>, r: nat, c: nat)
    requires |draws| >= rows * cols && r < rows && c < cols
    ensures FlatIndex(r, c, cols) < rows * cols
    ensures RandMatrix(rows, cols, draws)[r][c] == draws[FlatIndex(r, c, cols)] % MAX_ELEMENT
  {
    var block := seq(rows * cols, k requires 0 <= k < rows * cols => draws[k] % MAX_ELEMENT);
    NewMatrixCell(block, rows, cols, r, c);
  }

  /** Zeroed accumulators: the ranks' multiply computes the product of their
      rows. */
  method LocalProduct(a: Matrix, b: Matrix, rows: nat, size: nat) returns (c: Matrix)
    requires IsMatrix(a, rows, size) && IsMatrix(b, size, size)
    ensures c == Product(a, b, size)
  {
    c := LocalMultiply(a, b, ZeroMatrix(rows, size), rows, size);
    assert forall r :: 0 <= r < rows ==> c[r] == Product(a, b, size)[r];
  }

  /** The product works row by row: the rows `lo..hi` of A give the rows
      `lo..hi` of the product. */
  lemma ProductRows(a: Matrix, b: Matrix, size: nat, lo: nat, hi: nat)
    requires IsMatrix(a, |a|, size) && IsMatrix(b, size, size) && lo <= hi <= |a|
    ensures IsMatrix(a[lo..hi], hi - lo, size)
    ensures Product(a[lo..hi], b, size) == Product(a, b, size)[lo..hi]
  {
    var p, q := Product(a[lo..hi], b, size), Product(a, b, size)[lo..hi];
    forall r | 0 <= r < hi - lo
      ensures p[r] == q[r]
    {
      assert a[lo..hi][r] == a[lo + r];
    }
  }

  /** The `n` by `n` identity matrix. */
  function Identity(n: nat): (m: Matrix)
    ensures IsMatrix(m, n, n)
  {
    seq(n, r => seq(n, c => if r == c then 1 else 0))
  }

  lemma {:induction false} DotUnit(x: seq<int>, b: Matrix, n: nat, col: nat, k: nat)
    requires IsMatrix(b, n, n) && b == Identity(n) && col < n && k <= n && k <= |x|
    ensures DotUpTo(x, Column(b, col), k) == if col < k then x[col] else 0
  {
    if k > 0 {
      DotUnit(x, b, n, col, k - 1);
    }
  }

  /** A sanity check of the product against linear algebra: multiplying by
      the identity gives the matrix back. */
  lemma ProductIdentity(a: Matrix, size: nat)
    requires IsMatrix(a, |a|, size)
    ensures Product(a, Identity(size), size) == a
  {
    var p := Product(a, Identity(size), size);
    forall r | 0 <= r < |a|
      ensures p[r] == a[r]
    {
      forall c | 0 <= c < size
        ensures p[r][c] == a[r][c]
      {
        DotUnit(a[r], Identity(size), size, c, size);
      }
    }
  }
}
