/** Row-major flattening of a rows-by-cols grid onto one block of cells: the
    contiguous storage behind `new_matrix`, the element numbering split among
    workers in the threaded multiply, and the sample-by-light numbering of
    generated traffic records. */
module Layout {

  /** Offset of cell (row, col) when each row holds `cols` cells. */
  function FlatIndex(row: nat, col: nat, cols: nat): nat {
    row * cols + col
  }

  /** The cell an element number stands for: `el / size`, `el % size`. */
  function CellOf(el: nat, cols: nat): (rc: (nat, nat))
    requires cols > 0
    ensures rc.1 < cols
    ensures FlatIndex(rc.0, rc.1, cols) == el
  {
    (el / cols, el % cols)
  }

  lemma MulLeftMonotone(a: nat, b: nat, c: nat)
    requires a <= b
    ensures a * c <= b * c
  {
  }

  /** Every cell of a rows-by-cols grid lands inside the block of rows*cols
      cells, and the cells of one row come before those of the next. */
  lemma FlatIndexBounds(row: nat, col: nat, rows: nat, cols: nat)
    requires row < rows && col < cols
    ensures FlatIndex(row, col, cols) < rows * cols
    ensures FlatIndex(row, col, cols) < FlatIndex(row + 1, 0, cols)
  {
    MulLeftMonotone(row + 1, rows, cols);
  }

  /** Numbering then un-numbering a cell gives the cell back. */
  lemma CellOfFlatIndex(row: nat, col: nat, cols: nat)
    requires col < cols
    ensures CellOf(FlatIndex(row, col, cols), cols) == (row, col)
  {
    var el := FlatIndex(row, col, cols);
    var (q, r) := CellOf(el, cols);
    assert q * cols + r == row * cols + col;
    if q < row {
      MulLeftMonotone(q + 1, row, cols);
      assert false;
    } else if q > row {
      MulLeftMonotone(row + 1, q, cols);
      assert false;
    }
  }

  /** Every element number below rows*cols names a cell inside the grid. */
  lemma CellOfBounds(el: nat, rows: nat, cols: nat)
    requires cols > 0 && el < rows * cols
    ensures CellOf(el, cols).0 < rows
  {
    var (q, r) := CellOf(el, cols);
    if q >= rows {
      MulLeftMonotone(rows, q, cols);
      assert false;
    }
  }

  /** Row `r` of a rows-by-cols grid ends inside the block: its last cell is
      followed by at most the later rows. */
  lemma RowFits(r: nat, rows: nat, cols: nat)
    requires r < rows
    ensures r * cols + cols <= rows * cols
    ensures (r + 1) * cols == r * cols + cols
  {
    MulLeftMonotone(r + 1, rows, cols);
    MulSucc(r, cols);
  }

  lemma MulSucc(k: nat, q: nat)
    ensures (k + 1) * q == k * q + q
  {
  }

  lemma MulAdd(x: nat, y: nat, z: nat)
    ensures (x + y) * z == x * z + y * z
  {
  }
}
