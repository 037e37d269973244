/** The MPI matrix programs read as one sequential run: rank by rank, the
    rows the partition gives a rank are scattered to it from the cells of A,
    multiplied by B with a zeroed accumulator, and the products gathered
    back at the rank's displacement. */
module Distributed {
  import opened Wrappers
  import opened Layout
  import opened Matrices
  import opened RowPartition

  /** The cells `r0 * size` up to `(r0 + k) * size` of A, viewed as a
      `new_matrix` of `k` rows, are rows `r0..r0 + k` of A. */
  lemma {:induction false} ChunkRows(a: Matrix, size: nat, r0: nat, k: nat)
    requires IsMatrix(a, |a|, size) && r0 + k <= |a|
    ensures |Flatten(a)| == |a| * size && r0 * size + k * size <= |a| * size
    ensures NewMatrix(Flatten(a)[r0 * size..r0 * size + k * size], k, size) == a[r0..r0 + k]
  {
    var x, y, z := a[..r0], a[r0..r0 + k], a[r0 + k..];
    assert a == x + y + z;
    FlattenAppend(x + y, z);
    FlattenAppend(x, y);
    FlattenLength(a, size);
    FlattenLength(x, size);
    FlattenLength(y, size);
    MulAdd(r0, k, size);
    MulLeftMonotone(r0 + k, |a|, size);
    var f := Flatten(a);
    assert f == Flatten(x) + Flatten(y) + Flatten(z);
    assert f[r0 * size..r0 * size + k * size] == Flatten(y);
    NewMatrixOfFlatten(y, size);
  }

  /** Gathering blocks in row order: the cells of the first `r1` rows are
      those of the first `r0` followed by those of rows `r0..r1`. */
  lemma {:induction false} GatherStep(p: Matrix, r0: nat, r1: nat)
    requires r0 <= r1 <= |p|
    ensures Flatten(p[..r1]) == Flatten(p[..r0]) + Flatten(p[r0..r1])
  {
    assert p[..r1] == p[..r0] + p[r0..r1];
    FlattenAppend(p[..r0], p[r0..r1]);
  }

  /** Rank `rank`'s block as `MPI_Scatterv` delivers it, the cells from its
      displacement on, is rows `RowsBefore .. RowsBefore + RowsOf` of A. */
  lemma {:induction false} ScatteredRows(a: Matrix, size: nat, np: nat, rank: nat)
    requires np >= 1 && rank < np && IsMatrix(a, size, size)
    ensures var r0, k, d, n := RowsBefore(size, np, rank), RowsOf(size, np, rank), Offset(size, np, rank), SendCount(size, np, rank);
      r0 + k <= size && n == k * size && d + n <= |Flatten(a)|
      && NewMatrix(Flatten(a)[d..d + n], k, size) == a[r0..r0 + k]
  {
    var r0, k := RowsBefore(size, np, rank), RowsOf(size, np, rank);
    RowsWithin(size, np, rank);
    OffsetRows(size, np, rank);
    SendCountRows(size, np, rank);
    ChunkRows(a, size, r0, k);
  }

  /** One rank's share of the work: `MPI_Scatterv` hands it `send_counts[rank]`
      cells from `displacements[rank]` on, which it views as a
      `new_matrix(my_row_count, size)`, multiplies by B into a zeroed C, and
      sends back whole for `MPI_Gatherv`. The block it sends is the flat
      product of its rows of A. */
  method MultiplyRank(a: Matrix, b: Matrix, size: nat, np: nat, p: Partition, rank: nat) returns (block: seq<int>)
    requires np >= 1 && size >= 1 && rank < np
    requires IsMatrix(a, size, size) && IsMatrix(b, size, size)
    requires |p.counts| == np && |p.displacements| == np
    requires p.counts[rank] == SendCount(size, np, rank) && p.displacements[rank] == Offset(size, np, rank)
    ensures RowsBefore(size, np, rank) + RowsOf(size, np, rank) <= size
    ensures block == Flatten(Product(a, b, size)[RowsBefore(size, np, rank)..RowsBefore(size, np, rank) + RowsOf(size, np, rank)])
    ensures |block| == SendCount(size, np, rank)
  {
    MyRowCountIsShare(size, np, rank);
    var rows := MyRowCount(p.counts, size, rank).value;
    var d, n := p.displacements[rank], p.counts[rank];
    RankProduct(a, b, size, np, rank);
    var local := NewMatrix(Flatten(a)[d..d + n], rows, size);
    var product := LocalProduct(local, b, rows, size);
    RankBlockLength(product, size, np, rank);
    block := Flatten(product);
  }

  /** What a rank computes from its scattered cells is its rows of the
      product. */
  lemma {:induction false} RankProduct(a: Matrix, b: Matrix, size: nat, np: nat, rank: nat)
    requires np >= 1 && rank < np && IsMatrix(a, size, size) && IsMatrix(b, size, size)
    ensures var r0, k, d, n := RowsBefore(size, np, rank), RowsOf(size, np, rank), Offset(size, np, rank), SendCount(size, np, rank);
      r0 + k <= size && n == k * size && d + n <= |Flatten(a)|
      && Product(NewMatrix(Flatten(a)[d..d + n], k, size), b, size) == Product(a, b, size)[r0..r0 + k]
  {
    var r0, k := RowsBefore(size, np, rank), RowsOf(size, np, rank);
    ScatteredRows(a, size, np, rank);
    ProductRows(a, b, size, r0, r0 + k);
  }

  /** A rank's product block has `send_counts[rank]` cells. */
  lemma {:induction false} RankBlockLength(product: Matrix, size: nat, np: nat, rank: nat)
    requires np >= 1 && IsMatrix(product, RowsOf(size, np, rank), size)
    ensures |Flatten(product)| == SendCount(size, np, rank)
  {
    FlattenLength(product, size);
    SendCountRows(size, np, rank);
  }

  /** The whole distributed multiply with the intended displacements. A
      matrix of size 0 makes `my_row_count` divide by zero: the `None`
      result. Otherwise the ranks' blocks, gathered in rank order (each at
      its displacement, `GatheredAtDisplacement`), make up the product. */
  method MultiplyDistributed(a: Matrix, b: Matrix, size: nat, np: nat) returns (c: Option<Matrix>)
    requires np >= 1 && IsMatrix(a, size, size) && IsMatrix(b, size, size)
    ensures c.None? <==> size == 0
    ensures c.Some? ==> c.value == Product(a, b, size)
  {
    if size == 0 {
      return None;
    }
    var p := PartitionRows(size, np);
    var gathered := GatherProducts(a, b, size, np, p);
    ghost var product := Product(a, b, size);
    FlattenLength(product, size);
    NewMatrixOfFlatten(product, size);
    c := Some(NewMatrix(gathered, size, size));
  }

  /** The rank loop: every rank's product block, appended in rank order,
      gives the cells of the whole product. */
  method GatherProducts(a: Matrix, b: Matrix, size: nat, np: nat, p: Partition) returns (gathered: seq<int>)
    requires np >= 1 && size >= 1 && IsMatrix(a, size, size) && IsMatrix(b, size, size)
    requires |p.counts| == np && |p.displacements| == np
    requires forall i :: 0 <= i < np ==> p.counts[i] == SendCount(size, np, i)
    requires forall i :: 0 <= i < np ==> p.displacements[i] == Offset(size, np, i)
    ensures gathered == Flatten(Product(a, b, size))
  {
    ghost var product := Product(a, b, size);
    gathered := [];
    var rank := 0;
    while rank < np
      invariant 0 <= rank <= np
      invariant RowsBefore(size, np, rank) <= size
      invariant gathered == Flatten(product[..RowsBefore(size, np, rank)])
    {
      var block := MultiplyRank(a, b, size, np, p, rank);
      ghost var r0, k := RowsBefore(size, np, rank), RowsOf(size, np, rank);
      GatherStep(product, r0, r0 + k);
      gathered := gathered + block;
      assert RowsBefore(size, np, rank + 1) == r0 + k;
      rank := rank + 1;
    }
    RowsCover(size, np);
    assert product[..size] == product;
  }

  /** Gathering in rank order puts every rank's block at its displacement:
      the cells of the rows of the ranks before `rank` number exactly
      `displacements[rank]`. */
  lemma {:induction false} GatheredAtDisplacement(product: Matrix, size: nat, np: nat, rank: nat)
    requires np >= 1 && rank <= np && IsMatrix(product, size, size)
    ensures RowsBefore(size, np, rank) <= size
    ensures |Flatten(product[..RowsBefore(size, np, rank)])| == Offset(size, np, rank)
  {
    var r := RowsBefore(size, np, rank);
    RowsBeforeAtMost(size, np, rank);
    FlattenLength(product[..r], size);
    OffsetRows(size, np, rank);
  }
}
