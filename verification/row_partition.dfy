/** How the MPI matrix programs deal the rows of A to `np` ranks: every rank
    gets `size / np` rows, the first `size % np` ranks one more, and
    `send_counts` / `displacements` give each rank's cells of the flat
    matrix. */
module RowPartition {
  import opened Wrappers
  import opened Layout

  /** The rows rank `i` multiplies. */
  function RowsOf(size: nat, np: nat, i: nat): nat
    requires np >= 1
  {
    size / np + (if i < size % np then 1 else 0)
  }

  /** `send_counts[i]`: `base_elems_per_process`, plus one row of `size`
      cells while `rows_remainder` lasts. */
  function SendCount(size: nat, np: nat, i: nat): nat
    requires np >= 1
  {
    (size / np) * size + (if i < size % np then size else 0)
  }

  /** Reference definition of the displacements: rank `i`'s block starts
      after the blocks of all ranks before it. */
  function Offset(size: nat, np: nat, i: nat): nat
    requires np >= 1
  {
    if i == 0 then 0 else Offset(size, np, i - 1) + SendCount(size, np, i - 1)
  }

  /** The rows of the ranks before rank `i`. */
  function RowsBefore(size: nat, np: nat, i: nat): nat
    requires np >= 1
  {
    if i == 0 then 0 else RowsBefore(size, np, i - 1) + RowsOf(size, np, i - 1)
  }

  datatype Partition = Partition(counts: seq<int>, displacements: seq<int>)

  /** The counts loop with the guard it evidently means, `i < np - 1`:
      every count and every displacement is the intended one. */
  method PartitionRows(size: nat, np: nat) returns (p: Partition)
    requires np >= 1
    ensures |p.counts| == np && |p.displacements| == np
    ensures forall i :: 0 <= i < np ==> p.counts[i] == SendCount(size, np, i)
    ensures forall i :: 0 <= i < np ==> p.displacements[i] == Offset(size, np, i)
  {
    var counts := seq(np, _ => 0);
    var displacements := seq(np, _ => 0);
    var baseRows := size / np;
    var baseElems := baseRows * size;
    var remainder := size % np;
    var i := 0;
    while i < np
      invariant 0 <= i <= np && |counts| == np && |displacements| == np
      invariant remainder == if i < size % np then size % np - i else 0
      invariant forall k {:trigger counts[k]} :: 0 <= k < i ==> counts[k] == SendCount(size, np, k)
      invariant forall k {:trigger displacements[k]} :: 0 <= k < np && k <= i ==> displacements[k] == Offset(size, np, k)
    {
      var count := baseElems;
      if remainder > 0 {
        count := count + size;
        remainder := remainder - 1;
      }
      assert count == SendCount(size, np, i);
      counts := counts[i := count];
      if i < np - 1 {
        displacements := displacements[i + 1 := displacements[i] + counts[i]];
      }
      i := i + 1;
    }
    p := Partition(counts, displacements);
  }

  /** The counts loop as written, guarding the displacement store with
      `i < size - 1`. When there are fewer ranks than rows the last pass
      stores `displacements[np]`, one past the end of the array: that store
      is the `Err` result, carrying the index. Otherwise the counts are
      right, and so are the displacements of the first `size` ranks; later
      ranks, which have nothing to do, keep displacement 0. */
  method PartitionRowsAsWritten(size: nat, np: nat) returns (r: Result<Partition, nat>)
    requires np >= 1
    ensures r.Err? <==> np < size
    ensures r.Err? ==> r.error == np
    ensures r.Ok? ==> |r.value.counts| == np && |r.value.displacements| == np
    ensures r.Ok? ==> forall i :: 0 <= i < np ==> r.value.counts[i] == SendCount(size, np, i)
    ensures r.Ok? ==> forall i :: 0 <= i < np ==>
      r.value.displacements[i] == if i < size then Offset(size, np, i) else 0
  {
    var counts := seq(np, _ => 0);
    var displacements := seq(np, _ => 0);
    var baseRows := size / np;
    var baseElems := baseRows * size;
    var remainder := size % np;
    var i := 0;
    while i < np
      invariant 0 <= i <= np && |counts| == np && |displacements| == np
      invariant remainder == if i < size % np then size % np - i else 0
      invariant forall k {:trigger counts[k]} :: 0 <= k < i ==> counts[k] == SendCount(size, np, k)
      invariant forall k {:trigger displacements[k]} :: 0 <= k < np ==>
        displacements[k] == if k <= i && k < size then Offset(size, np, k) else 0
      invariant i == np ==> size <= np
    {
      var count := baseElems;
      if remainder > 0 {
        count := count + size;
        remainder := remainder - 1;
      }
      assert count == SendCount(size, np, i);
      counts := counts[i := count];
      if i < size - 1 {
        if i + 1 >= np {
          return Err(i + 1);
        }
        displacements := displacements[i + 1 := displacements[i] + counts[i]];
      }
      i := i + 1;
    }
    r := Ok(Partition(counts, displacements));
  }

  /** The program's default size 5 on two ranks already stores past the
      end of `displacements`. */
  method DefaultRunOverruns() returns (r: Result<Partition, nat>)
    ensures r == Err(2)
  {
    r := PartitionRowsAsWritten(5, 2);
  }

  /** Every send count is a whole number of rows. */
  lemma SendCountRows(size: nat, np: nat, i: nat)
    requires np >= 1
    ensures SendCount(size, np, i) == RowsOf(size, np, i) * size
  {
    MulSucc(size / np, size);
  }

  /** Ranks earlier in the order never get fewer rows, and no two ranks
      differ by more than one row; the ranks with the extra row are exactly
      the first `size % np`. */
  lemma RowsBalanced(size: nat, np: nat, i: nat, j: nat)
    requires np >= 1
    ensures i <= j ==> RowsOf(size, np, j) <= RowsOf(size, np, i)
    ensures RowsOf(size, np, i) <= RowsOf(size, np, j) + 1
    ensures RowsOf(size, np, i) > size / np <==> i < size % np
  {
  }

  lemma {:induction false} RowsBeforeClosed(size: nat, np: nat, k: nat)
    requires np >= 1
    ensures RowsBefore(size, np, k) == k * (size / np) + (if k < size % np then k else size % np)
  {
    if k > 0 {
      RowsBeforeClosed(size, np, k - 1);
      MulSucc(k - 1, size / np);
    }
  }

  lemma {:induction false} OffsetRows(size: nat, np: nat, k: nat)
    requires np >= 1
    ensures Offset(size, np, k) == RowsBefore(size, np, k) * size
  {
    if k > 0 {
      OffsetRows(size, np, k - 1);
      SendCountRows(size, np, k - 1);
      assert RowsBefore(size, np, k) * size == RowsBefore(size, np, k - 1) * size + RowsOf(size, np, k - 1) * size by {
        MulAdd(RowsBefore(size, np, k - 1), RowsOf(size, np, k - 1), size);
      }
    }
  }

  /** The ranks together get every row, so the blocks end exactly at the
      end of the matrix. */
  lemma CountsCoverMatrix(size: nat, np: nat)
    requires np >= 1
    ensures RowsBefore(size, np, np) == size
    ensures Offset(size, np, np) == size * size
  {
    RowsBeforeClosed(size, np, np);
    OffsetRows(size, np, np);
  }

  /** Displacements never decrease: a block starts no earlier than every
      block before it ends. */
  lemma {:induction false} OffsetMonotone(size: nat, np: nat, i: nat, j: nat)
    requires np >= 1 && i <= j
    ensures Offset(size, np, i) <= Offset(size, np, j)
    decreases j - i
  {
    if i < j {
      OffsetMonotone(size, np, i, j - 1);
    }
  }

  /** The blocks are disjoint: the cells of rank `i` and of a later rank `j`
      do not overlap. */
  lemma BlocksDisjoint(size: nat, np: nat, i: nat, j: nat)
    requires np >= 1 && i < j
    ensures Offset(size, np, i) + SendCount(size, np, i) <= Offset(size, np, j)
  {
    OffsetMonotone(size, np, i + 1, j);
  }

  /** The blocks cover the matrix: every cell belongs to some rank's block. */
  lemma {:induction false} CellOwned(size: nat, np: nat, e: nat, k: nat)
    requires np >= 1 && k <= np && e < Offset(size, np, k)
    ensures exists i :: 0 <= i < k && Offset(size, np, i) <= e < Offset(size, np, i) + SendCount(size, np, i)
  {
    if e >= Offset(size, np, k - 1) {
      assert Offset(size, np, k - 1) <= e < Offset(size, np, k - 1) + SendCount(size, np, k - 1);
    } else {
      CellOwned(size, np, e, k - 1);
    }
  }

  /** `my_row_count = send_counts[rank] / size`; a matrix of size 0 divides
      by zero, which is the `None` result. */
  function MyRowCount(counts: seq<int>, size: nat, rank: nat): Option<int>
    requires rank < |counts|
  {
    if size == 0 then None else Some(counts[rank] / size)
  }

  /** With the counts of the loop, every rank's row count is its share of
      rows. */
  lemma MyRowCountIsShare(size: nat, np: nat, rank: nat)
    requires np >= 1 && size >= 1
    ensures forall counts: seq<int> :: |counts| == np && rank < np && counts[rank] == SendCount(size, np, rank) ==>
      MyRowCount(counts, size, rank) == Some(RowsOf(size, np, rank))
  {
    SendCountRows(size, np, rank);
    DivExact(RowsOf(size, np, rank), size);
  }

  /** Some rank gets no rows of A exactly when there are more ranks than
      rows; those are the ranks from `size` on. */
  lemma RowlessRanks(size: nat, np: nat)
    requires np >= 1
    ensures (exists i :: 0 <= i < np && RowsOf(size, np, i) == 0) <==> size < np
    ensures forall i :: 0 <= i < np ==> (RowsOf(size, np, i) == 0 <==> size <= i)
  {
    var q, r := size / np, size % np;
    assert size == q * np + r;
    if size < np {
      assert q == 0 && r == size;
      assert RowsOf(size, np, size) == 0;
    } else {
      assert q >= 1;
      assert forall i :: 0 <= i < np ==> RowsOf(size, np, i) >= 1;
    }
  }

  lemma DivExact(q: nat, n: nat)
    requires n >= 1
    ensures (q * n) / n == q
  {
    CellOfFlatIndex(q, 0, n);
    assert FlatIndex(q, 0, n) == q * n;
  }

  /** The rows of the ranks up to and including `rank` are rows of A. */
  lemma {:induction false} RowsWithin(size: nat, np: nat, rank: nat)
    requires np >= 1 && rank < np
    ensures RowsBefore(size, np, rank) + RowsOf(size, np, rank) <= size
  {
    assert RowsBefore(size, np, rank + 1) == RowsBefore(size, np, rank) + RowsOf(size, np, rank);
    RowsBeforeAtMost(size, np, rank + 1);
  }

  /** Together the ranks get all `size` rows. */
  lemma RowsCover(size: nat, np: nat)
    requires np >= 1
    ensures RowsBefore(size, np, np) == size
  {
    RowsBeforeClosed(size, np, np);
  }

  lemma {:induction false} RowsBeforeAtMost(size: nat, np: nat, k: nat)
    requires np >= 1 && k <= np
    ensures RowsBefore(size, np, k) <= size
  {
    RowsBeforeMonotone(size, np, k, np);
    RowsBeforeClosed(size, np, np);
  }

  lemma {:induction false} RowsBeforeMonotone(size: nat, np: nat, i: nat, j: nat)
    requires np >= 1 && i <= j
    ensures RowsBefore(size, np, i) <= RowsBefore(size, np, j)
    decreases j - i
  {
    if i < j {
      RowsBeforeMonotone(size, np, i, j - 1);
    }
  }
}
