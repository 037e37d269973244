/** The threaded `multiply_matrices` of Parallel.cpp: the `size * size`
    result cells, numbered row by row, are cut into one contiguous range per
    worker thread, and each worker fills the cells of its range with
    `calc_row_col`. Read sequentially, the workers run one after another;
    they write disjoint cells, so the order does not matter. */
module ElementSplit {
  import opened Wrappers
  import opened Layout
  import opened Matrices

  const MAX_THREADS: nat := 2

  /** `threadCount`: `MAX_THREADS`, or the number of cells when that is
      smaller. */
  function ThreadCount(elCount: nat): (tc: nat)
    ensures tc <= MAX_THREADS && tc <= elCount
    ensures tc == MAX_THREADS || tc == elCount
  {
    if MAX_THREADS > elCount then elCount else MAX_THREADS
  }

  /** A worker's `el_start..el_end`, both ends included. */
  datatype Range = Range(start: int, end: int)

  predicate InRange(g: Range, el: int) {
    g.start <= el <= g.end
  }

  /** Some worker's range holds cell `el`. */
  predicate Covered(ranges: seq<Range>, el: int) {
    ranges != [] && (Covered(ranges[..|ranges| - 1], el) || InRange(ranges[|ranges| - 1], el))
  }

  lemma {:induction false} CoveredAt(ranges: seq<Range>, t: nat, el: int)
    requires t < |ranges| && InRange(ranges[t], el)
    ensures Covered(ranges, el)
  {
    if t < |ranges| - 1 {
      CoveredAt(ranges[..|ranges| - 1], t, el);
    }
  }

  lemma {:induction false} CoveredSomewhere(ranges: seq<Range>, el: int)
    requires Covered(ranges, el)
    ensures exists t :: 0 <= t < |ranges| && InRange(ranges[t], el)
  {
    var n := |ranges| - 1;
    if !InRange(ranges[n], el) {
      CoveredSomewhere(ranges[..n], el);
      var t :| 0 <= t < n && InRange(ranges[..n][t], el);
      assert ranges[t] == ranges[..n][t];
    }
  }

  /** The ranges Parallel.cpp hands out: `elPart = elCount / threadCount`
      cells each, `el_start = t * elPart`, `el_end = el_start + elPart - 1`
      clamped to `elCount - 1`. A 0 by 0 matrix has no thread, and the
      division by a `threadCount` of 0 is the `None` result. */
  function RangesAsWritten(elCount: nat): (r: Option<seq<Range>>)
    ensures r.None? <==> elCount == 0
    ensures r.Some? ==> |r.value| == ThreadCount(elCount)
  {
    var tc := ThreadCount(elCount);
    if tc == 0 then None
    else
      var elPart := elCount / tc;
      Some(seq(tc, t => var s := t * elPart; var e := s + elPart - 1;
        Range(s, if e > elCount - 1 then elCount - 1 else e)))
  }

  /** The split with the remainder given to the last worker: its range ends
      at the last cell. */
  function RangesCorrected(elCount: nat): (r: Option<seq<Range>>)
    ensures r.None? <==> elCount == 0
    ensures r.Some? ==> |r.value| == ThreadCount(elCount)
  {
    var tc := ThreadCount(elCount);
    if tc == 0 then None
    else
      var elPart := elCount / tc;
      Some(seq(tc, t => var s := t * elPart;
        Range(s, if t == tc - 1 then elCount - 1 else s + elPart - 1)))
  }

  /** The workers' ranges follow each other without gap or overlap, start
      at cell 0, and stay inside the cells. */
  lemma AsWrittenContiguous(elCount: nat)
    requires elCount > 0
    ensures var rs := RangesAsWritten(elCount).value;
      rs[0].start == 0
      && (forall t :: 0 <= t < |rs| ==> 0 <= rs[t].start <= rs[t].end <= elCount - 1)
      && (forall t :: 0 < t < |rs| ==> rs[t].start == rs[t - 1].end + 1)
  {
    var tc := ThreadCount(elCount);
    var elPart := elCount / tc;
    var rs := RangesAsWritten(elCount).value;
    forall t | 0 <= t < |rs|
      ensures 0 <= rs[t].start <= rs[t].end <= elCount - 1
    {
      PartWithin(elCount, tc, t);
    }
    forall t | 0 < t < |rs|
      ensures rs[t].start == rs[t - 1].end + 1
    {
      MulSucc(t - 1, elPart);
      PartWithin(elCount, tc, t - 1);
    }
  }

  /** Worker `t`'s full share ends inside the cells. */
  lemma PartWithin(elCount: nat, tc: nat, t: nat)
    requires 0 < tc <= elCount && t < tc
    ensures elCount / tc >= 1
    ensures t * (elCount / tc) + elCount / tc <= elCount
  {
    var elPart := elCount / tc;
    RowFits(t, tc, elPart);
    assert tc * elPart <= elCount;
  }

  /** Exactly the first `threadCount * elPart` cells get a worker: the
      `elCount % threadCount` cells after them are written by no one. */
  lemma AsWrittenCovers(elCount: nat, el: nat)
    requires elCount > 0 && el < elCount
    ensures var tc := ThreadCount(elCount);
      Covered(RangesAsWritten(elCount).value, el) <==> el < tc * (elCount / tc)
  {
    var tc := ThreadCount(elCount);
    var elPart := elCount / tc;
    var rs := RangesAsWritten(elCount).value;
    if el < tc * elPart {
      var t := el / elPart;
      CellOfBounds(el, tc, elPart);
      PartWithin(elCount, tc, t);
      CoveredAt(rs, t, el);
    } else if Covered(rs, el) {
      CoveredSomewhere(rs, el);
      var t :| 0 <= t < |rs| && InRange(rs[t], el);
      PartWithin(elCount, tc, t);
      RowFits(t, tc, elPart);
      assert false;
    }
  }

  /** When `threadCount` divides the number of cells, every cell gets a
      worker. */
  lemma DividingCountCovers(elCount: nat, el: nat)
    requires elCount > 0 && el < elCount && elCount % ThreadCount(elCount) == 0
    ensures Covered(RangesAsWritten(elCount).value, el)
  {
    AsWrittenCovers(elCount, el);
  }

  /** The default thread count and a 3 by 3 matrix: 9 cells, two workers of
      4 cells each, and cell 8, the bottom-right entry, is never written. */
  lemma OddSizeLeavesCell()
    ensures RangesAsWritten(9) == Some([Range(0, 3), Range(4, 7)])
    ensures !Covered(RangesAsWritten(9).value, 8)
  {
    var rs := RangesAsWritten(9).value;
    assert ThreadCount(9) == 2 && 9 / 2 == 4;
    assert rs[0] == Range(0, 3) && rs[1] == Range(4, 7);
    assert rs == [Range(0, 3), Range(4, 7)];
    AsWrittenCovers(9, 8);
  }

  /** The corrected split covers every cell. */
  lemma CorrectedCovers(elCount: nat, el: nat)
    requires elCount > 0 && el < elCount
    ensures Covered(RangesCorrected(elCount).value, el)
  {
    var tc := ThreadCount(elCount);
    var elPart := elCount / tc;
    var rs := RangesCorrected(elCount).value;
    PartWithin(elCount, tc, tc - 1);
    if el < tc * elPart {
      var t := el / elPart;
      CellOfBounds(el, tc, elPart);
      PartWithin(elCount, tc, t);
      CoveredAt(rs, t, el);
    } else {
      RowFits(tc - 1, tc, elPart);
      CoveredAt(rs, tc - 1, el);
    }
  }

  /** The corrected ranges never overlap, so each cell is written once. */
  lemma CorrectedDisjoint(elCount: nat, t: nat, u: nat)
    requires elCount > 0 && t < u < ThreadCount(elCount)
    ensures RangesCorrected(elCount).value[t].end < RangesCorrected(elCount).value[u].start
  {
    var tc := ThreadCount(elCount);
    var elPart := elCount / tc;
    PartWithin(elCount, tc, t);
    MulLeftMonotone(t + 1, u, elPart);
    MulSucc(t, elPart);
  }

  /** The value `worker` stores for cell `el`: the dot product at
      (`el / size`, `el % size`). */
  function CellValue(a: Matrix, b: Matrix, size: nat, el: nat): int
    requires IsMatrix(a, size, size) && IsMatrix(b, size, size) && size > 0 && el < size * size
  {
    CellOfBounds(el, size, size);
    Entry(a, b, CellOf(el, size).0, CellOf(el, size).1, size)
  }

  /** One `worker`: for `el` from `el_start` to `el_end`, store
      `calc_row_col` at row `el / size`, column `el % size`. Cells are
      numbered row by row; `None` is a cell nobody has written. */
  method Worker(cells: seq<Option<int>>, a: Matrix, b: Matrix, size: nat, g: Range) returns (out: seq<Option<int>>)
    requires IsMatrix(a, size, size) && IsMatrix(b, size, size) && size > 0
    requires |cells| == size * size && 0 <= g.start && g.end < size * size
    ensures |out| == |cells|
    ensures forall el :: 0 <= el < |cells| ==>
      out[el] == if InRange(g, el) then Some(CellValue(a, b, size, el)) else cells[el]
  {
    out := cells;
    var el := g.start;
    while el <= g.end
      invariant g.start <= el && (el <= g.end + 1 || el == g.start) && |out| == |cells|
      invariant forall k :: 0 <= k < |cells| ==>
        out[k] == if g.start <= k < el then Some(CellValue(a, b, size, k)) else cells[k]
    {
      var (row, col) := CellOf(el, size);
      CellOfBounds(el, size, size);
      var v := CalcRowCol(a, b, row, col, size);
      out := out[el := Some(v)];
      el := el + 1;
    }
  }

  /** All workers, one after another: a cell holds its dot product exactly
      when some worker's range holds it, and is unwritten otherwise. */
  method RunWorkers(a: Matrix, b: Matrix, size: nat, ranges: seq<Range>) returns (cells: seq<Option<int>>)
    requires IsMatrix(a, size, size) && IsMatrix(b, size, size) && size > 0
    requires forall t :: 0 <= t < |ranges| ==> 0 <= ranges[t].start && ranges[t].end < size * size
    ensures |cells| == size * size
    ensures forall el :: 0 <= el < size * size ==>
      cells[el] == if Covered(ranges, el) then Some(CellValue(a, b, size, el)) else None
  {
    cells := seq(size * size, _ => None);
    var t := 0;
    while t < |ranges|
      invariant 0 <= t <= |ranges| && |cells| == size * size
      invariant forall el :: 0 <= el < size * size ==>
        cells[el] == if Covered(ranges[..t], el) then Some(CellValue(a, b, size, el)) else None
    {
      cells := Worker(cells, a, b, size, ranges[t]);
      assert ranges[..t + 1][..t] == ranges[..t];
      t := t + 1;
    }
    assert ranges[..|ranges|] == ranges;
  }

  /** Parallel.cpp's `multiply_matrices` as written: with an odd number of
      cells the last one keeps whatever the allocation held. */
  method MultiplyAsWritten(a: Matrix, b: Matrix, size: nat) returns (cells: seq<Option<int>>)
    requires IsMatrix(a, size, size) && IsMatrix(b, size, size) && size > 0
    ensures |cells| == size * size
    ensures forall el :: 0 <= el < size * size ==>
      (cells[el].Some? <==> el < ThreadCount(size * size) * (size * size / ThreadCount(size * size)))
    ensures forall el :: 0 <= el < size * size && cells[el].Some? ==> cells[el] == Some(CellValue(a, b, size, el))
  {
    MulLeftMonotone(1, size, size);
    var ranges := RangesAsWritten(size * size).value;
    AsWrittenContiguous(size * size);
    cells := RunWorkers(a, b, size, ranges);
    forall el | 0 <= el < size * size
      ensures cells[el].Some? <==> el < ThreadCount(size * size) * (size * size / ThreadCount(size * size))
    {
      AsWrittenCovers(size * size, el);
    }
  }

  /** The multiply with the corrected split: every cell of the result, read
      as row `r`, column `c`, is entry (r, c) of the product. */
  method MultiplyCorrected(a: Matrix, b: Matrix, size: nat) returns (cells: seq<Option<int>>)
    requires IsMatrix(a, size, size) && IsMatrix(b, size, size) && size > 0
    ensures |cells| == size * size
    ensures forall r, c :: 0 <= r < size && 0 <= c < size ==>
      FlatIndex(r, c, size) < size * size && cells[FlatIndex(r, c, size)] == Some(Product(a, b, size)[r][c])
  {
    MulLeftMonotone(1, size, size);
    var ranges := RangesCorrected(size * size).value;
    CorrectedWithin(size * size);
    cells := RunWorkers(a, b, size, ranges);
    forall r, c | 0 <= r < size && 0 <= c < size
      ensures FlatIndex(r, c, size) < size * size && cells[FlatIndex(r, c, size)] == Some(Product(a, b, size)[r][c])
    {
      FlatIndexBounds(r, c, size, size);
      CellOfFlatIndex(r, c, size);
      CorrectedCovers(size * size, FlatIndex(r, c, size));
    }
  }

  lemma CorrectedWithin(elCount: nat)
    requires elCount > 0
    ensures forall t :: 0 <= t < |RangesCorrected(elCount).value| ==>
      0 <= RangesCorrected(elCount).value[t].start && RangesCorrected(elCount).value[t].end < elCount
  {
    var tc := ThreadCount(elCount);
    forall t | 0 <= t < tc
      ensures 0 <= RangesCorrected(elCount).value[t].start && RangesCorrected(elCount).value[t].end < elCount
    {
      PartWithin(elCount, tc, t);
    }
  }
}
