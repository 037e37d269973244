/** The two-process sort of qs-mpi-omp.cpp and qs-mpi-cl.cpp read
    sequentially: the array is split in two blocks, each block is sorted, the
    gathered blocks are merged as two sorted runs, and ten evenly spaced
    samples of the result are checked for order. */
module TwoRankSort {
  import opened Wrappers
  import opened QuickSort
  import opened SampleCheck

  /** `send_counts` and `displacements` of the two ranks. */
  datatype Split = Split(counts: seq<nat>, displacements: seq<nat>)

  /** Half the elements to each rank, the odd one out to rank 0; rank 1's
      block starts where rank 0's ends. */
  function SplitTwo(elCount: nat): (s: Split)
    ensures |s.counts| == 2 && |s.displacements| == 2
    ensures s.counts[0] + s.counts[1] == elCount
    ensures s.counts[0] == s.counts[1] + elCount % 2
    ensures s.displacements[0] == 0 && s.displacements[1] == s.counts[0]
    ensures s.displacements[1] + s.counts[1] == elCount
  {
    var perProcess := elCount / 2;
    var counts := if elCount % 2 == 1 then [perProcess + 1, perProcess] else [perProcess, perProcess];
    Split(counts, [0, counts[0]])
  }

  /** Where the two read cursors of the merge loops stand: `u1` in the first
      run data[..d], `u2` in the second run data[d..]. */
  datatype Cursors = Cursors(u1: nat, u2: nat)

  predicate Within(data: seq<int>, d: nat, c: Cursors) {
    c.u1 <= d <= c.u2 <= |data|
  }

  /** Both runs are used up. */
  predicate Done(data: seq<int>, d: nat, c: Cursors) {
    c.u1 == d && c.u2 == |data|
  }

  /** Whether the merge copies from the first run next: the first run has
      entries left and either the second has none or the first run's entry
      is not above the second's (`data[u1] <= data[u2]`, so ties go to the
      first run). */
  predicate TakeFirst(data: seq<int>, d: nat, c: Cursors)
    requires Within(data, d, c)
  {
    c.u1 < d && (c.u2 == |data| || data[c.u1] <= data[c.u2])
  }

  /** The position the next copy step reads. */
  function Head(data: seq<int>, d: nat, c: Cursors): (i: nat)
    requires Within(data, d, c) && !Done(data, d, c)
    ensures (c.u1 <= i < d) || (c.u2 <= i < |data|)
  {
    if TakeFirst(data, d, c) then c.u1 else c.u2
  }

  /** The cursors after one copy step. */
  function Advance(data: seq<int>, d: nat, c: Cursors): (c': Cursors)
    requires Within(data, d, c) && !Done(data, d, c)
    ensures Within(data, d, c')
  {
    if TakeFirst(data, d, c) then Cursors(c.u1 + 1, c.u2) else Cursors(c.u1, c.u2 + 1)
  }

  /** What is left of the two runs at cursors `c`. */
  function Remaining(data: seq<int>, d: nat, c: Cursors): seq<int>
    requires Within(data, d, c)
  {
    data[c.u1..d] + data[c.u2..]
  }

  /** The entries of data[lo..hi) are in non-decreasing order. */
  predicate SortedRun(data: seq<int>, lo: nat, hi: nat)
    requires hi <= |data|
  {
    forall i, j :: lo <= i < j < hi ==> data[i] <= data[j]
  }

  /** No position is read twice. */
  predicate Distinct(order: seq<nat>) {
    forall k, l :: 0 <= k < l < |order| ==> order[k] != order[l]
  }

  /** The entries written are the entries at the positions read. */
  predicate Picks(data: seq<int>, w: seq<int>, o: seq<nat>) {
    |w| == |o| && forall k :: 0 <= k < |o| ==> o[k] < |data| && w[k] == data[o[k]]
  }

  /** Every position read lies in the part of its run that cursors `c`
      have passed. */
  predicate Passed(data: seq<int>, d: nat, o: seq<nat>, c: Cursors) {
    forall k :: 0 <= k < |o| ==> o[k] < c.u1 || d <= o[k] < c.u2
  }

  /** Every entry left in the two runs is at least `b`. */
  predicate RunsAtLeast(data: seq<int>, d: nat, c: Cursors, b: int)
    requires Within(data, d, c)
  {
    (forall i :: c.u1 <= i < d ==> b <= data[i]) && (forall i :: c.u2 <= i < |data| ==> b <= data[i])
  }

  /** `w` is sorted and nothing left in the runs is below its last entry. */
  predicate SortedSoFar(data: seq<int>, d: nat, w: seq<int>, c: Cursors)
    requires Within(data, d, c)
  {
    Sorted(w) && (w != [] ==> RunsAtLeast(data, d, c, w[|w| - 1]))
  }

  /** Every entry the second run has given up is below every entry left in
      the first run. */
  predicate Behind(data: seq<int>, d: nat, c: Cursors)
    requires Within(data, d, c)
  {
    forall j, i :: d <= j < c.u2 && c.u1 <= i < d ==> data[j] < data[i]
  }

  /** Equal entries keep their relative order: of two positions read with
      equal entries, the one read first is the smaller. */
  predicate Stable(data: seq<int>, o: seq<nat>) {
    forall k, l :: 0 <= k < l < |o| && o[k] < |data| && o[l] < |data| && data[o[k]] == data[o[l]] ==> o[k] < o[l]
  }

  /** What the merge loops keep between steps: `w` is what has been written,
      `o` the positions it was read from, `c` the cursors. */
  predicate MergeState(data: seq<int>, d: nat, w: seq<int>, o: seq<nat>, c: Cursors, both: bool, first: bool) {
    Within(data, d, c)
    && |o| == c.u1 + (c.u2 - d)
    && Picks(data, w, o) && Passed(data, d, o, c) && Distinct(o)
    && multiset(w) + multiset(Remaining(data, d, c)) == multiset(data)
    && (both ==> SortedRun(data, 0, d) && SortedRun(data, d, |data|) && SortedSoFar(data, d, w, c))
    && (first ==> SortedRun(data, 0, d) && Behind(data, d, c) && Stable(data, o))
  }

  /** Before the first step nothing is written and both runs are whole. */
  lemma MergeStart(data: seq<int>, d: nat, both: bool, first: bool)
    requires d <= |data|
    requires both ==> SortedRun(data, 0, d) && SortedRun(data, d, |data|)
    requires first ==> SortedRun(data, 0, d)
    ensures MergeState(data, d, [], [], Cursors(0, d), both, first)
  {
    assert data == data[0..d] + data[d..];
  }

  /** A copy step keeps the merge state. */
  lemma MergeStep(data: seq<int>, d: nat, w: seq<int>, o: seq<nat>, c: Cursors, both: bool, first: bool)
    requires MergeState(data, d, w, o, c, both, first) && !Done(data, d, c)
    ensures MergeState(data, d, w + [data[Head(data, d, c)]], o + [Head(data, d, c)], Advance(data, d, c), both, first)
  {
    var h := Head(data, d, c);
    PicksStep(data, w, o, h);
    PassedStep(data, d, o, c);
    DistinctAppend(o, h);
    RemainingStep(data, d, c);
    StepMultiset(w, data[h], Remaining(data, d, c), Remaining(data, d, Advance(data, d, c)), multiset(data));
    if both {
      SortedStep(data, d, w, c);
    }
    if first {
      StableStep(data, d, o, c);
    }
  }

  /** The merge loops' state: the entries written, the positions they were
      read from, and the cursors. */
  datatype Merging = Merging(written: seq<int>, read: seq<nat>, at: Cursors)

  /** One copy step: `sorted[s++] = data[u1++]` or `sorted[s++] = data[u2++]`. */
  function Step(data: seq<int>, d: nat, m: Merging): (m': Merging)
    requires Within(data, d, m.at) && !Done(data, d, m.at)
    ensures Within(data, d, m'.at) && |m'.written| == |m.written| + 1
  {
    var h := Head(data, d, m.at);
    Merging(m.written + [data[h]], m.read + [h], Advance(data, d, m.at))
  }

  /** The state after `n` copy steps: reference definition of the merge. */
  function Run(data: seq<int>, d: nat, n: nat): (m: Merging)
    requires d <= |data| && n <= |data|
    ensures Within(data, d, m.at) && m.at.u1 + (m.at.u2 - d) == n
  {
    if n == 0 then Merging([], [], Cursors(0, d)) else Step(data, d, Run(data, d, n - 1))
  }

  /** The two runs data[..d] and data[d..] merged: what the merge writes once
      every entry has been read. */
  function Merged(data: seq<int>, d: nat): seq<int>
    requires d <= |data|
  {
    Run(data, d, |data|).written
  }

  /** Every state the merge passes through keeps the merge state. */
  lemma {:induction false} RunState(data: seq<int>, d: nat, n: nat, both: bool, first: bool)
    requires d <= |data| && n <= |data|
    requires both ==> SortedRun(data, 0, d) && SortedRun(data, d, |data|)
    requires first ==> SortedRun(data, 0, d)
    ensures var m := Run(data, d, n); MergeState(data, d, m.written, m.read, m.at, both, first)
  {
    if n == 0 {
      MergeStart(data, d, both, first);
    } else {
      RunState(data, d, n - 1, both, first);
      var m := Run(data, d, n - 1);
      var h := Head(data, d, m.at);
      assert Run(data, d, n) == Merging(m.written + [data[h]], m.read + [h], Advance(data, d, m.at));
      MergeStep(data, d, m.written, m.read, m.at, both, first);
    }
  }

  /** When both runs are used up, everything has been written. */
  lemma MergeEnd(data: seq<int>, d: nat, w: seq<int>, o: seq<nat>, c: Cursors, both: bool, first: bool)
    requires MergeState(data, d, w, o, c, both, first) && Done(data, d, c)
    ensures |w| == |o| == |data| && multiset(w) == multiset(data)
    ensures both ==> Sorted(w)
  {
    assert Remaining(data, d, c) == [];
  }

  lemma PicksStep(data: seq<int>, w: seq<int>, o: seq<nat>, h: nat)
    requires Picks(data, w, o) && h < |data|
    ensures Picks(data, w + [data[h]], o + [h])
  {
    var w', o' := w + [data[h]], o + [h];
    forall k | 0 <= k < |o'|
      ensures o'[k] < |data| && w'[k] == data[o'[k]]
    {
      if k < |o| {
        assert o'[k] == o[k] && w'[k] == w[k];
      }
    }
  }

  /** The position a step reads has not been passed, and afterwards it has. */
  lemma PassedStep(data: seq<int>, d: nat, o: seq<nat>, c: Cursors)
    requires Within(data, d, c) && !Done(data, d, c) && Passed(data, d, o, c)
    ensures forall k :: 0 <= k < |o| ==> o[k] != Head(data, d, c)
    ensures Passed(data, d, o + [Head(data, d, c)], Advance(data, d, c))
  {
    var h, c', o' := Head(data, d, c), Advance(data, d, c), o + [Head(data, d, c)];
    forall k | 0 <= k < |o|
      ensures o[k] != h
    {
      if TakeFirst(data, d, c) {
        assert h == c.u1 < d;
      } else {
        assert h == c.u2 >= d;
      }
    }
    forall k | 0 <= k < |o'|
      ensures o'[k] < c'.u1 || d <= o'[k] < c'.u2
    {
      if k < |o| {
        assert o'[k] == o[k];
      }
    }
  }

  /** Appending a position not yet in a sequence of distinct positions
      keeps them distinct. */
  lemma DistinctAppend(o: seq<nat>, h: nat)
    requires Distinct(o) && forall k :: 0 <= k < |o| ==> o[k] != h
    ensures Distinct(o + [h])
  {
    var o' := o + [h];
    forall k, l | 0 <= k < l < |o'|
      ensures o'[k] != o'[l]
    {
      assert o'[k] == o[k];
    }
  }

  /** A copy step from the first run takes its front entry off what is left. */
  lemma RemainingFirst(data: seq<int>, d: nat, c: Cursors)
    requires Within(data, d, c) && c.u1 < d
    ensures Remaining(data, d, c) == [data[c.u1]] + Remaining(data, d, Cursors(c.u1 + 1, c.u2))
  {
    assert data[c.u1..d] == [data[c.u1]] + data[c.u1 + 1..d];
  }

  /** A copy step from the second run takes its front entry off what is left. */
  lemma RemainingSecond(data: seq<int>, d: nat, c: Cursors)
    requires Within(data, d, c) && c.u2 < |data|
    ensures multiset(Remaining(data, d, c)) == multiset{data[c.u2]} + multiset(Remaining(data, d, Cursors(c.u1, c.u2 + 1)))
  {
    var front, x, back := data[c.u1..d], data[c.u2], data[c.u2 + 1..];
    assert data[c.u2..] == [x] + back;
    assert Remaining(data, d, c) == front + ([x] + back);
    assert Remaining(data, d, Cursors(c.u1, c.u2 + 1)) == front + back;
    SwapFront(front, x, back);
  }

  lemma SwapFront(front: seq<int>, x: int, back: seq<int>)
    ensures multiset(front + ([x] + back)) == multiset{x} + multiset(front + back)
  {
    calc {
      multiset(front + ([x] + back));
      multiset(front) + (multiset([x]) + multiset(back));
      multiset{x} + (multiset(front) + multiset(back));
      multiset{x} + multiset(front + back);
    }
  }

  /** A copy step takes the entry it writes off what is left. */
  lemma RemainingStep(data: seq<int>, d: nat, c: Cursors)
    requires Within(data, d, c) && !Done(data, d, c)
    ensures multiset(Remaining(data, d, c)) == multiset{data[Head(data, d, c)]} + multiset(Remaining(data, d, Advance(data, d, c)))
  {
    if TakeFirst(data, d, c) {
      assert Head(data, d, c) == c.u1 && Advance(data, d, c) == Cursors(c.u1 + 1, c.u2);
      RemainingFirst(data, d, c);
    } else {
      assert Head(data, d, c) == c.u2 && Advance(data, d, c) == Cursors(c.u1, c.u2 + 1);
      RemainingSecond(data, d, c);
    }
  }

  lemma UnionShift(a: multiset<int>, x: int, b: multiset<int>, all: multiset<int>)
    requires a + (multiset{x} + b) == all
    ensures (a + multiset{x}) + b == all
  {
    forall e
      ensures ((a + multiset{x}) + b)[e] == all[e]
    {
      assert (a + (multiset{x} + b))[e] == all[e];
    }
  }

  /** One copy step keeps the written and the remaining entries together. */
  lemma StepMultiset(written: seq<int>, x: int, left: seq<int>, left': seq<int>, all: multiset<int>)
    requires multiset(written) + multiset(left) == all
    requires multiset(left) == multiset{x} + multiset(left')
    ensures multiset(written + [x]) + multiset(left') == all
  {
    UnionShift(multiset(written), x, multiset(left'), all);
  }

  /** With both runs sorted, the entry read next is at most everything
      left after it. */
  lemma HeadAtMost(data: seq<int>, d: nat, c: Cursors)
    requires Within(data, d, c) && !Done(data, d, c)
    requires SortedRun(data, 0, d) && SortedRun(data, d, |data|)
    ensures RunsAtLeast(data, d, Advance(data, d, c), data[Head(data, d, c)])
  {
  }

  /** With both runs sorted, a copy step keeps what is written sorted. */
  lemma SortedStep(data: seq<int>, d: nat, w: seq<int>, c: Cursors)
    requires Within(data, d, c) && !Done(data, d, c)
    requires SortedRun(data, 0, d) && SortedRun(data, d, |data|)
    requires SortedSoFar(data, d, w, c)
    ensures SortedSoFar(data, d, w + [data[Head(data, d, c)]], Advance(data, d, c))
  {
    var x := data[Head(data, d, c)];
    var w' := w + [x];
    HeadAtMost(data, d, c);
    forall i, j | 0 <= i < j < |w'|
      ensures w'[i] <= w'[j]
    {
      if j < |w| {
        assert w'[i] == w[i] && w'[j] == w[j];
      } else {
        assert w'[i] == w[i] <= w[|w| - 1] || i == |w|;
      }
    }
  }

  /** With the first run sorted, a copy step keeps equal entries in order:
      an entry of the first run is never overtaken by an equal entry of the
      second. */
  lemma StableStep(data: seq<int>, d: nat, o: seq<nat>, c: Cursors)
    requires Within(data, d, c) && !Done(data, d, c) && SortedRun(data, 0, d)
    requires Passed(data, d, o, c) && Behind(data, d, c) && Stable(data, o)
    ensures Behind(data, d, Advance(data, d, c))
    ensures Stable(data, o + [Head(data, d, c)])
  {
    var h, o' := Head(data, d, c), o + [Head(data, d, c)];
    forall k, l | 0 <= k < l < |o'| && o'[k] < |data| && o'[l] < |data| && data[o'[k]] == data[o'[l]]
      ensures o'[k] < o'[l]
    {
      assert o'[k] == o[k];
      if l < |o| {
        assert o'[l] == o[l];
      } else if TakeFirst(data, d, c) {
        var ok := o[k];
        assert ok < c.u1 || d <= ok < c.u2;
      }
    }
  }

  /** The first merge loop: while both runs have entries left, copy the
      smaller front entry, the first run's on a tie. It stops with one run
      used up. `order` records the positions read. */
  method MergeBoth(data: seq<int>, d: nat) returns (sorted: seq<int>, s: nat, u1: nat, u2: nat, ghost order: seq<nat>)
    requires d <= |data|
    ensures s <= |data| && Merging(sorted, order, Cursors(u1, u2)) == Run(data, d, s)
    ensures u1 == d || u2 == |data|
  {
    sorted, order := [], [];
    u1, u2 := 0, d;
    s := 0;
    while u1 < d && u2 < |data|
      invariant s <= |data| && Merging(sorted, order, Cursors(u1, u2)) == Run(data, d, s)
      decreases |data| - s
    {
      assert Run(data, d, s + 1) == Step(data, d, Merging(sorted, order, Cursors(u1, u2)));
      if data[u1] <= data[u2] {
        sorted, order, u1 := sorted + [data[u1]], order + [u1], u1 + 1;
      } else {
        sorted, order, u2 := sorted + [data[u2]], order + [u2], u2 + 1;
      }
      s := s + 1;
    }
  }

  /** The second merge loop: copy what is left of the first run. */
  method DrainFirst(data: seq<int>, d: nat, sorted0: seq<int>, s0: nat, u10: nat, u2: nat, ghost order0: seq<nat>)
    returns (sorted: seq<int>, s: nat, u1: nat, ghost order: seq<nat>)
    requires d <= |data| && s0 <= |data| && Merging(sorted0, order0, Cursors(u10, u2)) == Run(data, d, s0)
    requires u10 == d || u2 == |data|
    ensures s <= |data| && Merging(sorted, order, Cursors(u1, u2)) == Run(data, d, s)
    ensures u1 == d
  {
    sorted, s, u1, order := sorted0, s0, u10, order0;
    while u1 < d
      invariant s <= |data| && Merging(sorted, order, Cursors(u1, u2)) == Run(data, d, s)
      invariant u1 < d ==> u2 == |data|
      decreases |data| - s
    {
      assert Run(data, d, s + 1) == Step(data, d, Merging(sorted, order, Cursors(u1, u2)));
      sorted, order, u1 := sorted + [data[u1]], order + [u1], u1 + 1;
      s := s + 1;
    }
  }

  /** The third merge loop: copy what is left of the second run. */
  method DrainSecond(data: seq<int>, d: nat, sorted0: seq<int>, s0: nat, u1: nat, u20: nat, ghost order0: seq<nat>)
    returns (sorted: seq<int>, s: nat, u2: nat, ghost order: seq<nat>)
    requires d <= |data| && s0 <= |data| && Merging(sorted0, order0, Cursors(u1, u20)) == Run(data, d, s0)
    requires u1 == d
    ensures s <= |data| && Merging(sorted, order, Cursors(u1, u2)) == Run(data, d, s)
    ensures u2 == |data|
  {
    sorted, s, u2, order := sorted0, s0, u20, order0;
    while u2 < |data|
      invariant s <= |data| && Merging(sorted, order, Cursors(u1, u2)) == Run(data, d, s)
      decreases |data| - s
    {
      assert Run(data, d, s + 1) == Step(data, d, Merging(sorted, order, Cursors(u1, u2)));
      sorted, order, u2 := sorted + [data[u2]], order + [u2], u2 + 1;
      s := s + 1;
    }
  }

  /** The merge loops of the root rank. `d` is `displacements[1]`, where the
      second sorted block starts; `s` is the count of written slots. The
      result is a permutation of the gathered array, sorted when both blocks
      are, and stable when the first block is sorted. */
  method Merge(data: seq<int>, d: nat) returns (sorted: seq<int>, s: nat, ghost order: seq<nat>)
    requires d <= |data|
    ensures s == |sorted| == |data| && sorted == Merged(data, d)
    ensures multiset(sorted) == multiset(data)
    ensures SortedRun(data, 0, d) && SortedRun(data, d, |data|) ==> Sorted(sorted)
    ensures |order| == |data| && Distinct(order) && Picks(data, sorted, order)
    ensures SortedRun(data, 0, d) ==> Stable(data, order)
  {
    var u1, u2;
    sorted, s, u1, u2, order := MergeBoth(data, d);
    sorted, s, u1, order := DrainFirst(data, d, sorted, s, u1, u2, order);
    sorted, s, u2, order := DrainSecond(data, d, sorted, s, u1, u2, order);
    ghost var first := SortedRun(data, 0, d);
    ghost var both := first && SortedRun(data, d, |data|);
    RunState(data, d, s, both, first);
    MergeEnd(data, d, sorted, order, Cursors(u1, u2), both, first);
  }

  /** The block rank `rank` works on: `send_counts[rank]` entries from
      `displacements[rank]`, as `MPI_Scatterv` hands them out. */
  function Block(data: seq<int>, rank: nat): (b: seq<int>)
    requires rank < 2
    ensures |b| == SplitTwo(|data|).counts[rank]
  {
    var sp := SplitTwo(|data|);
    data[sp.displacements[rank]..sp.displacements[rank] + sp.counts[rank]]
  }

  /** The two blocks are disjoint and together are the whole array, so
      `MPI_Gatherv` puts every entry back at its place. */
  lemma BlocksCover(data: seq<int>)
    ensures Block(data, 0) + Block(data, 1) == data
  {
    var d := SplitTwo(|data|).displacements[1];
    assert Block(data, 0) == data[..d] && Block(data, 1) == data[d..];
  }

  /** Two sorted blocks placed side by side are two sorted runs. */
  lemma SortedBlocksAreRuns(left: seq<int>, right: seq<int>)
    requires Sorted(left) && Sorted(right)
    ensures SortedRun(left + right, 0, |left|) && SortedRun(left + right, |left|, |left + right|)
  {
    var g := left + right;
    forall i, j | |left| <= i < j < |g|
      ensures g[i] <= g[j]
    {
      assert g[i] == right[i - |left|] && g[j] == right[j - |left|];
    }
  }

  /** The whole run of the program on rank 0's array: split, sort each
      block, gather, merge, then the sampled validity test. The result is
      sorted, a permutation of the input, and the test passes whenever it
      can read its samples. */
  method SortTwoRanks(data: seq<int>) returns (sorted: seq<int>, verdict: Option<bool>)
    ensures |sorted| == |data| && multiset(sorted) == multiset(data)
    ensures Sorted(sorted)
    ensures verdict == if data == [] then None else Some(true)
  {
    var b0, b1 := Block(data, 0), Block(data, 1);
    BlocksCover(data);
    var left := QuickSortTasks(b0, 0, |b0| - 1);
    var right := QuickSortTasks(b1, 0, |b1| - 1);
    var gathered := left + right;
    SortedBlocksAreRuns(left, right);
    assert multiset(gathered) == multiset(data) by {
      assert multiset(data) == multiset(b0) + multiset(b1);
    }
    var s;
    ghost var order;
    sorted, s, order := Merge(gathered, |left|);
    if sorted != [] {
      SortedPasses(sorted);
    }
    verdict := ValidityTest(sorted);
  }

  /** The split-sort-merge pipeline computes the same array as one
      `quickSort` over the whole input. */
  method TwoRanksAgree(data: seq<int>) returns (two: seq<int>, one: seq<int>)
    ensures two == one
    ensures Sorted(two) && multiset(two) == multiset(data)
  {
    var verdict;
    two, verdict := SortTwoRanks(data);
    one := QuickSortTasks(data, 0, |data| - 1);
    SortedUnique(two, one);
  }
}
