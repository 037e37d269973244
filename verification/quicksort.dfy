/** Lomuto partition and the recursive quicksort over the inclusive index
    range [low, high] of an `int` array. The array is modelled as a sequence
    value: each operation returns the array it leaves behind. */
module QuickSort {

  /** The entries at positions low..high (inclusive) are in non-decreasing order. */
  predicate SortedBetween(a: seq<int>, low: int, high: int) {
    forall i, j :: low <= i < j <= high && 0 <= i && j < |a| ==> a[i] <= a[j]
  }

  /** The whole sequence is in non-decreasing order. */
  predicate Sorted(a: seq<int>) {
    SortedBetween(a, 0, |a| - 1)
  }

  /** `b` agrees with `a` everywhere outside low..high. */
  predicate SameOutside(a: seq<int>, b: seq<int>, low: int, high: int) {
    |b| == |a| && forall k :: 0 <= k < |a| && (k < low || high < k) ==> b[k] == a[k]
  }

  /** Every entry of a[lo..hi) is at most `bound`. */
  predicate AllAtMost(a: seq<int>, lo: int, hi: int, bound: int)
    requires 0 <= lo <= hi <= |a|
  {
    forall k :: lo <= k < hi ==> a[k] <= bound
  }

  /** Every entry of a[lo..hi) is above `bound`. */
  predicate AllAbove(a: seq<int>, lo: int, hi: int, bound: int)
    requires 0 <= lo <= hi <= |a|
  {
    forall k :: lo <= k < hi ==> a[k] > bound
  }

  /** `swap(arr[i], arr[j])`. */
  function Swap(a: seq<int>, i: int, j: int): (b: seq<int>)
    requires 0 <= i < |a| && 0 <= j < |a|
    ensures |b| == |a| && b[i] == a[j] && b[j] == a[i]
    ensures forall k :: 0 <= k < |a| && k != i && k != j ==> b[k] == a[k]
    ensures multiset(b) == multiset(a)
  {
    a[i := a[j]][j := a[i]]
  }

  /** A permutation of the whole array that leaves everything outside
      low..high alone permutes low..high among themselves. */
  lemma RangeMultiset(a: seq<int>, b: seq<int>, low: int, high: int)
    requires 0 <= low <= high + 1 <= |a|
    requires SameOutside(a, b, low, high) && multiset(b) == multiset(a)
    ensures multiset(b[low..high + 1]) == multiset(a[low..high + 1])
  {
    var front, back := a[..low], a[high + 1..];
    assert b[..low] == front && b[high + 1..] == back;
    assert a == front + a[low..high + 1] + back;
    assert b == front + b[low..high + 1] + back;
    MultisetCancel(multiset(front), multiset(b[low..high + 1]), multiset(a[low..high + 1]), multiset(back));
  }

  lemma MultisetCancel(x: multiset<int>, m: multiset<int>, n: multiset<int>, y: multiset<int>)
    requires x + m + y == x + n + y
    ensures m == n
  {
    forall e
      ensures m[e] == n[e]
    {
      assert (x + m + y)[e] == (x + n + y)[e];
    }
  }

  /** A bound on every entry of a range survives a permutation of that range. */
  lemma AtMostTransfer(a: seq<int>, b: seq<int>, lo: int, hi: int, bound: int)
    requires 0 <= lo <= hi <= |a| == |b|
    requires multiset(b[lo..hi]) == multiset(a[lo..hi]) && AllAtMost(a, lo, hi, bound)
    ensures AllAtMost(b, lo, hi, bound)
  {
    forall k | lo <= k < hi
      ensures b[k] <= bound
    {
      assert b[k] == b[lo..hi][k - lo];
      assert b[k] in multiset(a[lo..hi]);
      var m :| 0 <= m < hi - lo && a[lo..hi][m] == b[k];
      assert a[lo + m] == b[k];
    }
  }

  lemma AboveTransfer(a: seq<int>, b: seq<int>, lo: int, hi: int, bound: int)
    requires 0 <= lo <= hi <= |a| == |b|
    requires multiset(b[lo..hi]) == multiset(a[lo..hi]) && AllAbove(a, lo, hi, bound)
    ensures AllAbove(b, lo, hi, bound)
  {
    forall k | lo <= k < hi
      ensures b[k] > bound
    {
      assert b[k] == b[lo..hi][k - lo];
      assert b[k] in multiset(a[lo..hi]);
      var m :| 0 <= m < hi - lo && a[lo..hi][m] == b[k];
      assert a[lo + m] == b[k];
    }
  }

  /** The loop of `partition`: `i` marks the end of the entries not above
      the pivot `arr[high]`; each such entry met by `j` is swapped behind it. */
  method PartitionScan(a: seq<int>, low: int, high: int) returns (b: seq<int>, i: int)
    requires 0 <= low <= high < |a|
    ensures low - 1 <= i < high
    ensures SameOutside(a, b, low, high) && multiset(b) == multiset(a) && b[high] == a[high]
    ensures forall k :: low <= k <= i ==> b[k] <= a[high]
    ensures forall k :: i < k < high ==> b[k] > a[high]
  {
    var pivot := a[high];
    i := low - 1;
    b := a;
    var j := low;
    while j <= high - 1
      invariant low <= j <= high && low - 1 <= i < j
      invariant SameOutside(a, b, low, high) && multiset(b) == multiset(a)
      invariant b[high] == pivot
      invariant forall k :: low <= k <= i ==> b[k] <= pivot
      invariant forall k :: i < k < j ==> b[k] > pivot
    {
      if b[j] <= pivot {
        i := i + 1;
        b := Swap(b, i, j);
      }
      j := j + 1;
    }
  }

  /** `partition(arr, low, high)`: after the scan the pivot is swapped into
      place `i + 1`, which is returned. */
  method Partition(a: seq<int>, low: int, high: int) returns (b: seq<int>, p: int)
    requires 0 <= low <= high < |a|
    ensures low <= p <= high
    ensures SameOutside(a, b, low, high) && multiset(b) == multiset(a)
    ensures b[p] == a[high]
    ensures AllAtMost(b, low, p, b[p]) && AllAbove(b, p + 1, high + 1, b[p])
  {
    var c, i := PartitionScan(a, low, high);
    b := Swap(c, i + 1, high);
    p := i + 1;
  }

  /** `quickSort(arr, low, high)` of quicksort.cpp: nothing happens unless
      low < high; otherwise partition, then sort both sides of the pivot. */
  method QuickSort(a: seq<int>, low: int, high: int) returns (b: seq<int>)
    requires low < high ==> 0 <= low && high < |a|
    ensures SameOutside(a, b, low, high) && multiset(b) == multiset(a)
    ensures SortedBetween(b, low, high)
    ensures low >= high ==> b == a
    decreases high - low
  {
    if low < high {
      var c, p := Partition(a, low, high);
      var left := QuickSort(c, low, p - 1);
      var right := QuickSort(left, p + 1, high);
      JoinSorted(a, c, left, right, low, p, high);
      b := right;
    } else {
      b := a;
    }
  }

  /** The step that makes the recursion sort: both sides of the pivot sorted
      in place around it give a sorted range. */
  lemma JoinSorted(a: seq<int>, c: seq<int>, left: seq<int>, right: seq<int>, low: int, p: int, high: int)
    requires 0 <= low <= p <= high < |a|
    requires SameOutside(a, c, low, high) && multiset(c) == multiset(a)
    requires AllAtMost(c, low, p, c[p]) && AllAbove(c, p + 1, high + 1, c[p])
    requires SameOutside(c, left, low, p - 1) && multiset(left) == multiset(c) && SortedBetween(left, low, p - 1)
    requires SameOutside(left, right, p + 1, high) && multiset(right) == multiset(left) && SortedBetween(right, p + 1, high)
    ensures SameOutside(a, right, low, high) && multiset(right) == multiset(a)
    ensures SortedBetween(right, low, high)
  {
    var pivot := c[p];
    RangeMultiset(c, left, low, p - 1);
    AtMostTransfer(c, left, low, p, pivot);
    RangeMultiset(left, right, p + 1, high);
    assert left[p + 1..high + 1] == c[p + 1..high + 1];
    AboveTransfer(c, right, p + 1, high + 1, pivot);
    assert right[p] == pivot;
    forall i, j | low <= i < j <= high
      ensures right[i] <= right[j]
    {
      if j < p {
        assert right[i] == left[i] && right[j] == left[j];
      } else if i < p {
        assert right[i] == left[i] && left[i] <= pivot;
        assert j == p || right[j] > pivot;
      } else if i == p {
        assert right[j] > pivot;
      }
    }
  }

  /** `quicksort(arr, low, high)` of quicksort-omp.cpp and `quickSort` of
      qs-mpi-omp.cpp: below 5000 entries the two halves are sorted directly,
      above as two OpenMP tasks; read sequentially both branches make the same
      two calls on [low, p - 1] and [p + 1, high], which touch disjoint ranges
      that exclude the pivot. */
  method QuickSortTasks(a: seq<int>, low: int, high: int) returns (b: seq<int>)
    requires low < high ==> 0 <= low && high < |a|
    ensures SameOutside(a, b, low, high) && multiset(b) == multiset(a)
    ensures SortedBetween(b, low, high)
    ensures low >= high ==> b == a
    decreases high - low
  {
    if low < high {
      var c, p := Partition(a, low, high);
      var left, right;
      if high - low < 5000 {
        left := QuickSortTasks(c, low, p - 1);
        right := QuickSortTasks(left, p + 1, high);
      } else {
        left := QuickSortTasks(c, low, p - 1);
        right := QuickSortTasks(left, p + 1, high);
      }
      JoinSorted(a, c, left, right, low, p, high);
      b := right;
    } else {
      b := a;
    }
  }

  /** The first entry of a sorted sequence is its least. */
  lemma SortedFirstLeast(x: seq<int>, v: int)
    requires Sorted(x) && v in multiset(x)
    ensures x[0] <= v
  {
    var i :| 0 <= i < |x| && x[i] == v;
  }

  /** What is left of a sorted sequence after its first entry. */
  lemma SortedRest(x: seq<int>)
    requires Sorted(x) && x != []
    ensures Sorted(x[1..])
    ensures multiset(x[1..]) == multiset(x) - multiset{x[0]}
  {
    assert x == [x[0]] + x[1..];
    forall i, j | 0 <= i < j <= |x[1..]| - 1
      ensures x[1..][i] <= x[1..][j]
    {
      assert x[1..][i] == x[i + 1] && x[1..][j] == x[j + 1];
    }
  }

  /** Two non-empty sorted sequences holding the same entries start with the
      same entry, and what follows it is again sorted with equal entries. */
  lemma SameHeads(x: seq<int>, y: seq<int>)
    requires Sorted(x) && Sorted(y) && multiset(x) == multiset(y) && x != [] && y != []
    ensures x[0] == y[0]
    ensures Sorted(x[1..]) && Sorted(y[1..]) && multiset(x[1..]) == multiset(y[1..])
  {
    assert y[0] in multiset(x) && x[0] in multiset(y);
    SortedFirstLeast(x, y[0]);
    SortedFirstLeast(y, x[0]);
    SortedRest(x);
    SortedRest(y);
  }

  /** Sorted sequences holding the same entries are equal. */
  lemma {:induction false} SortedUnique(x: seq<int>, y: seq<int>)
    requires Sorted(x) && Sorted(y) && multiset(x) == multiset(y)
    ensures x == y
  {
    if x == [] || y == [] {
      assert |x| == |multiset(x)| == |multiset(y)| == |y|;
    } else {
      SameHeads(x, y);
      SortedUnique(x[1..], y[1..]);
      assert x == [x[0]] + x[1..] && y == [y[0]] + y[1..];
    }
  }

  /** Any two results meeting the quicksort contract coincide: the array a
      sort leaves behind does not depend on how it got there. */
  lemma SortResultUnique(a: seq<int>, b1: seq<int>, b2: seq<int>, low: int, high: int)
    requires 0 <= low <= high < |a|
    requires SameOutside(a, b1, low, high) && multiset(b1) == multiset(a) && SortedBetween(b1, low, high)
    requires SameOutside(a, b2, low, high) && multiset(b2) == multiset(a) && SortedBetween(b2, low, high)
    ensures b1 == b2
  {
    RangeMultiset(a, b1, low, high);
    RangeMultiset(a, b2, low, high);
    var r1, r2 := b1[low..high + 1], b2[low..high + 1];
    assert Sorted(r1) by {
      forall i, j | 0 <= i < j <= |r1| - 1 ensures r1[i] <= r1[j] {
        assert r1[i] == b1[low + i] && r1[j] == b1[low + j];
      }
    }
    assert Sorted(r2) by {
      forall i, j | 0 <= i < j <= |r2| - 1 ensures r2[i] <= r2[j] {
        assert r2[i] == b2[low + i] && r2[j] == b2[low + j];
      }
    }
    SortedUnique(r1, r2);
    forall k | 0 <= k < |b1|
      ensures b1[k] == b2[k]
    {
      if low <= k <= high {
        assert b1[k] == r1[k - low] && b2[k] == r2[k - low];
      }
    }
  }

  /** The threshold branch does not change the outcome: the task-splitting
      quicksort and the plain one leave the same array. */
  method TasksAgree(a: seq<int>, low: int, high: int) returns (plain: seq<int>, tasks: seq<int>)
    requires low < high ==> 0 <= low && high < |a|
    ensures plain == tasks
    ensures SameOutside(a, plain, low, high) && multiset(plain) == multiset(a) && SortedBetween(plain, low, high)
  {
    plain := QuickSort(a, low, high);
    tasks := QuickSortTasks(a, low, high);
    if low < high {
      SortResultUnique(a, plain, tasks, low, high);
    }
  }
}
