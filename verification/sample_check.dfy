/** The "Validity Test (10 Samples)" that ends both two-process sorts: ten
    entries `el_count / 10` apart are compared with their predecessor
    sample, and the first descent reports FAIL. */
module SampleCheck {
  import opened Wrappers
  import opened QuickSort

  /** The distance between two samples. */
  function Span(n: nat): nat {
    n / 10
  }

  /** Every sampled position of a non-empty array is inside it; the largest
      is `9 * (n / 10)`. */
  lemma SampleInBounds(n: nat, i: nat)
    requires n >= 1 && i < 10
    ensures i * Span(n) < n
  {
    var q := Span(n);
    assert i * q <= 9 * q by {
      assert (9 - i) * q >= 0;
    }
    if q > 0 {
      assert 9 * q < 10 * q <= n;
    }
  }

  /** Consecutive samples are at non-decreasing positions. */
  lemma SamplesAscend(n: nat, i: nat)
    requires 1 <= i < 10
    ensures (i - 1) * Span(n) <= i * Span(n)
  {
    assert i * Span(n) == (i - 1) * Span(n) + Span(n);
  }

  /** The `i`-th sample `sorted[i * span]`. */
  function Sample(a: seq<int>, i: nat): int
    requires a != [] && i < 10
  {
    SampleInBounds(|a|, i);
    a[i * Span(|a|)]
  }

  /** No sample is below the one before it: the check's PASS condition. */
  predicate SamplesInOrder(a: seq<int>)
    requires a != []
  {
    forall i :: 1 <= i < 10 ==> Sample(a, i - 1) <= Sample(a, i)
  }

  /** The sampling loop. With `el_count == 0` the source reads `sorted[0]`
      of an empty allocation; that read is the `None` result. Otherwise the
      result is PASS (`true`) or FAIL (`false`), and only the samples
      decide it. */
  method ValidityTest(sorted: seq<int>) returns (r: Option<bool>)
    ensures r.None? <==> sorted == []
    ensures r.Some? ==> (r.value <==> SamplesInOrder(sorted))
  {
    if sorted == [] {
      return None;
    }
    var span := |sorted| / 10;
    var fail := false;
    var i := 0;
    while i < 10
      invariant 0 <= i <= 10 && !fail
      invariant forall k :: 1 <= k < i ==> Sample(sorted, k - 1) <= Sample(sorted, k)
    {
      SampleInBounds(|sorted|, i);
      if i > 0 {
        SampleInBounds(|sorted|, i - 1);
        if sorted[i * span] < sorted[(i - 1) * span] {
          assert Sample(sorted, i) < Sample(sorted, i - 1);
          fail := true;
          break;
        }
      }
      i := i + 1;
    }
    r := Some(!fail);
  }

  /** A sorted non-empty array always passes. */
  lemma SortedPasses(a: seq<int>)
    requires Sorted(a) && a != []
    ensures SamplesInOrder(a)
  {
    forall i | 1 <= i < 10
      ensures Sample(a, i - 1) <= Sample(a, i)
    {
      SampleInBounds(|a|, i);
      SampleInBounds(|a|, i - 1);
      SamplesAscend(|a|, i);
    }
  }

  /** The converse fails: below ten elements every sample is `sorted[0]`, so
      an unsorted array can pass. */
  lemma PassDoesNotMeanSorted()
    ensures SamplesInOrder([2, 1]) && !Sorted([2, 1])
  {
    var a := [2, 1];
    assert Span(|a|) == 0;
    assert forall i :: 0 <= i < 10 ==> Sample(a, i) == 2;
    assert a[0] > a[1];
  }
}
