/** The `topN` copy of an hour bucket: the lights ordered by non-increasing
    total with `std::sort` and `light_t::operator<`, then cut or padded to
    `top` entries with `resize`. */
module Ranking {

  /** The source's `light_t`: a traffic light id and its running car total. */
  datatype Light = Light(id: int, total: int)

  /** What `resize` appends: a value-initialised `light_t`. */
  const Blank: Light := Light(0, 0)

  /** The order `sort` establishes with `operator<` being `total >= other.total`. */
  predicate NonIncreasing(s: seq<Light>) {
    forall i, j :: 0 <= i < j < |s| ==> s[i].total >= s[j].total
  }

  /** Every entry of `t` carries at most `bound` cars. */
  predicate AllAtMost(t: seq<Light>, bound: int) {
    forall k :: 0 <= k < |t| ==> t[k].total <= bound
  }

  lemma AtMostByMultiset(t: seq<Light>, u: seq<Light>, bound: int)
    requires AllAtMost(u, bound) && multiset(t) <= multiset(u)
    ensures AllAtMost(t, bound)
  {
    forall k | 0 <= k < |t|
      ensures t[k].total <= bound
    {
      assert t[k] in multiset(u);
    }
  }

  /** Puts `x` into a ranked sequence in front of the first entry it is not below. */
  function Insert(x: Light, s: seq<Light>): (r: seq<Light>)
    requires NonIncreasing(s)
    ensures |r| == |s| + 1
    ensures multiset(r) == multiset(s) + multiset{x}
    ensures NonIncreasing(r)
  {
    if s == [] then [x]
    else if x.total >= s[0].total then [x] + s
    else
      NonIncreasingRest(s);
      var tail := Insert(x, s[1..]);
      InsertBehind(x, s, tail);
      [s[0]] + tail
  }

  lemma NonIncreasingRest(s: seq<Light>)
    requires NonIncreasing(s) && s != []
    ensures NonIncreasing(s[1..])
  {
    forall i, j | 0 <= i < j < |s| - 1
      ensures s[1..][i].total >= s[1..][j].total
    {
      assert s[1..][i] == s[i + 1] && s[1..][j] == s[j + 1];
    }
  }

  /** Putting `x` behind the first entry of `s`, which is above it, keeps the
      ranking. */
  lemma InsertBehind(x: Light, s: seq<Light>, tail: seq<Light>)
    requires NonIncreasing(s) && s != [] && x.total < s[0].total
    requires NonIncreasing(tail) && multiset(tail) == multiset(s[1..]) + multiset{x}
    ensures NonIncreasing([s[0]] + tail)
    ensures multiset([s[0]] + tail) == multiset(s) + multiset{x}
  {
    assert s == [s[0]] + s[1..];
    AtMostByMultiset(tail, s[1..] + [x], s[0].total);
    var r := [s[0]] + tail;
    forall i, j | 0 <= i < j < |r|
      ensures r[i].total >= r[j].total
    {
      if i == 0 {
        assert r[j] == tail[j - 1];
      } else {
        assert r[i] == tail[i - 1] && r[j] == tail[j - 1];
      }
    }
  }

  /** One ordering `sort` may produce. `operator<` is not a strict weak order
      and `sort` is not stable, so the source fixes nothing about how lights
      with equal totals end up; everything stated about the ranking holds for
      any such order. */
  function SortByTotal(ls: seq<Light>): (r: seq<Light>)
    ensures |r| == |ls|
    ensures multiset(r) == multiset(ls)
    ensures NonIncreasing(r)
  {
    if ls == [] then []
    else
      assert ls == ls[..|ls| - 1] + [ls[|ls| - 1]];
      Insert(ls[|ls| - 1], SortByTotal(ls[..|ls| - 1]))
  }

  /** `vector::resize(n)`: keep the first `n` entries, or append `pad` copies
      up to `n`. */
  function Resize<T>(s: seq<T>, n: nat, pad: T): (r: seq<T>)
    ensures |r| == n
    ensures forall i :: 0 <= i < n && i < |s| ==> r[i] == s[i]
    ensures forall i :: |s| <= i < n ==> r[i] == pad
  {
    if n <= |s| then s[..n] else s + seq(n - |s|, _ => pad)
  }

  /** `topN = lights; sort(topN); topN.resize(top)`. */
  function TopN(lights: seq<Light>, top: nat): seq<Light> {
    Resize(SortByTotal(lights), top, Blank)
  }

  /** The smaller of `top` and the number of lights: how many entries of a
      ranking are real lights. */
  function Kept(lights: seq<Light>, top: nat): nat {
    if top < |lights| then top else |lights|
  }

  /** `r` ranks the `top` busiest of `lights`: exactly `top` entries; the
      first `Kept` are distinct entries of `lights` in non-increasing order of
      total, and no light left out carries more cars than a light kept; the
      rest are padding. */
  predicate RanksTop(r: seq<Light>, lights: seq<Light>, top: nat) {
    var m := Kept(lights, top);
    |r| == top
    && NonIncreasing(r[..m])
    && multiset(r[..m]) <= multiset(lights)
    && (forall i :: m <= i < top ==> r[i] == Blank)
    && (forall x, i :: x in multiset(lights) - multiset(r[..m]) && 0 <= i < m ==> x.total <= r[i].total)
  }

  /** In a ranked sequence, everything after position `m` is at most
      everything before it. */
  lemma RankedSplit(s: seq<Light>, m: nat)
    requires NonIncreasing(s) && m <= |s|
    ensures NonIncreasing(s[..m])
    ensures multiset(s) - multiset(s[..m]) == multiset(s[m..])
    ensures forall x, i :: x in multiset(s[m..]) && 0 <= i < m ==> x.total <= s[i].total
  {
    assert s == s[..m] + s[m..];
    forall x, i | x in multiset(s[m..]) && 0 <= i < m
      ensures x.total <= s[i].total
    {
      var k :| 0 <= k < |s[m..]| && s[m..][k] == x;
      assert s[m + k] == x;
    }
  }

  /** The lights kept by `topN` are the first `Kept` of the sorted copy. */
  lemma TopNKept(lights: seq<Light>, top: nat)
    ensures var m := Kept(lights, top);
      m <= |SortByTotal(lights)| && TopN(lights, top)[..m] == SortByTotal(lights)[..m]
  {
  }

  /** The lights kept by `topN` are ranked and all come from the bucket. */
  lemma TopNKeptRanked(lights: seq<Light>, top: nat)
    ensures var r, m := TopN(lights, top), Kept(lights, top);
      NonIncreasing(r[..m]) && multiset(r[..m]) <= multiset(lights)
  {
    var s, m := SortByTotal(lights), Kept(lights, top);
    TopNKept(lights, top);
    RankedSplit(s, m);
    PrefixMultiset(s, m);
  }

  lemma PrefixMultiset(s: seq<Light>, m: nat)
    requires m <= |s|
    ensures multiset(s[..m]) <= multiset(s)
  {
    assert s == s[..m] + s[m..];
  }

  /** Past the kept lights, `topN` holds only padding. */
  lemma TopNPadding(lights: seq<Light>, top: nat)
    ensures var r, m := TopN(lights, top), Kept(lights, top);
      |r| == top && forall i :: m <= i < top ==> r[i] == Blank
  {
  }

  /** No light left out of `topN` carries more cars than a light kept. */
  lemma TopNBusiest(lights: seq<Light>, top: nat)
    ensures var r, m := TopN(lights, top), Kept(lights, top);
      forall x, i :: x in multiset(lights) - multiset(r[..m]) && 0 <= i < m ==> x.total <= r[i].total
  {
    var s, m := SortByTotal(lights), Kept(lights, top);
    var r := TopN(lights, top);
    TopNKept(lights, top);
    RankedSplit(s, m);
    forall i | 0 <= i < m
      ensures r[i] == s[i]
    {
      assert r[i] == r[..m][i];
    }
  }

  /** The rebuilt `topN` is a ranking of the bucket's lights. */
  lemma TopNRanks(lights: seq<Light>, top: nat)
    ensures RanksTop(TopN(lights, top), lights, top)
  {
    TopNKeptRanked(lights, top);
    TopNPadding(lights, top);
    TopNBusiest(lights, top);
  }
}
