/** The consumer's critical section: a table of hour buckets, each holding
    the running car total of every traffic light seen in that hour and a
    ranked copy of the busiest `top`. The lock around the section makes the
    updates happen one at a time, so the table after a run is the readings
    applied in the order the consumers took them. */
module Aggregation {
  import opened Wrappers
  import opened Ranking
  import opened TrafficRows

  /** The fields of `struct tm` the program reads or writes. */
  datatype Tm = Tm(year: int, mon: int, mday: int, hour: int, min: int, sec: int)

  /** The program's `operator==` on `tm`: year, month, day and hour agree;
      minutes and seconds are ignored. */
  predicate SameHour(a: Tm, b: Tm) {
    a.year == b.year && a.mon == b.mon && a.mday == b.mday && a.hour == b.hour
  }

  /** The consumer's key for a reading: its local time with minutes and
      seconds cleared. */
  function HourKey(t: Tm): (k: Tm)
    ensures k.min == 0 && k.sec == 0
    ensures SameHour(k, t)
  {
    t.(min := 0, sec := 0)
  }

  /** `operator==` is an equivalence, so "the bucket of this hour" is well
      defined whichever time inside the hour is looked up. */
  lemma SameHourEquivalence(a: Tm, b: Tm, c: Tm)
    ensures SameHour(a, a)
    ensures SameHour(a, b) ==> SameHour(b, a)
    ensures SameHour(a, b) && SameHour(b, c) ==> SameHour(a, c)
  {
  }

  /** Two times fall in the same hour exactly when their keys are equal, and
      on keys `operator==` is plain equality. */
  lemma HourKeyEquality(a: Tm, b: Tm)
    ensures SameHour(a, b) <==> HourKey(a) == HourKey(b)
    ensures SameHour(HourKey(a), HourKey(b)) <==> HourKey(a) == HourKey(b)
  {
  }

  /** The source's `hour_t`: the hour, its lights and their ranked copy. */
  datatype Hour = Hour(key: Tm, lights: seq<Light>, topN: seq<Light>)

  /** The first loop of the critical section: index of the first bucket of
      the same hour, if any. */
  function FindHour(t: seq<Hour>, key: Tm): (r: Option<nat>)
    ensures r.Some? ==> r.value < |t| && SameHour(t[r.value].key, key)
    ensures r.Some? ==> forall j :: 0 <= j < r.value ==> !SameHour(t[j].key, key)
    ensures r.None? ==> forall j :: 0 <= j < |t| ==> !SameHour(t[j].key, key)
  {
    if t == [] then None
    else if SameHour(t[0].key, key) then Some(0)
    else match FindHour(t[1..], key)
      case None => None
      case Some(i) => Some(i + 1)
  }

  /** The second loop: index of the first light with the reading's id, if any. */
  function FindLight(ls: seq<Light>, id: int): (r: Option<nat>)
    ensures r.Some? ==> r.value < |ls| && ls[r.value].id == id
    ensures r.Some? ==> forall j :: 0 <= j < r.value ==> ls[j].id != id
    ensures r.None? ==> forall j :: 0 <= j < |ls| ==> ls[j].id != id
  {
    if ls == [] then None
    else if ls[0].id == id then Some(0)
    else match FindLight(ls[1..], id)
      case None => None
      case Some(i) => Some(i + 1)
  }

  /** `hr` after the first loop and the `push_back`: the bucket found, or
      the one appended at the end. */
  function BucketIndex(t: seq<Hour>, key: Tm): nat {
    match FindHour(t, key)
    case Some(i) => i
    case None => |t|
  }

  /** The table once the reading's bucket exists: a new bucket holds the
      key, no lights and an empty `topN`. */
  function WithBucket(t: seq<Hour>, key: Tm): (t1: seq<Hour>)
    ensures |t1| == |t| + (if FindHour(t, key).None? then 1 else 0)
    ensures BucketIndex(t, key) < |t1|
    ensures forall i :: 0 <= i < |t| ==> t1[i] == t[i]
  {
    if FindHour(t, key).Some? then t else t + [Hour(key, [], [])]
  }

  /** `lt` after the second loop and the `push_back`. */
  function LightIndex(ls: seq<Light>, id: int): nat {
    match FindLight(ls, id)
    case Some(j) => j
    case None => |ls|
  }

  /** The lights once the reading's light exists. The source leaves a new
      light's total uninitialised; here it starts at 0. */
  function WithLight(ls: seq<Light>, id: int): (ls1: seq<Light>)
    ensures |ls1| == |ls| + (if FindLight(ls, id).None? then 1 else 0)
    ensures LightIndex(ls, id) < |ls1|
    ensures forall j :: 0 <= j < |ls| ==> ls1[j] == ls[j]
  {
    if FindLight(ls, id).Some? then ls else ls + [Light(id, 0)]
  }

  /** The reading's light once it exists, with the cars added. */
  function Bump(ls: seq<Light>, id: int, cars: int): seq<Light> {
    var ls1 := WithLight(ls, id);
    var lt := LightIndex(ls, id);
    ls1[lt := ls1[lt].(total := ls1[lt].total + cars)]
  }

  /** The bucket's part of the critical section: add the cars to the
      reading's light, then rebuild `topN` from all of its lights. */
  function Update(h: Hour, id: int, cars: int, top: nat): Hour {
    var ls := Bump(h.lights, id, cars);
    Hour(h.key, ls, TopN(ls, top))
  }

  /** The whole critical section for one reading with hour key `key`. */
  function Apply(t: seq<Hour>, key: Tm, id: int, cars: int, top: nat): seq<Hour> {
    var t1 := WithBucket(t, key);
    var hr := BucketIndex(t, key);
    t1[hr := Update(t1[hr], id, cars, top)]
  }

  /** A total the light's entry holds before the update: its total, or 0 for
      a light not seen yet. */
  function TotalIn(ls: seq<Light>, id: int): int {
    match FindLight(ls, id)
    case Some(j) => ls[j].total
    case None => 0
  }

  /** The lights of the bucket a reading with key `key` goes to, before the
      update (none for an hour not seen yet). */
  function LightsOf(t: seq<Hour>, key: Tm): seq<Light> {
    match FindHour(t, key)
    case Some(i) => t[i].lights
    case None => []
  }

  /** The cars counted so far for light `id` in the hour of `key`. */
  function TotalOf(t: seq<Hour>, key: Tm, id: int): int {
    TotalIn(LightsOf(t, key), id)
  }

  /** Light level: exactly the reading's light gains `cars` (created at the
      end with total 0 first when absent) and every other light is unchanged. */
  lemma BumpChangesOneLight(ls: seq<Light>, id: int, cars: int)
    ensures |Bump(ls, id, cars)| == |ls| + (if FindLight(ls, id).None? then 1 else 0)
    ensures LightIndex(ls, id) < |Bump(ls, id, cars)|
    ensures Bump(ls, id, cars)[LightIndex(ls, id)] == Light(id, TotalIn(ls, id) + cars)
    ensures forall j :: 0 <= j < |ls| && j != LightIndex(ls, id) ==> Bump(ls, id, cars)[j] == ls[j]
  {
  }

  /** The ids after the update: the old ones in place, then the new light's. */
  lemma BumpIds(ls: seq<Light>, id: int, cars: int)
    ensures forall j :: 0 <= j < |Bump(ls, id, cars)| ==>
      Bump(ls, id, cars)[j].id == (if j < |ls| then ls[j].id else id)
  {
    BumpChangesOneLight(ls, id, cars);
  }

  /** The update keeps the bucket's key, bumps its lights and ranks them. */
  lemma UpdateRanks(h: Hour, id: int, cars: int, top: nat)
    ensures Update(h, id, cars, top).key == h.key
    ensures Update(h, id, cars, top).lights == Bump(h.lights, id, cars)
    ensures RanksTop(Update(h, id, cars, top).topN, Update(h, id, cars, top).lights, top)
  {
    TopNRanks(Bump(h.lights, id, cars), top);
  }

  /** After the update the light lookup finds the reading's light at its
      index, and any other id where it was before. */
  lemma FindLightAfterBump(ls: seq<Light>, id: int, cars: int, other: int)
    ensures FindLight(Bump(ls, id, cars), other) ==
      (if other == id then Some(LightIndex(ls, id)) else FindLight(ls, other))
  {
    var ls' := Bump(ls, id, cars);
    BumpIds(ls, id, cars);
    if other == id {
      FindLightFirst(ls', other, LightIndex(ls, id));
    } else {
      match FindLight(ls, other)
      case Some(v) =>
        FindLightFirst(ls', other, v);
      case None =>
        FindLightAbsent(ls', other);
    }
  }

  /** The lookup returns the first index holding the id. */
  lemma FindLightFirst(ls: seq<Light>, id: int, v: nat)
    requires v < |ls| && ls[v].id == id
    requires forall j :: 0 <= j < v ==> ls[j].id != id
    ensures FindLight(ls, id) == Some(v)
  {
  }

  lemma FindLightAbsent(ls: seq<Light>, id: int)
    requires forall j :: 0 <= j < |ls| ==> ls[j].id != id
    ensures FindLight(ls, id) == None
  {
  }

  /** The bucket lookup returns the first index of the hour. */
  lemma FindHourFirst(t: seq<Hour>, key: Tm, v: nat)
    requires v < |t| && SameHour(t[v].key, key)
    requires forall j :: 0 <= j < v ==> !SameHour(t[j].key, key)
    ensures FindHour(t, key) == Some(v)
  {
  }

  lemma FindHourAbsent(t: seq<Hour>, key: Tm)
    requires forall j :: 0 <= j < |t| ==> !SameHour(t[j].key, key)
    ensures FindHour(t, key) == None
  {
  }

  /** Bucket lookup respects `operator==`: times in the same hour find the
      same bucket. */
  lemma FindHourSameHour(t: seq<Hour>, a: Tm, b: Tm)
    requires SameHour(a, b)
    ensures FindHour(t, a) == FindHour(t, b)
  {
    match FindHour(t, a)
    case Some(i) =>
      assert SameHour(t[i].key, b);
    case None =>
  }

  /** Table level: a bucket is appended exactly when no bucket of the
      reading's hour existed, and the reading's bucket is the updated one. */
  lemma ApplyShape(t: seq<Hour>, key: Tm, id: int, cars: int, top: nat)
    ensures |Apply(t, key, id, cars, top)| == |t| + (if FindHour(t, key).None? then 1 else 0)
    ensures BucketIndex(t, key) < |Apply(t, key, id, cars, top)|
    ensures Apply(t, key, id, cars, top)[BucketIndex(t, key)] ==
      Update(WithBucket(t, key)[BucketIndex(t, key)], id, cars, top)
  {
  }

  /** Table level: every bucket but the reading's is unchanged. */
  lemma ApplyOthers(t: seq<Hour>, key: Tm, id: int, cars: int, top: nat)
    ensures forall i :: 0 <= i < |t| && i != BucketIndex(t, key) ==> Apply(t, key, id, cars, top)[i] == t[i]
  {
    var t1 := WithBucket(t, key);
    assert forall i :: 0 <= i < |t| ==> t1[i] == t[i];
  }

  /** `r` holds the buckets of `t` with their keys in place, followed by a
      bucket with key `key` exactly when `t` had none of its hour. */
  predicate KeysExtend(t: seq<Hour>, r: seq<Hour>, key: Tm) {
    |r| == |t| + (if FindHour(t, key).None? then 1 else 0)
    && forall i :: 0 <= i < |r| ==> r[i].key == (if i < |t| then t[i].key else key)
  }

  /** Table level: the buckets that were there keep their position and key,
      and an appended bucket carries the reading's key. */
  lemma ApplyKeysInPlace(t: seq<Hour>, key: Tm, id: int, cars: int, top: nat)
    ensures KeysExtend(t, Apply(t, key, id, cars, top), key)
  {
    var r := Apply(t, key, id, cars, top);
    var hr := BucketIndex(t, key);
    var h := WithBucket(t, key)[hr];
    ApplyShape(t, key, id, cars, top);
    ApplyOthers(t, key, id, cars, top);
    UpdateRanks(h, id, cars, top);
    assert r[hr].key == h.key;
    assert h.key == if hr < |t| then t[hr].key else key;
  }

  /** Lookup in a table extended by `key`: the hour of `key` is found at its
      bucket, and any other hour where it was before. */
  lemma FindHourExtended(t: seq<Hour>, r: seq<Hour>, key: Tm, other: Tm)
    requires KeysExtend(t, r, key)
    ensures FindHour(r, other) ==
      (if SameHour(key, other) then Some(BucketIndex(t, key)) else FindHour(t, other))
  {
    var hr := BucketIndex(t, key);
    if SameHour(key, other) {
      FindHourSameHour(t, key, other);
      FindHourFirst(r, other, hr);
    } else {
      match FindHour(t, other)
      case Some(v) =>
        FindHourFirst(r, other, v);
      case None =>
        FindHourAbsent(r, other);
    }
  }

  /** After the update the bucket lookup finds the reading's bucket for its
      hour, and any other hour where it was before. */
  lemma FindHourAfterApply(t: seq<Hour>, key: Tm, id: int, cars: int, top: nat, other: Tm)
    ensures FindHour(Apply(t, key, id, cars, top), other) ==
      (if SameHour(key, other) then Some(BucketIndex(t, key)) else FindHour(t, other))
  {
    ApplyKeysInPlace(t, key, id, cars, top);
    FindHourExtended(t, Apply(t, key, id, cars, top), key, other);
  }

  /** One reading adds its cars to the total of its own (hour, light) pair
      and to no other. */
  lemma ApplyTotal(t: seq<Hour>, key: Tm, id: int, cars: int, top: nat, other: Tm, otherId: int)
    ensures TotalOf(Apply(t, key, id, cars, top), other, otherId) ==
      TotalOf(t, other, otherId) + (if SameHour(key, other) && id == otherId then cars else 0)
  {
    var r := Apply(t, key, id, cars, top);
    var hr := BucketIndex(t, key);
    FindHourAfterApply(t, key, id, cars, top, other);
    if SameHour(key, other) {
      ApplyTotalSameHour(t, key, id, cars, top, other, otherId);
    } else {
      ApplyOthers(t, key, id, cars, top);
      match FindHour(t, other)
      case Some(v) =>
        assert v != hr;
        assert r[v] == t[v];
      case None =>
    }
  }

  lemma ApplyTotalSameHour(t: seq<Hour>, key: Tm, id: int, cars: int, top: nat, other: Tm, otherId: int)
    requires SameHour(key, other)
    ensures TotalOf(Apply(t, key, id, cars, top), other, otherId) ==
      TotalOf(t, other, otherId) + (if id == otherId then cars else 0)
  {
    LightsOfApply(t, key, id, cars, top, other);
    BumpTotal(LightsOf(t, other), id, cars, otherId);
  }

  /** Light level: the reading's cars go to its own id and to no other. */
  lemma BumpTotal(ls: seq<Light>, id: int, cars: int, other: int)
    ensures TotalIn(Bump(ls, id, cars), other) == TotalIn(ls, other) + (if id == other then cars else 0)
  {
    FindLightAfterBump(ls, id, cars, other);
    BumpChangesOneLight(ls, id, cars);
  }

  /** The bucket of the reading's hour after the update holds its old lights
      with the reading counted. */
  lemma LightsOfApply(t: seq<Hour>, key: Tm, id: int, cars: int, top: nat, other: Tm)
    requires SameHour(key, other)
    ensures LightsOf(Apply(t, key, id, cars, top), other) == Bump(LightsOf(t, other), id, cars)
  {
    var hr := BucketIndex(t, key);
    var h := WithBucket(t, key)[hr];
    FindHourAfterApply(t, key, id, cars, top, other);
    ApplyShape(t, key, id, cars, top);
    UpdateRanks(h, id, cars, top);
    BucketLights(t, key, other);
  }

  /** The bucket the reading goes to holds the lights counted so far for its
      hour. */
  lemma BucketLights(t: seq<Hour>, key: Tm, other: Tm)
    requires SameHour(key, other)
    ensures WithBucket(t, key)[BucketIndex(t, key)].lights == LightsOf(t, other)
  {
    FindHourSameHour(t, key, other);
  }

  /** The consumer's handling of one popped reading; `localtime` stands for
      the library's conversion of epoch seconds to broken-down local time. */
  function Consume(t: seq<Hour>, localtime: int -> Tm, rd: Reading, top: nat): seq<Hour> {
    Apply(t, HourKey(localtime(rd.ts)), rd.id, rd.cars, top)
  }

  /** The readings consumed one after another. */
  function ApplyAll(t: seq<Hour>, readings: seq<Reading>, localtime: int -> Tm, top: nat): seq<Hour>
    decreases |readings|
  {
    if readings == [] then t
    else
      var n := |readings| - 1;
      Consume(ApplyAll(t, readings[..n], localtime, top), localtime, readings[n], top)
  }

  /** Reference definition: the cars of the readings for light `id` taken in
      the hour of `key`. */
  function CarsFor(readings: seq<Reading>, localtime: int -> Tm, key: Tm, id: int): int
    decreases |readings|
  {
    if readings == [] then 0
    else
      var n := |readings| - 1;
      var rd := readings[n];
      CarsFor(readings[..n], localtime, key, id) +
        (if SameHour(localtime(rd.ts), key) && rd.id == id then rd.cars else 0)
  }

  /** Conservation: starting from an empty table, the total of every (hour,
      light) pair is the sum of the cars of exactly the readings of that
      light in that hour. */
  lemma {:induction false} Conservation(readings: seq<Reading>, localtime: int -> Tm, top: nat, key: Tm, id: int)
    ensures TotalOf(ApplyAll([], readings, localtime, top), key, id) == CarsFor(readings, localtime, key, id)
    decreases |readings|
  {
    if readings != [] {
      var n := |readings| - 1;
      var rd := readings[n];
      Conservation(readings[..n], localtime, top, key, id);
      ApplyTotal(ApplyAll([], readings[..n], localtime, top), HourKey(localtime(rd.ts)), rd.id, rd.cars, top, key, id);
    }
  }

  /** No two buckets share an hour. */
  predicate UniqueHours(t: seq<Hour>) {
    forall i, j :: 0 <= i < j < |t| ==> !SameHour(t[i].key, t[j].key)
  }

  /** No two lights of a bucket share an id. */
  predicate UniqueIds(ls: seq<Light>) {
    forall i, j :: 0 <= i < j < |ls| ==> ls[i].id != ls[j].id
  }

  /** What every table the consumers build satisfies: unique hours, keys with
      minutes and seconds cleared, unique light ids per bucket, and each
      `topN` a ranking of its bucket's lights. */
  predicate WellFormed(t: seq<Hour>, top: nat) {
    UniqueHours(t)
    && ClearedKeys(t)
    && (forall i :: 0 <= i < |t| ==> UniqueIds(t[i].lights))
    && (forall i :: 0 <= i < |t| ==> RanksTop(t[i].topN, t[i].lights, top))
  }

  /** The update keeps the lights of a bucket distinct. */
  lemma BumpKeepsIdsUnique(ls: seq<Light>, id: int, cars: int)
    requires UniqueIds(ls)
    ensures UniqueIds(Bump(ls, id, cars))
  {
    BumpIds(ls, id, cars);
    var ls' := Bump(ls, id, cars);
    forall i, j | 0 <= i < j < |ls'|
      ensures ls'[i].id != ls'[j].id
    {
      if j >= |ls| {
        assert FindLight(ls, id).None?;
      }
    }
  }

  /** Extending a table of distinct hours by a new hour keeps them distinct. */
  lemma HoursUniqueExtended(t: seq<Hour>, r: seq<Hour>, key: Tm)
    requires UniqueHours(t) && KeysExtend(t, r, key)
    ensures UniqueHours(r)
  {
    forall i, j | 0 <= i < j < |r|
      ensures !SameHour(r[i].key, r[j].key)
    {
      if j == |t| {
        assert FindHour(t, key).None?;
        assert !SameHour(t[i].key, key);
      } else {
        assert r[i].key == t[i].key && r[j].key == t[j].key;
      }
    }
  }

  /** The critical section keeps the hours of the table distinct. */
  lemma ApplyKeepsHoursUnique(t: seq<Hour>, key: Tm, id: int, cars: int, top: nat)
    requires UniqueHours(t)
    ensures UniqueHours(Apply(t, key, id, cars, top))
  {
    ApplyKeysInPlace(t, key, id, cars, top);
    HoursUniqueExtended(t, Apply(t, key, id, cars, top), key);
  }

  /** The critical section keeps the table well formed. */
  lemma ApplyKeepsWellFormed(t: seq<Hour>, key: Tm, id: int, cars: int, top: nat)
    requires WellFormed(t, top) && key.min == 0 && key.sec == 0
    ensures WellFormed(Apply(t, key, id, cars, top), top)
  {
    ApplyKeepsHoursUnique(t, key, id, cars, top);
    ApplyKeepsBuckets(t, key, id, cars, top);
  }

  /** Every bucket of the table after the critical section has a cleared
      key, distinct ids and a ranking of its lights. */
  lemma ApplyKeepsBuckets(t: seq<Hour>, key: Tm, id: int, cars: int, top: nat)
    requires WellFormed(t, top) && key.min == 0 && key.sec == 0
    ensures forall i :: 0 <= i < |Apply(t, key, id, cars, top)| ==>
      Apply(t, key, id, cars, top)[i].key.min == 0 && Apply(t, key, id, cars, top)[i].key.sec == 0
    ensures forall i :: 0 <= i < |Apply(t, key, id, cars, top)| ==>
      UniqueIds(Apply(t, key, id, cars, top)[i].lights)
    ensures forall i :: 0 <= i < |Apply(t, key, id, cars, top)| ==>
      RanksTop(Apply(t, key, id, cars, top)[i].topN, Apply(t, key, id, cars, top)[i].lights, top)
  {
    var r := Apply(t, key, id, cars, top);
    var hr := BucketIndex(t, key);
    var h := WithBucket(t, key)[hr];
    ApplyShape(t, key, id, cars, top);
    ApplyOthers(t, key, id, cars, top);
    ApplyKeysInPlace(t, key, id, cars, top);
    UpdateRanks(h, id, cars, top);
    assert UniqueIds(h.lights) by {
      if hr == |t| {
        assert h.lights == [];
      }
    }
    BumpKeepsIdsUnique(h.lights, id, cars);
    forall i | 0 <= i < |r|
      ensures UniqueIds(r[i].lights) && RanksTop(r[i].topN, r[i].lights, top)
    {
      if i != hr {
        assert r[i] == t[i];
      }
    }
  }

  /** The set of hour keys held by the table. */
  function Keys(t: seq<Hour>): set<Tm> {
    set i | 0 <= i < |t| :: t[i].key
  }

  /** The set of hour keys of a run of readings. */
  function KeysSeen(readings: seq<Reading>, localtime: int -> Tm): set<Tm> {
    set i | 0 <= i < |readings| :: HourKey(localtime(readings[i].ts))
  }

  /** Every key of the table has minutes and seconds cleared. */
  predicate ClearedKeys(t: seq<Hour>) {
    forall i :: 0 <= i < |t| ==> t[i].key.min == 0 && t[i].key.sec == 0
  }

  /** Extending a table by a cleared key adds that key to its set of keys,
      and adds a bucket exactly when the key is new. */
  lemma KeysExtended(t: seq<Hour>, r: seq<Hour>, key: Tm)
    requires ClearedKeys(t) && key.min == 0 && key.sec == 0 && KeysExtend(t, r, key)
    ensures Keys(r) == Keys(t) + {key}
    ensures |r| == |t| + (if key in Keys(t) then 0 else 1)
  {
    match FindHour(t, key)
    case Some(i) =>
      KeysExtendedFound(t, r, key, i);
    case None =>
      KeysExtendedNew(t, r, key);
  }

  lemma KeysExtendedFound(t: seq<Hour>, r: seq<Hour>, key: Tm, i: nat)
    requires ClearedKeys(t) && key.min == 0 && key.sec == 0 && KeysExtend(t, r, key)
    requires FindHour(t, key) == Some(i)
    ensures Keys(r) == Keys(t) + {key}
    ensures key in Keys(t)
  {
    assert t[i].key == key;
    forall k | k in Keys(r) ensures k in Keys(t) {
      var j :| 0 <= j < |r| && r[j].key == k;
      assert t[j].key == k;
    }
    forall k | k in Keys(t) ensures k in Keys(r) {
      var j :| 0 <= j < |t| && t[j].key == k;
      assert r[j].key == k;
    }
  }

  lemma KeysExtendedNew(t: seq<Hour>, r: seq<Hour>, key: Tm)
    requires KeysExtend(t, r, key) && FindHour(t, key).None?
    ensures Keys(r) == Keys(t) + {key}
    ensures key !in Keys(t)
  {
    forall j | 0 <= j < |t| ensures t[j].key != key {
      assert !SameHour(t[j].key, key);
    }
    forall k | k in Keys(r) ensures k in Keys(t) + {key} {
      var j :| 0 <= j < |r| && r[j].key == k;
      if j < |t| {
        assert t[j].key == k;
      }
    }
    forall k | k in Keys(t) + {key} ensures k in Keys(r) {
      if k == key {
        assert r[|t|].key == k;
      } else {
        var j :| 0 <= j < |t| && t[j].key == k;
        assert r[j].key == k;
      }
    }
  }

  /** A bucket for the reading's hour is added exactly when its key is new. */
  lemma ApplyKeys(t: seq<Hour>, key: Tm, id: int, cars: int, top: nat)
    requires WellFormed(t, top) && key.min == 0 && key.sec == 0
    ensures Keys(Apply(t, key, id, cars, top)) == Keys(t) + {key}
    ensures |Apply(t, key, id, cars, top)| == |t| + (if key in Keys(t) then 0 else 1)
  {
    ApplyKeysInPlace(t, key, id, cars, top);
    KeysExtended(t, Apply(t, key, id, cars, top), key);
  }

  /** A table of distinct hours holds one bucket per key. */
  lemma {:induction false} KeysCount(t: seq<Hour>)
    requires UniqueHours(t)
    ensures |Keys(t)| == |t|
  {
    if t != [] {
      var n := |t| - 1;
      var front := t[..n];
      assert UniqueHours(front);
      KeysCount(front);
      assert Keys(t) == Keys(front) + {t[n].key} by {
        forall k | k in Keys(t) ensures k in Keys(front) + {t[n].key} {
          var j :| 0 <= j < |t| && t[j].key == k;
          if j < n {
            assert front[j].key == k;
          }
        }
      }
      assert t[n].key !in Keys(front) by {
        forall j | 0 <= j < n ensures front[j].key != t[n].key {
          assert !SameHour(t[j].key, t[n].key);
        }
      }
    }
  }

  /** Consuming readings from an empty table keeps it well formed. */
  lemma {:induction false} ApplyAllWellFormed(readings: seq<Reading>, localtime: int -> Tm, top: nat)
    ensures WellFormed(ApplyAll([], readings, localtime, top), top)
    decreases |readings|
  {
    if readings != [] {
      var n := |readings| - 1;
      ApplyAllWellFormed(readings[..n], localtime, top);
      ApplyKeepsWellFormed(ApplyAll([], readings[..n], localtime, top),
        HourKey(localtime(readings[n].ts)), readings[n].id, readings[n].cars, top);
    }
  }

  lemma KeysSeenSnoc(readings: seq<Reading>, localtime: int -> Tm)
    requires readings != []
    ensures KeysSeen(readings, localtime) ==
      KeysSeen(readings[..|readings| - 1], localtime) + {HourKey(localtime(readings[|readings| - 1].ts))}
  {
    var n := |readings| - 1;
    var front := readings[..n];
    forall k | k in KeysSeen(readings, localtime)
      ensures k in KeysSeen(front, localtime) + {HourKey(localtime(readings[n].ts))}
    {
      var j :| 0 <= j < |readings| && HourKey(localtime(readings[j].ts)) == k;
      if j < n {
        assert front[j] == readings[j];
      }
    }
    forall k | k in KeysSeen(front, localtime)
      ensures k in KeysSeen(readings, localtime)
    {
      var j :| 0 <= j < |front| && HourKey(localtime(front[j].ts)) == k;
      assert front[j] == readings[j];
    }
  }

  /** Consuming readings from an empty table: its keys are exactly the hours
      of the readings. */
  lemma {:induction false} ApplyAllKeys(readings: seq<Reading>, localtime: int -> Tm, top: nat)
    ensures Keys(ApplyAll([], readings, localtime, top)) == KeysSeen(readings, localtime)
    decreases |readings|
  {
    if readings != [] {
      var n := |readings| - 1;
      var key := HourKey(localtime(readings[n].ts));
      ApplyAllKeys(readings[..n], localtime, top);
      ApplyAllWellFormed(readings[..n], localtime, top);
      ApplyKeys(ApplyAll([], readings[..n], localtime, top), key, readings[n].id, readings[n].cars, top);
      KeysSeenSnoc(readings, localtime);
    }
  }

  /** Buckets are never removed or merged: the table holds exactly one bucket
      per distinct hour among the readings. */
  lemma DistinctHours(readings: seq<Reading>, localtime: int -> Tm, top: nat)
    ensures |ApplyAll([], readings, localtime, top)| == |KeysSeen(readings, localtime)|
  {
    ApplyAllWellFormed(readings, localtime, top);
    ApplyAllKeys(readings, localtime, top);
    KeysCount(ApplyAll([], readings, localtime, top));
  }
}
