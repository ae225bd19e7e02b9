/** Value-level model of one flow's ring of per-second aggregates (flowData).

    The source keeps `sum` as a float64; here it is an exact `real`, so the
    averages below abstract away floating-point rounding. Counts are the
    source's `uint`, taken as unbounded naturals. */
module RingSpec {

  /** All samples of one flow received during one second (datapointsGroup). */
  datatype Bucket = Bucket(count: nat, sum: real)

  /** The zero value of a bucket: what a fresh or cleared slot holds. */
  const Empty := Bucket(0, 0.0)

  /** The state of a flowData as a value: its buckets (their number is the
      capacity) and the index of the bucket of the current, open second. */
  datatype Ring = Ring(buckets: seq<Bucket>, head: nat) {

    /** The ring's shape invariant: at least one bucket, and head inside. */
    predicate Valid() {
      1 <= |buckets| && head < |buckets|
    }

    /** A bucket without samples carries no sum. */
    predicate Consistent() {
      forall j :: 0 <= j < |buckets| ==> buckets[j].count == 0 ==> buckets[j].sum == 0.0
    }
  }

  function Min(a: nat, b: nat): (m: nat) {
    if a <= b then a else b
  }

  /** The ring of a newly created flow: every bucket zero, head at 0. */
  function EmptyRing(capacity: nat): (r: Ring)
    requires 1 <= capacity
    ensures r.Valid() && r.Consistent() && |r.buckets| == capacity && r.head == 0
    ensures forall j :: 0 <= j < capacity ==> r.buckets[j] == Empty
  {
    Ring(seq(capacity, _ => Empty), 0)
  }

  /** Index of the bucket `i` seconds before the current one, wrapping
      around below index 0. */
  function BackIndex(head: nat, capacity: nat, i: nat): (k: nat)
    requires head < capacity && i < capacity
    ensures k < capacity
  {
    if i <= head then head - i else capacity + head - i
  }

  /** The source's index expression `(capacity + head - i) % capacity`
      never underflows and always lands on BackIndex: the dividend lies in
      [1, 2 * capacity), so the remainder removes at most one capacity. */
  lemma WrappedIndex(head: nat, capacity: nat, i: nat)
    requires head < capacity && i < capacity
    ensures capacity + head - i >= 1
    ensures (capacity + head - i) % capacity == BackIndex(head, capacity, i)
  {
  }

  /** advanceHead: the head moves one slot forward, wrapping at the
      capacity, and the slot it lands on is cleared. */
  function Advanced(r: Ring): (r': Ring)
    requires r.Valid()
    ensures r'.Valid() && |r'.buckets| == |r.buckets|
    ensures r.Consistent() ==> r'.Consistent()
  {
    var h := if r.head + 1 == |r.buckets| then 0 else r.head + 1;
    Ring(r.buckets[h := Empty], h)
  }

  /** addData: one more sample of value `v` in the current bucket. */
  function Added(r: Ring, v: real): (r': Ring)
    requires r.Valid()
    ensures r'.Valid() && |r'.buckets| == |r.buckets| && r'.head == r.head
    ensures r.Consistent() ==> r'.Consistent()
  {
    var b := r.buckets[r.head];
    Ring(r.buckets[r.head := Bucket(b.count + 1, b.sum + v)], r.head)
  }

  /** The buckets from the oldest second to the current one. */
  function Chronological(r: Ring): (c: seq<Bucket>)
    requires r.Valid()
    ensures |c| == |r.buckets|
  {
    r.buckets[r.head + 1..] + r.buckets[..r.head + 1]
  }

  function Reversed(s: seq<Bucket>): (t: seq<Bucket>)
    ensures |t| == |s|
  {
    seq(|s|, i requires 0 <= i < |s| => s[|s| - 1 - i])
  }

  /** NLastPoints, defined as "the min(n, capacity) most recent seconds,
      newest first". The ensures ties this to the index walk the source
      does: entry i is the bucket i seconds back from head, wrapping. */
  function LastPoints(r: Ring, n: nat): (p: seq<Bucket>)
    requires r.Valid()
    ensures |p| == Min(n, |r.buckets|)
    ensures forall i :: 0 <= i < |p| ==> p[i] == r.buckets[BackIndex(r.head, |r.buckets|, i)]
  {
    var c := Chronological(r);
    var p := Reversed(c[|c| - Min(n, |c|)..]);
    forall i | 0 <= i < |p|
      ensures p[i] == r.buckets[BackIndex(r.head, |r.buckets|, i)]
    {
      assert p[i] == c[|c| - 1 - i];
    }
    p
  }

  /** Total number of samples in a run of buckets. */
  function TotalCount(s: seq<Bucket>): (c: nat) {
    if s == [] then 0 else TotalCount(s[..|s| - 1]) + s[|s| - 1].count
  }

  /** Total of the sample values in a run of buckets. */
  function TotalSum(s: seq<Bucket>): (t: real) {
    if s == [] then 0.0 else TotalSum(s[..|s| - 1]) + s[|s| - 1].sum
  }

  /** Mean sample value over a run of buckets; 0 when it holds no sample. */
  function Average(s: seq<Bucket>): (a: real)
    ensures TotalCount(s) == 0 ==> a == 0.0
    ensures TotalCount(s) > 0 ==> a * (TotalCount(s) as real) == TotalSum(s)
  {
    if TotalCount(s) == 0 then 0.0 else TotalSum(s) / (TotalCount(s) as real)
  }

  /** MovingAverage as a value: the mean over the last n seconds. */
  function WindowAverage(r: Ring, n: nat): (a: real)
    requires r.Valid()
    ensures n == 0 ==> a == 0.0
    ensures TotalCount(LastPoints(r, n)) == 0 ==> a == 0.0
    ensures TotalCount(LastPoints(r, n)) > 0 ==>
      a * (TotalCount(LastPoints(r, n)) as real) == TotalSum(LastPoints(r, n))
  {
    Average(LastPoints(r, n))
  }

  /** `k` ticks in a row. */
  function AdvancedTimes(r: Ring, k: nat): (r': Ring)
    requires r.Valid()
    ensures r'.Valid() && |r'.buckets| == |r.buckets|
  {
    if k == 0 then r else Advanced(AdvancedTimes(r, k - 1))
  }

  /** `|vs|` samples in a row, with no tick between them. */
  function AddedAll(r: Ring, vs: seq<real>): (r': Ring)
    requires r.Valid()
    ensures r'.Valid() && |r'.buckets| == |r.buckets| && r'.head == r.head
  {
    if vs == [] then r else Added(AddedAll(r, vs[..|vs| - 1]), vs[|vs| - 1])
  }

  function Total(vs: seq<real>): (t: real) {
    if vs == [] then 0.0 else Total(vs[..|vs| - 1]) + vs[|vs| - 1]
  }

  /** Saturation: a window longer than the ring is clamped to the ring. */
  lemma SaturatedWindow(r: Ring, n: nat)
    requires r.Valid() && n >= |r.buckets|
    ensures LastPoints(r, n) == LastPoints(r, |r.buckets|)
    ensures WindowAverage(r, n) == WindowAverage(r, |r.buckets|)
  {
  }

  /** A run of zero buckets holds no sample and no sum. */
  lemma {:induction false} ZeroBucketsTotals(s: seq<Bucket>)
    requires forall i :: 0 <= i < |s| ==> s[i] == Empty
    ensures TotalCount(s) == 0 && TotalSum(s) == 0.0
  {
    if s != [] {
      ZeroBucketsTotals(s[..|s| - 1]);
    }
  }

  /** In consistent buckets, no samples means no sum: the 0 that
      MovingAverage returns for an empty window is also the window's sum. */
  lemma {:induction false} NoSamplesNoSum(s: seq<Bucket>)
    requires forall i :: 0 <= i < |s| ==> s[i].count == 0 ==> s[i].sum == 0.0
    requires TotalCount(s) == 0
    ensures TotalSum(s) == 0.0
  {
    if s != [] {
      NoSamplesNoSum(s[..|s| - 1]);
    }
  }

  /** For a ring that keeps its buckets consistent, an empty window has a
      zero sum, so the average reported for it is that of a zero sum. */
  lemma EmptyWindowHasNoSum(r: Ring, n: nat)
    requires r.Valid() && r.Consistent()
    requires TotalCount(LastPoints(r, n)) == 0
    ensures TotalSum(LastPoints(r, n)) == 0.0 && WindowAverage(r, n) == 0.0
  {
    NoSamplesNoSum(LastPoints(r, n));
  }

  /** Walking back from the next head reaches, one step later, the same
      buckets as walking back from the current head; and never the next
      head itself before going all the way round. */
  lemma BackIndexAfterAdvance(r: Ring, i: nat)
    requires r.Valid() && 1 <= i < |r.buckets|
    ensures BackIndex(Advanced(r).head, |r.buckets|, i) == BackIndex(r.head, |r.buckets|, i - 1)
    ensures BackIndex(Advanced(r).head, |r.buckets|, i) != Advanced(r).head
  {
  }

  /** After k ticks with no sample, the last k seconds are all zero. */
  lemma {:induction false} TicksClearWindow(r: Ring, k: nat)
    requires r.Valid()
    ensures forall i :: 0 <= i < k && i < |r.buckets| ==>
      AdvancedTimes(r, k).buckets[BackIndex(AdvancedTimes(r, k).head, |r.buckets|, i)] == Empty
  {
    if k > 0 {
      var s := AdvancedTimes(r, k - 1);
      TicksClearWindow(r, k - 1);
      forall i | 0 <= i < k && i < |r.buckets|
        ensures Advanced(s).buckets[BackIndex(Advanced(s).head, |r.buckets|, i)] == Empty
      {
        if i > 0 {
          BackIndexAfterAdvance(s, i);
        }
      }
    }
  }

  /** Every slot is some number of seconds back from the head. */
  lemma EverySlotIsBack(r: Ring, j: nat)
    requires r.Valid() && j < |r.buckets|
    ensures exists i :: 0 <= i < |r.buckets| && BackIndex(r.head, |r.buckets|, i) == j
  {
    var i := if j <= r.head then r.head - j else |r.buckets| + r.head - j;
    assert BackIndex(r.head, |r.buckets|, i) == j;
  }

  /** After at least `capacity` ticks with no sample in between, every
      bucket is zero and the moving average over any window is 0. */
  lemma CapacityTicksClearRing(r: Ring, k: nat)
    requires r.Valid() && k >= |r.buckets|
    ensures forall j :: 0 <= j < |r.buckets| ==> AdvancedTimes(r, k).buckets[j] == Empty
    ensures forall n: nat :: WindowAverage(AdvancedTimes(r, k), n) == 0.0
  {
    var s := AdvancedTimes(r, k);
    TicksClearWindow(r, k);
    forall j | 0 <= j < |r.buckets|
      ensures s.buckets[j] == Empty
    {
      EverySlotIsBack(s, j);
    }
    forall n: nat
      ensures WindowAverage(s, n) == 0.0
    {
      ZeroBucketsTotals(LastPoints(s, n));
    }
  }

  /** Samples added before any tick all land in the current bucket; the
      other buckets are untouched. */
  lemma {:induction false} AddedAllAtHead(r: Ring, vs: seq<real>)
    requires r.Valid()
    ensures AddedAll(r, vs).buckets[r.head]
         == Bucket(r.buckets[r.head].count + |vs|, r.buckets[r.head].sum + Total(vs))
    ensures forall j :: 0 <= j < |r.buckets| && j != r.head ==> AddedAll(r, vs).buckets[j] == r.buckets[j]
  {
    if vs != [] {
      AddedAllAtHead(r, vs[..|vs| - 1]);
    }
  }

  /** Starting from a new flow, samples v1..vk added before the first tick
      give a one-second moving average of (v1 + ... + vk) / k. */
  lemma OneSecondAverageOfFreshFlow(capacity: nat, vs: seq<real>)
    requires 1 <= capacity && vs != []
    ensures WindowAverage(AddedAll(EmptyRing(capacity), vs), 1) == Total(vs) / (|vs| as real)
  {
    var e := EmptyRing(capacity);
    var r := AddedAll(e, vs);
    AddedAllAtHead(e, vs);
    assert r.buckets[0] == Bucket(|vs|, Total(vs));
    var p := LastPoints(r, 1);
    assert |p| == 1 && p[0] == r.buckets[0];
    assert TotalCount(p) == |vs| by {
      assert p[..0] == [];
    }
    assert TotalSum(p) == Total(vs) by {
      assert p[..0] == [];
    }
  }

  /** A worked case: a flow of 5 seconds gets 10 and 20, averages 15 over
      the last second; after a tick and a sample of 5, the last two
      seconds average 35 / 3. */
  lemma TwoSecondExample()
    ensures WindowAverage(AddedAll(EmptyRing(5), [10.0, 20.0]), 1) == 15.0
    ensures WindowAverage(Added(Advanced(AddedAll(EmptyRing(5), [10.0, 20.0])), 5.0), 2) == 35.0 / 3.0
  {
    var r1 := AddedAll(EmptyRing(5), [10.0, 20.0]);
    OneSecondAverageOfFreshFlow(5, [10.0, 20.0]);
    AddedAllAtHead(EmptyRing(5), [10.0, 20.0]);
    assert r1.buckets[0] == Bucket(2, 30.0);
    var r2 := Added(Advanced(r1), 5.0);
    assert r2.head == 1 && r2.buckets[1] == Bucket(1, 5.0) && r2.buckets[0] == Bucket(2, 30.0);
    var p := LastPoints(r2, 2);
    assert p == [Bucket(1, 5.0), Bucket(2, 30.0)];
    assert p[..1] == [Bucket(1, 5.0)] && p[..1][..0] == [];
    assert TotalCount(p[..1]) == 1 && TotalSum(p[..1]) == 5.0;
    assert TotalCount(p) == 3 && TotalSum(p) == 35.0;
  }
}
