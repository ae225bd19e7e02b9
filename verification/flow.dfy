/** The mutable ring buffer of one flow (flowData): a fixed array of
    per-second buckets and a head cursor that the tick moves forward. */
module Flows {
  import opened RingSpec

  class Flow {
    /** Number of buckets, fixed at creation. */
    const capacity: nat
    /** The per-second aggregates (datapoints); the array itself never changes. */
    const buckets: array<Bucket>
    /** Index of the bucket of the current second. */
    var head: nat

    /** 1 <= capacity == buckets.Length and 0 <= head < capacity; every
        bucket without samples has a zero sum. */
    ghost predicate Valid()
      reads this, buckets
    {
      buckets.Length == capacity && State().Valid() && State().Consistent()
    }

    /** The flow's state as a value of the ring model. */
    ghost function State(): (r: Ring)
      reads this, buckets
      ensures |r.buckets| == buckets.Length
    {
      Ring(buckets[..], head)
    }

    /** initFlow's allocation: `capacity` zeroed buckets, head 0. */
    constructor (capacity: nat)
      requires 1 <= capacity
      ensures Valid() && fresh(buckets)
      ensures this.capacity == capacity && State() == EmptyRing(capacity)
    {
      this.capacity := capacity;
      buckets := new Bucket[capacity](_ => Empty);
      head := 0;
    }

    /** advanceHead: one second has passed. */
    method AdvanceHead()
      requires Valid()
      modifies this, buckets
      ensures Valid()
      ensures head == (old(head) + 1) % capacity
      ensures buckets[head] == Empty
      ensures forall j :: 0 <= j < capacity && j != head ==> buckets[j] == old(buckets[j])
      ensures State() == Advanced(old(State()))
    {
      ghost var before := buckets[..];
      head := (head + 1) % capacity;
      assert head == if old(head) + 1 == capacity then 0 else old(head) + 1;
      buckets[head] := Empty;
      assert buckets[..] == before[head := Empty];
    }

    /** addData: a sample of value `point` arrived during the current second. */
    method AddData(point: real)
      requires Valid()
      modifies buckets
      ensures Valid()
      ensures buckets[head] == Bucket(old(buckets[head].count) + 1, old(buckets[head].sum) + point)
      ensures forall j :: 0 <= j < capacity && j != head ==> buckets[j] == old(buckets[j])
      ensures State() == Added(old(State()), point)
    {
      buckets[head] := buckets[head].(count := buckets[head].count + 1);
      buckets[head] := buckets[head].(sum := buckets[head].sum + point);
    }

    /** NLastPoints: the current bucket and the ones before it, newest
        first, min(n, capacity) of them. */
    method NLastPoints(n: nat) returns (points: seq<Bucket>)
      requires Valid()
      ensures |points| == Min(n, capacity)
      ensures forall i :: 0 <= i < |points| ==> points[i] == buckets[BackIndex(head, capacity, i)]
      ensures points == LastPoints(State(), n)
    {
      var m := n;
      if m > capacity {
        m := capacity;
      }
      var a := new Bucket[m];
      for i := 0 to m
        invariant forall k :: 0 <= k < i ==> a[k] == buckets[BackIndex(head, capacity, k)]
      {
        WrappedIndex(head, capacity, i);
        var index := (capacity + head - i) % capacity;
        a[i] := buckets[index];
      }
      points := a[..];
    }

    /** MovingAverage: total sum over total count of the last n seconds,
        or 0 when they hold no sample (in particular when n == 0). */
    method MovingAverage(n: nat) returns (average: real)
      requires Valid()
      ensures average == WindowAverage(State(), n)
      ensures n == 0 ==> average == 0.0
    {
      var points := NLastPoints(n);
      var count, sum := 0, 0.0;
      for i := 0 to |points|
        invariant count == TotalCount(points[..i])
        invariant sum == TotalSum(points[..i])
      {
        assert points[..i + 1][..i] == points[..i];
        count := count + points[i].count;
        sum := sum + points[i].sum;
      }
      assert points[..|points|] == points;
      if count == 0 {
        average := 0.0;
      } else {
        average := sum / (count as real);
      }
      assert average == Average(points);
    }
  }
}
