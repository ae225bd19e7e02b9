/** The flow table (flowMap) and the rules around it: initFlow, the
    once-per-second sweep, the lookup-or-create decision of receiveData,
    and the lookup behind the /meter query. The configuration values the
    source reads from its global config become constant fields. */
module Meter {
  import opened RingSpec
  import opened Flows
  import opened Payload

  datatype Option<T> = None | Some(value: T)

  /** What became of one received datagram. */
  datatype Outcome =
    | Recorded                         // known flow: sample added
    | Created                          // unknown flow created, then sample added
    | UnknownFlow                      // unknown flow, implicit creation off: dropped
    | ZeroCapacity                     // unknown flow, default capacity 0: dropped
    | Malformed(reason: PayloadError)  // payload too long or without a space
    | BadValue                         // value text is not a number

  /** initFlow's capacity rule, as written: the flow's own expiry when
      positive, else the configured default, which may itself be 0. */
  function InitCapacity(expire: nat, defaultExpire: nat): (c: nat)
    ensures expire > 0 ==> c == expire
    ensures c == 0 <==> expire == 0 && defaultExpire == 0
  {
    if expire > 0 then expire else defaultExpire
  }

  /** The flowData that initFlow allocates, as written: InitCapacity
      zeroed buckets and head 0, whatever that capacity is. */
  function RingAsWritten(expire: nat, defaultExpire: nat): (r: Ring)
    ensures |r.buckets| == InitCapacity(expire, defaultExpire) && r.head == 0
    ensures forall k | 0 <= k < |r.buckets| :: r.buckets[k] == Empty
    ensures InitCapacity(expire, defaultExpire) >= 1 ==> r == EmptyRing(InitCapacity(expire, defaultExpire))
  {
    Ring(seq(InitCapacity(expire, defaultExpire), _ => Empty), 0)
  }

  /** As written, initFlow allocates a ring whose head is a valid index
      exactly when the expiry or the default is positive. With both 0 the
      head, 0, is outside the empty bucket slice, so addData's index
      `datapoints[head]` is out of range, and advanceHead's divisor
      `capacity` is 0: either call panics. */
  lemma ZeroCapacityFromZeroDefault(expire: nat, defaultExpire: nat)
    ensures RingAsWritten(expire, defaultExpire).Valid() <==> expire > 0 || defaultExpire > 0
    ensures expire == 0 && defaultExpire == 0 ==>
      |RingAsWritten(expire, defaultExpire).buckets| == 0 &&
      RingAsWritten(expire, defaultExpire).head >= |RingAsWritten(expire, defaultExpire).buckets|
  {
  }

  /** Capacities of the flows registered at start-up from the predefined
      (name, expire) list, in list order: a later entry for a name replaces
      the earlier one, and an entry whose capacity would be 0 is skipped. */
  function Predefined(entries: seq<(string, nat)>, defaultExpire: nat): (m: map<string, nat>)
    ensures forall name | name in m :: m[name] >= 1
    ensures forall i | 0 <= i < |entries| && InitCapacity(entries[i].1, defaultExpire) > 0 :: entries[i].0 in m
    ensures forall name | name in m :: exists i :: 0 <= i < |entries| && entries[i].0 == name
  {
    if entries == [] then map[]
    else
      var m := Predefined(entries[..|entries| - 1], defaultExpire);
      var (name, expire) := entries[|entries| - 1];
      var capacity := InitCapacity(expire, defaultExpire);
      var m' := if capacity > 0 then m[name := capacity] else m;
      assert forall i | 0 <= i < |entries| - 1 :: entries[..|entries| - 1][i] == entries[i];
      m'
  }

  /** One step of start-up: the last entry is registered over the earlier
      ones when its capacity is positive, and skipped otherwise. */
  lemma PredefinedLast(entries: seq<(string, nat)>, defaultExpire: nat)
    requires |entries| > 0
    ensures var m := Predefined(entries[..|entries| - 1], defaultExpire);
      var capacity := InitCapacity(entries[|entries| - 1].1, defaultExpire);
      Predefined(entries, defaultExpire) == if capacity > 0 then m[entries[|entries| - 1].0 := capacity] else m
  {
  }

  /** The capacity start-up gives a name is that of its last predefined
      entry with a positive capacity: expire when positive, else the
      default. */
  lemma {:induction false} PredefinedCapacity(entries: seq<(string, nat)>, defaultExpire: nat, i: nat)
    requires i < |entries| && InitCapacity(entries[i].1, defaultExpire) > 0
    requires forall j | i < j < |entries| && entries[j].0 == entries[i].0 ::
      InitCapacity(entries[j].1, defaultExpire) == 0
    ensures entries[i].0 in Predefined(entries, defaultExpire)
    ensures Predefined(entries, defaultExpire)[entries[i].0] == InitCapacity(entries[i].1, defaultExpire)
    decreases |entries|, 1
  {
    PredefinedLast(entries, defaultExpire);
    if i < |entries| - 1 {
      PredefinedCapacityInPrefix(entries, defaultExpire, i);
      if entries[|entries| - 1].0 == entries[i].0 {
        assert InitCapacity(entries[|entries| - 1].1, defaultExpire) == 0;
      }
    }
  }

  /** The inductive step of PredefinedCapacity: an entry before the last one
      is already registered with its capacity by the earlier entries. */
  lemma {:induction false} PredefinedCapacityInPrefix(entries: seq<(string, nat)>, defaultExpire: nat, i: nat)
    requires i < |entries| - 1 && InitCapacity(entries[i].1, defaultExpire) > 0
    requires forall j | i < j < |entries| && entries[j].0 == entries[i].0 ::
      InitCapacity(entries[j].1, defaultExpire) == 0
    ensures entries[i].0 in Predefined(entries[..|entries| - 1], defaultExpire)
    ensures Predefined(entries[..|entries| - 1], defaultExpire)[entries[i].0] == InitCapacity(entries[i].1, defaultExpire)
    decreases |entries|, 0
  {
    var init := entries[..|entries| - 1];
    assert init[i] == entries[i];
    forall j | i < j < |init| && init[j].0 == init[i].0
      ensures InitCapacity(init[j].1, defaultExpire) == 0
    {
      assert init[j] == entries[j];
    }
    PredefinedCapacity(init, defaultExpire, i);
  }

  /** Start-up registers a name only when some predefined entry for it
      has a positive capacity; a name listed only with capacity 0 is not
      registered. */
  lemma {:induction false} PredefinedOnlyPositive(entries: seq<(string, nat)>, defaultExpire: nat, name: string)
    requires name in Predefined(entries, defaultExpire)
    ensures exists i :: 0 <= i < |entries| && entries[i].0 == name && InitCapacity(entries[i].1, defaultExpire) > 0
  {
    var last := |entries| - 1;
    var init := entries[..last];
    var m := Predefined(init, defaultExpire);
    var capacity := InitCapacity(entries[last].1, defaultExpire);
    PredefinedLast(entries, defaultExpire);
    if !(entries[last].0 == name && capacity > 0) {
      assert name in m;
      PredefinedOnlyPositive(init, defaultExpire, name);
      var i :| 0 <= i < |init| && init[i].0 == name && InitCapacity(init[i].1, defaultExpire) > 0;
      assert entries[i] == init[i];
    }
  }

  class Registry {
    /** flowMap: flow name to its ring buffer. */
    var flows: map<string, Flow>
    /** Flows._implicitCreate */
    const implicitCreate: bool
    /** Flows._defaultExpire: the capacity of flows created without one. */
    const defaultExpire: nat

    /** The bucket arrays of the registered flows. */
    ghost function Arrays(): set<array<Bucket>>
      reads this
    {
      set name | name in flows :: flows[name].buckets
    }

    /** No two names share a flow or a bucket array (each initFlow
        allocates its own). */
    ghost predicate Separate()
      reads this
    {
      forall a, b | a in flows && b in flows && a != b ::
        flows[a] != flows[b] && flows[a].buckets != flows[b].buckets
    }

    /** The registry's invariant: separate flows, each a valid ring. */
    ghost predicate Valid()
      reads this, flows.Values, Arrays()
    {
      Separate() && forall name | name in flows :: flows[name].Valid()
    }

    /** Start-up: the configuration's policy, then initFlow for every
        predefined flow in order. */
    constructor (implicitCreate: bool, defaultExpire: nat, predefined: seq<(string, nat)>)
      ensures Valid()
      ensures this.implicitCreate == implicitCreate && this.defaultExpire == defaultExpire
      ensures flows.Keys == Predefined(predefined, defaultExpire).Keys
      ensures forall name | name in flows ::
        flows[name].State() == EmptyRing(Predefined(predefined, defaultExpire)[name])
      ensures forall name | name in flows :: fresh(flows[name]) && fresh(flows[name].buckets)
    {
      this.implicitCreate := implicitCreate;
      this.defaultExpire := defaultExpire;
      flows := map[];
      new;
      for i := 0 to |predefined|
        invariant Valid()
        invariant flows.Keys == Predefined(predefined[..i], defaultExpire).Keys
        invariant forall name | name in flows ::
          flows[name].State() == EmptyRing(Predefined(predefined[..i], defaultExpire)[name])
        invariant forall name | name in flows :: fresh(flows[name]) && fresh(flows[name].buckets)
      {
        assert predefined[..i + 1][..i] == predefined[..i];
        PredefinedLast(predefined[..i + 1], defaultExpire);
        ghost var prev := flows;
        var created := InitFlow(predefined[i].0, predefined[i].1);
        assert created ==> flows == prev[predefined[i].0 := flows[predefined[i].0]];
        assert !created ==> flows == prev;
      }
      assert predefined[..|predefined|] == predefined;
    }

    /** initFlow: registers `name` with a new, zeroed ring, replacing any
        flow already registered under it. Refuses to create a flow of
        capacity 0, which the source would create and then crash on. */
    method InitFlow(name: string, expire: nat) returns (created: bool)
      requires Valid()
      modifies this
      ensures Valid()
      ensures created <==> InitCapacity(expire, defaultExpire) > 0
      ensures created ==> name in flows && flows == old(flows)[name := flows[name]]
      ensures created ==> fresh(flows[name]) && fresh(flows[name].buckets)
      ensures created ==> flows[name].capacity == InitCapacity(expire, defaultExpire)
      ensures created ==> flows[name].State() == EmptyRing(InitCapacity(expire, defaultExpire))
      ensures !created ==> flows == old(flows)
    {
      var capacity := defaultExpire;
      if expire > 0 {
        capacity := expire;
      }
      if capacity == 0 {
        return false;
      }
      var f := new Flow(capacity);
      flows := flows[name := f];
      created := true;
    }

    /** One tick: every registered flow advances its head exactly once;
        the set of flows does not change. */
    method Tick()
      requires Valid()
      modifies flows.Values, Arrays()
      ensures Valid() && flows == old(flows)
      ensures forall name | name in flows :: flows[name].State() == Advanced(old(flows[name].State()))
    {
      ghost var before := map name | name in flows :: flows[name].State();
      var pending := flows.Keys;
      while pending != {}
        invariant pending <= flows.Keys
        invariant Valid()
        invariant forall name | name in flows && name !in pending ::
          flows[name].State() == Advanced(before[name])
        invariant forall name | name in pending :: flows[name].State() == before[name]
        decreases pending
      {
        var name :| name in pending;
        AdvanceOne(name);
        pending := pending - {name};
      }
    }

    /** The body of the sweep: advanceHead on the flow of `name`, which
        leaves every other flow as it was. */
    method AdvanceOne(name: string)
      requires Valid() && name in flows
      modifies flows[name], flows[name].buckets
      ensures Valid()
      ensures flows[name].State() == Advanced(old(flows[name].State()))
      ensures forall other | other in flows && other != name ::
        flows[other].State() == old(flows[other].State())
    {
      var f := flows[name];
      f.AdvanceHead();
      assert forall other | other in flows && other != name ::
        flows[other] != f && flows[other].buckets != f.buckets;
    }

    /** The effect of accepting a sample `value` for `name`: a known flow
        keeps its instance and gets the sample; an unknown one is created
        with the default capacity and gets it only when implicit creation
        is on (and that capacity is not 0); otherwise nothing changes. No
        other flow is touched. */
    twostate predicate Ingested(name: string, value: real, outcome: Outcome)
      requires old(Valid())
      reads this, flows.Values, Arrays()
    {
      Valid() &&
      (forall other | other in old(flows) && other != name ::
         other in flows && flows[other] == old(flows[other]) &&
         flows[other].State() == old(flows[other].State())) &&
      if name in old(flows) then
        outcome == Recorded && flows == old(flows) &&
        flows[name].State() == Added(old(flows[name].State()), value)
      else if implicitCreate && defaultExpire > 0 then
        outcome == Created && flows.Keys == old(flows).Keys + {name} && fresh(flows[name]) &&
        fresh(flows[name].buckets) && flows[name].capacity == defaultExpire &&
        flows[name].State() == Added(EmptyRing(defaultExpire), value)
      else
        outcome == (if implicitCreate then ZeroCapacity else UnknownFlow) && flows == old(flows)
    }

    /** The lookup / implicit-create / drop decision of receiveData,
        followed by addData. */
    method Ingest(name: string, value: real) returns (outcome: Outcome)
      requires Valid()
      modifies this, flows.Values, Arrays()
      ensures Ingested(name, value, outcome)
    {
      if name in flows {
        outcome := Recorded;
        assert flows[name].buckets in Arrays();
      } else if implicitCreate {
        var created := InitFlow(name, 0);
        if !created {
          return ZeroCapacity;
        }
        outcome := Created;
      } else {
        return UnknownFlow;
      }
      flows[name].AddData(value);
    }

    /** receiveData after the datagram is read: size check, split at the
        first space, value parsing (by `parseFloat`, standing for
        strconv.ParseFloat), then Ingest. A rejected payload or value
        leaves every flow as it was. */
    method Receive(payload: string, parseFloat: string -> Option<real>) returns (outcome: Outcome)
      requires Valid()
      modifies this, flows.Values, Arrays()
      ensures SplitPayload(payload).Rejected? ==>
        outcome == Malformed(SplitPayload(payload).reason) &&
        unchanged(this) && unchanged(flows.Values) && unchanged(Arrays())
      ensures SplitPayload(payload).Accepted? && parseFloat(SplitPayload(payload).valueText).None? ==>
        outcome == BadValue && unchanged(this) && unchanged(flows.Values) && unchanged(Arrays())
      ensures SplitPayload(payload).Accepted? && parseFloat(SplitPayload(payload).valueText).Some? ==>
        Ingested(SplitPayload(payload).name, parseFloat(SplitPayload(payload).valueText).value, outcome)
    {
      var split := SplitPayload(payload);
      if split.Rejected? {
        return Malformed(split.reason);
      }
      var value := parseFloat(split.valueText);
      if value.None? {
        return BadValue;
      }
      outcome := Ingest(split.name, value.value);
    }

    /** The /meter lookup: the moving average of a registered flow over
        `window` seconds, or None for an unknown flow. Never creates. */
    method Query(name: string, window: nat) returns (average: Option<real>)
      requires Valid()
      ensures average.Some? <==> name in flows
      ensures name in flows ==> average.value == WindowAverage(flows[name].State(), window)
    {
      if name in flows {
        var a := flows[name].MovingAverage(window);
        average := Some(a);
      } else {
        average := None;
      }
    }
  }
}
