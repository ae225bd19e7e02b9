# flowmeter: the per-flow ring-buffer store

flowmeter receives UDP datagrams of the form `<flow name> <value>`. It keeps
the samples of each named flow as per-second aggregates in a fixed-size ring,
and answers "moving average of flow F over the last N seconds". This project
models the core of `flowmeter.go` in Dafny and proves properties of it:

- the ring buffer `flowData` with `advanceHead`, `addData`, `NLastPoints` and
  `MovingAverage`;
- `initFlow`;
- the once-per-second sweep that advances every flow;
- the payload rule of `receiveData`: the 512-byte limit and the split at the
  first space;
- the lookup / implicit-create / drop decision of `receiveData`;
- the flow lookup behind the `/meter` query.

Files:

- `ring.dfy` (module `RingSpec`): a flow's state as a value (`Ring`: buckets
  and head). It defines what the operations mean, and its lemmas prove the
  properties of the window. `LastPoints` is defined as "the most recent
  min(n, capacity) seconds, newest first", read off the oldest-to-newest
  sequence of buckets. Its contract proves that this equals the source's
  backward index walk.
- `flow.dfy` (module `Flows`): class `Flow`. It has a constant `capacity`, a
  constant `array<Bucket>` and a mutable `head`. Each method is proved against
  the `RingSpec` function for it.
- `payload.dfy` (module `Payload`): the datagram size check and first-space
  split, as pure functions.
- `registry.dfy` (module `Meter`): class `Registry`. It holds the flow table
  `map<string, Flow>` and the two configuration values the core reads
  (`implicitCreate` and `defaultExpire`). It also holds start-up
  registration, the tick, ingestion and query.

Sample sums are float64 in the source. Here they are exact `real`s, so the
averages abstract away floating-point rounding. The source's `uint` counts,
capacities and indices are `nat`.

## Model

| member | source | states |
|---|---|---|
| `RingSpec.EmptyRing` | flowmeter.go:129 | a new flow has `capacity` buckets, all zero, and head 0; its invariants hold |
| `RingSpec.Advanced` | flowmeter.go:75-79 | advancing keeps 0 <= head < capacity and the number of buckets, and keeps empty buckets sum-free |
| `RingSpec.Added` | flowmeter.go:81-84 | adding a sample keeps head and capacity, and keeps empty buckets sum-free |
| `RingSpec.WrappedIndex` | flowmeter.go:103 | `(capacity + head - i) % capacity` has a positive dividend (no unsigned underflow) and is the slot i seconds back from head |
| `RingSpec.LastPoints` | flowmeter.go:86-107 | the min(n, capacity) most recent buckets, newest first; entry i is the bucket i seconds back from head, wrapping below 0 |
| `RingSpec.Average` | flowmeter.go:111-121 | 0 when the buckets hold no sample; otherwise average times total count equals total sum |
| `RingSpec.WindowAverage` | flowmeter.go:109-122 | the moving average is 0 for n == 0 and for a window without samples; otherwise it times the window's count is the window's sum |
| `RingSpec.SaturatedWindow` | flowmeter.go:88-90 | any n >= capacity selects the same buckets, and gives the same average, as n == capacity |
| `RingSpec.EmptyWindowHasNoSum` | flowmeter.go:116-117 | on consistent buckets a window without samples also has sum 0 |
| `RingSpec.ZeroBucketsTotals` | flowmeter.go:111-115 | zero buckets add up to count 0 and sum 0 |
| `RingSpec.BackIndexAfterAdvance` | flowmeter.go:75-76 | after a tick, i seconds back from the new head is i - 1 seconds back from the old head, and differs from the new head for 0 < i < capacity |
| `RingSpec.TicksClearWindow` | flowmeter.go:75-79 | after k ticks with no sample, the last min(k, capacity) seconds are all zero |
| `RingSpec.CapacityTicksClearRing` | flowmeter.go:75-122 | after at least capacity ticks with no sample, every bucket is zero and MovingAverage(n) is 0 for every n |
| `RingSpec.AddedAllAtHead` | flowmeter.go:81-84 | samples added with no tick between them add their number and their total to the head bucket, and leave every other bucket unchanged |
| `RingSpec.OneSecondAverageOfFreshFlow` | flowmeter.go:81-122 | for a new flow fed v1..vk before the first tick, the one-second average is (v1 + ... + vk) / k |
| `RingSpec.TwoSecondExample` | flowmeter.go:75-122 | capacity 5: samples 10 and 20 average 15 over one second; after a tick and a sample of 5, two seconds average 35/3 |
| `Flows.Flow.constructor` | flowmeter.go:129 | allocates a fresh array of `capacity` zero buckets with head 0 |
| `Flows.Flow.AdvanceHead` | flowmeter.go:75-79 | head becomes (head + 1) % capacity; that bucket is zeroed; every other bucket is unchanged; the invariants are kept |
| `Flows.Flow.AddData` | flowmeter.go:81-84 | the head bucket gets count + 1 and sum + point; head and every other bucket are unchanged |
| `Flows.Flow.NLastPoints` | flowmeter.go:86-107 | returns exactly min(n, capacity) buckets; entry i is `buckets[(capacity + head - i) % capacity]`; the result equals `LastPoints` |
| `Flows.Flow.MovingAverage` | flowmeter.go:109-122 | equals `WindowAverage` of the current state (0 when there is no sample, total sum / total count otherwise); 0 for n == 0 |
| `Payload.FirstSpace` | flowmeter.go:258 | the first space of the text, or its length when it has none |
| `Payload.SplitPayload` | flowmeter.go:246-262 | rejected exactly when longer than 512 bytes (reason TooLong) or, within 512 bytes, without a space (reason NoSeparator); otherwise payload == name + " " + value text, with no space in the name |
| `Payload.SplitJoined` | flowmeter.go:258-263 | a space-free name, a space and any value text within 512 bytes split back into exactly that name and text |
| `Meter.InitCapacity` | flowmeter.go:125-128 | expire when positive, else the default; the result is 0 exactly when both are 0 |
| `Meter.RingAsWritten` | flowmeter.go:129 | the ring initFlow allocates as written: InitCapacity buckets, every one zero, and head 0, whatever that capacity is; when that capacity is at least 1 it is exactly the corrected `EmptyRing`, so the correction changes only the case where expire and the default are both 0 |
| `Meter.ZeroCapacityFromZeroDefault` | flowmeter.go:124-129 | as written, the allocated ring has a valid head index exactly when expire or the default is positive; with both 0 it has no buckets and head 0 is out of range, so addData's index (line 82) and advanceHead's `% capacity` (line 76) fault |
| `Meter.Predefined` | flowmeter.go:172-175 | start-up capacities: every predefined entry with a positive capacity is registered; every registered name comes from the list; every capacity is >= 1 |
| `Meter.PredefinedLast` | flowmeter.go:172-175 | one step of start-up: the last entry is registered over the earlier ones when its capacity is positive, and is skipped otherwise |
| `Meter.PredefinedOnlyPositive` | flowmeter.go:172-175 | a name is registered at start-up only if some predefined entry for it has a positive capacity; a name listed only with capacity 0 is not registered |
| `Meter.PredefinedCapacity` | flowmeter.go:172-175 | a name's start-up capacity is that of its last predefined entry with a positive capacity (expire when positive, else the default); later entries for the name replace earlier ones |
| `Meter.Registry.constructor` | flowmeter.go:172-175 | after start-up exactly the predefined names whose capacity is positive are registered, each with a freshly allocated flow and bucket array holding a zeroed ring of the capacity `Predefined` gives it: its keys are `Predefined`'s keys, which `Predefined` and `PredefinedOnlyPositive` show are exactly those names, and `PredefinedCapacity` gives each one's capacity |
| `Meter.Registry.InitFlow` | flowmeter.go:124-130 | registers a fresh zeroed flow of capacity expire, or the default when expire is 0, replacing any flow of that name; leaves the table unchanged when that capacity is 0 |
| `Meter.Registry.Tick` | flowmeter.go:184-187 | every registered flow advances exactly once; the table is unchanged; the invariants are kept |
| `Meter.Registry.AdvanceOne` | flowmeter.go:185 | advances the named flow and leaves every other flow unchanged |
| `Meter.Registry.Ingest` | flowmeter.go:272-284 | a known name keeps its flow instance and gets the sample. An unknown name gets a fresh flow, with a fresh bucket array, of the default capacity only if implicit creation is on. Otherwise the sample is dropped and the table is unchanged. No other flow changes |
| `Meter.Registry.Receive` | flowmeter.go:253-284 | too-long, space-free or unparsable payloads change nothing; otherwise it has the effect of `Ingest` on the split name and parsed value |
| `Meter.Registry.Query` | flowmeter.go:434-447 | for a registered flow, its moving average over the window; for an unknown flow, nothing. Never creates a flow |

## Left out

- UDP socket reading, the HTTP server and its handlers, HTML/JSON rendering and static files: these are I/O and presentation.
- Configuration loading (the JSON file, defaults, unmarshalling) and log-file setup: file I/O and library calls. The configuration values the core reads are the registry's constant fields and constructor arguments.
- The `time.Tick` goroutine and the unsynchronised concurrent access to the flow table. The model is sequential: one tick is one call of `Tick`. Go's random map iteration order is modelled by picking the next flow arbitrarily.
- `strconv.ParseFloat` is the `parseFloat` parameter of `Receive`. The query's `strconv.ParseUint` (32-bit) window parsing, and its check for missing `flow`/`window` parameters, are presentation and are not modelled. `Query` takes the window as a `nat`.
- Float rounding of sums and of the division: sums and averages are exact reals. `strconv.ParseFloat` also accepts "NaN" and "±Inf"; such samples, which make a bucket's sum and every average over it NaN or infinite until the bucket is cleared, are outside the model.
- 64-bit `uint` wrap-around of counts and of the index arithmetic is not modelled. The index dividend `capacity + head - i` stays below `2 * capacity`, so it could only wrap for capacities near 2^63. A count could only wrap after 2^64 samples in one window.
- Bytes: a Go string is a byte sequence. Each `char` of the model stands for one byte, so the 512 limit counts bytes as the source does. The source reads at most 513 bytes, so a longer datagram arrives truncated; it is still over 512 and rejected, which is the same decision the model takes on the whole datagram.
- An empty window is reported as the number 0, as the code does (flowmeter.go:116-117). There is no separate "no data" result.
- Registering a name twice replaces the first flow, as the code does (flowmeter.go:129). It is not treated as an error.
- `Meter.Registry.InitFlow`, `Ingest`, `Receive` and `Meter.Registry.constructor` do not create a flow of capacity 0 where the source does. This is the corrected behaviour described under Findings. At start-up a predefined entry whose capacity is 0 is skipped, so an earlier flow of that name is kept; the source replaces that flow with one of capacity 0 (flowmeter.go:129, 174).

## Findings

| source | as written | input that shows it | evidently intended | confidence | as-written member | corrected member |
|---|---|---|---|---|---|---|
| flowmeter.go:124-130 | capacity is `DefaultExpire` whenever `expire` is 0, even when `DefaultExpire` is itself 0 | a config file with `"_implicitCreate": true` and no `_defaultExpire` (so 0), then the datagram `cpu 1`: `initFlow("cpu", 0)` makes an empty slice, and `addData` (line 82) indexes it. A predefined flow with expire 0 reaches `% 0` at line 76 on the next tick | every flow has capacity >= 1 (0 <= head < capacity); a zero-capacity flow is not created and its sample is dropped | high; not executed | `Meter.ZeroCapacityFromZeroDefault` | `Meter.Registry.InitFlow` |
