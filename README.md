# laozi: partition router and logger registry

laozi is an in-process event archiver. Callers hand it byte events; a
configurable partition key function assigns each event a key; the router keeps
one logger per key in a routing map, creating it through a logger factory the
first time the key is seen, and delivers the event to it. A reaper
periodically closes and removes loggers that have been idle for at least the
configured timeout, and the facade's `Close` closes every logger at shutdown.

This project models that core as a sequential state machine over the routing
map and proves its invariants:

- `events.dfy` (module `Events`): events as byte sequences, the key
  function as a function from events to `Result<string>`, arrivals (an event
  with the time it is routed), and the per-key filter of a sequence of arrivals.
- `configuration.dfy` (module `Configuration`): the configuration and its
  start-up validation, and the reaper's ticker period.
- `registry.dfy` (module `Registry`): the routing map as a value
  (`map<string, Handle>`), one routing step, the routing loop, a sweep and
  shutdown as functions, with the lemmas that state the map invariants.
- `laozi.dfy` (module `Laozi`): the imperative model. `Logger` is a class
  whose `Log` and `Close` change it in place; `Router` holds the routing map
  `map<string, Logger>` as a field that `Route`, `RouteAll`, `Sweep` and
  `CloseAll` update. A logger counts its closes, so a second close can be seen. Each method's postcondition ties the new map, read through
  `Snapshot()`, to the matching function of `Registry`, and says which logger
  objects stay the same.

Time is an integer number of nanoseconds: the routing step and the sweep take
the current time `now` as a parameter, in place of `time.Now()` and
`time.Since`. The factory is the `Logger` constructor: it makes a fresh
logger for the key whose last-active time is its creation time
(factory.go:32). `Log` sets a logger's last-active time to the delivery time.

## Model

| member | source | states |
|---|---|---|
| `Configuration.Validate` | laozi.go:36-43 | passes exactly when the timeout is non-zero and the key function is present; a zero timeout panics with the timeout message even when the key function is missing too; otherwise a missing key function panics with its own message |
| `Configuration.StartupCheck` | laozi.go:46-53 | what `NewLaozi` does before it starts the goroutines: a negative `EventChannelSize` panics in `make` before `valid()` runs; for any other size the outcome is that of `Validate` |
| `Configuration.HalfDuration` | laozi.go:103 | `LoggerTimeout / 2` with Go's truncation toward zero: the remainder is 0 or 1 for a non-negative duration and 0 or -1 for a negative one |
| `Configuration.ReaperTicks` | laozi.go:103 | the ticker period `LoggerTimeout / 2` is positive, so the reaper ticks at all, exactly when the timeout is at least 2 ns |
| `Configuration.ValidateAdmitsSilentReaper` | laozi.go:36-43 | validation as written accepts a 1 ns timeout and a negative timeout, and under both the reaper never ticks |
| `Configuration.ValidateCorrected` | laozi.go:36-43 | passes exactly when the reaper ticks and the key function is present; every configuration it accepts is also accepted by `Validate` |
| `Events.RoutedKeysExact` | laozi.go:83-86 | a key is among the successfully computed keys of a sequence exactly when some event in it yields that key, and exactly when the per-key event list is non-empty |
| `Registry.NewHandle` | factory.go:32 | the factory's logger for a key carries that key, is active since its creation time, is open and holds no events |
| `Registry.Accept` | laozi.go:97 | `l.Log(e)` appends the event, makes the logger active at the delivery time, and changes neither its key nor its close count |
| `Registry.Retire` | laozi.go:108 | `l.Close()` leaves the logger closed with its close count one higher; key, last-active time and events are kept |
| `Registry.RouteStep` | laozi.go:83-97 | a failed key computation leaves the key set as it is; a successful one adds exactly the computed key; every entry under another key is unchanged |
| `Registry.RouteAll` | laozi.go:81-98 | routing a sequence adds exactly the successfully computed keys to the map |
| `Registry.RouteStepDropsOnError` | laozi.go:83-86 | when the key function fails, the routing map and every handle in it are unchanged and the event is delivered nowhere |
| `Registry.RouteStepPresent` | laozi.go:90-97 | for a key already present, no logger is created, the key set is unchanged, that key's logger receives the event and every other entry is unchanged |
| `Registry.RouteStepAbsent` | laozi.go:90-97 | for an absent key, exactly one logger is created for it and inserted; the other entries are unchanged; the event is the new logger's first and only event |
| `Registry.RouteStepPreserves` | laozi.go:89-97 | a routing step keeps every logger under its own key and keeps all loggers open |
| `Registry.RouteAllDelivers` | laozi.go:81-98 | routing a sequence with no sweep in between adds exactly the successfully computed keys to the map; each key's logger holds its earlier events followed by exactly that key's events in input order; entries for keys not routed to are unchanged; close counts, well-keyedness and openness are kept |
| `Registry.RouteAllAppend` | laozi.go:81-98 | routing `s + u` equals routing `s` and then `u` |
| `Registry.DroppedEventIsInvisible` | laozi.go:83-86 | an event whose key computation fails leaves the routing of every earlier and later event exactly as if it had never arrived |
| `Registry.Stale` | laozi.go:106 | with a positive timeout a logger active at or after `now` is never stale; with a non-positive timeout every logger active at or before `now` is |
| `Registry.Kept` | laozi.go:105-111 | the entries left by a sweep are old entries, unchanged, each idle for less than the timeout |
| `Registry.Retired` | laozi.go:105-111 | the entries a sweep removes are old entries, each idle for at least the timeout and closed once more |
| `Registry.SweepPartitions` | laozi.go:105-111 | the keys left after a sweep at `now` are exactly the old keys with `now - lastActive < timeout`, each keeping the same handle, not closed by the sweep; the removed keys are exactly the others, each closed with its events kept |
| `Registry.SweepDeterminedBy` | laozi.go:105-111 | any pair of maps that keeps exactly the non-stale entries unchanged and holds exactly the stale ones closed once more is the pair `Kept`, `Retired` |
| `Registry.SweepIdempotent` | laozi.go:105-111 | a second sweep at the same instant removes and closes nothing |
| `Registry.SweepPreserves` | laozi.go:105-111 | a sweep keeps every logger under its own key and keeps the survivors open |
| `Registry.RouteAfterRetire` | laozi.go:90-94 | after a sweep has retired a key, the next event for it gets a new logger that holds only that event |
| `Registry.AtomicRouteDeliversBeforeClose` | laozi.go:89-97 | when lookup and delivery form one atomic step, the event reaches an open logger; a later sweep either keeps that logger or closes it with the event already in it |
| `Registry.ClosedAll` | laozi.go:69-76 | shutdown keeps every key and closes every logger once more, keeping its events |
| `Registry.ClosedAllCloses` | laozi.go:69-76 | shutdown closes every logger, idle or not, keeps every key and loses no event |
| `Registry.ClosesOnceWhenOpen` | laozi.go:69-76 | over a map of open loggers, a sweep and a shutdown each leave every logger they close with exactly one close |
| `Registry.ShutdownThenSweepClosesTwice` | laozi.go:69-76 | after shutdown the loggers stay in the map, so for every open map a later sweep closes each stale logger a second time |
| `Registry.TwoEventsThenIdle` | laozi.go:81-111 | with a 200 ns timeout, two events for "A" at 0 and 50 ns reach one logger in order; a sweep at 249 ns keeps it, a sweep at 250 ns closes and removes it |
| `Laozi.Logger.constructor` | factory.go:26-37 | the factory's `NewLogger(key)` yields a fresh logger for `key`, active since `now`, open, with no events |
| `Laozi.Logger.Log` | laozi.go:97 | the logger's events gain the event at the end, its last-active time becomes `now`, and its key and close count are unchanged |
| `Laozi.Logger.Close` | laozi.go:108 | the logger's close count goes up by one; its key, last-active time and events are unchanged |
| `Laozi.Router.constructor` | laozi.go:46-59 | a router is built when the modelled start-up checks pass (a non-negative channel size, then `valid()` as written); it starts with an empty routing map, valid, all loggers open and not stopped |
| `Laozi.Router.LookupOrCreate` | laozi.go:89-96 | returns the logger stored under the key; when the key was missing, that logger is fresh, made by the factory at `now`, and the map gains it and nothing else; when present, the map is unchanged |
| `Laozi.Router.Route` | laozi.go:83-97 | the new routing map is `RouteStep` of the old one; every old key still maps to the same logger object; a logger under a new key is fresh; if all loggers were open they still are |
| `Laozi.Router.RouteAll` | laozi.go:80-99 | the routing map after consuming the sequence is `Registry.RouteAll` of the old one; old keys keep their logger objects; loggers under new keys are fresh; open loggers stay open |
| `Laozi.Router.CloseStale` | laozi.go:105-111 | the loop over the map: exactly the loggers idle for at least the timeout are removed, each closed once more; the others stay as the same objects; no activity time or event changes |
| `Laozi.Router.CloseIfStale` | laozi.go:106-110 | one iteration of that loop: a logger idle for at least the timeout is closed once more and its key deleted; any other is left as it is; activity time and events never change |
| `Laozi.Router.Sweep` | laozi.go:104-112 | the loggers left are `Kept` of the old map, each the same object as before; the loggers removed are exactly `Retired` of the old map; when all were open, each removed one has been closed exactly once |
| `Laozi.Router.CloseAll` | laozi.go:69-76 | the routing map is unchanged and every logger under its key; every logger is closed once more, as `ClosedAll` of the old contents |
| `Laozi.Router.Shutdown` | laozi.go:69-76 | corrected shutdown: closes every logger as `ClosedAll` does, each exactly once when all were open, and stops the reaper |
| `Laozi.Router.Tick` | laozi.go:103-112 | a reaper tick, which happens only when the ticker period `timeout / 2` is positive: while the router runs it is a `Sweep` (survivors `Kept` as the same objects, removed loggers exactly `Retired`, each closed once when all were open); once shut down it changes nothing |
| `Laozi.UnlockedDeliveryRace` | laozi.go:89-97 | a lookup of "A" at 10 ns, then a sweep at 10 ns with a 10 ns timeout, then the delivery: the event lands in a logger that is closed and no longer in the map |
| `Laozi.ShutdownThenTick` | laozi.go:69-112 | as written: shutdown, then a reaper tick at 10 ns with a 10 ns timeout, closes logger "A" a second time and removes it |
| `Laozi.TickClosesOnce` | laozi.go:103-110 | logger "A" last active at 0, then a corrected tick at 10 ns with a 10 ns timeout: the logger is closed exactly once and removed |
| `Laozi.ShutdownThenStoppedTick` | laozi.go:69-76 | corrected: the same sequence with `Shutdown` and `Tick` closes logger "A" exactly once and leaves it in the map |

## Left out

- Concurrency: the two goroutines that `NewLaozi` starts (laozi.go:55-56), the `RWMutex` and the channel `EventChan`. Each routing step and each sweep is one atomic step. The model leaves out these interleavings:
  - the delivery after the unlock (laozi.go:96-97), shown under Findings;
  - the facade's `Close`, which ranges over the map without taking the lock (laozi.go:70) while `route` may insert (laozi.go:93) and the reaper may delete (laozi.go:109); Go aborts a program that iterates over a map and writes to it concurrently;
  - the reaper running on after `Close`, shown under Findings as a second close.
- The facade's `Log` (laozi.go:63-65): it only sends on the channel, and the send blocks when the channel is full. `Router.RouteAll` over a sequence stands in for the router draining the channel. `EventChannelSize` has one effect in the model: a negative size fails the start-up check (`StartupCheck`), as `make` panics at laozi.go:48. `make` can fail in other ways too; see the `Configuration.StartupCheck` line.
- The ticker: `monitorLoggers` ranges over `time.Tick(LoggerTimeout / 2)` (laozi.go:103). `Router.Sweep` is one tick. When ticks happen, and the 1.5 × timeout detection bound, depend on scheduling and are not modelled. Only the sign of the ticker period is modelled, in `ReaperTicks`.
- Wall-clock time: an integer `now` replaces `time.Now()` and `time.Since`. The model does not cover the 64-bit range of `time.Duration`, or the saturation of `time.Since` at that range.
- Output: the message printed on a timeout (laozi.go:107) and on a close error at shutdown (laozi.go:72-73). It changes no state.
- `Laozi.Logger.Close`: the `error` that Go's `Close` returns is not modelled, so the model's `Close` returns nothing. The sweep discards it without any warning (laozi.go:108). Only shutdown checks it, and only to print a message (laozi.go:72-73).
- The shared configuration: the router keeps the caller's `*Config` (laozi.go:25, 50), so a caller who later changes `LoggerTimeout` or `PartitionKeyFunc` changes what laozi.go:83 and laozi.go:106 use. The model copies both into `const` fields at construction.
- `LoggerFactory`: `valid()` never checks it. A nil factory panics at laozi.go:92 the first time a new key arrives. The model's factory is the `Logger` constructor, which always exists, so this panic is not modelled.
- The factory's S3 details (factory.go:26-37): the S3 client, the bucket, the `Prefix + key` object name and `fetchPreviousData`. The concrete `s3logger` (buffering, flushing, upload) is not part of this model. A logger is an abstract handle with a key, a last-active time, a close count and its received events.
- Go map iteration order: `CloseStale` and `CloseAll` take pending keys in any order, and their results are stated as map facts.
- `Configuration.StartupCheck`: the channel size is an unbounded integer, and only the negative case of `make` at laozi.go:48 is modelled. The Go runtime also panics with the same message when the buffer (size × 24-byte slice header) overflows or exceeds its allocation limit, and sizes just below that limit end in an out-of-memory error. That bound depends on the platform and is not modelled, so very large sizes pass the check.
- `Laozi.Router.constructor`: builds a router for every configuration `StartupCheck` passes, so it inherits that gap at large channel sizes. A nil `*Config`, which panics at laozi.go:48, cannot be expressed: the constructor takes a `Config` value.
- Routing after shutdown: `Router.Route` requires only `Valid()`. After `CloseAll`, an event goes to the already-closed logger for its key, just as the code would do. The source leaves this case open.

## Findings

| source | as written | input that shows it | evidently intended | confidence | as-written member | corrected member |
|---|---|---|---|---|---|---|
| laozi.go:36-43 | `valid` rejects only a zero timeout, but the reaper ticks on `time.Tick(LoggerTimeout / 2)`, which is nil for a non-positive period | `LoggerTimeout` of 1 ns, or any negative duration, with a key function: validation passes and stale loggers are never reaped | reject every timeout whose half is not a positive ticker period, so that is at least 2 ns | high for the nil ticker, not executed | `Configuration.ValidateAdmitsSilentReaper` | `Configuration.ValidateCorrected` |
| laozi.go:96-97 | the logger is looked up under the lock, but `l.Log(e)` runs after the unlock, so a sweep can retire that logger in between | logger "A" last active at 0, timeout 10; an event for "A" is looked up at 10; a tick at 10 closes and removes "A"; then `Log` delivers to the closed logger | an event reaches only a logger that is still live, and a close comes after the deliveries it must flush | medium, not executed | `Laozi.UnlockedDeliveryRace` | `Registry.AtomicRouteDeliversBeforeClose` |
| laozi.go:69-76 | `Close` closes every logger but leaves it in the map and does not stop the reaper started at laozi.go:55, so the next tick closes every stale one again at laozi.go:108 | logger "A" last active at 0, timeout 10; `Close`; a tick at 10 closes "A" a second time | every logger is closed exactly once at shutdown and no tick runs after it | medium, not executed | `Registry.ShutdownThenSweepClosesTwice` | `Laozi.Router.Shutdown` |

In the model, `Router.Route` looks up and delivers in one atomic step, which is the corrected behaviour. The router's constructor requires the as-written `valid()` after the negative-size check, not the corrected validation. `ValidateCorrected` is stated beside it and not imposed. `Laozi.ShutdownThenTick` shows the double close on the router objects. `Router.Tick` requires a positive ticker period, the condition `ReaperTicks` states for the first finding. `Router.Shutdown` with `Router.Tick` is the correction, and `Laozi.ShutdownThenStoppedTick` shows that under it the same sequence closes the logger once.
