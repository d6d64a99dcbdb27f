# minikom timeline reconciliation, modelled in Dafny

minikom is a small HTTP service that tracks the state of other services over time.
Clients POST observations `(service_name, state, timestamp)` in any order, possibly late
or repeated. For every service the server keeps a list of state intervals, newest first.
Each interval records a state, a start and an end time, and every observation timestamp
it absorbed. An observation joins an interval of the same state when it falls within
IDLE_DELTA (10) of that interval's span. Otherwise it becomes a new single-point
interval, placed before the first interval that ends before it. In the intended
behaviour, an interval whose span holds the observation is first split around it. As
written, the split call on that path raises, so the request fails and nothing is
recorded (see Findings). The list is newest first only loosely: absorbing can stretch
an older interval past a newer one. After every observation, at most one adjacent
same-state pair whose gap is within the tolerance is merged, and only the newest 50
intervals are kept. Every stored list stays settled: each interval's span is exactly the
range of its timestamps, and no adjacent pair is left that unify would merge. Reads report:

- each service's current status (its newest interval's state, or `idle` once the idle
  window has passed);
- a service's latest events (one record per absorbed timestamp, at most 50 of them);
- a reset that forgets everything.

The project has five modules:

- `Intervals` (intervals.dfy): the interval record and the tolerance predicates. It also
  holds `Absorb`, which models update_existing_entry, and Python's `list.insert`
  (`ListInsert`, which clamps its index) and `list.remove` (`RemoveFirst`, which deletes
  the first element equal by value). `AllTimestamps` is the multiset of recorded
  timestamps, and several properties are stated in terms of it.
- `Timeline` (timeline.dfy): the three scans, each as a specification function plus the
  loop method the source runs. It also holds the split, the unify step, the whole
  reconciliation of one observation (`Placed`, `Reconcile`, `Record`) and the lemmas
  about them. Finally it holds the two defects of the split path as written (`RecordAsWritten`,
  `SplitOfEntryAsWritten`).
- `Queries` (queries.dfy): status and latest-events as specification functions, with an
  uncapped reference expansion `Expanded` that the capped walk is proved to be a prefix
  of.
- `Server` (registry.dfy): the global dictionary `services_name_to_data` as the field
  `services` of class `Registry`, with one mutating method per source function. Each is
  proved against the specification functions. The latest-events loop is the method
  `WalkEvents`.
- `Scenarios` (scenarios.dfy): the three application tests and a reset, stated over a
  fresh registry.

The current time `time.time()` is the parameter `now` of the read operations.

## Model

| member | source | states |
|---|---|---|
| `Intervals.InRange` | server/main.py:12-13 | for a proper span, the timestamp is in range exactly when it lies no more than IDLE_DELTA outside the span |
| `Intervals.Belongs` | server/main.py:16-17 | a well-formed interval takes back any of its own timestamps exactly when the observed state is its state |
| `Timeline.FirstBelonging` | server/main.py:12-25 | the first interval, from a position on, whose state matches and whose span widened by IDLE_DELTA holds the timestamp; None exactly when no interval does |
| `Timeline.Search` | server/main.py:21-25 | the loop of search returns the index of the first interval the observation belongs to, or None |
| `Timeline.FirstCovering` | server/main.py:34-40 | the first interval whose own span holds the timestamp; -1 exactly when none does |
| `Timeline.FindLocationToSplit` | server/main.py:34-40 | the loop of find_location_to_split returns the first covering index, or -1 |
| `Timeline.FirstEndingBefore` | server/main.py:44-50 | the first interval that ends before the timestamp, or the length of the list; every interval before that position ends at or after the timestamp |
| `Timeline.FindLocationToInsert` | server/main.py:44-50 | the loop of find_location_to_insert returns that slot |
| `Intervals.Absorb` | server/main.py:28-31 | absorbing keeps the state and appends the timestamp; the span grows to include it, and each end either stays or moves exactly to the timestamp |
| `Intervals.AbsorbKeepsWellFormed` | server/main.py:28-31 | when an interval's span equals the range of its timestamps, it still does after absorbing |
| `Server.Registry.constructor` | server/main.py:9 | the registry starts with no services, which satisfies both registry invariants |
| `Server.Registry.UpdateExistingEntry` | server/main.py:28-31 | only the addressed interval of the addressed service changes, and it becomes its absorption |
| `Intervals.ListInsert` | server/main.py:53-59 | Python's list.insert: one element longer, the new element at the index clamped to the length, the rest in order around it |
| `Intervals.RemoveFirst` | server/main.py:68 | Python's list.remove: one element shorter, and the multiset loses exactly one copy of the value |
| `Intervals.AllTimestampsRemoveFirst` | server/main.py:94 | removing an interval removes exactly its timestamps from the service's multiset |
| `Timeline.Above` | server/main.py:66 | the upper half holds exactly the timestamps later than the split timestamp |
| `Timeline.AtOrBelow` | server/main.py:67 | the lower half holds exactly the timestamps at or before the split timestamp |
| `Timeline.PartitionTimestamps` | server/main.py:66-67 | the upper (later than the timestamp) and lower (at or before it) halves together hold exactly the interval's timestamps |
| `Timeline.Spanning` | server/main.py:69-71 | an interval built from a non-empty half spans exactly the minimum to the maximum of it and keeps its state |
| `Timeline.SplitAt` | server/main.py:63-72 | the intended split replaces the interval by its non-empty halves, so the list changes length by exactly that count minus one, and the returned boundary lies inside the new list |
| `Timeline.SplitAtConserves` | server/main.py:63-72 | the intended split keeps every timestamp |
| `Timeline.SplitAtKeepsWellFormed` | server/main.py:63-72 | a split of a list of well-formed intervals leaves only well-formed intervals |
| `Timeline.SplitAtShape` | server/main.py:64-72 | when no earlier interval equals the one split (list.remove takes the first equal one) and both halves are non-empty, the split interval is replaced in place by its later half then its earlier half, and the boundary is the earlier half's position |
| `Timeline.SplitHalvesNonEmpty` | server/main.py:66-67 | a timestamp inside a well-formed interval, from its start to just below its end, leaves both halves non-empty |
| `Server.Registry.Split` | server/main.py:63-72 | the method leaves the service's list equal to the intended split and returns its boundary; other services are unchanged |
| `Server.Registry.InsertNewEntry` | server/main.py:75-82 | the single-point interval of the observation is list-inserted at the location; other services are unchanged |
| `Timeline.Mergeable` | server/main.py:91 | only same-state pairs merge, and a same-state pair whose newer interval starts within the older one's widened span always merges |
| `Timeline.Merged` | server/main.py:92-93 | the merged interval keeps the newer one's state and end, takes the older one's start, and its timestamps are exactly those of both |
| `Timeline.MergedKeepsWellFormed` | server/main.py:92-93 | merging two well-formed intervals in time order gives a well-formed interval |
| `Timeline.MergeAt` | server/main.py:89-94 | merging a pair shortens the list by one, and the only new interval is the merged one |
| `Timeline.MergeAtConserves` | server/main.py:91-94 | merging a pair keeps every timestamp |
| `Timeline.MergeAtShape` | server/main.py:89-94 | when no interval ahead of the newer one equals the older one (list.remove takes the first equal one) and the newer one has timestamps, the merged interval takes the older start and both timestamp lists, in place of the newer of the two, and nothing else changes |
| `Timeline.UnifyFrom` | server/main.py:88-95 | the scan from a position leaves the list unchanged or one shorter, and only when a pair from that position exists |
| `Timeline.Unify` | server/main.py:86-95 | unify leaves the list unchanged or one shorter, and only a list of at least two can shrink |
| `Timeline.UnifyKeepsWellFormed` | server/main.py:86-95 | when every mergeable pair is in time order, unify keeps every interval well formed |
| `Timeline.UnifyNoPair` | server/main.py:86-95 | with no mergeable adjacent pair, unify changes nothing |
| `Timeline.UnifyMergesFirstPair` | server/main.py:88-95 | unify merges exactly the first mergeable adjacent pair and no other |
| `Timeline.UnifyConserves` | server/main.py:86-95 | unify keeps every timestamp, changes the list exactly when some adjacent pair is mergeable, and then shortens it by one |
| `Server.Registry.UnifyIfNeeded` | server/main.py:86-95 | the loop of unify_if_needed leaves the service's list equal to its unification |
| `Server.Registry.Place` | server/main.py:107-116 | the absorb-or-split-and-insert step leaves the service's list equal to its placement |
| `Timeline.Locate` | server/main.py:110-115 | the list after any split changes length by at most one, and the insertion index lies inside it |
| `Timeline.Placed` | server/main.py:107-116 | after the absorb or insert step the list is non-empty and at most two intervals longer |
| `Timeline.Reconcile` | server/main.py:107-117 | before the cap the list is non-empty, and its length moves by at most one down or two up |
| `Timeline.Cap` | server/main.py:118 | the capped list is the prefix of the list as long as the list or 50, whichever is smaller |
| `Timeline.Record` | server/main.py:99-119 | the stored list is never empty and never holds more than 50 intervals |
| `Server.Registry.PostEvent` | server/main.py:99-119 | an unknown service starts with an empty list; the service's list becomes the reconciled, capped list and nothing else changes; every stored list stays non-empty and at most 50 long; every stored list stays settled: each interval's span is the range of its timestamps, and no adjacent pair is mergeable |
| `Timeline.PlacedAbsorbs` | server/main.py:107-109 | when an interval absorbs the observation, only that interval changes |
| `Timeline.PlacedInsertsInOrder` | server/main.py:111-116 | with no absorbing and no covering interval, the point goes right before the first interval that ends before it, and every interval before that slot ends at or after it |
| `Timeline.PlacedBetweenHalves` | server/main.py:111-116 | an observation strictly inside a span of another state splits that interval and sits between its later and earlier halves |
| `Timeline.PlacedAtEnd` | server/main.py:111-116 | an observation at exactly the end of a covering interval leaves it whole and goes right before the first interval that ends before it, as when nothing covers it |
| `Timeline.PlacedKeepsWellFormed` | server/main.py:107-116 | the absorb or insert step keeps every interval well formed |
| `Timeline.RecordKeepsWellFormed` | server/main.py:107-118 | for any list of well-formed intervals, post_event keeps every interval well formed when the placement's mergeable pairs are in time order; for stored lists `RecordKeepsSettled` provides that hypothesis |
| `Timeline.InsertedPointSettles` | server/main.py:111-116 | a point no interval absorbs, inserted before the first interval that ends before it, is mergeable with neither neighbour |
| `Timeline.SplitPointSettles` | server/main.py:63-72 | a point of another state between the two halves of a split interval leaves no mergeable pair, since the halves keep the interval's outer ends |
| `Timeline.AbsorbMergesOlderInOrder` | server/main.py:91-94 | when the absorbing interval becomes mergeable with the next older one, the pair is in time order and no interval ahead of it equals the older one, so list.remove takes the right one |
| `Timeline.AbsorbThenUnifySettles` | server/main.py:107-117 | after an absorb, the only possible mergeable pair is in time order, and unify leaves the list settled |
| `Timeline.CapKeepsSettled` | server/main.py:118 | the newest 50 intervals of a settled list are settled |
| `Timeline.RecordKeepsSettled` | server/main.py:99-119 | post_event keeps a settled list settled: every interval stays well formed, every merge joins a pair in time order, and no mergeable pair survives |
| `Timeline.ObservationAtSpanEnd` | server/main.py:107-118 | an observation of another state at exactly the end of an older span, too late for its own state's newest interval, goes in front and splits nothing: the result is that exact three-interval list |
| `Timeline.AbsorbOutlastsNewer` | server/main.py:107-109 | absorbing can make an older interval end after a newer interval of another state: the result is that exact list |
| `Timeline.ReconcileConserves` | server/main.py:107-117 | before the cap, one observation adds exactly its timestamp to the multiset of recorded timestamps, and the list is never empty |
| `Timeline.RecordBounds` | server/main.py:118 | the stored list is non-empty, at most 50 long, and the newest prefix of the reconciled list |
| `Timeline.NewestObservationEvictsOldest` | server/main.py:104-118 | an observation later than every idle window, in any state, becomes the newest interval; when the list is full, the oldest interval drops out |
| `Timeline.FirstObservation` | server/main.py:104-116 | a service's first observation gives a single single-point interval |
| `Timeline.RepeatedObservationAbsorbs` | server/main.py:107-109 | repeating a single point's observation extends its timestamps and nothing else |
| `Queries.CurrentStatus` | server/main.py:126-132 | the status is the newest interval's state since its start, or idle since an instant already past, namely the close of its idle window |
| `Queries.StatusOverTime` | server/main.py:125-136 | a service shows its newest interval's state since that interval's start, up to the close of the idle window; after that it shows idle since the window closed, whatever the later time |
| `Server.Registry.GetAllServices` | server/main.py:123-137 | every known service and no other gets the status of its newest interval at time now |
| `Queries.DisplayEnd` | server/main.py:151-156 | the newest interval's end is shown only once its idle window has closed; any older one ends at the next newer interval's start or its own window's close, whichever comes first |
| `Queries.EventOf` | server/main.py:150-162 | each record carries its interval's state and start, and lacks an end exactly for the newest interval while its idle window lasts |
| `Queries.EventsFrom` | server/main.py:149-165 | the walk from a count on never takes the total past 50 records |
| `Queries.LatestEvents` | server/main.py:146-166 | a known service's latest events are never more than 50 |
| `Queries.EventsFromIsPrefix` | server/main.py:146-165 | the counted walk emits exactly the leading records of the uncapped expansion, as many as the remaining allowance permits |
| `Queries.ExpandedSize` | server/main.py:157 | the uncapped expansion has one record per recorded timestamp |
| `Queries.ExpandedRecords` | server/main.py:157-162 | every record of the expansion is the record of some interval of the list |
| `Queries.LatestEventsAreNewestRecords` | server/main.py:146-165 | latest events are the newest min(50, number of timestamps) records of the expansion, each one an interval's record |
| `Queries.LatestEventsStartWithNewest` | server/main.py:149-162 | the newest interval's record leads, repeated once per timestamp up to 50 |
| `Server.WalkEvents` | server/main.py:146-165 | the while loop of get_latest_events returns exactly the latest events |
| `Server.EmitInterval` | server/main.py:150-163 | one round appends the interval's record once per timestamp, up to the allowance, and keeps the count equal to the number of records |
| `Server.Registry.GetLatestEvents` | server/main.py:140-166 | None (the 404 answer) for an unknown service, otherwise its latest events |
| `Server.Registry.PerformReset` | server/main.py:169-173 | the registry becomes empty |
| `Timeline.RecordAsWritten` | server/main.py:107-118 | post_event as written fails exactly when nothing absorbs and some interval covers the timestamp; a failed request leaves the list unchanged, and a successful one records as intended |
| `Timeline.LateObservationFailsAsWritten` | server/main.py:113 | a late observation of another state inside a recorded span fails as written and leaves the list as it was; the intended split records it between the halves |
| `Timeline.SplitOfEntryAsWritten` | server/main.py:63-72 | split with lines 66-67 reading the entry, the rest as written: it fails exactly when a half is empty; with an empty later half the interval is already removed, and the list is one shorter and has lost exactly its timestamps |
| `Timeline.SplitOfEntryAgrees` | server/main.py:63-72 | with both halves non-empty, the split with lines 66-67 reading the entry and the intended split agree |
| `Timeline.EndpointSplitLosesInterval` | server/main.py:66-70 | at an interval's end, the split with lines 66-67 reading the entry deletes the interval and fails; the intended split keeps the list as it was and returns the insert slot |
| `Timeline.SplitAtEndKeepsInterval` | server/main.py:63-72 | at exactly the end of a well-formed interval, the intended split leaves the list unchanged and returns the slot find_location_to_insert would give |
| `Scenarios.Replay` | server/main.py:99-119 | recording a non-empty series of observations leaves between one and 50 intervals |
| `Scenarios.RepeatedObservationKeepsOnePoint` | server/main.py:107-109 | the same observation sent n times gives one single-point interval holding all n timestamps |
| `Scenarios.HappyFlow` | tests/test_application.py:19-31 | one observation, read within the idle window: the only service shows its state since that timestamp |
| `Scenarios.IdleFlow` | tests/test_application.py:33-45 | one observation, read after the idle window: the only service is idle since the timestamp plus 10 |
| `Scenarios.OtherStateOpensInterval` | tests/test_application.py:50-54 | a second, later observation of another state opens a newer interval |
| `Scenarios.SameStateWidensInterval` | tests/test_application.py:52-57 | a third observation of the newest state within tolerance widens that interval |
| `Scenarios.ChangingStateEvents` | tests/test_application.py:66-78 | the resulting three records: two for s2 with no end, then s1 ending at t2 |
| `Scenarios.RecordChangingState` | tests/test_application.py:47-57 | the three observations of the test leave exactly one interval per state, newest first |
| `Scenarios.ChangingState` | tests/test_application.py:47-78 | the whole test: status s2 since t2, and exactly those three latest events |
| `Scenarios.ResetForgetsServices` | server/main.py:169-173 | after a reset, a known service's events answer 404 and the status map is empty |

## Left out

- HTTP routing, JSON parsing and serialisation, and Flask are not modelled: each handler is a method that takes its parsed arguments.
- A request body missing a key fails in the source with a KeyError; the model takes the three fields as given.
- `time.time()` is the parameter `now`. Timestamps are unbounded integers, not Python floats, so floating-point rounding is not modelled.
- Concurrent requests are not modelled. The source has no locking, and the model runs every handler atomically.
- The source updates interval dictionaries in place through aliases (search returns the dictionary itself). The model addresses intervals by index in a sequence of values. `list.remove` by value equality is kept: `RemoveFirst` deletes the first equal interval.
- Server.Registry.GetAllServices: requires `Valid()` (every stored list non-empty). The source reads `l[0]` without a check and would raise on an empty list. No reachable state has one, because the constructor, PostEvent and PerformReset keep `Valid()`.
- Timeline.SplitAt: models the split as evidently intended (see Findings), not as written. The halves come from the located interval's timestamps, and the call gets the timestamp. An empty half is not inserted. When the later half is empty, nothing is actually split, and the new point goes where find_location_to_insert would put it. Putting it at the split position would break well-formedness instead: `[B 100, A 95..111 (95, 101, 111)]` followed by an observation `B` at 111 gives, after the merge, an interval `B` with start 111 and end 100.
- The intervals of a list are not kept in time order. The model claims no ordering beyond what each step promises; `AbsorbOutlastsNewer` shows an older interval ending after a newer one.
- Timeline.Record: the intended split is what PostEvent uses. The as-written behaviour is kept alongside as `RecordAsWritten` (the failing call at line 113) and `SplitOfEntryAsWritten` (split itself).
- Timeline.SplitOfEntryAsWritten: has lines 66-67 read the located interval's timestamps. Taken literally, line 66 indexes the list with the key "timestamps" and raises a TypeError before line 68 removes anything, so literally split never changes the list. Line 113 never reaches split anyway, as `RecordAsWritten` states. The member shows what goes wrong once that indexing is corrected.
- Timeline.SplitOfEntryAgrees: compares the intended split with split whose lines 66-67 read the entry, not with the literal line 66, which always raises.
- Timeline.EndpointSplitLosesInterval: shows the empty-half failure of split whose lines 66-67 read the entry. The literal line 66 raises before the interval is removed.
- The property that intervals of the list never overlap is not claimed, because the source does not keep it: absorbing widens an interval by up to IDLE_DELTA, and that can make it overlap a newer interval of another state.
- The application tests sample `time.time()` between requests. The scenarios take those times as parameters constrained as the tests need them. The reset at the start of each test is an empty registry.

## Findings

| source | as written | input that shows it | evidently intended | confidence | as-written member | corrected member |
|---|---|---|---|---|---|---|
| server/main.py:113 | `split(service_name, location)` is called without the timestamp that split requires, so every observation that reaches the split branch raises a TypeError and the request fails | service with `[up 0..20, timestamps [0, 20]]`, observation `down` at 10 | pass the timestamp, split the covering interval and put the new point between its halves | high (not executed) | `Timeline.LateObservationFailsAsWritten` | `Timeline.PlacedBetweenHalves` |
| server/main.py:66-70 | the halves are filtered from `service_data["timestamps"]`, the list, instead of `entry["timestamps"]`, which raises a TypeError; even when corrected to the entry, an empty half reaches `min([])` after the interval has already been removed at line 68 | interval `up 0..20, timestamps [0, 20]`, split at 20: the upper half is empty | take the halves from the entry and skip an empty half, so that the interval is never lost; with no later half, place the point where find_location_to_insert would | high (not executed) | `Timeline.EndpointSplitLosesInterval` | `Timeline.SplitAtEndKeepsInterval` |
