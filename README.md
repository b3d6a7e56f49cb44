# User session time statistics — a verified model of the core

The service collects session start and end events. It pairs them into completed sessions
and keeps those that ended within a trailing retention period. It then answers two
duration queries: one over all live sessions and one over a single user's. The mean and
median endpoints are computed over those answers with integer arithmetic.

The model has five modules.

- `SessionTypes` holds the two values that the components exchange: `Session` and
  `SessionsInfo`.
- `StartedSessionsManager` models the event pairing.
  - The open sessions are a map keyed by `userId + "/" + sessionId`.
  - The function `Step` is the reference for one event.
  - The class `StartedSessions` holds that map as a field, and `HandleEvent` updates it in
    place.
- `SessionWindow` gives the registrar's contents as a value: a sequence of sessions, oldest
  first.
  - It defines the expiry sweep (`Sweep`), a user's view (`ForUser`) and the list of
    durations (`Durations`).
  - It also gives a reference definition of the window (`Live`).
  - It proves that lazy sweeping at every access yields exactly the window, whenever
    sessions arrive in order of end time and the clock does not go back.
- `SessionsRegistrar` models the registrar as the heap structure that the code builds.
  - Every `SessionRecord` sits in two circular doubly-linked lists, each anchored by a
    sentinel record. One list is global, in insertion order. The other is its user's list,
    rooted in a `UserInfo` bucket held in the `users` map.
  - The ghost sequence `records` is the global list. A user's list is the subsequence of
    `records` owned by that user.
  - The ghost maps `nexts`, `prevs`, `nextUsers` and `prevUsers` mirror the four pointer
    fields.
  - `Valid()` ties the lists to the pointers. It states four things: both link pairs form
    circles; every user's circle holds exactly that user's records, in global order; no
    bucket is empty; and every bucket sentinel differs from the records, from the global
    sentinel and from the other buckets' sentinels.
  - Each operation keeps `Valid()`. Each states its effect on `Sessions()` in terms of the
    `SessionWindow` functions.
  - `RunAccesses` runs a sequence of accesses on a fresh registrar. Its contents are those
    of `Replay`, so the expiry invariant carries over to the heap structure.
- `StatFunctions` models the statistics.
  - The mean uses Go's truncating division, made explicit as `TruncDiv`.
  - The median sorts the caller's array in place, using only `Len`, `Less` and `Swap`,
    then indexes it exactly as the code does.

Two inputs come from outside the modelled code and are parameters of the model:

- The current time in milliseconds is a parameter `now`. It stands for
  `time.Now().UnixNano() / 1000000`.
- The retention period `StatPeriod` lives in a settings package that is not part of this
  model. Here it is the constructor parameter `statPeriod` of the registrar.

The behaviour follows the code in two places where one might expect otherwise. First, the
median sorts the caller's slice in place rather than a copy. Second, the even-length
formula averages positions `l/2 - 1` and `l/2 + 1`, exactly as the code does, rather than
the two middle values. The conventional median is modelled beside it; see Findings.

## Model

| member | source | states |
|---|---|---|
| SessionWindow.Sweep | src/sessions_registrar.go:110-112 | The sweep keeps at most the original sessions; whatever survives starts with a session that ended at or after the threshold |
| SessionWindow.SweepIsSuffix | src/sessions_registrar.go:111-125 | The sweep removes only a prefix: the result is a suffix of the input |
| SessionWindow.SweepDropsExpired | src/sessions_registrar.go:112 | Every removed session ended strictly before the threshold |
| SessionWindow.SweepKeepsThreshold | src/sessions_registrar.go:112 | A session ending exactly at the threshold is kept, because the comparison is strict `<` |
| SessionWindow.SweepTwice | src/sessions_registrar.go:108-126 | Sweeping at an earlier threshold and then a later one equals sweeping once at the later one |
| SessionWindow.SweepAppend | src/sessions_registrar.go:135-148 | Appending then sweeping: the new session survives behind the survivors, or is judged alone when none survive |
| SessionWindow.LazySweep | src/sessions_registrar.go:128-149 | Sweeping at t1, inserting, then sweeping at t2 >= t1 equals sweeping the whole history at t2 |
| SessionWindow.Live | src/sessions_registrar.go:108-126 | Reference window: the sessions that ended at or after the threshold, at most as many as the input |
| SessionWindow.LiveMembers | src/sessions_registrar.go:108-126 | A session is in the window if and only if it is in the history and ended at or after the threshold |
| SessionWindow.SweepOfNonDecreasing | src/sessions_registrar.go:151-159 | When end times are non-decreasing, the prefix sweep equals the reference window |
| SessionWindow.ReplayIsSweepOfHistory | src/sessions_registrar.go:81-106 | Any interleaving of inserts and queries with a non-decreasing clock leaves the whole insert history swept once at the latest time |
| SessionWindow.StepOfHistory | src/sessions_registrar.go:128-160 | One access on a history swept at an earlier time leaves that history, with the inserted session if any, swept at the access's time |
| SessionWindow.ReplayStep | src/sessions_registrar.go:84-105 | Replaying one more access applies that access to the contents so far |
| SessionWindow.AfterInsert | src/sessions_registrar.go:128-149 | An insert leaves the old contents plus the new session, swept at the insert's time |
| SessionWindow.AfterQuery | src/sessions_registrar.go:151-153 | A query leaves the old contents swept at the query's time |
| SessionWindow.ExpiryInvariant | src/sessions_registrar.go:151-159 | With in-order end times and a non-decreasing clock, the registrar holds exactly the sessions inside the window |
| SessionWindow.ForUser | src/sessions_registrar.go:162-176 | A user's view is no longer than the whole list |
| SessionWindow.ForUserMembers | src/sessions_registrar.go:140-145 | A user's view holds exactly the sessions of that user |
| SessionWindow.ForUserAppend | src/sessions_registrar.go:140-145 | Appending a session extends exactly its own user's view, at the end |
| SessionWindow.ForUserIsSubsequence | src/sessions_registrar.go:136-145 | A user's view is an ordered subsequence of the global list |
| SessionWindow.OldestIsUsersFirst | src/sessions_registrar.go:116-123 | The oldest session is the first of its user's view; removing it shortens that view at the front and no other view |
| SessionWindow.ForUserOfSweep | src/sessions_registrar.go:113-124 | The sweep takes a suffix of every user's view, so the survivors keep their order |
| SessionWindow.Durations | src/sessions_registrar.go:155-158 | The durations list has one entry per session, position by position |
| SessionsRegistrar.SessionRecord.InitAsLatest | src/sessions_registrar.go:30-38 | A fresh sentinel is a self-loop in both link pairs, has no owner and zero timestamp and duration |
| SessionsRegistrar.SessionRecord.constructor | src/sessions_registrar.go:135-147 | A new record carries the session's bucket, end time and duration, and is not yet linked |
| SessionsRegistrar.UserInfo.constructor | src/sessions_registrar.go:130-132 | A new bucket has the user's id and a fresh self-looping sentinel |
| SessionsRegistrar.SessionsRecords.constructor | src/sessions_registrar.go:82-83 | The registrar starts well formed, with no users and no sessions |
| SessionsRegistrar.CircleAppend | src/sessions_registrar.go:136-139 | The four writes that insert before the sentinel append the element to the circle |
| SessionsRegistrar.CircleRemoveFirst | src/sessions_registrar.go:113-115 | The two writes that join the sentinel to the second element remove the first from the circle |
| SessionsRegistrar.CircleDistinct | src/sessions_registrar.go:20-28 | The elements of a circle that avoids its sentinel are pairwise distinct |
| SessionsRegistrar.CircleDistinctFrom | src/sessions_registrar.go:20-28 | Two positions of such a circle hold different records |
| SessionsRegistrar.CircleFrame | src/sessions_registrar.go:20-28 | A circle depends only on the links of its own elements |
| SessionsRegistrar.CircleNextElsewhere | src/sessions_registrar.go:136 | Redirecting the next link of a record outside a circle keeps that circle |
| SessionsRegistrar.CirclePrevElsewhere | src/sessions_registrar.go:143 | Redirecting the previous link of a record outside a circle keeps that circle |
| SessionsRegistrar.CircleSingleton | src/sessions_registrar.go:117-118 | The first element is the only one exactly when its next link leads back to the sentinel |
| SessionsRegistrar.UserRecordsSound | src/sessions_registrar.go:140-145 | A user's list holds only records of the global list that belong to that user |
| SessionsRegistrar.UserRecordsHead | src/sessions_registrar.go:116-123 | The evicted global head is the first record of its user's list; removing it shortens only that list |
| SessionsRegistrar.UserRecordsAppend | src/sessions_registrar.go:140-145 | Appending a record to the global list appends it to its user's list and to no other |
| SessionsRegistrar.UserRecordsEmpty | src/sessions_registrar.go:118-119 | A user's list is empty if and only if the user owns no record |
| SessionsRegistrar.UserRecordsComplete | src/sessions_registrar.go:140-145 | Every record of a user in the global list is in that user's list |
| SessionsRegistrar.SessionsOfTail | src/sessions_registrar.go:113-115 | Dropping the first record drops the first session |
| SessionsRegistrar.SessionsOfAppend | src/sessions_registrar.go:135-147 | Appending a record appends its session |
| SessionsRegistrar.DurationsOfRecords | src/sessions_registrar.go:155-158 | Durations read off records are the durations of the sessions they stand for |
| SessionsRegistrar.SessionsOfUserRecords | src/sessions_registrar.go:170-174 | A user's list, read as sessions, is that user's view of all sessions |
| SessionsRegistrar.OwnedNewBucket | src/sessions_registrar.go:129-134 | A new bucket with a fresh sentinel keeps every ownership fact |
| SessionsRegistrar.OwnedAppend | src/sessions_registrar.go:140-141 | A new record owned by an existing bucket keeps every ownership fact |
| SessionsRegistrar.OwnedTail | src/sessions_registrar.go:116-119 | Dropping the oldest record keeps ownership, and so does dropping the bucket of a user left without records |
| SessionsRegistrar.UserCirclesNewBucket | src/sessions_registrar.go:129-134 | A new bucket leaves every user circle as it was, and its own circle is the sentinel alone |
| SessionsRegistrar.OtherCircleAppend | src/sessions_registrar.go:142-145 | Appending to one user's circle keeps any other user's circle |
| SessionsRegistrar.UserCircleAppendOne | src/sessions_registrar.go:142-145 | Appending a record to its user's circle keeps the circle of any user, that one included |
| SessionsRegistrar.UserCirclesAppend | src/sessions_registrar.go:142-145 | Appending a record to its user's circle keeps every user circle |
| SessionsRegistrar.UserCirclesEvictLast | src/sessions_registrar.go:118-119 | Dropping the oldest record together with its user's bucket keeps every other user circle |
| SessionsRegistrar.UserCirclesEvict | src/sessions_registrar.go:120-123 | Unlinking the oldest record from the front of its user's circle keeps every user circle |
| SessionsRegistrar.NewBucketKeepsShape | src/sessions_registrar.go:129-134 | A new bucket keeps ownership and linking; its sentinel self-loops |
| SessionsRegistrar.AppendKeepsShape | src/sessions_registrar.go:135-147 | Appending a record at the newest end of both circles keeps ownership and linking |
| SessionsRegistrar.EvictLastKeepsShape | src/sessions_registrar.go:113-119 | Evicting a user's last record and deleting the bucket keeps the shape, and no bucket becomes empty |
| SessionsRegistrar.EvictKeepsShape | src/sessions_registrar.go:113-123 | Evicting a record whose user has more records and unlinking it from the user's list keeps the shape, and no bucket becomes empty |
| SessionsRegistrar.AllLiveAppend | src/sessions_registrar.go:129-147 | After an append, no bucket is empty, the appended user's included |
| SessionsRegistrar.UserSuccessorOwned | src/sessions_registrar.go:117 | The oldest record's user successor is a record or sentinel of the registrar |
| SessionsRegistrar.SessionsRecords.BucketsAreLiveUsers | src/sessions_registrar.go:118-119 | A user has a bucket if and only if the user has a live session |
| SessionsRegistrar.SessionsRecords.RemoveExpiredRecords | src/sessions_registrar.go:108-126 | Keeps the structure valid; the contents become the sweep of the old contents at `now - statPeriod`; surviving buckets are unchanged |
| SessionsRegistrar.SessionsRecords.EvictOldest | src/sessions_registrar.go:113-124 | One iteration: the oldest record leaves the global list; surviving buckets are unchanged; the result is the new oldest record |
| SessionsRegistrar.SessionsRecords.ReadyToDropBucket | src/sessions_registrar.go:118-119 | After the global unlink, when the record was its user's last, everything is well formed except the bucket of that user |
| SessionsRegistrar.SessionsRecords.DropBucket | src/sessions_registrar.go:119 | Deleting that bucket restores validity and removes exactly that key |
| SessionsRegistrar.SessionsRecords.ReadyToUnlinkFromUser | src/sessions_registrar.go:120-123 | After the global unlink, when the user has more records, only the two user-list writes are missing |
| SessionsRegistrar.SessionsRecords.UnlinkFromUser | src/sessions_registrar.go:121-122 | The two user-list writes restore validity, with records, users and footprint unchanged |
| SessionsRegistrar.SessionsRecords.UnlinkOldest | src/sessions_registrar.go:113-115 | The two global writes drop the first record and redirect exactly the sentinel's next link and the second record's previous link |
| SessionsRegistrar.SessionsRecords.UnlinkOldestOfUser | src/sessions_registrar.go:121-122 | The two user writes redirect exactly the user sentinel's next link and the second record's previous link |
| SessionsRegistrar.SessionsRecords.ProcessSession | src/sessions_registrar.go:128-149 | Keeps validity; the contents become the sweep of the old contents plus the new session; existing buckets are kept and at most the session's user gains one |
| SessionsRegistrar.SessionsRecords.AddSession | src/sessions_registrar.go:129-147 | Appends the session to the contents; creates a bucket only when the user has none and otherwise leaves `users` unchanged |
| SessionsRegistrar.SessionsRecords.AddBucket | src/sessions_registrar.go:129-134 | Adds exactly one new key, with a fresh sentinel, ready for the first record |
| SessionsRegistrar.SessionsRecords.AddSentinel | src/sessions_registrar.go:131 | The new sentinel joins the footprint as a self-loop in all four link maps |
| SessionsRegistrar.SessionsRecords.AppendRecord | src/sessions_registrar.go:135-147 | The new record becomes the newest of the global list and of its user's list; the contents gain the session |
| SessionsRegistrar.SessionsRecords.LinkValid | src/sessions_registrar.go:136-145 | The eight writes, given well-formed targets, yield a valid registrar holding the new record last |
| SessionsRegistrar.SessionsRecords.Link | src/sessions_registrar.go:136-145 | The eight writes append the record to both circles, link map by link map |
| SessionsRegistrar.SessionsRecords.LinkAsNewest | src/sessions_registrar.go:136-139 | The four global writes insert the record between the newest record and the sentinel |
| SessionsRegistrar.SessionsRecords.LinkAsNewestOfUser | src/sessions_registrar.go:142-145 | The four user writes insert the record between the user's newest record and the user's sentinel |
| SessionsRegistrar.SessionsRecords.CreateAllDurationsList | src/sessions_registrar.go:151-160 | Sweeps, then returns the durations of all live sessions, oldest to newest |
| SessionsRegistrar.SessionsRecords.AllDurations | src/sessions_registrar.go:154-158 | The walk of the global list yields the durations of the contents in order |
| SessionsRegistrar.SessionsRecords.CreateDurationsList | src/sessions_registrar.go:162-176 | Sweeps, then returns the user's durations in insertion order, or nothing for a user without a bucket; no bucket is added |
| SessionsRegistrar.SessionsRecords.UserDurations | src/sessions_registrar.go:169-175 | The walk of a user's list yields the durations of that user's view |
| SessionsRegistrar.SessionsRecords.Serve | src/sessions_registrar.go:98-103 | An empty user id is answered with all durations, any other with that user's; the request's user id is kept; no bucket is added or replaced |
| SessionsRegistrar.SessionsRecords.Apply | src/sessions_registrar.go:87-103 | An insert is processed and a query answered; the contents become those of the access applied to the old contents |
| SessionsRegistrar.RunAccesses | src/sessions_registrar.go:81-106 | A fresh registrar that runs the accesses in order holds their replay; with in-order end times and a non-decreasing clock, exactly the sessions inside the window |
| StartedSessionsManager.StartedSessions.constructor | src/started_sessions_manager.go:29 | There are no open sessions at the start |
| StartedSessionsManager.StartedSessions.HandleEvent | src/started_sessions_manager.go:40-61 | The new map and the emitted session are those of the reference step |
| StartedSessionsManager.StartOverwrites | src/started_sessions_manager.go:43-44 | A start stores its time under its key, replacing an earlier start, keeps every other key and emits nothing |
| StartedSessionsManager.EndForgetsKey | src/started_sessions_manager.go:58 | After an end event, matched or not, its key is gone and every other key is unchanged |
| StartedSessionsManager.EndEmitsIffMatched | src/started_sessions_manager.go:45-57 | An end emits if and only if a start is stored and the end is strictly later; the session has that user, the end time and the difference as duration |
| StartedSessionsManager.EmittedSessionIsPositive | src/started_sessions_manager.go:50-55 | Every emitted session has a positive duration, the event's user and the event's time |
| StartedSessionsManager.GlobalSessionIdInjective | src/started_sessions_manager.go:37-40 | Keys of two sessions are equal only for equal user and session ids, provided no user id contains '/' |
| StartedSessionsManager.SlashPosition | src/started_sessions_manager.go:40 | In such a key the first '/' is the separator |
| StartedSessionsManager.GlobalSessionIdCollision | src/started_sessions_manager.go:37-40 | Without that proviso the sessions ("a/b", "c") and ("a", "b/c") share a key |
| StatFunctions.TruncDiv | src/stat_functions.go:15 | Go's integer division: the remainder is smaller than the divisor and has the sign of the dividend |
| StatFunctions.CalcMean | src/stat_functions.go:7-16 | Returns 0 for no values, otherwise the sum divided by the count, truncated toward zero |
| StatFunctions.SumBounds | src/stat_functions.go:11-14 | Bounds on every value bound the sum by the count times the bound |
| StatFunctions.ProductSign | src/stat_functions.go:15 | A product with a positive count has the sign of the other factor |
| StatFunctions.ProductOrder | src/stat_functions.go:15 | Multiplying by a positive count preserves and reflects order |
| StatFunctions.QuotientBounds | src/stat_functions.go:15 | The truncated quotient of a sum between lo·n and hi·n lies between lo and hi |
| StatFunctions.MeanWithinBounds | src/stat_functions.go:11-15 | The mean of a non-empty list lies between any lower and upper bound of all its values |
| StatFunctions.MeanOfSingleton | src/stat_functions.go:11-15 | The mean of one value is that value |
| StatFunctions.MeanExamples | src/stat_functions.go:7-16 | The mean of no values is 0, and the examples 10, 20, 30 give 20 and 1, 2 gives 1 |
| StatFunctions.Swap | src/stat_functions.go:21 | Exchanges exactly the two elements and changes nothing else |
| StatFunctions.InsertionStart | src/stat_functions.go:26 | An ordered prefix followed by a new element is an insertion in progress |
| StatFunctions.InsertionStep | src/stat_functions.go:21-22 | Swapping the element with a strictly larger left neighbour moves the gap one place left |
| StatFunctions.InsertionDone | src/stat_functions.go:22 | An insertion that stops at the start, or next to an element that is not larger, leaves the prefix sorted |
| StatFunctions.SortInPlace | src/stat_functions.go:26 | Leaves the array ascending and a permutation of its old contents |
| StatFunctions.Insert | src/stat_functions.go:26 | One insertion pass extends the sorted prefix by one element and permutes the array |
| StatFunctions.CalcMedian | src/stat_functions.go:24-34 | Leaves the caller's array sorted and a permutation of itself; returns the median as written; the length must not be 2 |
| StatFunctions.AverageBetween | src/stat_functions.go:30 | The truncated average of two ordered values lies between them |
| StatFunctions.ConventionalMedianSplits | src/stat_functions.go:27-33 | The conventional median of sorted values bounds the lower half from above and the upper half from below, for every length |
| StatFunctions.WrittenMedianOdd | src/stat_functions.go:31-32 | For odd length the formula as written returns element `l/2`, which is the conventional median |
| StatFunctions.WrittenMedianEvenCounterexample | src/stat_functions.go:29-30 | On [1, 2, 3, 10] the formula as written gives 6, where the conventional median gives 2; 6 does not split the values in halves |
| StatFunctions.WrittenMedianIndexPastEnd | src/stat_functions.go:29-32 | The indices the formula reads are inside the slice for every length except 2; for two values the second index is 2, the length of the slice |
| StatFunctions.MedianExamples | src/stat_functions.go:27-33 | Median of none is 0, of [5] is 5, of [1, 3, 5] is 3; 10, 20, 30 give median and mean 20 |

`Len` (src/stat_functions.go:20) and `Less` (src/stat_functions.go:22) are the one-line
accessors. They are modelled as a function and a predicate, and the sort uses only them
and `Swap`. They have no contract of their own.

## Left out

- The goroutine `select` loop in `sessionsRegistrar` and its priority between the insert
  channel and the request channel are left out. That is scheduling, not logic. Only the
  per-request dispatch (`Serve`) is modelled, and `Replay` stands for a sequence of
  accesses.
- The `for event := range` loop over the event channel is left out. One event is one
  `HandleEvent` call. The session it would send on the channel is returned instead.
- The `default: panic` branch of the event switch is left out. The two-constructor
  `EventType` rules it out.
- src/main.go (HTTP routing, JSON decoding, the statistics endpoints' I/O) is not part of
  this model.
- The `./settings` package is not part of this model. `StatPeriod` is the registrar's
  constructor parameter, and the channel buffer sizes do not appear.
- Wall-clock time is left out. `time.Now()` becomes the `now` parameter, in milliseconds.
- CalcMean: does not model overflow of the int64 `sum +=`, because Dafny integers are
  unbounded; Go's truncating division is modelled (TruncDiv).
- CalcMedian: does not model overflow of the int64 addition of the two middle elements,
  for the same reason.
- Go's `sort.Sort` algorithm is not modelled. SortInPlace is an insertion sort over
  `Len`, `Less` and `Swap`, with the same contract: sorted, and a permutation.
- Garbage collection of unlinked records is left out. An evicted record keeps its stale
  pointers, as in the source. It stays in the ghost footprint `Repr`, and the link maps
  still mirror its stale pointers, but it is no longer in `records`. `Repr`, `bucketOf`
  and the four link maps are ghost bookkeeping for the proof.
- CreateDurationsList: the source deletes the absent key at src/sessions_registrar.go:166,
  which leaves the map unchanged. The model states the unchanged map instead of
  performing the deletion.
- Order of the payload writes: the source writes `userInfo` at
  src/sessions_registrar.go:141, after the four global link writes, and writes
  `endTimestamp` and `duration` at lines 146-147, after all eight link writes. In the model
  these three are constructor-set constants of `SessionRecord`, so they are set before any
  link. Nothing reads them in between, so the states at the end of `processSession` agree.
- The inline statement sequences of `processSession` and `removeExpiredRecords` are
  split into helper methods: `AddBucket`, `AppendRecord`/`Link`, and
  `EvictOldest`/`UnlinkOldest`/`UnlinkFromUser`/`DropBucket`. The order of the link
  writes is kept.
- HandleEvent: does not model the int64 wrap-around of `endTimestamp - startTimestamp`
  at src/started_sessions_manager.go:49, because Dafny integers are unbounded. The
  model's `Step` also computes the exact difference. So for a start at -2^63 and an end at
  1 the source's difference wraps negative and nothing is sent, while the model emits a
  session. For a start at 1 and an end at -2^63 the source's difference wraps to 2^63 - 1
  and a session is sent, while the model emits nothing.

## Findings

| source | as written | input that shows it | evidently intended | confidence | as-written member | corrected member |
|---|---|---|---|---|---|---|
| src/stat_functions.go:30 | for even length the median averages the sorted values at `l/2 - 1` and `l/2 + 1` | [1, 2, 3, 10]: averages 2 and 10 into 6, above both middle values | the average of the two middle values at `l/2 - 1` and `l/2`, 2 here | not executed | StatFunctions.WrittenMedianEvenCounterexample | StatFunctions.ConventionalMedianSplits |
| src/stat_functions.go:30 | for two values the index `l/2 + 1` is 2, past the end of the slice, so Go panics; every other length reads inside the slice | any two durations, e.g. [1, 2] | the average of the two values, 1 here | not executed | StatFunctions.WrittenMedianIndexPastEnd | StatFunctions.ConventionalMedianSplits |

`CalcMedian` and `WrittenMedian` keep the formula as written, with the precondition
`length != 2` that avoids the panic. Silently fixing the formula would change the
behaviour that the endpoints expose. `ConventionalMedian` is the corrected definition,
and `ConventionalMedianSplits` proves the median property about it for every length.
Nothing else in the model consumes the median.
