# Entry-stream pipeline: a verified model

A Dafny model of the entry stream of the fan-out benches and of the state machines that consume it, with
proofs of what each of them keeps over every run. `dafny verify dfyconfig.toml` checks the whole project.

| file | component |
|---|---|
| `Common.dfy` | saturating arithmetic, hashes, ordered views of key sets, totals of recorded numbers |
| `PohSlot.dfy` | one slot of the PoH supervisor as a value: emission, reorder buffer, sealing, and what a log says |
| `Lifetimes.dfy` | things that arrive, are forgotten and arrive again, and how many lifetimes they have |
| `PohTrack.dfy` | one slot followed through a whole run: its lifetimes and how many there are |
| `PohSupervisor.dfy` | the whole supervisor as a value: isolation of slots, lifecycle events |
| `PohCanonical.dfy` | order independence |
| `PohResources.dfy` | bounds and conservation |
| `PohLaws.dfy` | what sweeps, flushes, arrivals and counters must do, said without the functions that do it |
| `PohMachine.dfy` | the supervisor as objects updated in place, proved to refine the value |
| `Merger.dfy` | both entry mergers |
| `Pipeline.dfy` | merger and supervisor joined |
| `SlotHashCache.dfy` | the rolling hash cache and hash-chain extrapolation |
| `NonceManager.dfy` | the round-robin nonce pool |
| `Matcher.dfy` | the matcher: live attempts, signature index, final records |
| `Recorder.dfy` | the recorder as a value: attempts, rows and aggregates |
| `RecorderLaws.dfy` | the recorder on its inputs alone: live attempts, rows, measurements, senders and triggers |
| `RecorderMachine.dfy` | the recorder as an object updated in place, proved to refine the value |
| `Ordering.dfy` | the per-slot ordering tracker |
| `Observer.dfy` | the observer as a value: tick accounting, triggers, signature matching, lifetimes of slots |
| `ObserverLaws.dfy` | the observer on its inputs alone: cache updates, matches, counters, evictions; joined to the cache |
| `ObserverMachine.dfy` | the observer as an object updated in place, proved to refine the value |

## How it is modelled

- Code that changes state in place is a class whose methods are proved equal to, or described by, functions on
  values; the theorems about whole runs are about those functions.
- Each handler call is one atomic step, and a run is any sequence of such steps. Time is a number passed into a
  step (nanoseconds); no proof needs it to be monotone unless it says so.
- A channel is the sequence of everything offered to it, accepted or not.
- Hashes are numbers known only by equality; the hash function of the chain is a parameter.
- 64-bit saturation is explicit where the source saturates. Other integers are unbounded.
- The dedup window, a constant in the source (200 slots in the fast merger, 50 in the plain one), is a parameter,
  so the results hold for every value; the two mergers agree when it is the same and, by
  `Merger.OwnWindowsDisagree`, not with their own values. The 62,500 hashes per tick, 64 ticks
  per slot and 64 kept observer slots are the source's constants.

## Where code and documentation differ

- "Never both, never neither" (`poh_supervisor.rs` lines 14-16) fails for a slot whose state a sweep dropped and
  which then receives another entry: it starts again at index 0 and gets another lifecycle event.
  `PohSupervisor.LateArrivalRestartsSlot` is such a run, and `PohSupervisor.NeverBothNeverNeither` gives the exact
  condition.
- A gap not filled within `entry_timeout` should yield `Missing` (`poh_supervisor.rs` lines 11-13). A sweep looks
  only at when the lowest waiting index was last put into the buffer: `PohResources.GapGivenUpExactly`. A gap stays
  open longer when that index arrives again, which renews its time (`PohResources.RenewedEntryKeepsGapOpen`), or
  when a lower index came later (`PohResources.OverdueEntryStaysBuffered`; `PohResources.OverdueSurvivesExactly` for
  each waiting entry).
- The merger is documented to emit each unique entry exactly once (`merger.rs` lines 4-5). A key that returns after
  an arrival evicted it is emitted again, and no other: `Merger.EmittedTwiceExactly`,
  `Merger.EvictedKeyEmittedTwice`.
- The ordering tracker is documented (`ordering.rs` lines 24-27) to count late entries of a sealed slot against
  its frozen highest index. The code opens a new report for each, which shows no disorder:
  `OrderingTracking.LateDisorderGoesUnseen`. `OrderingTracking.DisorderReportedExactly` and
  `OrderingTracking.DisorderCompleteExactly` say exactly when the reports are right.
- The last-entry figures of a report are documented as those of the highest-index entry; a slot whose only index
  is 0 never records one: `OrderingTracking.LastEntryIsTopExactly`.
- A trigger may land more than once in the matcher, when an attempt registered after its first match lands by its
  own signature: `Matcher.LateSiblingLandsAgain`, and exactly when, `Matcher.AtMostOneLanded`.
- The observer's set of fired ticks is there to fire no tick of a slot twice. It never stops a trigger, and a slot
  dropped and seen again may fire its ticks again: `Observing.ForgottenSlotFiresTwice`, and exactly when,
  `Observing.FiresAgainExactly`.

## Model

| member | source | states |
|---|---|---|
| `PohSlot.Flush` | crates/tick-trigger-fan-out-bench/src/poh_supervisor.rs:296-313 | draining, sweeping past stale gaps and sealing are one flush that ends exactly when its own stop condition holds, keeps the buffer above the expected index and tags every event with its slot |
| `PohSlot.EntryKeepsOpen` | crates/tick-trigger-fan-out-bench/src/poh_supervisor.rs:315-379 | after an entry is emitted, the slot's account is still what its log says: index, saturated hash sum, tick (never falling, and counting the zero-transaction entries so far and some of the late ones), counts, last hash, uncertainty |
| `PohSlot.MissingKeepsOpen` | crates/tick-trigger-fan-out-bench/src/poh_supervisor.rs:381-414 | the same after a `Missing`: it carries the expected index and makes every later entry uncertain |
| `PohSlot.FlushKeepsOpen` | crates/tick-trigger-fan-out-bench/src/poh_supervisor.rs:430-451 | no flush, in any mode, breaks the gapless order or the account |
| `PohSlot.ArriveKeepsOpen` | crates/tick-trigger-fan-out-bench/src/poh_supervisor.rs:258-293 | no arrival does either; an arrival below the expected index without transactions adds to the tick and to nothing else |
| `PohSlot.SealCloses` | crates/tick-trigger-fan-out-bench/src/poh_supervisor.rs:472-536 | sealing appends the rest of the gapless body and then exactly one lifecycle event, `SlotComplete` if and only if 64 zero-transaction entries were emitted or dropped below the expected index |
| `PohTrack.EveryRunIsGapless` | crates/tick-trigger-fan-out-bench/src/poh_supervisor.rs:9-20 | in every run and under every interleaving, each lifetime of a slot has indices 0, 1, 2, ... without skip or repeat, and a finished one ends with its single lifecycle event |
| `PohTrack.EveryLifetimeCloses` | crates/tick-trigger-fan-out-bench/src/poh_supervisor.rs:232-238 | after the shutdown flush every lifetime of every slot is closed |
| `PohTrack.TrackCountsBirths` | crates/tick-trigger-fan-out-bench/src/poh_supervisor.rs:467-469 | a slot is in memory exactly when it arrived and no later sweep forgot it, and it has one lifetime per arrival that found it absent, both read off the inputs alone |
| `PohTrack.LifetimeCount` | crates/tick-trigger-fan-out-bench/src/poh_supervisor.rs:247-247 | the number of lifetimes of a slot over a whole run |
| `PohTrack.MoreThanOneLifetime` | crates/tick-trigger-fan-out-bench/src/poh_supervisor.rs:467-469 | a slot has more than one lifetime if and only if some arrival follows a sweep that forgot it |
| `PohTrack.ExactlyOneLifecycle` | crates/tick-trigger-fan-out-bench/src/poh_supervisor.rs:14-16 | "never both, never neither": at least one lifetime, and exactly one if and only if the slot is not restarted |
| `PohTrack.PromptArrivalsNeverRestart` | crates/tick-trigger-fan-out-bench/src/poh_supervisor.rs:468-469 | arrivals above the memory cutoff never restart a slot |
| `Lifetimes.SameLifetimeExactly` | crates/tick-trigger-fan-out-bench/src/poh_supervisor.rs:467-469 | two arrivals of a slot are of the same lifetime if and only if nothing between them forgot it; used for the observer as well |
| `Lifetimes.MoreThanOneExactly` | crates/tick-trigger-fan-out-bench/src/poh_supervisor.rs:467-469 | there is more than one lifetime if and only if an arrival follows a step that forgot an earlier one |
| `PohSupervisor.ForEachAt` | crates/tick-trigger-fan-out-bench/src/poh_supervisor.rs:423-452 | a loop over listed slots gives each slot the operation once and the others nothing |
| `PohSupervisor.SweepAt` | crates/tick-trigger-fan-out-bench/src/poh_supervisor.rs:416-470 | a whole sweep does to each slot what the slot alone would do, and forgets it exactly when it is sealed and at or below the cutoff |
| `PohSupervisor.Isolation` | crates/tick-trigger-fan-out-bench/src/poh_supervisor.rs:205-239 | in every run, the state and the log of a slot are those of that slot followed alone: slots do not interfere |
| `PohSupervisor.WholeRunIsLifetimes` | crates/tick-trigger-fan-out-bench/src/poh_supervisor.rs:205-239 | the log of a slot over a whole run, shutdown included, is the concatenation of its lifetimes |
| `PohSupervisor.LifecycleEvents` | crates/tick-trigger-fan-out-bench/src/poh_supervisor.rs:506-535 | the number of lifecycle events of a slot in the log |
| `PohSupervisor.NeverBothNeverNeither` | crates/tick-trigger-fan-out-bench/src/poh_supervisor.rs:14-16 | a slot that arrived gets at least one lifecycle event in the log, and exactly one if and only if it is not restarted |
| `PohSupervisor.PromptSlotTranscript` | crates/tick-trigger-fan-out-bench/src/poh_supervisor.rs:9-20 | with every arrival above the memory cutoff, the slot has one lifetime and its whole log is that gapless body and then the one lifecycle event its zero-transaction entries and late ticks determine |
| `PohSupervisor.LateArrivalRestartsSlot` | crates/tick-trigger-fan-out-bench/src/poh_supervisor.rs:467-469 | a four-input run in which a slot gets two lifecycle events |
| `PohCanonical.FlushInStep` | crates/tick-trigger-fan-out-bench/src/poh_supervisor.rs:296-313 | a flush keeps the log canonical for the set of entries that arrived |
| `PohCanonical.ArriveInStep` | crates/tick-trigger-fan-out-bench/src/poh_supervisor.rs:258-279 | so does an arrival at a new index, in whatever order |
| `PohCanonical.SealIsCanonical` | crates/tick-trigger-fan-out-bench/src/poh_supervisor.rs:483-535 | sealing completes the canonical transcript |
| `PohCanonical.UndisturbedIsCanonical` | crates/tick-trigger-fan-out-bench/src/poh_supervisor.rs:242-536 | in every undisturbed run the slot is, at every step, canonical for the set of entries that arrived |
| `PohCanonical.CanonicalTranscript` | crates/tick-trigger-fan-out-bench/src/poh_supervisor.rs:205-239 | the whole log of an undisturbed slot: `Entry(i)` with exact tick, hash sum and uncertainty for each index that arrived, `Missing(i)` for each gap below the highest, then its lifecycle event |
| `PohCanonical.OrderIndependence` | crates/tick-trigger-fan-out-bench/src/poh_supervisor.rs:1-20 | two undisturbed runs that bring a slot the same entries, in any order, at any times, with any configuration, give it the same transcript up to reorder flags and waiting times |
| `PohCanonical.UndisturbedExactly` | crates/tick-trigger-fan-out-bench/src/poh_supervisor.rs:258-279 | undisturbed, exactly, read off the inputs alone: each entry comes before the seal, with a new index, and is expected or finds room among the waiting ones; and each sweep that does not seal finds the lowest waiting entry younger than the timeout |
| `PohCanonical.InOrderIsUndisturbed` | crates/tick-trigger-fan-out-bench/src/poh_supervisor.rs:258-261 | a slot whose entries come in order before its seal is undisturbed, however slowly they come and whenever sweeps run |
| `PohResources.EveryRunIsBounded` | crates/tick-trigger-fan-out-bench/src/poh_supervisor.rs:263-268 | in every run no slot holds more than `max_pending_per_slot` buffered entries |
| `PohResources.SweepBoundsMemory` | crates/tick-trigger-fan-out-bench/src/poh_supervisor.rs:467-469 | after every sweep at most `slot_seal_lag_slots` + 10 slots remain |
| `PohResources.SweepLeavesFreshGaps` | crates/tick-trigger-fan-out-bench/src/poh_supervisor.rs:430-451 | after every sweep the lowest buffered index of an unsealed slot is above the expected one and younger than `entry_timeout` |
| `PohResources.SweepLeavesExactly` | crates/tick-trigger-fan-out-bench/src/poh_supervisor.rs:430-451 | exactly which buffered entries a sweep leaves: those with an entry younger than the timeout at the start of their block of consecutive indices or of a lower one |
| `PohResources.OverdueSurvivesExactly` | crates/tick-trigger-fan-out-bench/src/poh_supervisor.rs:443-448 | exactly when a buffered entry outlives the timeout |
| `PohResources.OverdueEntryStaysBuffered` | crates/tick-trigger-fan-out-bench/src/poh_supervisor.rs:443-448 | two arrivals and a sweep that leaves an entry waiting beyond the timeout |
| `PohResources.EveryRunIsTimed` | crates/tick-trigger-fan-out-bench/src/poh_supervisor.rs:269-275 | in every run the buffer remembers when each waiting index was last put into it, a same-index arrival included |
| `PohResources.GapGivenUpExactly` | crates/tick-trigger-fan-out-bench/src/poh_supervisor.rs:443-448 | a sweep gives up a gap, emitting `Missing` for the expected index, if and only if the lowest waiting index was last put into the buffer at least `entry_timeout` ago; otherwise it emits nothing |
| `PohResources.RenewedEntryKeepsGapOpen` | crates/tick-trigger-fan-out-bench/src/poh_supervisor.rs:269-275 | an index that arrives again keeps the gap below it open beyond the timeout |
| `PohResources.FlushConserves` | crates/tick-trigger-fan-out-bench/src/poh_supervisor.rs:296-313 | a flush emits exactly the entries it takes from the buffer |
| `PohResources.EveryRunBalances` | crates/tick-trigger-fan-out-bench/src/poh_supervisor.rs:242-294 | in every run, arrivals = entries emitted + buffered + replaced + over capacity + below expected + after seal |
| `PohResources.CountsEveryArrival` | crates/tick-trigger-fan-out-bench/src/poh_supervisor.rs:214-222 | the account of arrivals counts each arrival of the run once |
| `PohResources.ShutdownBalances` | crates/tick-trigger-fan-out-bench/src/poh_supervisor.rs:232-238 | after shutdown nothing is buffered, so every arrival was emitted or counted as lost |
| `PohLaws.MaxSlotExactly` | crates/tick-trigger-fan-out-bench/src/poh_supervisor.rs:216-220 | the highest slot a sweep works with is reached exactly by the arrivals so far |
| `PohLaws.SweepSealsExactly` | crates/tick-trigger-fan-out-bench/src/poh_supervisor.rs:454-465 | a sweep seals a slot held unsealed if and only if some arrival so far is of a slot at least `slot_seal_lag_slots` above it |
| `PohLaws.SweepEndsExactly` | crates/tick-trigger-fan-out-bench/src/poh_supervisor.rs:454-465 | the same on the events: the sweep offers that slot's one lifecycle event exactly then, and none otherwise |
| `PohLaws.SweepForgetsExactly` | crates/tick-trigger-fan-out-bench/src/poh_supervisor.rs:467-469 | a sweep forgets a slot it holds if and only if the slot is or gets sealed and is 0 or at least `slot_seal_lag_slots` + 10 below some arrival so far |
| `PohLaws.FlushTells` | crates/tick-trigger-fan-out-bench/src/poh_supervisor.rs:296-451 | every event of every flush by its position: the entry waiting at that index, reordered, with its own time in the buffer in capped microseconds; or, where none waits, a gap with the time the next waiting entry has been there |
| `PohLaws.FlushPasses` | crates/tick-trigger-fan-out-bench/src/poh_supervisor.rs:296-313 | one event per index passed, and exactly the waiting entries above stay, as they were |
| `PohLaws.DrainPasses` | crates/tick-trigger-fan-out-bench/src/poh_supervisor.rs:296-313 | draining never passes a gap and stops at the first one |
| `PohLaws.SealedTakesNothing` | crates/tick-trigger-fan-out-bench/src/poh_supervisor.rs:248-252 | a sealed slot is left as it is by an arrival |
| `PohLaws.ExpectedGoesOut` | crates/tick-trigger-fan-out-bench/src/poh_supervisor.rs:258-261 | the expected entry goes out first, unreordered and without waiting, then the waiting ones of the indices right after it, each with its own time, up to the first absent one |
| `PohLaws.AheadWaits` | crates/tick-trigger-fan-out-bench/src/poh_supervisor.rs:262-279 | an entry ahead waits from its arrival, in place of one with the same index, unless the buffer is full; nothing is emitted |
| `PohLaws.BehindIsDropped` | crates/tick-trigger-fan-out-bench/src/poh_supervisor.rs:280-293 | an entry behind is dropped, and counts as a tick exactly if it has no transactions and the slot has fewer than 64 |
| `PohLaws.ArrivalCounts` | crates/tick-trigger-fan-out-bench/src/poh_supervisor.rs:248-293 | which loss counter an arrival raises, case by case, and the peak of the buffer |
| `PohLaws.TallyExactly` | crates/tick-trigger-fan-out-bench/src/poh_supervisor.rs:349-414 | each event counter is the number of positions in the log with an event of its kind; the waiting times recorded are those of the reordered entries |
| `PohLaws.SweepAscends` | crates/tick-trigger-fan-out-bench/src/poh_supervisor.rs:416-470 | a sweep gives up stale gaps and then seals, each in ascending order of slots |
| `PohMachine.Outlet.OfferEntry` | crates/tick-trigger-fan-out-bench/src/poh_supervisor.rs:349-378 | the entry counters are those of the log of events offered |
| `PohMachine.SendEntry` | crates/tick-trigger-fan-out-bench/src/poh_supervisor.rs:315-379 | the fields written one by one, and the event offered, are those of the value-level emission |
| `PohMachine.SendMissing` | crates/tick-trigger-fan-out-bench/src/poh_supervisor.rs:381-414 | the same for a `Missing` |
| `PohMachine.DrainConsecutive` | crates/tick-trigger-fan-out-bench/src/poh_supervisor.rs:296-313 | the drain loop is the flush that stops at the first gap |
| `PohMachine.FlushStaleSlot` | crates/tick-trigger-fan-out-bench/src/poh_supervisor.rs:430-451 | the sweep loop of one slot is the flush that stops at a fresh gap; it terminates |
| `PohMachine.FlushToEnd` | crates/tick-trigger-fan-out-bench/src/poh_supervisor.rs:483-504 | the loop of `seal_slot` up to the highest buffered index is the flush that empties the buffer |
| `PohMachine.Receive` | crates/tick-trigger-fan-out-bench/src/poh_supervisor.rs:248-293 | the branches of `process` on one slot, and the loss counter each one raises |
| `PohMachine.SealOne` | crates/tick-trigger-fan-out-bench/src/poh_supervisor.rs:472-536 | `seal_slot` on one slot: nothing if sealed, otherwise the specified events and counters |
| `PohMachine.Supervisor.Process` | crates/tick-trigger-fan-out-bench/src/poh_supervisor.rs:242-294 | one arrival: the slot is created if absent, only it changes, and the whole state follows the specification |
| `PohMachine.Supervisor.OnArrival` | crates/tick-trigger-fan-out-bench/src/poh_supervisor.rs:216-220 | the highest slot is raised first, then the entry processed |
| `PohMachine.Supervisor.FlushEverySlot` | crates/tick-trigger-fan-out-bench/src/poh_supervisor.rs:422-452 | phase A of a sweep, in ascending slot order |
| `PohMachine.Supervisor.SealDueSlots` | crates/tick-trigger-fan-out-bench/src/poh_supervisor.rs:454-465 | phase B: seals, in ascending order, the slots that `PohLaws.SweepSealsExactly` determines from the arrivals |
| `PohMachine.Supervisor.DropOld` | crates/tick-trigger-fan-out-bench/src/poh_supervisor.rs:467-469 | phase C: exactly the sealed slots at or below the lower cutoff are dropped |
| `PohMachine.Supervisor.Sweep` | crates/tick-trigger-fan-out-bench/src/poh_supervisor.rs:416-470 | the three phases together are the sweep whose seals, events, gaps and forgotten slots the laws of `PohLaws` and `PohResources` fix |
| `PohMachine.Supervisor.FinalFlush` | crates/tick-trigger-fan-out-bench/src/poh_supervisor.rs:232-238 | the shutdown flush is the specified one |
| `PohMachine.EntriesAreTallied` | crates/tick-trigger-fan-out-bench/src/poh_supervisor.rs:360-374 | immediate and reordered emissions are together all entries in the log |
| `PohMachine.Supervisor.RunLoop` | crates/tick-trigger-fan-out-bench/src/poh_supervisor.rs:205-239 | refinement: the objects mutated in place over a whole run end in the state and the log of the specification, so every theorem about it holds of them; and the counters add up to the arrivals |
| `PohMachine.Supervisor.CountersBalance` | crates/tick-trigger-fan-out-bench/src/poh_supervisor.rs:248-294 | conservation on the counters: immediate + reordered + replaced + over capacity + below expected + after seal = arrivals |
| `Merger.SeenExactly` | crates/tick-trigger-fan-out-bench/src/merger.rs:250-273 | over any run, a key is remembered exactly when it arrived and no later new highest slot was more than the window above it |
| `Merger.EmitsExactly` | crates/tick-trigger-fan-out-bench/src/merger.rs:208-231 | exactly which arrivals are emitted |
| `Merger.RepeatNeedsJump` | crates/tick-trigger-fan-out-bench/src/merger.rs:208-273 | if a key is emitted twice, some arrival between was more than the window above it |
| `Merger.EmittedAtAll` | crates/tick-trigger-fan-out-bench/src/merger.rs:3-6 | every key that arrives is emitted, at or before that arrival |
| `Merger.EmittedTwiceExactly` | crates/tick-trigger-fan-out-bench/src/merger.rs:3-6 | "exactly once" over a whole run: a key is emitted more than once if and only if it returns after an arrival that evicted it |
| `Merger.EvictedKeyEmittedTwice` | crates/tick-trigger-fan-out-bench/src/merger.rs:250-273 | three messages, at the window of 200, that emit a key twice |
| `Merger.EmitsFirstArrivals` | crates/tick-trigger-fan-out-bench/src/merger.rs:16-19 | when arrivals stay within the window, each key is emitted exactly once, at its first arrival |
| `Merger.PlainMerger.Process` | crates/fan-out-bench/src/merger.rs:71-92 | one message of the set-and-retain merger |
| `Merger.PlainMerger.RunLoop` | crates/fan-out-bench/src/merger.rs:46-94 | over any input it emits the specified sequence |
| `Merger.FastMerger.RecordConfirmLatency` | crates/tick-trigger-fan-out-bench/src/merger.rs:124-133 | sum, minimum and maximum are those of the latencies recorded |
| `Merger.FastMerger.EvictSlot` | crates/tick-trigger-fan-out-bench/src/merger.rs:265-270 | removing a slot through the index removes exactly the keys of that slot, and leaves the rest as it was |
| `Merger.FastMerger.Expired` | crates/tick-trigger-fan-out-bench/src/merger.rs:257-264 | the ordered scan that stops at the cutoff finds exactly the slots below it |
| `Merger.FastMerger.Evict` | crates/tick-trigger-fan-out-bench/src/merger.rs:252-271 | eviction through the index removes precisely what filtering by slot would, and leaves the rest as it was |
| `Merger.FastMerger.Repeat` | crates/tick-trigger-fan-out-bench/src/merger.rs:232-247 | a repeat from the other source confirms once, with its latency; any other repeat is a duplicate |
| `Merger.FastMerger.Process` | crates/tick-trigger-fan-out-bench/src/merger.rs:194-274 | one message: map and index keep describing the same keys without repeats, and the counters add up |
| `Merger.FastMerger.RunLoop` | crates/tick-trigger-fan-out-bench/src/merger.rs:150-182 | over any input it emits the specified sequence, and remembers, confirms, times and counts duplicates as specified |
| `Merger.StateIsHistory` | crates/tick-trigger-fan-out-bench/src/merger.rs:184-191 | what is remembered of a key, read off the inputs: its last emission that is not evicted, and whether the other source sent it since |
| `Merger.ConfirmsExactly` | crates/tick-trigger-fan-out-bench/src/merger.rs:232-247 | exactly which arrivals confirm, and with what latency, in nanoseconds, none if time went back and at most 2^64 - 1: the first from the other source since the remembered emission; every other one not emitted is a duplicate |
| `Merger.MergersAgree` | crates/tick-trigger-fan-out-bench/src/merger.rs:194-274 | refinement: with the same window the two mergers emit the same sequence on every input |
| `Merger.OwnWindowsDisagree` | crates/fan-out-bench/src/merger.rs:18-18 | with the windows the two actually use, 200 and 50, they disagree on a three-message input |
| `Merger.FastMerger.ConfirmLatencyAvgUs` | crates/tick-trigger-fan-out-bench/src/merger.rs:91-96 | there is no mean latency before the first confirmation, and it lies between the minimum and the maximum recorded |
| `Pipeline.MergedIsEmitted` | crates/tick-trigger-fan-out-bench/src/merger.rs:208-231 | the entries handed to the supervisor are exactly those both mergers emit |
| `Pipeline.ReceivedExactlySent` | crates/tick-trigger-fan-out-bench/src/merger.rs:10-19 | the supervisor receives an entry if and only if some source delivered it, whatever is repeated or evicted |
| `Pipeline.SourcesDoNotMatter` | crates/tick-trigger-fan-out-bench/src/poh_supervisor.rs:1-20 | merger and supervisor together: sources that deliver the same entries of a slot, in any order, with any repeats and whichever is first, lead to the same transcript |
| `SlotHashCache.TickIsFirstHighest` | crates/fan-out-bench/src/slot_hash_cache.rs:101-106 | the last tick of a slot and its hash are those of the first update that reached the highest tick |
| `SlotHashCache.LastEntryIsHighest` | crates/fan-out-bench/src/slot_hash_cache.rs:97-100 | the highest entry index and its hash, over a slot's whole history |
| `SlotHashCache.ApplyAgrees` | crates/fan-out-bench/src/slot_hash_cache.rs:94-121 | after every update the cache holds exactly the slots in the window, each with its whole history |
| `SlotHashCache.AgreesIsBounded` | crates/fan-out-bench/src/slot_hash_cache.rs:108-120 | at most `window` + 1 slots are held |
| `SlotHashCache.EvictedStaysOut` | crates/fan-out-bench/src/slot_hash_cache.rs:108-120 | a slot evicted never reappears, even if it is updated again |
| `SlotHashCache.ChainAdds` | crates/fan-out-bench/src/slot_hash_cache.rs:44-50 | chaining m and then n times is chaining m + n times |
| `SlotHashCache.ChainUnit` | crates/fan-out-bench/src/slot_hash_cache.rs:44-50 | chaining no times changes nothing, and once is one hash; so every chain is fixed |
| `SlotHashCache.ChainHashForward` | crates/fan-out-bench/src/slot_hash_cache.rs:44-50 | the loop is the n-fold application of the hash |
| `SlotHashCache.ExtrapolationIsExact` | crates/fan-out-bench/src/slot_hash_cache.rs:34-43 | when the rest of the slot is empty ticks, extrapolating from any tick gives the tick-64 hash |
| `SlotHashCache.Cache.Update` | crates/fan-out-bench/src/slot_hash_cache.rs:94-121 | the map updated in place keeps agreeing with the whole history |
| `SlotHashCache.Cache.EvictOld` | crates/fan-out-bench/src/slot_hash_cache.rs:108-120 | the pop-lowest loop removes exactly the slots below the cutoff |
| `SlotHashCache.Cache.Lookup` | crates/fan-out-bench/src/slot_hash_cache.rs:145-178 | the walk back answers from the nearest slot with a tick, and answers nothing exactly when no slot of `[landed - lookback, landed)` has one |
| `SlotHashCache.LookupSeesWholeHistory` | crates/fan-out-bench/src/slot_hash_cache.rs:145-178 | what a lookup finds in the window is what the whole history says |
| `SlotHashCache.HeldExactly` | crates/fan-out-bench/src/slot_hash_cache.rs:108-120 | a slot is held if and only if it was updated and no slot updated is more than the window above it |
| `SlotHashCache.AnswerExactly` | crates/fan-out-bench/src/slot_hash_cache.rs:155-173 | an answer names the slot, its tick, and the hash as many ticks of 62,500 hashes further as are missing to 64 |
| `SlotHashCache.AnswerIsSlotHash` | crates/fan-out-bench/src/slot_hash_cache.rs:136-178 | whatever was evicted and in whatever order ticks were seen, the answer from a slot is its tick-64 hash, as long as the slot is empty after its highest tick seen |
| `NonceManager.PickIsNearest` | crates/fan-out-bench/src/nonce/manager.rs:89-103 | the cyclic scan finds the Ready nonce nearest ahead of the cursor, and none exactly when none is Ready |
| `NonceManager.FirstIdIsFirst` | crates/fan-out-bench/src/nonce/manager.rs:113-115 | the lookup by identifier gives the first match, and nothing exactly when there is none |
| `NonceManager.LastPubkeyIsLast` | crates/fan-out-bench/src/nonce/manager.rs:59-74 | the public-key index gives the last match, and nothing exactly when there is none |
| `NonceManager.MovesExactly` | crates/fan-out-bench/src/nonce/manager.rs:84-283 | what every operation does to the nonce at every position: at whom it is directed, from which states it moves it, where to, and with which hash and time; a timeout makes Stale exactly the nonces in flight for `in_flight_deadline` or awaiting an update for `awaiting_deadline` |
| `NonceManager.CursorMovesExactly` | crates/fan-out-bench/src/nonce/manager.rs:84-103 | only a take moves the cursor, by one, wrapping at 2^64 |
| `NonceManager.StaleListExactly` | crates/fan-out-bench/src/nonce/manager.rs:198-233 | a timeout lists exactly the overdue positions, each once, in order, by name |
| `NonceManager.ReleaseExactly` | crates/fan-out-bench/src/nonce/manager.rs:125-283 | a nonce that is out becomes Ready exactly by a call of one of the four releasing kinds directed at it, with its guard met |
| `NonceManager.ExclusiveHandout` | crates/fan-out-bench/src/nonce/manager.rs:84-103 | between two handouts of the same nonce comes an account update with another hash, a landing with its hash, a restore, or a refresh of the stale nonce, directed at it |
| `NonceManager.HashIsCarried` | crates/fan-out-bench/src/nonce/manager.rs:147-161 | a nonce keeps its hash through every state until one is written to it |
| `NonceManager.HandsOutLastWritten` | crates/fan-out-bench/src/nonce/manager.rs:84-103 | every hash handed out is the last one written to that nonce, or its initial one |
| `NonceManager.TakesUntilDry` | crates/fan-out-bench/src/nonce/manager.rs:84-103 | with r nonces Ready and nothing released, exactly the first r takes succeed |
| `NonceManager.TakesAreDistinct` | crates/fan-out-bench/src/nonce/manager.rs:84-103 | and no nonce is handed out twice |
| `NonceManager.FullRound` | crates/fan-out-bench/src/nonce/manager.rs:84-103 | from an all-Ready pool, while the cursor does not wrap, takes go through the pool once in cyclic order |
| `NonceManager.Manager.constructor` | crates/fan-out-bench/src/nonce/manager.rs:59-74 | every nonce starts Ready with its hash; the public-key index keeps the last position |
| `NonceManager.Manager.GetById` | crates/fan-out-bench/src/nonce/manager.rs:113-115 | the first nonce with that identifier |
| `NonceManager.Manager.GetByPubkey` | crates/fan-out-bench/src/nonce/manager.rs:109-111 | the last nonce with that public key |
| `NonceManager.Manager.TakeReady` | crates/fan-out-bench/src/nonce/manager.rs:84-103 | the scan loop takes what the specification picks and moves the wrapping cursor |
| `NonceManager.Manager.OnAccountUpdate` | crates/fan-out-bench/src/nonce/manager.rs:127-145 | Ready with the new hash exactly when it differs |
| `NonceManager.Manager.OnObservedLanding` | crates/fan-out-bench/src/nonce/manager.rs:149-161 | InFlight, and nothing else, becomes AwaitingUpdate |
| `NonceManager.Manager.OnLandingWithBlockhash` | crates/fan-out-bench/src/nonce/manager.rs:167-195 | any state becomes Ready with the new hash; reports whether anything changed |
| `NonceManager.Manager.TickTimeouts` | crates/fan-out-bench/src/nonce/manager.rs:198-233 | position by position, a nonce becomes Stale at this instant, with its hash, exactly if it was overdue in its own state, and is as before otherwise; the overdue ones are listed in pool order |
| `NonceManager.Manager.RestoreUnchanged` | crates/fan-out-bench/src/nonce/manager.rs:246-263 | a nonce that is out becomes Ready with its old hash |
| `NonceManager.Manager.OnFallbackRefresh` | crates/fan-out-bench/src/nonce/manager.rs:266-283 | a Stale nonce, and no other, becomes Ready with the observed hash |
| `Matcher.EveryRegistrationAccounted` | crates/fan-out-bench/src/matcher.rs:118-183 | in every run, each registration of an attempt led to one record, is live, or was overwritten |
| `Matcher.ExactlyOneRecord` | crates/fan-out-bench/src/matcher.rs:157-179 | with distinct attempts and signatures every registered attempt has exactly one final record by shutdown |
| `Matcher.RunGrounded` | crates/fan-out-bench/src/matcher.rs:185-197 | whatever is live or indexed was registered so |
| `Matcher.OwnSignature` | crates/fan-out-bench/src/matcher.rs:185-197 | a signature that leads to a live attempt is that attempt's own |
| `Matcher.RunIndexed` | crates/fan-out-bench/src/matcher.rs:232-321 | each indexed signature leads to a live attempt or belongs to a trigger already matched |
| `Matcher.HitMeansLanded` | crates/fan-out-bench/src/matcher.rs:232-321 | a trigger has been matched if and only if one of its attempts has landed |
| `Matcher.LiveIsUnhit` | crates/fan-out-bench/src/matcher.rs:241-245 | a live attempt's trigger has not been matched since the attempt was registered |
| `Matcher.LiveExactly` | crates/fan-out-bench/src/matcher.rs:199-353 | an attempt is live if and only if since its registration there was no failed send of it, no sweep past its deadline, no flush and no match of its trigger |
| `Matcher.IndexedExactly` | crates/fan-out-bench/src/matcher.rs:199-353 | the index knows an attempt's signature if and only if nothing recorded the attempt without a match before its trigger was matched |
| `Matcher.HitsExactly` | crates/fan-out-bench/src/matcher.rs:238-245 | which operations match a trigger: a match of the signature of one of its attempts that the index still knows |
| `Matcher.LandsExactly` | crates/fan-out-bench/src/matcher.rs:232-321 | an attempt lands if and only if its own signature is matched before any failed send of it, any sweep past its deadline, any flush and any match of its trigger |
| `Matcher.RecordsExactly` | crates/fan-out-bench/src/matcher.rs:199-353 | with distinct registrations, exactly when an operation records an attempt, with what outcome and signature, read off the operations: landed by its own signature, deduped by an indexed sibling's, `SendError` by a failed send, `UnknownPending` by a sweep past its deadline or the flush, each while it is live |
| `Matcher.NotRecordedEarly` | crates/fan-out-bench/src/matcher.rs:185-197 | no attempt is recorded before it is registered |
| `Matcher.AckedExactly` | crates/fan-out-bench/src/matcher.rs:199-230 | a live attempt is acknowledged exactly once a send of it since its registration did not fail |
| `Matcher.LandsAgainExactly` | crates/fan-out-bench/src/matcher.rs:294-320 | an attempt that lands is not the first of its trigger if and only if the trigger had been matched before the attempt was registered |
| `Matcher.AtMostOneLanded` | crates/fan-out-bench/src/matcher.rs:294-320 | a trigger lands at most once if and only if no attempt registered after its first match has its own signature matched in time |
| `Matcher.LandedIsTheMatched` | crates/fan-out-bench/src/matcher.rs:297-303 | the record of a landing is of the attempt whose own signature was matched, and carries that signature |
| `Matcher.DedupedNeedsLanded` | crates/fan-out-bench/src/matcher.rs:300-303 | no `DedupedTentative` unless a sibling has landed, in the same step if the trigger was not matched before |
| `Matcher.LateSiblingLandsAgain` | crates/fan-out-bench/src/matcher.rs:232-321 | an attempt registered after its trigger landed lands too, by its own signature |
| `Matcher.Matcher.RegisterAttempt` | crates/fan-out-bench/src/matcher.rs:185-197 | the maps updated in place follow the specification |
| `Matcher.Matcher.HandleSendEvent` | crates/fan-out-bench/src/matcher.rs:199-230 | a failed send removes, unindexes and records, with the outcome and signature that `Matcher.RecordsExactly` gives; any other send does neither |
| `Matcher.Matcher.HandleMatchEvent` | crates/fan-out-bench/src/matcher.rs:232-321 | every live sibling is recorded once, with its own signature, and removed; the index is left as it is |
| `Matcher.Matcher.SweepDeadlines` | crates/fan-out-bench/src/matcher.rs:323-353 | exactly the expired attempts are removed, unindexed and recorded |
| `Matcher.Matcher.ShutdownFlush` | crates/fan-out-bench/src/matcher.rs:157-179 | every attempt left is recorded as unknown, and none remains |
| `Matcher.Matcher.RunLoop` | crates/fan-out-bench/src/matcher.rs:118-183 | refinement: over a whole run and its flush the records sent, each as often, are those of the specification |
| `Recording.MirroredInsert` | crates/tick-trigger-fan-out-bench/src/recorder.rs:434-452 | exactly when a registration keeps index and attempts in bijection |
| `Recording.MirroredStep` | crates/tick-trigger-fan-out-bench/src/recorder.rs:387-429 | an event keeps the bijection unless it is a registration that collides, and then exactly when the collision is harmless |
| `Recording.DistinctRunIsMirrored` | crates/tick-trigger-fan-out-bench/src/recorder.rs:383-414 | with distinct keys and signatures, index and live attempts are in bijection at every step and nothing is overwritten |
| `Recording.RowsExactly` | crates/tick-trigger-fan-out-bench/src/recorder.rs:454-575 | an event writes exactly the rows it causes, each once: landed for the live attempt its signature leads to, send error for the live attempt whose send failed, unknown for the live attempts past their deadline or flushed |
| `Recording.EveryRowHasItsCause` | crates/tick-trigger-fan-out-bench/src/recorder.rs:383-429 | over any run each row, outcome included, is written once for every event that causes it |
| `Recording.OverwrittenExactly` | crates/tick-trigger-fan-out-bench/src/recorder.rs:443-451 | the attempts overwritten in a run are exactly the registrations that met their key live |
| `Recording.LandedIsTheMatched` | crates/tick-trigger-fan-out-bench/src/recorder.rs:492-499 | with distinct registrations a landed row carries the signature that was matched |
| `Recording.FinishConserves` | crates/tick-trigger-fan-out-bench/src/recorder.rs:306-339 | recording an outcome keeps registered = landed + send error + unknown + live + overwritten, overall and per sender |
| `Recording.RegisterConserves` | crates/tick-trigger-fan-out-bench/src/recorder.rs:274-285 | so does a registration, one under a live key included |
| `Recording.FinishTallies` | crates/tick-trigger-fan-out-bench/src/recorder.rs:313-338 | outcome by outcome, each sender's counters count its rows |
| `Recording.BookedFinish` | crates/tick-trigger-fan-out-bench/src/recorder.rs:528-546 | removing an attempt and writing its row keeps the book attempt by attempt |
| `Recording.BookedRegister` | crates/tick-trigger-fan-out-bench/src/recorder.rs:434-452 | so does a registration: under a live key, that attempt is lost |
| `RecordingLaws.LiveAttemptStems` | crates/tick-trigger-fan-out-bench/src/recorder.rs:434-482 | in every run, a live attempt carries signature and deadline of its last registration and the time of its latest send since |
| `RecordingLaws.LiveExactly` | crates/tick-trigger-fan-out-bench/src/recorder.rs:434-575 | with distinct registrations, an attempt is live if and only if it was registered and since then there was no failed send of it, no match of its signature, no sweep past its deadline and no flush |
| `RecordingLaws.RowWrittenExactly` | crates/tick-trigger-fan-out-bench/src/recorder.rs:454-575 | with distinct registrations, exactly when an input writes a row, read off the inputs: the attempt stands, was registered with that signature, and the input gives it that outcome |
| `RecordingLaws.SendersExactly` | crates/tick-trigger-fan-out-bench/src/recorder.rs:274-285 | a sender has statistics exactly once it registered an attempt |
| `RecordingLaws.TriggersExactly` | crates/tick-trigger-fan-out-bench/src/recorder.rs:274-339 | a trigger is attempted exactly once an attempt of it is registered, and landed exactly once a row says so |
| `RecordingLaws.RoundTripsExactly` | crates/tick-trigger-fan-out-bench/src/recorder.rs:286-305 | every send adds its time; a round trip, in whole microseconds and none if time went back, is measured exactly for an acknowledged send of a sender that registered before |
| `RecordingLaws.LandingTime` | crates/tick-trigger-fan-out-bench/src/recorder.rs:528-546 | with distinct registrations, a match of a standing attempt measures the time since its latest send, if there was one |
| `RecordingLaws.NoLandingTime` | crates/tick-trigger-fan-out-bench/src/recorder.rs:484-546 | and nothing else measures a landing time |
| `RecorderMachine.Recorder.RecordRegister` | crates/tick-trigger-fan-out-bench/src/recorder.rs:274-285 | the counters and sets of a registration |
| `RecorderMachine.Recorder.RecordSend` | crates/tick-trigger-fan-out-bench/src/recorder.rs:286-305 | first and last send time are the least and greatest of all sends; the round-trip sum and count of each known sender are those of its acknowledged sends |
| `RecorderMachine.Recorder.RecordOutcome` | crates/tick-trigger-fan-out-bench/src/recorder.rs:306-339 | one outcome: one counter, the sender's counter, the landed set, and on a landing the sender's sum and count of times to landing |
| `RecorderMachine.Recorder.OnRegister` | crates/tick-trigger-fan-out-bench/src/recorder.rs:388-393 | a registration event follows the value and keeps every aggregate |
| `RecorderMachine.Recorder.HandleSend` | crates/tick-trigger-fan-out-bench/src/recorder.rs:454-482 | so does a send event; it is final exactly if it failed and its attempt is live |
| `RecorderMachine.Recorder.HandleMatch` | crates/tick-trigger-fan-out-bench/src/recorder.rs:484-547 | so does a match: nothing for an unknown signature, a stale signature is unindexed, a live attempt lands, with its time from its last send |
| `RecorderMachine.Recorder.FinishAll` | crates/tick-trigger-fan-out-bench/src/recorder.rs:415-429 | the loop of the final flush and of the sweep: every attempt given gets exactly one unknown row, its signature leaves the index, and earlier rows stay |
| `RecorderMachine.Recorder.SweepDeadlines` | crates/tick-trigger-fan-out-bench/src/recorder.rs:549-575 | exactly the attempts past their deadline become unknown |
| `RecorderMachine.Recorder.HandleInput` | crates/tick-trigger-fan-out-bench/src/recorder.rs:383-414 | every event follows the value and keeps every aggregate |
| `RecorderMachine.Recorder.RunLoop` | crates/tick-trigger-fan-out-bench/src/recorder.rs:366-432 | refinement, for any registrations: after the final flush nothing is live, and the rows, each as often and with its outcome, the overwritten attempts, the measurements and the totals are those of the run; every registration led to one row or was overwritten; with distinct registrations each attempt has exactly one row |
| `OrderingTracking.DueExactly` | crates/tick-trigger-fan-out-bench/src/ordering.rs:147-160 | a slot is due if and only if some arrival is of a slot above `seal_lag` and some arrival is of a slot at least `seal_lag` above it |
| `OrderingTracking.InProgressExactly` | crates/tick-trigger-fan-out-bench/src/ordering.rs:116-160 | after every arrival a slot is in progress if and only if it arrived and is not due, read off the arrivals |
| `OrderingTracking.EarlyArrivalsShareReport` | crates/tick-trigger-fan-out-bench/src/ordering.rs:147-189 | all arrivals of a slot before any arrival of a slot at least `seal_lag` above it are in one report, its first |
| `OrderingTracking.TotalsExactly` | crates/tick-trigger-fan-out-bench/src/ordering.rs:191-222 | each slot counter is the number of reports of its kind, and each total the sum over the reports |
| `OrderingTracking.ReportCountsDisorder` | crates/tick-trigger-fan-out-bench/src/ordering.rs:124-139 | `out_of_order_count` is the number of arrivals overtaken by an earlier one, zero exactly when indices do not decrease; `max_backward_gap` is the largest drop to a later arrival, or 0 |
| `OrderingTracking.ReportFindsGaps` | crates/tick-trigger-fan-out-bench/src/ordering.rs:229-250 | `max_index` is the highest index; `missing_indices` is sorted and holds exactly the absent indices below it; seen + missing = `max_index` + 1 |
| `OrderingTracking.LastEntryIsTopExactly` | crates/tick-trigger-fan-out-bench/src/ordering.rs:134-137 | the last-entry figures describe the first arrival at the highest index if and only if that index is positive or the entry is a tick |
| `OrderingTracking.LoneEntryReportedAsTick` | crates/tick-trigger-fan-out-bench/src/ordering.rs:229-230 | a slot of one entry with transactions, at index 0, is reported as ending on a tick |
| `OrderingTracking.TrackIsAlways` | crates/tick-trigger-fan-out-bench/src/ordering.rs:147-173 | in every run: before its slot is due all arrivals are in progress, afterwards none is, the on-time ones share one report and each late one has its own |
| `OrderingTracking.BatchesAtEnd` | crates/tick-trigger-fan-out-bench/src/ordering.rs:176-189 | after the final flush every arrival of a slot is in exactly one report |
| `OrderingTracking.OneReportExactly` | crates/tick-trigger-fan-out-bench/src/ordering.rs:21-27 | exactly when a slot gets a single report over all its arrivals |
| `OrderingTracking.LateIsNeverDisorder` | crates/tick-trigger-fan-out-bench/src/ordering.rs:24-27 | a late arrival is always reported in order |
| `OrderingTracking.DisorderReportedExactly` | crates/tick-trigger-fan-out-bench/src/ordering.rs:24-27 | some report of a slot shows disorder if and only if its on-time arrivals were out of order, so disorder goes unseen exactly when only late arrivals make it |
| `OrderingTracking.DisorderCompleteExactly` | crates/tick-trigger-fan-out-bench/src/ordering.rs:24-27 | the reports of a slot together never count more arrivals out of order than there were, and count all of them if and only if no late arrival is below an index that came before it |
| `OrderingTracking.LateDisorderGoesUnseen` | crates/tick-trigger-fan-out-bench/src/ordering.rs:24-27 | a run out of order whose every report shows none |
| `OrderingTracking.TotalsAreConsistent` | crates/tick-trigger-fan-out-bench/src/ordering.rs:191-222 | the counters over any reports: every slot is ordered, disordered or gapped, and totals vanish exactly with their slot counts |
| `OrderingTracking.BuildReport` | crates/tick-trigger-fan-out-bench/src/ordering.rs:229-250 | the loop over the indices builds the specified report |
| `OrderingTracking.OrderingTracker.UpdateCounters` | crates/tick-trigger-fan-out-bench/src/ordering.rs:191-222 | one report added to the counters |
| `OrderingTracking.OrderingTracker.SealListed` | crates/tick-trigger-fan-out-bench/src/ordering.rs:162-172 | exactly the listed slots are removed, each with one report, and counted |
| `OrderingTracking.OrderingTracker.MaybeSeal` | crates/tick-trigger-fan-out-bench/src/ordering.rs:147-173 | seals exactly the slots that `OrderingTracking.DueExactly` determines from the arrivals |
| `OrderingTracking.OrderingTracker.Observe` | crates/tick-trigger-fan-out-bench/src/ordering.rs:116-145 | one arrival: the slots in progress are exactly those that arrived and are not overdue, progress and reports mirror each slot's history, and at most `seal_lag` + 1 slots stay in progress |
| `OrderingTracking.OrderingTracker.FlushAll` | crates/tick-trigger-fan-out-bench/src/ordering.rs:176-189 | every slot left is sealed |
| `OrderingTracking.OrderingTracker.RunLoop` | crates/tick-trigger-fan-out-bench/src/ordering.rs:116-189 | over a whole run the reports of each slot are those of its on-time arrivals together and its late ones one by one, and the counters are their totals |
| `Observing.AlwaysBalanced` | crates/fan-out-bench/src/observer.rs:118-136 | in every reachable slot state, saturation included: both hash counts are the exact ones cut off at 64 bits, split at the ticks counted |
| `Observing.HashesSplitAtTicks` | crates/fan-out-bench/src/observer.rs:118-136 | short of saturation, cumulative hashes = tick x 62,500 + hashes since the last tick |
| `Observing.TickReachedExactly` | crates/fan-out-bench/src/observer.rs:125-136 | a tick is reached if and only if each tick boundary up to it was met exactly by an entry without transactions |
| `Observing.TakenExactly` | crates/fan-out-bench/src/observer.rs:173-174 | the signatures an entry matches are its pending ones, each once |
| `Observing.MatchedAtMostOnce` | crates/fan-out-bench/src/observer.rs:172-190 | a signature registered once is matched at most once, and not while pending |
| `Observing.RunUpToDate` | crates/fan-out-bench/src/observer.rs:88-92 | in every run no slot is held above the current one |
| `Observing.EvictBoundsMemory` | crates/fan-out-bench/src/observer.rs:203-206 | after an eviction at most 65 slots are held |
| `Observing.HeldExactly` | crates/fan-out-bench/src/observer.rs:110-116 | a slot is held if and only if an entry of it came and no eviction forgot it since, read off the inputs alone |
| `Observing.TriggersAre` | crates/fan-out-bench/src/observer.rs:142-156 | the queue gets exactly the triggers fired, one input at a time |
| `Observing.FiresExactly` | crates/fan-out-bench/src/observer.rs:118-156 | an entry fires the trigger of tick t, with exactly t x 62,500 hashes, if and only if t is scheduled, the entry is new to the slot's lifetime, and with it but not before it every tick boundary up to t was met |
| `Observing.TicksRiseInLifetime` | crates/fan-out-bench/src/observer.rs:125-156 | in every run, the triggers fired in one lifetime of a slot come at strictly increasing ticks within 1..64, each carrying exactly tick x 62,500 hashes |
| `Observing.MoreThanOneLifetime` | crates/fan-out-bench/src/observer.rs:193-207 | a slot has more than one lifetime if and only if an entry of it follows an eviction that forgot it |
| `Observing.FiresAgainExactly` | crates/fan-out-bench/src/observer.rs:142-156 | two inputs fire the same slot and tick if and only if an eviction between them forgot the slot and each completes the tick in its own lifetime |
| `Observing.ForgottenSlotFiresTwice` | crates/fan-out-bench/src/observer.rs:193-207 | a three-input run in which the same slot and tick fire twice |
| `Observing.LifeNext` | crates/fan-out-bench/src/observer.rs:110-116 | in every run, a lifetime grows by exactly the entries whose hash it does not hold yet, and ends exactly when forgotten |
| `ObserverLaws.SightedExactly` | crates/fan-out-bench/src/observer.rs:138-171 | exactly what every input tells the hash cache: an entry new to its slot's lifetime is one sighting with its slot, index and hash, and with tick t if and only if it completes t, within 1..64; any other input is none |
| `ObserverLaws.LastTickIsLast` | crates/fan-out-bench/src/observer.rs:125-136 | the last tick of a lifetime is the highest whose boundaries were all met, with the hash of the entry that completed it |
| `ObserverLaws.CacheKnowsLastTick` | crates/fan-out-bench/src/observer.rs:163-171 | observer and cache joined: as long as a slot is not forgotten, what the cache has heard of it is the last tick of its lifetime, with its hash |
| `ObserverLaws.MatchedExactly` | crates/fan-out-bench/src/observer.rs:172-190 | exactly which signatures every input matches, once each, with slot, index, tick reached and hash count of the lifetime so far, and what stays pending |
| `ObserverLaws.CountedExactly` | crates/fan-out-bench/src/observer.rs:125-162 | exactly which entries count as a schedule lookup, and which as overflow |
| `ObserverLaws.DropsExactly` | crates/fan-out-bench/src/observer.rs:193-207 | an eviction half a second or more after the last one drops exactly the slots more than 64 behind; an earlier one does nothing |
| `ObserverLaws.CurrentExactly` | crates/fan-out-bench/src/observer.rs:88-92 | the current slot is the highest of the start slot and all entries so far |
| `ObserverMachine.Observer.MeterEntry` | crates/fan-out-bench/src/observer.rs:118-162 | the counters of one entry, and the tick it completes, if any; past tick 64 only the overflow is counted |
| `ObserverMachine.Observer.CountEntry` | crates/fan-out-bench/src/observer.rs:118-162 | a trigger fires exactly when the entry completes a scheduled tick: the set of fired ticks never stops one |
| `ObserverMachine.Observer.MatchSigs` | crates/fan-out-bench/src/observer.rs:172-190 | the pending signatures of the entry are removed and matched, and conserved |
| `ObserverMachine.Observer.ProcessEntry` | crates/fan-out-bench/src/observer.rs:110-191 | the slot, the queues, the counters and the hash cache after one entry are those that `SightedExactly`, `MatchedExactly`, `CountedExactly`, `LifeNext` and `FiresExactly` describe; a repeated hash changes nothing |
| `ObserverMachine.Observer.MaybeEvict` | crates/fan-out-bench/src/observer.rs:193-207 | exactly the slots more than 64 behind are dropped, and nothing within half a second of the last eviction |
| `ObserverMachine.Observer.RunLoop` | crates/fan-out-bench/src/observer.rs:58-108 | refinement: over any run the object ends in the slots, triggers, matches and cache updates of the value; signatures registered once are matched at most once |

## Left out

- Full output channels: the log holds every event offered, so the `*_full` counters, which need the consumer's pace, are not modelled.
- Threads, core pinning, atomics' memory ordering and the choices of `select!`: any order of atomic steps is covered instead.
- Overflow of 32-bit indices and of counters that are not saturating: indices and counters are unbounded numbers.
- Elapsed-time checks in front of the sweeps of the supervisor, matcher and recorder: a sweep is an input that may come at any point.
- Disconnected channels and the stop flag: a run may end after any input.
- Network sources, HTTP senders, RPC pollers, JSON and Parquet output, configuration: input and output over other libraries.
- SHA-256 itself and `compute_next_durable_nonce`, a single call of it; the chain is over an arbitrary function.
- `NonceEntry::set_state`, which bypasses the nonce state machine.
- Interleavings inside one `take_ready`: the scan, atomic here, locks one nonce at a time in the source.
- `sweep_unmatched_nonces` of the matcher: calls of `restore_unchanged`, modelled on its own.
- The finality queue and the copying of further fields into records and rows.
- The recorder's summary in seconds and nanoseconds since its anchor: plain differences.
- RecorderMachine.Recorder.HandleMatch: does not model the nonce hook, whose hash cache and nonce manager in that crate are not part of this model.
- Matcher.Matcher.HandleMatchEvent: does not model the nonce hook, a lookup and a call whose two sides are modelled on their own, nor the finality queue.
- The per-source split of the mergers' received and first counters: their totals are modelled.
- The observer's optional hash cache: it is always there, as the log of its updates; its schedule, swapped by another thread, comes with each entry.
- Order in which a hash map yields keys: loops over one take any order in the matcher and the recorder.
- Transaction pools, correlator, schedule generation and the remaining crates: easier members of kinds covered here, or random.
