/** One slot of the PoH supervisor, as a value: what an arrival, a drain, a sweep and a seal do to
    the reorder buffer of a slot, which events they offer downstream, and what every lifetime of a
    slot looks like from its first arrival to its seal. */
module PohSlot {
  import opened Common

  datatype Observation = Observation(slot: nat, index: nat, numHashes: nat, hash: Hash, txCount: nat)

  datatype Event =
    | Entry(slot: nat, index: nat, tickIdx: nat, cumulativeHashes: nat, obs: Observation,
            wasReordered: bool, waitUs: nat, tickUncertain: bool)
    | Missing(slot: nat, index: nat, waitedUs: nat)
    | SlotComplete(slot: nat, totalEntries: nat, lastHash: Hash, lastTick: nat, missingCount: nat)
    | SlotIncomplete(slot: nat, lastSeenIndex: nat, lastHash: Hash, lastTick: nat, missingCount: nat)

  predicate Positional(e: Event) {
    e.Entry? || e.Missing?
  }

  predicate Lifecycle(e: Event) {
    e.SlotComplete? || e.SlotIncomplete?
  }

  datatype Pending = Pending(obs: Observation, bufferedAt: nat)

  /** The running account a slot keeps of what it has emitted. */
  datatype Poh = Poh(cumulativeHashes: nat, hashesSinceTick: nat, tick: nat, lastHash: Option<Hash>,
                     lastIndex: nat, hasMissing: bool, missingCount: nat, totalEmitted: nat)

  datatype SlotState = SlotState(next: nat, pending: map<nat, Pending>, poh: Poh, lastEmitAt: Option<nat>,
                                 sealed: bool)

  const NO_POH := Poh(0, 0, 0, None, 0, false, 0, 0)
  const FRESH := SlotState(0, map[], NO_POH, None, false)

  /** Times are nanoseconds; `entryTimeout` is a duration in the same unit. */
  datatype Config = Config(entryTimeout: nat, sealLag: nat, maxPending: nat)

  datatype Step = Step(state: SlotState, events: seq<Event>)

  /** A duration in whole microseconds, capped at 32 bits. */
  function Micros(duration: nat): nat {
    Min(U32_MAX, duration / 1000)
  }

  function WaitUs(now: nat, since: nat): nat {
    Micros(SatSub(now, since))
  }

  // ---------------------------------------------------------------- emitting

  function CountTick(poh: Poh, txCount: nat): Poh {
    if txCount == 0 && poh.tick < TICKS_PER_SLOT then poh.(tick := poh.tick + 1) else poh
  }

  function CountEntry(poh: Poh, obs: Observation): Poh {
    var ticks := obs.txCount == 0 && poh.tick < TICKS_PER_SLOT;
    Poh(SatAdd64(poh.cumulativeHashes, obs.numHashes),
        if ticks then 0 else SatAdd64(poh.hashesSinceTick, obs.numHashes),
        if ticks then poh.tick + 1 else poh.tick,
        Some(obs.hash), obs.index, poh.hasMissing, poh.missingCount, poh.totalEmitted + 1)
  }

  function EmitEntry(st: SlotState, obs: Observation, now: nat, reordered: bool, waitUs: nat): (SlotState, Event) {
    var poh := CountEntry(st.poh, obs);
    (st.(poh := poh, lastEmitAt := Some(now), next := st.next + 1),
     Entry(obs.slot, obs.index, poh.tick, poh.cumulativeHashes, obs, reordered, waitUs, st.poh.hasMissing))
  }

  function EmitMissing(st: SlotState, slot: nat, now: nat, timeout: nat): (SlotState, Event) {
    var waited := if st.pending == map[] then Micros(timeout)
                  else WaitUs(now, st.pending[MinKey(st.pending.Keys)].bufferedAt);
    (st.(poh := st.poh.(missingCount := st.poh.missingCount + 1, hasMissing := true), next := st.next + 1),
     Missing(slot, st.next, waited))
  }

  // ---------------------------------------------------------------- flushing the buffer

  /** Every buffered entry is filed under its own index, at or above the expected one. */
  ghost predicate Tidy(slot: nat, st: SlotState) {
    && (forall k :: k in st.pending ==> st.next <= k && st.pending[k].obs.index == k && st.pending[k].obs.slot == slot)
    && (st.sealed ==> st.pending == map[])
  }

  /** Between steps the expected entry itself is never buffered. */
  ghost predicate Settled(slot: nat, st: SlotState) {
    Tidy(slot, st) && st.next !in st.pending
  }

  lemma FreshIsSettled(slot: nat)
    ensures Settled(slot, FRESH)
  {
  }

  /** The three loops that empty a buffer differ only in when they give up on a gap. */
  datatype Mode = DrainOnly | SweepStale | SealAll

  predicate GivesUp(st: SlotState, now: nat, mode: Mode, timeout: nat)
    requires st.pending != map[]
  {
    match mode
    case DrainOnly => false
    case SealAll => true
    case SweepStale => SatSub(now, st.pending[MinKey(st.pending.Keys)].bufferedAt) >= timeout
  }

  predicate Stopped(st: SlotState, now: nat, mode: Mode, timeout: nat) {
    st.pending == map[] || (st.next !in st.pending && !GivesUp(st, now, mode, timeout))
  }

  ghost function Gap(st: SlotState): nat
    requires forall k :: k in st.pending ==> st.next <= k
  {
    if st.pending == map[] then 0 else MinKey(st.pending.Keys) - st.next
  }

  ghost predicate Tagged(slot: nat, es: seq<Event>) {
    forall i :: 0 <= i < |es| ==> es[i].slot == slot
  }

  function PopNext(st: SlotState, now: nat): (SlotState, Event)
    requires st.next in st.pending
  {
    var p := st.pending[st.next];
    EmitEntry(st.(pending := st.pending - {st.next}), p.obs, now, true, WaitUs(now, p.bufferedAt))
  }

  lemma PopShrinks(st: SlotState)
    requires st.next in st.pending
    ensures |st.pending - {st.next}| == |st.pending| - 1
  {
    var m := st.pending - {st.next};
    assert m.Keys == st.pending.Keys - {st.next};
    assert |m.Keys| == |st.pending.Keys| - 1;
  }

  /** One turn of a flush loop: the expected entry if it is there, else a gap marker. */
  function Advance(slot: nat, st: SlotState, now: nat, timeout: nat): (r: (SlotState, Event))
    requires Tidy(slot, st) && st.pending != map[]
    ensures Tidy(slot, r.0) && r.1.slot == slot
    ensures r.0.next == st.next + 1 && r.0.pending == st.pending - {st.next} && r.0.sealed == st.sealed
    ensures |r.0.pending| < |st.pending| || (|r.0.pending| == |st.pending| && Gap(r.0) < Gap(st))
  {
    if st.next in st.pending then
      PopShrinks(st);
      PopNext(st, now)
    else
      assert st.pending - {st.next} == st.pending;
      EmitMissing(st, slot, now, timeout)
  }

  /** The buffer is flushed in strict index order until the mode stops it. */
  function Flush(slot: nat, st: SlotState, now: nat, mode: Mode, timeout: nat): (r: Step)
    requires Tidy(slot, st)
    ensures Tidy(slot, r.state) && Tagged(slot, r.events)
    ensures Stopped(r.state, now, mode, timeout)
    ensures r.state.pending.Keys <= st.pending.Keys && r.state.sealed == st.sealed
    decreases |st.pending|, Gap(st)
  {
    if Stopped(st, now, mode, timeout) then Step(st, [])
    else
      var (st1, e) := Advance(slot, st, now, timeout);
      var rest := Flush(slot, st1, now, mode, timeout);
      Step(rest.state, [e] + rest.events)
  }

  // ---------------------------------------------------------------- arrivals and seals

  /** What a flush leaves in the buffer it leaves as it was. */
  lemma {:induction false} FlushKeepsPending(slot: nat, st: SlotState, now: nat, mode: Mode, timeout: nat)
    requires Tidy(slot, st)
    ensures var r := Flush(slot, st, now, mode, timeout);
            forall i :: i in r.state.pending ==> i in st.pending && r.state.pending[i] == st.pending[i]
    decreases |st.pending|, Gap(st)
  {
    if !Stopped(st, now, mode, timeout) {
      var (st1, e) := Advance(slot, st, now, timeout);
      FlushKeepsPending(slot, st1, now, mode, timeout);
    }
  }

  /** What became of an arrival. */
  datatype Fate = Immediate | Buffered | Replaced | OverCapacity | BelowExpected | AfterSeal

  function FateOf(st: SlotState, obs: Observation, maxPending: nat): Fate {
    if st.sealed then AfterSeal
    else if obs.index == st.next then Immediate
    else if obs.index < st.next then BelowExpected
    else if |st.pending| >= maxPending then OverCapacity
    else if obs.index in st.pending then Replaced
    else Buffered
  }

  function Noticed(st: SlotState, now: nat): SlotState {
    if st.lastEmitAt.None? then st.(lastEmitAt := Some(now)) else st
  }

  /** The expected entry is emitted at once, and takes along whatever it was holding up. */
  function ArriveExpected(slot: nat, st: SlotState, obs: Observation, now: nat, timeout: nat): (r: Step)
    requires Settled(slot, st) && obs.slot == slot && !st.sealed
    ensures Settled(slot, r.state) && Tagged(slot, r.events) && !r.state.sealed
    ensures r.state.pending.Keys <= st.pending.Keys
  {
    var (st1, e) := EmitEntry(st, obs, now, false, 0);
    var rest := Flush(slot, st1, now, DrainOnly, timeout);
    Step(rest.state, [e] + rest.events)
  }

  function Buffer(slot: nat, st: SlotState, obs: Observation, now: nat): (st': SlotState)
    requires Settled(slot, st) && obs.slot == slot && !st.sealed && obs.index > st.next
    ensures Settled(slot, st') && !st'.sealed
    ensures st'.pending.Keys == st.pending.Keys + {obs.index}
  {
    st.(pending := st.pending[obs.index := Pending(obs, now)])
  }

  function Arrive(slot: nat, st: SlotState, obs: Observation, now: nat, cfg: Config): (r: Step)
    requires Settled(slot, st) && obs.slot == slot
    ensures Settled(slot, r.state) && Tagged(slot, r.events) && r.state.sealed == st.sealed
  {
    match FateOf(st, obs, cfg.maxPending)
    case AfterSeal => Step(st, [])
    case Immediate => ArriveExpected(slot, Noticed(st, now), obs, now, cfg.entryTimeout)
    case OverCapacity => Step(Noticed(st, now), [])
    case BelowExpected => Step(Noticed(st, now).(poh := CountTick(st.poh, obs.txCount)), [])
    case Buffered => Step(Buffer(slot, Noticed(st, now), obs, now), [])
    case Replaced => Step(Buffer(slot, Noticed(st, now), obs, now), [])
  }

  function SealEvent(slot: nat, poh: Poh): Event {
    var hash := if poh.lastHash.Some? then poh.lastHash.value else DEFAULT_HASH;
    if poh.tick >= TICKS_PER_SLOT then SlotComplete(slot, poh.totalEmitted, hash, poh.tick, poh.missingCount)
    else SlotIncomplete(slot, poh.lastIndex, hash, poh.tick, poh.missingCount)
  }

  function Seal(slot: nat, st: SlotState, now: nat, cfg: Config): (r: Step)
    requires Tidy(slot, st)
    ensures Tidy(slot, r.state) && Tagged(slot, r.events)
    ensures r.state.sealed && r.state.pending == map[]
  {
    if st.sealed then Step(st, [])
    else
      var f := Flush(slot, st, now, SealAll, cfg.entryTimeout);
      Step(f.state.(sealed := true), f.events + [SealEvent(slot, f.state.poh)])
  }

  function FlushStale(slot: nat, st: SlotState, now: nat, cfg: Config): (r: Step)
    requires Tidy(slot, st)
    ensures Tidy(slot, r.state) && Tagged(slot, r.events) && r.state.sealed == st.sealed
  {
    if st.sealed then Step(st, []) else Flush(slot, st, now, SweepStale, cfg.entryTimeout)
  }

  // ---------------------------------------------------------------- what a log of events says

  function Missed(es: seq<Event>): nat {
    if es == [] then 0 else Missed(es[..|es| - 1]) + if es[|es| - 1].Missing? then 1 else 0
  }

  function HashSum(es: seq<Event>): nat {
    if es == [] then 0
    else HashSum(es[..|es| - 1]) + if es[|es| - 1].Entry? then es[|es| - 1].obs.numHashes else 0
  }

  function ZeroTx(es: seq<Event>): nat {
    if es == [] then 0
    else ZeroTx(es[..|es| - 1]) + if es[|es| - 1].Entry? && es[|es| - 1].obs.txCount == 0 then 1 else 0
  }

  function LastEntry(es: seq<Event>): Option<Observation> {
    if es == [] then None
    else if es[|es| - 1].Entry? then Some(es[|es| - 1].obs)
    else LastEntry(es[..|es| - 1])
  }

  /** The event at position `k` of a lifetime: it carries index `k`, and an `Entry` is uncertain
      exactly when a `Missing` precedes it and carries the saturated hash sum up to itself. */
  ghost predicate WellPlaced(slot: nat, es: seq<Event>, k: nat)
    requires k < |es|
  {
    var e := es[k];
    && Positional(e) && e.slot == slot && e.index == k
    && (e.Entry? ==>
          && e.obs.slot == slot && e.obs.index == k
          && e.tickUncertain == (Missed(es[..k]) > 0)
          && e.cumulativeHashes == Min(U64_MAX, HashSum(es[..k + 1])))
  }

  /** The events of a lifetime before its seal: indices 0, 1, 2, ... without skip or repeat. */
  ghost predicate Body(slot: nat, es: seq<Event>) {
    forall k :: 0 <= k < |es| ==> WellPlaced(slot, es, k)
  }

  /** The account is what the events `es` of the lifetime say; `late` counts the zero-tx arrivals
      of this lifetime that came below the expected index. */
  ghost predicate Accounts(poh: Poh, es: seq<Event>, late: nat) {
    && poh.missingCount == Missed(es) && poh.hasMissing == (Missed(es) > 0)
    && poh.totalEmitted + Missed(es) == |es|
    && poh.cumulativeHashes == Min(U64_MAX, HashSum(es))
    && poh.tick == Min(TICKS_PER_SLOT, ZeroTx(es) + late)
    && (LastEntry(es).None? ==> poh.lastHash.None? && poh.lastIndex == 0)
    && (LastEntry(es).Some? ==>
          poh.lastHash == Some(LastEntry(es).value.hash) && poh.lastIndex == LastEntry(es).value.index)
  }

  /** The tick of an entry at position `k` counts the zero-tx entries up to it, and of the `late` ones those that
      had come by then; ticks never fall, and none is above `tick`. */
  ghost predicate Ticked(es: seq<Event>, late: nat, tick: nat) {
    && (forall k :: 0 <= k < |es| && es[k].Entry? ==>
          TickBetween(es[k].tickIdx, ZeroTx(es[..k + 1]), late) && es[k].tickIdx <= tick)
    && (forall j, k :: 0 <= j < k < |es| && es[j].Entry? && es[k].Entry? ==> es[j].tickIdx <= es[k].tickIdx)
  }

  predicate TickBetween(tick: nat, zeroTx: nat, late: nat) {
    Min(TICKS_PER_SLOT, zeroTx) <= tick <= Min(TICKS_PER_SLOT, zeroTx + late)
  }

  ghost predicate Open(slot: nat, st: SlotState, es: seq<Event>, late: nat) {
    && !st.sealed && Tidy(slot, st) && st.next == |es|
    && Body(slot, es) && Accounts(st.poh, es, late) && Ticked(es, late, st.poh.tick)
  }

  /** The single lifecycle event that ends a lifetime whose earlier events are `es`. */
  function Ending(slot: nat, es: seq<Event>, late: nat): Event
    requires Missed(es) <= |es|
  {
    var ticks := Min(TICKS_PER_SLOT, ZeroTx(es) + late);
    var last := LastEntry(es);
    var hash := if last.Some? then last.value.hash else DEFAULT_HASH;
    if ZeroTx(es) + late >= TICKS_PER_SLOT
    then SlotComplete(slot, |es| - Missed(es), hash, ticks, Missed(es))
    else SlotIncomplete(slot, if last.Some? then last.value.index else 0, hash, ticks, Missed(es))
  }

  lemma {:induction false} MissedAtMostAll(es: seq<Event>)
    ensures Missed(es) <= |es|
  {
    if es != [] {
      MissedAtMostAll(es[..|es| - 1]);
    }
  }

  /** A finished lifetime: a gapless body, then exactly one lifecycle event, as its last event. */
  ghost predicate Closed(slot: nat, es: seq<Event>, late: nat) {
    && |es| > 0
    && var body := es[..|es| - 1];
    && Body(slot, body) && Missed(body) <= |body|
    && Ticked(body, late, Min(TICKS_PER_SLOT, ZeroTx(body) + late))
    && es[|es| - 1] == Ending(slot, body, late)
  }

  lemma Snoc(es: seq<Event>, e: Event)
    ensures Missed(es + [e]) == Missed(es) + if e.Missing? then 1 else 0
    ensures HashSum(es + [e]) == HashSum(es) + if e.Entry? then e.obs.numHashes else 0
    ensures ZeroTx(es + [e]) == ZeroTx(es) + if e.Entry? && e.obs.txCount == 0 then 1 else 0
    ensures LastEntry(es + [e]) == if e.Entry? then Some(e.obs) else LastEntry(es)
  {
    assert (es + [e])[..|es + [e]| - 1] == es;
  }

  lemma BodySnoc(slot: nat, es: seq<Event>, e: Event)
    requires Body(slot, es)
    requires WellPlaced(slot, es + [e], |es|)
    ensures Body(slot, es + [e])
  {
    var es' := es + [e];
    forall k | 0 <= k < |es'| ensures WellPlaced(slot, es', k) {
      if k < |es| {
        assert WellPlaced(slot, es, k);
        assert es'[..k] == es[..k] && es'[..k + 1] == es[..k + 1];
      }
    }
  }

  lemma TickedSnoc(es: seq<Event>, e: Event, late: nat, tick: nat, tick': nat)
    requires Ticked(es, late, tick) && tick <= tick'
    requires e.Entry? ==> e.tickIdx == tick' && TickBetween(tick', ZeroTx(es + [e]), late)
    ensures Ticked(es + [e], late, tick')
  {
    var es' := es + [e];
    forall k | 0 <= k < |es'| && es'[k].Entry?
      ensures TickBetween(es'[k].tickIdx, ZeroTx(es'[..k + 1]), late) && es'[k].tickIdx <= tick'
    {
      if k < |es| {
        assert es'[..k + 1] == es[..k + 1] && es'[k] == es[k];
      } else {
        assert es'[..k + 1] == es';
      }
    }
  }

  lemma TickedLate(es: seq<Event>, late: nat, tick: nat, late': nat, tick': nat)
    requires Ticked(es, late, tick) && late <= late' && tick <= tick'
    ensures Ticked(es, late', tick')
  {
    hide ZeroTx;
  }

  lemma NothingTold(slot: nat)
    ensures Body(slot, []) && Ticked([], 0, 0)
  {
  }

  lemma NothingCounted()
    ensures Accounts(NO_POH, [], 0)
  {
  }

  lemma EntryKeepsBody(slot: nat, st: SlotState, es: seq<Event>, late: nat, obs: Observation, now: nat,
                       reordered: bool, waitUs: nat)
    requires Body(slot, es) && Accounts(st.poh, es, late) && obs.slot == slot && obs.index == |es|
    ensures Body(slot, es + [EmitEntry(st, obs, now, reordered, waitUs).1])
  {
    var (st', e) := EmitEntry(st, obs, now, reordered, waitUs);
    Snoc(es, e);
    assert (es + [e])[..|es|] == es && (es + [e])[..|es| + 1] == es + [e];
    BodySnoc(slot, es, e);
  }

  lemma EntryKeepsAccounts(st: SlotState, es: seq<Event>, late: nat, obs: Observation, now: nat, reordered: bool,
                           waitUs: nat)
    requires Accounts(st.poh, es, late) && Ticked(es, late, st.poh.tick)
    ensures var (st', e) := EmitEntry(st, obs, now, reordered, waitUs);
            Accounts(st'.poh, es + [e], late) && Ticked(es + [e], late, st'.poh.tick)
  {
    var (st', e) := EmitEntry(st, obs, now, reordered, waitUs);
    hide Ticked;
    Snoc(es, e);
    TickedSnoc(es, e, late, st.poh.tick, st'.poh.tick);
  }

  lemma EntryKeepsOpen(slot: nat, st: SlotState, es: seq<Event>, late: nat, obs: Observation, now: nat,
                       reordered: bool, waitUs: nat)
    requires Open(slot, st, es, late)
    requires obs.slot == slot && obs.index == st.next && st.next !in st.pending
    ensures var (st', e) := EmitEntry(st, obs, now, reordered, waitUs);
            Open(slot, st', es + [e], late)
  {
    hide Body, Accounts, Ticked;
    EntryKeepsBody(slot, st, es, late, obs, now, reordered, waitUs);
    EntryKeepsAccounts(st, es, late, obs, now, reordered, waitUs);
  }

  lemma MissingKeepsOpen(slot: nat, st: SlotState, es: seq<Event>, late: nat, now: nat, timeout: nat)
    requires Open(slot, st, es, late) && st.next !in st.pending
    ensures var (st', e) := EmitMissing(st, slot, now, timeout);
            Open(slot, st', es + [e], late)
  {
    var (st', e) := EmitMissing(st, slot, now, timeout);
    Snoc(es, e);
    BodySnoc(slot, es, e);
    TickedSnoc(es, e, late, st.poh.tick, st.poh.tick);
    hide Ticked, Body;
  }

  lemma AdvanceKeepsOpen(slot: nat, st: SlotState, es: seq<Event>, late: nat, now: nat, timeout: nat)
    requires Open(slot, st, es, late) && st.pending != map[]
    ensures var (st1, e) := Advance(slot, st, now, timeout);
            Open(slot, st1, es + [e], late)
  {
    if st.next in st.pending {
      var p := st.pending[st.next];
      EntryKeepsOpen(slot, st.(pending := st.pending - {st.next}), es, late, p.obs, now, true,
                     WaitUs(now, p.bufferedAt));
    } else {
      MissingKeepsOpen(slot, st, es, late, now, timeout);
    }
  }

  /** No flush, in any mode, breaks the account a slot keeps of its own lifetime. */
  lemma {:induction false} FlushKeepsOpen(slot: nat, st: SlotState, es: seq<Event>, late: nat, now: nat,
                                          mode: Mode, timeout: nat)
    requires Open(slot, st, es, late)
    ensures Open(slot, Flush(slot, st, now, mode, timeout).state, es + Flush(slot, st, now, mode, timeout).events, late)
    decreases |st.pending|, Gap(st)
  {
    assert Tidy(slot, st);
    hide Open, Tidy, Stopped, Advance;
    if Stopped(st, now, mode, timeout) {
      AppendNothing(es);
    } else {
      var (st1, e) := Advance(slot, st, now, timeout);
      AdvanceKeepsOpen(slot, st, es, late, now, timeout);
      FlushKeepsOpen(slot, st1, es + [e], late, now, mode, timeout);
      Reassociate(es, e, Flush(slot, st1, now, mode, timeout).events);
    }
  }

  function LateTicks(st: SlotState, obs: Observation, maxPending: nat): nat {
    if FateOf(st, obs, maxPending) == BelowExpected && obs.txCount == 0 then 1 else 0
  }

  lemma ExpectedKeepsOpen(slot: nat, st: SlotState, es: seq<Event>, late: nat, obs: Observation, now: nat, timeout: nat)
    requires Open(slot, st, es, late) && Settled(slot, st) && obs.slot == slot && obs.index == st.next
    ensures var r := ArriveExpected(slot, st, obs, now, timeout);
            Open(slot, r.state, es + r.events, late)
  {
    var (st1, e) := EmitEntry(st, obs, now, false, 0);
    EntryKeepsOpen(slot, st, es, late, obs, now, false, 0);
    assert Tidy(slot, st1);
    hide Open, Tidy, Flush, EmitEntry;
    FlushKeepsOpen(slot, st1, es + [e], late, now, DrainOnly, timeout);
    var rest := Flush(slot, st1, now, DrainOnly, timeout);
    Reassociate(es, e, rest.events);
  }

  lemma ArriveKeepsOpen(slot: nat, st: SlotState, es: seq<Event>, late: nat, obs: Observation, now: nat, cfg: Config)
    requires Open(slot, st, es, late) && Settled(slot, st) && obs.slot == slot
    ensures var r := Arrive(slot, st, obs, now, cfg);
            Open(slot, r.state, es + r.events, late + LateTicks(st, obs, cfg.maxPending))
  {
    NoticedKeepsOpen(slot, st, es, late, now);
    AppendNothing(es);
    assert !st.sealed;
    hide Open, Settled, ArriveExpected, CountTick, Buffer;
    if obs.index == st.next {
      ExpectedKeepsOpen(slot, Noticed(st, now), es, late, obs, now, cfg.entryTimeout);
    } else if obs.index < st.next {
      LateKeepsOpen(slot, Noticed(st, now), es, late, obs.txCount);
    } else {
      BufferKeepsOpen(slot, Noticed(st, now), es, late, obs, now);
    }
  }

  lemma LateKeepsOpen(slot: nat, st: SlotState, es: seq<Event>, late: nat, txCount: nat)
    requires Open(slot, st, es, late)
    ensures Open(slot, st.(poh := CountTick(st.poh, txCount)), es, late + if txCount == 0 then 1 else 0)
  {
    hide Body, Accounts, Ticked, CountTick;
    LateKeepsAccounts(st.poh, es, late, txCount);
  }

  lemma BufferKeepsOpen(slot: nat, st: SlotState, es: seq<Event>, late: nat, obs: Observation, now: nat)
    requires Open(slot, st, es, late) && Settled(slot, st) && obs.slot == slot && obs.index > st.next
    ensures Open(slot, Buffer(slot, st, obs, now), es, late)
  {
    hide Body, Accounts, Ticked;
  }

  lemma NoticedKeepsOpen(slot: nat, st: SlotState, es: seq<Event>, late: nat, now: nat)
    requires Open(slot, st, es, late) && Settled(slot, st)
    ensures Open(slot, Noticed(st, now), es, late) && Settled(slot, Noticed(st, now))
  {
    hide Body, Accounts, Ticked;
  }

  lemma LateKeepsAccounts(poh: Poh, es: seq<Event>, late: nat, txCount: nat)
    requires Accounts(poh, es, late) && Ticked(es, late, poh.tick)
    ensures var poh', late' := CountTick(poh, txCount), late + if txCount == 0 then 1 else 0;
            Accounts(poh', es, late') && Ticked(es, late', poh'.tick)
  {
    TickedLate(es, late, poh.tick, late + if txCount == 0 then 1 else 0, CountTick(poh, txCount).tick);
    hide Ticked;
  }

  lemma SealCloses(slot: nat, st: SlotState, es: seq<Event>, late: nat, now: nat, cfg: Config)
    requires Open(slot, st, es, late)
    ensures var r := Seal(slot, st, now, cfg);
            Closed(slot, es + r.events, late)
  {
    hide Body, Ticked, Flush;
    var f := Flush(slot, st, now, SealAll, cfg.entryTimeout);
    FlushKeepsOpen(slot, st, es, late, now, SealAll, cfg.entryTimeout);
    var body := es + f.events;
    var ending := SealEvent(slot, f.state.poh);
    MissedAtMostAll(body);
    assert (body + [ending])[..|body|] == body;
    assert es + (f.events + [ending]) == body + [ending];
  }
}
