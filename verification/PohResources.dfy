/** What the PoH supervisor holds and loses: bounded memory, fresh buffers after a sweep, and an
    account of every arrival. */
module PohResources {
  import opened Common
  import opened PohSlot
  import opened PohTrack
  import opened PohSupervisor

  // ---------------------------------------------------------------- bounded memory

  ghost predicate Bounded(sup: Sup, maxPending: nat) {
    forall s :: s in sup.slots ==> s <= sup.maxSlot && |sup.slots[s].pending| <= maxPending
  }

  lemma {:induction false} FlushBounded(slot: nat, st: SlotState, now: nat, mode: Mode, timeout: nat)
    requires Tidy(slot, st)
    ensures |Flush(slot, st, now, mode, timeout).state.pending| <= |st.pending|
  {
    var r := Flush(slot, st, now, mode, timeout);
    Subset(r.state.pending.Keys, st.pending.Keys);
  }

  lemma BufferSize(slot: nat, st: SlotState, obs: Observation, now: nat)
    requires Settled(slot, st) && obs.slot == slot && !st.sealed && obs.index > st.next
    ensures |Buffer(slot, st, obs, now).pending| == |st.pending| + if obs.index in st.pending then 0 else 1
  {
    var keys := Buffer(slot, st, obs, now).pending.Keys;
    if obs.index in st.pending {
      assert keys == st.pending.Keys;
    } else {
      assert |keys| == |st.pending.Keys| + 1;
    }
  }

  lemma ExpectedShrinks(slot: nat, st: SlotState, obs: Observation, now: nat, timeout: nat)
    requires Settled(slot, st) && obs.slot == slot && !st.sealed
    ensures |ArriveExpected(slot, st, obs, now, timeout).state.pending| <= |st.pending|
  {
    hide Settled;
    var r := ArriveExpected(slot, st, obs, now, timeout);
    hide ArriveExpected;
    Subset(r.state.pending.Keys, st.pending.Keys);
  }

  lemma ArriveBounded(slot: nat, st: SlotState, obs: Observation, now: nat, cfg: Config)
    requires Settled(slot, st) && obs.slot == slot && |st.pending| <= cfg.maxPending
    ensures |Arrive(slot, st, obs, now, cfg).state.pending| <= cfg.maxPending
  {
    var seen := Noticed(st, now);
    assert Settled(slot, seen);
    hide Settled, ArriveExpected, Buffer;
    if !st.sealed && obs.index == st.next {
      ExpectedShrinks(slot, seen, obs, now, cfg.entryTimeout);
    } else if !st.sealed && obs.index > st.next {
      BufferSize(slot, seen, obs, now);
    }
  }

  lemma SweepSlotBounded(slot: nat, st: SlotState, now: nat, maxSlot: nat, cfg: Config)
    requires Settled(slot, st)
    ensures |SweepSlot(slot, st, now, maxSlot, cfg).state.pending| <= |st.pending|
  {
    var a := FlushStale(slot, st, now, cfg);
    FlushBounded(slot, st, now, SweepStale, cfg.entryTimeout);
  }

  lemma EmptyIsBounded(cfg: Config)
    ensures Bounded(EMPTY, cfg.maxPending)
  {
  }

  /** In every run no slot above the highest one is tracked, and no buffer exceeds its cap. */
  lemma {:induction false} EveryRunIsBounded(inputs: seq<Input>, n: nat, cfg: Config)
    requires n <= |inputs|
    ensures Bounded(Run(inputs, n, cfg), cfg.maxPending)
  {
    EmptyIsBounded(cfg);
    hide Bounded, React, AllSettled;
    if n > 0 {
      EveryRunIsBounded(inputs, n - 1, cfg);
      ReactBounded(Run(inputs, n - 1, cfg), inputs[n - 1], cfg);
    }
  }

  lemma ReactBounded(sup: Sup, input: Input, cfg: Config)
    requires AllSettled(sup.slots) && Bounded(sup, cfg.maxPending)
    ensures Bounded(React(sup, input, cfg), cfg.maxPending)
  {
    hide AllSettled, Bounded, Process, SweepAll;
    match input
    case Arrival(obs, now) => ProcessBounded(sup, obs, now, cfg);
    case Sweep(now) => SweepBounded(sup, now, cfg);
  }

  lemma ProcessBounded(sup: Sup, obs: Observation, now: nat, cfg: Config)
    requires AllSettled(sup.slots) && Bounded(sup, cfg.maxPending)
    ensures Bounded(Process(sup, obs, now, cfg), cfg.maxPending)
  {
    var st := StateOrFresh(StateOf(sup.slots, obs.slot));
    ArriveBounded(obs.slot, st, obs, now, cfg);
    hide Arrive, Settled, FateOf, CountFate;
  }

  lemma SweepBounded(sup: Sup, now: nat, cfg: Config)
    requires AllSettled(sup.slots) && Bounded(sup, cfg.maxPending)
    ensures Bounded(SweepAll(sup, now, cfg), cfg.maxPending)
  {
    var r := SweepAll(sup, now, cfg);
    assert r.maxSlot == sup.maxSlot;
    hide SweepAll, SweepSlot, Settled;
    forall s | s in r.slots ensures s <= r.maxSlot && |r.slots[s].pending| <= cfg.maxPending {
      SweptSlot(sup, s, now, cfg);
      SweepSlotBounded(s, sup.slots[s], now, sup.maxSlot, cfg);
    }
  }

  /** A slot that survives a sweep was there before, and is what the sweep made of it. */
  lemma SweptSlot(sup: Sup, s: nat, now: nat, cfg: Config)
    requires AllSettled(sup.slots) && s in SweepAll(sup, now, cfg).slots
    ensures s in sup.slots
    ensures SweepAll(sup, now, cfg).slots[s] == SweepSlot(s, sup.slots[s], now, sup.maxSlot, cfg).state
    ensures s > DropCutoff(sup.maxSlot, cfg.sealLag) || !SweepAll(sup, now, cfg).slots[s].sealed
  {
    SweepAt(s, sup, now, cfg);
    var r := SweepAll(sup, now, cfg);
    hide SweepAll, SweepSlot, Settled;
    assert StateOf(r.slots, s) == Some(r.slots[s]);
  }

  lemma SurvivorIsRecent(sup: Sup, s: nat, now: nat, cfg: Config)
    requires AllSettled(sup.slots) && Bounded(sup, cfg.maxPending) && s in SweepAll(sup, now, cfg).slots
    ensures s <= sup.maxSlot && (sup.maxSlot >= cfg.sealLag ==> s > DropCutoff(sup.maxSlot, cfg.sealLag))
  {
    SweptSlot(sup, s, now, cfg);
    hide SweepAll, Settled, AllSettled, FlushStale, Seal;
  }

  /** After any sweep at most `sealLag + 10` slots stay in memory. */
  lemma SweepBoundsMemory(inputs: seq<Input>, n: nat, now: nat, cfg: Config)
    requires n <= |inputs|
    ensures |SweepAll(Run(inputs, n, cfg), now, cfg).slots| <= cfg.sealLag + 10
  {
    var sup := Run(inputs, n, cfg);
    EveryRunIsBounded(inputs, n, cfg);
    var r := SweepAll(sup, now, cfg);
    var max := sup.maxSlot;
    var lo := if max < cfg.sealLag then 0 else DropCutoff(max, cfg.sealLag) + 1;
    hide Run, SweepAll, AllSettled;
    forall s | s in r.slots ensures lo <= s < max + 1 {
      SurvivorIsRecent(sup, s, now, cfg);
    }
    BoundedSetSize(r.slots.Keys, Min(lo, max + 1), max + 1);
  }

  ghost predicate FreshGap(st: SlotState, now: nat, timeout: nat) {
    st.pending != map[] ==>
      && MinKey(st.pending.Keys) > st.next
      && SatSub(now, st.pending[MinKey(st.pending.Keys)].bufferedAt) < timeout
  }

  lemma SweepSlotLeavesFreshGap(slot: nat, st: SlotState, now: nat, maxSlot: nat, cfg: Config)
    requires Settled(slot, st)
    ensures var r := SweepSlot(slot, st, now, maxSlot, cfg);
            !r.state.sealed ==> !Due(slot, maxSlot, cfg.sealLag) && FreshGap(r.state, now, cfg.entryTimeout)
  {
    var f := FlushStale(slot, st, now, cfg);
    hide Flush;
    if !Due(slot, maxSlot, cfg.sealLag) && !st.sealed && f.state.pending != map[] {
      assert MinKey(f.state.pending.Keys) in f.state.pending;
    }
  }

  /** After any sweep an unsealed slot is not yet due, and if it buffers anything then its lowest
      buffered index lies above the expected one and is younger than the timeout. */
  lemma SweepLeavesFreshGaps(sup: Sup, s: nat, now: nat, cfg: Config)
    requires AllSettled(sup.slots) && s in SweepAll(sup, now, cfg).slots
    ensures var st := SweepAll(sup, now, cfg).slots[s];
            !st.sealed ==> !Due(s, sup.maxSlot, cfg.sealLag) && FreshGap(st, now, cfg.entryTimeout)
  {
    SweptSlot(sup, s, now, cfg);
    hide SweepAll, FreshGap, SweepSlot, Settled;
    SweepSlotLeavesFreshGap(s, sup.slots[s], now, sup.maxSlot, cfg);
  }

  /** Some block of consecutive buffered indices, up to `i`, starts after a gap with an entry younger than the
      timeout. */
  ghost predicate Shielded(st: SlotState, i: nat, now: nat, timeout: nat) {
    exists p: nat :: Shields(st, p, now, timeout) && p <= i
  }

  predicate Shields(st: SlotState, p: nat, now: nat, timeout: nat) {
    st.next < p && p in st.pending && p - 1 !in st.pending && SatSub(now, st.pending[p].bufferedAt) < timeout
  }

  /** Exactly which buffered entries a sweep leaves waiting: the age of the entry itself does not count, only
      that of the first entry of its block or of a lower one. */
  lemma {:induction false} SweepLeavesExactly(slot: nat, st: SlotState, now: nat, timeout: nat, i: nat)
    requires Tidy(slot, st)
    ensures i in Flush(slot, st, now, SweepStale, timeout).state.pending
            <==> i in st.pending && Shielded(st, i, now, timeout)
    decreases |st.pending|, Gap(st)
  {
    if Stopped(st, now, SweepStale, timeout) {
      if st.pending != map[] {
        var first := MinKey(st.pending.Keys);
        assert first in st.pending;
        assert Shields(st, first, now, timeout);
      }
    } else {
      var (st1, e) := Advance(slot, st, now, timeout);
      SweepLeavesExactly(slot, st1, now, timeout, i);
      forall p: nat ensures Shields(st, p, now, timeout) <==> Shields(st1, p, now, timeout) {
        AdvanceShields(slot, st, now, timeout, p);
      }
      hide Flush, Advance, Shields;
      if i == st.next && i in st.pending {
        NoneShieldsExpected(st, now, timeout);
      }
    }
  }

  lemma AdvanceShields(slot: nat, st: SlotState, now: nat, timeout: nat, p: nat)
    requires Tidy(slot, st) && !Stopped(st, now, SweepStale, timeout)
    ensures Shields(st, p, now, timeout) <==> Shields(Advance(slot, st, now, timeout).0, p, now, timeout)
  {
    var first := MinKey(st.pending.Keys);
    assert first in st.pending;
    if p == st.next + 1 && p in st.pending && st.next !in st.pending {
      assert first == p;
    }
  }

  lemma NoneShieldsExpected(st: SlotState, now: nat, timeout: nat)
    ensures !Shielded(st, st.next, now, timeout)
  {
  }

  /** A buffered entry outlives the timeout exactly when a younger one starts its block or a lower one. */
  lemma OverdueSurvivesExactly(slot: nat, st: SlotState, now: nat, maxSlot: nat, cfg: Config, i: nat)
    requires Settled(slot, st) && !st.sealed && !Due(slot, maxSlot, cfg.sealLag)
    requires i in st.pending && SatSub(now, st.pending[i].bufferedAt) >= cfg.entryTimeout
    ensures i in SweepSlot(slot, st, now, maxSlot, cfg).state.pending
            <==> exists p: nat :: Shields(st, p, now, cfg.entryTimeout) && p < i
  {
    SweepLeavesExactly(slot, st, now, cfg.entryTimeout, i);
    hide Flush;
  }

  /** Index 5 waits since 0, index 4 since 145, and the timeout is 150: the sweep at 155 emits nothing. */
  lemma OverdueEntryStaysBuffered(five: Observation, four: Observation, maxSlot: nat)
    requires five.slot == four.slot == 7 && five.index == 5 && four.index == 4
    ensures var cfg := Config(150, 10, 1024);
            var st := Arrive(7, Arrive(7, FRESH, five, 0, cfg).state, four, 145, cfg).state;
            !Due(7, maxSlot, cfg.sealLag) ==>
              && 5 in SweepSlot(7, st, 155, maxSlot, cfg).state.pending
              && SatSub(155, st.pending[5].bufferedAt) >= cfg.entryTimeout
  {
    var cfg := Config(150, 10, 1024);
    var st1 := Arrive(7, FRESH, five, 0, cfg).state;
    assert st1.pending == map[5 := Pending(five, 0)] && st1.next == 0 && !st1.sealed;
    var st := Arrive(7, st1, four, 145, cfg).state;
    assert st.pending == map[5 := Pending(five, 0), 4 := Pending(four, 145)] && st.next == 0 && !st.sealed;
    if !Due(7, maxSlot, cfg.sealLag) {
      assert Shields(st, 4, 155, 150);
      OverdueSurvivesExactly(7, st, 155, maxSlot, cfg, 5);
    }
  }

  /** When each index of the slot was last put into the buffer: an arrival at the same index renews the time. */
  function BufferedAt(slot: nat, inputs: seq<Input>, n: nat, cfg: Config): map<nat, nat>
    requires n <= |inputs|
  {
    if n == 0 then map[]
    else
      var before := BufferedAt(slot, inputs, n - 1, cfg);
      match inputs[n - 1]
      case Sweep(_) => before
      case Arrival(obs, now) =>
        var st := StateOrFresh(TrackRun(slot, inputs, n - 1, cfg).state);
        var fate := FateOf(st, obs, cfg.maxPending);
        if obs.slot == slot && (fate.Buffered? || fate.Replaced?) then before[obs.index := now] else before
  }

  ghost predicate Timed(pending: map<nat, Pending>, times: map<nat, nat>) {
    forall i :: i in pending ==> i in times && pending[i].bufferedAt == times[i]
  }

  lemma ArriveKeepsTimes(slot: nat, st: SlotState, obs: Observation, now: nat, cfg: Config, times: map<nat, nat>)
    requires Settled(slot, st) && obs.slot == slot && Timed(st.pending, times)
    ensures var fate := FateOf(st, obs, cfg.maxPending);
            Timed(Arrive(slot, st, obs, now, cfg).state.pending,
                  if fate.Buffered? || fate.Replaced? then times[obs.index := now] else times)
  {
    if FateOf(st, obs, cfg.maxPending) == Immediate {
      var (st1, e) := EmitEntry(Noticed(st, now), obs, now, false, 0);
      FlushKeepsPending(slot, st1, now, DrainOnly, cfg.entryTimeout);
      hide Flush;
    }
  }

  lemma SweepKeepsTimes(slot: nat, st: SlotState, now: nat, maxSlot: nat, cfg: Config, times: map<nat, nat>)
    requires Settled(slot, st) && Timed(st.pending, times)
    ensures Timed(SweepSlot(slot, st, now, maxSlot, cfg).state.pending, times)
  {
    FlushKeepsPending(slot, st, now, SweepStale, cfg.entryTimeout);
    hide Flush;
  }

  /** In every run the buffer remembers when each waiting index was last put into it. */
  lemma {:induction false} EveryRunIsTimed(slot: nat, inputs: seq<Input>, n: nat, cfg: Config)
    requires n <= |inputs|
    ensures Timed(StateOrFresh(TrackRun(slot, inputs, n, cfg).state).pending, BufferedAt(slot, inputs, n, cfg))
  {
    hide Timed, TrackRun, StateOrFresh, BufferedAt;
    if n == 0 {
      NothingTimed(slot, inputs, cfg);
    } else {
      EveryRunIsTimed(slot, inputs, n - 1, cfg);
      TimesNext(slot, inputs, n - 1, cfg);
    }
  }

  lemma NothingTimed(slot: nat, inputs: seq<Input>, cfg: Config)
    ensures Timed(StateOrFresh(TrackRun(slot, inputs, 0, cfg).state).pending, BufferedAt(slot, inputs, 0, cfg))
  {
  }

  lemma TimesNext(slot: nat, inputs: seq<Input>, n: nat, cfg: Config)
    requires n < |inputs|
    requires Timed(StateOrFresh(TrackRun(slot, inputs, n, cfg).state).pending, BufferedAt(slot, inputs, n, cfg))
    ensures Timed(StateOrFresh(TrackRun(slot, inputs, n + 1, cfg).state).pending, BufferedAt(slot, inputs, n + 1, cfg))
  {
    hide Arrive, Settled, FateOf, SweepSlot;
    var t, times := TrackRun(slot, inputs, n, cfg), BufferedAt(slot, inputs, n, cfg);
    match inputs[n]
    case Arrival(obs, now) =>
      if obs.slot == slot {
        FreshIsSettled(slot);
        ArriveKeepsTimes(slot, StateOrFresh(t.state), obs, now, cfg, times);
      }
    case Sweep(now) =>
      if t.state.Some? {
        SweepKeepsTimes(slot, t.state.value, now, t.maxSlot, cfg, times);
      }
  }

  /** The first thing a flush emits. */
  lemma FlushStarts(slot: nat, st: SlotState, now: nat, mode: Mode, timeout: nat)
    requires Tidy(slot, st)
    ensures var r := Flush(slot, st, now, mode, timeout);
            if Stopped(st, now, mode, timeout) then r.events == []
            else |r.events| > 0 && r.events[0] == Advance(slot, st, now, timeout).1
  {
  }

  /** Exactly when a sweep gives up a slot's gap: the lowest waiting index was last put into the buffer at least the
      timeout ago, however long the gap itself has been open. */
  lemma GapGivenUpExactly(slot: nat, inputs: seq<Input>, n: nat, now: nat, cfg: Config)
    requires n <= |inputs|
    requires var t := TrackRun(slot, inputs, n, cfg);
             t.state.Some? && !t.state.value.sealed && !Due(slot, t.maxSlot, cfg.sealLag)
    ensures var t := TrackRun(slot, inputs, n, cfg);
            var st, times := t.state.value, BufferedAt(slot, inputs, n, cfg);
            var events := SweepSlot(slot, st, now, t.maxSlot, cfg).events;
            var givesUp := st.pending != map[]
                           && MinKey(st.pending.Keys) in times
                           && SatSub(now, times[MinKey(st.pending.Keys)]) >= cfg.entryTimeout;
            && (givesUp <==> |events| > 0 && events[0].Missing? && events[0].index == st.next)
            && (!givesUp ==> events == [])
  {
    var st := TrackRun(slot, inputs, n, cfg).state.value;
    EveryRunIsTimed(slot, inputs, n, cfg);
    FlushStarts(slot, st, now, SweepStale, cfg.entryTimeout);
    hide Flush, TrackRun, BufferedAt;
    if st.pending != map[] {
      assert MinKey(st.pending.Keys) in st.pending;
    }
  }

  /** Index 5 arrives at 0 and again at 145, and the timeout is 150: the sweep at 155 emits nothing, although the gap
      below has been open all along. */
  lemma RenewedEntryKeepsGapOpen(five: Observation, again: Observation, maxSlot: nat)
    requires five.slot == again.slot == 7 && five.index == again.index == 5
    ensures var cfg := Config(150, 10, 1024);
            var st := Arrive(7, Arrive(7, FRESH, five, 0, cfg).state, again, 145, cfg).state;
            !Due(7, maxSlot, cfg.sealLag) ==>
              st.pending.Keys == {5} && st.next == 0 && SweepSlot(7, st, 155, maxSlot, cfg) == Step(st, [])
  {
    var cfg := Config(150, 10, 1024);
    var st1 := Arrive(7, FRESH, five, 0, cfg).state;
    assert st1.pending == map[5 := Pending(five, 0)] && st1.next == 0 && !st1.sealed;
    var st := Arrive(7, st1, again, 145, cfg).state;
    assert st.pending == map[5 := Pending(again, 145)] && st.next == 0 && !st.sealed;
  }

  // ---------------------------------------------------------------- where every arrival goes

  /** Entries emitted so far. */
  function EntryCount(es: seq<Event>): nat {
    if es == [] then 0 else EntryCount(es[..|es| - 1]) + if es[|es| - 1].Entry? then 1 else 0
  }

  lemma {:induction false} EntryCountAppend(a: seq<Event>, b: seq<Event>)
    ensures EntryCount(a + b) == EntryCount(a) + EntryCount(b)
    decreases |b|
  {
    if b == [] {
      AppendNothing(a);
    } else {
      EntryCountAppend(a, b[..|b| - 1]);
      assert (a + b)[..|a + b| - 1] == a + b[..|b| - 1];
    }
  }

  lemma EntryCountCons(e: Event, es: seq<Event>)
    ensures EntryCount([e] + es) == EntryCount(es) + if e.Entry? then 1 else 0
  {
    EntryCountAppend([e], es);
    assert [e][..0] == [];
  }

  function PendingTotal(slots: map<nat, SlotState>): nat
    decreases |slots|
  {
    if slots == map[] then 0
    else
      var k := MinKey(slots.Keys);
      RemoveShrinks(slots, k);
      |slots[k].pending| + PendingTotal(slots - {k})
  }

  lemma RemoveShrinks(slots: map<nat, SlotState>, k: nat)
    requires k in slots
    ensures |slots - {k}| < |slots|
  {
    assert (slots - {k}).Keys == slots.Keys - {k};
    assert |(slots - {k}).Keys| < |slots.Keys|;
  }

  /** The total may be taken apart at any slot. */
  lemma {:induction false} PendingTotalAt(slots: map<nat, SlotState>, s: nat)
    requires s in slots
    ensures PendingTotal(slots) == |slots[s].pending| + PendingTotal(slots - {s})
    decreases |slots|
  {
    var k := MinKey(slots.Keys);
    if s != k {
      RemoveShrinks(slots, k);
      PendingTotalAt(slots - {k}, s);
      assert slots - {k} - {s} == slots - {s} - {k};
      assert (slots - {s}).Keys == slots.Keys - {s};
      MinKeyStays(slots.Keys, s);
    }
  }

  lemma PendingTotalUpdate(slots: map<nat, SlotState>, s: nat, st: SlotState)
    ensures PendingTotal(slots[s := st]) + (if s in slots then |slots[s].pending| else 0)
            == PendingTotal(slots) + |st.pending|
  {
    hide PendingTotal;
    var next := slots[s := st];
    PendingTotalAt(next, s);
    assert next - {s} == slots - {s};
    if s in slots {
      PendingTotalAt(slots, s);
    } else {
      assert slots - {s} == slots;
    }
  }

  lemma {:induction false} FlushConserves(slot: nat, st: SlotState, now: nat, mode: Mode, timeout: nat)
    requires Tidy(slot, st)
    ensures var r := Flush(slot, st, now, mode, timeout);
            EntryCount(r.events) + |r.state.pending| == |st.pending|
    decreases |st.pending|, Gap(st)
  {
    if !Stopped(st, now, mode, timeout) {
      var (st1, e) := Advance(slot, st, now, timeout);
      FlushConserves(slot, st1, now, mode, timeout);
      EntryCountCons(e, Flush(slot, st1, now, mode, timeout).events);
      if st.next in st.pending {
        PopShrinks(st);
      } else {
        assert st1.pending == st.pending;
      }
    }
  }

  lemma ApplyConserves(op: Op, slot: nat, st: SlotState, now: nat, cfg: Config)
    requires Settled(slot, st)
    ensures var r := Apply(op, slot, st, now, cfg);
            EntryCount(r.events) + |r.state.pending| == |st.pending|
  {
    FlushConserves(slot, st, now, SweepStale, cfg.entryTimeout);
    FlushConserves(slot, st, now, SealAll, cfg.entryTimeout);
    var f := Flush(slot, st, now, SealAll, cfg.entryTimeout);
    hide Flush;
    EntryCountAppend(f.events, [SealEvent(slot, f.state.poh)]);
    assert [SealEvent(slot, f.state.poh)][..0] == [];
  }

  /** What an arrival adds to the account besides itself. */
  function Lost(f: Fates): nat {
    f.replaced + f.overCapacity + f.belowExpected + f.afterSeal
  }

  lemma ExpectedConserves(slot: nat, st: SlotState, obs: Observation, now: nat, timeout: nat)
    requires Settled(slot, st) && obs.slot == slot && !st.sealed && obs.index == st.next
    ensures var r := ArriveExpected(slot, st, obs, now, timeout);
            EntryCount(r.events) + |r.state.pending| == |st.pending| + 1
  {
    var (st1, e) := EmitEntry(st, obs, now, false, 0);
    FlushConserves(slot, st1, now, DrainOnly, timeout);
    EntryCountCons(e, Flush(slot, st1, now, DrainOnly, timeout).events);
    hide Flush;
  }

  lemma FateLoses(f: Fates, fate: Fate, buffered: nat)
    ensures Lost(CountFate(f, fate, buffered)) == Lost(f) + if fate.Immediate? || fate.Buffered? then 0 else 1
    ensures CountFate(f, fate, buffered).arrivals == f.arrivals + 1
  {
  }

  lemma ArriveConserves(slot: nat, st: SlotState, obs: Observation, now: nat, cfg: Config)
    requires Settled(slot, st) && obs.slot == slot
    ensures var r := Arrive(slot, st, obs, now, cfg);
            var fate := FateOf(st, obs, cfg.maxPending);
            EntryCount(r.events) + |r.state.pending| + (if fate.Immediate? || fate.Buffered? then 0 else 1)
            == |st.pending| + 1
  {
    var seen := Noticed(st, now);
    assert Settled(slot, seen);
    hide Settled, ArriveExpected, Buffer;
    if !st.sealed && obs.index == st.next {
      ExpectedConserves(slot, seen, obs, now, cfg.entryTimeout);
    } else if !st.sealed && obs.index > st.next {
      BufferSize(slot, seen, obs, now);
    }
  }

  lemma {:induction false} ForEachConserves(slots: map<nat, SlotState>, keys: seq<nat>, n: nat, op: Op, now: nat,
                                            cfg: Config)
    requires AllSettled(slots) && n <= |keys| && forall i :: 0 <= i < |keys| ==> keys[i] in slots
    ensures var r := ForEach(slots, keys, n, op, now, cfg);
            EntryCount(r.events) + PendingTotal(r.slots) == PendingTotal(slots)
  {
    hide Apply, Settled, PendingTotal;
    if n > 0 {
      ForEachConserves(slots, keys, n - 1, op, now, cfg);
      var b := ForEach(slots, keys, n - 1, op, now, cfg);
      var k := keys[n - 1];
      var step := Apply(op, k, b.slots[k], now, cfg);
      ApplyConserves(op, k, b.slots[k], now, cfg);
      EntryCountAppend(b.events, step.events);
      PendingTotalUpdate(b.slots, k, step.state);
    }
  }

  /** Forgetting slots with empty buffers loses nothing. */
  lemma {:induction false} DropEmpty(slots: map<nat, SlotState>, kept: map<nat, SlotState>)
    requires forall s :: s in kept ==> s in slots && kept[s] == slots[s]
    requires forall s :: s in slots && s !in kept ==> slots[s].pending == map[]
    ensures PendingTotal(kept) == PendingTotal(slots)
    decreases |slots|
  {
    if slots == map[] {
      assert kept == map[];
    } else {
      hide PendingTotal;
      var k := MinKey(slots.Keys);
      RemoveShrinks(slots, k);
      DropEmpty(slots - {k}, kept - {k});
      PendingTotalAt(slots, k);
      if k in kept {
        PendingTotalAt(kept, k);
      } else {
        assert kept - {k} == kept;
      }
    }
  }

  ghost predicate Balanced(sup: Sup) {
    sup.fates.arrivals == EntryCount(sup.log) + PendingTotal(sup.slots) + Lost(sup.fates)
  }

  lemma EmptyIsBalanced()
    ensures Balanced(EMPTY)
  {
    hide PendingTotal, EntryCount, Lost;
    NothingPending(EMPTY.slots);
    NothingCounted();
  }

  lemma NothingCounted()
    ensures EntryCount(EMPTY.log) == 0 && Lost(EMPTY.fates) == 0 == EMPTY.fates.arrivals
  {
  }

  lemma SweepMovesNothing(sup: Sup, now: nat, cfg: Config)
    requires AllSettled(sup.slots)
    ensures var a := FlushAll(sup.slots, now, cfg);
            var b := SealDue(a.slots, sup.maxSlot, now, cfg);
            EntryCount(a.events + b.events) + PendingTotal(b.slots) == PendingTotal(sup.slots)
  {
    hide ForEach, PendingTotal, AllSettled, Settled, EntryCount;
    var keys := SortedKeys(sup.slots.Keys);
    ForEachConserves(sup.slots, keys, |keys|, StaleOp, now, cfg);
    var a := FlushAll(sup.slots, now, cfg);
    var due := SortedKeys(DueKeys(a.slots, sup.maxSlot, cfg.sealLag));
    ForEachConserves(a.slots, due, |due|, SealOp, now, cfg);
    EntryCountAppend(a.events, SealDue(a.slots, sup.maxSlot, now, cfg).events);
  }

  lemma RetainBalances(slots: map<nat, SlotState>, maxSlot: nat, lag: nat)
    requires AllSettled(slots)
    ensures PendingTotal(Retain(slots, maxSlot, lag)) == PendingTotal(slots)
  {
    forall s | s in slots && slots[s].sealed ensures slots[s].pending == map[] {
      assert Settled(s, slots[s]);
    }
    hide Settled, AllSettled, PendingTotal;
    DropEmpty(slots, Retain(slots, maxSlot, lag));
  }

  lemma SweepBalances(sup: Sup, now: nat, cfg: Config)
    requires AllSettled(sup.slots) && Balanced(sup)
    ensures Balanced(SweepAll(sup, now, cfg))
  {
    SweepMovesNothing(sup, now, cfg);
    var a := FlushAll(sup.slots, now, cfg);
    var b := SealDue(a.slots, sup.maxSlot, now, cfg);
    hide FlushAll, SealDue, PendingTotal, AllSettled, Retain;
    RetainBalances(b.slots, sup.maxSlot, cfg.sealLag);
    EntryCountAppend(sup.log, a.events + b.events);
  }

  lemma StepBalances(sup: Sup, slot: nat, step: Step, maxSlot: nat, fates: Fates)
    requires Balanced(sup) && fates.arrivals == sup.fates.arrivals + 1
    requires EntryCount(step.events) + |step.state.pending| + Lost(fates)
             == |StateOrFresh(StateOf(sup.slots, slot)).pending| + Lost(sup.fates) + 1
    ensures Balanced(Sup(sup.slots[slot := step.state], maxSlot, sup.log + step.events, fates))
  {
    hide PendingTotal, EntryCount, Lost;
    EntryCountAppend(sup.log, step.events);
    PendingTotalUpdate(sup.slots, slot, step.state);
  }

  lemma ProcessBalances(sup: Sup, obs: Observation, now: nat, cfg: Config)
    requires AllSettled(sup.slots) && Balanced(sup)
    ensures Balanced(Process(sup, obs, now, cfg))
  {
    var st := StateOrFresh(StateOf(sup.slots, obs.slot));
    assert Settled(obs.slot, st);
    hide Balanced, Settled, AllSettled, Arrive, FateOf, Lost, CountFate;
    var step := Arrive(obs.slot, st, obs, now, cfg);
    ArriveConserves(obs.slot, st, obs, now, cfg);
    FateLoses(sup.fates, FateOf(st, obs, cfg.maxPending), |step.state.pending|);
    var fates := CountFate(sup.fates, FateOf(st, obs, cfg.maxPending), |step.state.pending|);
    StepBalances(sup, obs.slot, step, Max(sup.maxSlot, obs.slot), fates);
  }

  lemma ReactBalances(sup: Sup, input: Input, cfg: Config)
    requires AllSettled(sup.slots) && Balanced(sup)
    ensures Balanced(React(sup, input, cfg))
  {
    hide AllSettled, Balanced, Process, SweepAll;
    match input
    case Arrival(obs, now) => ProcessBalances(sup, obs, now, cfg);
    case Sweep(now) => SweepBalances(sup, now, cfg);
  }

  /** Conservation, in every run: each arrival was emitted, is buffered, or was lost to exactly one of
      a same-index replacement, a full buffer, an index already passed, or a sealed slot. */
  lemma {:induction false} EveryRunBalances(inputs: seq<Input>, n: nat, cfg: Config)
    requires n <= |inputs|
    ensures Balanced(Run(inputs, n, cfg))
  {
    EmptyIsBalanced();
    hide AllSettled, Balanced, React;
    if n > 0 {
      EveryRunBalances(inputs, n - 1, cfg);
      ReactBalances(Run(inputs, n - 1, cfg), inputs[n - 1], cfg);
    }
  }

  lemma {:induction false} NothingPending(slots: map<nat, SlotState>)
    requires forall s :: s in slots ==> slots[s].pending == map[]
    ensures PendingTotal(slots) == 0
    decreases |slots|
  {
    if slots != map[] {
      var k := MinKey(slots.Keys);
      RemoveShrinks(slots, k);
      NothingPending(slots - {k});
    }
  }

  function ArrivalCount(inputs: seq<Input>, n: nat): nat
    requires n <= |inputs|
  {
    if n == 0 then 0 else ArrivalCount(inputs, n - 1) + if inputs[n - 1].Arrival? then 1 else 0
  }

  lemma ReactCounts(sup: Sup, input: Input, cfg: Config)
    requires AllSettled(sup.slots)
    ensures React(sup, input, cfg).fates.arrivals == sup.fates.arrivals + if input.Arrival? then 1 else 0
  {
    hide Arrive, FlushAll, SealDue, FateOf, Settled;
  }

  lemma {:induction false} CountsEveryArrival(inputs: seq<Input>, n: nat, cfg: Config)
    requires n <= |inputs|
    ensures Run(inputs, n, cfg).fates.arrivals == ArrivalCount(inputs, n)
  {
    hide React, AllSettled;
    if n > 0 {
      CountsEveryArrival(inputs, n - 1, cfg);
      ReactCounts(Run(inputs, n - 1, cfg), inputs[n - 1], cfg);
    }
  }

  /** After shutdown nothing is buffered: every arrival of the run was emitted or counted as lost. */
  lemma ShutdownBalances(inputs: seq<Input>, end: nat, cfg: Config)
    ensures var sup := WholeRun(inputs, end, cfg);
            && PendingTotal(sup.slots) == 0
            && ArrivalCount(inputs, |inputs|) == EntryCount(sup.log) + Lost(sup.fates)
  {
    var sup := Run(inputs, |inputs|, cfg);
    EveryRunBalances(inputs, |inputs|, cfg);
    CountsEveryArrival(inputs, |inputs|, cfg);
    SweepBalances(sup, end, cfg);
    var swept := SweepAll(sup, end, cfg);
    var keys := SortedKeys(swept.slots.Keys);
    ForEachConserves(swept.slots, keys, |keys|, SealOp, end, cfg);
    var b := ForEach(swept.slots, keys, |keys|, SealOp, end, cfg);
    EntryCountAppend(swept.log, b.events);
    forall s | s in b.slots ensures b.slots[s].pending == map[] {
      BatchAt(s, swept.slots, swept.slots.Keys, SealOp, end, cfg);
      hide SweepAll, ForEach, Run, PendingTotal;
    }
    hide ForEach, Run, PendingTotal;
    NothingPending(b.slots);
  }
}
