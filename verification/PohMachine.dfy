/** The PoH supervisor in the form it has in the source: slot objects and a slot map changed in
    place, an output channel, shared counters, and the loops that drain, sweep and seal. Each method
    is proved equal to its specification in PohSlot and PohSupervisor. */
module PohMachine {
  import opened Common
  import opened PohSlot
  import opened PohTrack
  import opened PohSupervisor
  import R = PohResources

  /** The counters that follow from the events offered downstream. */
  datatype Counts = Counts(immediate: nat, reordered: nat, missing: nat, complete: nat, incomplete: nat,
                           withMissing: nat, waitSum: nat, waitMax: nat)

  function CountEvent(c: Counts, e: Event): Counts {
    match e
    case Entry(_, _, _, _, _, reordered, waitUs, _) =>
      if reordered
      then c.(reordered := c.reordered + 1, waitSum := c.waitSum + waitUs, waitMax := Max(c.waitMax, waitUs))
      else c.(immediate := c.immediate + 1)
    case Missing(_, _, _) => c.(missing := c.missing + 1)
    case SlotComplete(_, _, _, _, gaps) =>
      c.(complete := c.complete + 1, withMissing := c.withMissing + if gaps > 0 then 1 else 0)
    case SlotIncomplete(_, _, _, _, gaps) =>
      c.(incomplete := c.incomplete + 1, withMissing := c.withMissing + if gaps > 0 then 1 else 0)
  }

  function Tally(es: seq<Event>): Counts {
    if es == [] then Counts(0, 0, 0, 0, 0, 0, 0, 0)
    else CountEvent(Tally(es[..|es| - 1]), es[|es| - 1])
  }

  lemma TallySnoc(es: seq<Event>, e: Event)
    ensures Tally(es + [e]) == CountEvent(Tally(es), e)
  {
    assert (es + [e])[..|es + [e]| - 1] == es;
  }

  /** Immediate and reordered entries are all the entries emitted. */
  lemma {:induction false} EntriesAreTallied(es: seq<Event>)
    ensures Tally(es).immediate + Tally(es).reordered == R.EntryCount(es)
  {
    if es != [] {
      EntriesAreTallied(es[..|es| - 1]);
    }
  }

  /** The output channel, as the events offered to it, and the shared counters. */
  class Outlet {
    var offered: seq<Event>
    var immediate: nat
    var reordered: nat
    var missing: nat
    var complete: nat
    var incomplete: nat
    var withMissing: nat
    var waitSum: nat
    var waitMax: nat
    var peak: nat
    var overCapacity: nat
    var belowExpected: nat
    var afterSeal: nat
    ghost var arrivals: nat
    ghost var replaced: nat

    constructor ()
      ensures Valid() && offered == [] && Fates() == EMPTY.fates
    {
      offered := [];
      immediate, reordered, missing, complete, incomplete, withMissing, waitSum, waitMax := 0, 0, 0, 0, 0, 0, 0, 0;
      peak, overCapacity, belowExpected, afterSeal, arrivals, replaced := 0, 0, 0, 0, 0, 0;
    }

    /** Every event counter agrees with the log. */
    ghost predicate Valid()
      reads this
    {
      Tally(offered) == Counts(immediate, reordered, missing, complete, incomplete, withMissing, waitSum, waitMax)
    }

    ghost function Fates(): Fates
      reads this
    {
      PohSupervisor.Fates(arrivals, replaced, overCapacity, belowExpected, afterSeal, peak)
    }

    /** `try_send`, with the counters of the event; the log keeps the event whether or not it fits. */
    method OfferEntry(e: Event)
      requires Valid() && e.Entry?
      modifies this
      ensures Valid() && offered == old(offered) + [e] && Fates() == old(Fates())
    {
      TallySnoc(offered, e);
      hide Tally;
      if e.wasReordered {
        reordered := reordered + 1;
        waitSum := waitSum + e.waitUs;
        waitMax := Max(waitMax, e.waitUs);
      } else {
        immediate := immediate + 1;
      }
      offered := offered + [e];
    }

    method OfferMissing(e: Event)
      requires Valid() && e.Missing?
      modifies this
      ensures Valid() && offered == old(offered) + [e] && Fates() == old(Fates())
    {
      TallySnoc(offered, e);
      hide Tally;
      missing := missing + 1;
      offered := offered + [e];
    }

    method OfferComplete(e: Event, hasMissing: bool)
      requires Valid() && e.SlotComplete? && hasMissing == (e.missingCount > 0)
      modifies this
      ensures Valid() && offered == old(offered) + [e] && Fates() == old(Fates())
    {
      TallySnoc(offered, e);
      hide Tally;
      withMissing := withMissing + if hasMissing then 1 else 0;
      complete := complete + 1;
      offered := offered + [e];
    }

    method OfferIncomplete(e: Event, hasMissing: bool)
      requires Valid() && e.SlotIncomplete? && hasMissing == (e.missingCount > 0)
      modifies this
      ensures Valid() && offered == old(offered) + [e] && Fates() == old(Fates())
    {
      TallySnoc(offered, e);
      hide Tally;
      withMissing := withMissing + if hasMissing then 1 else 0;
      incomplete := incomplete + 1;
      offered := offered + [e];
    }

    /** The counters of an arrival, by what became of it. */
    method Note(fate: Fate, buffered: nat)
      requires Valid()
      modifies this
      ensures Valid() && offered == old(offered)
      ensures Fates() == CountFate(old(Fates()), fate, buffered)
    {
      arrivals := arrivals + 1;
      match fate {
        case Immediate =>
        case Buffered =>
          peak := Max(peak, buffered);
        case Replaced =>
          replaced := replaced + 1;
          peak := Max(peak, buffered);
        case OverCapacity =>
          overCapacity := overCapacity + 1;
        case BelowExpected =>
          belowExpected := belowExpected + 1;
        case AfterSeal =>
          afterSeal := afterSeal + 1;
      }
    }
  }

  class Slot {
    var next: nat
    var pending: map<nat, Pending>
    var cumulativeHashes: nat
    var hashesSinceTick: nat
    var tick: nat
    var lastHash: Option<Hash>
    var lastIndex: nat
    var hasMissing: bool
    var missingCount: nat
    var totalEmitted: nat
    var lastEmitAt: Option<nat>
    var sealed: bool

    constructor ()
      ensures Value() == FRESH && Coherent()
    {
      next, pending, cumulativeHashes, hashesSinceTick, tick := 0, map[], 0, 0, 0;
      lastHash, lastIndex, hasMissing, missingCount, totalEmitted := None, 0, false, 0, 0;
      lastEmitAt, sealed := None, false;
    }

    ghost function Value(): SlotState
      reads this
    {
      SlotState(next, pending,
                Poh(cumulativeHashes, hashesSinceTick, tick, lastHash, lastIndex, hasMissing, missingCount,
                    totalEmitted),
                lastEmitAt, sealed)
    }

    ghost predicate Coherent()
      reads this
    {
      hasMissing == (missingCount > 0)
    }

    /** The PoH tracking of `emit_entry`. */
    method Track(obs: Observation, now: nat)
      modifies this
      ensures Value() == old(Value()).(poh := CountEntry(old(Value()).poh, obs), lastEmitAt := Some(now))
      ensures hasMissing == old(hasMissing) && missingCount == old(missingCount)
    {
      cumulativeHashes := SatAdd64(cumulativeHashes, obs.numHashes);
      hashesSinceTick := SatAdd64(hashesSinceTick, obs.numHashes);
      if obs.txCount == 0 && tick < TICKS_PER_SLOT {
        tick := tick + 1;
        hashesSinceTick := 0;
      }
      lastHash := Some(obs.hash);
      lastIndex := obs.index;
      lastEmitAt := Some(now);
      totalEmitted := totalEmitted + 1;
    }
  }

  // ---------------------------------------------------------------- emitting

  /** The caller moves the expected index on. */
  method SendEntry(st: Slot, obs: Observation, now: nat, wasReordered: bool, waitUs: nat, out: Outlet)
    requires out.Valid() && st.Coherent()
    modifies st, out
    ensures out.Valid() && st.Coherent() && out.Fates() == old(out.Fates())
    ensures var (st', e) := PohSlot.EmitEntry(old(st.Value()), obs, now, wasReordered, waitUs);
            st.Value() == st'.(next := old(st.next)) && out.offered == old(out.offered) + [e]
  {
    st.Track(obs, now);
    var event := Entry(obs.slot, obs.index, st.tick, st.cumulativeHashes, obs, wasReordered, waitUs, st.hasMissing);
    out.OfferEntry(event);
  }

  method SendMissing(st: Slot, slot: nat, now: nat, timeout: nat, out: Outlet)
    requires out.Valid() && st.Coherent()
    modifies st, out
    ensures out.Valid() && st.Coherent() && out.Fates() == old(out.Fates())
    ensures var (st', e) := PohSlot.EmitMissing(old(st.Value()), slot, now, timeout);
            st.Value() == st' && out.offered == old(out.offered) + [e]
  {
    var waited := Micros(timeout);
    if st.pending != map[] {
      waited := WaitUs(now, st.pending[MinKey(st.pending.Keys)].bufferedAt);
    }
    hide Micros, WaitUs;
    var event := Missing(slot, st.next, waited);
    st.missingCount := st.missingCount + 1;
    st.hasMissing := true;
    st.next := st.next + 1;
    out.OfferMissing(event);
  }

  lemma AdvanceIsPop(slot: nat, st: SlotState, now: nat, timeout: nat)
    requires Tidy(slot, st) && st.next in st.pending
    ensures MinKey(st.pending.Keys) == st.next && Advance(slot, st, now, timeout) == PopNext(st, now)
  {
  }

  /** `pop_first`, emit, move on: shared by the three loops below. */
  method PopFirst(st: Slot, slot: nat, now: nat, timeout: nat, out: Outlet)
    requires out.Valid() && st.Coherent()
    requires Tidy(slot, st.Value()) && st.next in st.pending
    modifies st, out
    ensures out.Valid() && st.Coherent() && out.Fates() == old(out.Fates())
    ensures var (st', e) := Advance(slot, old(st.Value()), now, timeout);
            st.Value() == st' && out.offered == old(out.offered) + [e]
  {
    AdvanceIsPop(slot, st.Value(), now, timeout);
    hide Advance, Tidy, CountEntry, WaitUs;
    var first := MinKey(st.pending.Keys);
    var entry := st.pending[first];
    st.pending := st.pending - {first};
    SendEntry(st, entry.obs, now, true, WaitUs(now, entry.bufferedAt), out);
    st.next := st.next + 1;
  }

  /** What is left to flush, after what has been flushed, is the whole flush. */
  ghost predicate Halfway(slot: nat, now: nat, mode: Mode, timeout: nat, goal: Step, before: seq<Event>, st: SlotState,
                          offered: seq<Event>) {
    && Tidy(slot, st)
    && goal.state == Flush(slot, st, now, mode, timeout).state
    && before + goal.events == offered + Flush(slot, st, now, mode, timeout).events
  }

  lemma HalfwayStep(slot: nat, now: nat, mode: Mode, timeout: nat, goal: Step, before: seq<Event>, st: SlotState,
                    offered: seq<Event>)
    requires Halfway(slot, now, mode, timeout, goal, before, st, offered)
    requires !Stopped(st, now, mode, timeout)
    ensures var (st1, e) := Advance(slot, st, now, timeout);
            Halfway(slot, now, mode, timeout, goal, before, st1, offered + [e])
  {
    var (st1, e) := Advance(slot, st, now, timeout);
    hide Advance, Stopped, Tidy;
    Reassociate(offered, e, Flush(slot, st1, now, mode, timeout).events);
  }

  lemma HalfwayDone(slot: nat, now: nat, mode: Mode, timeout: nat, goal: Step, before: seq<Event>, st: SlotState,
                    offered: seq<Event>)
    requires Halfway(slot, now, mode, timeout, goal, before, st, offered)
    requires Stopped(st, now, mode, timeout)
    ensures goal.state == st && offered == before + goal.events
  {
    hide Stopped, Tidy;
    AppendNothing(offered);
  }

  method DrainConsecutive(st: Slot, slot: nat, now: nat, timeout: nat, out: Outlet)
    requires out.Valid() && st.Coherent() && Tidy(slot, st.Value())
    modifies st, out
    ensures out.Valid() && st.Coherent() && out.Fates() == old(out.Fates())
    ensures var r := Flush(slot, old(st.Value()), now, DrainOnly, timeout);
            st.Value() == r.state && out.offered == old(out.offered) + r.events
  {
    ghost var goal := Flush(slot, st.Value(), now, DrainOnly, timeout);
    while st.pending != map[]
      invariant out.Valid() && st.Coherent() && out.Fates() == old(out.Fates())
      invariant Halfway(slot, now, DrainOnly, timeout, goal, old(out.offered), st.Value(), out.offered)
      decreases |st.pending|
    {
      if MinKey(st.pending.Keys) != st.next {
        break;
      }
      HalfwayStep(slot, now, DrainOnly, timeout, goal, old(out.offered), st.Value(), out.offered);
      PopShrinks(st.Value());
      PopFirst(st, slot, now, timeout, out);
    }
    HalfwayDone(slot, now, DrainOnly, timeout, goal, old(out.offered), st.Value(), out.offered);
  }

  /** The inner loop of the sweep's first phase. */
  method FlushStaleSlot(st: Slot, slot: nat, now: nat, timeout: nat, out: Outlet)
    requires out.Valid() && st.Coherent() && Tidy(slot, st.Value())
    modifies st, out
    ensures out.Valid() && st.Coherent() && out.Fates() == old(out.Fates())
    ensures var r := Flush(slot, old(st.Value()), now, SweepStale, timeout);
            st.Value() == r.state && out.offered == old(out.offered) + r.events
  {
    ghost var goal := Flush(slot, st.Value(), now, SweepStale, timeout);
    while st.pending != map[]
      invariant out.Valid() && st.Coherent() && out.Fates() == old(out.Fates())
      invariant Halfway(slot, now, SweepStale, timeout, goal, old(out.offered), st.Value(), out.offered)
      decreases |st.pending|, Gap(st.Value())
    {
      var first := MinKey(st.pending.Keys);
      if first == st.next {
        HalfwayStep(slot, now, SweepStale, timeout, goal, old(out.offered), st.Value(), out.offered);
        PopFirst(st, slot, now, timeout, out);
      } else if SatSub(now, st.pending[first].bufferedAt) >= timeout {
        HalfwayStep(slot, now, SweepStale, timeout, goal, old(out.offered), st.Value(), out.offered);
        assert st.next !in st.pending;
        ghost var after := Advance(slot, st.Value(), now, timeout);
        SendMissing(st, slot, now, timeout, out);
        assert st.Value() == after.0;
      } else {
        break;
      }
    }
    HalfwayDone(slot, now, SweepStale, timeout, goal, old(out.offered), st.Value(), out.offered);
  }

  /** The flush at the head of `seal_slot`: everything up to the highest buffered index. */
  method FlushToEnd(st: Slot, slot: nat, now: nat, timeout: nat, out: Outlet)
    requires out.Valid() && st.Coherent() && Tidy(slot, st.Value())
    modifies st, out
    ensures out.Valid() && st.Coherent() && out.Fates() == old(out.Fates())
    ensures var r := Flush(slot, old(st.Value()), now, SealAll, timeout);
            st.Value() == r.state && out.offered == old(out.offered) + r.events
  {
    ghost var goal := Flush(slot, st.Value(), now, SealAll, timeout);
    if st.pending != map[] {
      var maxIdx := MaxKey(st.pending.Keys);
      while st.next <= maxIdx
        invariant out.Valid() && st.Coherent() && out.Fates() == old(out.Fates())
        invariant Halfway(slot, now, SealAll, timeout, goal, old(out.offered), st.Value(), out.offered)
        invariant forall k :: k in st.pending ==> k <= maxIdx
        decreases |st.pending|, Gap(st.Value())
      {
        if st.pending == map[] {
          break;
        }
        HalfwayStep(slot, now, SealAll, timeout, goal, old(out.offered), st.Value(), out.offered);
        ghost var after := Advance(slot, st.Value(), now, timeout);
        if MinKey(st.pending.Keys) == st.next {
          PopFirst(st, slot, now, timeout, out);
        } else {
          assert st.next !in st.pending;
          SendMissing(st, slot, now, timeout, out);
        }
        assert st.Value() == after.0;
      }
      assert st.pending == map[];
    }
    HalfwayDone(slot, now, SealAll, timeout, goal, old(out.offered), st.Value(), out.offered);
  }

  method ReceiveExpected(st: Slot, obs: Observation, now: nat, timeout: nat, out: Outlet)
    requires out.Valid() && st.Coherent() && Settled(obs.slot, st.Value()) && !st.sealed && obs.index == st.next
    modifies st, out
    ensures out.Valid() && st.Coherent() && out.Fates() == old(out.Fates())
    ensures var r := ArriveExpected(obs.slot, old(st.Value()), obs, now, timeout);
            st.Value() == r.state && out.offered == old(out.offered) + r.events
  {
    ghost var (st1, e) := PohSlot.EmitEntry(st.Value(), obs, now, false, 0);
    SendEntry(st, obs, now, false, 0, out);
    st.next := st.next + 1;
    assert st.Value() == st1;
    Reassociate(old(out.offered), e, Flush(obs.slot, st1, now, DrainOnly, timeout).events);
    DrainConsecutive(st, obs.slot, now, timeout, out);
  }

  /** `process`, on the slot it looked up. */
  method Receive(st: Slot, obs: Observation, now: nat, cfg: Config, out: Outlet)
    requires out.Valid() && st.Coherent() && Settled(obs.slot, st.Value())
    modifies st, out
    ensures out.Valid() && st.Coherent()
    ensures var r := Arrive(obs.slot, old(st.Value()), obs, now, cfg);
            st.Value() == r.state && out.offered == old(out.offered) + r.events
    ensures out.Fates()
            == CountFate(old(out.Fates()), FateOf(old(st.Value()), obs, cfg.maxPending), |st.Value().pending|)
  {
    var idx := obs.index;
    AppendNothing(out.offered);
    if st.sealed {
      out.Note(AfterSeal, |st.pending|);
      return;
    }
    if st.lastEmitAt.None? {
      st.lastEmitAt := Some(now);
    }
    assert st.Value() == Noticed(old(st.Value()), now);
    hide ArriveExpected, CountFate;
    if idx == st.next {
      ReceiveExpected(st, obs, now, cfg.entryTimeout, out);
      out.Note(Immediate, |st.pending|);
    } else if idx > st.next {
      if |st.pending| >= cfg.maxPending {
        out.Note(OverCapacity, |st.pending|);
        return;
      }
      var fate := if idx in st.pending then Replaced else Fate.Buffered;
      st.pending := st.pending[idx := Pending(obs, now)];
      out.Note(fate, |st.pending|);
    } else {
      if obs.txCount == 0 && st.tick < TICKS_PER_SLOT {
        st.tick := st.tick + 1;
      }
      out.Note(BelowExpected, |st.pending|);
    }
  }

  /** `seal_slot`, on the slot it looked up. */
  method SealOne(st: Slot, key: nat, now: nat, cfg: Config, out: Outlet)
    requires out.Valid() && st.Coherent() && Settled(key, st.Value())
    modifies st, out
    ensures out.Valid() && st.Coherent() && out.Fates() == old(out.Fates())
    ensures var r := Seal(key, old(st.Value()), now, cfg);
            st.Value() == r.state && out.offered == old(out.offered) + r.events
  {
    if st.sealed {
      AppendNothing(out.offered);
      return;
    }
    FlushToEnd(st, key, now, cfg.entryTimeout, out);
    ghost var f := Flush(key, old(st.Value()), now, SealAll, cfg.entryTimeout);
    hide Flush;
    assert st.Value() == f.state;
    st.sealed := true;
    assert st.Value() == f.state.(sealed := true);
    AppendTwice(old(out.offered), f.events, [SealEvent(key, f.state.poh)]);
    var lastHash := if st.lastHash.Some? then st.lastHash.value else DEFAULT_HASH;
    if st.tick >= TICKS_PER_SLOT {
      out.OfferComplete(SlotComplete(key, st.totalEmitted, lastHash, st.tick, st.missingCount), st.hasMissing);
    } else {
      out.OfferIncomplete(SlotIncomplete(key, st.lastIndex, lastHash, st.tick, st.missingCount), st.hasMissing);
    }
  }

  method SweepOne(st: Slot, key: nat, now: nat, cfg: Config, out: Outlet)
    requires out.Valid() && st.Coherent() && Settled(key, st.Value())
    modifies st, out
    ensures out.Valid() && st.Coherent() && out.Fates() == old(out.Fates())
    ensures var r := FlushStale(key, old(st.Value()), now, cfg);
            st.Value() == r.state && out.offered == old(out.offered) + r.events
  {
    if st.sealed {
      AppendNothing(out.offered);
    } else {
      FlushStaleSlot(st, key, now, cfg.entryTimeout, out);
    }
  }

  lemma UpdateTwice<K, V>(m: map<K, V>, k: K, a: V, b: V)
    ensures m[k := a][k := b] == m[k := b]
  {
  }

  lemma SelfUpdate<K, V>(m: map<K, V>, k: K)
    requires k in m
    ensures m[k := m[k]] == m
  {
  }

  lemma ProcessIs(sup: Sup, obs: Observation, now: nat, cfg: Config, st: SlotState, step: Step)
    requires AllSettled(sup.slots) && st == StateOrFresh(StateOf(sup.slots, obs.slot))
    requires Settled(obs.slot, st) && step == Arrive(obs.slot, st, obs, now, cfg)
    ensures PohSupervisor.Process(sup, obs, now, cfg)
            == Sup(sup.slots[obs.slot := step.state], Max(sup.maxSlot, obs.slot), sup.log + step.events,
                   CountFate(sup.fates, FateOf(st, obs, cfg.maxPending), |step.state.pending|))
  {
    hide Arrive, FateOf, CountFate;
  }

  // ---------------------------------------------------------------- the supervisor

  class Supervisor {
    var slots: map<nat, Slot>
    var maxSlot: nat
    const cfg: Config
    const out: Outlet

    constructor (cfg: Config)
      ensures Valid() && Value() == EMPTY && this.cfg == cfg
      ensures fresh(out) && slots == map[]
    {
      slots, maxSlot, this.cfg := map[], 0, cfg;
      out := new Outlet();
    }

    ghost function SlotValues(): map<nat, SlotState>
      reads this, slots.Values
    {
      map s | s in slots :: slots[s].Value()
    }

    ghost function Value(): Sup
      reads this, out, slots.Values
    {
      Sup(SlotValues(), maxSlot, out.offered, out.Fates())
    }

    /** One object per slot, each in its own settled and coherent state. */
    ghost predicate SlotsValid()
      reads this, slots.Values
    {
      && (forall s, t :: s in slots && t in slots && s != t ==> slots[s] != slots[t])
      && (forall s :: s in slots ==> slots[s].Coherent())
      && AllSettled(SlotValues())
    }

    ghost predicate Valid()
      reads this, out, slots.Values
    {
      out.Valid() && SlotsValid()
    }

    /** Changing one slot object changes one slot value. */
    twostate lemma OneChanged(k: nat)
      requires k in slots && slots == old(slots) && old(SlotsValid())
      requires forall s :: s in slots && s != k ==> unchanged(slots[s])
      requires slots[k].Coherent() && Settled(k, slots[k].Value())
      ensures SlotsValid() && SlotValues() == old(SlotValues())[k := slots[k].Value()]
    {
      hide Settled;
      assert old(SlotValues()).Keys == SlotValues().Keys;
      forall s | s in slots && s != k
        ensures slots[s].Value() == old(slots[s].Value()) && slots[s].Coherent() && Settled(s, slots[s].Value())
      {
        assert Settled(s, old(SlotValues())[s]);
      }
    }

    /** The vacant case of `slots.entry(slot).or_default()`. */
    method Insert(slot: nat) returns (st: Slot)
      requires Valid() && slot !in slots
      modifies this`slots
      ensures Valid() && slot in slots && st == slots[slot]
      ensures slots == old(slots)[slot := st] && fresh(st)
      ensures st.Value() == FRESH && SlotValues() == old(SlotValues())[slot := FRESH]
    {
      hide Settled, Slot.Value, Slot.Coherent;
      st := new Slot();
      slots := slots[slot := st];
      FreshIsSettled(slot);
      forall s | s in slots ensures slots[s].Coherent() && Settled(s, slots[s].Value()) {
        if s != slot {
          assert Settled(s, old(SlotValues())[s]);
        }
      }
    }

    /** `slots.entry(slot).or_default()` */
    method Entry(slot: nat) returns (st: Slot)
      requires Valid()
      modifies this`slots
      ensures Valid() && slot in slots && st == slots[slot] && fresh(slots.Values - old(slots.Values))
      ensures st.Value() == StateOrFresh(StateOf(old(SlotValues()), slot))
      ensures SlotValues() == old(SlotValues())[slot := st.Value()]
      ensures Settled(slot, st.Value()) && SlotValues()[slot] == st.Value()
    {
      hide Settled, SlotsValid;
      if slot in slots {
        st := slots[slot];
        assert SlotValues()[slot] == st.Value();
        SelfUpdate(SlotValues(), slot);
        SettledAt(slot);
      } else {
        st := Insert(slot);
        SettledAt(slot);
      }
    }

    lemma SettledAt(s: nat)
      requires SlotsValid() && s in slots
      ensures Settled(s, slots[s].Value())
    {
      assert Settled(s, SlotValues()[s]);
    }

    method ProcessAt(st: Slot, obs: Observation, now: nat)
      requires Valid() && obs.slot in slots && st == slots[obs.slot]
      requires st.Value() == SlotValues()[obs.slot] && Settled(obs.slot, st.Value())
      modifies st, out
      ensures Valid()
      ensures var r := Arrive(obs.slot, old(st.Value()), obs, now, cfg);
              && SlotValues() == old(SlotValues())[obs.slot := r.state]
              && out.offered == old(out.offered) + r.events
              && out.Fates()
                 == CountFate(old(out.Fates()), FateOf(old(st.Value()), obs, cfg.maxPending), |r.state.pending|)
    {
      hide Settled, Arrive, FateOf, CountFate;
      ghost var r := Arrive(obs.slot, st.Value(), obs, now, cfg);
      Receive(st, obs, now, cfg, out);
      OneChanged(obs.slot);
    }

    method Process(obs: Observation, now: nat)
      requires Valid()
      modifies this`slots, out, slots.Values
      ensures Valid() && fresh(slots.Values - old(slots.Values))
      ensures var st := StateOrFresh(StateOf(old(SlotValues()), obs.slot));
              && Settled(obs.slot, st)
              && var r := Arrive(obs.slot, st, obs, now, cfg);
              && SlotValues() == old(SlotValues())[obs.slot := r.state]
              && out.offered == old(out.offered) + r.events
              && out.Fates() == CountFate(old(out.Fates()), FateOf(st, obs, cfg.maxPending), |r.state.pending|)
    {
      hide Settled, Arrive, FateOf, CountFate, SlotsValid, SlotValues;
      var st := Entry(obs.slot);
      UpdateTwice(old(SlotValues()), obs.slot, st.Value(), Arrive(obs.slot, st.Value(), obs, now, cfg).state);
      ProcessAt(st, obs, now);
    }

    /** A message from the merger: the loop raises the highest slot, then processes the entry. */
    method OnArrival(obs: Observation, now: nat)
      requires Valid()
      modifies this, out, slots.Values
      ensures Valid() && fresh(slots.Values - old(slots.Values))
      ensures Value() == PohSupervisor.Process(old(Value()), obs, now, cfg)
    {
      hide Settled, Arrive, FateOf, CountFate, PohSupervisor.Process;
      ghost var was := Value();
      var s := obs.slot;
      if s > maxSlot {
        maxSlot := s;
      }
      assert SlotsValid() && SlotValues() == was.slots && AllSettled(was.slots);
      hide SlotsValid, SlotValues;
      Process(obs, now);
      ghost var st := StateOrFresh(StateOf(was.slots, obs.slot));
      ProcessIs(was, obs, now, cfg, st, Arrive(obs.slot, st, obs, now, cfg));
    }

    method SealSlot(key: nat, now: nat)
      requires Valid() && key in slots
      modifies slots[key], out
      ensures Valid() && out.Fates() == old(out.Fates())
      ensures var r := Apply(SealOp, key, old(SlotValues())[key], now, cfg);
              && SlotValues() == old(SlotValues())[key := r.state]
              && out.offered == old(out.offered) + r.events
    {
      hide Settled, Seal;
      assert Settled(key, SlotValues()[key]);
      ghost var r := Apply(SealOp, key, slots[key].Value(), now, cfg);
      SealOne(slots[key], key, now, cfg, out);
      OneChanged(key);
    }

    method SweepStaleSlot(key: nat, now: nat)
      requires Valid() && key in slots
      modifies slots[key], out
      ensures Valid() && out.Fates() == old(out.Fates())
      ensures var r := Apply(StaleOp, key, old(SlotValues())[key], now, cfg);
              && SlotValues() == old(SlotValues())[key := r.state]
              && out.offered == old(out.offered) + r.events
    {
      hide Settled, FlushStale;
      assert Settled(key, SlotValues()[key]);
      ghost var r := Apply(StaleOp, key, slots[key].Value(), now, cfg);
      SweepOne(slots[key], key, now, cfg, out);
      OneChanged(key);
    }

    /** One turn of the loops over collected slots. */
    method ApplyNext(keys: seq<nat>, i: nat, op: Op, now: nat, ghost was: map<nat, SlotState>, ghost sent: seq<Event>)
      requires Valid() && i < |keys| && keys[i] in slots
      requires SoFar(was, keys, i, op, now, cfg, sent, SlotValues(), out.offered)
      modifies slots[keys[i]], out
      ensures Valid() && out.Fates() == old(out.Fates())
      ensures SoFar(was, keys, i + 1, op, now, cfg, sent, SlotValues(), out.offered)
    {
      BatchNext(was, keys, i, op, now, cfg, sent, SlotValues(), out.offered);
      hide SlotsValid, SlotValues, SoFar, Apply;
      if op.StaleOp? {
        SweepStaleSlot(keys[i], now);
      } else {
        SealSlot(keys[i], now);
      }
    }

    /** The loop over a collected list of slots, for the first phase of a sweep and for seals. */
    method ApplyListed(keys: seq<nat>, op: Op, now: nat)
      requires Valid() && forall j :: 0 <= j < |keys| ==> keys[j] in slots
      modifies slots.Values, out
      ensures Valid() && out.Fates() == old(out.Fates())
      ensures SoFar(old(SlotValues()), keys, |keys|, op, now, cfg, old(out.offered), SlotValues(), out.offered)
    {
      hide AllSettled, SlotsValid, SlotValues, SoFar;
      ghost var was, sent := SlotValues(), out.offered;
      ValuesSettled();
      BatchNone(was, keys, op, now, cfg, sent);
      for i := 0 to |keys|
        invariant Valid() && out.Fates() == old(out.Fates())
        invariant SoFar(was, keys, i, op, now, cfg, sent, SlotValues(), out.offered)
      {
        ApplyNext(keys, i, op, now, was, sent);
      }
    }

    lemma ValuesSettled()
      requires Valid()
      ensures AllSettled(SlotValues()) && SlotValues().Keys == slots.Keys
      ensures forall s :: s in slots ==> SlotValues()[s].sealed == slots[s].sealed
    {
    }

    /** `retain`: the other slots are dropped, these stay as they are. */
    method KeepSlots(kept: set<nat>)
      requires Valid() && kept <= slots.Keys
      modifies this`slots
      ensures Valid() && slots.Values <= old(slots.Values)
      ensures SlotValues() == map s | s in kept :: old(SlotValues())[s]
    {
      hide Settled, Slot.Value, Slot.Coherent;
      ghost var was := SlotValues();
      slots := map s | s in kept :: slots[s];
      forall s | s in slots ensures slots[s].Value() == was[s] {
        assert s in was;
      }
    }

    /** Phase C of a sweep: sealed slots far behind are dropped. */
    method DropOld()
      requires Valid()
      modifies this`slots
      ensures Valid() && slots.Values <= old(slots.Values)
      ensures SlotValues() == Retain(old(SlotValues()), maxSlot, cfg.sealLag)
    {
      hide SlotsValid, SlotValues;
      ghost var was := SlotValues();
      ValuesSettled();
      var cutoff := SatSub(maxSlot, cfg.sealLag + 10);
      KeepSlots(set s | s in slots && (s > cutoff || !slots[s].sealed));
      assert SlotValues() == Retain(was, maxSlot, cfg.sealLag);
    }

    /** Phase A of a sweep: every tracked slot gives up its stale gaps, in ascending slot order. */
    method FlushEverySlot(now: nat)
      requires Valid()
      modifies slots.Values, out
      ensures Valid() && out.Fates() == old(out.Fates())
      ensures AllSettled(old(SlotValues()))
      ensures SlotValues() == FlushAll(old(SlotValues()), now, cfg).slots
      ensures out.offered == old(out.offered) + FlushAll(old(SlotValues()), now, cfg).events
    {
      ghost var was, sent := SlotValues(), out.offered;
      ValuesSettled();
      hide AllSettled, SlotsValid, SlotValues, SoFar, ForEach;
      var keys := SortedKeys(slots.Keys);
      ApplyListed(keys, StaleOp, now);
      BatchDone(was, keys, StaleOp, now, cfg, sent, SlotValues(), out.offered);
    }

    /** Phase B of a sweep: slots far enough behind are sealed, in ascending slot order. */
    method SealDueSlots(now: nat)
      requires Valid()
      modifies slots.Values, out
      ensures Valid() && out.Fates() == old(out.Fates())
      ensures AllSettled(old(SlotValues()))
      ensures SlotValues() == SealDue(old(SlotValues()), maxSlot, now, cfg).slots
      ensures out.offered == old(out.offered) + SealDue(old(SlotValues()), maxSlot, now, cfg).events
    {
      ghost var was, sent := SlotValues(), out.offered;
      ValuesSettled();
      hide AllSettled, SlotsValid, SlotValues, SoFar, ForEach;
      if maxSlot >= cfg.sealLag {
        var cutoff := maxSlot - cfg.sealLag;
        var due := set s | s in slots && s <= cutoff && !slots[s].sealed;
        assert due == DueKeys(was, maxSlot, cfg.sealLag);
        var keys := SortedKeys(due);
        ApplyListed(keys, SealOp, now);
        BatchDone(was, keys, SealOp, now, cfg, sent, SlotValues(), out.offered);
      } else {
        NoneDue(was, maxSlot, now, cfg);
        AppendNothing(sent);
      }
    }

    method Sweep(now: nat)
      requires Valid()
      modifies this`slots, slots.Values, out
      ensures Valid() && slots.Values <= old(slots.Values)
      ensures Value() == SweepAll(old(Value()), now, cfg)
    {
      ghost var was := Value();
      hide AllSettled, SlotsValid, SlotValues, FlushAll, SealDue, Retain;
      FlushEverySlot(now);
      ghost var a := FlushAll(was.slots, now, cfg);
      SealDueSlots(now);
      ghost var b := SealDue(a.slots, maxSlot, now, cfg);
      AppendTwice(was.log, a.events, b.events);
      DropOld();
    }

    /** The flush at shutdown: one more sweep, then every slot left is sealed. */
    method FinalFlush(end: nat)
      requires Valid()
      modifies this`slots, slots.Values, out
      ensures Valid() && AllSettled(old(SlotValues())) && Value() == Shutdown(old(Value()), end, cfg)
    {
      ValuesSettled();
      hide AllSettled, SlotsValid, SlotValues, SoFar, ForEach, SweepAll;
      Sweep(end);
      SealRest(end);
    }

    method SealRest(end: nat)
      requires Valid()
      modifies slots.Values, out
      ensures Valid() && AllSettled(old(SlotValues()))
      ensures var swept := old(Value());
              var keys := SortedKeys(swept.slots.Keys);
              var b := ForEach(swept.slots, keys, |keys|, SealOp, end, cfg);
              Value() == swept.(slots := b.slots, log := swept.log + b.events)
    {
      hide AllSettled, SlotsValid, SlotValues, SoFar, ForEach;
      ghost var swept := Value();
      ValuesSettled();
      var remaining := SortedKeys(slots.Keys);
      ApplyListed(remaining, SealOp, end);
      BatchDone(swept.slots, remaining, SealOp, end, cfg, swept.log, SlotValues(), out.offered);
    }

    /** The supervisor loop on one sequence of messages and timer ticks, then the final flush. */
    method RunLoop(inputs: seq<Input>, end: nat)
      requires Valid() && Value() == EMPTY
      modifies this, out, slots.Values
      ensures Valid() && Value() == WholeRun(inputs, end, cfg)
      ensures out.immediate + out.reordered + out.replaced + out.overCapacity + out.belowExpected + out.afterSeal
              == R.ArrivalCount(inputs, |inputs|)
    {
      hide SlotsValid, SlotValues, PohSupervisor.Process, SweepAll, Shutdown, AllSettled;
      for i := 0 to |inputs|
        invariant Valid() && fresh(slots.Values - old(slots.Values))
        invariant Value() == PohSupervisor.Run(inputs, i, cfg)
      {
        match inputs[i]
        case Arrival(obs, now) => OnArrival(obs, now);
        case Sweep(now) => Sweep(now);
      }
      FinalFlush(end);
      CountersBalance(inputs, end);
    }

    /** Conservation, on the counters themselves. */
    lemma CountersBalance(inputs: seq<Input>, end: nat)
      requires Valid() && Value() == WholeRun(inputs, end, cfg)
      ensures out.immediate + out.reordered + out.replaced + out.overCapacity + out.belowExpected + out.afterSeal
              == R.ArrivalCount(inputs, |inputs|)
    {
      hide WholeRun, SlotsValid, SlotValues, R.PendingTotal, R.EntryCount, R.ArrivalCount;
      R.ShutdownBalances(inputs, end, cfg);
      EntriesAreTallied(out.offered);
      hide Tally;
    }
  }

  lemma NoneDue(slots: map<nat, SlotState>, maxSlot: nat, now: nat, cfg: Config)
    requires AllSettled(slots) && maxSlot < cfg.sealLag
    ensures SealDue(slots, maxSlot, now, cfg) == Batch(slots, [])
  {
    assert DueKeys(slots, maxSlot, cfg.sealLag) == {};
  }

  /** The first `i` listed slots have been treated. */
  ghost predicate SoFar(was: map<nat, SlotState>, keys: seq<nat>, i: nat, op: Op, now: nat, cfg: Config,
                        sent: seq<Event>, slots: map<nat, SlotState>, offered: seq<Event>) {
    && AllSettled(was) && i <= |keys| && (forall j :: 0 <= j < |keys| ==> keys[j] in was)
    && slots == ForEach(was, keys, i, op, now, cfg).slots
    && offered == sent + ForEach(was, keys, i, op, now, cfg).events
  }

  lemma BatchNone(was: map<nat, SlotState>, keys: seq<nat>, op: Op, now: nat, cfg: Config, sent: seq<Event>)
    requires AllSettled(was) && forall j :: 0 <= j < |keys| ==> keys[j] in was
    ensures SoFar(was, keys, 0, op, now, cfg, sent, was, sent)
  {
    AppendNothing(sent);
  }

  lemma BatchNext(was: map<nat, SlotState>, keys: seq<nat>, i: nat, op: Op, now: nat, cfg: Config,
                  sent: seq<Event>, slots: map<nat, SlotState>, offered: seq<Event>)
    requires SoFar(was, keys, i, op, now, cfg, sent, slots, offered) && i < |keys|
    ensures keys[i] in slots && Settled(keys[i], slots[keys[i]])
    ensures var step := Apply(op, keys[i], slots[keys[i]], now, cfg);
            SoFar(was, keys, i + 1, op, now, cfg, sent, slots[keys[i] := step.state], offered + step.events)
  {
    hide Settled, Apply;
    var b := ForEach(was, keys, i, op, now, cfg);
    AppendTwice(sent, b.events, Apply(op, keys[i], b.slots[keys[i]], now, cfg).events);
  }

  lemma BatchDone(was: map<nat, SlotState>, keys: seq<nat>, op: Op, now: nat, cfg: Config,
                  sent: seq<Event>, slots: map<nat, SlotState>, offered: seq<Event>)
    requires SoFar(was, keys, |keys|, op, now, cfg, sent, slots, offered)
    ensures AllSettled(was) && forall j :: 0 <= j < |keys| ==> keys[j] in was
    ensures var r := ForEach(was, keys, |keys|, op, now, cfg);
            slots == r.slots && slots.Keys == was.Keys && offered == sent + r.events
  {
    hide Settled, Apply;
  }
}
