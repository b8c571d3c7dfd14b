/** What the supervisor promises, read off the arrivals, the buffer and the clock in plain numbers: when slots are
    sealed and forgotten, what every event carries, where every arrival goes, and what the counters count. */
module PohLaws {
  import opened Common
  import opened PohSlot
  import opened PohTrack
  import opened PohSupervisor
  import L = Lifetimes
  import M = PohMachine

  // ---------------------------------------------------------------- when a slot is sealed and forgotten

  /** Some arrival among the first `n` inputs is of slot `bound` or above. */
  ghost predicate SeenFrom(inputs: seq<Input>, n: nat, bound: nat)
    requires n <= |inputs|
  {
    exists i :: 0 <= i < n && inputs[i].Arrival? && inputs[i].obs.slot >= bound
  }

  lemma {:induction false} MaxSlotExactly(inputs: seq<Input>, n: nat, bound: nat)
    requires n <= |inputs|
    ensures MaxSlot(inputs, n) >= bound <==> bound == 0 || SeenFrom(inputs, n, bound)
  {
    if n > 0 {
      MaxSlotExactly(inputs, n - 1, bound);
      if SeenFrom(inputs, n, bound) {
        var i :| 0 <= i < n && inputs[i].Arrival? && inputs[i].obs.slot >= bound;
        assert i == n - 1 || SeenFrom(inputs, n - 1, bound);
      }
    }
  }

  /** A slot that is held has been seen. */
  lemma HeldWasSeen(slot: nat, inputs: seq<Input>, n: nat, cfg: Config)
    requires n <= |inputs| && TrackRun(slot, inputs, n, cfg).state.Some?
    ensures SeenFrom(inputs, n, slot)
  {
    TrackCountsBirths(slot, inputs, n, cfg);
    L.BirthsNeedArrivals(Marks(slot, inputs, cfg), n);
    ArrivedIs(slot, inputs, n, cfg);
    var i :| 0 <= i < n && ArrivalFor(inputs[i], slot);
  }

  /** A sweep after `n` inputs seals a slot it holds unsealed if and only if some arrival so far is of a slot at
      least `sealLag` above it. */
  lemma SweepSealsExactly(slot: nat, inputs: seq<Input>, n: nat, now: nat, cfg: Config)
    requires n <= |inputs|
    requires var t := TrackRun(slot, inputs, n, cfg); t.state.Some? && !t.state.value.sealed
    ensures var t' := TrackSweep(slot, TrackRun(slot, inputs, n, cfg), now, cfg);
            t'.state.None? || t'.state.value.sealed <==> SeenFrom(inputs, n, slot + cfg.sealLag)
  {
    var t := TrackRun(slot, inputs, n, cfg);
    TrackCountsBirths(slot, inputs, n, cfg);
    HeldWasSeen(slot, inputs, n, cfg);
    MaxSlotExactly(inputs, n, slot + cfg.sealLag);
    hide TrackRun, FlushStale, Seal, Settled;
  }

  /** A sweep forgets a slot it holds if and only if the slot is or gets sealed, and is 0 or some arrival so far is of
      a slot at least `sealLag` + 10 above it. */
  lemma SweepForgetsExactly(slot: nat, inputs: seq<Input>, n: nat, now: nat, cfg: Config)
    requires n <= |inputs| && TrackRun(slot, inputs, n, cfg).state.Some?
    ensures var t := TrackRun(slot, inputs, n, cfg);
            TrackSweep(slot, t, now, cfg).state.None?
            <==> && (t.state.value.sealed || SeenFrom(inputs, n, slot + cfg.sealLag))
                 && (slot == 0 || SeenFrom(inputs, n, slot + cfg.sealLag + 10))
  {
    var t := TrackRun(slot, inputs, n, cfg);
    TrackCountsBirths(slot, inputs, n, cfg);
    HeldWasSeen(slot, inputs, n, cfg);
    MaxSlotExactly(inputs, n, slot + cfg.sealLag);
    MaxSlotExactly(inputs, n, slot + cfg.sealLag + 10);
    hide TrackRun, FlushStale, Seal, Settled;
  }

  /** The same on the log: a sweep offers the lifecycle event of an unsealed slot, once, exactly then. */
  lemma SweepEndsExactly(s: nat, inputs: seq<Input>, n: nat, now: nat, cfg: Config)
    requires n <= |inputs| && s in Run(inputs, n, cfg).slots && !Run(inputs, n, cfg).slots[s].sealed
    ensures Lifecycles(Of(SweepAll(Run(inputs, n, cfg), now, cfg).log, s))
            == Lifecycles(Of(Run(inputs, n, cfg).log, s)) + if SeenFrom(inputs, n, s + cfg.sealLag) then 1 else 0
  {
    hide Run, TrackRun, SweepAll, SweepSlot, Settled, TrackInv, SeenFrom;
    var sup, t := Run(inputs, n, cfg), TrackRun(s, inputs, n, cfg);
    Isolation(s, inputs, n, cfg);
    assert t.state == Some(sup.slots[s]);
    var events := SealsOnce(s, inputs, n, now, cfg);
    SweepAt(s, sup, now, cfg);
    LifecyclesAppend(Of(sup.log, s), events);
  }

  lemma SealsOnce(slot: nat, inputs: seq<Input>, n: nat, now: nat, cfg: Config) returns (events: seq<Event>)
    requires n <= |inputs|
    requires var t := TrackRun(slot, inputs, n, cfg); t.state.Some? && !t.state.value.sealed
    ensures var t := TrackRun(slot, inputs, n, cfg);
            events == SweepSlot(slot, t.state.value, now, t.maxSlot, cfg).events
    ensures Lifecycles(events) == if SeenFrom(inputs, n, slot + cfg.sealLag) then 1 else 0
  {
    SweepSealsExactly(slot, inputs, n, now, cfg);
    EveryRunIsGapless(slot, inputs, n, cfg);
    hide TrackRun, LiveLife, SweepSlot, Settled, SeenFrom;
    var t := TrackRun(slot, inputs, n, cfg);
    SweepSlotLifecycle(slot, t.state.value, t.life, now, t.maxSlot, cfg);
    events := SweepSlot(slot, t.state.value, now, t.maxSlot, cfg).events;
  }

  lemma SweepSlotLifecycle(slot: nat, st: SlotState, life: Life, now: nat, maxSlot: nat, cfg: Config)
    requires Settled(slot, st) && !st.sealed && LiveLife(slot, st, life)
    ensures var r := SweepSlot(slot, st, now, maxSlot, cfg);
            Lifecycles(r.events) == if r.state.sealed then 1 else 0
  {
    var r := SweepSlot(slot, st, now, maxSlot, cfg);
    SweepSlotKeepsLife(slot, st, life, now, maxSlot, cfg);
    LifecyclesAppend(life.events, r.events);
    BodyHasNoLifecycle(slot, life.events);
    hide SweepSlot, Settled, Accounts, Ticked, WellPlaced;
    var es := life.events + r.events;
    if r.state.sealed {
      BodyHasNoLifecycle(slot, es[..|es| - 1]);
    } else {
      BodyHasNoLifecycle(slot, es);
    }
  }

  // ---------------------------------------------------------------- what every event carries

  /** From one instant to another in whole microseconds, none if it is not later, at most 2^32 - 1. */
  function CappedUs(from: nat, to: nat): nat {
    if to <= from then 0
    else if (to - from) / 1000 > 4_294_967_295 then 4_294_967_295
    else (to - from) / 1000
  }

  /** `p` is the lowest waiting index above `i`. */
  ghost predicate NextWaiting(pending: map<nat, Pending>, i: nat, p: nat) {
    i < p && p in pending && forall q :: q in pending && i < q ==> p <= q
  }

  /** What the event at index `i` of a flush says, given the buffer before the flush: the buffered entry, reordered,
      with its time in the buffer; or a gap, with the time the lowest entry above it has been there. */
  ghost predicate Tells(slot: nat, pending: map<nat, Pending>, now: nat, i: nat, e: Event) {
    if i in pending then
      && e.Entry? && e.slot == pending[i].obs.slot && e.index == i && e.obs == pending[i].obs && e.wasReordered
      && e.waitUs == CappedUs(pending[i].bufferedAt, now)
    else
      && e.Missing? && e.slot == slot && e.index == i
      && exists p: nat :: NextWaiting(pending, i, p) && e.waitedUs == CappedUs(pending[p].bufferedAt, now)
  }

  lemma AdvanceTells(slot: nat, st: SlotState, now: nat, timeout: nat)
    requires Tidy(slot, st) && st.pending != map[]
    ensures Tells(slot, st.pending, now, st.next, Advance(slot, st, now, timeout).1)
  {
    if st.next !in st.pending {
      assert NextWaiting(st.pending, st.next, MinKey(st.pending.Keys));
    }
  }

  lemma TellsEarlier(slot: nat, pending: map<nat, Pending>, first: nat, now: nat, i: nat, e: Event)
    requires first < i && Tells(slot, pending - {first}, now, i, e)
    ensures Tells(slot, pending, now, i, e)
  {
    var rest := pending - {first};
    if i !in pending {
      var p: nat :| NextWaiting(rest, i, p) && e.waitedUs == CappedUs(rest[p].bufferedAt, now);
      forall q | q in pending && i < q ensures p <= q {
        assert q in rest;
      }
      assert NextWaiting(pending, i, p);
    }
  }

  lemma FlushStep(slot: nat, st: SlotState, now: nat, mode: Mode, timeout: nat)
    requires Tidy(slot, st)
    ensures var r := Flush(slot, st, now, mode, timeout);
            if Stopped(st, now, mode, timeout) then r == Step(st, [])
            else
              var (st1, e) := Advance(slot, st, now, timeout);
              var rest := Flush(slot, st1, now, mode, timeout);
              r == Step(rest.state, [e] + rest.events)
  {
  }

  /** Every event of every flush, position by position. */
  lemma {:induction false} FlushTells(slot: nat, st: SlotState, now: nat, mode: Mode, timeout: nat, k: nat)
    requires Tidy(slot, st) && k < |Flush(slot, st, now, mode, timeout).events|
    ensures Tells(slot, st.pending, now, st.next + k, Flush(slot, st, now, mode, timeout).events[k])
    decreases k
  {
    hide Flush, Stopped, Tells, Tidy;
    FlushStep(slot, st, now, mode, timeout);
    AdvanceTells(slot, st, now, timeout);
    var (st1, first) := Advance(slot, st, now, timeout);
    hide Advance;
    if k > 0 {
      FlushTells(slot, st1, now, mode, timeout, k - 1);
      TellsEarlier(slot, st.pending, st.next, now, st.next + k, Flush(slot, st, now, mode, timeout).events[k]);
    }
  }

  /** A flush emits one event per index it passes, and leaves exactly the buffered entries above. */
  lemma {:induction false} FlushPasses(slot: nat, st: SlotState, now: nat, mode: Mode, timeout: nat)
    requires Tidy(slot, st)
    ensures var r := Flush(slot, st, now, mode, timeout);
            && r.state.next == st.next + |r.events|
            && (forall i :: i in r.state.pending <==> i in st.pending && i >= r.state.next)
            && (forall i :: i in r.state.pending ==> r.state.pending[i] == st.pending[i])
    decreases |st.pending|, Gap(st)
  {
    FlushStep(slot, st, now, mode, timeout);
    if !Stopped(st, now, mode, timeout) {
      var (st1, e) := Advance(slot, st, now, timeout);
      FlushPasses(slot, st1, now, mode, timeout);
      hide Advance, Flush;
    }
  }

  /** Draining never gives up a gap: it passes buffered indices only, and stops at the first one that is not there. */
  lemma {:induction false} DrainPasses(slot: nat, st: SlotState, now: nat, timeout: nat)
    requires Tidy(slot, st)
    ensures var r := Flush(slot, st, now, DrainOnly, timeout);
            r.state.next !in st.pending && forall i :: st.next <= i < r.state.next ==> i in st.pending
    decreases |st.pending|, Gap(st)
  {
    hide Flush;
    FlushStep(slot, st, now, DrainOnly, timeout);
    if !Stopped(st, now, DrainOnly, timeout) {
      assert st.next in st.pending;
      var (st1, e) := Advance(slot, st, now, timeout);
      hide Advance, Stopped;
      DrainPasses(slot, st1, now, timeout);
      FlushPasses(slot, st1, now, DrainOnly, timeout);
      hide Tidy;
    }
  }

  // ---------------------------------------------------------------- where every arrival goes

  /** An arrival at a sealed slot changes nothing. */
  lemma SealedTakesNothing(slot: nat, st: SlotState, obs: Observation, now: nat, cfg: Config)
    requires Settled(slot, st) && obs.slot == slot && st.sealed
    ensures Arrive(slot, st, obs, now, cfg) == Step(st, [])
  {
  }

  lemma ExpectedIs(slot: nat, st: SlotState, obs: Observation, now: nat, cfg: Config) returns (st1: SlotState, e: Event)
    requires Settled(slot, st) && obs.slot == slot && !st.sealed && obs.index == st.next
    ensures Tidy(slot, st1) && st1.pending == st.pending && st1.next == st.next + 1
    ensures e.Entry? && e.obs == obs && e.index == obs.index && !e.wasReordered && e.waitUs == 0
    ensures var r, rest := Arrive(slot, st, obs, now, cfg), Flush(slot, st1, now, DrainOnly, cfg.entryTimeout);
            r.events == [e] + rest.events && r.state == rest.state
  {
    var emitted := EmitEntry(Noticed(st, now), obs, now, false, 0);
    st1, e := emitted.0, emitted.1;
    hide Flush;
  }

  /** The expected entry is emitted at once, unreordered, followed by the buffered entries of the indices right
      after it, reordered, up to the first index that is not there. */
  lemma ExpectedGoesOut(slot: nat, st: SlotState, obs: Observation, now: nat, cfg: Config) returns (r: Step)
    requires Settled(slot, st) && obs.slot == slot && !st.sealed && obs.index == st.next
    ensures r == Arrive(slot, st, obs, now, cfg)
    ensures GoesOut(slot, st.pending, st.next, now, r)
    ensures r.events != [] && r.events[0].Entry? && r.events[0].obs == obs && r.events[0].index == obs.index
    ensures !r.events[0].wasReordered && r.events[0].waitUs == 0
  {
    hide Arrive, Flush, GoesOut, Tidy, Settled;
    r := Arrive(slot, st, obs, now, cfg);
    var st1, e := ExpectedIs(slot, st, obs, now, cfg);
    DrainTells(slot, st1, st.pending, st.next, now, cfg.entryTimeout, e, r);
  }

  /** The whole of what goes out with an expected entry at index `first`. */
  ghost predicate GoesOut(slot: nat, pending: map<nat, Pending>, first: nat, now: nat, r: Step) {
    && |r.events| > 0 && r.state.next == first + |r.events| && r.state.next !in pending
    && (forall k :: 0 < k < |r.events| ==> first + k in pending && Tells(slot, pending, now, first + k, r.events[k]))
    && (forall i :: i in r.state.pending <==> i in pending && i > r.state.next)
    && (forall i :: i in r.state.pending ==> r.state.pending[i] == pending[i])
  }

  lemma DrainTells(
      slot: nat, st: SlotState, pending: map<nat, Pending>, first: nat, now: nat, timeout: nat, e: Event, r: Step)
    requires Tidy(slot, st) && st.next == first + 1 && st.pending == pending
    requires var rest := Flush(slot, st, now, DrainOnly, timeout); r == Step(rest.state, [e] + rest.events)
    ensures GoesOut(slot, pending, first, now, r)
  {
    hide Flush, Tells, Tidy;
    var rest := Flush(slot, st, now, DrainOnly, timeout);
    FlushPasses(slot, st, now, DrainOnly, timeout);
    DrainPasses(slot, st, now, timeout);
    forall k | 0 < k < |r.events|
      ensures first + k in pending && Tells(slot, pending, now, first + k, r.events[k])
    {
      FlushTells(slot, st, now, DrainOnly, timeout, k - 1);
      assert r.events[k] == rest.events[k - 1] && first + k == st.next + (k - 1);
    }
  }

  /** An entry above the expected one waits, with its arrival time, in place of whatever waited at its index; unless
      the buffer is full, and then it is dropped, whatever its index. */
  lemma AheadWaits(slot: nat, st: SlotState, obs: Observation, now: nat, cfg: Config) returns (r: Step)
    requires Settled(slot, st) && obs.slot == slot && !st.sealed && obs.index > st.next
    ensures r == Arrive(slot, st, obs, now, cfg)
    ensures r.events == [] && r.state.next == st.next && r.state.poh == st.poh && !r.state.sealed
    ensures r.state.pending == if |st.pending| >= cfg.maxPending then st.pending
                               else st.pending[obs.index := Pending(obs, now)]
  {
    r := Arrive(slot, st, obs, now, cfg);
    hide ArriveExpected, Settled, CountTick;
  }

  /** An entry below the expected one is dropped, and counts as a tick if it has no transactions and the slot has
      fewer than 64. */
  lemma BehindIsDropped(slot: nat, st: SlotState, obs: Observation, now: nat, cfg: Config)
    requires Settled(slot, st) && obs.slot == slot && !st.sealed && obs.index < st.next
    ensures var r := Arrive(slot, st, obs, now, cfg);
            && r.events == [] && r.state.next == st.next && r.state.pending == st.pending && !r.state.sealed
            && r.state.poh == st.poh.(tick := if obs.txCount == 0 && st.poh.tick < 64 then st.poh.tick + 1
                                              else st.poh.tick)
  {
  }

  /** Which counter each arrival raises. */
  lemma ArrivalCounts(sup: Sup, obs: Observation, now: nat, cfg: Config)
    requires AllSettled(sup.slots)
    ensures var st := if obs.slot in sup.slots then sup.slots[obs.slot] else FRESH;
            var f, g, r := sup.fates, Process(sup, obs, now, cfg).fates, Process(sup, obs, now, cfg);
            var ahead := !st.sealed && obs.index > st.next;
            && g.arrivals == f.arrivals + 1
            && g.afterSeal == f.afterSeal + (if st.sealed then 1 else 0)
            && g.belowExpected == f.belowExpected + (if !st.sealed && obs.index < st.next then 1 else 0)
            && g.overCapacity == f.overCapacity + (if ahead && |st.pending| >= cfg.maxPending then 1 else 0)
            && g.replaced == f.replaced
                             + (if ahead && |st.pending| < cfg.maxPending && obs.index in st.pending then 1 else 0)
            && g.peak == (if ahead && |st.pending| < cfg.maxPending && |r.slots[obs.slot].pending| > f.peak
                          then |r.slots[obs.slot].pending| else f.peak)
  {
    hide Arrive;
  }

  // ---------------------------------------------------------------- what the event counters count

  datatype Kind = ImmediateEntry | ReorderedEntry | GapMarker | CompleteSlot | IncompleteSlot | GappySlot

  predicate IsOf(e: Event, kind: Kind) {
    match kind
    case ImmediateEntry => e.Entry? && !e.wasReordered
    case ReorderedEntry => e.Entry? && e.wasReordered
    case GapMarker => e.Missing?
    case CompleteSlot => e.SlotComplete?
    case IncompleteSlot => e.SlotIncomplete?
    case GappySlot => (e.SlotComplete? || e.SlotIncomplete?) && e.missingCount > 0
  }

  /** The positions of the events of a kind. */
  function Where(es: seq<Event>, kind: Kind): set<nat> {
    set k: nat | k < |es| && IsOf(es[k], kind)
  }

  lemma WhereSnoc(es: seq<Event>, e: Event, kind: Kind)
    ensures |Where([], kind)| == 0
    ensures |Where(es + [e], kind)| == |Where(es, kind)| + if IsOf(e, kind) then 1 else 0
  {
    WhereNext(es, e, kind);
    hide Where;
  }

  lemma WhereNext(es: seq<Event>, e: Event, kind: Kind)
    ensures Where([], kind) == {}
    ensures Where(es + [e], kind) == Where(es, kind) + if IsOf(e, kind) then {|es|} else {}
    ensures |es| !in Where(es, kind)
  {
    hide IsOf;
    forall k: nat | k < |es| ensures (es + [e])[k] == es[k] {
    }
  }

  function Waits(es: seq<Event>): seq<nat> {
    if es == [] then []
    else
      var last := es[|es| - 1];
      Waits(es[..|es| - 1]) + if last.Entry? && last.wasReordered then [last.waitUs] else []
  }

  ghost predicate TalliesKind(es: seq<Event>, count: nat, kind: Kind) {
    count == |Where(es, kind)|
  }

  lemma TallyKind(before: seq<Event>, e: Event, count: nat, kind: Kind)
    requires TalliesKind(before, count, kind)
    ensures TalliesKind(before + [e], count + if IsOf(e, kind) then 1 else 0, kind)
  {
    WhereSnoc(before, e, kind);
  }

  /** Each event counter counts the events of its kind in the log; the wait figures are those of the reordered
      entries. */
  lemma {:induction false} TallyExactly(es: seq<Event>)
    ensures var c := M.Tally(es);
            && TalliesKind(es, c.immediate, ImmediateEntry) && TalliesKind(es, c.reordered, ReorderedEntry)
            && TalliesKind(es, c.missing, GapMarker) && TalliesKind(es, c.complete, CompleteSlot)
            && TalliesKind(es, c.incomplete, IncompleteSlot) && TalliesKind(es, c.withMissing, GappySlot)
            && c.waitSum == Sum(Waits(es)) && c.waitMax == Greatest(Waits(es))
  {
    if es == [] {
      forall kind: Kind ensures TalliesKind([], 0, kind) {
        WhereSnoc([], Missing(0, 0, 0), kind);
      }
    } else {
      var before, e := es[..|es| - 1], es[|es| - 1];
      TallyExactly(before);
      hide TalliesKind;
      assert es == before + [e];
      var c := M.Tally(before);
      TallyKind(before, e, c.immediate, ImmediateEntry);
      TallyKind(before, e, c.reordered, ReorderedEntry);
      TallyKind(before, e, c.missing, GapMarker);
      TallyKind(before, e, c.complete, CompleteSlot);
      TallyKind(before, e, c.incomplete, IncompleteSlot);
      TallyKind(before, e, c.withMissing, GappySlot);
      if e.Entry? && e.wasReordered {
        StatsSnoc(Waits(before), e.waitUs);
      } else {
        AppendNothing(Waits(before));
      }
    }
  }

  // ---------------------------------------------------------------- the order of a sweep

  ghost predicate Ascending(es: seq<Event>) {
    forall i, j :: 0 <= i < j < |es| ==> es[i].slot <= es[j].slot
  }

  /** A loop over slots in ascending order offers its events in ascending order of slots. */
  lemma {:induction false} ForEachAscends(
      slots: map<nat, SlotState>, keys: seq<nat>, n: nat, op: Op, now: nat, cfg: Config)
    requires AllSettled(slots) && n <= |keys| && Increasing(keys) && forall i :: 0 <= i < |keys| ==> keys[i] in slots
    ensures var r := ForEach(slots, keys, n, op, now, cfg);
            Ascending(r.events) && forall i :: 0 <= i < |r.events| ==> n > 0 && r.events[i].slot <= keys[n - 1]
  {
    hide Apply, Settled;
    if n > 0 {
      ForEachAscends(slots, keys, n - 1, op, now, cfg);
    }
  }

  /** A sweep first gives up stale gaps, then seals, each in ascending order of slots. */
  lemma SweepAscends(sup: Sup, now: nat, cfg: Config) returns (stale: seq<Event>, seals: seq<Event>)
    requires AllSettled(sup.slots)
    ensures SweepAll(sup, now, cfg).log == sup.log + (stale + seals) && Ascending(stale) && Ascending(seals)
  {
    hide ForEach, Ascending, AllSettled, Retain;
    var a := FlushAll(sup.slots, now, cfg);
    var b := SealDue(a.slots, sup.maxSlot, now, cfg);
    stale, seals := a.events, b.events;
    AllListed(sup.slots, sup.slots.Keys, StaleOp, now, cfg);
    AllListed(a.slots, DueKeys(a.slots, sup.maxSlot, cfg.sealLag), SealOp, now, cfg);
  }

  lemma AllListed(slots: map<nat, SlotState>, listed: set<nat>, op: Op, now: nat, cfg: Config)
    requires AllSettled(slots) && listed <= slots.Keys
    ensures var keys := SortedKeys(listed); Ascending(ForEach(slots, keys, |keys|, op, now, cfg).events)
  {
    hide ForEach, Ascending;
    var keys := SortedKeys(listed);
    ForEachAscends(slots, keys, |keys|, op, now, cfg);
  }
}
