/** Order independence of the PoH supervisor: when a slot is not disturbed by timeouts, drops or
    restarts, its transcript is a function of the set of entries that arrived, not of their order. */
module PohCanonical {
  import opened Common
  import opened PohSlot
  import opened PohTrack
  import opened PohSupervisor

  // ---------------------------------------------------------------- the canonical transcript

  /** The entries of a slot, by index. */
  type Entries = map<nat, Observation>

  function HashesBelow(a: Entries, n: nat): nat {
    if n == 0 then 0 else HashesBelow(a, n - 1) + if n - 1 in a then a[n - 1].numHashes else 0
  }

  function TicksBelow(a: Entries, n: nat): nat {
    if n == 0 then 0 else TicksBelow(a, n - 1) + if n - 1 in a && a[n - 1].txCount == 0 then 1 else 0
  }

  function PresentBelow(a: Entries, n: nat): (r: nat)
    ensures r <= n
  {
    if n == 0 then 0 else PresentBelow(a, n - 1) + if n - 1 in a then 1 else 0
  }

  function LastBelow(a: Entries, n: nat): Option<Observation> {
    if n == 0 then None else if n - 1 in a then Some(a[n - 1]) else LastBelow(a, n - 1)
  }

  /** One past the highest index that arrived. */
  function Top(a: Entries): nat {
    if a == map[] then 0 else MaxKey(a.Keys) + 1
  }

  function CanonEvent(slot: nat, a: Entries, i: nat): Event {
    if i in a
    then Entry(slot, i, Min(TICKS_PER_SLOT, TicksBelow(a, i + 1)), Min(U64_MAX, HashesBelow(a, i + 1)), a[i],
               false, 0, PresentBelow(a, i) < i)
    else Missing(slot, i, 0)
  }

  function CanonEnding(slot: nat, a: Entries, n: nat): Event {
    var last := LastBelow(a, n);
    var hash := if last.Some? then last.value.hash else DEFAULT_HASH;
    var ticks := Min(TICKS_PER_SLOT, TicksBelow(a, n));
    if ticks >= TICKS_PER_SLOT then SlotComplete(slot, PresentBelow(a, n), hash, ticks, n - PresentBelow(a, n))
    else SlotIncomplete(slot, if last.Some? then last.value.index else 0, hash, ticks, n - PresentBelow(a, n))
  }

  /** `Entry(i)` for each index that arrived, `Missing(i)` for each gap below, then the ending. */
  function Canonical(slot: nat, a: Entries): seq<Event> {
    seq(Top(a), i requires 0 <= i => CanonEvent(slot, a, i)) + [CanonEnding(slot, a, Top(a))]
  }

  /** Forget how long an event waited and whether it was reordered. */
  function StripEvent(e: Event): Event {
    match e
    case Entry(_, _, _, _, _, _, _, _) => e.(wasReordered := false, waitUs := 0)
    case Missing(_, _, _) => e.(waitedUs := 0)
    case _ => e
  }

  function Strip(es: seq<Event>): seq<Event> {
    seq(|es|, k requires 0 <= k < |es| => StripEvent(es[k]))
  }

  // ---------------------------------------------------------------- a slot in step with its entries

  ghost predicate PohAt(poh: Poh, a: Entries, n: nat) {
    && poh.cumulativeHashes == Min(U64_MAX, HashesBelow(a, n))
    && poh.tick == Min(TICKS_PER_SLOT, TicksBelow(a, n))
    && poh.totalEmitted == PresentBelow(a, n)
    && poh.missingCount == n - PresentBelow(a, n)
    && poh.hasMissing == (PresentBelow(a, n) < n)
    && poh.lastHash == (if LastBelow(a, n).Some? then Some(LastBelow(a, n).value.hash) else None)
    && poh.lastIndex == (if LastBelow(a, n).Some? then LastBelow(a, n).value.index else 0)
  }

  ghost predicate Filed(slot: nat, a: Entries) {
    forall i :: i in a ==> a[i].index == i && a[i].slot == slot
  }

  /** The buffer holds exactly the entries at or above the expected index. */
  ghost predicate Aligned(st: SlotState, a: Entries) {
    && (forall i :: i in st.pending <==> i in a && i >= st.next)
    && (forall i :: i in st.pending ==> st.pending[i].obs == a[i])
    && st.next <= Top(a)
  }

  ghost predicate Reads(slot: nat, a: Entries, es: seq<Event>) {
    forall k :: 0 <= k < |es| ==> StripEvent(es[k]) == CanonEvent(slot, a, k)
  }

  /** An unsealed slot whose events so far are canonical for the entries `a`. */
  ghost predicate InStep(slot: nat, st: SlotState, a: Entries, es: seq<Event>) {
    && !st.sealed && Tidy(slot, st) && Filed(slot, a) && Aligned(st, a)
    && PohAt(st.poh, a, st.next)
    && |es| == st.next && Reads(slot, a, es)
  }

  lemma ReadsSnoc(slot: nat, a: Entries, es: seq<Event>, e: Event)
    requires Reads(slot, a, es) && StripEvent(e) == CanonEvent(slot, a, |es|)
    ensures Reads(slot, a, es + [e])
  {
  }

  lemma TopBounds(a: Entries, i: nat)
    requires i in a
    ensures i < Top(a)
  {
  }

  lemma EntryReads(slot: nat, st: SlotState, a: Entries, now: nat)
    requires Tidy(slot, st) && Filed(slot, a) && Aligned(st, a) && PohAt(st.poh, a, st.next) && st.next in st.pending
    ensures var (st1, e) := PopNext(st, now);
            StripEvent(e) == CanonEvent(slot, a, st.next) && PohAt(st1.poh, a, st.next + 1)
  {
    hide Top;
  }

  lemma MissingReads(slot: nat, st: SlotState, a: Entries, now: nat, timeout: nat)
    requires Tidy(slot, st) && Filed(slot, a) && Aligned(st, a) && PohAt(st.poh, a, st.next)
    requires st.pending != map[] && st.next !in st.pending
    ensures var (st1, e) := EmitMissing(st, slot, now, timeout);
            StripEvent(e) == CanonEvent(slot, a, st.next) && PohAt(st1.poh, a, st.next + 1)
  {
    hide Top;
  }

  lemma AdvanceReads(slot: nat, st: SlotState, a: Entries, now: nat, timeout: nat)
    requires Tidy(slot, st) && Filed(slot, a) && Aligned(st, a) && PohAt(st.poh, a, st.next) && st.pending != map[]
    ensures var (st1, e) := Advance(slot, st, now, timeout);
            StripEvent(e) == CanonEvent(slot, a, st.next) && PohAt(st1.poh, a, st.next + 1)
  {
    hide Top, StripEvent, CanonEvent, PohAt, Filed, Aligned, PopNext, EmitMissing;
    if st.next in st.pending {
      EntryReads(slot, st, a, now);
    } else {
      MissingReads(slot, st, a, now, timeout);
    }
  }

  lemma AdvanceAligned(slot: nat, st: SlotState, a: Entries, now: nat, timeout: nat)
    requires Tidy(slot, st) && Aligned(st, a) && st.pending != map[]
    ensures Aligned(Advance(slot, st, now, timeout).0, a)
  {
    TopBounds(a, MinKey(st.pending.Keys));
    hide Advance, Top;
  }

  lemma AdvanceInStep(slot: nat, st: SlotState, a: Entries, es: seq<Event>, now: nat, timeout: nat)
    requires InStep(slot, st, a, es) && st.pending != map[]
    ensures var (st1, e) := Advance(slot, st, now, timeout);
            InStep(slot, st1, a, es + [e])
  {
    hide PohAt, Aligned, Tidy, Filed, Reads, Advance;
    AdvanceReads(slot, st, a, now, timeout);
    AdvanceAligned(slot, st, a, now, timeout);
    ReadsSnoc(slot, a, es, Advance(slot, st, now, timeout).1);
  }

  lemma {:induction false} FlushInStep(slot: nat, st: SlotState, a: Entries, es: seq<Event>, now: nat, mode: Mode,
                                       timeout: nat)
    requires InStep(slot, st, a, es)
    ensures var r := Flush(slot, st, now, mode, timeout);
            InStep(slot, r.state, a, es + r.events)
    decreases |st.pending|, Gap(st)
  {
    assert Tidy(slot, st);
    hide InStep, Tidy, Stopped, Advance;
    if Stopped(st, now, mode, timeout) {
      AppendNothing(es);
    } else {
      var (st1, e) := Advance(slot, st, now, timeout);
      AdvanceInStep(slot, st, a, es, now, timeout);
      FlushInStep(slot, st1, a, es + [e], now, mode, timeout);
      Reassociate(es, e, Flush(slot, st1, now, mode, timeout).events);
    }
  }

  lemma EmptyReachesTop(slot: nat, st: SlotState, a: Entries, es: seq<Event>)
    requires InStep(slot, st, a, es) && st.pending == map[]
    ensures st.next == Top(a)
  {
    if a != map[] {
      assert MaxKey(a.Keys) !in st.pending;
    }
  }

  lemma EndingIsCanonical(slot: nat, st: SlotState, a: Entries, body: seq<Event>)
    requires InStep(slot, st, a, body) && st.pending == map[]
    ensures Strip(body + [SealEvent(slot, st.poh)]) == Canonical(slot, a)
  {
    EmptyReachesTop(slot, st, a, body);
    assert SealEvent(slot, st.poh) == CanonEnding(slot, a, Top(a));
    hide PohAt, Aligned, Tidy, SealEvent, CanonEnding, Top, CanonEvent;
    var es := body + [SealEvent(slot, st.poh)];
    var want := Canonical(slot, a);
    assert |Strip(es)| == |want|;
    forall k | 0 <= k < |want| ensures Strip(es)[k] == want[k] {
      if k < |body| {
        assert StripEvent(body[k]) == CanonEvent(slot, a, k);
      }
    }
  }

  lemma SealIsCanonical(slot: nat, st: SlotState, a: Entries, es: seq<Event>, now: nat, cfg: Config)
    requires InStep(slot, st, a, es)
    ensures Strip(es + Seal(slot, st, now, cfg).events) == Canonical(slot, a)
  {
    assert !st.sealed && Tidy(slot, st);
    hide InStep, Tidy, Strip, Canonical, SealEvent;
    FlushInStep(slot, st, a, es, now, SealAll, cfg.entryTimeout);
    var f := Flush(slot, st, now, SealAll, cfg.entryTimeout);
    assert f.state.pending == map[];
    hide Flush;
    EndingIsCanonical(slot, f.state, a, es + f.events);
    AppendTwice(es, f.events, [SealEvent(slot, f.state.poh)]);
  }

  // ---------------------------------------------------------------- new entries

  ghost predicate AgreeBelow(a: Entries, b: Entries, n: nat) {
    forall i :: 0 <= i < n ==> (i in a <==> i in b) && (i in a ==> a[i] == b[i])
  }

  lemma {:induction false} BelowStable(a: Entries, b: Entries, n: nat)
    requires AgreeBelow(a, b, n)
    ensures HashesBelow(a, n) == HashesBelow(b, n) && TicksBelow(a, n) == TicksBelow(b, n)
    ensures PresentBelow(a, n) == PresentBelow(b, n) && LastBelow(a, n) == LastBelow(b, n)
  {
    if n > 0 {
      BelowStable(a, b, n - 1);
    }
  }

  lemma ReadsStable(slot: nat, a: Entries, b: Entries, es: seq<Event>)
    requires AgreeBelow(a, b, |es|) && Reads(slot, a, es)
    ensures Reads(slot, b, es)
  {
    forall k | 0 <= k < |es| ensures StripEvent(es[k]) == CanonEvent(slot, b, k) {
      BelowStable(a, b, k);
      BelowStable(a, b, k + 1);
    }
  }

  lemma TopGrows(a: Entries, obs: Observation)
    ensures Top(a) <= Top(a[obs.index := obs]) && obs.index < Top(a[obs.index := obs])
  {
    var b := a[obs.index := obs];
    assert obs.index in b.Keys;
    if a != map[] {
      assert MaxKey(a.Keys) in b.Keys;
    }
  }

  lemma EmitInStep(slot: nat, st: SlotState, a: Entries, es: seq<Event>, obs: Observation, now: nat)
    requires InStep(slot, st, a, es) && Settled(slot, st) && obs.slot == slot
    requires obs.index == st.next && obs.index !in a
    ensures var (st1, e) := EmitEntry(st, obs, now, false, 0);
            InStep(slot, st1, a[obs.index := obs], es + [e])
  {
    var b := a[obs.index := obs];
    BelowStable(a, b, st.next);
    ReadsStable(slot, a, b, es);
    TopGrows(a, obs);
    var (st1, e) := EmitEntry(st, obs, now, false, 0);
    assert StripEvent(e) == CanonEvent(slot, b, st.next);
    assert PohAt(st1.poh, b, st.next + 1);
    assert Aligned(st1, b);
    hide PohAt, Aligned, CanonEvent, StripEvent;
    ReadsSnoc(slot, b, es, e);
  }

  lemma BufferInStep(slot: nat, st: SlotState, a: Entries, es: seq<Event>, obs: Observation, now: nat)
    requires InStep(slot, st, a, es) && Settled(slot, st) && obs.slot == slot
    requires obs.index > st.next && obs.index !in a
    ensures InStep(slot, Buffer(slot, st, obs, now), a[obs.index := obs], es)
  {
    var b := a[obs.index := obs];
    BelowStable(a, b, st.next);
    ReadsStable(slot, a, b, es);
    TopGrows(a, obs);
  }

  /** No gap has been given up so far. */
  ghost predicate Full(a: Entries, n: nat) {
    forall i :: 0 <= i < n ==> i in a
  }

  lemma {:induction false} DrainStaysFull(slot: nat, st: SlotState, a: Entries, es: seq<Event>, now: nat, timeout: nat)
    requires InStep(slot, st, a, es) && Full(a, st.next)
    ensures Full(a, Flush(slot, st, now, DrainOnly, timeout).state.next)
    decreases |st.pending|, Gap(st)
  {
    assert Tidy(slot, st);
    if !Stopped(st, now, DrainOnly, timeout) {
      hide InStep, Full;
      var (st1, e) := Advance(slot, st, now, timeout);
      AdvanceInStep(slot, st, a, es, now, timeout);
      AdvanceStaysFull(slot, st, a, es, now, timeout);
      DrainStaysFull(slot, st1, a, es + [e], now, timeout);
    }
  }

  lemma AdvanceStaysFull(slot: nat, st: SlotState, a: Entries, es: seq<Event>, now: nat, timeout: nat)
    requires InStep(slot, st, a, es) && Full(a, st.next) && !Stopped(st, now, DrainOnly, timeout)
    ensures Full(a, Advance(slot, st, now, timeout).0.next)
  {
    hide PohAt, Reads, Filed;
  }

  lemma ExpectedInStep(slot: nat, st: SlotState, a: Entries, es: seq<Event>, obs: Observation, now: nat, timeout: nat)
    requires InStep(slot, st, a, es) && Settled(slot, st) && obs.slot == slot && Full(a, st.next)
    requires obs.index == st.next && obs.index !in a
    ensures var r := ArriveExpected(slot, st, obs, now, timeout);
            && InStep(slot, r.state, a[obs.index := obs], es + r.events)
            && Full(a[obs.index := obs], r.state.next)
  {
    var b := a[obs.index := obs];
    var (st1, e) := EmitEntry(st, obs, now, false, 0);
    EmitInStep(slot, st, a, es, obs, now);
    assert Full(b, st1.next) && Tidy(slot, st1);
    hide InStep, Tidy, Flush, EmitEntry, Full;
    FlushInStep(slot, st1, b, es + [e], now, DrainOnly, timeout);
    DrainStaysFull(slot, st1, b, es + [e], now, timeout);
    Reassociate(es, e, Flush(slot, st1, now, DrainOnly, timeout).events);
  }

  lemma NoticedInStep(slot: nat, st: SlotState, a: Entries, es: seq<Event>, now: nat)
    requires InStep(slot, st, a, es) && Settled(slot, st)
    ensures InStep(slot, Noticed(st, now), a, es) && Settled(slot, Noticed(st, now))
  {
    hide HashesBelow, TicksBelow, PresentBelow, LastBelow, Top;
  }

  lemma ArriveInStep(slot: nat, st: SlotState, a: Entries, es: seq<Event>, obs: Observation, now: nat, cfg: Config)
    requires InStep(slot, st, a, es) && Settled(slot, st) && Full(a, st.next)
    requires obs.slot == slot && obs.index !in a && FateOf(st, obs, cfg.maxPending) != OverCapacity
    ensures var r := Arrive(slot, st, obs, now, cfg);
            && InStep(slot, r.state, a[obs.index := obs], es + r.events)
            && Full(a[obs.index := obs], r.state.next)
  {
    var seen := Noticed(st, now);
    NoticedInStep(slot, st, a, es, now);
    assert obs.index >= st.next && !st.sealed;
    hide InStep, Settled, ArriveExpected;
    if obs.index == st.next {
      ExpectedInStep(slot, seen, a, es, obs, now, cfg.entryTimeout);
    } else {
      BufferInStep(slot, seen, a, es, obs, now);
      AppendNothing(es);
    }
  }

  // ---------------------------------------------------------------- undisturbed runs

  /** The entries of the slot that arrived among the first `n` inputs. */
  function Arrived(slot: nat, inputs: seq<Input>, n: nat): Entries
    requires n <= |inputs|
  {
    if n == 0 then map[]
    else
      var a := Arrived(slot, inputs, n - 1);
      if ArrivalFor(inputs[n - 1], slot) then a[inputs[n - 1].obs.index := inputs[n - 1].obs] else a
  }

  /** Input `k` does not disturb the slot: an arrival brings a new index to a slot that is neither
      sealed, nor forgotten, nor full; a sweep that does not seal the slot finds nothing stale. */
  ghost predicate Gentle(slot: nat, inputs: seq<Input>, k: nat, cfg: Config)
    requires k < |inputs|
  {
    var t := TrackRun(slot, inputs, k, cfg);
    var st := StateOrFresh(t.state);
    match inputs[k]
    case Arrival(obs, _) =>
      obs.slot == slot ==>
        && obs.index !in Arrived(slot, inputs, k)
        && !st.sealed && FateOf(st, obs, cfg.maxPending) != OverCapacity
        && (t.state.None? ==> Arrived(slot, inputs, k) == map[])
    case Sweep(now) =>
      t.state.Some? && !st.sealed && !Due(slot, t.maxSlot, cfg.sealLag)
      ==> Stopped(st, now, SweepStale, cfg.entryTimeout)
  }

  ghost predicate Undisturbed(slot: nat, inputs: seq<Input>, n: nat, cfg: Config)
    requires n <= |inputs|
  {
    forall k :: 0 <= k < n ==> Gentle(slot, inputs, k, cfg)
  }

  ghost predicate CanonicalTrack(slot: nat, t: Track, a: Entries) {
    && TidyTrack(slot, t)
    && (t.state.Some? ==>
          && t.past == [] && a != map[]
          && if t.state.value.sealed then Strip(t.life.events) == Canonical(slot, a)
             else InStep(slot, t.state.value, a, t.life.events) && Full(a, t.state.value.next))
    && (t.state.None? ==> t.life == UNBORN)
    && (t.state.None? ==> if a == map[] then t.past == []
                          else |t.past| == 1 && Strip(t.past[0].events) == Canonical(slot, a))
  }

  lemma FreshPohAt(a: Entries)
    ensures PohAt(NO_POH, a, 0)
  {
  }

  lemma FreshInStep(slot: nat, a: Entries)
    requires a == map[]
    ensures InStep(slot, FRESH, a, []) && Full(a, 0) && Settled(slot, FRESH)
  {
    FreshIsSettled(slot);
    FreshPohAt(a);
    hide Top, PohAt;
  }

  lemma ArrivalStaysCanonical(slot: nat, t: Track, a: Entries, obs: Observation, now: nat, cfg: Config)
    requires CanonicalTrack(slot, t, a) && obs.slot == slot && obs.index !in a
    requires var st := StateOrFresh(t.state);
             !st.sealed && FateOf(st, obs, cfg.maxPending) != OverCapacity && (t.state.None? ==> a == map[])
    ensures CanonicalTrack(slot, TrackArrival(slot, t, obs, now, cfg), a[obs.index := obs])
  {
    var st := StateOrFresh(t.state);
    hide InStep, Settled, Arrive, Full, Canonical;
    if t.state.None? {
      FreshInStep(slot, a);
    }
    ArriveInStep(slot, st, a, t.life.events, obs, now, cfg);
  }

  lemma SweepSlotCanonical(slot: nat, st: SlotState, a: Entries, es: seq<Event>, now: nat, maxSlot: nat, cfg: Config)
    requires Settled(slot, st) && InStep(slot, st, a, es)
    requires !Due(slot, maxSlot, cfg.sealLag) ==> Stopped(st, now, SweepStale, cfg.entryTimeout)
    ensures var r := SweepSlot(slot, st, now, maxSlot, cfg);
            if Due(slot, maxSlot, cfg.sealLag) then Strip(es + r.events) == Canonical(slot, a)
            else r == Step(st, [])
  {
    if Due(slot, maxSlot, cfg.sealLag) {
      assert !st.sealed;
      hide InStep, Settled, Canonical, Seal, Stopped;
      FlushInStep(slot, st, a, es, now, SweepStale, cfg.entryTimeout);
      var f := FlushStale(slot, st, now, cfg);
      hide Flush;
      SealIsCanonical(slot, f.state, a, es + f.events, now, cfg);
      AppendTwice(es, f.events, Seal(slot, f.state, now, cfg).events);
    }
  }

  lemma SealedSweepsQuietly(slot: nat, st: SlotState, now: nat, maxSlot: nat, cfg: Config)
    requires Settled(slot, st) && st.sealed
    ensures SweepSlot(slot, st, now, maxSlot, cfg) == Step(st, [])
  {
  }

  lemma SweepStaysCanonical(slot: nat, t: Track, a: Entries, now: nat, cfg: Config)
    requires CanonicalTrack(slot, t, a)
    requires t.state.Some? && !t.state.value.sealed && !Due(slot, t.maxSlot, cfg.sealLag)
             ==> Stopped(t.state.value, now, SweepStale, cfg.entryTimeout)
    ensures CanonicalTrack(slot, TrackSweep(slot, t, now, cfg), a)
  {
    hide InStep, Settled, Full, Canonical, Stopped;
    if t.state.Some? {
      var st := t.state.value;
      AppendNothing(t.life.events);
      if st.sealed {
        SealedSweepsQuietly(slot, st, now, t.maxSlot, cfg);
      } else {
        SweepSlotCanonical(slot, st, a, t.life.events, now, t.maxSlot, cfg);
      }
      hide SweepSlot;
    }
  }

  lemma GentleStaysCanonical(slot: nat, inputs: seq<Input>, k: nat, cfg: Config)
    requires k < |inputs| && Gentle(slot, inputs, k, cfg)
    requires CanonicalTrack(slot, TrackRun(slot, inputs, k, cfg), Arrived(slot, inputs, k))
    ensures CanonicalTrack(slot, TrackRun(slot, inputs, k + 1, cfg), Arrived(slot, inputs, k + 1))
  {
    var t := TrackRun(slot, inputs, k, cfg);
    var a := Arrived(slot, inputs, k);
    match inputs[k]
    case Arrival(obs, now) =>
      if obs.slot == slot {
        hide CanonicalTrack, TrackArrival;
        ArrivalStaysCanonical(slot, t, a, obs, now, cfg);
      } else {
        hide InStep, Settled, Full, Canonical;
      }
    case Sweep(now) =>
      hide CanonicalTrack, TrackSweep;
      SweepStaysCanonical(slot, t, a, now, cfg);
  }

  lemma {:induction false} UndisturbedIsCanonical(slot: nat, inputs: seq<Input>, n: nat, cfg: Config)
    requires n <= |inputs| && Undisturbed(slot, inputs, n, cfg)
    ensures CanonicalTrack(slot, TrackRun(slot, inputs, n, cfg), Arrived(slot, inputs, n))
  {
    if n > 0 {
      assert Gentle(slot, inputs, n - 1, cfg);
      hide Gentle, CanonicalTrack;
      UndisturbedIsCanonical(slot, inputs, n - 1, cfg);
      GentleStaysCanonical(slot, inputs, n - 1, cfg);
    }
  }

  // ---------------------------------------------------------------- the transcript of a whole run

  lemma EndIsCanonical(slot: nat, st: SlotState, a: Entries, es: seq<Event>, end: nat, maxSlot: nat, cfg: Config)
    requires Settled(slot, st) && InStep(slot, st, a, es)
    ensures var r := SweepSlot(slot, st, end, maxSlot, cfg);
            if r.state.sealed then Strip(es + r.events) == Canonical(slot, a)
            else InStep(slot, r.state, a, es + r.events)
  {
    assert !st.sealed;
    if Due(slot, maxSlot, cfg.sealLag) {
      SweepSlotCanonical(slot, st, a, es, end, maxSlot, cfg);
    } else {
      hide InStep, Settled, Canonical;
      FlushInStep(slot, st, a, es, end, SweepStale, cfg.entryTimeout);
    }
  }

  lemma SealedEndIsCanonical(slot: nat, t: Track, a: Entries, end: nat, cfg: Config)
    requires CanonicalTrack(slot, t, a) && a != map[]
    ensures var ls := TrackEnd(slot, t, end, cfg);
            |ls| == 1 && Strip(ls[0].events) == Canonical(slot, a)
  {
    hide InStep, Settled, Full, Canonical, Strip;
    if t.state.Some? {
      var st := t.state.value;
      var es := t.life.events;
      if st.sealed {
        SealedSweepsQuietly(slot, st, end, t.maxSlot, cfg);
        AppendNothing(es);
      } else {
        EndIsCanonical(slot, st, a, es, end, t.maxSlot, cfg);
        var r := SweepSlot(slot, st, end, t.maxSlot, cfg);
        hide SweepSlot;
        if r.state.sealed {
          AppendNothing(es + r.events);
        } else {
          SealIsCanonical(slot, r.state, a, es + r.events, end, cfg);
        }
      }
    }
  }

  /** The transcript of an undisturbed slot over a whole run, shutdown included, is canonical. */
  lemma CanonicalTranscript(slot: nat, inputs: seq<Input>, end: nat, cfg: Config)
    requires Undisturbed(slot, inputs, |inputs|, cfg)
    requires Arrived(slot, inputs, |inputs|) != map[]
    ensures Strip(Of(WholeRun(inputs, end, cfg).log, slot)) == Canonical(slot, Arrived(slot, inputs, |inputs|))
  {
    UndisturbedIsCanonical(slot, inputs, |inputs|, cfg);
    WholeRunIsLifetimes(slot, inputs, end, cfg);
    hide WholeRun, CanonicalTrack, Undisturbed, Canonical, Strip, TrackEnd;
    SealedEndIsCanonical(slot, TrackRun(slot, inputs, |inputs|, cfg), Arrived(slot, inputs, |inputs|), end, cfg);
    var ls := Lifetimes(slot, inputs, end, cfg);
    assert ls[..0] == [];
    NothingAppend(ls[0].events);
  }

  /** The slot received this very observation. */
  ghost predicate Received(slot: nat, inputs: seq<Input>, obs: Observation) {
    exists k :: 0 <= k < |inputs| && ArrivalFor(inputs[k], slot) && inputs[k].obs == obs
  }

  lemma {:induction false} ArrivedIsReceived(slot: nat, inputs: seq<Input>, n: nat, cfg: Config)
    requires n <= |inputs| && Undisturbed(slot, inputs, n, cfg)
    ensures forall i :: i in Arrived(slot, inputs, n)
                        ==> && Arrived(slot, inputs, n)[i].index == i
                            && Received(slot, inputs, Arrived(slot, inputs, n)[i])
    ensures forall k :: 0 <= k < n && ArrivalFor(inputs[k], slot)
                        ==> inputs[k].obs.index in Arrived(slot, inputs, n)
                            && Arrived(slot, inputs, n)[inputs[k].obs.index] == inputs[k].obs
  {
    if n > 0 {
      assert Gentle(slot, inputs, n - 1, cfg);
      ArrivedIsReceived(slot, inputs, n - 1, cfg);
    }
  }

  /** Order independence: two undisturbed runs in which a slot receives the same entries, in
      whatever order, at whatever times and among whatever other slots' entries, give that slot
      the same transcript, up to reorder flags and waiting times. */
  lemma OrderIndependence(slot: nat, in1: seq<Input>, end1: nat, cfg1: Config, in2: seq<Input>, end2: nat, cfg2: Config)
    requires Undisturbed(slot, in1, |in1|, cfg1) && Undisturbed(slot, in2, |in2|, cfg2)
    requires forall obs :: Received(slot, in1, obs) <==> Received(slot, in2, obs)
    requires exists obs :: Received(slot, in1, obs)
    ensures Strip(Of(WholeRun(in1, end1, cfg1).log, slot)) == Strip(Of(WholeRun(in2, end2, cfg2).log, slot))
  {
    ArrivedIsReceived(slot, in1, |in1|, cfg1);
    ArrivedIsReceived(slot, in2, |in2|, cfg2);
    hide Undisturbed, WholeRun;
    var a1 := Arrived(slot, in1, |in1|);
    var a2 := Arrived(slot, in2, |in2|);
    forall i ensures i in a1 ==> i in a2 && a2[i] == a1[i] {
      if i in a1 {
        assert Received(slot, in2, a1[i]);
      }
    }
    forall i ensures i in a2 ==> i in a1 {
      if i in a2 {
        assert Received(slot, in1, a2[i]);
      }
    }
    assert a1 == a2;
    var obs :| Received(slot, in1, obs);
    assert obs.index in a1;
    CanonicalTranscript(slot, in1, end1, cfg1);
    CanonicalTranscript(slot, in2, end2, cfg2);
  }

  // ---------------------------------------------------------------- the condition on the inputs alone

  /** When each index of the slot arrived last. */
  function ArrivalTimes(slot: nat, inputs: seq<Input>, n: nat): (times: map<nat, nat>)
    requires n <= |inputs|
    ensures times.Keys == Arrived(slot, inputs, n).Keys
  {
    if n == 0 then map[]
    else
      var times := ArrivalTimes(slot, inputs, n - 1);
      if ArrivalFor(inputs[n - 1], slot) then times[inputs[n - 1].obs.index := inputs[n - 1].now] else times
  }

  /** The lowest index, from `i` on, that did not arrive. */
  function FirstGap(a: Entries, i: nat): (gap: nat)
    ensures gap >= i && gap !in a && forall j :: i <= j < gap ==> j in a
    decreases Top(a) - i
  {
    if i in a then
      TopBounds(a, i);
      FirstGap(a, i + 1)
    else i
  }

  /** The entries that wait for a lower index. */
  function Waiting(a: Entries): set<nat> {
    set i | i in a && i > FirstGap(a, 0)
  }

  predicate SealsAt(slot: nat, inputs: seq<Input>, j: nat, cfg: Config)
    requires j < |inputs|
  {
    inputs[j].Sweep? && Due(slot, MaxSlot(inputs, j), cfg.sealLag)
  }

  /** The slot had arrived when some sweep sealed it. */
  ghost predicate SealedBefore(slot: nat, inputs: seq<Input>, n: nat, cfg: Config)
    requires n <= |inputs|
  {
    exists j :: 0 <= j < n && SealsAt(slot, inputs, j, cfg) && Arrived(slot, inputs, j) != map[]
  }

  /** Input `k`, if an entry of the slot, comes before its seal, has a new index and is expected or finds
      room among the waiting entries; if a sweep that does not seal the slot, it finds the lowest waiting
      entry younger than the timeout. */
  ghost predicate QuietAt(slot: nat, inputs: seq<Input>, k: nat, cfg: Config)
    requires k < |inputs|
  {
    var a := Arrived(slot, inputs, k);
    match inputs[k]
    case Arrival(obs, _) =>
      obs.slot == slot ==>
        && obs.index !in a && !SealedBefore(slot, inputs, k, cfg)
        && (obs.index == FirstGap(a, 0) || |Waiting(a)| < cfg.maxPending)
    case Sweep(now) =>
      Waiting(a) != {} && !SealedBefore(slot, inputs, k, cfg) && !SealsAt(slot, inputs, k, cfg) ==>
        SatSub(now, ArrivalTimes(slot, inputs, k)[MinKey(Waiting(a))]) < cfg.entryTimeout
  }

  ghost predicate Quiet(slot: nat, inputs: seq<Input>, n: nat, cfg: Config)
    requires n <= |inputs|
  {
    forall k :: 0 <= k < n ==> QuietAt(slot, inputs, k, cfg)
  }

  /** What the inputs say of the slot's state, in an undisturbed run. */
  ghost predicate Dated(slot: nat, inputs: seq<Input>, n: nat, t: Track, cfg: Config)
    requires n <= |inputs|
  {
    var a := Arrived(slot, inputs, n);
    && (a != map[] && (t.state.None? || t.state.value.sealed) <==> SealedBefore(slot, inputs, n, cfg))
    && (t.state.Some? && !t.state.value.sealed ==>
          DatedPending(t.state.value.pending, ArrivalTimes(slot, inputs, n)))
  }

  ghost predicate DatedPending(pending: map<nat, Pending>, times: map<nat, nat>) {
    forall i :: i in pending ==> i in times && pending[i].bufferedAt == times[i]
  }

  lemma ArriveDates(slot: nat, st: SlotState, obs: Observation, now: nat, cfg: Config, times: map<nat, nat>)
    requires Settled(slot, st) && obs.slot == slot && obs.index !in times && DatedPending(st.pending, times)
    ensures DatedPending(Arrive(slot, st, obs, now, cfg).state.pending, times[obs.index := now])
  {
    if FateOf(st, obs, cfg.maxPending) == Immediate {
      var (st1, e) := EmitEntry(Noticed(st, now), obs, now, false, 0);
      FlushKeepsPending(slot, st1, now, DrainOnly, cfg.entryTimeout);
      hide Flush;
    }
  }

  lemma SealedNext(slot: nat, inputs: seq<Input>, n: nat, cfg: Config)
    requires n < |inputs|
    ensures SealedBefore(slot, inputs, n + 1, cfg)
            <==> || SealedBefore(slot, inputs, n, cfg)
                 || (SealsAt(slot, inputs, n, cfg) && Arrived(slot, inputs, n) != map[])
  {
  }

  lemma GentleStaysDated(slot: nat, inputs: seq<Input>, n: nat, cfg: Config)
    requires n < |inputs| && Gentle(slot, inputs, n, cfg)
    requires CanonicalTrack(slot, TrackRun(slot, inputs, n, cfg), Arrived(slot, inputs, n))
    requires Dated(slot, inputs, n, TrackRun(slot, inputs, n, cfg), cfg)
    ensures Dated(slot, inputs, n + 1, TrackRun(slot, inputs, n + 1, cfg), cfg)
  {
    var t := TrackRun(slot, inputs, n, cfg);
    TrackCountsBirths(slot, inputs, n, cfg);
    SealedNext(slot, inputs, n, cfg);
    var st := StateOrFresh(t.state);
    var a := Arrived(slot, inputs, n);
    match inputs[n]
    case Arrival(obs, now) =>
      hide SealedBefore, InStep, Full, Canonical, Strip;
      if obs.slot == slot {
        assert DatedPending(st.pending, ArrivalTimes(slot, inputs, n));
        ArriveDates(slot, st, obs, now, cfg, ArrivalTimes(slot, inputs, n));
        hide Arrive, Settled;
      }
    case Sweep(now) =>
      hide SealedBefore, InStep, Full, Canonical, Strip, Settled, Stopped;
      if t.state.Some? {
        if st.sealed {
          SealedSweepsQuietly(slot, st, now, t.maxSlot, cfg);
        } else {
          SweepSlotCanonical(slot, st, a, t.life.events, now, t.maxSlot, cfg);
        }
        hide SweepSlot;
      }
  }

  /** The state an undisturbed run leaves: the expected index is the first gap, and exactly the waiting
      entries are buffered. */
  lemma StateFromInputs(slot: nat, st: SlotState, a: Entries, es: seq<Event>)
    requires InStep(slot, st, a, es) && Full(a, st.next) && Settled(slot, st)
    ensures st.next == FirstGap(a, 0) && st.pending.Keys == Waiting(a)
  {
    assert st.next !in a;
  }

  lemma RoomExactly(slot: nat, st: SlotState, a: Entries, es: seq<Event>, obs: Observation, maxPending: nat)
    requires InStep(slot, st, a, es) && Full(a, st.next) && Settled(slot, st) && obs.index !in a
    ensures FateOf(st, obs, maxPending) != OverCapacity
            <==> obs.index == FirstGap(a, 0) || |Waiting(a)| < maxPending
  {
    StateFromInputs(slot, st, a, es);
    assert |st.pending| == |st.pending.Keys|;
    hide PohAt, Reads, Filed;
  }

  lemma ArrivalGentleExactly(slot: nat, inputs: seq<Input>, k: nat, cfg: Config)
    requires k < |inputs| && ArrivalFor(inputs[k], slot)
    requires CanonicalTrack(slot, TrackRun(slot, inputs, k, cfg), Arrived(slot, inputs, k))
    requires Dated(slot, inputs, k, TrackRun(slot, inputs, k, cfg), cfg)
    ensures Gentle(slot, inputs, k, cfg) <==> QuietAt(slot, inputs, k, cfg)
  {
    hide TrackRun, SealedBefore, Canonical, Strip, InStep, Settled, FateOf, Full, Arrived, FirstGap, Waiting;
    var t := TrackRun(slot, inputs, k, cfg);
    var st := StateOrFresh(t.state);
    var a := Arrived(slot, inputs, k);
    var obs := inputs[k].obs;
    if t.state.None? && a == map[] {
      FreshInStep(slot, a);
      RoomExactly(slot, FRESH, a, [], obs, cfg.maxPending);
    }
    if t.state.Some? && !st.sealed && obs.index !in a {
      RoomExactly(slot, st, a, t.life.events, obs, cfg.maxPending);
    }
  }

  lemma SweepGentleExactly(slot: nat, inputs: seq<Input>, k: nat, cfg: Config)
    requires k < |inputs| && inputs[k].Sweep?
    requires CanonicalTrack(slot, TrackRun(slot, inputs, k, cfg), Arrived(slot, inputs, k))
    requires Dated(slot, inputs, k, TrackRun(slot, inputs, k, cfg), cfg)
    ensures Gentle(slot, inputs, k, cfg) <==> QuietAt(slot, inputs, k, cfg)
  {
    var t := TrackRun(slot, inputs, k, cfg);
    var a := Arrived(slot, inputs, k);
    TrackCountsBirths(slot, inputs, k, cfg);
    hide TrackRun, SealedBefore, Canonical, Strip;
    if t.state.Some? && !t.state.value.sealed {
      StateFromInputs(slot, t.state.value, a, t.life.events);
      hide InStep;
    } else if a == map[] {
      assert Waiting(a) == {};
    }
  }

  /** Undisturbed, exactly, as anyone can check it on the inputs before the run. */
  lemma {:induction false} UndisturbedExactly(slot: nat, inputs: seq<Input>, n: nat, cfg: Config)
    requires n <= |inputs|
    ensures Undisturbed(slot, inputs, n, cfg) <==> Quiet(slot, inputs, n, cfg)
    ensures Undisturbed(slot, inputs, n, cfg) ==> Dated(slot, inputs, n, TrackRun(slot, inputs, n, cfg), cfg)
  {
    hide Undisturbed, Quiet, Dated, Gentle, QuietAt, TrackRun;
    if n == 0 {
      NothingIsDated(slot, inputs, cfg);
    } else {
      UndisturbedExactly(slot, inputs, n - 1, cfg);
      NextIsPart(slot, inputs, n, cfg);
      if Undisturbed(slot, inputs, n - 1, cfg) {
        NextExactly(slot, inputs, n - 1, cfg);
      }
    }
  }

  lemma NothingIsDated(slot: nat, inputs: seq<Input>, cfg: Config)
    ensures Undisturbed(slot, inputs, 0, cfg) && Quiet(slot, inputs, 0, cfg)
    ensures Dated(slot, inputs, 0, TrackRun(slot, inputs, 0, cfg), cfg)
  {
  }

  lemma NextExactly(slot: nat, inputs: seq<Input>, k: nat, cfg: Config)
    requires k < |inputs| && Undisturbed(slot, inputs, k, cfg)
    requires Dated(slot, inputs, k, TrackRun(slot, inputs, k, cfg), cfg)
    ensures Gentle(slot, inputs, k, cfg) <==> QuietAt(slot, inputs, k, cfg)
    ensures Gentle(slot, inputs, k, cfg) ==> Dated(slot, inputs, k + 1, TrackRun(slot, inputs, k + 1, cfg), cfg)
  {
    hide Undisturbed, Dated, Gentle, QuietAt, TrackRun, CanonicalTrack;
    UndisturbedIsCanonical(slot, inputs, k, cfg);
    GentleExactly(slot, inputs, k, cfg);
    if Gentle(slot, inputs, k, cfg) {
      GentleStaysDated(slot, inputs, k, cfg);
    }
  }

  lemma NextIsPart(slot: nat, inputs: seq<Input>, n: nat, cfg: Config)
    requires 0 < n <= |inputs|
    ensures Undisturbed(slot, inputs, n, cfg)
            <==> Undisturbed(slot, inputs, n - 1, cfg) && Gentle(slot, inputs, n - 1, cfg)
    ensures Quiet(slot, inputs, n, cfg) <==> Quiet(slot, inputs, n - 1, cfg) && QuietAt(slot, inputs, n - 1, cfg)
  {
    hide Gentle, QuietAt;
  }

  lemma GentleExactly(slot: nat, inputs: seq<Input>, k: nat, cfg: Config)
    requires k < |inputs|
    requires CanonicalTrack(slot, TrackRun(slot, inputs, k, cfg), Arrived(slot, inputs, k))
    requires Dated(slot, inputs, k, TrackRun(slot, inputs, k, cfg), cfg)
    ensures Gentle(slot, inputs, k, cfg) <==> QuietAt(slot, inputs, k, cfg)
  {
    if ArrivalFor(inputs[k], slot) {
      ArrivalGentleExactly(slot, inputs, k, cfg);
    } else if inputs[k].Sweep? {
      SweepGentleExactly(slot, inputs, k, cfg);
    }
  }

  /** A slot whose entries come in order, and before its seal, is undisturbed however slow they are. */
  lemma InOrderIsUndisturbed(slot: nat, inputs: seq<Input>, n: nat, cfg: Config)
    requires n <= |inputs|
    requires forall k :: 0 <= k < n && ArrivalFor(inputs[k], slot) ==>
               inputs[k].obs.index == |Arrived(slot, inputs, k)| && !SealedBefore(slot, inputs, k, cfg)
    ensures Undisturbed(slot, inputs, n, cfg)
  {
    hide SealedBefore, Undisturbed;
    forall k | 0 <= k < n ensures QuietAt(slot, inputs, k, cfg) {
      InOrderLeavesNoGap(slot, inputs, k);
      NoneWaiting(Arrived(slot, inputs, k));
    }
    UndisturbedExactly(slot, inputs, n, cfg);
  }

  /** The indices that arrived are 0, 1, 2, ... without a gap. */
  ghost predicate NoGap(a: Entries) {
    forall i: nat :: i in a <==> i < |a|
  }

  lemma {:induction false} InOrderLeavesNoGap(slot: nat, inputs: seq<Input>, n: nat)
    requires n <= |inputs|
    requires forall k :: 0 <= k < n && ArrivalFor(inputs[k], slot) ==> inputs[k].obs.index == |Arrived(slot, inputs, k)|
    ensures NoGap(Arrived(slot, inputs, n))
  {
    hide NoGap;
    if n == 0 {
      EmptyHasNoGap();
    } else {
      InOrderLeavesNoGap(slot, inputs, n - 1);
      if ArrivalFor(inputs[n - 1], slot) {
        NextLeavesNoGap(Arrived(slot, inputs, n - 1), inputs[n - 1].obs);
      }
    }
  }

  lemma EmptyHasNoGap()
    ensures NoGap(map[])
  {
  }

  lemma NextLeavesNoGap(a: Entries, obs: Observation)
    requires NoGap(a) && obs.index == |a|
    ensures NoGap(a[obs.index := obs])
  {
    var b := a[obs.index := obs];
    assert |b| == |a| + 1 by {
      assert b.Keys == a.Keys + {obs.index};
      assert |b.Keys| == |b| && |a.Keys| == |a|;
    }
    forall i: nat ensures i in b <==> i < |b| {
      assert i in b <==> i in a || i == obs.index;
    }
  }

  lemma NoneWaiting(a: Entries)
    requires NoGap(a)
    ensures FirstGap(a, 0) == |a| && Waiting(a) == {}
  {
    assert |a| !in a;
  }
}
