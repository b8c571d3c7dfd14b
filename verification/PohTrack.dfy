/** One slot followed through a whole run of the supervisor: its lifetimes, how many there are,
    and exactly when there is only one. */
module PohTrack {
  import opened Common
  import opened PohSlot
  import L = Lifetimes

  /** What the supervisor loop reacts to: a merged entry, or the sweep timer. */
  datatype Input = Arrival(obs: Observation, now: nat) | Sweep(now: nat)

  datatype Life = Life(events: seq<Event>, late: nat)

  const UNBORN := Life([], 0)

  /** A slot is forgotten once sealed and far behind, so it can have several lifetimes. */
  datatype Track = Track(state: Option<SlotState>, past: seq<Life>, life: Life, maxSlot: nat)

  const UNSEEN := Track(None, [], UNBORN, 0)

  predicate Due(slot: nat, maxSlot: nat, lag: nat) {
    maxSlot >= lag && slot <= maxSlot - lag
  }

  function DropCutoff(maxSlot: nat, lag: nat): nat {
    SatSub(maxSlot, lag + 10)
  }

  /** A slot that no sweep at this point leaves in memory. */
  predicate Expired(slot: nat, maxSlot: nat, lag: nat) {
    maxSlot >= lag && slot <= DropCutoff(maxSlot, lag)
  }

  ghost predicate TidyTrack(slot: nat, t: Track) {
    t.state.Some? ==> Settled(slot, t.state.value)
  }

  function StateOrFresh(state: Option<SlotState>): SlotState {
    if state.Some? then state.value else FRESH
  }

  function TrackArrival(slot: nat, t: Track, obs: Observation, now: nat, cfg: Config): (t': Track)
    requires TidyTrack(slot, t)
    ensures TidyTrack(slot, t')
  {
    var max := Max(t.maxSlot, obs.slot);
    if obs.slot != slot then t.(maxSlot := max)
    else
      var st := StateOrFresh(t.state);
      var r := Arrive(slot, st, obs, now, cfg);
      Track(Some(r.state), t.past,
            Life(t.life.events + r.events, t.life.late + LateTicks(st, obs, cfg.maxPending)), max)
  }

  /** What a whole sweep does to one tracked slot, before the memory phase. */
  function SweepSlot(slot: nat, st: SlotState, now: nat, maxSlot: nat, cfg: Config): (r: Step)
    requires Settled(slot, st)
    ensures Settled(slot, r.state) && Tagged(slot, r.events)
    ensures r.state.sealed == (st.sealed || Due(slot, maxSlot, cfg.sealLag))
  {
    var a := FlushStale(slot, st, now, cfg);
    if Due(slot, maxSlot, cfg.sealLag) then
      var b := Seal(slot, a.state, now, cfg);
      Step(b.state, a.events + b.events)
    else a
  }

  function TrackSweep(slot: nat, t: Track, now: nat, cfg: Config): (t': Track)
    requires TidyTrack(slot, t)
    ensures TidyTrack(slot, t')
  {
    if t.state.None? then t
    else
      var r := SweepSlot(slot, t.state.value, now, t.maxSlot, cfg);
      var life := Life(t.life.events + r.events, t.life.late);
      if slot <= DropCutoff(t.maxSlot, cfg.sealLag) && r.state.sealed
      then Track(None, t.past + [life], UNBORN, t.maxSlot)
      else Track(Some(r.state), t.past, life, t.maxSlot)
  }

  function TrackStep(slot: nat, t: Track, input: Input, cfg: Config): (t': Track)
    requires TidyTrack(slot, t)
    ensures TidyTrack(slot, t')
  {
    match input
    case Arrival(obs, now) => TrackArrival(slot, t, obs, now, cfg)
    case Sweep(now) => TrackSweep(slot, t, now, cfg)
  }

  /** The slot after the first `n` inputs of a run. */
  function TrackRun(slot: nat, inputs: seq<Input>, n: nat, cfg: Config): (t: Track)
    requires n <= |inputs|
    ensures TidyTrack(slot, t)
  {
    if n == 0 then UNSEEN
    else TrackStep(slot, TrackRun(slot, inputs, n - 1, cfg), inputs[n - 1], cfg)
  }

  /** The shutdown flush: one more sweep, then every slot still in memory is sealed. */
  function TrackEnd(slot: nat, t: Track, now: nat, cfg: Config): seq<Life>
    requires TidyTrack(slot, t)
  {
    var t1 := TrackSweep(slot, t, now, cfg);
    if t1.state.None? then t1.past
    else t1.past + [Life(t1.life.events + Seal(slot, t1.state.value, now, cfg).events, t1.life.late)]
  }

  /** Every lifetime of a slot over a whole run, shutdown included. */
  function Lifetimes(slot: nat, inputs: seq<Input>, end: nat, cfg: Config): seq<Life> {
    TrackEnd(slot, TrackRun(slot, inputs, |inputs|, cfg), end, cfg)
  }

  // ---------------------------------------------------------------- every lifetime is well formed

  ghost predicate ClosedLife(slot: nat, life: Life) {
    Closed(slot, life.events, life.late)
  }

  ghost predicate LiveLife(slot: nat, st: SlotState, life: Life) {
    if st.sealed then ClosedLife(slot, life) else Open(slot, st, life.events, life.late)
  }

  ghost predicate TrackInv(slot: nat, t: Track, lag: nat) {
    && TidyTrack(slot, t)
    && (forall i :: 0 <= i < |t.past| ==> ClosedLife(slot, t.past[i]))
    && (t.state.None? ==> t.life == UNBORN)
    && (t.state.Some? ==> LiveLife(slot, t.state.value, t.life)
                          && (t.state.value.sealed ==> Due(slot, t.maxSlot, lag)))
  }

  lemma FreshIsOpen(slot: nat)
    ensures LiveLife(slot, FRESH, UNBORN) && Settled(slot, FRESH)
  {
    hide Body, Ticked, Accounts, Closed;
    NothingTold(slot);
    NothingCounted();
    FreshIsSettled(slot);
  }

  lemma ArriveAfterSeal(slot: nat, st: SlotState, obs: Observation, now: nat, cfg: Config)
    requires Settled(slot, st) && obs.slot == slot && st.sealed
    ensures Arrive(slot, st, obs, now, cfg) == Step(st, []) && LateTicks(st, obs, cfg.maxPending) == 0
  {
  }

  lemma ArriveKeepsLife(slot: nat, st: SlotState, life: Life, obs: Observation, now: nat, cfg: Config)
    requires Settled(slot, st) && LiveLife(slot, st, life) && obs.slot == slot
    ensures var r := Arrive(slot, st, obs, now, cfg);
            LiveLife(slot, r.state, Life(life.events + r.events, life.late + LateTicks(st, obs, cfg.maxPending)))
  {
    hide Open, Closed, Arrive, LateTicks;
    if st.sealed {
      ArriveAfterSeal(slot, st, obs, now, cfg);
      AppendNothing(life.events);
    } else {
      ArriveKeepsOpen(slot, st, life.events, life.late, obs, now, cfg);
    }
  }

  lemma ArrivalKeepsInv(slot: nat, t: Track, obs: Observation, now: nat, cfg: Config)
    requires TrackInv(slot, t, cfg.sealLag)
    ensures TrackInv(slot, TrackArrival(slot, t, obs, now, cfg), cfg.sealLag)
  {
    FreshIsOpen(slot);
    hide LiveLife, ClosedLife, Arrive, Settled, LateTicks;
    if obs.slot == slot {
      ArriveKeepsLife(slot, StateOrFresh(t.state), t.life, obs, now, cfg);
    }
  }

  lemma SweepSlotKeepsLife(slot: nat, st: SlotState, life: Life, now: nat, maxSlot: nat, cfg: Config)
    requires Settled(slot, st) && LiveLife(slot, st, life)
    ensures var r := SweepSlot(slot, st, now, maxSlot, cfg);
            LiveLife(slot, r.state, Life(life.events + r.events, life.late))
  {
    hide Open, Closed, Due;
    AppendNothing(life.events);
    AppendTwice(life.events, [], []);
    if !st.sealed {
      var a := FlushStale(slot, st, now, cfg);
      FlushKeepsOpen(slot, st, life.events, life.late, now, SweepStale, cfg.entryTimeout);
      SealCloses(slot, a.state, life.events + a.events, life.late, now, cfg);
      AppendTwice(life.events, a.events, Seal(slot, a.state, now, cfg).events);
    }
  }

  lemma SweepKeepsInv(slot: nat, t: Track, now: nat, cfg: Config)
    requires TrackInv(slot, t, cfg.sealLag)
    ensures TrackInv(slot, TrackSweep(slot, t, now, cfg), cfg.sealLag)
  {
    if t.state.Some? {
      SweepSlotKeepsLife(slot, t.state.value, t.life, now, t.maxSlot, cfg);
      hide Open, Closed, SweepSlot;
    }
  }

  /** Gapless order, in every run and under every interleaving of arrivals and sweeps: each past
      lifetime of a slot is a gapless body followed by its one lifecycle event, and the current
      one is such a body, or is closed if the slot is sealed. */
  lemma {:induction false} EveryRunIsGapless(slot: nat, inputs: seq<Input>, n: nat, cfg: Config)
    requires n <= |inputs|
    ensures TrackInv(slot, TrackRun(slot, inputs, n, cfg), cfg.sealLag)
  {
    if n > 0 {
      EveryRunIsGapless(slot, inputs, n - 1, cfg);
      var t := TrackRun(slot, inputs, n - 1, cfg);
      match inputs[n - 1]
      case Arrival(obs, now) => ArrivalKeepsInv(slot, t, obs, now, cfg);
      case Sweep(now) => SweepKeepsInv(slot, t, now, cfg);
    }
  }

  lemma AbsentHasNoLife(slot: nat, inputs: seq<Input>, n: nat, cfg: Config)
    requires n <= |inputs|
    ensures var t := TrackRun(slot, inputs, n, cfg);
            t.state.None? ==> t.life == UNBORN
  {
    EveryRunIsGapless(slot, inputs, n, cfg);
  }

  /** After shutdown every lifetime has been closed. */
  lemma EveryLifetimeCloses(slot: nat, inputs: seq<Input>, end: nat, cfg: Config)
    ensures var ls := Lifetimes(slot, inputs, end, cfg);
            forall i :: 0 <= i < |ls| ==> ClosedLife(slot, ls[i])
  {
    var t := TrackRun(slot, inputs, |inputs|, cfg);
    EveryRunIsGapless(slot, inputs, |inputs|, cfg);
    SweepKeepsInv(slot, t, end, cfg);
    var t1 := TrackSweep(slot, t, end, cfg);
    hide Open, Closed, TrackSweep;
    if t1.state.Some? {
      var st := t1.state.value;
      var r := Seal(slot, st, end, cfg);
      if st.sealed {
        AppendNothing(t1.life.events);
      } else {
        SealCloses(slot, st, t1.life.events, t1.life.late, end, cfg);
      }
    }
  }

  // ---------------------------------------------------------------- how many lifetimes

  predicate ArrivalFor(input: Input, slot: nat) {
    input.Arrival? && input.obs.slot == slot
  }

  /** The highest slot among the first `n` inputs. */
  function MaxSlot(inputs: seq<Input>, n: nat): nat
    requires n <= |inputs|
  {
    if n == 0 then 0
    else if inputs[n - 1].Arrival? then Max(MaxSlot(inputs, n - 1), inputs[n - 1].obs.slot)
    else MaxSlot(inputs, n - 1)
  }

  lemma {:induction false} MaxSlotGrows(inputs: seq<Input>, m: nat, n: nat)
    requires m <= n <= |inputs|
    ensures MaxSlot(inputs, m) <= MaxSlot(inputs, n)
    decreases n
  {
    if m < n {
      MaxSlotGrows(inputs, m, n - 1);
    }
  }

  /** Input `j` is a sweep that leaves nothing of the slot in memory. */
  predicate Forgets(inputs: seq<Input>, j: nat, slot: nat, cfg: Config)
    requires j < |inputs|
  {
    inputs[j].Sweep? && Expired(slot, MaxSlot(inputs, j), cfg.sealLag)
  }

  /** What each input means to the slot. */
  function Marks(slot: nat, inputs: seq<Input>, cfg: Config): (ms: seq<L.Mark>)
    ensures |ms| == |inputs|
  {
    seq(|inputs|, i requires 0 <= i < |inputs| => L.Mark(ArrivalFor(inputs[i], slot), Forgets(inputs, i, slot, cfg)))
  }

  /** Read off the inputs alone: the slot has arrived and was not forgotten since. */
  predicate Present(slot: nat, inputs: seq<Input>, n: nat, cfg: Config)
    requires n <= |inputs|
  {
    L.Present(Marks(slot, inputs, cfg), n)
  }

  /** Read off the inputs alone: the arrivals that find the slot absent. */
  function Births(slot: nat, inputs: seq<Input>, n: nat, cfg: Config): nat
    requires n <= |inputs|
  {
    L.Births(Marks(slot, inputs, cfg), n)
  }

  function Alive(t: Track): nat {
    if t.state.Some? then 1 else 0
  }

  lemma {:induction false} TrackCountsBirths(slot: nat, inputs: seq<Input>, n: nat, cfg: Config)
    requires n <= |inputs|
    ensures var t := TrackRun(slot, inputs, n, cfg);
            && t.maxSlot == MaxSlot(inputs, n)
            && t.state.Some? == Present(slot, inputs, n, cfg)
            && |t.past| + Alive(t) == Births(slot, inputs, n, cfg)
  {
    if n > 0 {
      TrackCountsBirths(slot, inputs, n - 1, cfg);
      EveryRunIsGapless(slot, inputs, n - 1, cfg);
      hide LiveLife, ClosedLife, SweepSlot, Arrive;
    }
  }

  /** Over a whole run with its shutdown, a slot has one lifetime per arrival that finds it absent. */
  lemma LifetimeCount(slot: nat, inputs: seq<Input>, end: nat, cfg: Config)
    ensures |Lifetimes(slot, inputs, end, cfg)| == Births(slot, inputs, |inputs|, cfg)
  {
    TrackCountsBirths(slot, inputs, |inputs|, cfg);
  }

  /** An arrival, then a sweep that forgets the slot, then another arrival. */
  ghost predicate Restarted(slot: nat, inputs: seq<Input>, n: nat, cfg: Config)
    requires n <= |inputs|
  {
    exists i, j, k :: 0 <= i < j < k < n && ArrivalFor(inputs[i], slot)
                      && Forgets(inputs, j, slot, cfg) && ArrivalFor(inputs[k], slot)
  }

  /** The exact condition, over the inputs alone, for a slot to have more than one lifetime. */
  lemma MoreThanOneLifetime(slot: nat, inputs: seq<Input>, n: nat, cfg: Config)
    requires n <= |inputs|
    ensures Births(slot, inputs, n, cfg) > 1 <==> Restarted(slot, inputs, n, cfg)
    ensures Births(slot, inputs, n, cfg) >= 1 <==> exists i :: 0 <= i < n && ArrivalFor(inputs[i], slot)
  {
    hide Marks, L.Births, Forgets, ArrivalFor, Restarted, L.Restarted, L.ArrivedBefore;
    var ms := Marks(slot, inputs, cfg);
    L.MoreThanOneExactly(ms, n);
    L.BirthsNeedArrivals(ms, n);
    RestartedIs(slot, inputs, n, cfg);
    ArrivedIs(slot, inputs, n, cfg);
  }

  lemma RestartedIs(slot: nat, inputs: seq<Input>, n: nat, cfg: Config)
    requires n <= |inputs|
    ensures Restarted(slot, inputs, n, cfg) <==> L.Restarted(Marks(slot, inputs, cfg), n)
  {
    RestartIsMarked(slot, inputs, n, cfg);
    MarkedIsRestart(slot, inputs, n, cfg);
    hide Restarted, L.Restarted, Marks;
  }

  lemma RestartIsMarked(slot: nat, inputs: seq<Input>, n: nat, cfg: Config)
    requires n <= |inputs|
    ensures Restarted(slot, inputs, n, cfg) ==> L.Restarted(Marks(slot, inputs, cfg), n)
  {
    hide MaxSlot, Expired;
    var ms := Marks(slot, inputs, cfg);
    if i, j, k :| 0 <= i < j < k < n && ArrivalFor(inputs[i], slot)
                  && Forgets(inputs, j, slot, cfg) && ArrivalFor(inputs[k], slot) {
      assert ms[i].arrives && ms[j].forgets && ms[k].arrives;
      assert !L.KeptSince(ms, i, k);
    }
  }

  lemma MarkedIsRestart(slot: nat, inputs: seq<Input>, n: nat, cfg: Config)
    requires n <= |inputs|
    ensures L.Restarted(Marks(slot, inputs, cfg), n) ==> Restarted(slot, inputs, n, cfg)
  {
    hide MaxSlot, Expired;
    var ms := Marks(slot, inputs, cfg);
    if i, k :| 0 <= i < k < n && ms[i].arrives && ms[k].arrives && !L.KeptSince(ms, i, k) {
      var j :| i <= j < k && ms[j].forgets;
      assert i < j && ArrivalFor(inputs[i], slot) && Forgets(inputs, j, slot, cfg) && ArrivalFor(inputs[k], slot);
    }
  }

  lemma ArrivedIs(slot: nat, inputs: seq<Input>, n: nat, cfg: Config)
    requires n <= |inputs|
    ensures (exists i :: 0 <= i < n && ArrivalFor(inputs[i], slot)) <==> L.ArrivedBefore(Marks(slot, inputs, cfg), n)
  {
    hide Forgets;
    var ms := Marks(slot, inputs, cfg);
    if i :| 0 <= i < n && ArrivalFor(inputs[i], slot) {
      assert ms[i].arrives;
    }
    if i :| 0 <= i < n && ms[i].arrives {
      assert ArrivalFor(inputs[i], slot);
    }
  }

  /** The documented guarantee, "complete or incomplete, never both, never neither", holds of a
      slot that arrived exactly when no arrival follows a sweep that forgot it. */
  lemma ExactlyOneLifecycle(slot: nat, inputs: seq<Input>, end: nat, cfg: Config)
    requires exists i :: 0 <= i < |inputs| && ArrivalFor(inputs[i], slot)
    ensures var ls := Lifetimes(slot, inputs, end, cfg);
            && |ls| >= 1
            && (|ls| == 1 <==> !Restarted(slot, inputs, |inputs|, cfg))
            && forall i :: 0 <= i < |ls| ==> ClosedLife(slot, ls[i])
  {
    LifetimeCount(slot, inputs, end, cfg);
    MoreThanOneLifetime(slot, inputs, |inputs|, cfg);
    EveryLifetimeCloses(slot, inputs, end, cfg);
  }

  /** It is enough that no arrival lies at or below the memory cutoff when it comes. */
  lemma PromptArrivalsNeverRestart(slot: nat, inputs: seq<Input>, cfg: Config)
    requires forall k :: 0 <= k < |inputs| && ArrivalFor(inputs[k], slot)
                         ==> slot > DropCutoff(MaxSlot(inputs, k), cfg.sealLag)
    ensures !Restarted(slot, inputs, |inputs|, cfg)
  {
    forall j: nat, k: nat | j < k < |inputs| && ArrivalFor(inputs[k], slot)
      ensures !Forgets(inputs, j, slot, cfg)
    {
      MaxSlotGrows(inputs, j, k);
    }
  }
}
