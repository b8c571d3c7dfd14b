/** The whole PoH supervisor as a value: a map of slots, the highest slot seen, and the log of events
    offered downstream. The central fact is isolation: what the log says of one slot is exactly
    what that slot's own track says, whatever the other slots do. */
module PohSupervisor {
  import opened Common
  import opened PohSlot
  import opened PohTrack

  /** Arrivals by fate, and the highest number of entries ever buffered for one slot. */
  datatype Fates = Fates(arrivals: nat, replaced: nat, overCapacity: nat, belowExpected: nat, afterSeal: nat,
                         peak: nat)

  datatype Sup = Sup(slots: map<nat, SlotState>, maxSlot: nat, log: seq<Event>, fates: Fates)

  const EMPTY := Sup(map[], 0, [], Fates(0, 0, 0, 0, 0, 0))

  ghost predicate AllSettled(slots: map<nat, SlotState>) {
    forall s :: s in slots ==> Settled(s, slots[s])
  }

  function StateOf(slots: map<nat, SlotState>, s: nat): Option<SlotState> {
    if s in slots then Some(slots[s]) else None
  }

  // ---------------------------------------------------------------- arrivals

  function CountFate(f: Fates, fate: Fate, buffered: nat): Fates {
    var f1 := f.(arrivals := f.arrivals + 1);
    match fate
    case Immediate => f1
    case Buffered => f1.(peak := Max(f.peak, buffered))
    case Replaced => f1.(peak := Max(f.peak, buffered), replaced := f.replaced + 1)
    case OverCapacity => f1.(overCapacity := f.overCapacity + 1)
    case BelowExpected => f1.(belowExpected := f.belowExpected + 1)
    case AfterSeal => f1.(afterSeal := f.afterSeal + 1)
  }

  function Process(sup: Sup, obs: Observation, now: nat, cfg: Config): (r: Sup)
    requires AllSettled(sup.slots)
    ensures AllSettled(r.slots)
  {
    var st := StateOrFresh(StateOf(sup.slots, obs.slot));
    var step := Arrive(obs.slot, st, obs, now, cfg);
    Sup(sup.slots[obs.slot := step.state], Max(sup.maxSlot, obs.slot), sup.log + step.events,
        CountFate(sup.fates, FateOf(st, obs, cfg.maxPending), |step.state.pending|))
  }

  // ---------------------------------------------------------------- sweeps

  datatype Op = StaleOp | SealOp

  function Apply(op: Op, slot: nat, st: SlotState, now: nat, cfg: Config): (r: Step)
    requires Settled(slot, st)
    ensures Settled(slot, r.state) && Tagged(slot, r.events)
  {
    match op
    case StaleOp => FlushStale(slot, st, now, cfg)
    case SealOp => Seal(slot, st, now, cfg)
  }

  datatype Batch = Batch(slots: map<nat, SlotState>, events: seq<Event>)

  /** The same operation on each listed slot, in the listed order. */
  function ForEach(slots: map<nat, SlotState>, keys: seq<nat>, n: nat, op: Op, now: nat, cfg: Config): (r: Batch)
    requires AllSettled(slots) && n <= |keys| && forall i :: 0 <= i < |keys| ==> keys[i] in slots
    ensures AllSettled(r.slots) && r.slots.Keys == slots.Keys
  {
    if n == 0 then Batch(slots, [])
    else
      var b := ForEach(slots, keys, n - 1, op, now, cfg);
      var k := keys[n - 1];
      var step := Apply(op, k, b.slots[k], now, cfg);
      Batch(b.slots[k := step.state], b.events + step.events)
  }

  function DueKeys(slots: map<nat, SlotState>, maxSlot: nat, lag: nat): (r: set<nat>)
    ensures r <= slots.Keys
  {
    set s | s in slots && Due(s, maxSlot, lag) && !slots[s].sealed
  }

  function FlushAll(slots: map<nat, SlotState>, now: nat, cfg: Config): (r: Batch)
    requires AllSettled(slots)
    ensures AllSettled(r.slots) && r.slots.Keys == slots.Keys
  {
    var keys := SortedKeys(slots.Keys);
    ForEach(slots, keys, |keys|, StaleOp, now, cfg)
  }

  function SealDue(slots: map<nat, SlotState>, maxSlot: nat, now: nat, cfg: Config): (r: Batch)
    requires AllSettled(slots)
    ensures AllSettled(r.slots) && r.slots.Keys == slots.Keys
  {
    var keys := SortedKeys(DueKeys(slots, maxSlot, cfg.sealLag));
    ForEach(slots, keys, |keys|, SealOp, now, cfg)
  }

  function Retain(slots: map<nat, SlotState>, maxSlot: nat, lag: nat): map<nat, SlotState> {
    map s | s in slots && (s > DropCutoff(maxSlot, lag) || !slots[s].sealed) :: slots[s]
  }

  function SweepAll(sup: Sup, now: nat, cfg: Config): (r: Sup)
    requires AllSettled(sup.slots)
    ensures AllSettled(r.slots)
  {
    var a := FlushAll(sup.slots, now, cfg);
    var b := SealDue(a.slots, sup.maxSlot, now, cfg);
    Sup(Retain(b.slots, sup.maxSlot, cfg.sealLag), sup.maxSlot, sup.log + (a.events + b.events), sup.fates)
  }

  // ---------------------------------------------------------------- runs

  function React(sup: Sup, input: Input, cfg: Config): (r: Sup)
    requires AllSettled(sup.slots)
    ensures AllSettled(r.slots)
  {
    match input
    case Arrival(obs, now) => Process(sup, obs, now, cfg)
    case Sweep(now) => SweepAll(sup, now, cfg)
  }

  function Run(inputs: seq<Input>, n: nat, cfg: Config): (r: Sup)
    requires n <= |inputs|
    ensures AllSettled(r.slots)
  {
    if n == 0 then EMPTY else React(Run(inputs, n - 1, cfg), inputs[n - 1], cfg)
  }

  /** The shutdown flush. */
  function Shutdown(sup: Sup, end: nat, cfg: Config): (r: Sup)
    requires AllSettled(sup.slots)
    ensures AllSettled(r.slots)
  {
    var swept := SweepAll(sup, end, cfg);
    var keys := SortedKeys(swept.slots.Keys);
    var b := ForEach(swept.slots, keys, |keys|, SealOp, end, cfg);
    swept.(slots := b.slots, log := swept.log + b.events)
  }

  function WholeRun(inputs: seq<Input>, end: nat, cfg: Config): Sup {
    Shutdown(Run(inputs, |inputs|, cfg), end, cfg)
  }

  // ---------------------------------------------------------------- isolation

  /** The part of a log that concerns one slot. */
  function Of(es: seq<Event>, s: nat): seq<Event> {
    if es == [] then []
    else
      var last := es[|es| - 1];
      Of(es[..|es| - 1], s) + if last.slot == s then [last] else []
  }

  lemma {:induction false} OfAppend(a: seq<Event>, b: seq<Event>, s: nat)
    ensures Of(a + b, s) == Of(a, s) + Of(b, s)
    decreases |b|
  {
    if b == [] {
      AppendNothing(a);
    } else {
      var b0 := b[..|b| - 1];
      OfAppend(a, b0, s);
      assert (a + b)[..|a + b| - 1] == a + b0;
    }
  }

  lemma {:induction false} OfTagged(es: seq<Event>, slot: nat, s: nat)
    requires Tagged(slot, es)
    ensures Of(es, s) == if slot == s then es else []
    decreases |es|
  {
    if es != [] {
      OfTagged(es[..|es| - 1], slot, s);
      assert es == es[..|es| - 1] + [es[|es| - 1]];
    }
  }

  /** What a batch does to slot `s`: the operation if it is listed, nothing otherwise. */
  ghost predicate ActsOn(s: nat, slots: map<nat, SlotState>, listed: bool, op: Op, now: nat, cfg: Config, r: Batch)
    requires AllSettled(slots) && s in slots
  {
    var step := if listed then Apply(op, s, slots[s], now, cfg) else Step(slots[s], []);
    s in r.slots && r.slots[s] == step.state && Of(r.events, s) == step.events
  }

  lemma {:induction false} ForEachAt(s: nat, slots: map<nat, SlotState>, keys: seq<nat>, n: nat, op: Op, now: nat,
                                     cfg: Config)
    requires AllSettled(slots) && n <= |keys| && forall i :: 0 <= i < |keys| ==> keys[i] in slots
    requires Increasing(keys)
    ensures var r := ForEach(slots, keys, n, op, now, cfg);
            if s in slots then ActsOn(s, slots, s in keys[..n], op, now, cfg, r) else Of(r.events, s) == []
  {
    hide Apply, Settled, Due;
    if n > 0 {
      ForEachAt(s, slots, keys, n - 1, op, now, cfg);
      var k := keys[n - 1];
      assert keys[..n] == keys[..n - 1] + [k];
      var b := ForEach(slots, keys, n - 1, op, now, cfg);
      var step := Apply(op, k, b.slots[k], now, cfg);
      OfAppend(b.events, step.events, s);
      OfTagged(step.events, k, s);
      if s == k {
        assert s !in keys[..n - 1];
        NothingAppend(step.events);
      }
    }
  }

  lemma BatchAt(s: nat, slots: map<nat, SlotState>, listed: set<nat>, op: Op, now: nat, cfg: Config)
    requires AllSettled(slots) && listed <= slots.Keys
    ensures var keys := SortedKeys(listed);
            var r := ForEach(slots, keys, |keys|, op, now, cfg);
            if s in slots then ActsOn(s, slots, s in listed, op, now, cfg, r) else Of(r.events, s) == []
  {
    var keys := SortedKeys(listed);
    ForEachAt(s, slots, keys, |keys|, op, now, cfg);
    assert keys[..|keys|] == keys;
  }

  lemma FlushAllAt(s: nat, slots: map<nat, SlotState>, now: nat, cfg: Config)
    requires AllSettled(slots)
    ensures var a := FlushAll(slots, now, cfg);
            if s in slots then ActsOn(s, slots, true, StaleOp, now, cfg, a) else Of(a.events, s) == []
  {
    BatchAt(s, slots, slots.Keys, StaleOp, now, cfg);
  }

  lemma SealDueAt(s: nat, slots: map<nat, SlotState>, maxSlot: nat, now: nat, cfg: Config)
    requires AllSettled(slots)
    ensures var b := SealDue(slots, maxSlot, now, cfg);
            if s in slots then ActsOn(s, slots, Due(s, maxSlot, cfg.sealLag), SealOp, now, cfg, b)
            else Of(b.events, s) == []
  {
    BatchAt(s, slots, DueKeys(slots, maxSlot, cfg.sealLag), SealOp, now, cfg);
    hide ForEach, Flush, Settled;
  }

  /** A sweep treats each slot by itself. */
  lemma SweepAt(s: nat, sup: Sup, now: nat, cfg: Config)
    requires AllSettled(sup.slots)
    ensures var r := SweepAll(sup, now, cfg);
            if s in sup.slots then
              var step := SweepSlot(s, sup.slots[s], now, sup.maxSlot, cfg);
              && Of(r.log, s) == Of(sup.log, s) + step.events
              && StateOf(r.slots, s) == if s <= DropCutoff(sup.maxSlot, cfg.sealLag) && step.state.sealed
                                        then None else Some(step.state)
            else Of(r.log, s) == Of(sup.log, s) && s !in r.slots
  {
    var a := FlushAll(sup.slots, now, cfg);
    FlushAllAt(s, sup.slots, now, cfg);
    var b := SealDue(a.slots, sup.maxSlot, now, cfg);
    SealDueAt(s, a.slots, sup.maxSlot, now, cfg);
    OfAppend(sup.log, a.events + b.events, s);
    OfAppend(a.events, b.events, s);
    hide FlushAll, SealDue, Settled, Seal, FlushStale;
    if s in sup.slots {
      AppendNothing(Of(a.events, s));
    } else {
      AppendNothing(Of(sup.log, s));
      AppendNothing<Event>([]);
    }
  }

  function Concat(ls: seq<Life>): seq<Event> {
    if ls == [] then [] else Concat(ls[..|ls| - 1]) + ls[|ls| - 1].events
  }

  lemma ConcatSnoc(ls: seq<Life>, l: Life)
    ensures Concat(ls + [l]) == Concat(ls) + l.events
  {
    assert (ls + [l])[..|ls|] == ls;
  }

  ghost predicate Mirrors(s: nat, sup: Sup, t: Track) {
    && t.maxSlot == sup.maxSlot
    && t.state == StateOf(sup.slots, s)
    && Of(sup.log, s) == Concat(t.past) + t.life.events
  }

  lemma ArrivalMirrors(s: nat, sup: Sup, t: Track, obs: Observation, now: nat, cfg: Config)
    requires AllSettled(sup.slots) && TidyTrack(s, t) && Mirrors(s, sup, t)
    ensures Mirrors(s, Process(sup, obs, now, cfg), TrackArrival(s, t, obs, now, cfg))
  {
    var st := StateOrFresh(StateOf(sup.slots, obs.slot));
    var step := Arrive(obs.slot, st, obs, now, cfg);
    OfAppend(sup.log, step.events, s);
    OfTagged(step.events, obs.slot, s);
    hide Arrive, Settled, CountFate;
    if obs.slot == s {
      AppendTwice(Concat(t.past), t.life.events, step.events);
    } else {
      AppendNothing(Of(sup.log, s));
    }
  }

  lemma SweepMirrors(s: nat, sup: Sup, t: Track, now: nat, cfg: Config)
    requires AllSettled(sup.slots) && TidyTrack(s, t) && Mirrors(s, sup, t)
    requires t.state.None? ==> t.life == UNBORN
    ensures Mirrors(s, SweepAll(sup, now, cfg), TrackSweep(s, t, now, cfg))
  {
    SweepAt(s, sup, now, cfg);
    hide SweepAll, SweepSlot, Settled;
    if s in sup.slots {
      var step := SweepSlot(s, sup.slots[s], now, sup.maxSlot, cfg);
      AppendTwice(Concat(t.past), t.life.events, step.events);
      ConcatSnoc(t.past, Life(t.life.events + step.events, t.life.late));
      AppendNothing(Concat(t.past) + (t.life.events + step.events));
    }
  }

  lemma NothingMirrors(s: nat)
    ensures Mirrors(s, EMPTY, UNSEEN)
  {
    NothingAppend<Event>([]);
  }

  lemma ReactMirrors(s: nat, sup: Sup, t: Track, input: Input, cfg: Config)
    requires AllSettled(sup.slots) && TidyTrack(s, t) && Mirrors(s, sup, t)
    requires t.state.None? ==> t.life == UNBORN
    ensures Mirrors(s, React(sup, input, cfg), TrackStep(s, t, input, cfg))
  {
    hide TidyTrack, AllSettled, Mirrors, Process, SweepAll, TrackArrival, TrackSweep;
    match input
    case Arrival(obs, now) => ArrivalMirrors(s, sup, t, obs, now, cfg);
    case Sweep(now) => SweepMirrors(s, sup, t, now, cfg);
  }

  /** Isolation: over any run, the state and the log of a slot are those of its own track. */
  lemma {:induction false} Isolation(s: nat, inputs: seq<Input>, n: nat, cfg: Config)
    requires n <= |inputs|
    ensures Mirrors(s, Run(inputs, n, cfg), TrackRun(s, inputs, n, cfg))
  {
    NothingMirrors(s);
    hide TidyTrack, AllSettled, Mirrors, React, TrackStep;
    if n > 0 {
      Isolation(s, inputs, n - 1, cfg);
      AbsentHasNoLife(s, inputs, n - 1, cfg);
      ReactMirrors(s, Run(inputs, n - 1, cfg), TrackRun(s, inputs, n - 1, cfg), inputs[n - 1], cfg);
    }
  }

  lemma SealRestMirrors(s: nat, sup: Sup, t: Track, end: nat, cfg: Config)
    requires AllSettled(sup.slots) && TidyTrack(s, t) && Mirrors(s, sup, t)
    requires t.state.None? ==> t.life == UNBORN
    ensures var keys := SortedKeys(sup.slots.Keys);
            var b := ForEach(sup.slots, keys, |keys|, SealOp, end, cfg);
            Of(sup.log + b.events, s) ==
            Concat(if t.state.None? then t.past
                   else t.past + [Life(t.life.events + Seal(s, t.state.value, end, cfg).events, t.life.late)])
  {
    hide ForEach, Seal, Flush;
    assert s in sup.slots ==> Tidy(s, sup.slots[s]);
    hide Settled, AllSettled, Tidy;
    BatchAt(s, sup.slots, sup.slots.Keys, SealOp, end, cfg);
    var keys := SortedKeys(sup.slots.Keys);
    var b := ForEach(sup.slots, keys, |keys|, SealOp, end, cfg);
    OfAppend(sup.log, b.events, s);
    AppendNothing(Concat(t.past));
    if s in sup.slots {
      var events := Seal(s, t.state.value, end, cfg).events;
      AppendTwice(Concat(t.past), t.life.events, events);
      ConcatSnoc(t.past, Life(t.life.events + events, t.life.late));
    }
  }

  /** What a whole run says of a slot is the concatenation of that slot's lifetimes. */
  lemma WholeRunIsLifetimes(s: nat, inputs: seq<Input>, end: nat, cfg: Config)
    ensures Of(WholeRun(inputs, end, cfg).log, s) == Concat(Lifetimes(s, inputs, end, cfg))
  {
    var sup := Run(inputs, |inputs|, cfg);
    var t := TrackRun(s, inputs, |inputs|, cfg);
    Isolation(s, inputs, |inputs|, cfg);
    AbsentHasNoLife(s, inputs, |inputs|, cfg);
    hide Mirrors, AllSettled, TidyTrack, Run, TrackRun;
    SweepMirrors(s, sup, t, end, cfg);
    SweptHasNoLife(s, t, end, cfg);
    hide SweepAll, TrackSweep;
    SealRestMirrors(s, SweepAll(sup, end, cfg), TrackSweep(s, t, end, cfg), end, cfg);
    hide ForEach, Seal;
  }

  lemma SweptHasNoLife(s: nat, t: Track, now: nat, cfg: Config)
    requires TidyTrack(s, t) && (t.state.None? ==> t.life == UNBORN)
    ensures TrackSweep(s, t, now, cfg).state.None? ==> TrackSweep(s, t, now, cfg).life == UNBORN
  {
    hide SweepSlot, Settled;
  }

  // ---------------------------------------------------------------- lifecycle events in the log

  function Lifecycles(es: seq<Event>): nat {
    if es == [] then 0 else Lifecycles(es[..|es| - 1]) + if Lifecycle(es[|es| - 1]) then 1 else 0
  }

  lemma {:induction false} LifecyclesAppend(a: seq<Event>, b: seq<Event>)
    ensures Lifecycles(a + b) == Lifecycles(a) + Lifecycles(b)
    decreases |b|
  {
    if b == [] {
      AppendNothing(a);
    } else {
      LifecyclesAppend(a, b[..|b| - 1]);
      assert (a + b)[..|a + b| - 1] == a + b[..|b| - 1];
    }
  }

  lemma {:induction false} BodyHasNoLifecycle(slot: nat, es: seq<Event>)
    requires Body(slot, es)
    ensures Lifecycles(es) == 0
    decreases |es|
  {
    if es != [] {
      var front := es[..|es| - 1];
      forall k | 0 <= k < |front| ensures WellPlaced(slot, front, k) {
        assert WellPlaced(slot, es, k);
        assert front[..k] == es[..k] && front[..k + 1] == es[..k + 1];
      }
      BodyHasNoLifecycle(slot, front);
      assert WellPlaced(slot, es, |es| - 1);
    }
  }

  lemma {:induction false} OneLifecyclePerLife(slot: nat, ls: seq<Life>)
    requires forall i :: 0 <= i < |ls| ==> ClosedLife(slot, ls[i])
    ensures Lifecycles(Concat(ls)) == |ls|
    decreases |ls|
  {
    if ls != [] {
      var last := ls[|ls| - 1].events;
      assert ClosedLife(slot, ls[|ls| - 1]);
      OneLifecyclePerLife(slot, ls[..|ls| - 1]);
      LifecyclesAppend(Concat(ls[..|ls| - 1]), last);
      BodyHasNoLifecycle(slot, last[..|last| - 1]);
    }
  }

  /** Over a whole run, each slot gets one lifecycle event per arrival that finds it absent. */
  lemma LifecycleEvents(s: nat, inputs: seq<Input>, end: nat, cfg: Config)
    ensures Lifecycles(Of(WholeRun(inputs, end, cfg).log, s)) == Births(s, inputs, |inputs|, cfg)
  {
    WholeRunIsLifetimes(s, inputs, end, cfg);
    EveryLifetimeCloses(s, inputs, end, cfg);
    OneLifecyclePerLife(s, Lifetimes(s, inputs, end, cfg));
    LifetimeCount(s, inputs, end, cfg);
  }

  /** The documented lifecycle guarantee, on the log: a slot that arrived gets at least one
      lifecycle event, and gets exactly one if and only if it was never restarted. */
  lemma NeverBothNeverNeither(s: nat, inputs: seq<Input>, end: nat, cfg: Config)
    requires exists i :: 0 <= i < |inputs| && ArrivalFor(inputs[i], s)
    ensures var n := Lifecycles(Of(WholeRun(inputs, end, cfg).log, s));
            n >= 1 && (n == 1 <==> !Restarted(s, inputs, |inputs|, cfg))
  {
    LifecycleEvents(s, inputs, end, cfg);
    LifetimeCount(s, inputs, end, cfg);
    ExactlyOneLifecycle(s, inputs, end, cfg);
  }

  /** When every arrival is above the memory cutoff, the slot's whole transcript is one gapless
      body, indices 0, 1, 2, ..., and then its lifecycle event. */
  lemma PromptSlotTranscript(s: nat, inputs: seq<Input>, end: nat, cfg: Config)
    requires exists i :: 0 <= i < |inputs| && ArrivalFor(inputs[i], s)
    requires forall k :: 0 <= k < |inputs| && ArrivalFor(inputs[k], s)
                         ==> s > DropCutoff(MaxSlot(inputs, k), cfg.sealLag)
    ensures var ls := Lifetimes(s, inputs, end, cfg);
            |ls| == 1 && Closed(s, Of(WholeRun(inputs, end, cfg).log, s), ls[0].late)
  {
    PromptArrivalsNeverRestart(s, inputs, cfg);
    ExactlyOneLifecycle(s, inputs, end, cfg);
    WholeRunIsLifetimes(s, inputs, end, cfg);
    var ls := Lifetimes(s, inputs, end, cfg);
    hide WholeRun, Lifetimes;
    assert ClosedLife(s, ls[0]);
    assert ls[..0] == [];
    NothingAppend(ls[0].events);
    assert Closed(s, Of(WholeRun(inputs, end, cfg).log, s), ls[0].late);
  }

  /** Slot 100 arrives, slot 120 arrives, a sweep runs, and slot 100 arrives again. */
  function LateScenario(early: Observation, ahead: Observation, late: Observation): seq<Input> {
    [Arrival(early, 0), Arrival(ahead, 0), Sweep(0), Arrival(late, 0)]
  }

  /** The late entry of slot 100 restarts it: two lifecycle events. */
  lemma LateArrivalRestartsSlot(early: Observation, ahead: Observation, late: Observation, end: nat, cfg: Config)
    requires early.slot == 100 && ahead.slot == 120 && late.slot == 100 && cfg.sealLag == 10
    ensures Lifecycles(Of(WholeRun(LateScenario(early, ahead, late), end, cfg).log, 100)) > 1
  {
    hide WholeRun;
    var inputs := LateScenario(early, ahead, late);
    assert ArrivalFor(inputs[0], 100);
    NeverBothNeverNeither(100, inputs, end, cfg);
    assert MaxSlot(inputs, 1) == 100;
    assert ArrivalFor(inputs[0], 100) && Forgets(inputs, 2, 100, cfg) && ArrivalFor(inputs[3], 100);
  }
}
