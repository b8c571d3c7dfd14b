/** The observer as an object updated in place, proved to do what its value does. */
module ObserverMachine {
  import opened Common
  import opened SlotHashCache
  import opened Observing

  datatype SlotState = SlotState(meter: Meter, seen: set<Hash>, fired: set<nat>)

  const BLANK_STATE := SlotState(START, {}, {})

  /** What is held of a slot is what its accepted entries make of it. */
  ghost predicate Mirrors(st: SlotState, es: seq<Entry>) {
    && st.meter == Replay(es)
    && st.seen == Hashes(es)
    && forall t :: t in st.fired ==> 1 <= t <= st.meter.tick
  }

  lemma MirrorsStep(st: SlotState, life: seq<Entry>, e: Entry)
    requires Mirrors(st, life)
    ensures var m := Metered(st.meter, e);
            && m == Replay(life + [e])
            && Mirrors(SlotState(m, st.seen + {e.hash}, st.fired), life + [e])
            && (Ticks(st.meter, e) ==>
                  && Mirrors(SlotState(m, st.seen + {e.hash}, st.fired + {m.tick}), life + [e])
                  && m.tick == st.meter.tick + 1 && m.tick !in st.fired && m.cumulative == m.tick * HASHES_PER_TICK)
  {
    hide Replay, AtTick, Hashes;
    AlwaysBalanced(life);
    BalancedStep(st.meter, Total(life), e);
    ReplaySnoc(life, e);
    HashesSnoc(life, e);
  }

  lemma HashesSnoc(life: seq<Entry>, e: Entry)
    ensures Hashes(life + [e]) == Hashes(life) + {e.hash}
  {
    forall i | 0 <= i < |life| ensures life[i].hash in Hashes(life + [e]) {
      assert (life + [e])[i] == life[i];
    }
    assert (life + [e])[|life|] == e;
  }

  class Observer {
    var states: map<nat, SlotState>
    var pendingSigs: set<nat>
    var currentSlot: nat
    var lastEviction: nat
    /** The two queues and the hash cache, as everything offered to them. */
    var triggers: seq<Trigger>
    var matches: seq<Match>
    var cached: seq<Sighting>
    var scheduleCalls: nat
    var scheduleHits: nat
    var forkTickOverflow: nat
    /** The accepted entries of each slot held. */
    ghost var lives: map<nat, seq<Entry>>
    /** Every signature that became pending. */
    ghost var registered: seq<nat>

    ghost predicate SlotsMirrored()
      reads this`states, this`lives
    {
      states.Keys == lives.Keys && forall s :: s in states ==> Mirrors(states[s], lives[s])
    }

    ghost predicate SigsGood()
      reads this`registered, this`matches, this`pendingSigs
    {
      SigsConserved(registered, matches, pendingSigs)
    }

    ghost predicate HitsCounted()
      reads this`triggers, this`scheduleHits
    {
      scheduleHits == |triggers|
    }

    ghost predicate Valid()
      reads this
    {
      SlotsMirrored() && SigsGood() && HitsCounted()
    }

    ghost function Value(): State
      reads this
    {
      State(lives, pendingSigs, currentSlot, lastEviction, scheduleCalls, forkTickOverflow, triggers, matches, cached)
    }

    constructor (startSlot: nat, now: nat)
      ensures Valid() && Value() == Start(startSlot, now) && registered == []
    {
      states, pendingSigs, currentSlot, lastEviction := map[], {}, startSlot, now;
      triggers, matches, cached := [], [], [];
      scheduleCalls, scheduleHits, forkTickOverflow := 0, 0, 0;
      lives, registered := map[], [];
    }

    function StateOf(slot: nat): SlotState
      reads this`states
    {
      if slot in states then states[slot] else BLANK_STATE
    }

    ghost function Life(slot: nat): seq<Entry>
      reads this`lives
    {
      if slot in lives then lives[slot] else []
    }

    lemma SlotIsMirrored(slot: nat)
      requires SlotsMirrored()
      ensures Mirrors(StateOf(slot), Life(slot))
    {
    }

    /** The loop over an entry's signatures. */
    method MatchSigs(slot: nat, e: Entry, m: Meter)
      requires SigsGood()
      modifies this`pendingSigs, this`matches
      ensures SigsGood()
      ensures matches == old(matches) + MatchesFor(Taken(e.sigs, old(pendingSigs)), slot, e, m)
      ensures pendingSigs == old(pendingSigs) - First(e.sigs, |e.sigs|)
    {
      hide SigsConserved, MatchesFor, Taken;
      NoMatches(e.sigs, pendingSigs, slot, e, m);
      for i := 0 to |e.sigs|
        invariant SigsGood()
        invariant matches == old(matches) + MatchesFor(Taken(e.sigs[..i], old(pendingSigs)), slot, e, m)
        invariant pendingSigs == old(pendingSigs) - First(e.sigs, i)
      {
        var sig := e.sigs[i];
        MatchesStep(e.sigs, i, old(pendingSigs), slot, e, m);
        if sig in pendingSigs {
          MatchConserves(registered, matches, pendingSigs, MatchFor(sig, slot, e, m));
          pendingSigs := pendingSigs - {sig};
          matches := matches + [MatchFor(sig, slot, e, m)];
        }
      }
      assert e.sigs[..|e.sigs|] == e.sigs;
    }

    /** The counters of one accepted entry; `tick` is the tick it completes, if any. */
    method MeterEntry(was: Meter, e: Entry) returns (m: Meter, tick: Option<nat>)
      modifies this`scheduleCalls, this`forkTickOverflow
      ensures m == Metered(was, e) && tick == (if Ticks(was, e) then Some(was.tick + 1) else None)
      ensures scheduleCalls == old(scheduleCalls) + if Ticks(was, e) then 1 else 0
      ensures forkTickOverflow == old(forkTickOverflow) + if AtTick(was, e) && !Ticks(was, e) then 1 else 0
    {
      m := Added(was, e);
      tick := None;
      if e.txs == 0 && m.sinceTick == HASHES_PER_TICK {
        if m.tick < TICKS_PER_SLOT {
          m := m.(tick := m.tick + 1, sinceTick := 0);
          tick := Some(m.tick);
          scheduleCalls := scheduleCalls + 1;
        } else {
          forkTickOverflow := forkTickOverflow + 1;
        }
      }
    }

    /** The accounting of one accepted entry, and the trigger it may fire: the fired set never stops one. */
    method CountEntry(slot: nat, e: Entry, schedule: set<(nat, nat)>) returns (tick: Option<nat>)
      requires SlotsMirrored() && HitsCounted() && e.hash !in StateOf(slot).seen
      modifies this`states, this`triggers, this`scheduleCalls, this`scheduleHits, this`forkTickOverflow, this`lives
      ensures SlotsMirrored() && HitsCounted()
      ensures lives == old(lives)[slot := old(Life(slot)) + [e]] && slot in states
      ensures states[slot].meter == Replay(old(Life(slot)) + [e]) && tick == TickOf(old(Life(slot)), e)
      ensures var was := Replay(old(Life(slot)));
              && scheduleCalls == old(scheduleCalls) + (if Ticks(was, e) then 1 else 0)
              && forkTickOverflow == old(forkTickOverflow) + (if AtTick(was, e) && !Ticks(was, e) then 1 else 0)
      ensures triggers == old(triggers) + if tick.Some? && (slot, tick.value) in schedule
                                          then [Trigger(slot, tick.value, tick.value * HASHES_PER_TICK)] else []
    {
      hide Mirrors, Replay, AtTick, Metered;
      var state := StateOf(slot);
      ghost var life := Life(slot);
      SlotIsMirrored(slot);
      MirrorsStep(state, life, e);
      MeterIs(state, life);
      var m;
      m, tick := MeterEntry(state.meter, e);
      var fired := state.fired;
      if tick.Some? && (slot, tick.value) in schedule && tick.value !in fired {
        fired := fired + {tick.value};
        scheduleHits := scheduleHits + 1;
        triggers := triggers + [Trigger(slot, tick.value, m.cumulative)];
      }
      lives := lives[slot := life + [e]];
      states := states[slot := SlotState(m, state.seen + {e.hash}, fired)];
    }

    /** `process_entry`. */
    method ProcessEntry(slot: nat, e: Entry, schedule: set<(nat, nat)>)
      requires Valid()
      modifies this`states, this`triggers, this`scheduleCalls, this`scheduleHits, this`forkTickOverflow, this`lives,
               this`cached, this`matches, this`pendingSigs
      ensures Valid() && Value() == Accept(old(Value()), slot, e, schedule)
    {
      hide Mirrors, MatchesFor, Taken, First, AtTick, Replay, SigsConserved, Hashes;
      SlotIsMirrored(slot);
      if Ticks(Replay(Life(slot)), e) {
        FiredIsExact(Life(slot), e);
      }
      hide Ticks;
      SeenIs(StateOf(slot), Life(slot));
      if slot in states && e.hash in states[slot].seen {
        return;
      }
      var tick := CountEntry(slot, e, schedule);
      cached := cached + [Sighting(slot, e.index, e.hash, tick)];
      MatchSigs(slot, e, states[slot].meter);
    }

    /** `maybe_evict_old_slots`. */
    method MaybeEvict(now: nat)
      requires Valid()
      modifies this`states, this`lives, this`lastEviction
      ensures Valid() && Value() == Evict(old(Value()), now)
    {
      hide SigsConserved, Mirrors;
      if now < lastEviction + EVICTION_PERIOD {
        return;
      }
      lastEviction := now;
      if currentSlot > KEPT_SLOTS {
        var cutoff := currentSlot - KEPT_SLOTS;
        states := map s | s in states && s >= cutoff :: states[s];
        lives := map s | s in lives && s >= cutoff :: lives[s];
      }
      assert lives == Evict(old(Value()), now).lives;
    }

    /** One turn of the loop for a merged entry. */
    method OnMerged(slot: nat, e: Entry, schedule: set<(nat, nat)>, now: nat)
      requires Valid()
      modifies this
      ensures Valid() && Value() == Step(old(Value()), Merged(slot, e, schedule, now)) && registered == old(registered)
    {
      hide SlotsMirrored, SigsGood, HitsCounted, Accept, Evict;
      ProcessEntry(slot, e, schedule);
      if slot > currentSlot {
        currentSlot := slot;
      }
      MaybeEvict(now);
    }

    /** A signature the dispatcher puts into the shared pending set. */
    method AddSig(sig: nat)
      requires Valid()
      modifies this`pendingSigs, this`registered
      ensures Valid() && Value() == Step(old(Value()), AddPending(sig))
      ensures registered == old(registered) + if sig in old(pendingSigs) then [] else [sig]
    {
      hide SigsConserved;
      if sig !in pendingSigs {
        RegisterConserves(registered, matches, pendingSigs, sig);
        pendingSigs := pendingSigs + {sig};
        registered := registered + [sig];
      } else {
        assert pendingSigs + {sig} == pendingSigs;
      }
    }

    method HandleInput(input: Input)
      requires Valid()
      modifies this
      ensures Valid() && Value() == Step(old(Value()), input)
      ensures registered == old(registered)
                            + if input.AddPending? && input.sig !in old(pendingSigs) then [input.sig] else []
    {
      hide Valid;
      match input
      case Merged(slot, e, schedule, now) =>
        OnMerged(slot, e, schedule, now);
      case Timeout(now) =>
        MaybeEvict(now);
      case AddPending(sig) =>
        AddSig(sig);
    }

    /** Refinement: over a whole run, with no premise on it, the object ends in the state, the triggers, the
        matches and the cache updates of the value; and each signature registered once is matched at most once. */
    method RunLoop(inputs: seq<Input>)
      requires Valid() && registered == []
      modifies this
      ensures Valid() && Value() == Run(old(Value()), inputs, |inputs|)
      ensures DistinctSigs(inputs) ==> forall i, j :: 0 <= i < j < |matches| ==> matches[i].sig != matches[j].sig
    {
      hide Valid, Step;
      ghost var start := Value();
      for n := 0 to |inputs|
        invariant Valid() && Value() == Run(start, inputs, n)
        invariant forall s :: s in registered ==> exists i :: 0 <= i < n && inputs[i] == AddPending(s)
        invariant DistinctSigs(inputs) ==> forall i, j :: 0 <= i < j < |registered| ==> registered[i] != registered[j]
      {
        HandleInput(inputs[n]);
      }
      NoSigTwice();
    }

    lemma NoSigTwice()
      requires Valid()
      ensures (forall i, j :: 0 <= i < j < |registered| ==> registered[i] != registered[j])
              ==> forall i, j :: 0 <= i < j < |matches| ==> matches[i].sig != matches[j].sig
    {
      if forall i, j :: 0 <= i < j < |registered| ==> registered[i] != registered[j] {
        MatchedAtMostOnce(registered, matches, pendingSigs);
      }
    }
  }

  lemma MeterIs(st: SlotState, life: seq<Entry>)
    requires Mirrors(st, life)
    ensures st.meter == Replay(life)
  {
  }

  lemma SeenIs(st: SlotState, life: seq<Entry>)
    requires Mirrors(st, life)
    ensures st.seen == Hashes(life)
  {
  }
}
