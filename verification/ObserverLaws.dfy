/** What the observer promises, read off the entries of a slot's lifetime in plain terms: what it passes to the hash
    cache, what it reports of a matched signature, what it counts and what it drops; and, joined to the cache, which
    tick and hash a slot is known by. */
module ObserverLaws {
  import opened Common
  import opened SlotHashCache
  import opened Observing
  import L = Lifetimes

  /** With this entry, but not before it, the lifetime has met every tick boundary up to `t`. */
  ghost predicate CompletesTick(life: seq<Entry>, e: Entry, t: nat) {
    1 <= t <= 64 && Reaches(life + [e], t) && !Reaches(life, t)
  }

  /** The lifetime has met every tick boundary up to `t`, and not the next. */
  ghost predicate StandsAt(life: seq<Entry>, t: nat) {
    t <= 64 && Reaches(life, t) && (t < 64 ==> !Reaches(life, t + 1))
  }

  lemma TickExactly(life: seq<Entry>, t: nat)
    ensures Replay(life).tick == t <==> StandsAt(life, t)
  {
    AlwaysBalanced(life);
    hide Replay, Reaches, Crossed;
    if t <= 64 {
      TickReachedExactly(life, t);
      ReachesIs(life, t);
    }
    if t < 64 {
      TickReachedExactly(life, t + 1);
      ReachesIs(life, t + 1);
    }
  }

  lemma ReachesIs(life: seq<Entry>, t: nat)
    ensures Reaches(life, t) <==> forall u: nat | 1 <= u <= t :: Crossed(life, u)
  {
  }

  lemma CompletesExactly(life: seq<Entry>, e: Entry, t: nat)
    ensures TickOf(life, e) == Some(t) <==> CompletesTick(life, e, t)
  {
    ReplaySnoc(life, e);
    TickSteps(Replay(life), e);
    AlwaysBalanced(life);
    AlwaysBalanced(life + [e]);
    hide Replay, Metered, Reaches, Crossed;
    if 1 <= t <= 64 {
      TickReachedExactly(life, t);
      TickReachedExactly(life + [e], t);
      ReachesIs(life, t);
      ReachesIs(life + [e], t);
    }
    hide AtTick;
  }

  /** Input `n` brings an entry that is new to its slot's lifetime. */
  ghost predicate BringsNew(start: State, inputs: seq<Input>, n: nat)
    requires n < |inputs|
  {
    inputs[n].Merged? && forall k :: 0 <= k < |LifeBefore(start, inputs, n)|
                                     ==> LifeBefore(start, inputs, n)[k].hash != inputs[n].entry.hash
  }

  /** The lifetime the entry of input `n` comes to. */
  function LifeBefore(start: State, inputs: seq<Input>, n: nat): seq<Entry>
    requires n < |inputs|
  {
    if inputs[n].Merged? then LifeOf(Run(start, inputs, n), inputs[n].slot) else []
  }

  lemma NewIs(start: State, inputs: seq<Input>, n: nat)
    requires n < |inputs| && inputs[n].Merged?
    ensures BringsNew(start, inputs, n) <==> inputs[n].entry.hash !in Hashes(LifeBefore(start, inputs, n))
  {
  }

  // ---------------------------------------------------------------- what the hash cache is told

  /** `s` says what the entry is, and its tick exactly if it completes one. */
  ghost predicate Sights(s: Sighting, slot: nat, life: seq<Entry>, e: Entry) {
    && s.slot == slot && s.index == e.index && s.hash == e.hash
    && forall t: nat :: s.tick == Some(t) <==> CompletesTick(life, e, t)
  }

  /** Exactly what every input tells the hash cache: an entry new to its lifetime is one sighting, with its slot, its
      index, its hash, and the tick it completes, if any; any other input is none. */
  lemma SightedExactly(start: State, inputs: seq<Input>, n: nat)
    requires n < |inputs|
    ensures var was, now := Run(start, inputs, n).cached, Run(start, inputs, n + 1).cached;
            if BringsNew(start, inputs, n)
            then |now| == |was| + 1 && now[..|was|] == was
                 && Sights(now[|was|], inputs[n].slot, LifeBefore(start, inputs, n), inputs[n].entry)
            else now == was
  {
    CachedNext(start, inputs, n);
    if inputs[n].Merged? {
      NewIs(start, inputs, n);
      hide Run, BringsNew, CompletesTick, TickOf;
      forall t: nat
        ensures TickOf(LifeBefore(start, inputs, n), inputs[n].entry) == Some(t)
                <==> CompletesTick(LifeBefore(start, inputs, n), inputs[n].entry, t)
      {
        CompletesExactly(LifeBefore(start, inputs, n), inputs[n].entry, t);
      }
    }
  }

  lemma CachedNext(start: State, inputs: seq<Input>, n: nat)
    requires n < |inputs|
    ensures var was, now := Run(start, inputs, n).cached, Run(start, inputs, n + 1).cached;
            now == if inputs[n].Merged? && inputs[n].entry.hash !in Hashes(LifeBefore(start, inputs, n))
                   then was + [Sighting(inputs[n].slot, inputs[n].entry.index, inputs[n].entry.hash,
                                        TickOf(LifeBefore(start, inputs, n), inputs[n].entry))]
                   else was
  {
    hide TickOf, Fires, Replay, AtTick, Ticks, MatchesFor, Taken, First, Hashes;
  }

  /** The last tick of a lifetime, with the hash of the entry that completed it. */
  function LastTickOf(life: seq<Entry>): Option<(nat, Hash)> {
    if life == [] then None
    else
      var before, e := life[..|life| - 1], life[|life| - 1];
      if TickOf(before, e).Some? then Some((TickOf(before, e).value, e.hash)) else LastTickOf(before)
  }

  /** What that last tick is, in plain terms. */
  lemma {:induction false} LastTickIsLast(life: seq<Entry>)
    ensures LastTickOf(life).None? <==> !Reaches(life, 1)
    ensures LastTickOf(life).Some? ==> LastTickOf(life).value.0 == Replay(life).tick
    ensures LastTickOf(life).None? ==> Replay(life).tick == 0
    ensures LastTickOf(life).Some? ==>
              && StandsAt(life, LastTickOf(life).value.0)
              && exists k: nat :: k < |life| && life[k].hash == LastTickOf(life).value.1
                                  && CompletesTick(life[..k], life[k], LastTickOf(life).value.0)
  {
    TickExactly(life, 0);
    hide CompletesTick, StandsAt, Reaches, TickOf;
    LastTickStep(life);
    if life != [] && LastTickOf(life).Some? {
      TickExactly(life, LastTickOf(life).value.0);
    }
  }

  lemma {:induction false} LastTickStep(life: seq<Entry>)
    ensures LastTickOf(life).None? <==> Replay(life).tick == 0
    ensures LastTickOf(life).None? <==> !Reaches(life, 1)
    ensures LastTickOf(life).Some? ==> LastTickOf(life).value.0 == Replay(life).tick
    ensures LastTickOf(life).Some? ==>
              exists k: nat :: k < |life| && life[k].hash == LastTickOf(life).value.1
                               && CompletesTick(life[..k], life[k], LastTickOf(life).value.0)
  {
    FirstTickReached(life);
    hide CompletesTick, Reaches;
    if life != [] {
      var before, e := life[..|life| - 1], life[|life| - 1];
      LastTickStep(before);
      TickSteps(Replay(before), e);
      hide Replay, Metered, Ticks;
      if TickOf(before, e).Some? {
        CompletesExactly(before, e, TickOf(before, e).value);
      } else if LastTickOf(before).Some? {
        var k: nat :| k < |before| && before[k].hash == LastTickOf(before).value.1
                      && CompletesTick(before[..k], before[k], LastTickOf(before).value.0);
        assert before[..k] == life[..k] && before[k] == life[k];
      }
    }
  }

  lemma FirstTickReached(life: seq<Entry>)
    ensures Replay(life).tick == 0 <==> !Reaches(life, 1)
  {
    TickReachedExactly(life, 1);
    ReachesIs(life, 1);
  }

  /** As long as a slot is not forgotten, the sightings of it say its lifetime's last tick, with its hash, whatever
      else they say: what a lookup answers from is the entry that completed the last tick. */
  lemma {:induction false} CacheKnowsLastTick(start: State, inputs: seq<Input>, n: nat, slot: nat)
    requires n <= |inputs| && start.lives == map[] && start.cached == []
    requires L.KeptSince(Marks(start, inputs, slot), 0, n)
    ensures var m := Run(start, inputs, n); Info(m.cached, |m.cached|, slot).lastTick == LastTickOf(LifeOf(m, slot))
  {
    hide Step, Forgets, Hashes, LifeOf;
    if n > 0 {
      CacheKnowsLastTick(start, inputs, n - 1, slot);
      assert !Marks(start, inputs, slot)[n - 1].forgets;
      LifeNext(start, inputs, n - 1, slot);
      CachedNext(start, inputs, n - 1);
      CacheNext(start, inputs, n - 1, slot);
    } else {
      NothingKnown(start, inputs, slot);
    }
  }

  lemma NothingKnown(start: State, inputs: seq<Input>, slot: nat)
    requires start.lives == map[] && start.cached == []
    ensures LifeOf(Run(start, inputs, 0), slot) == [] && Info(Run(start, inputs, 0).cached, 0, slot) == BLANK
  {
  }

  lemma CacheNext(start: State, inputs: seq<Input>, n: nat, slot: nat)
    requires n < |inputs| && !Forgets(start, inputs, n, slot)
    requires var m := Run(start, inputs, n); Info(m.cached, |m.cached|, slot).lastTick == LastTickOf(LifeOf(m, slot))
    ensures var m := Run(start, inputs, n + 1); Info(m.cached, |m.cached|, slot).lastTick == LastTickOf(LifeOf(m, slot))
  {
    hide Run, Forgets, Hashes, LifeOf, Info, LastTickOf, TickOf;
    LifeNext(start, inputs, n, slot);
    CachedNext(start, inputs, n);
    var was, now := Run(start, inputs, n), Run(start, inputs, n + 1);
    if inputs[n].Merged? && inputs[n].entry.hash !in Hashes(LifeBefore(start, inputs, n)) {
      var u := now.cached[|was.cached|];
      CacheGrows(was.cached, u, slot, LifeOf(was, slot), inputs[n].entry);
    }
  }

  lemma CacheGrows(h: seq<Sighting>, u: Sighting, slot: nat, life: seq<Entry>, e: Entry)
    requires Info(h, |h|, slot).lastTick == LastTickOf(life)
    requires u.slot == slot ==> u.hash == e.hash && u.tick == TickOf(life, e)
    ensures Info(h + [u], |h| + 1, slot).lastTick == LastTickOf(if u.slot == slot then life + [e] else life)
  {
    PrefixSame(h, u, |h|, slot);
    InfoNext(h + [u], |h|, slot);
    hide Info, LastTickOf, Absorb;
    if u.slot == slot {
      SightingTold(Info(h, |h|, slot), life, e, u);
    }
  }

  /** One more sighting of the slot. */
  lemma SightingTold(info: SlotInfo, life: seq<Entry>, e: Entry, u: Sighting)
    requires info.lastTick == LastTickOf(life) && u.hash == e.hash && u.tick == TickOf(life, e)
    ensures Absorb(info, u).lastTick == LastTickOf(life + [e])
  {
    assert (life + [e])[..|life|] == life;
    LastTickStep(life);
    hide Replay, Reaches, CompletesTick;
  }

  // ---------------------------------------------------------------- what a match reports, and what is counted

  /** What a match of signature `sig` reports: where it was seen, at which tick, and after how many hashes. */
  ghost predicate Reports(m: Match, sig: nat, slot: nat, life: seq<Entry>, e: Entry) {
    && m.sig == sig && m.slot == slot && m.index == e.index
    && m.cumulative == (if Total(life + [e]) > U64_MAX then U64_MAX else Total(life + [e]))
    && (m.tick.None? <==> !Reaches(life + [e], 1))
    && (m.tick.Some? ==> m.tick.value >= 1 && StandsAt(life + [e], m.tick.value))
  }

  lemma MatchForExactly(sig: nat, slot: nat, life: seq<Entry>, e: Entry)
    ensures Reports(MatchFor(sig, slot, e, Replay(life + [e])), sig, slot, life, e)
  {
    AlwaysBalanced(life + [e]);
    FirstTickReached(life + [e]);
    TickExactly(life + [e], Replay(life + [e]).tick);
    hide Replay, Reaches, StandsAt, Total;
  }

  /** Exactly which signatures every input matches, once each, what it reports of them, and what stays pending. */
  lemma MatchedExactly(start: State, inputs: seq<Input>, n: nat) returns (sigs: seq<nat>)
    requires n < |inputs|
    ensures BringsNew(start, inputs, n) ==>
              forall s :: s in sigs <==> s in inputs[n].entry.sigs && s in Run(start, inputs, n).pending
    ensures BringsNew(start, inputs, n) || sigs == []
    ensures forall i, j :: 0 <= i < j < |sigs| ==> sigs[i] != sigs[j]
    ensures var was, now := Run(start, inputs, n).matches, Run(start, inputs, n + 1).matches;
            && |now| == |was| + |sigs| && now[..|was|] == was
            && forall k :: 0 <= k < |sigs| ==>
                 Reports(now[|was| + k], sigs[k], inputs[n].slot, LifeBefore(start, inputs, n), inputs[n].entry)
    ensures var was, now := Run(start, inputs, n).pending, Run(start, inputs, n + 1).pending;
            forall s :: s in now <==> (s in was && s !in sigs) || inputs[n] == AddPending(s)
  {
    MatchesNext(start, inputs, n);
    if inputs[n].Merged? {
      NewIs(start, inputs, n);
    }
    hide Run, Reports, Hashes, MatchFor;
    if BringsNew(start, inputs, n) {
      var e, was := inputs[n].entry, Run(start, inputs, n);
      sigs := Taken(e.sigs, was.pending);
      TakenExactly(e.sigs, was.pending);
      var life := LifeBefore(start, inputs, n);
      forall k | 0 <= k < |sigs|
        ensures Reports(MatchFor(sigs[k], inputs[n].slot, e, Replay(life + [e])), sigs[k], inputs[n].slot, life, e)
      {
        MatchForExactly(sigs[k], inputs[n].slot, life, e);
      }
      hide Taken, Replay;
      forall s ensures s in First(e.sigs, |e.sigs|) <==> s in e.sigs {
      }
    } else {
      sigs := [];
    }
  }

  lemma MatchesNext(start: State, inputs: seq<Input>, n: nat)
    requires n < |inputs|
    ensures var was, now := Run(start, inputs, n), Run(start, inputs, n + 1);
            if inputs[n].Merged? && inputs[n].entry.hash !in Hashes(LifeBefore(start, inputs, n)) then
              var e := inputs[n].entry;
              && now.matches == was.matches + MatchesFor(Taken(e.sigs, was.pending), inputs[n].slot, e,
                                                         Replay(LifeBefore(start, inputs, n) + [e]))
              && now.pending == was.pending - First(e.sigs, |e.sigs|)
            else
              && now.matches == was.matches
              && now.pending == was.pending + if inputs[n].AddPending? then {inputs[n].sig} else {}
  {
    hide TickOf, Fires, Replay, AtTick, Ticks, MatchesFor, Taken, First, Hashes;
  }

  /** A completed tick is looked up in the schedule once; an entry without transactions at the boundary after tick 64
      counts as overflow; nothing else counts. */
  lemma CountedExactly(start: State, inputs: seq<Input>, n: nat)
    requires n < |inputs|
    ensures var was, now := Run(start, inputs, n), Run(start, inputs, n + 1);
            var life := LifeBefore(start, inputs, n);
            && (now.calls == was.calls + if BringsNew(start, inputs, n)
                                            && exists t: nat :: CompletesTick(life, inputs[n].entry, t) then 1 else 0)
            && (now.overflow == was.overflow + if BringsNew(start, inputs, n) && inputs[n].entry.txs == 0
                                                  && Reaches(life, 64)
                                                  && Total(life + [inputs[n].entry]) == 65 * 62_500 then 1 else 0)
  {
    CountsNext(start, inputs, n);
    if inputs[n].Merged? {
      NewIs(start, inputs, n);
      CountsMean(LifeBefore(start, inputs, n), inputs[n].entry);
    }
    hide Run, Hashes, Reaches, CompletesTick, AtTick, Total, Replay;
  }

  lemma CountsMean(life: seq<Entry>, e: Entry)
    ensures Ticks(Replay(life), e) <==> exists t: nat :: CompletesTick(life, e, t)
    ensures AtTick(Replay(life), e) && !Ticks(Replay(life), e)
            <==> e.txs == 0 && Reaches(life, 64) && Total(life + [e]) == 65 * 62_500
  {
    AlwaysBalanced(life);
    BalancedStep(Replay(life), Total(life), e);
    ReplaySnoc(life, e);
    TickReachedExactly(life, 64);
    ReachesIs(life, 64);
    hide Replay, Reaches, CompletesTick, Total, AtTick, Metered;
    if TickOf(life, e).Some? {
      CompletesExactly(life, e, TickOf(life, e).value);
    }
    if t: nat :| CompletesTick(life, e, t) {
      CompletesExactly(life, e, t);
    }
  }

  lemma CountsNext(start: State, inputs: seq<Input>, n: nat)
    requires n < |inputs|
    ensures var was, now := Run(start, inputs, n), Run(start, inputs, n + 1);
            var isNew := inputs[n].Merged? && inputs[n].entry.hash !in Hashes(LifeBefore(start, inputs, n));
            var m := Replay(LifeBefore(start, inputs, n));
            && now.calls == was.calls + (if isNew && Ticks(m, inputs[n].entry) then 1 else 0)
            && now.overflow
               == was.overflow + (if isNew && AtTick(m, inputs[n].entry) && !Ticks(m, inputs[n].entry) then 1 else 0)
  {
    hide TickOf, Fires, Replay, AtTick, Ticks, MatchesFor, Taken, First, Hashes;
  }

  // ---------------------------------------------------------------- what an eviction drops

  /** An eviction half a second or more after the last one drops exactly the slots more than 64 behind the highest, and
      any earlier one drops nothing. */
  lemma DropsExactly(s: State, now: nat, slot: nat)
    ensures slot in Evict(s, now).lives
            <==> slot in s.lives && (now < s.lastEviction + 500_000_000 || s.current <= slot + 64)
    ensures slot in Evict(s, now).lives ==> Evict(s, now).lives[slot] == s.lives[slot]
    ensures Evict(s, now).lastEviction == if now < s.lastEviction + 500_000_000 then s.lastEviction else now
    ensures Evict(s, now).current == s.current
  {
  }

  /** The current slot is the highest of the start slot and the slots of all entries so far. */
  lemma {:induction false} CurrentExactly(start: nat, inputs: seq<Input>, n: nat)
    requires n <= |inputs|
    ensures Current(start, inputs, n) >= start
    ensures forall i :: 0 <= i < n && inputs[i].Merged? ==> inputs[i].slot <= Current(start, inputs, n)
    ensures Current(start, inputs, n) == start
            || exists i :: 0 <= i < n && inputs[i].Merged? && inputs[i].slot == Current(start, inputs, n)
  {
    if n > 0 {
      CurrentExactly(start, inputs, n - 1);
    }
  }
}
