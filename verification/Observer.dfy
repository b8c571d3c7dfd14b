/** The observer as a value: per-slot tick and hash accounting over the merged entries, the triggers fired at
    scheduled ticks, the matching of pending signatures, and what holds of them over every run. */
module Observing {
  import opened Common
  import L = Lifetimes
  import opened SlotHashCache

  datatype Entry = Entry(hash: Hash, index: nat, numHashes: nat, txs: nat, sigs: seq<nat>)

  /** The running counters of a slot; both hash counts saturate at 64 bits. */
  datatype Meter = Meter(tick: nat, sinceTick: nat, cumulative: nat)

  datatype Trigger = Trigger(slot: nat, tick: nat, cumulative: nat)

  datatype Match = Match(sig: nat, slot: nat, index: nat, tick: Option<nat>, cumulative: nat)

  datatype Input =
    | Merged(slot: nat, entry: Entry, schedule: set<(nat, nat)>, now: nat)
    | Timeout(now: nat)
    | AddPending(sig: nat)

  const START := Meter(0, 0, 0)
  const KEPT_SLOTS: nat := 64
  const EVICTION_PERIOD: nat := 500_000_000

  // ---------------------------------------------------------------- tick accounting

  function Added(m: Meter, e: Entry): Meter {
    m.(sinceTick := SatAdd64(m.sinceTick, e.numHashes), cumulative := SatAdd64(m.cumulative, e.numHashes))
  }

  predicate AtTick(m: Meter, e: Entry) {
    e.txs == 0 && Added(m, e).sinceTick == HASHES_PER_TICK
  }

  predicate Ticks(m: Meter, e: Entry) {
    AtTick(m, e) && m.tick < TICKS_PER_SLOT
  }

  function Metered(m: Meter, e: Entry): Meter {
    if Ticks(m, e) then Added(m, e).(tick := m.tick + 1, sinceTick := 0) else Added(m, e)
  }

  function Replay(es: seq<Entry>): Meter {
    if es == [] then START else Metered(Replay(es[..|es| - 1]), es[|es| - 1])
  }

  lemma ReplaySnoc(es: seq<Entry>, e: Entry)
    ensures Replay(es + [e]) == Metered(Replay(es), e) && Total(es + [e]) == Total(es) + e.numHashes
  {
    assert (es + [e])[..|es + [e]| - 1] == es;
  }

  /** The exact, unbounded number of hashes of a slot's entries. */
  function Total(es: seq<Entry>): nat {
    if es == [] then 0 else Total(es[..|es| - 1]) + es[|es| - 1].numHashes
  }

  /** Both counts are the exact ones cut off at 64 bits; no premise keeps them from saturating. */
  ghost predicate Balanced(m: Meter, total: nat) {
    && m.tick <= TICKS_PER_SLOT
    && m.tick * HASHES_PER_TICK <= total
    && m.cumulative == Min(U64_MAX, total)
    && m.sinceTick == Min(U64_MAX, total - m.tick * HASHES_PER_TICK)
  }

  lemma BalancedStep(m: Meter, total: nat, e: Entry)
    requires Balanced(m, total)
    ensures Balanced(Metered(m, e), total + e.numHashes)
    ensures AtTick(m, e) <==> e.txs == 0 && total + e.numHashes == (m.tick + 1) * HASHES_PER_TICK
    ensures Ticks(m, e) ==> Metered(m, e).cumulative == (m.tick + 1) * HASHES_PER_TICK
  {
  }

  lemma {:induction false} AlwaysBalanced(es: seq<Entry>)
    ensures Balanced(Replay(es), Total(es))
  {
    if es != [] {
      AlwaysBalanced(es[..|es| - 1]);
      BalancedStep(Replay(es[..|es| - 1]), Total(es[..|es| - 1]), es[|es| - 1]);
    }
  }

  /** Short of saturation, the hashes of a slot are those of its full ticks plus those since. */
  lemma HashesSplitAtTicks(es: seq<Entry>)
    requires Total(es) <= U64_MAX
    ensures Replay(es).cumulative == Replay(es).tick * HASHES_PER_TICK + Replay(es).sinceTick == Total(es)
  {
    AlwaysBalanced(es);
  }

  /** Some prefix holds exactly `u` ticks of hashes and ends with an entry without transactions. */
  ghost predicate Boundary(es: seq<Entry>, k: nat, u: nat) {
    0 < k <= |es| && es[k - 1].txs == 0 && Total(es[..k]) == u * HASHES_PER_TICK
  }

  ghost predicate Crossed(es: seq<Entry>, u: nat) {
    exists k: nat :: Boundary(es, k, u)
  }

  lemma BoundarySnoc(es: seq<Entry>, e: Entry, k: nat, u: nat)
    ensures k <= |es| ==> (Boundary(es + [e], k, u) <==> Boundary(es, k, u))
    ensures k > |es| + 1 ==> !Boundary(es + [e], k, u)
    ensures Boundary(es + [e], |es| + 1, u) <==> e.txs == 0 && Total(es) + e.numHashes == u * HASHES_PER_TICK
  {
    ReplaySnoc(es, e);
    assert (es + [e])[..|es| + 1] == es + [e];
    if k <= |es| {
      assert (es + [e])[..k] == es[..k];
    }
  }

  lemma CrossedSnoc(es: seq<Entry>, e: Entry, u: nat)
    ensures Crossed(es + [e], u)
            <==> Crossed(es, u) || (e.txs == 0 && Total(es) + e.numHashes == u * HASHES_PER_TICK)
  {
    hide Boundary, Total;
    BoundarySnoc(es, e, |es| + 1, u);
    if k: nat :| Boundary(es, k, u) {
      BoundaryWithin(es, k, u);
      BoundarySnoc(es, e, k, u);
    }
    if k: nat :| Boundary(es + [e], k, u) {
      BoundarySnoc(es, e, k, u);
    }
  }

  lemma BoundaryWithin(es: seq<Entry>, k: nat, u: nat)
    requires Boundary(es, k, u)
    ensures k <= |es|
  {
  }

  lemma {:induction false} CrossedIsBelow(es: seq<Entry>, u: nat)
    requires Crossed(es, u)
    ensures u * HASHES_PER_TICK <= Total(es)
  {
    if es == [] {
      assert false;
    }
    var before, e := es[..|es| - 1], es[|es| - 1];
    assert es == before + [e];
    CrossedSnoc(before, e, u);
    if Crossed(before, u) {
      CrossedIsBelow(before, u);
    }
  }

  /** The tick is the length of the run of tick boundaries crossed, from the first one. */
  ghost predicate CountsBoundaries(es: seq<Entry>, tick: nat) {
    && (forall u: nat | 1 <= u <= tick :: Crossed(es, u))
    && (tick < TICKS_PER_SLOT ==> !Crossed(es, tick + 1))
  }

  lemma CountsStep(es: seq<Entry>, m: Meter, e: Entry)
    requires CountsBoundaries(es, m.tick) && Balanced(m, Total(es))
    ensures CountsBoundaries(es + [e], Metered(m, e).tick)
  {
    hide Crossed;
    BalancedStep(m, Total(es), e);
    ReplaySnoc(es, e);
    forall u: nat ensures Crossed(es, u) ==> Crossed(es + [e], u) {
      CrossedSnoc(es, e, u);
    }
    CrossedSnoc(es, e, m.tick + 1);
    if Crossed(es + [e], m.tick + 2) {
      CrossedIsBelow(es + [e], m.tick + 2);
    }
  }

  lemma {:induction false} TickCountsBoundaries(es: seq<Entry>)
    ensures CountsBoundaries(es, Replay(es).tick)
  {
    if es == [] {
      assert !Crossed([], 1);
    } else {
      var before, e := es[..|es| - 1], es[|es| - 1];
      TickCountsBoundaries(before);
      AlwaysBalanced(before);
      CountsStep(before, Replay(before), e);
      assert es == before + [e];
    }
  }

  /** Tick `t` is reached exactly when every tick boundary up to it was crossed by an entry without
      transactions: one boundary overshot, or met only by transactions, stops the slot's ticks for good. */
  lemma TickReachedExactly(es: seq<Entry>, t: nat)
    requires t <= TICKS_PER_SLOT
    ensures t <= Replay(es).tick <==> forall u: nat | 1 <= u <= t :: Crossed(es, u)
  {
    TickCountsBoundaries(es);
    AlwaysBalanced(es);
    hide Crossed;
  }

  // ---------------------------------------------------------------- signatures

  function SigsOf(ms: seq<Match>): seq<nat> {
    if ms == [] then [] else SigsOf(ms[..|ms| - 1]) + [ms[|ms| - 1].sig]
  }

  lemma SigsSnoc(ms: seq<Match>, m: Match)
    ensures SigsOf(ms + [m]) == SigsOf(ms) + [m.sig]
  {
    assert (ms + [m])[..|ms + [m]| - 1] == ms;
  }

  /** Every effective registration of a signature is matched once or still pending. */
  ghost predicate SigsConserved(registered: seq<nat>, ms: seq<Match>, pending: set<nat>) {
    multiset(registered) == multiset(SigsOf(ms)) + multiset(pending)
  }

  lemma MatchConserves(registered: seq<nat>, ms: seq<Match>, pending: set<nat>, m: Match)
    requires SigsConserved(registered, ms, pending) && m.sig in pending
    ensures SigsConserved(registered, ms + [m], pending - {m.sig})
  {
    SigsSnoc(ms, m);
    assert multiset(pending) == multiset(pending - {m.sig}) + multiset{m.sig};
  }

  lemma RegisterConserves(registered: seq<nat>, ms: seq<Match>, pending: set<nat>, sig: nat)
    requires SigsConserved(registered, ms, pending) && sig !in pending
    ensures SigsConserved(registered + [sig], ms, pending + {sig})
  {
    assert multiset(pending + {sig}) == multiset(pending) + multiset{sig};
  }

  lemma {:induction false} SigsAre(ms: seq<Match>)
    ensures |SigsOf(ms)| == |ms| && forall i :: 0 <= i < |ms| ==> SigsOf(ms)[i] == ms[i].sig
  {
    if ms != [] {
      SigsAre(ms[..|ms| - 1]);
    }
  }

  /** A signature registered at most once is matched at most once, and not while still pending. */
  lemma MatchedAtMostOnce(registered: seq<nat>, ms: seq<Match>, pending: set<nat>)
    requires SigsConserved(registered, ms, pending)
    requires forall i, j :: 0 <= i < j < |registered| ==> registered[i] != registered[j]
    ensures forall i, j :: 0 <= i < j < |ms| ==> ms[i].sig != ms[j].sig
    ensures forall i :: 0 <= i < |ms| ==> ms[i].sig !in pending && ms[i].sig in registered
  {
    SigsAre(ms);
    var sigs := SigsOf(ms);
    forall i | 0 <= i < |ms| ensures ms[i].sig !in pending && ms[i].sig in registered {
      assert multiset(sigs)[sigs[i]] >= 1;
      OnlyOnce(registered, sigs[i]);
    }
    forall i, j | 0 <= i < j < |ms| ensures ms[i].sig != ms[j].sig {
      OnlyOnce(registered, sigs[i]);
      if sigs[i] == sigs[j] {
        CountedTwice(sigs, i, j);
      }
    }
  }

  lemma CountedTwice(ns: seq<nat>, i: nat, j: nat)
    requires i < j < |ns| && ns[i] == ns[j]
    ensures multiset(ns)[ns[i]] >= 2
  {
    assert ns == ns[..j] + ns[j..];
    assert ns[..j][i] == ns[i] && ns[j..][0] == ns[j];
    assert ns[i] in ns[..j] && ns[i] in ns[j..];
  }

  lemma {:induction false} OnlyOnce(ns: seq<nat>, n: nat)
    requires forall i, j :: 0 <= i < j < |ns| ==> ns[i] != ns[j]
    ensures multiset(ns)[n] <= 1
  {
    if ns != [] {
      var rest := ns[..|ns| - 1];
      OnlyOnce(rest, n);
      assert ns == rest + [ns[|ns| - 1]];
    }
  }

  /** The pending signatures of an entry, each once, in the entry's order. */
  function Taken(sigs: seq<nat>, pending: set<nat>): seq<nat> {
    if sigs == [] then []
    else
      var before, sig := sigs[..|sigs| - 1], sigs[|sigs| - 1];
      Taken(before, pending) + if sig in pending && sig !in before then [sig] else []
  }

  lemma TakenSnoc(sigs: seq<nat>, sig: nat, pending: set<nat>)
    ensures Taken(sigs + [sig], pending)
            == Taken(sigs, pending) + if sig in pending && sig !in sigs then [sig] else []
  {
    assert (sigs + [sig])[..|sigs + [sig]| - 1] == sigs;
  }

  lemma {:induction false} TakenExactly(sigs: seq<nat>, pending: set<nat>)
    ensures forall s :: s in Taken(sigs, pending) <==> s in sigs && s in pending
    ensures forall i, j :: 0 <= i < j < |Taken(sigs, pending)| ==> Taken(sigs, pending)[i] != Taken(sigs, pending)[j]
  {
    if sigs != [] {
      TakenExactly(sigs[..|sigs| - 1], pending);
      var was := Taken(sigs[..|sigs| - 1], pending);
      assert forall i :: 0 <= i < |was| ==> was[i] in was;
    }
  }

  function MatchesFor(taken: seq<nat>, slot: nat, e: Entry, m: Meter): seq<Match> {
    seq(|taken|, i requires 0 <= i < |taken| => MatchFor(taken[i], slot, e, m))
  }

  function MatchFor(sig: nat, slot: nat, e: Entry, m: Meter): Match {
    Match(sig, slot, e.index, if m.tick > 0 then Some(m.tick) else None, m.cumulative)
  }

  /** The first `n` signatures of an entry. */
  function First(sigs: seq<nat>, n: nat): set<nat>
    requires n <= |sigs|
  {
    set i | 0 <= i < n :: sigs[i]
  }

  // ---------------------------------------------------------------- the whole observer

  /** The accepted entries of each slot held, and everything offered to the queues and the hash cache. */
  datatype State = State(
    lives: map<nat, seq<Entry>>, pending: set<nat>, current: nat, lastEviction: nat, calls: nat, overflow: nat,
    triggers: seq<Trigger>, matches: seq<Match>, cached: seq<Sighting>)

  function Start(slot: nat, now: nat): State {
    State(map[], {}, slot, now, 0, 0, [], [], [])
  }

  function LifeOf(s: State, slot: nat): seq<Entry> {
    if slot in s.lives then s.lives[slot] else []
  }

  function Hashes(es: seq<Entry>): set<Hash> {
    set i | 0 <= i < |es| :: es[i].hash
  }

  function TickOf(es: seq<Entry>, e: Entry): Option<nat> {
    if Ticks(Replay(es), e) then Some(Replay(es).tick + 1) else None
  }

  /** The trigger an entry fires, if any: it must be new to its slot and complete a scheduled tick. */
  function Fires(s: State, slot: nat, e: Entry, schedule: set<(nat, nat)>): Option<Trigger> {
    var life := LifeOf(s, slot);
    var tick := TickOf(life, e);
    if e.hash !in Hashes(life) && tick.Some? && (slot, tick.value) in schedule
    then Some(Trigger(slot, tick.value, Replay(life + [e]).cumulative)) else None
  }

  /** The hashes a trigger carries are exactly those of its ticks. */
  lemma FiredIsExact(life: seq<Entry>, e: Entry)
    requires Ticks(Replay(life), e)
    ensures 1 <= Replay(life).tick + 1 <= TICKS_PER_SLOT
    ensures Replay(life + [e]).cumulative == (Replay(life).tick + 1) * HASHES_PER_TICK
  {
    AlwaysBalanced(life);
    BalancedStep(Replay(life), Total(life), e);
    ReplaySnoc(life, e);
  }

  /** Every tick boundary up to `t` was met exactly by an entry without transactions. */
  ghost predicate Reaches(es: seq<Entry>, t: nat) {
    forall u: nat | 1 <= u <= t :: Crossed(es, u)
  }

  /** Exactly when an entry fires the trigger of tick `t`: the slot is scheduled for it, the entry is new to its
      lifetime, and with it, but not before it, the lifetime has met every tick boundary up to `t`. */
  lemma FiresExactly(s: State, slot: nat, e: Entry, schedule: set<(nat, nat)>, t: nat)
    requires 1 <= t <= TICKS_PER_SLOT
    ensures var life := LifeOf(s, slot);
            Fires(s, slot, e, schedule) == Some(Trigger(slot, t, t * HASHES_PER_TICK))
            <==> (slot, t) in schedule && e.hash !in Hashes(life) && Reaches(life + [e], t) && !Reaches(life, t)
  {
    var life := LifeOf(s, slot);
    TickReachedExactly(life, t);
    TickReachedExactly(life + [e], t);
    ReplaySnoc(life, e);
    TickSteps(Replay(life), e);
    if Ticks(Replay(life), e) {
      FiredIsExact(life, e);
    }
    hide Replay, Hashes, Crossed, Metered, Ticks, LifeOf;
  }

  lemma TickSteps(m: Meter, e: Entry)
    ensures Metered(m, e).tick == m.tick + if Ticks(m, e) then 1 else 0
  {
  }

  function Accept(s: State, slot: nat, e: Entry, schedule: set<(nat, nat)>): State {
    var life := LifeOf(s, slot);
    var fires := Fires(s, slot, e, schedule);
    var m := Replay(life);
    if e.hash in Hashes(life) then s
    else
      s.(lives := s.lives[slot := life + [e]],
         pending := s.pending - First(e.sigs, |e.sigs|),
         calls := s.calls + if Ticks(m, e) then 1 else 0,
         overflow := s.overflow + if AtTick(m, e) && !Ticks(m, e) then 1 else 0,
         triggers := s.triggers + if fires.Some? then [fires.value] else [],
         matches := s.matches + MatchesFor(Taken(e.sigs, s.pending), slot, e, Replay(life + [e])),
         cached := s.cached + [Sighting(slot, e.index, e.hash, TickOf(life, e))])
  }

  predicate Rests(last: nat, now: nat) {
    now < last + EVICTION_PERIOD
  }

  function Evict(s: State, now: nat): State {
    if Rests(s.lastEviction, now) then s
    else s.(lastEviction := now, lives := map k | k in s.lives && s.current <= k + KEPT_SLOTS :: s.lives[k])
  }

  function Raise(s: State, slot: nat): State {
    s.(current := Max(s.current, slot))
  }

  function Step(s: State, input: Input): State {
    match input
    case Merged(slot, e, schedule, now) => Evict(Raise(Accept(s, slot, e, schedule), slot), now)
    case Timeout(now) => Evict(s, now)
    case AddPending(sig) => s.(pending := s.pending + {sig})
  }

  function Run(start: State, inputs: seq<Input>, n: nat): State
    requires n <= |inputs|
  {
    if n == 0 then start else Step(Run(start, inputs, n - 1), inputs[n - 1])
  }

  /** After an eviction few slots are held. */
  ghost predicate UpToDate(s: State) {
    forall k :: k in s.lives ==> s.lives[k] != [] && k <= s.current
  }

  lemma StepUpToDate(s: State, input: Input)
    requires UpToDate(s)
    ensures UpToDate(Step(s, input))
  {
    hide Replay, TickOf, AtTick, Ticks, MatchesFor, Taken, First, Hashes;
  }

  lemma {:induction false} RunUpToDate(start: State, inputs: seq<Input>, n: nat)
    requires n <= |inputs| && UpToDate(start)
    ensures UpToDate(Run(start, inputs, n))
  {
    hide UpToDate, Step;
    if n > 0 {
      RunUpToDate(start, inputs, n - 1);
      StepUpToDate(Run(start, inputs, n - 1), inputs[n - 1]);
    }
  }

  lemma EvictBoundsMemory(s: State, now: nat)
    requires UpToDate(s) && !Rests(s.lastEviction, now)
    ensures |Evict(s, now).lives| <= KEPT_SLOTS + 1
  {
    var kept := Evict(s, now).lives;
    BoundedSetSize(kept.Keys, SatSub(s.current, KEPT_SLOTS), s.current + 1);
    assert |kept.Keys| == |kept|;
  }

  // ---------------------------------------------------------------- lifetimes of a slot

  predicate EntryFor(input: Input, slot: nat) {
    input.Merged? && input.slot == slot
  }

  function Current(start: nat, inputs: seq<Input>, n: nat): nat
    requires n <= |inputs|
  {
    if n == 0 then start
    else if inputs[n - 1].Merged? then Max(Current(start, inputs, n - 1), inputs[n - 1].slot)
    else Current(start, inputs, n - 1)
  }

  /** The time of the last eviction after `n` inputs. */
  function EvictedAt(last: nat, inputs: seq<Input>, n: nat): nat
    requires n <= |inputs|
  {
    if n == 0 then last
    else
      var before := EvictedAt(last, inputs, n - 1);
      if !inputs[n - 1].AddPending? && !Rests(before, inputs[n - 1].now) then inputs[n - 1].now else before
  }

  /** Input `i` evicts, and the slot is more than the kept slots behind: read off the inputs alone. */
  predicate Forgets(start: State, inputs: seq<Input>, i: nat, slot: nat)
    requires i < |inputs|
  {
    && !inputs[i].AddPending? && !Rests(EvictedAt(start.lastEviction, inputs, i), inputs[i].now)
    && slot + KEPT_SLOTS < Current(start.current, inputs, i + 1)
  }

  /** What each input means to the slot. */
  function Marks(start: State, inputs: seq<Input>, slot: nat): (ms: seq<L.Mark>)
    ensures |ms| == |inputs|
  {
    seq(|inputs|, i requires 0 <= i < |inputs| => L.Mark(EntryFor(inputs[i], slot), Forgets(start, inputs, i, slot)))
  }

  lemma {:induction false} RunClocks(start: State, inputs: seq<Input>, n: nat)
    requires n <= |inputs|
    ensures Run(start, inputs, n).current == Current(start.current, inputs, n)
    ensures Run(start, inputs, n).lastEviction == EvictedAt(start.lastEviction, inputs, n)
  {
    hide Fires, Replay, TickOf, AtTick, Ticks, MatchesFor, Taken, First, Hashes;
    if n > 0 {
      RunClocks(start, inputs, n - 1);
    }
  }

  /** What an input does to the entries held of one slot. */
  lemma LifeNext(start: State, inputs: seq<Input>, n: nat, slot: nat)
    requires n < |inputs|
    ensures var was, now := Run(start, inputs, n), Run(start, inputs, n + 1);
            var grown := if !EntryFor(inputs[n], slot) || inputs[n].entry.hash in Hashes(LifeOf(was, slot))
                         then LifeOf(was, slot) else LifeOf(was, slot) + [inputs[n].entry];
            LifeOf(now, slot) == if Forgets(start, inputs, n, slot) then [] else grown
  {
    var was := Run(start, inputs, n);
    RunClocks(start, inputs, n);
    RunClocks(start, inputs, n + 1);
    hide Accept, Evict, Hashes, EvictedAt, Current;
    match inputs[n]
    case Merged(s, e, schedule, now) =>
      AcceptLife(was, s, e, schedule, slot);
      EvictLife(Raise(Accept(was, s, e, schedule), s), now, slot);
    case Timeout(now) =>
      EvictLife(was, now, slot);
    case AddPending(_) =>
  }

  lemma AcceptLife(s: State, k: nat, e: Entry, schedule: set<(nat, nat)>, slot: nat)
    ensures var r := Accept(s, k, e, schedule);
            && LifeOf(r, slot) == (if k != slot || e.hash in Hashes(LifeOf(s, slot)) then LifeOf(s, slot)
                                   else LifeOf(s, slot) + [e])
            && r.current == s.current && r.lastEviction == s.lastEviction
  {
    hide Fires, Replay, TickOf, AtTick, Ticks, MatchesFor, Taken, First, Hashes;
  }

  lemma EvictLife(s: State, now: nat, slot: nat)
    ensures var r := Evict(s, now);
            && LifeOf(r, slot) == (if !Rests(s.lastEviction, now) && slot + KEPT_SLOTS < s.current then []
                                   else LifeOf(s, slot))
            && r.current == s.current
  {
  }

  /** A slot is held exactly when an entry of it came and nothing forgot it since. */
  lemma {:induction false} HeldExactly(start: State, inputs: seq<Input>, n: nat, slot: nat)
    requires n <= |inputs| && start.lives == map[]
    ensures LifeOf(Run(start, inputs, n), slot) != [] <==> L.Present(Marks(start, inputs, slot), n)
  {
    hide Step, Forgets;
    if n > 0 {
      HeldExactly(start, inputs, n - 1, slot);
      LifeNext(start, inputs, n - 1, slot);
      assert Hashes([]) == {};
    }
  }

  /** The lifetime an input belongs to, counted from the slot's first. */
  function LifetimeAt(start: State, inputs: seq<Input>, i: nat, slot: nat): nat
    requires i < |inputs|
  {
    L.Births(Marks(start, inputs, slot), i + 1)
  }

  /** The trigger fired by input `i`, if any. */
  function FiredAt(start: State, inputs: seq<Input>, i: nat): Option<Trigger>
    requires i < |inputs|
  {
    if inputs[i].Merged?
    then Fires(Run(start, inputs, i), inputs[i].slot, inputs[i].entry, inputs[i].schedule)
    else None
  }

  /** The queue gets exactly the triggers fired, in order. */
  lemma TriggersAre(start: State, inputs: seq<Input>, n: nat)
    requires n < |inputs|
    ensures var fired := FiredAt(start, inputs, n);
            Run(start, inputs, n + 1).triggers
            == Run(start, inputs, n).triggers + if fired.Some? then [fired.value] else []
  {
    hide Replay, TickOf, AtTick, Ticks, MatchesFor, Taken, First;
  }

  lemma {:induction false} TickNeverFalls(es: seq<Entry>, more: seq<Entry>)
    ensures Replay(es).tick <= Replay(es + more).tick
    decreases |more|
  {
    if more == [] {
      assert es + more == es;
    } else {
      var before, e := more[..|more| - 1], more[|more| - 1];
      TickNeverFalls(es, before);
      assert es + more == (es + before) + [e];
      ReplaySnoc(es + before, e);
    }
  }

  /** Unless it is forgotten, a slot keeps its entries and adds to them. */
  lemma {:induction false} LifeGrows(start: State, inputs: seq<Input>, i: nat, n: nat, slot: nat)
    returns (more: seq<Entry>)
    requires i <= n <= |inputs| && L.KeptSince(Marks(start, inputs, slot), i, n)
    ensures LifeOf(Run(start, inputs, n), slot) == LifeOf(Run(start, inputs, i), slot) + more
    decreases n
  {
    hide Step, Forgets, Hashes, LifeOf;
    if i == n {
      more := [];
    } else {
      more := LifeGrows(start, inputs, i, n - 1, slot);
      LifeNext(start, inputs, n - 1, slot);
      assert !Marks(start, inputs, slot)[n - 1].forgets;
      if EntryFor(inputs[n - 1], slot)
         && inputs[n - 1].entry.hash !in Hashes(LifeOf(Run(start, inputs, n - 1), slot)) {
        more := more + [inputs[n - 1].entry];
      }
    }
  }

  /** The triggers fired in one lifetime of a slot come at strictly increasing ticks, and each carries exactly
      the hashes of its ticks. */
  lemma TicksRiseInLifetime(start: State, inputs: seq<Input>, i: nat, j: nat)
    requires i < j < |inputs| && FiredAt(start, inputs, i).Some? && FiredAt(start, inputs, j).Some?
    requires inputs[i].slot == inputs[j].slot
    requires LifetimeAt(start, inputs, i, inputs[i].slot) == LifetimeAt(start, inputs, j, inputs[i].slot)
    ensures var t, u := FiredAt(start, inputs, i).value, FiredAt(start, inputs, j).value;
            && 1 <= t.tick < u.tick <= TICKS_PER_SLOT
            && t.cumulative == t.tick * HASHES_PER_TICK && u.cumulative == u.tick * HASHES_PER_TICK
  {
    var slot, e := inputs[i].slot, inputs[i].entry;
    var ms := Marks(start, inputs, slot);
    assert ms[i].arrives && ms[j].arrives;
    L.SameLifetimeExactly(ms, i, j);
    var life := LifeOf(Run(start, inputs, i), slot);
    assert !ms[i].forgets;
    LifeNext(start, inputs, i, slot);
    var more := LifeGrows(start, inputs, i + 1, j, slot);
    FiredIsExact(life, e);
    FiredIsExact(LifeOf(Run(start, inputs, j), slot), inputs[j].entry);
    hide Run, Marks, Forgets, Metered;
    ReplaySnoc(life, e);
    TickNeverFalls(life + [e], more);
    TickSteps(Replay(life), e);
  }

  /** So the same slot and tick fire twice only in different lifetimes: exactly when each input fires it in its own
      lifetime and an eviction between them forgot the slot. */
  lemma FiresAgainExactly(start: State, inputs: seq<Input>, i: nat, j: nat, t: nat)
    requires i < j < |inputs| && inputs[i].Merged? && inputs[j].Merged? && inputs[i].slot == inputs[j].slot
    requires 1 <= t <= TICKS_PER_SLOT
    ensures var slot, fired := inputs[i].slot, Some(Trigger(inputs[i].slot, t, t * HASHES_PER_TICK));
            FiredAt(start, inputs, i) == fired == FiredAt(start, inputs, j)
            <==> && !L.KeptSince(Marks(start, inputs, slot), i, j)
                 && Completes(Run(start, inputs, i), inputs[i], t) && Completes(Run(start, inputs, j), inputs[j], t)
  {
    var slot := inputs[i].slot;
    FiresExactly(Run(start, inputs, i), slot, inputs[i].entry, inputs[i].schedule, t);
    FiresExactly(Run(start, inputs, j), slot, inputs[j].entry, inputs[j].schedule, t);
    var ms := Marks(start, inputs, slot);
    assert ms[i].arrives && ms[j].arrives;
    L.SameLifetimeExactly(ms, i, j);
    hide Run, Marks, Fires, Reaches, L.KeptSince, L.Births;
    if FiredAt(start, inputs, i).Some? && FiredAt(start, inputs, j).Some?
       && LifetimeAt(start, inputs, i, slot) == LifetimeAt(start, inputs, j, slot) {
      TicksRiseInLifetime(start, inputs, i, j);
    }
  }

  /** The input is scheduled for tick `t`, is new to its lifetime, and is the one that completes the tick. */
  ghost predicate Completes(s: State, input: Input, t: nat)
    requires input.Merged?
  {
    var life := LifeOf(s, input.slot);
    && (input.slot, t) in input.schedule && input.entry.hash !in Hashes(life)
    && Reaches(life + [input.entry], t) && !Reaches(life, t)
  }

  /** An entry of the slot, an eviction that forgets the slot, and another entry of it. */
  ghost predicate Restarted(start: State, inputs: seq<Input>, slot: nat) {
    exists i, j, k :: 0 <= i <= j < k < |inputs| && EntryFor(inputs[i], slot)
                      && Forgets(start, inputs, j, slot) && EntryFor(inputs[k], slot)
  }

  /** Exactly when a slot has more than one lifetime. */
  lemma MoreThanOneLifetime(start: State, inputs: seq<Input>, slot: nat)
    ensures L.Births(Marks(start, inputs, slot), |inputs|) > 1 <==> Restarted(start, inputs, slot)
  {
    hide Marks, Restarted, L.Restarted, L.Births;
    L.MoreThanOneExactly(Marks(start, inputs, slot), |inputs|);
    RestartIsMarked(start, inputs, slot);
    MarkedIsRestart(start, inputs, slot);
  }

  lemma RestartIsMarked(start: State, inputs: seq<Input>, slot: nat)
    ensures Restarted(start, inputs, slot) ==> L.Restarted(Marks(start, inputs, slot), |inputs|)
  {
    hide Forgets;
    var ms := Marks(start, inputs, slot);
    if i, j, k :| 0 <= i <= j < k < |inputs| && EntryFor(inputs[i], slot)
                  && Forgets(start, inputs, j, slot) && EntryFor(inputs[k], slot) {
      assert ms[i].arrives && ms[j].forgets && ms[k].arrives;
      assert !L.KeptSince(ms, i, k);
    }
  }

  lemma MarkedIsRestart(start: State, inputs: seq<Input>, slot: nat)
    ensures L.Restarted(Marks(start, inputs, slot), |inputs|) ==> Restarted(start, inputs, slot)
  {
    hide Forgets;
    var ms := Marks(start, inputs, slot);
    if i, k :| 0 <= i < k < |inputs| && ms[i].arrives && ms[k].arrives && !L.KeptSince(ms, i, k) {
      var j :| i <= j < k && ms[j].forgets;
      assert EntryFor(inputs[i], slot) && Forgets(start, inputs, j, slot) && EntryFor(inputs[k], slot);
    }
  }

  function LateEntryAgain(e: Entry, ahead: Entry): seq<Input> {
    [Merged(0, e, {(0, 1)}, 0), Merged(100, ahead, {}, EVICTION_PERIOD), Merged(0, e, {(0, 1)}, EVICTION_PERIOD)]
  }

  /** Slot 0, slot 100 half a second later, and slot 0 once more: tick 1 of slot 0 fires twice. */
  lemma ForgottenSlotFiresTwice(hash: Hash, other: Hash)
    ensures var e, ahead := Entry(hash, 0, HASHES_PER_TICK, 0, []), Entry(other, 0, 1, 1, []);
            var inputs := LateEntryAgain(e, ahead);
            && FiredAt(Start(0, 0), inputs, 0) == Some(Trigger(0, 1, HASHES_PER_TICK))
            && FiredAt(Start(0, 0), inputs, 2) == Some(Trigger(0, 1, HASHES_PER_TICK))
  {
    var e, ahead := Entry(hash, 0, HASHES_PER_TICK, 0, []), Entry(other, 0, 1, 1, []);
    var inputs := LateEntryAgain(e, ahead);
    var start := Start(0, 0);
    assert Forgets(start, inputs, 1, 0) by {
      assert Current(0, inputs, 1) == 0 && Current(0, inputs, 2) == 100;
      assert EvictedAt(0, inputs, 1) == 0;
    }
    LifeNext(start, inputs, 1, 0);
    assert LifeOf(Run(start, inputs, 2), 0) == [];
    assert Hashes([]) == {};
    assert TickOf([], e) == Some(1);
    FiredIsExact([], e);
    hide Forgets, Step, Replay;
  }

  // ---------------------------------------------------------------- what the machine keeps

  /** No signature is put into the pending set twice. */
  ghost predicate DistinctSigs(inputs: seq<Input>) {
    forall i, j :: 0 <= i < j < |inputs| && inputs[i].AddPending? && inputs[j].AddPending?
                   ==> inputs[i].sig != inputs[j].sig
  }

  lemma NoMatches(sigs: seq<nat>, pending: set<nat>, slot: nat, e: Entry, m: Meter)
    ensures MatchesFor(Taken(sigs[..0], pending), slot, e, m) == [] && First(sigs, 0) == {}
  {
  }

  lemma MatchesStep(sigs: seq<nat>, i: nat, pending: set<nat>, slot: nat, e: Entry, m: Meter)
    requires i < |sigs|
    ensures First(sigs, i + 1) == First(sigs, i) + {sigs[i]}
    ensures MatchesFor(Taken(sigs[..i + 1], pending), slot, e, m)
            == MatchesFor(Taken(sigs[..i], pending), slot, e, m)
               + if sigs[i] in pending - First(sigs, i) then [MatchFor(sigs[i], slot, e, m)] else []
  {
    assert sigs[..i + 1] == sigs[..i] + [sigs[i]];
    TakenSnoc(sigs[..i], sigs[i], pending);
    assert sigs[i] in sigs[..i] <==> sigs[i] in First(sigs, i);
  }
}
