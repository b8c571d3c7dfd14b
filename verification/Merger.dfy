/** The two entry mergers. The plain one keeps a set of seen keys and filters it; the fast one keeps a
    map with a per-slot index and evicts slot by slot. Both are proved to follow the same step, so
    they emit the same entries; and which arrivals are emitted is characterised exactly. */
module Merger {
  import opened Common

  datatype Source = ShredStream | Yellowstone

  datatype Key = Key(slot: nat, hash: Hash)

  /** What an observation carries besides its key. */
  datatype Payload = Payload(index: nat, numHashes: nat, txCount: nat)

  /** An observation, tagged with the channel it came from. */
  datatype Obs = Obs(key: Key, observedAt: nat, payload: Payload, source: Source)

  const DEDUP_WINDOW_SLOTS: nat := 200
  const PLAIN_DEDUP_WINDOW_SLOTS: nat := 50

  // ---------------------------------------------------------------- the dedup step

  datatype Dedup = Dedup(seen: set<Key>, maxSlot: nat)

  const START := Dedup({}, 0)

  /** A new highest slot evicts every key more than `window` slots below it. */
  function Raised(d: Dedup, slot: nat, window: nat): Dedup {
    if slot > d.maxSlot then
      Dedup(if slot > window then set k | k in d.seen && k.slot >= slot - window else d.seen, slot)
    else d
  }

  function After(d: Dedup, key: Key, window: nat): Dedup {
    Raised(Dedup(d.seen + {key}, d.maxSlot), key.slot, window)
  }

  function Run(inputs: seq<Obs>, n: nat, window: nat): Dedup
    requires n <= |inputs|
  {
    if n == 0 then START else After(Run(inputs, n - 1, window), inputs[n - 1].key, window)
  }

  /** Arrival `n` is new to the dedup state. */
  predicate Emits(inputs: seq<Obs>, n: nat, window: nat)
    requires n < |inputs|
  {
    inputs[n].key !in Run(inputs, n, window).seen
  }

  function Emitted(inputs: seq<Obs>, n: nat, window: nat): seq<Obs>
    requires n <= |inputs|
  {
    if n == 0 then []
    else Emitted(inputs, n - 1, window) + if Emits(inputs, n - 1, window) then [inputs[n - 1]] else []
  }

  ghost predicate BelowMax(d: Dedup) {
    forall k :: k in d.seen ==> k.slot <= d.maxSlot
  }

  lemma {:induction false} RunBelowMax(inputs: seq<Obs>, n: nat, window: nat)
    requires n <= |inputs|
    ensures BelowMax(Run(inputs, n, window))
  {
    if n > 0 {
      RunBelowMax(inputs, n - 1, window);
    }
  }

  // ---------------------------------------------------------------- what is emitted

  function MaxBefore(inputs: seq<Obs>, n: nat): nat
    requires n <= |inputs|
  {
    if n == 0 then 0 else Max(MaxBefore(inputs, n - 1), inputs[n - 1].key.slot)
  }

  lemma {:induction false} RunMax(inputs: seq<Obs>, n: nat, window: nat)
    requires n <= |inputs|
    ensures Run(inputs, n, window).maxSlot == MaxBefore(inputs, n)
  {
    if n > 0 {
      RunMax(inputs, n - 1, window);
    }
  }

  /** Arrival `k` is a new highest slot, more than the window above `slot`. */
  predicate Evicts(inputs: seq<Obs>, k: nat, slot: nat, window: nat)
    requires k < |inputs|
  {
    inputs[k].key.slot > MaxBefore(inputs, k) && inputs[k].key.slot > slot + window
  }

  lemma StepKeeps(inputs: seq<Obs>, k: nat, key: Key, window: nat)
    requires k < |inputs|
    ensures key in Run(inputs, k + 1, window).seen
            <==> (key in Run(inputs, k, window).seen || inputs[k].key == key) && !Evicts(inputs, k, key.slot, window)
  {
    RunMax(inputs, k, window);
  }

  /** A key is remembered at `n` exactly when it arrived and nothing evicted it since. */
  lemma {:induction false} SeenExactly(inputs: seq<Obs>, n: nat, key: Key, window: nat)
    requires n <= |inputs|
    ensures key in Run(inputs, n, window).seen
            <==> exists i :: 0 <= i < n && inputs[i].key == key && Quiet(inputs, i, n, key.slot, window)
  {
    if n > 0 {
      SeenExactly(inputs, n - 1, key, window);
      StepKeeps(inputs, n - 1, key, window);
      hide Run, Evicts;
      if key in Run(inputs, n, window).seen {
        if inputs[n - 1].key == key {
          assert Quiet(inputs, n - 1, n, key.slot, window);
        } else {
          var i :| 0 <= i < n - 1 && inputs[i].key == key && Quiet(inputs, i, n - 1, key.slot, window);
          assert Quiet(inputs, i, n, key.slot, window);
        }
      }
      forall i | 0 <= i < n && inputs[i].key == key && Quiet(inputs, i, n, key.slot, window)
        ensures key in Run(inputs, n, window).seen
      {
        if i == n - 1 {
          NoSelfEviction(inputs, n - 1, key.slot, window);
        } else {
          assert Quiet(inputs, i, n - 1, key.slot, window);
        }
      }
    }
  }

  /** Nothing strictly between `i` and `n` evicts `slot`. */
  ghost predicate Quiet(inputs: seq<Obs>, i: nat, n: nat, slot: nat, window: nat)
    requires n <= |inputs|
  {
    forall k :: i < k < n ==> !Evicts(inputs, k, slot, window)
  }

  lemma NoSelfEviction(inputs: seq<Obs>, k: nat, slot: nat, window: nat)
    requires k < |inputs| && inputs[k].key.slot == slot
    ensures !Evicts(inputs, k, slot, window)
  {
  }

  /** Exactly which arrivals are emitted: those whose every earlier arrival of the same key was
      followed by a new highest slot more than the window above it. */
  lemma EmitsExactly(inputs: seq<Obs>, n: nat, window: nat)
    requires n < |inputs|
    ensures Emits(inputs, n, window)
            <==> forall i :: 0 <= i < n && inputs[i].key == inputs[n].key
                             ==> exists k :: i < k < n && Evicts(inputs, k, inputs[n].key.slot, window)
  {
    SeenExactly(inputs, n, inputs[n].key, window);
  }

  /** If a key is emitted twice, some arrival in between was more than the window above it. */
  lemma RepeatNeedsJump(inputs: seq<Obs>, i: nat, j: nat, window: nat)
    requires i < j < |inputs| && inputs[i].key == inputs[j].key && Emits(inputs, j, window)
    ensures exists k :: i < k < j && inputs[k].key.slot > inputs[j].key.slot + window
  {
    EmitsExactly(inputs, j, window);
    var k :| i < k < j && Evicts(inputs, k, inputs[j].key.slot, window);
  }

  /** Some key is emitted twice. */
  ghost predicate EmitsTwice(inputs: seq<Obs>, key: Key, window: nat) {
    exists i, j :: 0 <= i < j < |inputs| && inputs[i].key == key && inputs[j].key == key
                   && Emits(inputs, i, window) && Emits(inputs, j, window)
  }

  /** The key arrives, is evicted, and arrives again. */
  ghost predicate ReturnsEvicted(inputs: seq<Obs>, key: Key, window: nat) {
    exists i, k, j :: 0 <= i < k < j < |inputs| && inputs[i].key == key && inputs[j].key == key
                      && Evicts(inputs, k, key.slot, window)
  }

  /** The first arrival of a key at or after `from` that no arrival of it since an eviction precedes. */
  lemma {:induction false} FirstArrival(inputs: seq<Obs>, from: nat, j: nat, key: Key) returns (f: nat)
    requires from <= j < |inputs| && inputs[j].key == key
    ensures from <= f <= j && inputs[f].key == key && forall m :: from <= m < f ==> inputs[m].key != key
    decreases j - from
  {
    if inputs[from].key == key {
      f := from;
    } else {
      f := FirstArrival(inputs, from + 1, j, key);
    }
  }

  /** Over a whole run, exactly the keys that return after an eviction are emitted more than once. */
  lemma EmittedTwiceExactly(inputs: seq<Obs>, key: Key, window: nat)
    ensures EmitsTwice(inputs, key, window) <==> ReturnsEvicted(inputs, key, window)
  {
    hide Emits, Evicts;
    if i, j :| 0 <= i < j < |inputs| && inputs[i].key == key && inputs[j].key == key
               && Emits(inputs, i, window) && Emits(inputs, j, window) {
      EmitsExactly(inputs, j, window);
      var k :| i < k < j && Evicts(inputs, k, key.slot, window);
    }
    if i, k, j :| 0 <= i < k < j < |inputs| && inputs[i].key == key && inputs[j].key == key
                  && Evicts(inputs, k, key.slot, window) {
      var first := FirstArrival(inputs, 0, i, key);
      EmitsExactly(inputs, first, window);
      var again := FirstArrival(inputs, k + 1, j, key);
      if inputs[k].key == key {
        NoSelfEviction(inputs, k, key.slot, window);
      }
      assert forall m :: 0 <= m < again && inputs[m].key == key ==> m < k;
      EmitsExactly(inputs, again, window);
    }
  }

  /** A key is emitted at all exactly when it arrives. */
  lemma EmittedAtAll(inputs: seq<Obs>, j: nat, window: nat)
    requires j < |inputs|
    ensures exists i :: 0 <= i <= j && inputs[i].key == inputs[j].key && Emits(inputs, i, window)
  {
    var first := FirstArrival(inputs, 0, j, inputs[j].key);
    EmitsExactly(inputs, first, window);
  }

  /** Arrivals never lag more than the window behind an earlier arrival. */
  ghost predicate WithinWindow(inputs: seq<Obs>, window: nat) {
    forall i, j :: 0 <= i < j < |inputs| ==> inputs[i].key.slot <= inputs[j].key.slot + window
  }

  /** Then each key is emitted exactly once, at its first arrival. */
  lemma EmitsFirstArrivals(inputs: seq<Obs>, window: nat, n: nat)
    requires WithinWindow(inputs, window) && n < |inputs|
    ensures Emits(inputs, n, window) <==> forall i :: 0 <= i < n ==> inputs[i].key != inputs[n].key
  {
    EmitsExactly(inputs, n, window);
    forall k | 0 <= k < n ensures !Evicts(inputs, k, inputs[n].key.slot, window) {
    }
  }

  // ---------------------------------------------------------------- the plain merger

  class PlainMerger {
    var seen: set<Key>
    var maxSlot: nat
    var out: seq<Obs>
    const window: nat

    constructor (window: nat)
      ensures Valid() && Value() == START && out == [] && this.window == window
    {
      seen, maxSlot, out, this.window := {}, 0, [], window;
    }

    ghost function Value(): Dedup
      reads this
    {
      Dedup(seen, maxSlot)
    }

    ghost predicate Valid()
      reads this
    {
      BelowMax(Value())
    }

    /** One message: a duplicate is skipped before the highest slot is even looked at. */
    method Process(obs: Obs)
      requires Valid()
      modifies this
      ensures Valid() && Value() == After(old(Value()), obs.key, window)
      ensures out == old(out) + if obs.key in old(seen) then [] else [obs]
    {
      if obs.key in seen {
        assert seen + {obs.key} == seen;
        return;
      }
      seen := seen + {obs.key};
      if obs.key.slot > maxSlot {
        maxSlot := obs.key.slot;
        if maxSlot > window {
          var cutoff := maxSlot - window;
          seen := set k | k in seen && k.slot >= cutoff;
        }
      }
      out := out + [obs];
    }

    method RunLoop(inputs: seq<Obs>)
      requires Valid() && Value() == START && out == []
      modifies this
      ensures out == Emitted(inputs, |inputs|, window)
    {
      for n := 0 to |inputs|
        invariant Valid() && Value() == Run(inputs, n, window)
        invariant out == Emitted(inputs, n, window)
      {
        Process(inputs[n]);
      }
    }
  }

  // ---------------------------------------------------------------- the fast merger

  datatype DedupState = Primary(firstSource: Source, firstSeenAt: nat) | Confirmed

  /** What the fast merger keeps beside the keys: who was first, the confirmation latencies, the duplicates. */
  datatype Book = Book(state: map<Key, DedupState>, maxSlot: nat, latencies: seq<nat>, duplicates: nat)

  const BLANK := Book(map[], 0, [], 0)

  function Kept(state: map<Key, DedupState>, cutoff: nat): map<Key, DedupState> {
    map k | k in state && k.slot >= cutoff :: state[k]
  }

  function BookRaised(b: Book, slot: nat, window: nat): Book {
    if slot > b.maxSlot
    then b.(maxSlot := slot, state := if slot > window then Kept(b.state, slot - window) else b.state)
    else b
  }

  function Latency(obs: Obs, firstSeenAt: nat): nat {
    Min(U64_MAX, SatSub(obs.observedAt, firstSeenAt))
  }

  /** A new key is filed; the other source confirms, once; anything else is a duplicate. */
  function Noted(b: Book, obs: Obs): Book {
    if obs.key !in b.state then b.(state := b.state[obs.key := Primary(obs.source, obs.observedAt)])
    else if b.state[obs.key].Primary? && b.state[obs.key].firstSource != obs.source
    then b.(state := b.state[obs.key := Confirmed],
            latencies := b.latencies + [Latency(obs, b.state[obs.key].firstSeenAt)])
    else b.(duplicates := b.duplicates + 1)
  }

  function Books(inputs: seq<Obs>, n: nat, window: nat): Book
    requires n <= |inputs|
  {
    if n == 0 then BLANK
    else BookRaised(Noted(Books(inputs, n - 1, window), inputs[n - 1]), inputs[n - 1].key.slot, window)
  }

  lemma {:induction false} BooksAreRun(inputs: seq<Obs>, n: nat, window: nat)
    requires n <= |inputs|
    ensures Books(inputs, n, window).state.Keys == Run(inputs, n, window).seen
    ensures Books(inputs, n, window).maxSlot == Run(inputs, n, window).maxSlot
  {
    if n > 0 {
      BooksAreRun(inputs, n - 1, window);
      BookStep(Books(inputs, n - 1, window), inputs[n - 1], window);
      hide Noted, BookRaised, After;
    }
  }

  lemma BookStep(b: Book, obs: Obs, window: nat)
    ensures var r := BookRaised(Noted(b, obs), obs.key.slot, window);
            Dedup(r.state.Keys, r.maxSlot) == After(Dedup(b.state.Keys, b.maxSlot), obs.key, window)
  {
    assert Noted(b, obs).state.Keys == b.state.Keys + {obs.key};
  }

  /** Arrival `i` is the emission of `key` that is still remembered at `n`. */
  ghost predicate EmittedAs(inputs: seq<Obs>, i: nat, n: nat, key: Key, window: nat)
    requires n <= |inputs|
  {
    i < n && inputs[i].key == key && Emits(inputs, i, window) && Quiet(inputs, i, n, key.slot, window)
  }

  /** Between `i` and `n` the other source sent the key too. */
  ghost predicate OtherSent(inputs: seq<Obs>, i: nat, n: nat)
    requires i < n <= |inputs|
  {
    exists j :: i < j < n && inputs[j].key == inputs[i].key && inputs[j].source != inputs[i].source
  }

  function StateAfter(first: Obs, confirmed: bool): DedupState {
    if confirmed then Confirmed else Primary(first.source, first.observedAt)
  }

  lemma StateNext(inputs: seq<Obs>, n: nat, key: Key, window: nat)
    requires n < |inputs|
    ensures var was, now := Books(inputs, n, window).state, Books(inputs, n + 1, window).state;
            key in now ==>
              now[key] == if inputs[n].key != key then (if key in was then was[key] else Confirmed)
                          else if key !in was then Primary(inputs[n].source, inputs[n].observedAt)
                          else if was[key].Primary? && was[key].firstSource == inputs[n].source then was[key]
                          else Confirmed
    ensures var was, now := Books(inputs, n, window).state, Books(inputs, n + 1, window).state;
            key in now && inputs[n].key != key ==> key in was
  {
  }

  lemma EmittedAsNext(inputs: seq<Obs>, i: nat, n: nat, key: Key, window: nat)
    requires n < |inputs| && EmittedAs(inputs, i, n, key, window)
    requires key in Run(inputs, n + 1, window).seen
    ensures EmittedAs(inputs, i, n + 1, key, window)
    ensures OtherSent(inputs, i, n + 1)
            <==> OtherSent(inputs, i, n) || (inputs[n].key == key && inputs[n].source != inputs[i].source)
  {
    StepKeeps(inputs, n, key, window);
    hide Run, Evicts;
  }

  lemma EmittedNow(inputs: seq<Obs>, i: nat, window: nat)
    requires i < |inputs| && inputs[i].key !in Run(inputs, i, window).seen
    ensures EmittedAs(inputs, i, i + 1, inputs[i].key, window) && !OtherSent(inputs, i, i + 1)
  {
  }

  /** What the fast merger remembers of a key: its last emission, and whether the other source sent it since. */
  lemma {:induction false} StateIsHistory(inputs: seq<Obs>, n: nat, key: Key, window: nat) returns (i: nat)
    requires n <= |inputs| && key in Books(inputs, n, window).state
    ensures EmittedAs(inputs, i, n, key, window)
    ensures Books(inputs, n, window).state[key] == StateAfter(inputs[i], OtherSent(inputs, i, n))
  {
    BooksAreRun(inputs, n, window);
    if n == 0 {
      assert false;
    }
    BooksAreRun(inputs, n - 1, window);
    StateNext(inputs, n - 1, key, window);
    hide Books, Run, Evicts, EmittedAs, OtherSent;
    if key in Run(inputs, n - 1, window).seen {
      i := StateIsHistory(inputs, n - 1, key, window);
      EmittedAsNext(inputs, i, n - 1, key, window);
    } else {
      i := n - 1;
      EmittedNow(inputs, i, window);
    }
  }

  /** From one instant to another in nanoseconds, none if it is not later, at most 2^64 - 1. */
  function CappedNs(from: nat, to: nat): nat {
    if to <= from then 0
    else if to - from > 0xFFFF_FFFF_FFFF_FFFF then 0xFFFF_FFFF_FFFF_FFFF
    else to - from
  }

  /** Exactly which arrivals confirm an entry, and with what latency: the first from the other source since the
      emission that is still remembered. Every other arrival that is not emitted is a duplicate. */
  lemma ConfirmsExactly(inputs: seq<Obs>, n: nat, window: nat) returns (i: nat)
    requires n < |inputs| && !Emits(inputs, n, window)
    ensures EmittedAs(inputs, i, n, inputs[n].key, window)
    ensures var was, now := Books(inputs, n, window), Books(inputs, n + 1, window);
            if inputs[n].source != inputs[i].source && !OtherSent(inputs, i, n)
            then now.latencies == was.latencies + [CappedNs(inputs[i].observedAt, inputs[n].observedAt)]
                 && now.duplicates == was.duplicates
            else now.latencies == was.latencies && now.duplicates == was.duplicates + 1
  {
    BooksAreRun(inputs, n, window);
    i := StateIsHistory(inputs, n, inputs[n].key, window);
    NotedNext(inputs, n, window);
    hide Books, EmittedAs, OtherSent, Run;
  }

  lemma NotedNext(inputs: seq<Obs>, n: nat, window: nat)
    requires n < |inputs|
    ensures var now, noted := Books(inputs, n + 1, window), Noted(Books(inputs, n, window), inputs[n]);
            now.latencies == noted.latencies && now.duplicates == noted.duplicates
  {
  }

  /** The keys filed under `slot` in the index. */
  ghost predicate Filed(state: map<Key, DedupState>, index: map<nat, seq<Hash>>) {
    && (forall k :: k in state ==> k.slot in index && k.hash in index[k.slot])
    && (forall s, i :: s in index && 0 <= i < |index[s]| ==> Key(s, index[s][i]) in state)
    && (forall s, i, j :: s in index && 0 <= i < j < |index[s]| ==> index[s][i] != index[s][j])
  }

  lemma FiledInsert(state: map<Key, DedupState>, index: map<nat, seq<Hash>>, key: Key, d: DedupState)
    requires Filed(state, index) && key !in state
    ensures var filed := if key.slot in index then index[key.slot] else [];
            Filed(state[key := d], index[key.slot := filed + [key.hash]])
  {
    var filed := if key.slot in index then index[key.slot] else [];
    var state', index' := state[key := d], index[key.slot := filed + [key.hash]];
    assert key.hash !in filed;
    InList(filed, key.hash);
    forall s, i | s in index' && 0 <= i < |index'[s]| ensures Key(s, index'[s][i]) in state' {
      if s == key.slot && i < |filed| {
        assert index'[s][i] == filed[i] && Key(s, filed[i]) in state;
      }
    }
  }

  lemma InList(hs: seq<Hash>, h: Hash)
    ensures forall x :: x in hs + [h] <==> x in hs || x == h
  {
  }

  lemma FiledEvict(was: map<Key, DedupState>, index: map<nat, seq<Hash>>, s: nat, state: map<Key, DedupState>)
    requires Filed(was, index) && s in index
    requires forall k :: k in state <==> k in was && (k.slot == s ==> k.hash !in index[s])
    ensures forall k :: k in state <==> k in was && k.slot != s
    ensures Filed(state, index - {s})
  {
  }

  lemma FiledUpdate(state: map<Key, DedupState>, index: map<nat, seq<Hash>>, key: Key, d: DedupState)
    requires Filed(state, index) && key in state
    ensures Filed(state[key := d], index)
  {
  }

  lemma KeySame(state: map<Key, DedupState>, key: Key, d: DedupState)
    requires key in state
    ensures state[key := d].Keys == state.Keys
  {
  }

  lemma InsertAgain(s: set<Key>, k: Key)
    requires k in s
    ensures s + {k} == s
  {
  }

  lemma TakeNext<T>(s: seq<T>, i: nat)
    requires i < |s|
    ensures forall x :: x in s[..i + 1] <==> x in s[..i] || x == s[i]
    ensures Distinct(s) ==> s[i] !in s[..i]
  {
    assert s[..i + 1] == s[..i] + [s[i]];
  }

  ghost predicate Distinct<T>(s: seq<T>) {
    forall i, j :: 0 <= i < j < |s| ==> s[i] != s[j]
  }

  /** The keys before the first one at or above the cutoff are the keys below it. */
  lemma PrefixBelow(keys: seq<nat>, i: nat, cutoff: nat)
    requires Increasing(keys) && i <= |keys| && (i < |keys| ==> keys[i] >= cutoff)
    requires forall j :: 0 <= j < i ==> keys[j] < cutoff
    ensures forall s :: s in keys[..i] <==> s in keys && s < cutoff
    ensures Increasing(keys[..i])
  {
    forall s | s in keys && s < cutoff ensures s in keys[..i] {
      var j :| 0 <= j < |keys| && keys[j] == s;
      assert j < i;
      assert keys[..i][j] == s;
    }
  }

  lemma MeanIsBetween(sum: nat, n: nat, lo: nat, hi: nat)
    requires n > 0 && n * lo <= sum <= n * hi
    ensures lo as real <= sum as real / n as real <= hi as real
  {
    assert (n * lo) as real == n as real * lo as real;
    assert (n * hi) as real == n as real * hi as real;
    var mean := sum as real / n as real;
    assert mean * n as real == sum as real;
  }

  class FastMerger {
    var state: map<Key, DedupState>
    var slotIndex: map<nat, seq<Hash>>
    var maxSlot: nat
    var out: seq<Obs>
    var received: nat
    var first: nat
    var confirmedByBoth: nat
    var duplicates: nat
    var latencySum: nat
    var latencyMin: nat
    var latencyMax: nat
    ghost var latencies: seq<nat>
    const window: nat

    constructor (window: nat)
      ensures Valid() && Value() == START && Ledger() == BLANK && out == [] && received == 0 && this.window == window
    {
      state, slotIndex, maxSlot, out, this.window := map[], map[], 0, [], window;
      received, first, confirmedByBoth, duplicates := 0, 0, 0, 0;
      latencySum, latencyMin, latencyMax, latencies := 0, U64_MAX, 0, [];
    }

    ghost function Value(): Dedup
      reads this
    {
      Dedup(state.Keys, maxSlot)
    }

    ghost function Ledger(): Book
      reads this
    {
      Book(state, maxSlot, latencies, duplicates)
    }

    /** The index files exactly the keys of the map, each once; every message was a first sighting,
        a confirmation or a duplicate; and the latency counters summarise all confirmations. */
    ghost predicate Valid()
      reads this
    {
      && Filed(state, slotIndex) && BelowMax(Value())
      && received == first + confirmedByBoth + duplicates && first == |out|
      && Latencies()
    }

    ghost predicate Latencies()
      reads this`confirmedByBoth, this`latencies, this`latencySum, this`latencyMin, this`latencyMax
    {
      && confirmedByBoth == |latencies| && latencySum == Sum(latencies)
      && latencyMin == Least(latencies) && latencyMax == Greatest(latencies)
    }

    method RecordConfirmLatency(delta: nat)
      requires Latencies()
      modifies this`confirmedByBoth, this`latencySum, this`latencyMin, this`latencyMax, this`latencies
      ensures Latencies() && latencies == old(latencies) + [delta] && confirmedByBoth == old(confirmedByBoth) + 1
    {
      StatsSnoc(latencies, delta);
      confirmedByBoth := confirmedByBoth + 1;
      latencySum := latencySum + delta;
      latencyMin := Min(latencyMin, delta);
      latencyMax := Max(latencyMax, delta);
      latencies := latencies + [delta];
    }

    /** The mean latency in microseconds: there is none before the first confirmation, and it lies between the
        least and the greatest latency. */
    function ConfirmLatencyAvgUs(): (avg: Option<real>)
      requires Latencies()
      reads this
      ensures avg.None? <==> latencies == []
      ensures avg.Some? ==> latencyMin as real / 1000.0 <= avg.value <= latencyMax as real / 1000.0
    {
      SumIsBetween(latencies, latencyMin, latencyMax);
      if confirmedByBoth == 0 then None
      else
        MeanIsBetween(latencySum, confirmedByBoth, latencyMin, latencyMax);
        Some(latencySum as real / confirmedByBoth as real / 1000.0)
    }

    /** Remove one expired slot: its index entry, and the keys it lists, and nothing else. */
    method EvictSlot(s: nat)
      requires Filed(state, slotIndex) && s in slotIndex
      modifies this`state, this`slotIndex
      ensures Filed(state, slotIndex) && slotIndex == old(slotIndex) - {s}
      ensures state == map k | k in old(state) && k.slot != s :: old(state)[k]
    {
      var hashes := slotIndex[s];
      hide Filed;
      slotIndex := slotIndex - {s};
      for i := 0 to |hashes|
        invariant slotIndex == old(slotIndex) - {s}
        invariant forall k :: k in state <==> k in old(state) && (k.slot == s ==> k.hash !in hashes[..i])
        invariant forall k :: k in state ==> state[k] == old(state)[k]
      {
        state := state - {Key(s, hashes[i])};
        TakeNext(hashes, i);
      }
      assert hashes[..|hashes|] == hashes;
      FiledEvict(old(state), old(slotIndex), s, state);
    }

    /** The expired slots, in ascending order; the scan stops at the cutoff. */
    method Expired(cutoff: nat) returns (expired: seq<nat>)
      ensures forall s :: s in expired <==> s in slotIndex && s < cutoff
      ensures Increasing(expired)
    {
      var keys := SortedKeys(slotIndex.Keys);
      expired := [];
      var i := 0;
      while i < |keys| && keys[i] < cutoff
        invariant 0 <= i <= |keys| && expired == keys[..i]
        invariant forall j :: 0 <= j < i ==> keys[j] < cutoff
      {
        expired := expired + [keys[i]];
        i := i + 1;
      }
      PrefixBelow(keys, i, cutoff);
    }

    /** Eviction through the index removes precisely the keys below the cutoff. */
    method Evict(cutoff: nat)
      requires Filed(state, slotIndex)
      modifies this`state, this`slotIndex
      ensures Filed(state, slotIndex)
      ensures state == Kept(old(state), cutoff)
    {
      var expired := Expired(cutoff);
      assert forall k :: k in state ==> k.slot in slotIndex;
      hide Filed;
      for n := 0 to |expired|
        invariant Filed(state, slotIndex)
        invariant forall s :: s in slotIndex <==> s in old(slotIndex) && s !in expired[..n]
        invariant forall k :: k in state <==> k in old(state) && k.slot !in expired[..n]
        invariant forall k :: k in state ==> state[k] == old(state)[k]
      {
        TakeNext(expired, n);
        EvictSlot(expired[n]);
      }
      assert expired[..|expired|] == expired;
    }

    method Process(obs: Obs)
      requires Valid()
      modifies this
      ensures Valid() && received == old(received) + 1
      ensures Value() == After(old(Value()), obs.key, window)
      ensures out == old(out) + if obs.key in old(Value()).seen then [] else [obs]
      ensures Ledger() == BookRaised(Noted(old(Ledger()), obs), obs.key.slot, window)
    {
      hide Filed, Least, Greatest, Sum;
      ghost var was := Value();
      received := received + 1;
      if obs.key !in state {
        Remember(obs);
      } else {
        Repeat(obs);
        InsertAgain(state.Keys, obs.key);
        AppendNothing(out);
      }
      Raise(obs.key.slot);
    }

    /** Track the highest slot, and evict on slot boundaries. */
    method Raise(slot: nat)
      requires Filed(state, slotIndex) && forall k :: k in state ==> k.slot <= Max(maxSlot, slot)
      modifies this`state, this`slotIndex, this`maxSlot
      ensures Filed(state, slotIndex) && BelowMax(Value())
      ensures Value() == Raised(old(Value()), slot, window)
      ensures Ledger() == BookRaised(old(Ledger()), slot, window)
    {
      hide Filed;
      if slot > maxSlot {
        maxSlot := slot;
        if maxSlot > window {
          Evict(maxSlot - window);
        }
      }
      assert state.Keys == Raised(old(Value()), slot, window).seen;
    }

    /** The vacant case: file the key and send the entry. */
    method Remember(obs: Obs)
      requires Filed(state, slotIndex) && obs.key !in state
      modifies this`state, this`slotIndex, this`first, this`out
      ensures Filed(state, slotIndex) && state.Keys == old(state.Keys) + {obs.key}
      ensures out == old(out) + [obs] && first == old(first) + 1
      ensures Ledger() == Noted(old(Ledger()), obs)
    {
      state := state[obs.key := Primary(obs.source, obs.observedAt)];
      FiledInsert(old(state), slotIndex, obs.key, Primary(obs.source, obs.observedAt));
      hide Filed;
      var slot := obs.key.slot;
      var filed := if slot in slotIndex then slotIndex[slot] else [];
      slotIndex := slotIndex[slot := filed + [obs.key.hash]];
      first := first + 1;
      out := out + [obs];
    }

    /** The other source confirms an entry. */
    method Confirm(obs: Obs, firstSeenAt: nat)
      requires Filed(state, slotIndex) && obs.key in state && Latencies()
      requires state[obs.key].Primary? && state[obs.key].firstSource != obs.source
      requires state[obs.key].firstSeenAt == firstSeenAt
      modifies this`state, this`confirmedByBoth, this`latencySum, this`latencyMin, this`latencyMax, this`latencies
      ensures Filed(state, slotIndex) && state.Keys == old(state.Keys) && Latencies()
      ensures confirmedByBoth == old(confirmedByBoth) + 1 && Ledger() == Noted(old(Ledger()), obs)
    {
      FiledUpdate(state, slotIndex, obs.key, Confirmed);
      KeySame(state, obs.key, Confirmed);
      hide Filed, Latencies;
      RecordConfirmLatency(Latency(obs, firstSeenAt));
      state := state[obs.key := Confirmed];
    }

    /** The occupied case: the other source confirms, anything else is a duplicate. */
    method Repeat(obs: Obs)
      requires Filed(state, slotIndex) && obs.key in state && Latencies()
      modifies this`state, this`duplicates, this`confirmedByBoth, this`latencySum, this`latencyMin, this`latencyMax,
        this`latencies
      ensures Filed(state, slotIndex) && state.Keys == old(state.Keys) && Latencies()
      ensures confirmedByBoth + duplicates == old(confirmedByBoth) + old(duplicates) + 1
      ensures Ledger() == Noted(old(Ledger()), obs)
    {
      hide Filed, Latencies;
      match state[obs.key]
      case Primary(firstSource, firstSeenAt) =>
        if firstSource != obs.source {
          Confirm(obs, firstSeenAt);
        } else {
          duplicates := duplicates + 1;
        }
      case Confirmed =>
        duplicates := duplicates + 1;
    }

    method RunLoop(inputs: seq<Obs>)
      requires Valid() && Ledger() == BLANK && out == [] && received == 0
      modifies this
      ensures Valid() && received == |inputs| && Ledger() == Books(inputs, |inputs|, window)
      ensures out == Emitted(inputs, |inputs|, window)
    {
      for n := 0 to |inputs|
        invariant Valid() && Value() == Run(inputs, n, window) && received == n
        invariant Ledger() == Books(inputs, n, window)
        invariant out == Emitted(inputs, n, window)
      {
        Process(inputs[n]);
      }
    }
  }

  /** Refinement: run with the same window on the same messages, the two mergers emit the same
      entries in the same order. */
  method MergersAgree(inputs: seq<Obs>, window: nat) returns (fast: seq<Obs>, plain: seq<Obs>)
    ensures fast == plain == Emitted(inputs, |inputs|, window)
  {
    var f := new FastMerger(window);
    f.RunLoop(inputs);
    var p := new PlainMerger(window);
    p.RunLoop(inputs);
    fast, plain := f.out, p.out;
  }

  /** With the windows the two actually use they disagree: a key repeated 60 slots later is emitted again
      by the plain merger alone. */
  lemma OwnWindowsDisagree(hash: Hash, other: Hash, payload: Payload)
    ensures var early := Obs(Key(0, hash), 0, payload, ShredStream);
            var ahead := Obs(Key(60, other), 0, payload, ShredStream);
            var inputs := [early, ahead, early];
            && Emitted(inputs, 3, DEDUP_WINDOW_SLOTS) == [early, ahead]
            && Emitted(inputs, 3, PLAIN_DEDUP_WINDOW_SLOTS) == [early, ahead, early]
  {
    var early := Obs(Key(0, hash), 0, payload, ShredStream);
    var ahead := Obs(Key(60, other), 0, payload, ShredStream);
    var inputs := [early, ahead, early];
    forall w ensures Run(inputs, 1, w) == After(Run(inputs, 0, w), early.key, w)
                     && Run(inputs, 2, w) == After(Run(inputs, 1, w), ahead.key, w)
    {
    }
    assert Emitted(inputs, 0, DEDUP_WINDOW_SLOTS) == [] == Emitted(inputs, 0, PLAIN_DEDUP_WINDOW_SLOTS);
    assert Emitted(inputs, 1, DEDUP_WINDOW_SLOTS) == [early] == Emitted(inputs, 1, PLAIN_DEDUP_WINDOW_SLOTS);
    assert Emitted(inputs, 2, DEDUP_WINDOW_SLOTS) == [early, ahead] == Emitted(inputs, 2, PLAIN_DEDUP_WINDOW_SLOTS);
  }

  /** A key repeated after a slot more than 200 above it is emitted twice by the fast merger. */
  lemma EvictedKeyEmittedTwice(hash: Hash, other: Hash, payload: Payload)
    ensures var early := Obs(Key(0, hash), 0, payload, ShredStream);
            var ahead := Obs(Key(201, other), 0, payload, ShredStream);
            EmitsTwice([early, ahead, early], Key(0, hash), DEDUP_WINDOW_SLOTS)
  {
    var early := Obs(Key(0, hash), 0, payload, ShredStream);
    var ahead := Obs(Key(201, other), 0, payload, ShredStream);
    var inputs := [early, ahead, early];
    assert MaxBefore(inputs, 0) == 0 && MaxBefore(inputs, 1) == 0;
    assert Evicts(inputs, 1, 0, DEDUP_WINDOW_SLOTS) && inputs[0].key == inputs[2].key == Key(0, hash);
    EmittedTwiceExactly(inputs, Key(0, hash), DEDUP_WINDOW_SLOTS);
  }
}
