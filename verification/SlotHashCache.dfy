/** The rolling cache of slot hashes: what it holds is what the whole update history says of the slots
    still in the window, and a lookup finds the nearest slot back with a tick and extrapolates its
    last hash. */
module SlotHashCache {
  import opened Common

  datatype Sighting = Sighting(slot: nat, index: nat, hash: Hash, tick: Option<nat>)

  datatype SlotInfo = SlotInfo(maxEntryIndex: nat, lastEntryHash: Hash, lastTick: Option<(nat, Hash)>)

  const BLANK := SlotInfo(0, DEFAULT_HASH, None)

  // ---------------------------------------------------------------- one slot's history

  function Absorb(info: SlotInfo, u: Sighting): SlotInfo {
    var info1 := if u.index > info.maxEntryIndex || info.maxEntryIndex == 0
                 then info.(maxEntryIndex := u.index, lastEntryHash := u.hash) else info;
    if u.tick.Some? && (info.lastTick.None? || u.tick.value > info.lastTick.value.0)
    then info1.(lastTick := Some((u.tick.value, u.hash))) else info1
  }

  /** The info of slot `s` over the first `n` updates, as if nothing were ever evicted. */
  function Info(h: seq<Sighting>, n: nat, s: nat): SlotInfo
    requires n <= |h|
  {
    if n == 0 then BLANK
    else if h[n - 1].slot == s then Absorb(Info(h, n - 1, s), h[n - 1])
    else Info(h, n - 1, s)
  }

  predicate Known(h: seq<Sighting>, n: nat, s: nat)
    requires n <= |h|
  {
    exists i :: 0 <= i < n && h[i].slot == s
  }

  /** The first sighting of the highest tick of the slot. */
  ghost predicate FirstHighestTick(h: seq<Sighting>, n: nat, s: nat, i: nat)
    requires n <= |h|
  {
    && i < n && h[i].slot == s && h[i].tick.Some?
    && (forall j :: 0 <= j < n && h[j].slot == s && h[j].tick.Some? ==> h[j].tick.value <= h[i].tick.value)
    && (forall j :: 0 <= j < i && h[j].slot == s && h[j].tick.Some? ==> h[j].tick.value < h[i].tick.value)
  }

  ghost predicate NoTick(h: seq<Sighting>, n: nat, s: nat)
    requires n <= |h|
  {
    forall j :: 0 <= j < n && h[j].slot == s ==> h[j].tick.None?
  }

  ghost predicate LastTickIs(h: seq<Sighting>, n: nat, s: nat, last: Option<(nat, Hash)>)
    requires n <= |h|
  {
    if last.None? then NoTick(h, n, s)
    else exists i: nat :: FirstHighestTick(h, n, s, i) && last.value == (h[i].tick.value, h[i].hash)
  }

  lemma InfoNext(h: seq<Sighting>, n: nat, s: nat)
    requires n < |h|
    ensures Info(h, n + 1, s) == if h[n].slot == s then Absorb(Info(h, n, s), h[n]) else Info(h, n, s)
  {
  }

  lemma LastTickNew(h: seq<Sighting>, n: nat, s: nat, last: Option<(nat, Hash)>)
    requires n < |h| && LastTickIs(h, n, s, last) && h[n].slot == s && h[n].tick.Some?
    requires last.Some? ==> h[n].tick.value > last.value.0
    ensures LastTickIs(h, n + 1, s, Some((h[n].tick.value, h[n].hash)))
  {
    if last.Some? {
      var i: nat :| FirstHighestTick(h, n, s, i) && last.value == (h[i].tick.value, h[i].hash);
    }
    assert FirstHighestTick(h, n + 1, s, n);
  }

  lemma LastTickSame(h: seq<Sighting>, n: nat, s: nat, last: Option<(nat, Hash)>)
    requires n < |h| && LastTickIs(h, n, s, last)
    requires h[n].slot == s && h[n].tick.Some? ==> last.Some? && h[n].tick.value <= last.value.0
    ensures LastTickIs(h, n + 1, s, last)
  {
    if last.Some? {
      var i: nat :| FirstHighestTick(h, n, s, i) && last.value == (h[i].tick.value, h[i].hash);
      assert FirstHighestTick(h, n + 1, s, i);
    }
  }

  lemma {:induction false} LastTickAlways(h: seq<Sighting>, n: nat, s: nat)
    requires n <= |h|
    ensures LastTickIs(h, n, s, Info(h, n, s).lastTick)
  {
    if n > 0 {
      var u, last := h[n - 1], Info(h, n - 1, s).lastTick;
      LastTickAlways(h, n - 1, s);
      InfoNext(h, n - 1, s);
      hide Info, LastTickIs;
      if u.slot == s && u.tick.Some? && (last.None? || u.tick.value > last.value.0) {
        LastTickNew(h, n - 1, s, last);
      } else {
        LastTickSame(h, n - 1, s, last);
      }
    }
  }

  /** The last tick and its hash are those of the first update that reached the highest tick. */
  lemma TickIsFirstHighest(h: seq<Sighting>, n: nat, s: nat)
    requires n <= |h|
    ensures Info(h, n, s).lastTick.None? <==> NoTick(h, n, s)
    ensures Info(h, n, s).lastTick.Some? ==>
              exists i: nat :: FirstHighestTick(h, n, s, i)
                               && Info(h, n, s).lastTick.value == (h[i].tick.value, h[i].hash)
  {
    LastTickAlways(h, n, s);
    hide Info;
  }

  /** Update `i` gave the slot its last entry hash: the first to reach the highest index, except that
      while index 0 is the highest, each further update at index 0 replaces it. */
  ghost predicate LastEntryAt(h: seq<Sighting>, n: nat, s: nat, i: nat)
    requires n <= |h|
  {
    && i < n && h[i].slot == s
    && (forall j :: 0 <= j < n && h[j].slot == s ==> h[j].index <= h[i].index)
    && (h[i].index > 0 ==> forall j :: 0 <= j < i && h[j].slot == s ==> h[j].index < h[i].index)
    && (h[i].index == 0 ==> forall j :: i < j < n ==> h[j].slot != s)
  }

  ghost predicate LastEntryIs(h: seq<Sighting>, n: nat, s: nat, info: SlotInfo)
    requires n <= |h|
  {
    exists i: nat :: LastEntryAt(h, n, s, i) && info.maxEntryIndex == h[i].index && info.lastEntryHash == h[i].hash
  }

  lemma LastEntryNew(h: seq<Sighting>, n: nat, s: nat, i: nat)
    requires n < |h| && LastEntryAt(h, n, s, i) && h[n].slot == s && (h[n].index > h[i].index || h[i].index == 0)
    ensures LastEntryAt(h, n + 1, s, n)
  {
  }

  lemma LastEntrySame(h: seq<Sighting>, n: nat, s: nat, i: nat)
    requires n < |h| && LastEntryAt(h, n, s, i) && !(h[n].slot == s && (h[n].index > h[i].index || h[i].index == 0))
    ensures LastEntryAt(h, n + 1, s, i)
  {
  }

  lemma LastEntryStep(h: seq<Sighting>, n: nat, s: nat, info: SlotInfo)
    requires n < |h| && LastEntryIs(h, n, s, info)
    ensures LastEntryIs(h, n + 1, s, if h[n].slot == s then Absorb(info, h[n]) else info)
  {
    var i: nat :| LastEntryAt(h, n, s, i) && info.maxEntryIndex == h[i].index && info.lastEntryHash == h[i].hash;
    if h[n].slot == s && (h[n].index > h[i].index || h[i].index == 0) {
      LastEntryNew(h, n, s, i);
    } else {
      LastEntrySame(h, n, s, i);
    }
    hide LastEntryAt;
  }

  lemma LastEntryFirst(h: seq<Sighting>, n: nat, s: nat)
    requires n < |h| && !Known(h, n, s) && h[n].slot == s
    ensures LastEntryIs(h, n + 1, s, Absorb(BLANK, h[n]))
  {
    assert LastEntryAt(h, n + 1, s, n);
  }

  /** The highest entry index, and the hash kept with it, are those of the slot's whole history. */
  lemma {:induction false} LastEntryIsHighest(h: seq<Sighting>, n: nat, s: nat)
    requires n <= |h| && Known(h, n, s)
    ensures LastEntryIs(h, n, s, Info(h, n, s))
  {
    hide LastEntryIs, Absorb, Info;
    KnownNext(h, n - 1, s);
    InfoNext(h, n - 1, s);
    hide Known;
    if Known(h, n - 1, s) {
      LastEntryIsHighest(h, n - 1, s);
      LastEntryStep(h, n - 1, s, Info(h, n - 1, s));
    } else {
      UnknownIsBlank(h, n - 1, s);
      LastEntryFirst(h, n - 1, s);
    }
  }

  lemma {:induction false} UnknownIsBlank(h: seq<Sighting>, n: nat, s: nat)
    requires n <= |h| && !Known(h, n, s)
    ensures Info(h, n, s) == BLANK
  {
    if n > 0 {
      assert h[n - 1].slot != s;
      UnknownIsBlank(h, n - 1, s);
    }
  }

  // ---------------------------------------------------------------- the window

  function MaxSlot(h: seq<Sighting>, n: nat): nat
    requires n <= |h|
  {
    if n == 0 then 0 else Max(MaxSlot(h, n - 1), h[n - 1].slot)
  }

  predicate InWindow(h: seq<Sighting>, n: nat, s: nat, window: nat)
    requires n <= |h|
  {
    s + window >= MaxSlot(h, n)
  }

  /** The cache after `n` updates: every known slot in the window, with its whole history. */
  ghost predicate Agrees(m: map<nat, SlotInfo>, h: seq<Sighting>, n: nat, window: nat)
    requires n <= |h|
  {
    && (forall s :: s in m <==> Known(h, n, s) && InWindow(h, n, s, window))
    && (forall s :: s in m ==> m[s] == Info(h, n, s))
  }

  lemma {:induction false} MaxSlotIsKnown(h: seq<Sighting>, n: nat)
    requires 0 < n <= |h|
    ensures Known(h, n, MaxSlot(h, n))
    ensures forall i :: 0 <= i < n ==> h[i].slot <= MaxSlot(h, n)
  {
    if n > 1 {
      MaxSlotIsKnown(h, n - 1);
      if MaxSlot(h, n) == h[n - 1].slot {
        assert h[n - 1].slot == MaxSlot(h, n);
      } else {
        var i :| 0 <= i < n - 1 && h[i].slot == MaxSlot(h, n - 1);
      }
    } else {
      assert h[0].slot == MaxSlot(h, 1);
    }
  }

  /** Insert the updated slot, then evict below the cutoff of the highest key. */
  function Evicted(m: map<nat, SlotInfo>, window: nat): map<nat, SlotInfo> {
    if m != map[] && MaxKey(m.Keys) > window then map s | s in m && s >= MaxKey(m.Keys) - window :: m[s] else m
  }

  function Apply(m: map<nat, SlotInfo>, u: Sighting, window: nat): map<nat, SlotInfo> {
    var info := if u.slot in m then m[u.slot] else BLANK;
    Evicted(m[u.slot := Absorb(info, u)], window)
  }

  lemma ApplyAgrees(m: map<nat, SlotInfo>, h: seq<Sighting>, n: nat, window: nat)
    requires n < |h| && Agrees(m, h, n, window)
    ensures Agrees(Apply(m, h[n], window), h, n + 1, window)
  {
    var u := h[n];
    var info := if u.slot in m then m[u.slot] else BLANK;
    var m1 := m[u.slot := Absorb(info, u)];
    MaxKeyIsMaxSlot(m, h, n, window);
    var m2 := Evicted(m1, window);
    assert m1.Keys == m.Keys + {u.slot} && MaxSlot(h, n) <= MaxSlot(h, n + 1);
    forall s ensures s in m2 <==> Known(h, n + 1, s) && InWindow(h, n + 1, s, window) {
      KnownNext(h, n, s);
    }
    forall s | s in m2 ensures m2[s] == Info(h, n + 1, s) {
      if s == u.slot && u.slot !in m {
        assert !Known(h, n, s);
        UnknownIsBlank(h, n, s);
      }
    }
  }

  lemma KnownNext(h: seq<Sighting>, n: nat, s: nat)
    requires n < |h|
    ensures Known(h, n + 1, s) <==> Known(h, n, s) || h[n].slot == s
  {
    if Known(h, n, s) {
      var i :| 0 <= i < n && h[i].slot == s;
      assert 0 <= i < n + 1 && h[i].slot == s;
    }
  }

  /** The highest key is never evicted, so it is the highest slot ever updated. */
  lemma MaxKeyIsMaxSlot(m: map<nat, SlotInfo>, h: seq<Sighting>, n: nat, window: nat)
    requires n < |h| && Agrees(m, h, n, window)
    ensures MaxKey(m.Keys + {h[n].slot}) == MaxSlot(h, n + 1)
  {
    var keys := m.Keys + {h[n].slot};
    if n > 0 {
      MaxSlotIsKnown(h, n);
      assert MaxSlot(h, n) in m;
    }
    assert MaxSlot(h, n + 1) in keys;
    forall s | s in keys ensures s <= MaxSlot(h, n + 1) {
      if s in m {
        var i :| 0 <= i < n && h[i].slot == s;
        MaxSlotIsKnown(h, n);
      }
    }
  }

  /** At most `window` + 1 slots are ever held. */
  lemma AgreesIsBounded(m: map<nat, SlotInfo>, h: seq<Sighting>, n: nat, window: nat)
    requires n <= |h| && Agrees(m, h, n, window)
    ensures |m| <= window + 1
  {
    var max := MaxSlot(h, n);
    var lo := SatSub(max, window);
    forall s | s in m.Keys ensures lo <= s < max + 1 {
      var i :| 0 <= i < n && h[i].slot == s;
      MaxSlotIsKnown(h, n);
    }
    BoundedSetSize(m.Keys, lo, max + 1);
  }

  lemma {:induction false} MaxSlotGrows(h: seq<Sighting>, m: nat, n: nat)
    requires m <= n <= |h|
    ensures MaxSlot(h, m) <= MaxSlot(h, n)
    decreases n
  {
    if m < n {
      MaxSlotGrows(h, m, n - 1);
    }
  }

  /** A slot once evicted never reappears, even if it is updated again. */
  lemma EvictedStaysOut(h: seq<Sighting>, n: nat, later: nat, s: nat, window: nat, m: map<nat, SlotInfo>)
    requires n <= later <= |h| && !InWindow(h, n, s, window) && Agrees(m, h, later, window)
    ensures s !in m
  {
    MaxSlotGrows(h, n, later);
  }

  // ---------------------------------------------------------------- the hash chain

  /** `n` applications of the hash function. */
  function Chain(sha: Hash -> Hash, start: Hash, n: nat): Hash {
    if n == 0 then start else sha(Chain(sha, start, n - 1))
  }

  lemma {:induction false} ChainAdds(sha: Hash -> Hash, start: Hash, m: nat, n: nat)
    ensures Chain(sha, Chain(sha, start, m), n) == Chain(sha, start, m + n)
  {
    if n > 0 {
      ChainAdds(sha, start, m, n - 1);
    }
  }

  method ChainHashForward(sha: Hash -> Hash, start: Hash, iterations: nat) returns (h: Hash)
    ensures h == Chain(sha, start, iterations)
  {
    h := start;
    for i := 0 to iterations
      invariant h == Chain(sha, start, i)
    {
      h := sha(h);
    }
  }

  /** From tick `from` on the slot is empty: each tick hash is one tick's worth of hashing further. */
  ghost predicate EmptyFrom(sha: Hash -> Hash, tickHash: nat -> Hash, from: nat) {
    forall t :: from <= t < TICKS_PER_SLOT ==> tickHash(t + 1) == Chain(sha, tickHash(t), HASHES_PER_TICK)
  }

  /** Extrapolating an empty tail gives the true last tick hash, whichever tick was last seen. */
  lemma {:induction false} ExtrapolationIsExact(sha: Hash -> Hash, tickHash: nat -> Hash, from: nat)
    requires from <= TICKS_PER_SLOT && EmptyFrom(sha, tickHash, from)
    ensures Chain(sha, tickHash(from), (TICKS_PER_SLOT - from) * HASHES_PER_TICK) == tickHash(TICKS_PER_SLOT)
    decreases TICKS_PER_SLOT - from
  {
    if from < TICKS_PER_SLOT {
      ExtrapolationIsExact(sha, tickHash, from + 1);
      ChainAdds(sha, tickHash(from), HASHES_PER_TICK, (TICKS_PER_SLOT - from - 1) * HASHES_PER_TICK);
    }
  }

  /** One hash is one application. */
  lemma ChainUnit(sha: Hash -> Hash, start: Hash)
    ensures Chain(sha, start, 0) == start && Chain(sha, start, 1) == sha(start)
  {
    assert Chain(sha, sha(start), 0) == sha(start);
  }

  // ---------------------------------------------------------------- lookups

  datatype LookupResult = LookupResult(sourceSlot: nat, anchorTick: nat, hash: Hash, chainedHashes: nat)

  predicate HasTick(m: map<nat, SlotInfo>, s: nat) {
    s in m && m[s].lastTick.Some?
  }

  /** The answer of a slot whose highest tick is `tick`, in plain terms: the slot, the tick, and the hash as many ticks
      of 62,500 hashes further as are missing to 64. */
  lemma AnswerExactly(sha: Hash -> Hash, s: nat, tick: nat, hash: Hash)
    ensures var r, more := Answer(sha, s, tick, hash), if tick >= 64 then 0 else (64 - tick) * 62_500;
            r == LookupResult(s, tick, Chain(sha, hash, more), more)
  {
    hide Chain;
  }

  /** The answer a slot with a tick gives. */
  function Answer(sha: Hash -> Hash, s: nat, tick: nat, hash: Hash): LookupResult {
    var chained := SatSub(TICKS_PER_SLOT, tick) * HASHES_PER_TICK;
    LookupResult(s, tick, Chain(sha, hash, chained), chained)
  }

  /** Slot `s` is the nearest before `landed`, within the range, that has a tick. */
  ghost predicate Nearest(m: map<nat, SlotInfo>, landed: nat, lookback: nat, s: nat) {
    && s < landed <= s + lookback && HasTick(m, s)
    && NoTickBetween(m, s + 1, landed)
  }

  ghost predicate NoTickBetween(m: map<nat, SlotInfo>, lo: int, hi: nat) {
    forall s: nat :: lo <= s < hi ==> !HasTick(m, s)
  }

  /** Exactly which slots the cache holds, read off its history: those updated that are at most the window below every
      slot updated. */
  lemma HeldExactly(m: map<nat, SlotInfo>, h: seq<Sighting>, window: nat, s: nat)
    requires Agrees(m, h, |h|, window)
    ensures s in m <==> && (exists i :: 0 <= i < |h| && h[i].slot == s)
                        && forall i :: 0 <= i < |h| ==> h[i].slot <= s + window
  {
    if |h| > 0 {
      MaxSlotIsKnown(h, |h|);
    }
  }

  class Cache {
    var inner: map<nat, SlotInfo>
    const window: nat
    ghost var history: seq<Sighting>

    constructor (window: nat)
      ensures Valid() && history == [] && this.window == window
    {
      inner, this.window, history := map[], window, [];
    }

    /** The cache holds, for each slot of its history still in the window, that whole history. */
    ghost predicate Valid()
      reads this
    {
      Agrees(inner, history, |history|, window)
    }

    method Update(slot: nat, index: nat, hash: Hash, tick: Option<nat>)
      requires Valid()
      modifies this
      ensures Valid() && history == old(history) + [Sighting(slot, index, hash, tick)]
    {
      ghost var was := inner;
      ghost var u := Sighting(slot, index, hash, tick);
      var info := if slot in inner then inner[slot] else BLANK;
      if index > info.maxEntryIndex || info.maxEntryIndex == 0 {
        info := info.(maxEntryIndex := index, lastEntryHash := hash);
      }
      if tick.Some? {
        if info.lastTick.None? || tick.value > info.lastTick.value.0 {
          info := info.(lastTick := Some((tick.value, hash)));
        }
      }
      inner := inner[slot := info];
      EvictOld();
      history := history + [u];
      HistoryExtends(was, old(history), u, window);
    }

    /** The eviction loop: drop the lowest slot while it lies below the cutoff. */
    method EvictOld()
      modifies this`inner
      ensures inner == Evicted(old(inner), window)
    {
      if inner != map[] {
        var maxSlot := MaxKey(inner.Keys);
        if maxSlot > window {
          var cutoff := maxSlot - window;
          while inner != map[] && MinKey(inner.Keys) < cutoff
            invariant forall s :: s in inner ==> s in old(inner) && inner[s] == old(inner)[s]
            invariant forall s :: s in old(inner) && s >= cutoff ==> s in inner
            decreases |inner|
          {
            var k := MinKey(inner.Keys);
            assert (inner - {k}).Keys == inner.Keys - {k};
            assert |(inner - {k}).Keys| < |inner.Keys|;
            inner := inner - {k};
          }
        }
      }
    }

    /** Walk back from the slot before `landed`: nothing is found exactly when no slot in range has a
        tick, and otherwise the nearest one answers. */
    method Lookup(sha: Hash -> Hash, landed: nat, lookback: nat) returns (r: Option<LookupResult>)
      requires Valid()
      ensures r.None? <==> NoTickBetween(inner, landed - lookback, landed)
      ensures r.None? <==> forall s: nat :: landed - lookback <= s < landed ==> !(s in inner && inner[s].lastTick.Some?)
      ensures r.Some? ==>
                var from := r.value.sourceSlot;
                && landed - lookback <= from < landed && from in inner && inner[from].lastTick.Some?
                && forall s: nat :: from < s < landed ==> !(s in inner && inner[s].lastTick.Some?)
      ensures r.Some? ==>
                && Nearest(inner, landed, lookback, r.value.sourceSlot)
                && var (tick, hash) := inner[r.value.sourceSlot].lastTick.value;
                   r.value == Answer(sha, r.value.sourceSlot, tick, hash)
    {
      for back := 1 to lookback + 1
        invariant NoTickBetween(inner, landed - back + 1, landed)
        invariant forall s: nat :: landed - back < s < landed ==> !(s in inner && inner[s].lastTick.Some?)
      {
        if back > landed {
          return None;
        }
        var s := landed - back;
        if s in inner && inner[s].lastTick.Some? {
          assert HasTick(inner, s);
          var (tick, hash) := inner[s].lastTick.value;
          if tick >= TICKS_PER_SLOT {
            return Some(LookupResult(s, tick, hash, 0));
          }
          var chained := (TICKS_PER_SLOT - tick) * HASHES_PER_TICK;
          var extrapolated := ChainHashForward(sha, hash, chained);
          return Some(LookupResult(s, tick, extrapolated, chained));
        }
      }
      return None;
    }
  }

  lemma HistoryExtends(was: map<nat, SlotInfo>, h: seq<Sighting>, u: Sighting, window: nat)
    requires Agrees(was, h, |h|, window)
    ensures Agrees(Apply(was, u, window), h + [u], |h| + 1, window)
  {
    PrefixAgrees(was, h, u, window);
    ApplyAgrees(was, h + [u], |h|, window);
  }

  lemma {:induction false} PrefixSame(h: seq<Sighting>, u: Sighting, n: nat, s: nat)
    requires n <= |h|
    ensures Info(h + [u], n, s) == Info(h, n, s) && MaxSlot(h + [u], n) == MaxSlot(h, n)
    ensures Known(h + [u], n, s) == Known(h, n, s)
  {
    if n > 0 {
      PrefixSame(h, u, n - 1, s);
      KnownNext(h, n - 1, s);
      KnownNext(h + [u], n - 1, s);
    }
  }

  lemma PrefixAgrees(m: map<nat, SlotInfo>, h: seq<Sighting>, u: Sighting, window: nat)
    requires Agrees(m, h, |h|, window)
    ensures Agrees(m, h + [u], |h|, window)
  {
    forall s: nat
      ensures s in m <==> Known(h + [u], |h|, s) && InWindow(h + [u], |h|, s, window)
      ensures s in m ==> m[s] == Info(h + [u], |h|, s)
    {
      PrefixSame(h, u, |h|, s);
    }
  }

  /** Eviction never changes what a lookup finds in a slot of the window: the first hash seen, over
      the whole history, for the slot's highest tick. */
  lemma LookupSeesWholeHistory(m: map<nat, SlotInfo>, h: seq<Sighting>, window: nat, s: nat)
    requires Agrees(m, h, |h|, window) && InWindow(h, |h|, s, window)
    ensures HasTick(m, s) <==> !NoTick(h, |h|, s)
    ensures HasTick(m, s) ==>
              exists i: nat :: FirstHighestTick(h, |h|, s, i) && m[s].lastTick.value == (h[i].tick.value, h[i].hash)
  {
    TickIsFirstHighest(h, |h|, s);
    if !NoTick(h, |h|, s) {
      var j :| 0 <= j < |h| && h[j].slot == s && h[j].tick.Some?;
      assert Known(h, |h|, s);
    }
  }

  /** Every tick sighting of the slot shows that tick's true hash. */
  ghost predicate TrueTicks(h: seq<Sighting>, s: nat, tickHash: nat -> Hash) {
    forall i :: 0 <= i < |h| && h[i].slot == s && h[i].tick.Some?
                ==> h[i].tick.value <= TICKS_PER_SLOT && h[i].hash == tickHash(h[i].tick.value)
  }

  /** What a lookup answers from a slot is that slot's tick-64 hash, whatever was evicted and whichever
      ticks were seen in whatever order, as long as the slot is empty after its highest tick seen. */
  lemma AnswerIsSlotHash(
      sha: Hash -> Hash, tickHash: nat -> Hash, m: map<nat, SlotInfo>, h: seq<Sighting>, window: nat, s: nat)
    requires Agrees(m, h, |h|, window) && HasTick(m, s) && TrueTicks(h, s, tickHash)
    requires EmptyFrom(sha, tickHash, m[s].lastTick.value.0)
    ensures var (tick, hash) := m[s].lastTick.value;
            Answer(sha, s, tick, hash).hash == tickHash(TICKS_PER_SLOT)
  {
    hide Chain;
    assert InWindow(h, |h|, s, window);
    LookupSeesWholeHistory(m, h, window, s);
    var i: nat :| FirstHighestTick(h, |h|, s, i) && m[s].lastTick.value == (h[i].tick.value, h[i].hash);
    ExtrapolationIsExact(sha, tickHash, h[i].tick.value);
  }
}
