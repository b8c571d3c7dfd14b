/** The durable-nonce pool: a round-robin allocator over a four-state machine per nonce. Handouts are
    exclusive, the held hash changes only when a new one is written, and the cyclic scan wastes
    nothing. */
module NonceManager {
  import opened Common

  /** In every state the nonce holds the hash it was last given. */
  datatype NonceState =
    | Ready(hash: Hash)
    | InFlight(hash: Hash, since: nat)
    | AwaitingUpdate(hash: Hash, since: nat)
    | Stale(hash: Hash, since: nat)

  /** Identifiers and public keys, by position; neither needs to be distinct. */
  datatype Names = Names(ids: seq<nat>, pubkeys: seq<nat>)

  datatype Pool = Pool(states: seq<NonceState>, cursor: nat)

  const USIZE: nat := 0x1_0000_0000_0000_0000

  datatype Op =
    | TakeReady(now: nat)
    | AccountUpdate(pubkey: nat, hash: Hash)
    | ObservedLanding(id: nat, now: nat)
    | LandingWithBlockhash(id: nat, hash: Hash)
    | TickTimeouts(now: nat, inFlightDeadline: nat, awaitingDeadline: nat)
    | RestoreUnchanged(id: nat)
    | FallbackRefresh(pubkey: nat, hash: Hash)

  // ---------------------------------------------------------------- the cyclic scan

  function Wrap(start: nat, offset: nat, n: nat): nat {
    if start + offset < n then start + offset else SatSub(start + offset, n)
  }

  lemma WrapIsMod(start: nat, offset: nat, n: nat)
    requires start < n && offset < n
    ensures Wrap(start, offset, n) == (start + offset) % n && Wrap(start, offset, n) < n
  {
    if start + offset >= n {
      assert (start + offset - n) % n == (start + offset) % n by {
        ModShift(start + offset - n, n);
      }
    }
  }

  lemma ModShift(a: nat, n: nat)
    requires n > 0
    ensures (a + n) % n == a % n
  {
    var q, r := a / n, a % n;
    assert a + n == (q + 1) * n + r by {
      assert a == q * n + r;
      assert (q + 1) * n == q * n + n;
    }
    ModUnique(a + n, n, q + 1, r);
  }

  lemma ModUnique(a: nat, n: nat, q: nat, r: nat)
    requires n > 0 && a == q * n + r && r < n
    ensures a % n == r
  {
    var q', r' := a / n, a % n;
    assert a == q' * n + r';
    if q' < q {
      MulGap(q', q, n);
    } else if q' > q {
      MulGap(q, q', n);
    }
  }

  lemma MulGap(a: nat, b: nat, n: nat)
    requires a < b
    ensures b * n >= a * n + n
  {
    assert b * n == (a + 1) * n + (b - a - 1) * n;
  }

  /** How far ahead of `start` position `i` lies, going round. */
  function Distance(start: nat, i: nat, n: nat): nat {
    if i >= start then i - start else SatSub(i + n, start)
  }

  /** The first Ready position from offset `k` on. */
  function Scan(states: seq<NonceState>, start: nat, k: nat): Option<nat>
    requires start < |states| && k <= |states|
    decreases |states| - k
  {
    if k == |states| then None
    else
      var idx := Wrap(start, k, |states|);
      if states[idx].Ready? then Some(idx) else Scan(states, start, k + 1)
  }

  function Pick(states: seq<NonceState>, cursor: nat): Option<nat> {
    if states == [] then None else Scan(states, cursor % |states|, 0)
  }

  /** The scan finds the Ready nonce nearest ahead, and nothing exactly when none is Ready. */
  lemma {:induction false} ScanIsNearest(states: seq<NonceState>, start: nat, k: nat)
    requires start < |states| && k <= |states|
    requires forall i :: 0 <= i < |states| && states[i].Ready? ==> Distance(start, i, |states|) >= k
    ensures var r := Scan(states, start, k);
            && (r.None? <==> forall i :: 0 <= i < |states| ==> !states[i].Ready?)
            && (r.Some? ==> r.value < |states| && states[r.value].Ready?
                            && forall i :: 0 <= i < |states| && states[i].Ready?
                                           ==> Distance(start, r.value, |states|) <= Distance(start, i, |states|))
    decreases |states| - k
  {
    if k < |states| {
      var idx := Wrap(start, k, |states|);
      if !states[idx].Ready? {
        forall i | 0 <= i < |states| && states[i].Ready? ensures Distance(start, i, |states|) >= k + 1 {
          assert Distance(start, i, |states|) == k ==> i == idx;
        }
        ScanIsNearest(states, start, k + 1);
      }
    }
  }

  lemma PickIsNearest(states: seq<NonceState>, cursor: nat)
    requires states != []
    ensures var r := Pick(states, cursor);
            var start := cursor % |states|;
            && (r.None? <==> forall i :: 0 <= i < |states| ==> !states[i].Ready?)
            && (r.Some? ==> r.value < |states| && states[r.value].Ready?
                            && forall i :: 0 <= i < |states| && states[i].Ready?
                                           ==> Distance(start, r.value, |states|) <= Distance(start, i, |states|))
  {
    ScanIsNearest(states, cursor % |states|, 0);
  }

  // ---------------------------------------------------------------- one operation

  /** `get_by_id` takes the first match. */
  function FirstId(ids: seq<nat>, id: nat, k: nat): Option<nat>
    requires k <= |ids|
    decreases |ids| - k
  {
    if k == |ids| then None else if ids[k] == id then Some(k) else FirstId(ids, id, k + 1)
  }

  /** The public-key index keeps the last match. */
  function LastPubkey(pubkeys: seq<nat>, pk: nat, n: nat): Option<nat>
    requires n <= |pubkeys|
  {
    if n == 0 then None else if pubkeys[n - 1] == pk then Some(n - 1) else LastPubkey(pubkeys, pk, n - 1)
  }

  /** The first match, or none exactly when nothing matches. */
  lemma {:induction false} FirstIdIsFirst(ids: seq<nat>, id: nat, k: nat)
    requires k <= |ids|
    ensures var r := FirstId(ids, id, k);
            && (r.None? <==> forall j :: k <= j < |ids| ==> ids[j] != id)
            && (r.Some? ==> k <= r.value < |ids| && ids[r.value] == id && forall j :: k <= j < r.value ==> ids[j] != id)
    decreases |ids| - k
  {
    if k < |ids| && ids[k] != id {
      FirstIdIsFirst(ids, id, k + 1);
    }
  }

  /** The last match, or none exactly when nothing matches. */
  lemma {:induction false} LastPubkeyIsLast(pubkeys: seq<nat>, pk: nat, n: nat)
    requires n <= |pubkeys|
    ensures var r := LastPubkey(pubkeys, pk, n);
            && (r.None? <==> forall j :: 0 <= j < n ==> pubkeys[j] != pk)
            && (r.Some? ==> r.value < n && pubkeys[r.value] == pk && forall j :: r.value < j < n ==> pubkeys[j] != pk)
  {
    if n > 0 && pubkeys[n - 1] != pk {
      LastPubkeyIsLast(pubkeys, pk, n - 1);
    }
  }

  /** Operation `op` is directed at position `i`. */
  predicate Hits(p: Pool, names: Names, op: Op, i: nat) {
    match op
    case TakeReady(_) => Pick(p.states, p.cursor) == Some(i)
    case AccountUpdate(pk, _) => LastPubkey(names.pubkeys, pk, |names.pubkeys|) == Some(i)
    case FallbackRefresh(pk, _) => LastPubkey(names.pubkeys, pk, |names.pubkeys|) == Some(i)
    case ObservedLanding(id, _) => FirstId(names.ids, id, 0) == Some(i)
    case LandingWithBlockhash(id, _) => FirstId(names.ids, id, 0) == Some(i)
    case RestoreUnchanged(id) => FirstId(names.ids, id, 0) == Some(i)
    case TickTimeouts(_, _, _) => true
  }

  /** What the operation does to the state of the nonce it is directed at. */
  function Next(st: NonceState, op: Op): NonceState {
    match op
    case TakeReady(now) => if st.Ready? then InFlight(st.hash, now) else st
    case AccountUpdate(_, hash) => if st.hash != hash then Ready(hash) else st
    case ObservedLanding(_, now) => if st.InFlight? then AwaitingUpdate(st.hash, now) else st
    case LandingWithBlockhash(_, hash) => Ready(hash)
    case TickTimeouts(now, inFlight, awaiting) =>
      if || (st.InFlight? && SatSub(now, st.since) >= inFlight)
         || (st.AwaitingUpdate? && SatSub(now, st.since) >= awaiting)
      then Stale(st.hash, now) else st
    case RestoreUnchanged(_) => if st.Ready? then st else Ready(st.hash)
    case FallbackRefresh(_, hash) => if st.Stale? then Ready(hash) else st
  }

  function Moved(p: Pool, names: Names, op: Op, i: nat): NonceState
    requires i < |p.states|
  {
    if Hits(p, names, op, i) then Next(p.states[i], op) else p.states[i]
  }

  function Step(p: Pool, names: Names, op: Op): (r: Pool)
    ensures |r.states| == |p.states|
  {
    Pool(seq(|p.states|, i requires 0 <= i < |p.states| => Moved(p, names, op, i)),
         if op.TakeReady? && p.states != [] then (p.cursor + 1) % USIZE else p.cursor)
  }

  // ---------------------------------------------------------------- every move, in plain terms

  /** Position `i` is the first with that identifier. */
  ghost predicate FirstNamed(names: Names, id: nat, i: nat) {
    i < |names.ids| && names.ids[i] == id && forall j :: 0 <= j < i ==> names.ids[j] != id
  }

  /** Position `i` is the last with that public key. */
  ghost predicate LastNamed(names: Names, pk: nat, i: nat) {
    i < |names.pubkeys| && names.pubkeys[i] == pk && forall j :: i < j < |names.pubkeys| ==> names.pubkeys[j] != pk
  }

  /** The nonce has been in flight, or has awaited an update, for at least the deadline of its own state. */
  predicate Overdue(st: NonceState, now: nat, inFlightDeadline: nat, awaitingDeadline: nat) {
    || (st.InFlight? && (if now > st.since then now - st.since else 0) >= inFlightDeadline)
    || (st.AwaitingUpdate? && (if now > st.since then now - st.since else 0) >= awaitingDeadline)
  }

  lemma NamesExactly(names: Names, id: nat, pk: nat, i: nat)
    ensures FirstId(names.ids, id, 0) == Some(i) <==> FirstNamed(names, id, i)
    ensures LastPubkey(names.pubkeys, pk, |names.pubkeys|) == Some(i) <==> LastNamed(names, pk, i)
  {
    FirstIdIsFirst(names.ids, id, 0);
    LastPubkeyIsLast(names.pubkeys, pk, |names.pubkeys|);
  }

  /** What every operation does to the nonce at every position: who it is directed at, in which states it moves it,
      where to, and with which hash and time. */
  lemma MovesExactly(p: Pool, names: Names, op: Op, i: nat)
    requires i < |p.states|
    ensures var was, now := p.states[i], Step(p, names, op).states[i];
            match op
            case TakeReady(at) =>
              now == if Pick(p.states, p.cursor) == Some(i) then InFlight(was.hash, at) else was
            case AccountUpdate(pk, hash) =>
              now == if LastNamed(names, pk, i) && was.hash != hash then Ready(hash) else was
            case ObservedLanding(id, at) =>
              now == if FirstNamed(names, id, i) && was.InFlight? then AwaitingUpdate(was.hash, at) else was
            case LandingWithBlockhash(id, hash) =>
              now == if FirstNamed(names, id, i) then Ready(hash) else was
            case TickTimeouts(at, inFlight, awaiting) =>
              now == if Overdue(was, at, inFlight, awaiting) then Stale(was.hash, at) else was
            case RestoreUnchanged(id) =>
              now == if FirstNamed(names, id, i) then Ready(was.hash) else was
            case FallbackRefresh(pk, hash) =>
              now == if LastNamed(names, pk, i) && was.Stale? then Ready(hash) else was
  {
    match op
    case TakeReady(at) =>
      PickIsNearest(p.states, p.cursor);
    case AccountUpdate(pk, hash) =>
      NamesExactly(names, 0, pk, i);
    case ObservedLanding(id, at) =>
      NamesExactly(names, id, 0, i);
    case LandingWithBlockhash(id, hash) =>
      NamesExactly(names, id, 0, i);
    case TickTimeouts(at, inFlight, awaiting) =>
    case RestoreUnchanged(id) =>
      NamesExactly(names, id, 0, i);
    case FallbackRefresh(pk, hash) =>
      NamesExactly(names, 0, pk, i);
  }

  /** The cursor moves by one, wrapping at the word size, when something is taken from a pool that is not empty, and
      never otherwise. */
  lemma CursorMovesExactly(p: Pool, names: Names, op: Op)
    ensures Step(p, names, op).cursor
            == if op.TakeReady? && |p.states| > 0 then (p.cursor + 1) % 0x1_0000_0000_0000_0000 else p.cursor
  {
  }

  /** The list a timeout sweep returns: exactly the overdue positions, each once, in order, by name. */
  lemma {:induction false} StaleListExactly(
      names: Names, states: seq<NonceState>, now: nat, inFlight: nat, awaiting: nat, n: nat) returns (at: seq<nat>)
    requires n <= |states| == |names.ids| == |names.pubkeys|
    ensures var list := NewlyStale(names, states, TickTimeouts(now, inFlight, awaiting), n);
            && |at| == |list| && Increasing(at)
            && (forall i :: i in at <==> 0 <= i < n && Overdue(states[i], now, inFlight, awaiting))
            && (forall k :: 0 <= k < |at| ==> at[k] < n && list[k] == (names.ids[at[k]], names.pubkeys[at[k]]))
  {
    if n == 0 {
      at := [];
    } else {
      at := StaleListExactly(names, states, now, inFlight, awaiting, n - 1);
      assert Overdue(states[n - 1], now, inFlight, awaiting)
             <==> !states[n - 1].Stale? && Next(states[n - 1], TickTimeouts(now, inFlight, awaiting)).Stale?;
      if Overdue(states[n - 1], now, inFlight, awaiting) {
        at := at + [n - 1];
      }
    }
  }

  // ---------------------------------------------------------------- runs

  function Run(p: Pool, names: Names, ops: seq<Op>, n: nat): (r: Pool)
    requires n <= |ops|
    ensures |r.states| == |p.states|
  {
    if n == 0 then p else Step(Run(p, names, ops, n - 1), names, ops[n - 1])
  }

  /** Operation `k` of the run hands out nonce `x`. */
  predicate HandsOut(p: Pool, names: Names, ops: seq<Op>, k: nat, x: nat)
    requires k < |ops|
  {
    ops[k].TakeReady? && Pick(Run(p, names, ops, k).states, Run(p, names, ops, k).cursor) == Some(x)
  }

  /** Operation `op` frees a nonce that is out in state `st`. */
  predicate Frees(st: NonceState, op: Op) {
    && !st.Ready?
    && (|| (op.AccountUpdate? && op.hash != st.hash)
        || op.LandingWithBlockhash?
        || op.RestoreUnchanged?
        || (op.FallbackRefresh? && st.Stale?))
  }

  /** Operation `k` of the run is a release call: directed at nonce `x`, of one of the four kinds, its guard met. */
  predicate Releases(p: Pool, names: Names, ops: seq<Op>, k: nat, x: nat)
    requires k < |ops| && x < |p.states|
  {
    Hits(Run(p, names, ops, k), names, ops[k], x) && Frees(Run(p, names, ops, k).states[x], ops[k])
  }

  /** A nonce that is out becomes Ready exactly by a release call. */
  lemma ReleaseExactly(p: Pool, names: Names, ops: seq<Op>, k: nat, x: nat)
    requires k < |ops| && x < |p.states|
    ensures Releases(p, names, ops, k, x)
            <==> !Run(p, names, ops, k).states[x].Ready? && Run(p, names, ops, k + 1).states[x].Ready?
  {
    hide Pick;
  }

  lemma {:induction false} BecameReady(p: Pool, names: Names, ops: seq<Op>, i: nat, j: nat, x: nat)
    requires i <= j <= |ops| && x < |p.states|
    requires !Run(p, names, ops, i).states[x].Ready? && Run(p, names, ops, j).states[x].Ready?
    ensures exists k :: i <= k < j && Releases(p, names, ops, k, x)
    decreases j
  {
    if Run(p, names, ops, j - 1).states[x].Ready? {
      BecameReady(p, names, ops, i, j - 1, x);
    } else {
      ReleaseExactly(p, names, ops, j - 1, x);
    }
    hide Run, Releases;
  }

  lemma HandoutLocks(p: Pool, names: Names, ops: seq<Op>, k: nat, x: nat)
    requires k < |ops| && HandsOut(p, names, ops, k, x)
    ensures x < |p.states| && Run(p, names, ops, k).states[x].Ready?
    ensures Run(p, names, ops, k + 1).states[x] == InFlight(Run(p, names, ops, k).states[x].hash, ops[k].now)
  {
    PickIsNearest(Run(p, names, ops, k).states, Run(p, names, ops, k).cursor);
  }

  /** Exclusive handout: between two handouts of the same nonce comes a call that released it. */
  lemma ExclusiveHandout(p: Pool, names: Names, ops: seq<Op>, i: nat, j: nat, x: nat)
    requires i < j < |ops| && HandsOut(p, names, ops, i, x) && HandsOut(p, names, ops, j, x)
    ensures x < |p.states| && exists k :: i < k < j && Releases(p, names, ops, k, x)
  {
    HandoutLocks(p, names, ops, i, x);
    HandoutLocks(p, names, ops, j, x);
    BecameReady(p, names, ops, i + 1, j, x);
  }

  /** Operation `k` writes a hash to nonce `x`. */
  predicate Writes(p: Pool, names: Names, ops: seq<Op>, k: nat, x: nat)
    requires k < |ops| && x < |p.states|
  {
    && Hits(Run(p, names, ops, k), names, ops[k], x)
    && (ops[k].AccountUpdate? || ops[k].LandingWithBlockhash?
        || (ops[k].FallbackRefresh? && Run(p, names, ops, k).states[x].Stale?))
  }

  /** A nonce carries its hash unchanged through every state until one is written to it. */
  lemma {:induction false} HashIsCarried(p: Pool, names: Names, ops: seq<Op>, i: nat, j: nat, x: nat)
    requires i <= j <= |ops| && x < |p.states|
    requires forall k :: i <= k < j ==> !Writes(p, names, ops, k, x)
    ensures Run(p, names, ops, j).states[x].hash == Run(p, names, ops, i).states[x].hash
    decreases j
  {
    if i < j {
      HashIsCarried(p, names, ops, i, j - 1, x);
      assert !Writes(p, names, ops, j - 1, x);
      hide Pick;
    }
  }

  ghost predicate LastWrite(p: Pool, names: Names, ops: seq<Op>, k: nat, j: nat, x: nat)
    requires j <= |ops| && x < |p.states|
  {
    k < j && Writes(p, names, ops, k, x) && forall m :: k < m < j ==> !Writes(p, names, ops, m, x)
  }

  lemma {:induction false} LastWriteExists(p: Pool, names: Names, ops: seq<Op>, j: nat, x: nat)
    requires j <= |ops| && x < |p.states| && exists k :: 0 <= k < j && Writes(p, names, ops, k, x)
    ensures exists k: nat :: LastWrite(p, names, ops, k, j, x)
  {
    if Writes(p, names, ops, j - 1, x) {
      assert LastWrite(p, names, ops, j - 1, j, x);
    } else {
      LastWriteExists(p, names, ops, j - 1, x);
      var k: nat :| LastWrite(p, names, ops, k, j - 1, x);
      assert LastWrite(p, names, ops, k, j, x);
    }
  }

  /** Every hash handed out is the one last written to that nonce, or its initial one. */
  lemma HandsOutLastWritten(p: Pool, names: Names, ops: seq<Op>, j: nat, x: nat)
    requires j < |ops| && HandsOut(p, names, ops, j, x)
    ensures x < |p.states|
    ensures var hash := Run(p, names, ops, j).states[x].hash;
            || (hash == p.states[x].hash && forall k :: 0 <= k < j ==> !Writes(p, names, ops, k, x))
            || exists k: nat :: LastWrite(p, names, ops, k, j, x) && ops[k].hash == hash
  {
    assert Run(p, names, ops, 0) == p;
    hide Writes, Run, HandsOut;
    HandoutLocks(p, names, ops, j, x);
    if k :| 0 <= k < j && Writes(p, names, ops, k, x) {
      LastWriteExists(p, names, ops, j, x);
      var last: nat :| LastWrite(p, names, ops, last, j, x);
      WriteLeavesHash(p, names, ops, last, x);
      HashIsCarried(p, names, ops, last + 1, j, x);
    } else {
      HashIsCarried(p, names, ops, 0, j, x);
    }
  }

  lemma WriteLeavesHash(p: Pool, names: Names, ops: seq<Op>, k: nat, x: nat)
    requires k < |ops| && x < |p.states| && Writes(p, names, ops, k, x)
    ensures Run(p, names, ops, k + 1).states[x].hash == ops[k].hash
  {
    hide Pick;
  }

  // ---------------------------------------------------------------- draining the pool

  function ReadySet(states: seq<NonceState>): set<nat> {
    set i | 0 <= i < |states| && states[i].Ready?
  }

  /** The run that only takes. */
  function Takes(nows: seq<nat>): seq<Op> {
    seq(|nows|, i requires 0 <= i < |nows| => TakeReady(nows[i]))
  }

  lemma TakeShrinksReady(p: Pool, names: Names, now: nat)
    ensures var r := Pick(p.states, p.cursor);
            var next := ReadySet(Step(p, names, TakeReady(now)).states);
            if r.None? then ReadySet(p.states) == {} && next == {}
            else r.value in ReadySet(p.states) && next == ReadySet(p.states) - {r.value}
  {
    if p.states != [] {
      PickIsNearest(p.states, p.cursor);
    }
    hide Pick;
  }

  lemma {:induction false} TakesShrinkReady(p: Pool, names: Names, nows: seq<nat>, k: nat)
    requires k <= |nows|
    ensures var left := ReadySet(Run(p, names, Takes(nows), k).states);
            |left| == SatSub(|ReadySet(p.states)|, k)
  {
    if k > 0 {
      TakesShrinkReady(p, names, nows, k - 1);
      TakeShrinksReady(Run(p, names, Takes(nows), k - 1), names, nows[k - 1]);
      hide ReadySet, Step, Pick;
    }
  }

  /** With r nonces Ready and nothing released, a take succeeds exactly while fewer than r were taken. */
  lemma TakesUntilDry(p: Pool, names: Names, nows: seq<nat>, k: nat)
    requires k < |nows|
    ensures var q := Run(p, names, Takes(nows), k);
            Pick(q.states, q.cursor).Some? <==> k < |ReadySet(p.states)|
  {
    var q := Run(p, names, Takes(nows), k);
    TakesShrinkReady(p, names, nows, k);
    TakeShrinksReady(q, names, nows[k]);
    hide Pick, Step;
    assert ReadySet(q.states) == {} <==> |ReadySet(q.states)| == 0;
  }

  /** And no nonce is handed out twice. */
  lemma TakesAreDistinct(p: Pool, names: Names, nows: seq<nat>, i: nat, j: nat, x: nat, y: nat)
    requires i < j < |nows|
    requires HandsOut(p, names, Takes(nows), i, x) && HandsOut(p, names, Takes(nows), j, y)
    ensures x != y
  {
    if x == y {
      ExclusiveHandout(p, names, Takes(nows), i, j, x);
    }
  }

  // ---------------------------------------------------------------- cyclic order

  /** The first `k` positions from the cursor on are out, and only those. */
  ghost predicate TakenExactly(states: seq<NonceState>, cursor: nat, k: nat) {
    && states != []
    && (forall j :: 0 <= j < k ==> !states[At(cursor, j, states)].Ready?)
    && (forall i :: 0 <= i < |states| && !states[i].Ready? ==> exists j :: 0 <= j < k && At(cursor, j, states) == i)
  }

  function At(cursor: nat, j: nat, states: seq<NonceState>): (i: nat)
    ensures states != [] ==> i < |states|
  {
    if states == [] then 0 else (cursor + j) % |states|
  }

  lemma DistinctPositions(cursor: nat, j: nat, k: nat, n: nat)
    requires j < k < j + n
    ensures (cursor + j) % n != (cursor + k) % n
  {
    var a, b := cursor + j, cursor + k;
    if a % n == b % n {
      var qa, qb := a / n, b / n;
      assert a == qa * n + a % n && b == qb * n + b % n;
      if qa < qb {
        MulGap(qa, qb, n);
      } else if qb < qa {
        MulGap(qb, qa, n);
      }
    }
  }

  lemma StartIsReady(states: seq<NonceState>, cursor: nat)
    requires states != [] && states[cursor % |states|].Ready?
    ensures Pick(states, cursor) == Some(cursor % |states|)
  {
  }

  lemma CursorAdvances(p: Pool, names: Names, nows: seq<nat>, k: nat)
    requires k <= |nows| && p.states != [] && p.cursor + k < USIZE
    ensures Run(p, names, Takes(nows), k).cursor == p.cursor + k
  {
    if k > 0 {
      CursorAdvances(p, names, nows, k - 1);
      hide Pick;
    }
  }

  lemma NextInCycle(q: Pool, cursor: nat, k: nat)
    requires TakenExactly(q.states, cursor, k) && q.cursor == cursor + k && k < |q.states|
    ensures Pick(q.states, q.cursor) == Some((cursor + k) % |q.states|)
  {
    var at := (cursor + k) % |q.states|;
    if !q.states[at].Ready? {
      var j :| 0 <= j < k && At(cursor, j, q.states) == at;
      DistinctPositions(cursor, j, k, |q.states|);
    }
    hide TakenExactly;
    StartIsReady(q.states, q.cursor);
  }

  lemma NextInRound(p: Pool, names: Names, nows: seq<nat>, k: nat)
    requires k < |nows| && k < |p.states| && p.cursor + k < USIZE
    requires TakenExactly(Run(p, names, Takes(nows), k).states, p.cursor, k)
    ensures var q := Run(p, names, Takes(nows), k);
            Pick(q.states, q.cursor) == Some((p.cursor + k) % |p.states|)
  {
    CursorAdvances(p, names, nows, k);
    hide TakenExactly, Pick;
    NextInCycle(Run(p, names, Takes(nows), k), p.cursor, k);
  }

  lemma TakeExtends(q: Pool, names: Names, now: nat, cursor: nat, k: nat)
    requires TakenExactly(q.states, cursor, k) && Pick(q.states, q.cursor) == Some((cursor + k) % |q.states|)
    ensures TakenExactly(Step(q, names, TakeReady(now)).states, cursor, k + 1)
  {
    hide Pick;
    var r := Step(q, names, TakeReady(now));
    forall j | 0 <= j < k + 1 ensures !r.states[At(cursor, j, r.states)].Ready? {
      assert At(cursor, j, r.states) == At(cursor, j, q.states);
    }
    forall i | 0 <= i < |r.states| && !r.states[i].Ready?
      ensures exists j :: 0 <= j < k + 1 && At(cursor, j, r.states) == i
    {
      if i == At(cursor, k, q.states) {
        assert At(cursor, k, r.states) == i;
      } else {
        var j :| 0 <= j < k && At(cursor, j, q.states) == i;
        assert At(cursor, j, r.states) == i;
      }
    }
  }

  lemma {:induction false} RoundInProgress(p: Pool, names: Names, nows: seq<nat>, k: nat)
    requires k <= |nows| && k <= |p.states| && p.cursor + k < USIZE && p.states != []
    requires forall i :: 0 <= i < |p.states| ==> p.states[i].Ready?
    ensures TakenExactly(Run(p, names, Takes(nows), k).states, p.cursor, k)
  {
    if k > 0 {
      RoundInProgress(p, names, nows, k - 1);
      NextInRound(p, names, nows, k - 1);
      hide Pick, TakenExactly, Step;
      TakeExtends(Run(p, names, Takes(nows), k - 1), names, nows[k - 1], p.cursor, k - 1);
    }
  }

  /** From an all-Ready pool, as long as the cursor does not wrap, a full round of takes hands out every
      nonce in cyclic order. */
  lemma FullRound(p: Pool, names: Names, nows: seq<nat>, k: nat)
    requires k < |nows| && k < |p.states| && p.cursor + k < USIZE
    requires forall i :: 0 <= i < |p.states| ==> p.states[i].Ready?
    ensures HandsOut(p, names, Takes(nows), k, (p.cursor + k) % |p.states|)
  {
    RoundInProgress(p, names, nows, k);
    NextInRound(p, names, nows, k);
  }

  // ---------------------------------------------------------------- the manager object

  class Manager {
    const ids: seq<nat>
    const pubkeys: seq<nat>
    const states: array<NonceState>
    var pubkeyIndex: map<nat, nat>
    var rrCursor: nat

    ghost function Naming(): Names {
      Names(ids, pubkeys)
    }

    ghost function Value(): Pool
      reads this, states
    {
      Pool(states[..], rrCursor)
    }

    ghost predicate Valid()
      reads this
    {
      && |ids| == |pubkeys| == states.Length
      && (forall pk :: LastPubkey(pubkeys, pk, |pubkeys|) == if pk in pubkeyIndex then Some(pubkeyIndex[pk]) else None)
    }

    constructor (ids: seq<nat>, pubkeys: seq<nat>, hashes: seq<Hash>)
      requires |ids| == |pubkeys| == |hashes|
      ensures Valid() && this.ids == ids && this.pubkeys == pubkeys && fresh(states)
      ensures Value() == Pool(seq(|hashes|, i requires 0 <= i < |hashes| => Ready(hashes[i])), 0)
    {
      this.ids, this.pubkeys := ids, pubkeys;
      states := new NonceState[|ids|](i requires 0 <= i < |hashes| => Ready(hashes[i]));
      pubkeyIndex, rrCursor := map[], 0;
      new;
      for n := 0 to |pubkeys|
        invariant rrCursor == 0 && fresh(states)
        invariant forall i :: 0 <= i < |hashes| ==> states[i] == Ready(hashes[i])
        invariant forall pk :: LastPubkey(pubkeys, pk, n) == if pk in pubkeyIndex then Some(pubkeyIndex[pk]) else None
      {
        pubkeyIndex := pubkeyIndex[pubkeys[n] := n];
      }
    }

    method GetById(id: nat) returns (r: Option<nat>)
      requires Valid()
      ensures r == FirstId(ids, id, 0)
      ensures r.Some? ==> r.value < states.Length
    {
      var k := 0;
      while k < |ids|
        invariant 0 <= k <= |ids| && FirstId(ids, id, 0) == FirstId(ids, id, k)
      {
        if ids[k] == id {
          return Some(k);
        }
        k := k + 1;
      }
      return None;
    }

    lemma PubkeyInRange(pk: nat, n: nat)
      requires Valid() && n <= |pubkeys|
      ensures LastPubkey(pubkeys, pk, n).Some? ==> LastPubkey(pubkeys, pk, n).value < states.Length
    {
    }

    method GetByPubkey(pk: nat) returns (r: Option<nat>)
      requires Valid()
      ensures r == LastPubkey(pubkeys, pk, |pubkeys|)
      ensures r.Some? ==> r.value < states.Length
    {
      PubkeyInRange(pk, |pubkeys|);
      if pk in pubkeyIndex {
        return Some(pubkeyIndex[pk]);
      }
      return None;
    }

    method TakeReady(now: nat) returns (r: Option<(nat, nat, Hash)>)
      requires Valid()
      modifies this`rrCursor, states
      ensures Valid() && Value() == Step(old(Value()), Naming(), Op.TakeReady(now))
      ensures match Pick(old(states[..]), old(rrCursor))
              case None => r == None
              case Some(i) => i < |ids| && i < states.Length && r == Some((ids[i], pubkeys[i], old(states[i]).hash))
    {
      var n := states.Length;
      if n == 0 {
        return None;
      }
      ghost var was := Value();
      var start := rrCursor % n;
      rrCursor := (rrCursor + 1) % USIZE;
      var offset := 0;
      while offset < n
        invariant 0 <= offset <= n && states[..] == was.states && rrCursor == (was.cursor + 1) % USIZE
        invariant Scan(was.states, start, 0) == Scan(was.states, start, offset)
      {
        WrapIsMod(start, offset, n);
        var idx := (start + offset) % n;
        if states[idx].Ready? {
          var hash := states[idx].hash;
          states[idx] := InFlight(hash, now);
          assert states[..] == Step(was, Naming(), Op.TakeReady(now)).states;
          return Some((ids[idx], pubkeys[idx], hash));
        }
        offset := offset + 1;
      }
      assert Pick(was.states, was.cursor).None?;
      assert states[..] == Step(was, Naming(), Op.TakeReady(now)).states;
      return None;
    }

    /** Overwrite one state, or none when the lookup failed. */
    method Store(at: Option<nat>, st: NonceState, ghost op: Op)
      requires Valid() && !op.TakeReady? && !op.TickTimeouts?
      requires forall i: nat :: Hits(Value(), Naming(), op, i) <==> at == Some(i)
      requires at.Some? ==> at.value < states.Length && st == Next(states[at.value], op)
      modifies states
      ensures Value() == Step(old(Value()), Naming(), op)
    {
      ghost var was := Value();
      if at.Some? {
        states[at.value] := st;
      }
      assert states[..] == Step(was, Naming(), op).states;
    }

    method OnAccountUpdate(pubkey: nat, newHash: Hash) returns (advanced: bool)
      requires Valid()
      modifies states
      ensures Value() == Step(old(Value()), Naming(), AccountUpdate(pubkey, newHash))
      ensures advanced <==> HashDiffers(old(Value()), Naming(), pubkey, newHash)
    {
      var at := GetByPubkey(pubkey);
      if at.None? {
        Store(at, Ready(newHash), AccountUpdate(pubkey, newHash));
        return false;
      }
      var st := states[at.value];
      advanced := st.hash != newHash;
      Store(at, if advanced then Ready(newHash) else st, AccountUpdate(pubkey, newHash));
    }

    method OnObservedLanding(id: nat, now: nat)
      requires Valid()
      modifies states
      ensures Value() == Step(old(Value()), Naming(), ObservedLanding(id, now))
    {
      var at := GetById(id);
      if at.None? {
        Store(at, Ready(DEFAULT_HASH), ObservedLanding(id, now));
        return;
      }
      var st := states[at.value];
      Store(at, if st.InFlight? then AwaitingUpdate(st.hash, now) else st, ObservedLanding(id, now));
    }

    /** Any state but Ready moves to Ready; a Ready nonce takes the new hash if it differs. */
    method OnLandingWithBlockhash(id: nat, newHash: Hash) returns (changed: bool)
      requires Valid()
      modifies states
      ensures Value() == Step(old(Value()), Naming(), LandingWithBlockhash(id, newHash))
      ensures changed <==> states[..] != old(states[..])
    {
      var at := GetById(id);
      if at.None? {
        Store(at, Ready(newHash), LandingWithBlockhash(id, newHash));
        assert states[..] == old(states[..]);
        return false;
      }
      var st := states[at.value];
      match st {
        case Ready(hash) => changed := hash != newHash;
        case _ => changed := true;
      }
      Store(at, if changed then Ready(newHash) else st, LandingWithBlockhash(id, newHash));
      assert states[at.value] == Ready(newHash);
      if !changed {
        assert states[..] == old(states[..]);
      } else {
        assert states[..][at.value] != old(states[..])[at.value];
      }
    }

    method RestoreUnchanged(id: nat) returns (changed: bool)
      requires Valid()
      modifies states
      ensures Value() == Step(old(Value()), Naming(), Op.RestoreUnchanged(id))
      ensures changed <==> states[..] != old(states[..])
    {
      var at := GetById(id);
      if at.None? {
        Store(at, Ready(DEFAULT_HASH), Op.RestoreUnchanged(id));
        assert states[..] == old(states[..]);
        return false;
      }
      var st := states[at.value];
      changed := !st.Ready?;
      Store(at, if changed then Ready(st.hash) else st, Op.RestoreUnchanged(id));
      if !changed {
        assert states[..] == old(states[..]);
      } else {
        assert states[..][at.value] != old(states[..])[at.value];
      }
    }

    method OnFallbackRefresh(pubkey: nat, observed: Hash)
      requires Valid()
      modifies states
      ensures Value() == Step(old(Value()), Naming(), FallbackRefresh(pubkey, observed))
    {
      var at := GetByPubkey(pubkey);
      if at.None? {
        Store(at, Ready(observed), FallbackRefresh(pubkey, observed));
        return;
      }
      var st := states[at.value];
      if st.Stale? {
        Store(at, if st.hash == observed then Ready(st.hash) else Ready(observed), FallbackRefresh(pubkey, observed));
      } else {
        Store(at, st, FallbackRefresh(pubkey, observed));
      }
    }

    /** The sweep past the deadlines, reporting each nonce that became stale, in pool order. */
    method TickTimeouts(now: nat, inFlightDeadline: nat, awaitingDeadline: nat) returns (stale: seq<(nat, nat)>)
      requires Valid()
      modifies states
      ensures Value() == Step(old(Value()), Naming(), Op.TickTimeouts(now, inFlightDeadline, awaitingDeadline))
      ensures stale == NewlyStale(Naming(), old(states[..]), Op.TickTimeouts(now, inFlightDeadline, awaitingDeadline),
                                  states.Length)
      ensures forall i :: 0 <= i < states.Length ==>
                states[i] == if Overdue(old(states[..])[i], now, inFlightDeadline, awaitingDeadline)
                             then Stale(old(states[..])[i].hash, now) else old(states[..])[i]
    {
      stale := [];
      ghost var was := Value();
      ghost var op := Op.TickTimeouts(now, inFlightDeadline, awaitingDeadline);
      for i := 0 to states.Length
        invariant rrCursor == was.cursor
        invariant forall j :: 0 <= j < i ==> states[j] == Next(was.states[j], op)
        invariant forall j :: i <= j < states.Length ==> states[j] == was.states[j]
        invariant stale == NewlyStale(Naming(), was.states, op, i)
      {
        var becameStale := false;
        match states[i] {
          case InFlight(hash, since) =>
            if SatSub(now, since) >= inFlightDeadline {
              states[i] := Stale(hash, now);
              becameStale := true;
            }
          case AwaitingUpdate(hash, since) =>
            if SatSub(now, since) >= awaitingDeadline {
              states[i] := Stale(hash, now);
              becameStale := true;
            }
          case _ =>
        }
        if becameStale {
          stale := stale + [(ids[i], pubkeys[i])];
        }
      }
      assert states[..] == Step(was, Naming(), op).states;
    }
  }

  ghost predicate HashDiffers(p: Pool, names: Names, pubkey: nat, hash: Hash) {
    exists i :: 0 <= i < |p.states| && LastPubkey(names.pubkeys, pubkey, |names.pubkeys|) == Some(i)
                && p.states[i].hash != hash
  }

  /** The nonces among the first `n` that the sweep moves to Stale. */
  function NewlyStale(names: Names, states: seq<NonceState>, op: Op, n: nat): seq<(nat, nat)>
    requires n <= |states| == |names.ids| == |names.pubkeys|
  {
    if n == 0 then []
    else NewlyStale(names, states, op, n - 1)
         + if !states[n - 1].Stale? && Next(states[n - 1], op).Stale?
           then [(names.ids[n - 1], names.pubkeys[n - 1])] else []
  }
}
