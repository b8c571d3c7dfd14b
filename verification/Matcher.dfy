/** The matcher: live attempts, an index from signatures to attempts, and one final record per attempt.
    Registrations, send outcomes, on-chain matches and deadline sweeps may interleave in any way. */
module Matcher {
  import opened Common

  /** One attempt: a trigger sent through one sender. */
  datatype Key = Key(trigger: nat, sender: nat)

  datatype Attempt = Attempt(sig: nat, observedAt: nat, acked: bool)

  datatype Outcome = LandedTentative | DedupedTentative | SendError | UnknownPending

  datatype Record = Record(key: Key, sig: nat, outcome: Outcome)

  datatype State = State(attempts: map<Key, Attempt>, index: map<nat, Key>)

  const EMPTY := State(map[], map[])

  datatype Op =
    | Register(key: Key, sig: nat, observedAt: nat)
    | Send(key: Key, failed: bool)
    | Match(sig: nat)
    | Sweep(now: nat)
    | Flush

  // ---------------------------------------------------------------- one operation

  function Expired(m: State, now: nat, deadline: nat): set<Key> {
    set k | k in m.attempts && SatSub(now, m.attempts[k].observedAt) >= deadline
  }

  function Siblings(m: State, trigger: nat): set<Key> {
    set k | k in m.attempts && k.trigger == trigger
  }

  function Sigs(m: State, keys: set<Key>): set<nat> {
    set k | k in keys && k in m.attempts :: m.attempts[k].sig
  }

  /** The final records an operation emits: at most one per attempt, with the attempt's own signature. */
  function Emitted(m: State, op: Op, deadline: nat): map<Key, Record> {
    match op
    case Register(_, _, _) => map[]
    case Send(key, failed) =>
      if key in m.attempts && failed then map[key := Record(key, m.attempts[key].sig, SendError)] else map[]
    case Match(sig) =>
      if sig !in m.index then map[]
      else map k | k in Siblings(m, m.index[sig].trigger) ::
             Record(k, m.attempts[k].sig, if k == m.index[sig] then LandedTentative else DedupedTentative)
    case Sweep(now) => Unknown(m, Expired(m, now, deadline))
    case Flush => Unknown(m, m.attempts.Keys)
  }

  function Unknown(m: State, keys: set<Key>): map<Key, Record>
    requires keys <= m.attempts.Keys
  {
    map k | k in keys :: Record(k, m.attempts[k].sig, UnknownPending)
  }

  /** A recorded attempt is gone; a match, unlike the rest, leaves the signatures in the index. */
  function Step(m: State, op: Op, deadline: nat): State {
    match op
    case Register(key, sig, at) => State(m.attempts[key := Attempt(sig, at, false)], m.index[sig := key])
    case Send(key, failed) =>
      if key !in m.attempts then m
      else if failed then State(m.attempts - {key}, m.index - {m.attempts[key].sig})
      else State(m.attempts[key := m.attempts[key].(acked := true)], m.index)
    case Match(sig) =>
      if sig !in m.index then m else State(m.attempts - Siblings(m, m.index[sig].trigger), m.index)
    case Sweep(now) => Retire(m, Expired(m, now, deadline))
    case Flush => Retire(m, m.attempts.Keys)
  }

  function Retire(m: State, keys: set<Key>): State {
    State(m.attempts - keys, m.index - Sigs(m, keys))
  }

  function Run(ops: seq<Op>, n: nat, deadline: nat): State
    requires n <= |ops|
  {
    if n == 0 then EMPTY else Step(Run(ops, n - 1, deadline), ops[n - 1], deadline)
  }

  // ---------------------------------------------------------------- one record per attempt

  function RecordsAt(ops: seq<Op>, q: nat, deadline: nat): map<Key, Record>
    requires q < |ops|
  {
    Emitted(Run(ops, q, deadline), ops[q], deadline)
  }

  function RecordCount(ops: seq<Op>, n: nat, k: Key, deadline: nat): nat
    requires n <= |ops|
  {
    if n == 0 then 0
    else RecordCount(ops, n - 1, k, deadline) + if k in RecordsAt(ops, n - 1, deadline) then 1 else 0
  }

  predicate Registers(op: Op, k: Key) {
    op.Register? && op.key == k
  }

  function Registrations(ops: seq<Op>, n: nat, k: Key): nat
    requires n <= |ops|
  {
    if n == 0 then 0 else Registrations(ops, n - 1, k) + if Registers(ops[n - 1], k) then 1 else 0
  }

  /** Registrations that overwrite a live attempt, whose record is thereby lost. */
  function Overwrites(ops: seq<Op>, n: nat, k: Key, deadline: nat): nat
    requires n <= |ops|
  {
    if n == 0 then 0
    else Overwrites(ops, n - 1, k, deadline)
         + if Registers(ops[n - 1], k) && k in Run(ops, n - 1, deadline).attempts then 1 else 0
  }

  function Live(ops: seq<Op>, n: nat, k: Key, deadline: nat): nat
    requires n <= |ops|
  {
    if k in Run(ops, n, deadline).attempts then 1 else 0
  }

  lemma RecordedIsGone(m: State, op: Op, deadline: nat, k: Key)
    ensures k in Emitted(m, op, deadline) ==> k in m.attempts && k !in Step(m, op, deadline).attempts
    ensures k in m.attempts && k !in Emitted(m, op, deadline) ==> k in Step(m, op, deadline).attempts
    ensures k !in m.attempts ==> (k in Step(m, op, deadline).attempts <==> Registers(op, k))
  {
  }

  /** In every run, each registration has led to one record, is live, or was overwritten. */
  lemma {:induction false} EveryRegistrationAccounted(ops: seq<Op>, n: nat, k: Key, deadline: nat)
    requires n <= |ops|
    ensures Registrations(ops, n, k)
            == RecordCount(ops, n, k, deadline) + Live(ops, n, k, deadline) + Overwrites(ops, n, k, deadline)
  {
    if n > 0 {
      EveryRegistrationAccounted(ops, n - 1, k, deadline);
      RecordedIsGone(Run(ops, n - 1, deadline), ops[n - 1], deadline, k);
      hide Step, Emitted;
    }
  }

  /** No attempt and no signature is registered twice. */
  ghost predicate DistinctRegistrations(ops: seq<Op>) {
    forall i, j :: 0 <= i < j < |ops| && ops[i].Register? && ops[j].Register?
                   ==> ops[i].key != ops[j].key && ops[i].sig != ops[j].sig
  }

  lemma {:induction false} RegisteredOnce(ops: seq<Op>, n: nat, k: Key)
    requires n <= |ops| && DistinctRegistrations(ops)
    ensures Registrations(ops, n, k) <= 1
    ensures Registrations(ops, n, k) == 0 <==> forall i :: 0 <= i < n ==> !Registers(ops[i], k)
  {
    if n > 0 {
      RegisteredOnce(ops, n - 1, k);
    }
  }

  lemma {:induction false} NothingOverwritten(ops: seq<Op>, n: nat, k: Key, deadline: nat)
    requires n <= |ops| && DistinctRegistrations(ops)
    ensures Overwrites(ops, n, k, deadline) == 0
  {
    if n > 0 {
      NothingOverwritten(ops, n - 1, k, deadline);
      RegisteredOnce(ops, n - 1, k);
      EveryRegistrationAccounted(ops, n - 1, k, deadline);
      hide Run, RecordCount;
    }
  }

  /** By shutdown every registered attempt has exactly one final record, and nothing else has any. */
  lemma ExactlyOneRecord(ops: seq<Op>, k: Key, deadline: nat)
    requires DistinctRegistrations(ops) && |ops| > 0 && ops[|ops| - 1].Flush?
    ensures RecordCount(ops, |ops|, k, deadline) == if exists i :: 0 <= i < |ops| && Registers(ops[i], k) then 1 else 0
  {
    EveryRegistrationAccounted(ops, |ops|, k, deadline);
    RegisteredOnce(ops, |ops|, k);
    NothingOverwritten(ops, |ops|, k, deadline);
    assert Run(ops, |ops|, deadline).attempts == map[];
  }

  // ---------------------------------------------------------------- landed and deduplicated records

  /** Operation `q` matched a signature the index knew, of trigger `trigger`. */
  predicate Hits(ops: seq<Op>, q: nat, trigger: nat, deadline: nat)
    requires q < |ops|
  {
    var index := Run(ops, q, deadline).index;
    ops[q].Match? && ops[q].sig in index && index[ops[q].sig].trigger == trigger
  }

  ghost predicate HitBefore(ops: seq<Op>, n: nat, trigger: nat, deadline: nat)
    requires n <= |ops|
  {
    exists q :: 0 <= q < n && Hits(ops, q, trigger, deadline)
  }

  ghost predicate RegisteredWith(ops: seq<Op>, n: nat, key: Key, sig: nat)
    requires n <= |ops|
  {
    exists i :: 0 <= i < n && ops[i].Register? && ops[i].key == key && ops[i].sig == sig
  }

  lemma RegisteredNext(ops: seq<Op>, n: nat, key: Key, sig: nat)
    requires n < |ops|
    ensures RegisteredWith(ops, n, key, sig) ==> RegisteredWith(ops, n + 1, key, sig)
    ensures Registers(ops[n], key) && ops[n].sig == sig ==> RegisteredWith(ops, n + 1, key, sig)
  {
    if i :| 0 <= i < n && ops[i].Register? && ops[i].key == key && ops[i].sig == sig {
      assert ops[i].Register?;
    }
  }

  /** The index and the live attempts stem from registrations. */
  ghost predicate Grounded(ops: seq<Op>, n: nat, m: State)
    requires n <= |ops|
  {
    && (forall sig :: sig in m.index ==> RegisteredWith(ops, n, m.index[sig], sig))
    && (forall k :: k in m.attempts ==> RegisteredWith(ops, n, k, m.attempts[k].sig))
  }

  lemma {:induction false} RunGrounded(ops: seq<Op>, n: nat, deadline: nat)
    requires n <= |ops|
    ensures Grounded(ops, n, Run(ops, n, deadline))
  {
    if n > 0 {
      RunGrounded(ops, n - 1, deadline);
      var was := Run(ops, n - 1, deadline);
      var m := Run(ops, n, deadline);
      forall sig | sig in m.index ensures RegisteredWith(ops, n, m.index[sig], sig) {
        RegisteredNext(ops, n - 1, m.index[sig], sig);
      }
      forall k | k in m.attempts ensures RegisteredWith(ops, n, k, m.attempts[k].sig) {
        RegisteredNext(ops, n - 1, k, m.attempts[k].sig);
      }
    }
  }

  /** A signature of a live attempt in the index is that attempt's own. */
  lemma OwnSignature(ops: seq<Op>, n: nat, deadline: nat, sig: nat)
    requires n <= |ops| && DistinctRegistrations(ops)
    requires var m := Run(ops, n, deadline); sig in m.index && m.index[sig] in m.attempts
    ensures var m := Run(ops, n, deadline); m.attempts[m.index[sig]].sig == sig
  {
    RunGrounded(ops, n, deadline);
    var m := Run(ops, n, deadline);
    hide Run;
    var k := m.index[sig];
    var i :| 0 <= i < n && ops[i].Register? && ops[i].key == k && ops[i].sig == sig;
    var j :| 0 <= j < n && ops[j].Register? && ops[j].key == k && ops[j].sig == m.attempts[k].sig;
  }

  lemma HitNext(ops: seq<Op>, n: nat, trigger: nat, deadline: nat)
    requires n < |ops|
    ensures HitBefore(ops, n + 1, trigger, deadline)
            <==> HitBefore(ops, n, trigger, deadline) || Hits(ops, n, trigger, deadline)
  {
  }

  /** Each indexed signature names a live attempt, or its trigger was matched. */
  ghost predicate Indexed(ops: seq<Op>, n: nat, m: State, deadline: nat)
    requires n <= |ops|
  {
    forall sig :: sig in m.index ==>
      m.index[sig] in m.attempts || HitBefore(ops, n, m.index[sig].trigger, deadline)
  }

  lemma IndexedStep(ops: seq<Op>, n: nat, deadline: nat, sig: nat)
    requires n < |ops| && DistinctRegistrations(ops) && Indexed(ops, n, Run(ops, n, deadline), deadline)
    requires sig in Step(Run(ops, n, deadline), ops[n], deadline).index
    ensures var m' := Step(Run(ops, n, deadline), ops[n], deadline);
            m'.index[sig] in m'.attempts || HitBefore(ops, n + 1, m'.index[sig].trigger, deadline)
  {
    var m := Run(ops, n, deadline);
    var k := Step(m, ops[n], deadline).index[sig];
    HitNext(ops, n, k.trigger, deadline);
    if sig in m.index && m.index[sig] in m.attempts {
      OwnSignature(ops, n, deadline, sig);
    }
    hide Run, HitBefore, DistinctRegistrations;
    RecordedIsGone(m, ops[n], deadline, k);
  }

  lemma {:induction false} RunIndexed(ops: seq<Op>, n: nat, deadline: nat)
    requires n <= |ops| && DistinctRegistrations(ops)
    ensures Indexed(ops, n, Run(ops, n, deadline), deadline)
  {
    if n > 0 {
      RunIndexed(ops, n - 1, deadline);
      var m := Run(ops, n, deadline);
      assert m == Step(Run(ops, n - 1, deadline), ops[n - 1], deadline);
      hide Run, Step, HitBefore, DistinctRegistrations;
      forall sig | sig in m.index
        ensures m.index[sig] in m.attempts || HitBefore(ops, n, m.index[sig].trigger, deadline)
      {
        IndexedStep(ops, n - 1, deadline, sig);
      }
    }
  }

  /** Attempt `k` is recorded as landed at operation `q`. */
  predicate Lands(ops: seq<Op>, q: nat, k: Key, deadline: nat)
    requires q < |ops|
  {
    k in RecordsAt(ops, q, deadline) && RecordsAt(ops, q, deadline)[k].outcome == LandedTentative
  }

  ghost predicate LandedBefore(ops: seq<Op>, n: nat, trigger: nat, deadline: nat)
    requires n <= |ops|
  {
    exists q, k: Key :: 0 <= q < n && k.trigger == trigger && Lands(ops, q, k, deadline)
  }

  lemma LandingHits(ops: seq<Op>, q: nat, k: Key, deadline: nat)
    requires q < |ops| && Lands(ops, q, k, deadline)
    ensures Hits(ops, q, k.trigger, deadline) && Run(ops, q, deadline).index[ops[q].sig] == k
    ensures k in Run(ops, q, deadline).attempts
  {
  }

  /** The first match of a trigger lands one of its attempts, so it was matched exactly when one landed. */
  lemma {:induction false} HitMeansLanded(ops: seq<Op>, n: nat, trigger: nat, deadline: nat)
    requires n <= |ops| && DistinctRegistrations(ops)
    ensures HitBefore(ops, n, trigger, deadline) <==> LandedBefore(ops, n, trigger, deadline)
  {
    hide Run, Lands, DistinctRegistrations;
    if LandedBefore(ops, n, trigger, deadline) {
      var q, k: Key :| 0 <= q < n && k.trigger == trigger && Lands(ops, q, k, deadline);
      LandingHits(ops, q, k, deadline);
    }
    if HitBefore(ops, n, trigger, deadline) {
      HitMeansLanded(ops, n - 1, trigger, deadline);
      if !HitBefore(ops, n - 1, trigger, deadline) {
        HitNext(ops, n - 1, trigger, deadline);
        FirstHitLands(ops, n - 1, trigger, deadline);
      }
    }
  }

  lemma FirstHitLands(ops: seq<Op>, q: nat, trigger: nat, deadline: nat)
    requires q < |ops| && DistinctRegistrations(ops) && Hits(ops, q, trigger, deadline)
    requires !HitBefore(ops, q, trigger, deadline)
    ensures Lands(ops, q, Run(ops, q, deadline).index[ops[q].sig], deadline)
  {
    RunIndexed(ops, q, deadline);
    hide Run, HitBefore, DistinctRegistrations;
  }

  /** Some operation from `p` on, before `n`, matched the trigger. */
  ghost predicate HitSince(ops: seq<Op>, p: nat, n: nat, trigger: nat, deadline: nat)
    requires n <= |ops|
  {
    exists q :: p <= q < n && Hits(ops, q, trigger, deadline)
  }

  /** While an attempt is live its trigger has not been matched since it was registered. */
  lemma {:induction false} LiveIsUnhit(ops: seq<Op>, p: nat, n: nat, k: Key, deadline: nat)
    requires p < n <= |ops| && DistinctRegistrations(ops) && Registers(ops[p], k)
    requires k in Run(ops, n, deadline).attempts
    ensures !HitSince(ops, p, n, k.trigger, deadline)
  {
    if p < n - 1 {
      RecordedIsGone(Run(ops, n - 1, deadline), ops[n - 1], deadline, k);
      assert k in Run(ops, n - 1, deadline).attempts;
      assert !Hits(ops, n - 1, k.trigger, deadline);
      LiveIsUnhit(ops, p, n - 1, k, deadline);
    }
  }

  /** Operation `j` records the attempt registered by operation `p` without a match: a failed send of it, a sweep
      past its deadline, or a flush. */
  predicate RecordsUnmatched(ops: seq<Op>, p: nat, j: nat, deadline: nat)
    requires p < |ops| && j < |ops| && ops[p].Register?
  {
    || (ops[j].Send? && ops[j].key == ops[p].key && ops[j].failed)
    || (ops[j].Sweep? && SatSub(ops[j].now, ops[p].observedAt) >= deadline)
    || ops[j].Flush?
  }

  /** Nothing from `p` on, before `n`, recorded the attempt without a match. */
  ghost predicate Spared(ops: seq<Op>, p: nat, n: nat, deadline: nat)
    requires p < |ops| && n <= |ops| && ops[p].Register?
  {
    forall j :: p < j < n ==> !RecordsUnmatched(ops, p, j, deadline)
  }

  lemma HitSinceNext(ops: seq<Op>, p: nat, n: nat, trigger: nat, deadline: nat)
    requires p <= n < |ops|
    ensures HitSince(ops, p, n + 1, trigger, deadline)
            <==> HitSince(ops, p, n, trigger, deadline) || Hits(ops, n, trigger, deadline)
  {
  }

  lemma AttemptNext(ops: seq<Op>, p: nat, n: nat, deadline: nat)
    requires p < n < |ops| && DistinctRegistrations(ops) && ops[p].Register?
    requires var m, k := Run(ops, n, deadline), ops[p].key;
             k in m.attempts ==> m.attempts[k].sig == ops[p].sig && m.attempts[k].observedAt == ops[p].observedAt
    ensures var m, m', k := Run(ops, n, deadline), Run(ops, n + 1, deadline), ops[p].key;
            && (k in m'.attempts ==> m'.attempts[k].sig == ops[p].sig && m'.attempts[k].observedAt == ops[p].observedAt)
            && (k in m'.attempts <==>
                  k in m.attempts && !RecordsUnmatched(ops, p, n, deadline) && !Hits(ops, n, k.trigger, deadline))
  {
    var m := Run(ops, n, deadline);
    assert Run(ops, n + 1, deadline) == Step(m, ops[n], deadline);
    hide Run;
  }

  /** An attempt is live exactly while nothing has recorded it: no failed send of it, no sweep past its deadline, no
      flush, and no match of its trigger. */
  lemma {:induction false} LiveExactly(ops: seq<Op>, p: nat, n: nat, deadline: nat)
    requires p < n <= |ops| && DistinctRegistrations(ops) && ops[p].Register?
    ensures var m, k := Run(ops, n, deadline), ops[p].key;
            && (k in m.attempts ==> m.attempts[k].sig == ops[p].sig && m.attempts[k].observedAt == ops[p].observedAt)
            && (k in m.attempts <==> Spared(ops, p, n, deadline) && !HitSince(ops, p, n, k.trigger, deadline))
  {
    if n == p + 1 {
      assert !Hits(ops, p, ops[p].key.trigger, deadline);
    } else {
      LiveExactly(ops, p, n - 1, deadline);
      AttemptNext(ops, p, n - 1, deadline);
      HitSinceNext(ops, p, n - 1, ops[p].key.trigger, deadline);
      SparedNext(ops, p, n - 1, deadline);
      hide Run, Hits, HitSince, Spared, RecordsUnmatched, DistinctRegistrations;
    }
  }

  lemma SparedNext(ops: seq<Op>, p: nat, n: nat, deadline: nat)
    requires p < n < |ops| && ops[p].Register?
    ensures Spared(ops, p, n + 1, deadline) <==> Spared(ops, p, n, deadline) && !RecordsUnmatched(ops, p, n, deadline)
  {
    hide RecordsUnmatched;
  }

  /** Exactly when an attempt lands, decided by what was asked for since its registration: its own signature is
      matched before any failed send of it, any sweep past its deadline, any flush and any match of its trigger. */
  lemma LandsExactly(ops: seq<Op>, p: nat, q: nat, deadline: nat)
    requires p < q < |ops| && DistinctRegistrations(ops) && ops[p].Register?
    ensures Lands(ops, q, ops[p].key, deadline)
            <==> MatchedFirst(ops, p, q, deadline)
  {
    var k := ops[p].key;
    LiveExactly(ops, p, q, deadline);
    if Lands(ops, q, k, deadline) {
      LandingHits(ops, q, k, deadline);
      OwnSignature(ops, q, deadline, ops[q].sig);
    }
    if k in Run(ops, q, deadline).attempts {
      LiveIsIndexed(ops, p, q, deadline);
    }
    hide Run, Spared, HitSince, DistinctRegistrations;
  }

  /** The signature of a live attempt leads to it. */
  lemma {:induction false} LiveIsIndexed(ops: seq<Op>, p: nat, n: nat, deadline: nat)
    requires p < n <= |ops| && DistinctRegistrations(ops) && ops[p].Register?
    requires ops[p].key in Run(ops, n, deadline).attempts
    ensures var m := Run(ops, n, deadline); ops[p].sig in m.index && m.index[ops[p].sig] == ops[p].key
  {
    if n > p + 1 {
      RecordedIsGone(Run(ops, n - 1, deadline), ops[n - 1], deadline, ops[p].key);
      assert ops[p].key in Run(ops, n - 1, deadline).attempts;
      LiveIsIndexed(ops, p, n - 1, deadline);
      IndexStays(ops, p, n - 1, deadline);
    }
  }

  lemma IndexStays(ops: seq<Op>, p: nat, n: nat, deadline: nat)
    requires p < n < |ops| && DistinctRegistrations(ops) && ops[p].Register?
    requires ops[p].key in Run(ops, n, deadline).attempts && ops[p].key in Run(ops, n + 1, deadline).attempts
    requires var m := Run(ops, n, deadline); ops[p].sig in m.index && m.index[ops[p].sig] == ops[p].key
    ensures var m := Run(ops, n + 1, deadline); ops[p].sig in m.index && m.index[ops[p].sig] == ops[p].key
  {
    var m, sig, k := Run(ops, n, deadline), ops[p].sig, ops[p].key;
    assert Run(ops, n + 1, deadline) == Step(m, ops[n], deadline);
    assert ops[n].Register? ==> ops[n].sig != sig;
    forall j | j in m.attempts && m.attempts[j].sig == sig ensures j == k {
      SignatureIsOwn(ops, n, deadline, j, k);
    }
    hide Run, DistinctRegistrations;
  }

  /** Two live attempts never share a signature. */
  lemma SignatureIsOwn(ops: seq<Op>, n: nat, deadline: nat, j: Key, k: Key)
    requires n <= |ops| && DistinctRegistrations(ops)
    requires var m := Run(ops, n, deadline);
             j in m.attempts && m.attempts[j].sig in m.index && m.index[m.attempts[j].sig] == k
    ensures j == k
  {
    RunGrounded(ops, n, deadline);
    var m := Run(ops, n, deadline);
    hide Run;
    var a :| 0 <= a < n && ops[a].Register? && ops[a].key == j && ops[a].sig == m.attempts[j].sig;
    var b :| 0 <= b < n && ops[b].Register? && ops[b].key == k && ops[b].sig == m.attempts[j].sig;
  }

  /** Nothing took the attempt's signature out of the index: whatever recorded the attempt without a match came after
      a match of its trigger. */
  ghost predicate StaysIndexed(ops: seq<Op>, p: nat, n: nat, deadline: nat)
    requires p < |ops| && n <= |ops| && ops[p].Register?
  {
    forall j :: p < j < n && RecordsUnmatched(ops, p, j, deadline) ==> HitSince(ops, p, j, ops[p].key.trigger, deadline)
  }

  lemma IndexNext(ops: seq<Op>, p: nat, n: nat, deadline: nat)
    requires p < n < |ops| && DistinctRegistrations(ops) && ops[p].Register?
    requires var m := Run(ops, n, deadline); ops[p].sig in m.index ==> m.index[ops[p].sig] == ops[p].key
    requires var m, k := Run(ops, n, deadline), ops[p].key;
             k in m.attempts ==> m.attempts[k].sig == ops[p].sig && m.attempts[k].observedAt == ops[p].observedAt
    ensures var m, m', sig := Run(ops, n, deadline), Run(ops, n + 1, deadline), ops[p].sig;
            && (sig in m'.index ==> m'.index[sig] == ops[p].key)
            && (sig in m'.index <==>
                  sig in m.index && !(ops[p].key in m.attempts && RecordsUnmatched(ops, p, n, deadline)))
  {
    var m, sig, k := Run(ops, n, deadline), ops[p].sig, ops[p].key;
    assert Run(ops, n + 1, deadline) == Step(m, ops[n], deadline);
    assert ops[n].Register? ==> ops[n].sig != sig;
    if sig in m.index {
      forall j | j in m.attempts && m.attempts[j].sig == sig ensures j == k {
        SignatureIsOwn(ops, n, deadline, j, k);
      }
    }
    hide Run, DistinctRegistrations;
  }

  /** Exactly when the index still knows an attempt's signature. */
  lemma {:induction false} IndexedExactly(ops: seq<Op>, p: nat, n: nat, deadline: nat)
    requires p < n <= |ops| && DistinctRegistrations(ops) && ops[p].Register?
    ensures var m, sig := Run(ops, n, deadline), ops[p].sig;
            && (sig in m.index ==> m.index[sig] == ops[p].key)
            && (sig in m.index <==> StaysIndexed(ops, p, n, deadline))
  {
    if n > p + 1 {
      IndexedExactly(ops, p, n - 1, deadline);
      LiveExactly(ops, p, n - 1, deadline);
      IndexNext(ops, p, n - 1, deadline);
      StaysNext(ops, p, n - 1, deadline);
      hide Run, StaysIndexed, Spared, HitSince, RecordsUnmatched, DistinctRegistrations;
    }
  }

  lemma StaysNext(ops: seq<Op>, p: nat, n: nat, deadline: nat)
    requires p < n < |ops| && ops[p].Register?
    ensures StaysIndexed(ops, p, n + 1, deadline)
            <==> && StaysIndexed(ops, p, n, deadline)
                 && !(Spared(ops, p, n, deadline) && !HitSince(ops, p, n, ops[p].key.trigger, deadline)
                      && RecordsUnmatched(ops, p, n, deadline))
  {
    hide RecordsUnmatched, Hits;
    forall j | p < j < n && HitSince(ops, p, j, ops[p].key.trigger, deadline)
      ensures HitSince(ops, p, n, ops[p].key.trigger, deadline)
    {
    }
  }

  /** Exactly which operations match a trigger: a match of the signature of one of its attempts, registered before
      and not recorded without a match since, unless after an earlier match of the trigger. */
  lemma HitsExactly(ops: seq<Op>, q: nat, trigger: nat, deadline: nat)
    requires q < |ops| && DistinctRegistrations(ops)
    ensures Hits(ops, q, trigger, deadline)
            <==> ops[q].Match? && exists p :: 0 <= p < q && NamedBy(ops, p, ops[q].sig, trigger)
                                              && StaysIndexed(ops, p, q, deadline)
  {
    if Hits(ops, q, trigger, deadline) {
      RunGrounded(ops, q, deadline);
      var key := Run(ops, q, deadline).index[ops[q].sig];
      var p :| 0 <= p < q && ops[p].Register? && ops[p].key == key && ops[p].sig == ops[q].sig;
      IndexedExactly(ops, p, q, deadline);
      assert NamedBy(ops, p, ops[q].sig, trigger);
    }
    hide StaysIndexed, DistinctRegistrations, Run;
    if ops[q].Match? {
      forall p | 0 <= p < q && NamedBy(ops, p, ops[q].sig, trigger) && StaysIndexed(ops, p, q, deadline)
        ensures Hits(ops, q, trigger, deadline)
      {
        IndexedExactly(ops, p, q, deadline);
      }
    }
  }

  predicate NamedBy(ops: seq<Op>, p: nat, sig: nat, trigger: nat) {
    p < |ops| && ops[p].Register? && ops[p].sig == sig && ops[p].key.trigger == trigger
  }

  /** Exactly when a landing is not its trigger's first: the trigger had been matched before the attempt
      that lands was even registered. */
  lemma LandsAgainExactly(ops: seq<Op>, p: nat, q: nat, k: Key, deadline: nat)
    requires p < q < |ops| && DistinctRegistrations(ops) && Registers(ops[p], k) && Lands(ops, q, k, deadline)
    ensures LandedBefore(ops, q, k.trigger, deadline) <==> HitBefore(ops, p, k.trigger, deadline)
  {
    LandingHits(ops, q, k, deadline);
    hide Run, Lands;
    HitMeansLanded(ops, q, k.trigger, deadline);
    LiveIsUnhit(ops, p, q, k, deadline);
    hide DistinctRegistrations, Hits;
    if HitBefore(ops, q, k.trigger, deadline) {
      var h :| 0 <= h < q && Hits(ops, h, k.trigger, deadline);
      assert h < p;
    }
  }

  ghost predicate LandsTwice(ops: seq<Op>, trigger: nat, deadline: nat) {
    exists q, k: Key :: 0 <= q < |ops| && k.trigger == trigger && Lands(ops, q, k, deadline)
                        && LandedBefore(ops, q, trigger, deadline)
  }

  /** An attempt registered after its trigger was matched has its own signature matched in time. */
  ghost predicate LateAttemptLands(ops: seq<Op>, trigger: nat, deadline: nat) {
    exists p, q :: 0 <= p < q < |ops| && ops[p].Register? && ops[p].key.trigger == trigger
                   && HitBefore(ops, p, trigger, deadline) && MatchedFirst(ops, p, q, deadline)
  }

  /** The attempt's own signature is matched at `q` before anything else could record it. */
  ghost predicate MatchedFirst(ops: seq<Op>, p: nat, q: nat, deadline: nat)
    requires p < q < |ops| && ops[p].Register?
  {
    && ops[q].Match? && ops[q].sig == ops[p].sig
    && Spared(ops, p, q, deadline) && !HitSince(ops, p, q, ops[p].key.trigger, deadline)
  }

  /** A trigger lands at most once exactly when no attempt registered after its first match lands. */
  lemma AtMostOneLanded(ops: seq<Op>, trigger: nat, deadline: nat)
    requires DistinctRegistrations(ops)
    ensures LandsTwice(ops, trigger, deadline) <==> LateAttemptLands(ops, trigger, deadline)
  {
    hide Run, Lands, LandedBefore, HitBefore, MatchedFirst, DistinctRegistrations;
    if LateAttemptLands(ops, trigger, deadline) {
      var p, q :| 0 <= p < q < |ops| && ops[p].Register? && ops[p].key.trigger == trigger
                  && HitBefore(ops, p, trigger, deadline) && MatchedFirst(ops, p, q, deadline);
      LandsExactly(ops, p, q, deadline);
      LandsAgainExactly(ops, p, q, ops[p].key, deadline);
    }
    if LandsTwice(ops, trigger, deadline) {
      var q, k: Key :| 0 <= q < |ops| && k.trigger == trigger && Lands(ops, q, k, deadline)
                       && LandedBefore(ops, q, trigger, deadline);
      LandingHits(ops, q, k, deadline);
      RunGrounded(ops, q, deadline);
      var p :| 0 <= p < q && Registers(ops[p], k);
      LandsAgainExactly(ops, p, q, k, deadline);
      LandsExactly(ops, p, q, deadline);
    }
  }

  /** The attempt that lands is the one whose own signature was seen on chain, and its record says so. */
  lemma LandedIsTheMatched(ops: seq<Op>, q: nat, k: Key, deadline: nat)
    requires q < |ops| && DistinctRegistrations(ops) && Lands(ops, q, k, deadline)
    ensures ops[q].Match? && RecordsAt(ops, q, deadline)[k] == Record(k, ops[q].sig, LandedTentative)
  {
    LandingHits(ops, q, k, deadline);
    OwnSignature(ops, q, deadline, ops[q].sig);
    hide Run, DistinctRegistrations;
  }

  /** Nothing is deduplicated unless a sibling landed, in the same step if the trigger was not matched
      before. */
  lemma DedupedNeedsLanded(ops: seq<Op>, q: nat, k: Key, deadline: nat)
    requires q < |ops| && DistinctRegistrations(ops)
    requires k in RecordsAt(ops, q, deadline) && RecordsAt(ops, q, deadline)[k].outcome == DedupedTentative
    ensures LandedBefore(ops, q + 1, k.trigger, deadline)
    ensures !HitBefore(ops, q, k.trigger, deadline) ==>
              exists w: Key :: w != k && w.trigger == k.trigger && Lands(ops, q, w, deadline)
  {
    assert Hits(ops, q, k.trigger, deadline);
    var w := Run(ops, q, deadline).index[ops[q].sig];
    assert w != k && w.trigger == k.trigger;
    hide Run, DistinctRegistrations, LandedBefore;
    HitNext(ops, q, k.trigger, deadline);
    HitMeansLanded(ops, q + 1, k.trigger, deadline);
    if !HitBefore(ops, q, k.trigger, deadline) {
      FirstHitLands(ops, q, k.trigger, deadline);
    }
  }

  /** An attempt registered after its trigger landed can land too, by its own signature. */
  lemma LateSiblingLandsAgain(t: nat, deadline: nat)
    ensures var ops := [Register(Key(t, 0), 10, 0), Match(10), Register(Key(t, 1), 11, 0), Match(11)];
            && DistinctRegistrations(ops)
            && RecordsAt(ops, 1, deadline) == map[Key(t, 0) := Record(Key(t, 0), 10, LandedTentative)]
            && RecordsAt(ops, 3, deadline) == map[Key(t, 1) := Record(Key(t, 1), 11, LandedTentative)]
  {
    var ops := [Register(Key(t, 0), 10, 0), Match(10), Register(Key(t, 1), 11, 0), Match(11)];
    var a0 := map[Key(t, 0) := Attempt(10, 0, false)];
    var a1 := map[Key(t, 1) := Attempt(11, 0, false)];
    assert Run(ops, 1, deadline) == State(a0, map[10 := Key(t, 0)]);
    assert a0 - Siblings(Run(ops, 1, deadline), t) == map[];
    assert Run(ops, 2, deadline) == State(map[], map[10 := Key(t, 0)]);
    assert Run(ops, 3, deadline) == State(a1, map[10 := Key(t, 0), 11 := Key(t, 1)]);
  }

  // ---------------------------------------------------------------- the cause of every record

  /** The attempt registered by `p` is live before `q`, read off the operations: nothing has recorded it. */
  ghost predicate LiveAt(ops: seq<Op>, p: nat, q: nat, deadline: nat)
    requires p < q <= |ops| && ops[p].Register?
  {
    Spared(ops, p, q, deadline) && !HitSince(ops, p, q, ops[p].key.trigger, deadline)
  }

  /** A sibling's signature, which the index still knows, is matched. */
  ghost predicate SiblingMatched(ops: seq<Op>, p: nat, q: nat, deadline: nat)
    requires p < q < |ops| && ops[p].Register?
  {
    ops[q].Match? && exists o :: 0 <= o < q && SiblingOf(ops, p, o) && ops[o].sig == ops[q].sig
                                 && StaysIndexed(ops, o, q, deadline)
  }

  /** Operation `o` registers another attempt of the same trigger. */
  predicate SiblingOf(ops: seq<Op>, p: nat, o: nat)
    requires p < |ops| && ops[p].Register?
  {
    o < |ops| && ops[o].Register? && ops[o].key.trigger == ops[p].key.trigger && ops[o].key != ops[p].key
  }

  /** Why operation `q` gives the attempt registered by `p` a record with this outcome: its own signature is matched,
      a sibling's is, its send failed, or its deadline passed or everything was flushed; and it is live. */
  ghost predicate Explains(ops: seq<Op>, p: nat, q: nat, outcome: Outcome, deadline: nat)
    requires p < q < |ops| && ops[p].Register?
  {
    && LiveAt(ops, p, q, deadline)
    && match outcome
       case LandedTentative => ops[q].Match? && ops[q].sig == ops[p].sig
       case DedupedTentative => SiblingMatched(ops, p, q, deadline)
       case SendError => ops[q].Send? && ops[q].key == ops[p].key && ops[q].failed
       case UnknownPending =>
         || ops[q].Flush?
         || (ops[q].Sweep?
             && (if ops[q].now > ops[p].observedAt then ops[q].now - ops[p].observedAt else 0) >= deadline)
  }

  /** What the record of a live attempt says, given the state before the operation. */
  lemma RecordOf(m: State, op: Op, deadline: nat, k: Key)
    requires k in m.attempts
    ensures var e, at := Emitted(m, op, deadline), m.attempts[k].observedAt;
            match op
            case Register(_, _, _) => k !in e
            case Send(key, failed) =>
              if key == k && failed then k in e && e[k] == Record(k, m.attempts[k].sig, SendError) else k !in e
            case Match(sig) =>
              if sig in m.index && m.index[sig].trigger == k.trigger
              then k in e && e[k] == Record(k, m.attempts[k].sig,
                                            if m.index[sig] == k then LandedTentative else DedupedTentative)
              else k !in e
            case Sweep(now) =>
              if (if now > at then now - at else 0) >= deadline
              then k in e && e[k] == Record(k, m.attempts[k].sig, UnknownPending) else k !in e
            case Flush => k in e && e[k] == Record(k, m.attempts[k].sig, UnknownPending)
  {
  }

  /** A matched signature the index knows is of some attempt registered before. */
  lemma MatchedIs(ops: seq<Op>, p: nat, q: nat, deadline: nat)
    requires p < q < |ops| && DistinctRegistrations(ops) && ops[p].Register? && ops[q].Match?
    ensures var m := Run(ops, q, deadline);
            (ops[q].sig in m.index && m.index[ops[q].sig] != ops[p].key
             && m.index[ops[q].sig].trigger == ops[p].key.trigger)
            <==> SiblingMatched(ops, p, q, deadline)
  {
    var m, sig := Run(ops, q, deadline), ops[q].sig;
    RunGrounded(ops, q, deadline);
    if sig in m.index && m.index[sig].trigger == ops[p].key.trigger && m.index[sig] != ops[p].key {
      var o :| 0 <= o < q && ops[o].Register? && ops[o].key == m.index[sig] && ops[o].sig == sig;
      IndexedExactly(ops, o, q, deadline);
      assert SiblingOf(ops, p, o);
    }
    hide Run, StaysIndexed, DistinctRegistrations;
    forall o | 0 <= o < q && SiblingOf(ops, p, o) && ops[o].sig == sig && StaysIndexed(ops, o, q, deadline)
      ensures sig in m.index && m.index[sig] == ops[o].key
    {
      IndexedExactly(ops, o, q, deadline);
    }
  }

  /** The cause of every record, read off the operations: with distinct registrations, an operation gives an attempt a
      record with some outcome exactly when it explains that outcome, and then with the registered signature. */
  lemma RecordsExactly(ops: seq<Op>, p: nat, q: nat, outcome: Outcome, deadline: nat)
    requires p < q < |ops| && DistinctRegistrations(ops) && ops[p].Register?
    ensures var k, e := ops[p].key, RecordsAt(ops, q, deadline);
            && (k in e && e[k].outcome == outcome <==> Explains(ops, p, q, outcome, deadline))
            && (k in e ==> e[k].key == k && e[k].sig == ops[p].sig)
  {
    var m, k := Run(ops, q, deadline), ops[p].key;
    LiveExactly(ops, p, q, deadline);
    if k in m.attempts {
      RecordOf(m, ops[q], deadline, k);
      if ops[q].Match? {
        MatchedIs(ops, p, q, deadline);
        LiveIsIndexed(ops, p, q, deadline);
        if ops[q].sig in m.index && m.index[ops[q].sig] == k {
          OwnSignature(ops, q, deadline, ops[q].sig);
        }
      }
    } else {
      RecordedIsGone(m, ops[q], deadline, k);
    }
    hide Run, Spared, HitSince, SiblingMatched, DistinctRegistrations, Emitted;
  }

  /** An attempt is recorded by nothing before it is registered, nor by its registration. */
  lemma NotRecordedEarly(ops: seq<Op>, p: nat, q: nat, deadline: nat)
    requires q <= p < |ops| && DistinctRegistrations(ops) && ops[p].Register?
    ensures ops[p].key !in RecordsAt(ops, q, deadline)
  {
    RunGrounded(ops, q, deadline);
    RecordedIsGone(Run(ops, q, deadline), ops[q], deadline, ops[p].key);
    hide Run, Emitted, Step;
  }

  /** A live attempt counts as acknowledged exactly when some send of it since its registration did not fail. */
  lemma {:induction false} AckedExactly(ops: seq<Op>, p: nat, n: nat, deadline: nat)
    requires p < n <= |ops| && DistinctRegistrations(ops) && ops[p].Register?
    requires ops[p].key in Run(ops, n, deadline).attempts
    ensures Run(ops, n, deadline).attempts[ops[p].key].acked
            <==> exists j :: p < j < n && ops[j] == Send(ops[p].key, false)
  {
    if n > p + 1 {
      RecordedIsGone(Run(ops, n - 1, deadline), ops[n - 1], deadline, ops[p].key);
      assert ops[p].key in Run(ops, n - 1, deadline).attempts;
      AckedExactly(ops, p, n - 1, deadline);
    }
  }

  // ---------------------------------------------------------------- the matcher object

  /** `rs` lists the records `e`, each once, in some order. */
  ghost predicate Lists(rs: seq<Record>, e: map<Key, Record>) {
    && (forall i :: 0 <= i < |rs| ==> rs[i].key in e && e[rs[i].key] == rs[i])
    && (forall i, j :: 0 <= i < j < |rs| ==> rs[i].key != rs[j].key)
    && (forall k :: k in e ==> exists i :: 0 <= i < |rs| && rs[i].key == k)
  }

  lemma ListsSnoc(rs: seq<Record>, e: map<Key, Record>, r: Record)
    requires Lists(rs, e) && r.key !in e
    ensures Lists(rs + [r], e[r.key := r])
  {
    var rs' := rs + [r];
    assert rs'[|rs|] == r;
    forall k | k in e ensures exists i :: 0 <= i < |rs'| && rs'[i].key == k {
      var i :| 0 <= i < |rs| && rs[i].key == k;
      assert rs'[i].key == k;
    }
  }

  /** The records `done` have been appended to `was`. */
  ghost predicate Appended(was: seq<Record>, finals: seq<Record>, done: map<Key, Record>) {
    |was| <= |finals| && finals[..|was|] == was && Lists(finals[|was|..], done)
  }

  lemma NothingAppended(was: seq<Record>)
    ensures Appended(was, was, map[])
  {
    assert was[..|was|] == was && was[|was|..] == [];
  }

  lemma AppendedSnoc(was: seq<Record>, finals: seq<Record>, done: map<Key, Record>, r: Record)
    requires Appended(was, finals, done) && r.key !in done
    ensures Appended(was, finals + [r], done[r.key := r])
  {
    ListsSnoc(finals[|was|..], done, r);
    assert (finals + [r])[|was|..] == finals[|was|..] + [r];
    assert (finals + [r])[..|was|] == finals[..|was|];
  }

  class Matcher {
    var attempts: map<Key, Attempt>
    var sigToKey: map<nat, Key>
    var finals: seq<Record>
    const deadline: nat

    constructor (deadline: nat)
      ensures Value() == EMPTY && finals == [] && this.deadline == deadline
    {
      attempts, sigToKey, finals, this.deadline := map[], map[], [], deadline;
    }

    ghost function Value(): State
      reads this
    {
      State(attempts, sigToKey)
    }

    /** The state follows the specification, and exactly the specified records were appended. */
    twostate predicate Did(op: Op)
      reads this
    {
      Value() == Step(old(Value()), op, deadline)
      && Appended(old(finals), finals, Emitted(old(Value()), op, deadline))
    }

    method RegisterAttempt(key: Key, sig: nat, observedAt: nat)
      modifies this
      ensures Did(Register(key, sig, observedAt))
    {
      NothingAppended(finals);
      sigToKey := sigToKey[sig := key];
      attempts := attempts[key := Attempt(sig, observedAt, false)];
    }

    method HandleSendEvent(key: Key, failed: bool)
      modifies this
      ensures Did(Send(key, failed))
    {
      NothingAppended(finals);
      if key !in attempts {
        return;
      }
      var rec := attempts[key];
      if failed {
        var record := Record(key, rec.sig, SendError);
        AppendedSnoc(finals, finals, map[], record);
        finals := finals + [record];
        sigToKey := sigToKey - {rec.sig};
        attempts := attempts - {key};
      } else {
        attempts := attempts[key := rec.(acked := true)];
      }
    }

    method HandleMatchEvent(sig: nat)
      modifies this
      ensures Did(Match(sig))
    {
      NothingAppended(finals);
      if sig !in sigToKey {
        return;
      }
      var winner := sigToKey[sig];
      var siblings := set k | k in attempts && k.trigger == winner.trigger;
      ghost var target := Emitted(Value(), Match(sig), deadline);
      ghost var done: map<Key, Record> := map[];
      hide Appended;
      var todo := siblings;
      while todo != {}
        invariant todo <= siblings && unchanged(`attempts) && unchanged(`sigToKey)
        invariant Appended(old(finals), finals, done)
        invariant done.Keys == siblings - todo && forall k :: k in done ==> done[k] == target[k]
        decreases |todo|
      {
        var key :| key in todo;
        var outcome := if key == winner then LandedTentative else DedupedTentative;
        var record := Record(key, attempts[key].sig, outcome);
        AppendedSnoc(old(finals), finals, done, record);
        done := done[key := record];
        finals := finals + [record];
        todo := todo - {key};
      }
      assert done == target;
      attempts := attempts - siblings;
    }

    /** The body of the deadline sweep and of the shutdown flush: remove, unindex, record. */
    method RetireOne(key: Key, ghost was: State, ghost gone: set<Key>)
      requires gone <= was.attempts.Keys && key in was.attempts && key !in gone && Value() == Retire(was, gone)
      modifies this
      ensures Value() == Retire(was, gone + {key})
      ensures finals == old(finals) + [Record(key, was.attempts[key].sig, UnknownPending)]
    {
      RetireOneMore(was, gone, key);
      var rec := attempts[key];
      attempts := attempts - {key};
      sigToKey := sigToKey - {rec.sig};
      finals := finals + [Record(key, rec.sig, UnknownPending)];
    }

    method RetireAll(keys: set<Key>)
      requires keys <= attempts.Keys
      modifies this
      ensures Value() == Retire(old(Value()), keys)
      ensures Appended(old(finals), finals, Unknown(old(Value()), keys))
    {
      NothingAppended(finals);
      hide Appended, Retire;
      ghost var was := Value();
      ghost var gone: set<Key> := {};
      ghost var done: map<Key, Record> := map[];
      RetireNone(was);
      var todo := keys;
      while todo != {}
        invariant todo <= keys <= was.attempts.Keys && gone == keys - todo && Value() == Retire(was, gone)
        invariant Appended(old(finals), finals, done)
        invariant done == Unknown(was, gone)
        decreases |todo|
      {
        var key :| key in todo;
        AppendedSnoc(old(finals), finals, done, Record(key, was.attempts[key].sig, UnknownPending));
        RetireOne(key, was, gone);
        gone := gone + {key};
        done := done[key := Record(key, was.attempts[key].sig, UnknownPending)];
        todo := todo - {key};
      }
      assert gone == keys;
    }

    method SweepDeadlines(now: nat)
      modifies this
      ensures Did(Sweep(now))
    {
      var expired := set k | k in attempts && SatSub(now, attempts[k].observedAt) >= deadline;
      RetireAll(expired);
    }

    method ShutdownFlush()
      modifies this
      ensures Did(Flush) && attempts == map[]
    {
      RetireAll(attempts.Keys);
    }

    method Handle(op: Op)
      modifies this
      ensures Did(op)
    {
      match op
      case Register(key, sig, observedAt) => RegisterAttempt(key, sig, observedAt);
      case Send(key, failed) => HandleSendEvent(key, failed);
      case Match(sig) => HandleMatchEvent(sig);
      case Sweep(now) => SweepDeadlines(now);
      case Flush => ShutdownFlush();
    }

    /** A whole run and its shutdown flush: the records sent are those of the specification, so with distinct
        registrations each registered attempt has exactly one. */
    method RunLoop(ops: seq<Op>)
      requires Value() == EMPTY && finals == []
      modifies this
      ensures var all := ops + [Flush];
              && attempts == map[] && Value() == Run(all, |all|, deadline)
              && (forall k :: KeyCount(finals, k) == RecordCount(all, |all|, k, deadline))
              && (forall r :: multiset(finals)[r] == RecordTimes(all, |all|, r, deadline))
    {
      ghost var all := ops + [Flush];
      for n := 0 to |ops|
        invariant Value() == Run(all, n, deadline)
        invariant forall k :: KeyCount(finals, k) == RecordCount(all, n, k, deadline)
        invariant forall r :: multiset(finals)[r] == RecordTimes(all, n, r, deadline)
      {
        ghost var was := finals;
        Handle(ops[n]);
        RecordsNext(all, n, was, finals, deadline);
      }
      ghost var was := finals;
      ShutdownFlush();
      RecordsNext(all, |ops|, was, finals, deadline);
    }
  }

  function KeyCount(rs: seq<Record>, k: Key): nat {
    if rs == [] then 0 else KeyCount(rs[..|rs| - 1], k) + if rs[|rs| - 1].key == k then 1 else 0
  }

  /** How often operations before `n` emitted this record. */
  function RecordTimes(ops: seq<Op>, n: nat, r: Record, deadline: nat): nat
    requires n <= |ops|
  {
    if n == 0 then 0
    else
      var e := RecordsAt(ops, n - 1, deadline);
      RecordTimes(ops, n - 1, r, deadline) + if r.key in e && e[r.key] == r then 1 else 0
  }

  lemma {:induction false} KeyCountAppend(a: seq<Record>, b: seq<Record>, k: Key)
    ensures KeyCount(a + b, k) == KeyCount(a, k) + KeyCount(b, k)
    decreases |b|
  {
    if b == [] {
      assert a + b == a;
    } else {
      KeyCountAppend(a, b[..|b| - 1], k);
      assert (a + b)[..|a + b| - 1] == a + b[..|b| - 1];
    }
  }

  lemma {:induction false} KeyCountOnce(rs: seq<Record>, k: Key)
    requires forall i, j :: 0 <= i < j < |rs| ==> rs[i].key != rs[j].key
    ensures KeyCount(rs, k) == if exists i :: 0 <= i < |rs| && rs[i].key == k then 1 else 0
  {
    if rs != [] {
      KeyCountOnce(rs[..|rs| - 1], k);
      if i :| 0 <= i < |rs| - 1 && rs[i].key == k {
        assert rs[..|rs| - 1][i].key == k;
      }
    }
  }

  lemma AppendedCount(was: seq<Record>, finals: seq<Record>, e: map<Key, Record>, k: Key)
    requires Appended(was, finals, e)
    ensures KeyCount(finals, k) == KeyCount(was, k) + if k in e then 1 else 0
  {
    var added := finals[|was|..];
    assert finals == was + added;
    KeyCountAppend(was, added, k);
    KeyCountOnce(added, k);
  }

  lemma {:induction false} RecordedOnce(rs: seq<Record>, r: Record)
    requires forall i, j :: 0 <= i < j < |rs| ==> rs[i].key != rs[j].key
    ensures multiset(rs)[r] == if r in rs then 1 else 0
  {
    if rs != [] {
      var before, last := rs[..|rs| - 1], rs[|rs| - 1];
      RecordedOnce(before, r);
      assert rs == before + [last];
      assert last !in before;
    }
  }

  lemma AppendedTimes(was: seq<Record>, finals: seq<Record>, e: map<Key, Record>, r: Record)
    requires Appended(was, finals, e)
    ensures multiset(finals)[r] == multiset(was)[r] + if r.key in e && e[r.key] == r then 1 else 0
  {
    var added := finals[|was|..];
    assert finals == was + added;
    RecordedOnce(added, r);
    if r.key in e && e[r.key] == r {
      var i :| 0 <= i < |added| && added[i].key == r.key;
      assert added[i] == r;
    }
  }

  lemma RecordsNext(ops: seq<Op>, n: nat, was: seq<Record>, finals: seq<Record>, deadline: nat)
    requires n < |ops| && Appended(was, finals, RecordsAt(ops, n, deadline))
    requires forall k :: KeyCount(was, k) == RecordCount(ops, n, k, deadline)
    requires forall r :: multiset(was)[r] == RecordTimes(ops, n, r, deadline)
    ensures forall k :: KeyCount(finals, k) == RecordCount(ops, n + 1, k, deadline)
    ensures forall r :: multiset(finals)[r] == RecordTimes(ops, n + 1, r, deadline)
  {
    hide RecordsAt, Appended;
    forall k ensures KeyCount(finals, k) == RecordCount(ops, n + 1, k, deadline) {
      AppendedCount(was, finals, RecordsAt(ops, n, deadline), k);
    }
    forall r ensures multiset(finals)[r] == RecordTimes(ops, n + 1, r, deadline) {
      AppendedTimes(was, finals, RecordsAt(ops, n, deadline), r);
    }
  }

  lemma RetireNone(m: State)
    ensures Retire(m, {}) == m
  {
    assert Sigs(m, {}) == {};
  }

  lemma RetireOneMore(was: State, gone: set<Key>, key: Key)
    requires gone <= was.attempts.Keys && key in was.attempts && key !in gone
    ensures var m := Retire(was, gone);
            && key in m.attempts && m.attempts[key] == was.attempts[key]
            && Retire(was, gone + {key}) == State(m.attempts - {key}, m.index - {m.attempts[key].sig})
  {
    assert Sigs(was, gone + {key}) == Sigs(was, gone) + {was.attempts[key].sig};
  }
}
