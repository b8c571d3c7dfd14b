/** What the recorder must do, said on its inputs alone: which attempts are live and what is known of each, which row
    each event writes, which round trips and landing times are measured, and which senders and triggers have
    figures. No law here goes through the functions that update the recorder's state. */
module RecordingLaws {
  import opened Common
  import opened Recording

  /** Input `p` registers `k`, and nothing before input `n` registers it again. */
  predicate LastRegistered(ops: seq<Op>, p: nat, n: nat, k: Key)
    requires n <= |ops|
  {
    p < n && Registers(ops[p], k) && forall i :: p < i < n ==> !Registers(ops[i], k)
  }

  predicate Registers(op: Op, k: Key) {
    op.Register? && op.key == k
  }

  predicate Sends(op: Op, k: Key) {
    op.Send? && op.key == k
  }

  /** The latest send of `k` among the inputs from `lo` to `hi` was at `at`; none if there was none. */
  ghost predicate LastSent(ops: seq<Op>, lo: nat, hi: nat, k: Key, at: Option<nat>)
    requires hi <= |ops|
  {
    match at
    case None => forall i :: lo <= i < hi ==> !Sends(ops[i], k)
    case Some(t) =>
      exists i :: lo <= i < hi && Sends(ops[i], k) && ops[i].sendAt == t
                  && forall j :: i < j < hi ==> !Sends(ops[j], k)
  }

  lemma SentNext(ops: seq<Op>, lo: nat, n: nat, k: Key, at: Option<nat>)
    requires lo <= n < |ops| && LastSent(ops, lo, n, k, at)
    ensures LastSent(ops, lo, n + 1, k, if Sends(ops[n], k) then Some(ops[n].sendAt) else at)
  {
  }

  lemma SentOnce(ops: seq<Op>, lo: nat, hi: nat, k: Key, a: Option<nat>, b: Option<nat>)
    requires hi <= |ops| && LastSent(ops, lo, hi, k, a) && LastSent(ops, lo, hi, k, b)
    ensures a == b
  {
  }

  /** What the inputs say of a live attempt: its last registration gave signature and deadline, and its latest send
      since is the one remembered. */
  ghost predicate Stems(ops: seq<Op>, n: nat, deadline: nat, k: Key, a: Attempt)
    requires n <= |ops|
  {
    exists p: nat :: LastRegistered(ops, p, n, k)
                     && a.sig == ops[p].sig && a.deadlineAt == ops[p].observedAt + deadline
                     && LastSent(ops, p + 1, n, k, a.sentAt)
  }

  /** How one operation leaves a live attempt. */
  lemma StepAttempt(m: State, op: Op, deadline: nat, k: Key)
    requires k in Step(m, op, deadline).attempts
    ensures var a := Step(m, op, deadline).attempts[k];
            if Registers(op, k) then a == Attempt(op.sig, op.observedAt + deadline, None)
            else k in m.attempts && a == if Sends(op, k) then m.attempts[k].(sentAt := Some(op.sendAt))
                                         else m.attempts[k]
  {
  }

  lemma StemsNext(ops: seq<Op>, n: nat, deadline: nat, k: Key, a: Attempt)
    requires n < |ops| && Stems(ops, n, deadline, k, a) && !Registers(ops[n], k)
    ensures Stems(ops, n + 1, deadline, k, if Sends(ops[n], k) then a.(sentAt := Some(ops[n].sendAt)) else a)
  {
    var p: nat :| LastRegistered(ops, p, n, k)
                  && a.sig == ops[p].sig && a.deadlineAt == ops[p].observedAt + deadline
                  && LastSent(ops, p + 1, n, k, a.sentAt);
    SentNext(ops, p + 1, n, k, a.sentAt);
    hide LastSent;
    assert LastRegistered(ops, p, n + 1, k);
  }

  /** In every run, a live attempt carries what its last registration and its latest send gave it. */
  lemma {:induction false} LiveAttemptStems(ops: seq<Op>, n: nat, deadline: nat, k: Key)
    requires n <= |ops| && k in Run(ops, n, deadline).attempts
    ensures Stems(ops, n, deadline, k, Run(ops, n, deadline).attempts[k])
  {
    if n > 0 {
      hide Step, Stems, Sends, Registers;
      StepAttempt(Run(ops, n - 1, deadline), ops[n - 1], deadline, k);
      if Registers(ops[n - 1], k) {
        StemsAnew(ops, n - 1, deadline, k);
      } else {
        LiveAttemptStems(ops, n - 1, deadline, k);
        StemsNext(ops, n - 1, deadline, k, Run(ops, n - 1, deadline).attempts[k]);
      }
    }
  }

  lemma StemsAnew(ops: seq<Op>, n: nat, deadline: nat, k: Key)
    requires n < |ops| && Registers(ops[n], k)
    ensures Stems(ops, n + 1, deadline, k, Attempt(ops[n].sig, ops[n].observedAt + deadline, None))
  {
    assert LastRegistered(ops, n, n + 1, k);
  }

  // ---------------------------------------------------------------- who is live, and the rows

  /** Operation `op` ends an attempt of key `k`, signature `sig` and deadline `dueAt`: it lands, fails, comes due, or
      the run ends. */
  predicate Ends(op: Op, k: Key, sig: nat, dueAt: nat) {
    match op
    case Register(_, _, _) => false
    case Send(key, _, _, failed) => key == k && failed
    case Match(s, _) => s == sig
    case Sweep(now) => dueAt <= now
    case Flush => true
  }

  lemma StepLive(m: State, op: Op, deadline: nat, k: Key)
    requires Mirrored(m.attempts, m.index)
    ensures k in Step(m, op, deadline).attempts
            <==> Registers(op, k) || (k in m.attempts && !Ends(op, k, m.attempts[k].sig, m.attempts[k].deadlineAt))
  {
  }

  /** Input `p` registered `k`, and nothing between it and input `n` ended the attempt. */
  ghost predicate Standing(ops: seq<Op>, p: nat, n: nat, deadline: nat, k: Key)
    requires n <= |ops|
  {
    && p < n && Registers(ops[p], k)
    && forall i :: p < i < n ==> !Ends(ops[i], k, ops[p].sig, ops[p].observedAt + deadline)
  }

  /** The inputs leave `k` registered and not ended. */
  ghost predicate Stands(ops: seq<Op>, n: nat, deadline: nat, k: Key)
    requires n <= |ops|
  {
    exists p: nat :: Standing(ops, p, n, deadline, k)
  }

  /** With distinct registrations, exactly which attempts are live, read off the inputs: those registered and not
      ended since. */
  lemma {:induction false} LiveExactly(ops: seq<Op>, n: nat, deadline: nat, k: Key)
    requires n <= |ops| && DistinctRegistrations(ops)
    ensures k in Run(ops, n, deadline).attempts <==> Stands(ops, n, deadline, k)
  {
    if n > 0 {
      LiveExactly(ops, n - 1, deadline, k);
      DistinctRunIsMirrored(ops, n - 1, deadline);
      StepLive(Run(ops, n - 1, deadline), ops[n - 1], deadline, k);
      StandsNext(ops, n, deadline, k);
    }
    hide Step, Stands, Standing, Mirrored, DistinctRegistrations, Ends, Registers;
  }

  lemma StandsNext(ops: seq<Op>, n: nat, deadline: nat, k: Key)
    requires 0 < n <= |ops| && DistinctRegistrations(ops)
    requires k in Run(ops, n - 1, deadline).attempts <==> Stands(ops, n - 1, deadline, k)
    ensures var attempts, op := Run(ops, n - 1, deadline).attempts, ops[n - 1];
            Stands(ops, n, deadline, k)
            <==> Registers(op, k) || (k in attempts && !Ends(op, k, attempts[k].sig, attempts[k].deadlineAt))
  {
    if k in Run(ops, n - 1, deadline).attempts {
      var p := RegistrationOf(ops, n - 1, deadline, k);
      hide Run, LastSent;
      StandsOn(ops, n, deadline, k, p);
    } else {
      hide Run;
      StandsAnew(ops, n, deadline, k);
    }
  }

  lemma StandsAnew(ops: seq<Op>, n: nat, deadline: nat, k: Key)
    requires 0 < n <= |ops| && !Stands(ops, n - 1, deadline, k)
    ensures Stands(ops, n, deadline, k) <==> Registers(ops[n - 1], k)
  {
    if Registers(ops[n - 1], k) {
      assert Standing(ops, n - 1, n, deadline, k);
    }
    if p: nat :| Standing(ops, p, n, deadline, k) && p < n - 1 {
      assert Standing(ops, p, n - 1, deadline, k);
    }
  }

  lemma StandsOn(ops: seq<Op>, n: nat, deadline: nat, k: Key, p: nat)
    requires 0 < n <= |ops| && DistinctRegistrations(ops)
    requires p < n - 1 && Registers(ops[p], k) && Stands(ops, n - 1, deadline, k)
    ensures !Registers(ops[n - 1], k)
    ensures Stands(ops, n, deadline, k) <==> !Ends(ops[n - 1], k, ops[p].sig, ops[p].observedAt + deadline)
  {
    OneRegistration(ops, n - 1, deadline, k, p);
    OneRegistration(ops, n, deadline, k, p);
    assert Standing(ops, p, n - 1, deadline, k);
    if !Ends(ops[n - 1], k, ops[p].sig, ops[p].observedAt + deadline) {
      assert Standing(ops, p, n, deadline, k);
    }
  }

  /** The registration a live attempt stems from. */
  lemma RegistrationOf(ops: seq<Op>, n: nat, deadline: nat, k: Key) returns (p: nat)
    requires n <= |ops| && k in Run(ops, n, deadline).attempts
    ensures p < n && Registers(ops[p], k)
    ensures var a := Run(ops, n, deadline).attempts[k];
            && a.sig == ops[p].sig && a.deadlineAt == ops[p].observedAt + deadline
            && LastSent(ops, p + 1, n, k, a.sentAt)
  {
    LiveAttemptStems(ops, n, deadline, k);
    var a := Run(ops, n, deadline).attempts[k];
    hide Run, LastSent;
    p :| LastRegistered(ops, p, n, k)
         && a.sig == ops[p].sig && a.deadlineAt == ops[p].observedAt + deadline && LastSent(ops, p + 1, n, k, a.sentAt);
  }

  /** The operation gives an attempt of key `k`, signature `sig` and deadline `dueAt` this outcome. */
  predicate Gives(op: Op, k: Key, sig: nat, dueAt: nat, o: Outcome) {
    match o
    case Landed => op.Match? && op.sig == sig
    case SendError => op.Send? && op.key == k && op.failed
    case UnknownPending => op.Flush? || (op.Sweep? && dueAt <= op.now)
  }

  lemma GivesIsCause(m: State, op: Op, r: Row)
    requires Mirrored(m.attempts, m.index)
    ensures Causes(m, op, r)
            <==> r.key in m.attempts && m.attempts[r.key].sig == r.sig
                 && Gives(op, r.key, r.sig, m.attempts[r.key].deadlineAt, r.outcome)
  {
  }

  /** With distinct registrations, exactly when an input writes a row, read off the inputs alone: the attempt was
      registered with that signature, nothing ended it since, and the input gives it the row's outcome. */
  lemma RowWrittenExactly(ops: seq<Op>, q: nat, deadline: nat, r: Row)
    requires q < |ops| && DistinctRegistrations(ops)
    ensures Run(ops, q + 1, deadline).rows[r] == Run(ops, q, deadline).rows[r]
            + if exists p: nat :: Standing(ops, p, q, deadline, r.key) && ops[p].sig == r.sig
                                  && Gives(ops[q], r.key, r.sig, ops[p].observedAt + deadline, r.outcome) then 1 else 0
  {
    var m := Run(ops, q, deadline);
    RowsExactly(m, ops[q], deadline, r);
    DistinctRunIsMirrored(ops, q, deadline);
    GivesIsCause(m, ops[q], r);
    LiveExactly(ops, q, deadline, r.key);
    if r.key in m.attempts {
      var p := RegistrationOf(ops, q, deadline, r.key);
      OneRegistration(ops, q, deadline, r.key, p);
    }
    assert Run(ops, q + 1, deadline) == Step(m, ops[q], deadline);
    hide Run, Step, Causes, Standing, Mirrored, DistinctRegistrations;
  }

  lemma OneRegistration(ops: seq<Op>, n: nat, deadline: nat, k: Key, p: nat)
    requires n <= |ops| && DistinctRegistrations(ops) && p < n && Registers(ops[p], k)
    ensures forall q: nat :: Standing(ops, q, n, deadline, k) ==> q == p
  {
    forall q: nat | Standing(ops, q, n, deadline, k) ensures q == p {
      assert ops[q].key == ops[p].key;
    }
  }

  // ---------------------------------------------------------------- measurements

  /** Whole microseconds from one instant to another, and none if the second comes first. */
  function Micros(from: nat, to: nat): (us: nat)
    ensures to >= from ==> us * 1_000 <= to - from < (us + 1) * 1_000
    ensures to < from ==> us == 0
  {
    if to < from then 0 else (to - from) / 1_000
  }

  lemma ElapsedIsMicros(from: nat, to: nat)
    ensures Elapsed(from, to) == Micros(from, to)
  {
  }

  ghost predicate SendersKnown(m: State) {
    forall k :: k in m.attempts ==> k.sender in m.senders
  }

  lemma StepSenders(m: State, op: Op, deadline: nat)
    requires SendersKnown(m)
    ensures Step(m, op, deadline).senders == m.senders + if op.Register? then {op.key.sender} else {}
    ensures SendersKnown(Step(m, op, deadline))
  {
    match op
    case Register(_, _, _) =>
    case Send(key, _, _, _) =>
    case Match(_, _) =>
    case Sweep(now) => assert SendersOf(Expired(m, now)) <= m.senders;
    case Flush => assert SendersOf(m.attempts.Keys) <= m.senders;
  }

  /** Some input before `n` registers an attempt of this sender. */
  ghost predicate SenderRegistered(ops: seq<Op>, n: nat, sender: nat)
    requires n <= |ops|
  {
    exists i :: 0 <= i < n && ops[i].Register? && ops[i].key.sender == sender
  }

  ghost predicate TriggerRegistered(ops: seq<Op>, n: nat, trigger: nat)
    requires n <= |ops|
  {
    exists i :: 0 <= i < n && ops[i].Register? && ops[i].key.trigger == trigger
  }

  lemma RegisteredNext(ops: seq<Op>, n: nat, x: nat)
    requires 0 < n <= |ops|
    ensures var op := ops[n - 1];
            && (SenderRegistered(ops, n, x)
                <==> SenderRegistered(ops, n - 1, x) || (op.Register? && op.key.sender == x))
            && (TriggerRegistered(ops, n, x)
                <==> TriggerRegistered(ops, n - 1, x) || (op.Register? && op.key.trigger == x))
  {
  }

  lemma {:induction false} RunKnowsSenders(ops: seq<Op>, n: nat, deadline: nat)
    requires n <= |ops|
    ensures SendersKnown(Run(ops, n, deadline))
  {
    hide Step, SendersKnown;
    if n > 0 {
      RunKnowsSenders(ops, n - 1, deadline);
      StepSenders(Run(ops, n - 1, deadline), ops[n - 1], deadline);
    } else {
      NobodyKnown();
    }
  }

  lemma NobodyKnown()
    ensures SendersKnown(EMPTY)
  {
  }

  /** A sender has statistics exactly once it registered an attempt. */
  lemma {:induction false} SendersExactly(ops: seq<Op>, n: nat, deadline: nat, s: nat)
    requires n <= |ops|
    ensures s in Run(ops, n, deadline).senders <==> SenderRegistered(ops, n, s)
  {
    if n > 0 {
      hide Step, SenderRegistered, TriggerRegistered, SendersKnown;
      SendersExactly(ops, n - 1, deadline, s);
      RunKnowsSenders(ops, n - 1, deadline);
      StepSenders(Run(ops, n - 1, deadline), ops[n - 1], deadline);
      RegisteredNext(ops, n, s);
    }
  }

  ghost predicate LandedRow(rows: multiset<Row>, trigger: nat) {
    exists r :: r in rows && r.outcome.Landed? && r.key.trigger == trigger
  }

  lemma StepTriggers(m: State, op: Op, deadline: nat, t: nat)
    requires t in m.triggersLanded <==> LandedRow(m.rows, t)
    ensures var m' := Step(m, op, deadline);
            && (t in m'.triggersAttempted <==> t in m.triggersAttempted || (op.Register? && op.key.trigger == t))
            && (t in m'.triggersLanded <==> LandedRow(m'.rows, t))
  {
    var m' := Step(m, op, deadline);
    forall r ensures m'.rows[r] == m.rows[r] + if Causes(m, op, r) then 1 else 0 {
      RowsExactly(m, op, deadline, r);
    }
    if r :| r in m.rows && r.outcome.Landed? && r.key.trigger == t {
      assert r in m'.rows;
    }
    if op.Match? && op.sig in m.index && m.index[op.sig] in m.attempts {
      var k := m.index[op.sig];
      assert Row(k, m.attempts[k].sig, Landed) in m'.rows;
    }
  }

  /** A trigger counts as attempted exactly once an attempt of it is registered, and as landed exactly once a row says
      so. */
  lemma {:induction false} TriggersExactly(ops: seq<Op>, n: nat, deadline: nat, t: nat)
    requires n <= |ops|
    ensures var m := Run(ops, n, deadline);
            && (t in m.triggersAttempted <==> TriggerRegistered(ops, n, t))
            && (t in m.triggersLanded <==> LandedRow(m.rows, t))
  {
    if n > 0 {
      hide Step, TriggerRegistered, LandedRow;
      TriggersExactly(ops, n - 1, deadline, t);
      StepTriggers(Run(ops, n - 1, deadline), ops[n - 1], deadline, t);
      RegisteredNext(ops, n, t);
    }
  }

  lemma StepMeasures(m: State, op: Op, deadline: nat)
    ensures var m' := Step(m, op, deadline);
            && m'.sends == m.sends + (if op.Send? then [op.sendAt] else [])
            && m'.rtts == m.rtts + (if op.Send? && op.ackAt.Some? && op.key.sender in m.senders
                                    then [(op.key.sender, Micros(op.sendAt, op.ackAt.value))] else [])
            && m'.observed == m.observed
               + if op.Match? && op.sig in m.index && m.index[op.sig] in m.attempts
                    && m.attempts[m.index[op.sig]].sentAt.Some?
                 then [(m.index[op.sig].sender, Micros(m.attempts[m.index[op.sig]].sentAt.value, op.observedAt))]
                 else []
  {
    forall a: nat, b: nat ensures Elapsed(a, b) == Micros(a, b) {
      ElapsedIsMicros(a, b);
    }
    hide Micros, Elapsed;
  }

  /** Every send adds its time to the send window; a round trip is measured exactly when an acknowledged send comes from
      a sender that registered before. */
  lemma RoundTripsExactly(ops: seq<Op>, n: nat, deadline: nat)
    requires n < |ops|
    ensures var op, was, now := ops[n], Run(ops, n, deadline), Run(ops, n + 1, deadline);
            && now.sends == was.sends + (if op.Send? then [op.sendAt] else [])
            && now.rtts == was.rtts
               + if op.Send? && op.ackAt.Some?
                    && SenderRegistered(ops, n, op.key.sender)
                 then [(op.key.sender, Micros(op.sendAt, op.ackAt.value))] else []
  {
    assert Run(ops, n + 1, deadline) == Step(Run(ops, n, deadline), ops[n], deadline);
    if ops[n].Send? {
      SendersExactly(ops, n, deadline, ops[n].key.sender);
    }
    StepMeasures(Run(ops, n, deadline), ops[n], deadline);
    hide Run, Step, Micros;
  }

  /** With distinct registrations, a match of an attempt still standing measures the time since its latest send after
      its registration `p`, if there was one. */
  lemma LandingTime(ops: seq<Op>, n: nat, deadline: nat, k: Key, p: nat, at: Option<nat>)
    requires n < |ops| && DistinctRegistrations(ops)
    requires Standing(ops, p, n, deadline, k) && LastSent(ops, p + 1, n, k, at)
    requires ops[n].Match? && ops[n].sig == ops[p].sig
    ensures Run(ops, n + 1, deadline).observed == Run(ops, n, deadline).observed
            + if at.Some? then [(k.sender, Micros(at.value, ops[n].observedAt))] else []
  {
    StandingAttempt(ops, n, deadline, k, p, at);
    StepMeasures(Run(ops, n, deadline), ops[n], deadline);
    assert Run(ops, n + 1, deadline) == Step(Run(ops, n, deadline), ops[n], deadline);
    hide Run, Step, Micros;
  }

  /** No other input measures anything: neither one that is not a match, nor a match of no attempt still standing. */
  lemma NoLandingTime(ops: seq<Op>, n: nat, deadline: nat)
    requires n < |ops| && DistinctRegistrations(ops)
    requires ops[n].Match? ==> forall k, p: nat :: Standing(ops, p, n, deadline, k) ==> ops[p].sig != ops[n].sig
    ensures Run(ops, n + 1, deadline).observed == Run(ops, n, deadline).observed
  {
    var m := Run(ops, n, deadline);
    StepMeasures(m, ops[n], deadline);
    assert Run(ops, n + 1, deadline) == Step(m, ops[n], deadline);
    DistinctRunIsMirrored(ops, n, deadline);
    hide Run, Step, Micros;
    if ops[n].Match? && ops[n].sig in m.index {
      var k := m.index[ops[n].sig];
      var p := StandingOf(ops, n, deadline, k);
    }
  }

  lemma StandingOf(ops: seq<Op>, n: nat, deadline: nat, k: Key) returns (p: nat)
    requires n <= |ops| && DistinctRegistrations(ops) && k in Run(ops, n, deadline).attempts
    ensures Standing(ops, p, n, deadline, k) && ops[p].sig == Run(ops, n, deadline).attempts[k].sig
  {
    p := RegistrationOf(ops, n, deadline, k);
    LiveExactly(ops, n, deadline, k);
    OneRegistration(ops, n, deadline, k, p);
    hide Run, Standing, DistinctRegistrations;
  }

  lemma StandingAttempt(ops: seq<Op>, n: nat, deadline: nat, k: Key, p: nat, at: Option<nat>)
    requires n <= |ops| && DistinctRegistrations(ops)
    requires Standing(ops, p, n, deadline, k) && LastSent(ops, p + 1, n, k, at)
    ensures var m := Run(ops, n, deadline);
            k in m.attempts && m.attempts[k] == Attempt(ops[p].sig, ops[p].observedAt + deadline, at)
            && ops[p].sig in m.index && m.index[ops[p].sig] == k
  {
    LiveExactly(ops, n, deadline, k);
    DistinctRunIsMirrored(ops, n, deadline);
    var q := RegistrationOf(ops, n, deadline, k);
    OneRegistration(ops, n, deadline, k, q);
    SentOnce(ops, p + 1, n, k, at, Run(ops, n, deadline).attempts[k].sentAt);
    hide Run, DistinctRegistrations, LastSent;
  }
}
