/** The recorder as an object updated in place, proved to do what its value does and to keep its aggregates. */
module RecorderMachine {
  import opened Common
  import opened Recording

  class Recorder {
    var attempts: map<Key, Attempt>
    var sigToKey: map<nat, Key>
    var rows: seq<Row>
    var firstSendAt: Option<nat>
    var lastSendAt: Option<nat>
    var triggersAttempted: set<nat>
    var triggersLanded: set<nat>
    var perSender: map<nat, Stats>
    var timing: map<nat, Timing>
    var total: nat
    var landed: nat
    var sendErrors: nat
    var unknownPending: nat
    /** Every registration; of the overwritten attempts, the keys and the senders. */
    ghost var registered: multiset<Key>
    ghost var overwritten: multiset<Key>
    ghost var lost: seq<nat>
    ghost var sends: seq<nat>
    /** Every round trip and every time to landing that was measured, with its sender. */
    ghost var rtts: seq<(nat, nat)>
    ghost var observed: seq<(nat, nat)>
    const deadline: nat

    constructor (deadline: nat)
      ensures Valid() && Value() == EMPTY && rows == [] && this.deadline == deadline
    {
      NothingConserves();
      hide Conserved;
      this.deadline := deadline;
      attempts, sigToKey, rows, firstSendAt, lastSendAt := map[], map[], [], None, None;
      triggersAttempted, triggersLanded, perSender := {}, {}, map[];
      total, landed, sendErrors, unknownPending, lost, sends := 0, 0, 0, 0, [], [];
      registered, overwritten := multiset{}, multiset{};
      timing, rtts, observed := map[], [], [];
    }

    ghost function Value(): State
      reads this
    {
      State(attempts, sigToKey, multiset(rows), perSender.Keys, registered, overwritten, lost, sends, rtts, observed,
            triggersAttempted, triggersLanded)
    }

    ghost function Counted(): Totals
      reads this`total, this`landed, this`sendErrors, this`unknownPending
    {
      Totals(total, landed, sendErrors, unknownPending)
    }

    ghost predicate Balanced()
      reads this`total, this`landed, this`sendErrors, this`unknownPending, this`attempts, this`perSender, this`lost,
            this`rows
    {
      Conserved(Counted(), attempts, perSender, lost, rows) && SendersTallied(perSender, rows)
    }

    ghost predicate Registrations()
      reads this`registered, this`rows, this`attempts, this`overwritten, this`lost
    {
      Booked(registered, rows, attempts, overwritten, lost)
    }

    ghost predicate Triggers()
      reads this`triggersAttempted, this`triggersLanded, this`attempts
    {
      TriggersOf(triggersAttempted, triggersLanded, attempts)
    }

    ghost predicate SendWindow()
      reads this`firstSendAt, this`lastSendAt, this`sends
    {
      Window(firstSendAt, lastSendAt, sends)
    }

    ghost predicate Timings()
      reads this`timing, this`rtts, this`observed
    {
      Timed(timing, rtts, observed)
    }

    ghost predicate Valid()
      reads this
    {
      Balanced() && Registrations() && Triggers() && SendWindow() && Timings()
    }

    /** A registration: the loop calls `record_register`, then `handle_register`. */
    method OnRegister(key: Key, sig: nat, observedAt: nat)
      requires Valid()
      modifies this
      ensures Valid() && Value() == Registered(old(Value()), key, Attempt(sig, observedAt + deadline, None))
    {
      hide Timings, SendWindow, Conserved, SendersTallied, StatsOf, Overwritten, TriggersOf, Booked, OverwrittenBag;
      ghost var a := Attempt(sig, observedAt + deadline, None);
      BookedRegister(registered, rows, attempts, overwritten, lost, key, a);
      TriggersRegister(triggersAttempted, triggersLanded, attempts, key, a);
      RegisterConserves(Counted(), attempts, perSender, lost, rows, key, a);
      RegisterTallies(perSender, rows, key.sender);
      RecordRegister(key);
      HandleRegister(key, sig, observedAt);
    }

    method HandleRegister(key: Key, sig: nat, observedAt: nat)
      modifies this`attempts, this`sigToKey, this`lost, this`registered, this`overwritten
      ensures attempts == old(attempts)[key := Attempt(sig, observedAt + deadline, None)]
      ensures sigToKey == old(sigToKey)[sig := key]
      ensures lost == Overwritten(old(lost), old(attempts), key)
      ensures registered == old(registered) + multiset{key}
      ensures overwritten == OverwrittenBag(old(overwritten), old(attempts), key)
    {
      registered, overwritten := registered + multiset{key}, OverwrittenBag(overwritten, attempts, key);
      lost := Overwritten(lost, attempts, key);
      sigToKey := sigToKey[sig := key];
      attempts := attempts[key := Attempt(sig, observedAt + deadline, None)];
    }

    method RecordRegister(key: Key)
      modifies this`triggersAttempted, this`perSender, this`total
      ensures triggersAttempted == old(triggersAttempted) + {key.trigger}
      ensures var st := StatsOf(old(perSender), key.sender);
              perSender == old(perSender)[key.sender := st.(attempts := st.attempts + 1)]
      ensures total == old(total) + 1
    {
      triggersAttempted := triggersAttempted + {key.trigger};
      var stats := StatsOf(perSender, key.sender);
      perSender := perSender[key.sender := stats.(attempts := stats.attempts + 1)];
      total := total + 1;
    }

    /** `us` is the time from send to landing, if it was measured. */
    method RecordOutcome(key: Key, outcome: Outcome, us: Option<nat>)
      requires Timings()
      modifies this`perSender, this`landed, this`sendErrors, this`unknownPending, this`triggersLanded, this`timing,
               this`observed
      ensures Timings()
      ensures observed == old(observed) + if outcome.Landed? && us.Some? then [(key.sender, us.value)] else []
      ensures Counted() == Tallied(old(Counted()), outcome)
      ensures perSender == old(perSender)[key.sender := Finished(StatsOf(old(perSender), key.sender), outcome)]
      ensures triggersLanded == old(triggersLanded) + if outcome.Landed? then {key.trigger} else {}
    {
      hide Timed;
      var stats := StatsOf(perSender, key.sender);
      perSender := perSender[key.sender := Finished(stats, outcome)];
      match outcome {
        case Landed =>
          landed := landed + 1;
          triggersLanded := triggersLanded + {key.trigger};
          if us.Some? {
            TimedSnoc(timing, rtts, observed, (key.sender, us.value));
            timing := timing[key.sender := ObservedNoted(TimingOf(timing, key.sender), us.value)];
            observed := observed + [(key.sender, us.value)];
          }
        case SendError =>
          sendErrors := sendErrors + 1;
        case UnknownPending =>
          unknownPending := unknownPending + 1;
      }
    }

    /** Remove an attempt, unindex its signature, write its row and record its outcome. */
    method FinishOne(key: Key, outcome: Outcome, us: Option<nat>)
      requires Valid() && key in attempts
      modifies this
      ensures Valid() && Value() == Finish(old(Value()), key, outcome, us)
      ensures rows == old(rows) + [Row(key, old(attempts)[key].sig, outcome)]
    {
      hide Conserved, SendersTallied, SendWindow, Timings, Registrations, Tallied, Finished, StatsOf, TriggersOf;
      TriggersFinish(triggersAttempted, triggersLanded, attempts, key);
      FinishConserves(Counted(), attempts, perSender, lost, rows, key, outcome);
      FinishTallies(perSender, rows, Row(key, attempts[key].sig, outcome));
      EmitRow(key, outcome);
      RecordOutcome(key, outcome, us);
    }

    method EmitRow(key: Key, outcome: Outcome)
      requires Registrations() && key in attempts
      modifies this`attempts, this`sigToKey, this`rows
      ensures Registrations()
      ensures attempts == old(attempts) - {key} && sigToKey == old(sigToKey) - {old(attempts)[key].sig}
      ensures rows == old(rows) + [Row(key, old(attempts)[key].sig, outcome)]
    {
      hide Booked;
      var row := Row(key, attempts[key].sig, outcome);
      BookedFinish(registered, rows, attempts, overwritten, lost, row);
      sigToKey := sigToKey - {attempts[key].sig};
      attempts := attempts - {key};
      rows := rows + [row];
    }

    /** `record_send`, for every send event, even of an attempt no longer live. */
    method RecordSend(sender: nat, sendAt: nat, ackAt: Option<nat>)
      requires SendWindow() && Timings()
      modifies this`firstSendAt, this`lastSendAt, this`sends, this`timing, this`rtts
      ensures SendWindow() && Timings() && sends == old(sends) + [sendAt]
      ensures rtts == old(rtts) + if sender in perSender && ackAt.Some?
                                  then [(sender, Elapsed(sendAt, ackAt.value))] else []
    {
      hide Timed;
      if firstSendAt.None? || sendAt < firstSendAt.value {
        firstSendAt := Some(sendAt);
      }
      if lastSendAt.None? || sendAt > lastSendAt.value {
        lastSendAt := Some(sendAt);
      }
      BoundsSnoc(sends, sendAt);
      sends := sends + [sendAt];
      if sender in perSender && ackAt.Some? {
        var us := Elapsed(sendAt, ackAt.value);
        TimedSnoc(timing, rtts, observed, (sender, us));
        timing := timing[sender := RttNoted(TimingOf(timing, sender), us)];
        rtts := rtts + [(sender, us)];
      }
    }

    method NoteSend(key: Key, sendAt: nat)
      requires Valid() && key in attempts
      modifies this`attempts
      ensures Valid() && attempts == Sent(old(attempts), key, sendAt)
    {
      hide Timings, SendersTallied;
      var a := attempts[key].(sentAt := Some(sendAt));
      SentConserves(Counted(), attempts, perSender, lost, rows, key, a);
      hide Conserved;
      assert attempts[key := a].Keys == attempts.Keys;
      attempts := attempts[key := a];
    }

    /** A send event: recorded, noted on its attempt if that is live, and final if it failed. */
    method HandleSend(key: Key, sendAt: nat, ackAt: Option<nat>, failed: bool)
      requires Valid()
      modifies this
      ensures Valid() && Value() == Step(old(Value()), Send(key, sendAt, ackAt, failed), deadline)
    {
      hide Balanced, Registrations, Triggers, SendWindow, Timings, Finish;
      RecordSend(key.sender, sendAt, ackAt);
      if key in attempts {
        NoteSend(key, sendAt);
        if failed {
          FinishOne(key, SendError, None);
        }
      }
    }

    method HandleMatch(sig: nat, observedAt: nat)
      requires Valid()
      modifies this
      ensures Valid() && Value() == Step(old(Value()), Match(sig, observedAt), deadline)
    {
      hide Balanced, Registrations, Triggers, SendWindow, Timings, Finish;
      if sig !in sigToKey {
        return;
      }
      var key := sigToKey[sig];
      if key !in attempts {
        sigToKey := sigToKey - {sig};
        return;
      }
      FinishOne(key, Landed, Measured(attempts[key].sentAt, observedAt));
    }

    /** The loop of the deadline sweep and of the final flush, over a hash map's keys in any order. */
    method FinishAll(keys: set<Key>)
      requires Valid() && keys <= attempts.Keys
      modifies this
      ensures Valid() && Value() == Retire(old(Value()), keys)
      ensures |rows| >= |old(rows)| && rows[..|old(rows)|] == old(rows)
    {
      hide Valid, Retire, Finish;
      ghost var was := Value();
      var todo := keys;
      ghost var done: set<Key> := {};
      RetireNone(was);
      while todo != {}
        invariant todo <= keys && Valid() && done == keys - todo && keys <= was.attempts.Keys
        invariant Value() == Retire(was, done)
        invariant |rows| >= |old(rows)| && rows[..|old(rows)|] == old(rows)
        decreases |todo|
      {
        var key :| key in todo;
        RetireOneMore(was, done, key);
        FinishOne(key, UnknownPending, None);
        todo := todo - {key};
        done := done + {key};
      }
      assert done == keys;
    }

    method SweepDeadlines(now: nat)
      requires Valid()
      modifies this
      ensures Valid() && Value() == Step(old(Value()), Sweep(now), deadline)
    {
      hide Valid, Retire;
      assert Expired(Value(), now) == set k | k in attempts && attempts[k].deadlineAt <= now;
      FinishAll(set k | k in attempts && attempts[k].deadlineAt <= now);
    }

    method FinalFlush()
      requires Valid()
      modifies this
      ensures Valid() && Value() == Step(old(Value()), Flush, deadline) && attempts == map[]
    {
      FinishAll(attempts.Keys);
    }

    method HandleInput(op: Op)
      requires Valid()
      modifies this
      ensures Valid() && Value() == Step(old(Value()), op, deadline)
    {
      hide Valid, Retire, Finish, SendNoted;
      match op
      case Register(key, sig, observedAt) => OnRegister(key, sig, observedAt);
      case Send(key, sendAt, ackAt, failed) => HandleSend(key, sendAt, ackAt, failed);
      case Match(sig, observedAt) => HandleMatch(sig, observedAt);
      case Sweep(now) => SweepDeadlines(now);
      case Flush => FinalFlush();
    }

    /** Refinement: over a whole run and its final flush, for any registrations, the rows written are those the run
        specifies, each as often, with its outcome; every registration led to a row or was overwritten, in the totals
        and attempt by attempt; and with distinct registrations each attempt registered has exactly one row. */
    method RunLoop(ops: seq<Op>)
      requires Valid() && Value() == EMPTY
      modifies this
      ensures var all := ops + [Flush];
              && Valid() && Value() == Run(all, |all|, deadline) && attempts == map[]
              && (forall r :: multiset(rows)[r] == CauseCount(all, |all|, deadline, r))
              && (forall k :: overwritten[k] == OverwriteCount(all, |all|, deadline, k))
              && RegisteredBag(all, |all|) == KeyBag(rows) + overwritten
              && (DistinctRegistrations(all) ==>
                    forall k :: KeyBag(rows)[k] == if k in RegisteredKeys(all, |all|) then 1 else 0)
      ensures total == |RegisteredBag(ops + [Flush], |ops| + 1)| == landed + sendErrors + unknownPending + |lost|
    {
      hide Valid, Step;
      ghost var all := ops + [Flush];
      for n := 0 to |ops|
        invariant Valid() && Value() == Run(all, n, deadline)
      {
        HandleInput(ops[n]);
      }
      FinalFlush();
      assert Value() == Run(all, |all|, deadline);
      RunTold(all);
      FinalTotals();
    }

    /** What the specified run says of the object that followed it. */
    lemma RunTold(all: seq<Op>)
      requires Valid() && attempts == map[] && Value() == Run(all, |all|, deadline)
      ensures forall r :: multiset(rows)[r] == CauseCount(all, |all|, deadline, r)
      ensures forall k :: overwritten[k] == OverwriteCount(all, |all|, deadline, k)
      ensures RegisteredBag(all, |all|) == KeyBag(rows) + overwritten
      ensures DistinctRegistrations(all) ==>
                forall k :: KeyBag(rows)[k] == if k in RegisteredKeys(all, |all|) then 1 else 0
    {
      FinalTotals();
      hide Valid, Run, DistinctRegistrations;
      forall r ensures multiset(rows)[r] == CauseCount(all, |all|, deadline, r) {
        EveryRowHasItsCause(all, |all|, deadline, r);
      }
      forall k ensures overwritten[k] == OverwriteCount(all, |all|, deadline, k) {
        OverwrittenExactly(all, |all|, deadline, k);
      }
      RegisteredExactly(all, |all|, deadline);
      if DistinctRegistrations(all) {
        DistinctRunIsMirrored(all, |all|, deadline);
        RegisteredOnce(all, |all|);
      }
    }

    lemma FinalTotals()
      requires Valid() && attempts == map[]
      ensures total == |registered| == landed + sendErrors + unknownPending + |lost|
      ensures registered == KeyBag(rows) + overwritten
    {
      KeyBagSize(rows);
      hide KeyBag, SendersBalanced, SendersTallied, RowCount;
    }
  }
}
