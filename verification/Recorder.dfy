/** The recorder as a value: what every event does to the attempts, the signature index and the rows, and what
    the running aggregates say of them. Every attempt registered is landed, failed, unknown, live or overwritten,
    overall and per sender, and the index mirrors the live attempts as long as registrations do not collide. */
module Recording {
  import opened Common

  datatype Key = Key(trigger: nat, sender: nat)

  datatype Attempt = Attempt(sig: nat, deadlineAt: nat, sentAt: Option<nat>)

  datatype Outcome = Landed | SendError | UnknownPending

  datatype Row = Row(key: Key, sig: nat, outcome: Outcome)

  datatype Stats = Stats(attempts: nat, landed: nat, sendError: nat, unknownPending: nat)

  const NO_STATS := Stats(0, 0, 0, 0)

  /** The rest of a sender's statistics: round trips of its sends, and times from send to landing, in
      microseconds. */
  datatype Timing = Timing(rttSum: nat, rttCount: nat, observedSum: nat, observedCount: nat)

  const NO_TIMING := Timing(0, 0, 0, 0)

  datatype Op =
    | Register(key: Key, sig: nat, observedAt: nat)
    | Send(key: Key, sendAt: nat, ackAt: Option<nat>, failed: bool)
    | Match(sig: nat, observedAt: nat)
    | Sweep(now: nat)
    | Flush

  function Finished(s: Stats, o: Outcome): Stats {
    match o
    case Landed => s.(landed := s.landed + 1)
    case SendError => s.(sendError := s.sendError + 1)
    case UnknownPending => s.(unknownPending := s.unknownPending + 1)
  }

  function StatsOf(m: map<nat, Stats>, s: nat): Stats {
    if s in m then m[s] else NO_STATS
  }

  /** The rows with a given outcome. */
  function RowCount(rows: seq<Row>, o: Outcome): nat {
    if rows == [] then 0 else RowCount(rows[..|rows| - 1], o) + if rows[|rows| - 1].outcome == o then 1 else 0
  }

  lemma RowSnoc(rows: seq<Row>, r: Row, o: Outcome)
    ensures RowCount(rows + [r], o) == RowCount(rows, o) + if r.outcome == o then 1 else 0
  {
    assert (rows + [r])[..|rows + [r]| - 1] == rows;
  }

  function CountOf(ss: seq<nat>, s: nat): nat {
    if ss == [] then 0 else CountOf(ss[..|ss| - 1], s) + if ss[|ss| - 1] == s then 1 else 0
  }

  lemma CountSnoc(ss: seq<nat>, x: nat, s: nat)
    ensures CountOf(ss + [x], s) == CountOf(ss, s) + if x == s then 1 else 0
  {
    assert (ss + [x])[..|ss + [x]| - 1] == ss;
  }

  function LiveKeys(attempts: map<Key, Attempt>, s: nat): set<Key> {
    set k | k in attempts && k.sender == s
  }

  lemma LiveRemove(attempts: map<Key, Attempt>, key: Key, s: nat)
    requires key in attempts
    ensures |LiveKeys(attempts, s)| == |LiveKeys(attempts - {key}, s)| + if key.sender == s then 1 else 0
    ensures |attempts| == |attempts - {key}| + 1
  {
    assert (attempts - {key}).Keys == attempts.Keys - {key};
    assert |(attempts - {key}).Keys| == |attempts.Keys| - 1;
    var after := LiveKeys(attempts - {key}, s);
    if key.sender == s {
      assert LiveKeys(attempts, s) == after + {key};
    } else {
      assert LiveKeys(attempts, s) == after;
    }
  }

  lemma LiveInsert(attempts: map<Key, Attempt>, key: Key, a: Attempt, s: nat)
    ensures |LiveKeys(attempts[key := a], s)|
            == |LiveKeys(attempts, s)| + if key.sender == s && key !in attempts then 1 else 0
    ensures |attempts[key := a]| == |attempts| + if key in attempts then 0 else 1
  {
    LiveInserted(attempts, key, a, s);
    OneMoreKey(attempts, key, a);
    hide LiveKeys;
    if key.sender == s && key in attempts {
      assert LiveKeys(attempts, s) + {key} == LiveKeys(attempts, s);
    }
  }

  lemma LiveInserted(attempts: map<Key, Attempt>, key: Key, a: Attempt, s: nat)
    ensures LiveKeys(attempts[key := a], s) == LiveKeys(attempts, s) + if key.sender == s then {key} else {}
    ensures key in LiveKeys(attempts, s) <==> key in attempts && key.sender == s
  {
  }

  lemma OneMoreKey(attempts: map<Key, Attempt>, key: Key, a: Attempt)
    ensures |attempts[key := a]| == |attempts| + if key in attempts then 0 else 1
  {
    assert attempts[key := a].Keys == attempts.Keys + {key};
    assert |attempts[key := a].Keys| == |attempts.Keys| + if key in attempts then 0 else 1;
  }

  /** A registration under a live key loses that attempt. */
  function Overwritten(lost: seq<nat>, attempts: map<Key, Attempt>, key: Key): seq<nat> {
    if key in attempts then lost + [key.sender] else lost
  }

  /** Per sender, what was registered is finished, live or overwritten. */
  ghost predicate SenderBalanced(stats: Stats, live: nat, lost: nat) {
    stats.attempts == stats.landed + stats.sendError + stats.unknownPending + live + lost
  }

  ghost predicate SendersBalanced(perSender: map<nat, Stats>, attempts: map<Key, Attempt>, lost: seq<nat>) {
    forall s: nat :: SenderBalanced(StatsOf(perSender, s), |LiveKeys(attempts, s)|, CountOf(lost, s))
  }

  /** The rows of a sender with a given outcome. */
  function SenderRows(rows: seq<Row>, s: nat, o: Outcome): nat {
    if rows == [] then 0
    else
      var last := rows[|rows| - 1];
      SenderRows(rows[..|rows| - 1], s, o) + if last.key.sender == s && last.outcome == o then 1 else 0
  }

  ghost predicate SenderTallied(stats: Stats, rows: seq<Row>, s: nat) {
    && stats.landed == SenderRows(rows, s, Landed) && stats.sendError == SenderRows(rows, s, SendError)
    && stats.unknownPending == SenderRows(rows, s, UnknownPending)
  }

  /** Outcome by outcome, each sender's counters count its rows. */
  ghost predicate SendersTallied(perSender: map<nat, Stats>, rows: seq<Row>) {
    forall s: nat :: SenderTallied(StatsOf(perSender, s), rows, s)
  }

  lemma SenderRowsSnoc(rows: seq<Row>, r: Row, s: nat, o: Outcome)
    ensures SenderRows(rows + [r], s, o)
            == SenderRows(rows, s, o) + if r.key.sender == s && r.outcome == o then 1 else 0
  {
    assert (rows + [r])[..|rows + [r]| - 1] == rows;
  }

  lemma FinishTallies(perSender: map<nat, Stats>, rows: seq<Row>, row: Row)
    requires SendersTallied(perSender, rows)
    ensures var after := perSender[row.key.sender := Finished(StatsOf(perSender, row.key.sender), row.outcome)];
            SendersTallied(after, rows + [row])
  {
    hide SenderRows;
    var after := perSender[row.key.sender := Finished(StatsOf(perSender, row.key.sender), row.outcome)];
    forall s: nat ensures SenderTallied(StatsOf(after, s), rows + [row], s) {
      assert SenderTallied(StatsOf(perSender, s), rows, s);
      SenderRowsSnoc(rows, row, s, Landed);
      SenderRowsSnoc(rows, row, s, SendError);
      SenderRowsSnoc(rows, row, s, UnknownPending);
    }
  }

  lemma RegisterTallies(perSender: map<nat, Stats>, rows: seq<Row>, sender: nat)
    requires SendersTallied(perSender, rows)
    ensures var st := StatsOf(perSender, sender);
            SendersTallied(perSender[sender := st.(attempts := st.attempts + 1)], rows)
  {
    hide SenderRows;
    var st := StatsOf(perSender, sender);
    var after := perSender[sender := st.(attempts := st.attempts + 1)];
    forall s: nat ensures SenderTallied(StatsOf(after, s), rows, s) {
      assert SenderTallied(StatsOf(perSender, s), rows, s);
    }
  }

  /** Index and live attempts are in bijection. */
  ghost predicate Mirrored(attempts: map<Key, Attempt>, index: map<nat, Key>) {
    && (forall sig :: sig in index ==> index[sig] in attempts && attempts[index[sig]].sig == sig)
    && (forall k :: k in attempts ==> attempts[k].sig in index && index[attempts[k].sig] == k)
  }

  lemma FinishSenders(perSender: map<nat, Stats>, attempts: map<Key, Attempt>, lost: seq<nat>, key: Key, o: Outcome)
    requires SendersBalanced(perSender, attempts, lost) && key in attempts
    ensures var after := perSender[key.sender := Finished(StatsOf(perSender, key.sender), o)];
            SendersBalanced(after, attempts - {key}, lost)
  {
    hide CountOf, LiveKeys;
    var after := perSender[key.sender := Finished(StatsOf(perSender, key.sender), o)];
    forall s: nat ensures SenderBalanced(StatsOf(after, s), |LiveKeys(attempts - {key}, s)|, CountOf(lost, s)) {
      LiveRemove(attempts, key, s);
      assert SenderBalanced(StatsOf(perSender, s), |LiveKeys(attempts, s)|, CountOf(lost, s));
    }
  }

  lemma RegisterSender(perSender: map<nat, Stats>, attempts: map<Key, Attempt>, lost: seq<nat>, key: Key, a: Attempt,
                       s: nat)
    requires SenderBalanced(StatsOf(perSender, s), |LiveKeys(attempts, s)|, CountOf(lost, s))
    ensures var st := StatsOf(perSender, key.sender);
            SenderBalanced(StatsOf(perSender[key.sender := st.(attempts := st.attempts + 1)], s),
                           |LiveKeys(attempts[key := a], s)|,
                           CountOf(Overwritten(lost, attempts, key), s))
  {
    LiveInsert(attempts, key, a, s);
    CountSnoc(lost, key.sender, s);
    hide LiveKeys, CountOf;
  }

  lemma RegisterSenders(perSender: map<nat, Stats>, attempts: map<Key, Attempt>, lost: seq<nat>, key: Key, a: Attempt)
    requires SendersBalanced(perSender, attempts, lost)
    ensures var st := StatsOf(perSender, key.sender);
            SendersBalanced(perSender[key.sender := st.(attempts := st.attempts + 1)], attempts[key := a],
                            Overwritten(lost, attempts, key))
  {
    hide SenderBalanced, LiveKeys, CountOf, StatsOf, Overwritten;
    var st := StatsOf(perSender, key.sender);
    var after := perSender[key.sender := st.(attempts := st.attempts + 1)];
    var lost' := Overwritten(lost, attempts, key);
    forall s: nat ensures SenderBalanced(StatsOf(after, s), |LiveKeys(attempts[key := a], s)|, CountOf(lost', s)) {
      assert SenderBalanced(StatsOf(perSender, s), |LiveKeys(attempts, s)|, CountOf(lost, s));
      RegisterSender(perSender, attempts, lost, key, a, s);
    }
  }

  /** Attempt by attempt: every registration led to one row, is live, or was overwritten. */
  ghost predicate Booked(registered: multiset<Key>, rows: seq<Row>, attempts: map<Key, Attempt>,
                         overwritten: multiset<Key>, lost: seq<nat>) {
    registered == KeyBag(rows) + multiset(attempts.Keys) + overwritten && |overwritten| == |lost|
  }

  function KeyBag(rows: seq<Row>): multiset<Key> {
    if rows == [] then multiset{} else KeyBag(rows[..|rows| - 1]) + multiset{rows[|rows| - 1].key}
  }

  lemma {:induction false} KeyBagSize(rows: seq<Row>)
    ensures |KeyBag(rows)| == |rows|
  {
    if rows != [] {
      KeyBagSize(rows[..|rows| - 1]);
    }
  }

  function OverwrittenBag(overwritten: multiset<Key>, attempts: map<Key, Attempt>, key: Key): multiset<Key> {
    if key in attempts then overwritten + multiset{key} else overwritten
  }

  lemma BookedFinish(registered: multiset<Key>, rows: seq<Row>, attempts: map<Key, Attempt>,
                     overwritten: multiset<Key>, lost: seq<nat>, row: Row)
    requires Booked(registered, rows, attempts, overwritten, lost) && row.key in attempts
    ensures Booked(registered, rows + [row], attempts - {row.key}, overwritten, lost)
  {
    assert (rows + [row])[..|rows|] == rows;
    assert (attempts - {row.key}).Keys == attempts.Keys - {row.key};
    assert multiset(attempts.Keys) == multiset(attempts.Keys - {row.key}) + multiset{row.key};
  }

  lemma BookedRegister(registered: multiset<Key>, rows: seq<Row>, attempts: map<Key, Attempt>,
                       overwritten: multiset<Key>, lost: seq<nat>, key: Key, a: Attempt)
    requires Booked(registered, rows, attempts, overwritten, lost)
    ensures Booked(registered + multiset{key}, rows, attempts[key := a],
                   OverwrittenBag(overwritten, attempts, key), Overwritten(lost, attempts, key))
  {
    assert attempts[key := a].Keys == attempts.Keys + {key};
    if key in attempts {
      assert attempts.Keys + {key} == attempts.Keys;
    } else {
      assert multiset(attempts.Keys + {key}) == multiset(attempts.Keys) + multiset{key};
    }
  }

  lemma MirroredRemove(attempts: map<Key, Attempt>, index: map<nat, Key>, key: Key)
    requires Mirrored(attempts, index) && key in attempts
    ensures Mirrored(attempts - {key}, index - {attempts[key].sig})
  {
  }

  /** Exactly when a registration keeps the bijection: it must not meet a live key, unless with that
      key's own signature, nor take the signature of another attempt. */
  lemma MirroredInsert(attempts: map<Key, Attempt>, index: map<nat, Key>, key: Key, a: Attempt)
    requires Mirrored(attempts, index)
    ensures Mirrored(attempts[key := a], index[a.sig := key])
            <==> (key in attempts ==> attempts[key].sig == a.sig) && (a.sig in index ==> index[a.sig] == key)
  {
    var attempts', index' := attempts[key := a], index[a.sig := key];
    var formerSig := if key in attempts then attempts[key].sig else a.sig;
    var owner := if a.sig in index then index[a.sig] else key;
    assert formerSig in index' && owner in attempts';
  }

  /** The run-wide counters. */
  datatype Totals = Totals(registered: nat, landed: nat, sendErrors: nat, unknownPending: nat)

  function Tallied(t: Totals, o: Outcome): Totals {
    match o
    case Landed => t.(landed := t.landed + 1)
    case SendError => t.(sendErrors := t.sendErrors + 1)
    case UnknownPending => t.(unknownPending := t.unknownPending + 1)
  }

  /** Conservation, overall and per sender; the totals count the rows written. */
  ghost predicate Conserved(t: Totals, attempts: map<Key, Attempt>, perSender: map<nat, Stats>, lost: seq<nat>,
                            rows: seq<Row>) {
    && t.registered == t.landed + t.sendErrors + t.unknownPending + |attempts| + |lost|
    && SendersBalanced(perSender, attempts, lost)
    && t.landed == RowCount(rows, Landed) && t.sendErrors == RowCount(rows, SendError)
    && t.unknownPending == RowCount(rows, UnknownPending)
    && |rows| == t.landed + t.sendErrors + t.unknownPending
  }

  lemma NothingConserves()
    ensures Conserved(Totals(0, 0, 0, 0), map[], map[], [], [])
  {
    forall s: nat ensures LiveKeys(map[], s) == {} {
    }
  }

  lemma FinishConserves(t: Totals, attempts: map<Key, Attempt>, perSender: map<nat, Stats>, lost: seq<nat>,
                        rows: seq<Row>, key: Key, o: Outcome)
    requires Conserved(t, attempts, perSender, lost, rows) && key in attempts
    ensures Conserved(Tallied(t, o), attempts - {key},
                      perSender[key.sender := Finished(StatsOf(perSender, key.sender), o)], lost,
                      rows + [Row(key, attempts[key].sig, o)])
  {
    var row := Row(key, attempts[key].sig, o);
    FinishSenders(perSender, attempts, lost, key, o);
    LiveRemove(attempts, key, key.sender);
    RowSnoc(rows, row, Landed);
    RowSnoc(rows, row, SendError);
    RowSnoc(rows, row, UnknownPending);
    hide SendersBalanced, RowCount, LiveKeys;
  }

  lemma RegisterConserves(t: Totals, attempts: map<Key, Attempt>, perSender: map<nat, Stats>, lost: seq<nat>,
                          rows: seq<Row>, key: Key, a: Attempt)
    requires Conserved(t, attempts, perSender, lost, rows)
    ensures var st := StatsOf(perSender, key.sender);
            Conserved(t.(registered := t.registered + 1), attempts[key := a],
                      perSender[key.sender := st.(attempts := st.attempts + 1)],
                      Overwritten(lost, attempts, key), rows)
  {
    hide SendersBalanced, RowCount, LiveKeys, StatsOf;
    RegisterSenders(perSender, attempts, lost, key, a);
    LiveInsert(attempts, key, a, key.sender);
  }

  lemma SentConserves(t: Totals, attempts: map<Key, Attempt>, perSender: map<nat, Stats>, lost: seq<nat>,
                      rows: seq<Row>, key: Key, a: Attempt)
    requires Conserved(t, attempts, perSender, lost, rows) && key in attempts
    ensures Conserved(t, attempts[key := a], perSender, lost, rows)
  {
    SameLive(attempts, key, a);
    SameBalance(perSender, attempts, attempts[key := a], lost);
    hide SendersBalanced, RowCount, LiveKeys;
  }

  /** Landed triggers were attempted, and so was the trigger of every live attempt. */
  ghost predicate TriggersOf(attempted: set<nat>, landed: set<nat>, attempts: map<Key, Attempt>) {
    landed <= attempted && forall k :: k in attempts ==> k.trigger in attempted
  }

  lemma TriggersRegister(attempted: set<nat>, landed: set<nat>, attempts: map<Key, Attempt>, key: Key, a: Attempt)
    requires TriggersOf(attempted, landed, attempts)
    ensures TriggersOf(attempted + {key.trigger}, landed, attempts[key := a])
  {
  }

  lemma TriggersFinish(attempted: set<nat>, landed: set<nat>, attempts: map<Key, Attempt>, key: Key)
    requires TriggersOf(attempted, landed, attempts) && key in attempts
    ensures TriggersOf(attempted, landed + {key.trigger}, attempts - {key})
    ensures TriggersOf(attempted, landed, attempts - {key}) && landed + {} == landed
  {
  }

  /** The earliest and the latest send time. */
  ghost predicate Window(first: Option<nat>, last: Option<nat>, sends: seq<nat>) {
    if sends == [] then first.None? && last.None?
    else first.Some? && last.Some? && Bounds(first.value, last.value, sends)
  }

  function TimingOf(m: map<nat, Timing>, s: nat): Timing {
    if s in m then m[s] else NO_TIMING
  }

  /** From one instant to a later one, or none, in whole microseconds. */
  function Elapsed(from: nat, to: nat): nat {
    SatSub(to, from) / 1000
  }

  /** The measurements `(sender, value)` of one sender. */
  function ValuesOf(ms: seq<(nat, nat)>, s: nat): seq<nat> {
    if ms == [] then []
    else ValuesOf(ms[..|ms| - 1], s) + if ms[|ms| - 1].0 == s then [ms[|ms| - 1].1] else []
  }

  /** Every sender's sums and counts are those of its own measurements. */
  ghost predicate Timed(timing: map<nat, Timing>, rtts: seq<(nat, nat)>, observed: seq<(nat, nat)>) {
    forall s: nat :: TimedSender(TimingOf(timing, s), ValuesOf(rtts, s), ValuesOf(observed, s))
  }

  ghost predicate TimedSender(t: Timing, rtts: seq<nat>, observed: seq<nat>) {
    t == Timing(Sum(rtts), |rtts|, Sum(observed), |observed|)
  }

  function RttNoted(t: Timing, us: nat): Timing {
    t.(rttSum := t.rttSum + us, rttCount := t.rttCount + 1)
  }

  function ObservedNoted(t: Timing, us: nat): Timing {
    t.(observedSum := t.observedSum + us, observedCount := t.observedCount + 1)
  }

  lemma ValuesSnoc(ms: seq<(nat, nat)>, m: (nat, nat), s: nat)
    ensures ValuesOf(ms + [m], s) == ValuesOf(ms, s) + if m.0 == s then [m.1] else []
  {
    assert (ms + [m])[..|ms + [m]| - 1] == ms;
  }

  lemma TimedSnoc(timing: map<nat, Timing>, rtts: seq<(nat, nat)>, observed: seq<(nat, nat)>, m: (nat, nat))
    requires Timed(timing, rtts, observed)
    ensures var t := TimingOf(timing, m.0);
            && Timed(timing[m.0 := RttNoted(t, m.1)], rtts + [m], observed)
            && Timed(timing[m.0 := ObservedNoted(t, m.1)], rtts, observed + [m])
  {
    hide ValuesOf, Sum;
    var t := TimingOf(timing, m.0);
    forall s: nat
      ensures TimedSender(TimingOf(timing[m.0 := RttNoted(t, m.1)], s),
                          ValuesOf(rtts + [m], s), ValuesOf(observed, s))
      ensures TimedSender(TimingOf(timing[m.0 := ObservedNoted(t, m.1)], s),
                          ValuesOf(rtts, s), ValuesOf(observed + [m], s))
    {
      assert TimedSender(TimingOf(timing, s), ValuesOf(rtts, s), ValuesOf(observed, s));
      ValuesSnoc(rtts, m, s);
      ValuesSnoc(observed, m, s);
      StatsSnoc(ValuesOf(rtts, s), m.1);
      StatsSnoc(ValuesOf(observed, s), m.1);
      AppendNothing(ValuesOf(rtts, s));
      AppendNothing(ValuesOf(observed, s));
    }
  }

  // ---------------------------------------------------------------- what every event does

  /** The rows in no order; the senders with statistics; and, as they came, the senders and attempts that a
      registration overwrote, the send times and the measurements. */
  datatype State = State(
    attempts: map<Key, Attempt>, index: map<nat, Key>, rows: multiset<Row>, senders: set<nat>,
    registered: multiset<Key>, overwritten: multiset<Key>, lost: seq<nat>,
    sends: seq<nat>, rtts: seq<(nat, nat)>, observed: seq<(nat, nat)>,
    triggersAttempted: set<nat>, triggersLanded: set<nat>)

  const EMPTY := State(map[], map[], multiset{}, {}, multiset{}, multiset{}, [], [], [], [], {}, {})

  function Sent(attempts: map<Key, Attempt>, key: Key, at: nat): map<Key, Attempt> {
    if key in attempts then attempts[key := attempts[key].(sentAt := Some(at))] else attempts
  }

  function SigsOf(attempts: map<Key, Attempt>, keys: set<Key>): set<nat> {
    set k | k in keys && k in attempts :: attempts[k].sig
  }

  /** An attempt is removed with its signature, and gets its row. */
  function Finish(m: State, key: Key, o: Outcome, us: Option<nat>): State
    requires key in m.attempts
  {
    m.(attempts := m.attempts - {key},
       index := m.index - {m.attempts[key].sig},
       rows := m.rows + multiset{Row(key, m.attempts[key].sig, o)},
       senders := m.senders + {key.sender},
       observed := m.observed + if o.Landed? && us.Some? then [(key.sender, us.value)] else [],
       triggersLanded := m.triggersLanded + if o.Landed? then {key.trigger} else {})
  }

  function UnknownRows(attempts: map<Key, Attempt>, keys: set<Key>): set<Row> {
    set k | k in keys && k in attempts :: Row(k, attempts[k].sig, UnknownPending)
  }

  function Retire(m: State, keys: set<Key>): State {
    m.(attempts := m.attempts - keys,
       index := m.index - SigsOf(m.attempts, keys),
       rows := m.rows + multiset(UnknownRows(m.attempts, keys)),
       senders := m.senders + SendersOf(keys))
  }

  function Expired(m: State, now: nat): set<Key> {
    set k | k in m.attempts && m.attempts[k].deadlineAt <= now
  }

  function Registered(m: State, key: Key, a: Attempt): State {
    m.(attempts := m.attempts[key := a],
       index := m.index[a.sig := key],
       senders := m.senders + {key.sender},
       registered := m.registered + multiset{key},
       overwritten := OverwrittenBag(m.overwritten, m.attempts, key),
       lost := Overwritten(m.lost, m.attempts, key),
       triggersAttempted := m.triggersAttempted + {key.trigger})
  }

  /** A send is recorded whether or not its attempt is live; its round trip only of a known sender. */
  function SendNoted(m: State, key: Key, sendAt: nat, ackAt: Option<nat>): State {
    m.(attempts := Sent(m.attempts, key, sendAt),
       sends := m.sends + [sendAt],
       rtts := m.rtts + if key.sender in m.senders && ackAt.Some?
                        then [(key.sender, Elapsed(sendAt, ackAt.value))] else [])
  }

  function Measured(sentAt: Option<nat>, observedAt: nat): Option<nat> {
    if sentAt.Some? then Some(Elapsed(sentAt.value, observedAt)) else None
  }

  function Step(m: State, op: Op, deadline: nat): State {
    match op
    case Register(key, sig, at) => Registered(m, key, Attempt(sig, at + deadline, None))
    case Send(key, sendAt, ackAt, failed) =>
      var sent := SendNoted(m, key, sendAt, ackAt);
      if key in m.attempts && failed then Finish(sent, key, SendError, None) else sent
    case Match(sig, at) =>
      if sig !in m.index then m
      else if m.index[sig] !in m.attempts then m.(index := m.index - {sig})
      else Finish(m, m.index[sig], Landed, Measured(m.attempts[m.index[sig]].sentAt, at))
    case Sweep(now) => Retire(m, Expired(m, now))
    case Flush => Retire(m, m.attempts.Keys)
  }

  function Run(ops: seq<Op>, n: nat, deadline: nat): State
    requires n <= |ops|
  {
    if n == 0 then EMPTY else Step(Run(ops, n - 1, deadline), ops[n - 1], deadline)
  }

  lemma RetireNone(m: State)
    ensures Retire(m, {}) == m
  {
    assert SigsOf(m.attempts, {}) == {} && UnknownRows(m.attempts, {}) == {};
    assert m.senders + SendersOf({}) == m.senders;
  }

  lemma SigsNext(attempts: map<Key, Attempt>, gone: set<Key>, key: Key)
    requires key in attempts
    ensures SigsOf(attempts, gone + {key}) == SigsOf(attempts, gone) + {attempts[key].sig}
  {
  }

  lemma RowsNext(attempts: map<Key, Attempt>, gone: set<Key>, key: Key)
    requires key in attempts && key !in gone
    ensures multiset(UnknownRows(attempts, gone + {key}))
            == multiset(UnknownRows(attempts, gone)) + multiset{Row(key, attempts[key].sig, UnknownPending)}
  {
    var row := Row(key, attempts[key].sig, UnknownPending);
    assert UnknownRows(attempts, gone + {key}) == UnknownRows(attempts, gone) + {row};
    assert row !in UnknownRows(attempts, gone);
  }

  function SendersOf(keys: set<Key>): set<nat> {
    set k | k in keys :: k.sender
  }

  lemma SendersNext(gone: set<Key>, key: Key)
    ensures SendersOf({}) == {} && SendersOf(gone + {key}) == SendersOf(gone) + {key.sender}
  {
  }

  lemma RetireOneMore(m: State, gone: set<Key>, key: Key)
    requires gone <= m.attempts.Keys && key in m.attempts && key !in gone
    ensures key in Retire(m, gone).attempts
    ensures Retire(m, gone + {key}) == Finish(Retire(m, gone), key, UnknownPending, None)
  {
    hide SigsOf, UnknownRows, SendersOf;
    SigsNext(m.attempts, gone, key);
    RowsNext(m.attempts, gone, key);
    SendersNext(gone, key);
  }

  // ---------------------------------------------------------------- what every run keeps

  /** Operation `op`, in state `m`, is why attempt `r.key` got the row `r`. */
  predicate Causes(m: State, op: Op, r: Row) {
    && r.key in m.attempts && m.attempts[r.key].sig == r.sig
    && match r.outcome
       case Landed => op.Match? && op.sig in m.index && m.index[op.sig] == r.key
       case SendError => op.Send? && op.key == r.key && op.failed
       case UnknownPending => op.Flush? || (op.Sweep? && m.attempts[r.key].deadlineAt <= op.now)
  }

  /** The rows an operation writes are exactly those it causes, each once. */
  lemma RowsExactly(m: State, op: Op, deadline: nat, r: Row)
    ensures Step(m, op, deadline).rows[r] == m.rows[r] + if Causes(m, op, r) then 1 else 0
  {
    if op.Sweep? {
      assert r in UnknownRows(m.attempts, Expired(m, op.now)) <==> Causes(m, op, r);
    } else if op.Flush? {
      assert r in UnknownRows(m.attempts, m.attempts.Keys) <==> Causes(m, op, r);
    }
  }

  function CauseCount(ops: seq<Op>, n: nat, deadline: nat, r: Row): nat
    requires n <= |ops|
  {
    if n == 0 then 0
    else CauseCount(ops, n - 1, deadline, r) + if Causes(Run(ops, n - 1, deadline), ops[n - 1], r) then 1 else 0
  }

  /** Over any run, a row is written once for every event that causes it, and for no other reason. */
  lemma {:induction false} EveryRowHasItsCause(ops: seq<Op>, n: nat, deadline: nat, r: Row)
    requires n <= |ops|
    ensures Run(ops, n, deadline).rows[r] == CauseCount(ops, n, deadline, r)
  {
    hide Step, Causes;
    if n > 0 {
      EveryRowHasItsCause(ops, n - 1, deadline, r);
      RowsExactly(Run(ops, n - 1, deadline), ops[n - 1], deadline, r);
    }
  }

  lemma MirroredRetire(m: State, keys: set<Key>)
    requires Mirrored(m.attempts, m.index) && keys <= m.attempts.Keys
    ensures Mirrored(Retire(m, keys).attempts, Retire(m, keys).index)
  {
    assert forall k :: k in m.attempts ==> m.index[m.attempts[k].sig] == k;
  }

  /** Exactly one kind of event can break the bijection: a registration that collides. */
  lemma MirroredStep(m: State, op: Op, deadline: nat)
    requires Mirrored(m.attempts, m.index)
    ensures Mirrored(Step(m, op, deadline).attempts, Step(m, op, deadline).index)
            <==> (op.Register? ==>
                    && (op.key in m.attempts ==> m.attempts[op.key].sig == op.sig)
                    && (op.sig in m.index ==> m.index[op.sig] == op.key))
  {
    match op
    case Register(key, sig, at) =>
      MirroredInsert(m.attempts, m.index, key, Attempt(sig, at + deadline, None));
    case Send(key, sendAt, ackAt, failed) =>
      if key in m.attempts && failed {
        MirroredRemove(SendNoted(m, key, sendAt, ackAt).attempts, m.index, key);
      }
    case Match(sig, at) =>
      if sig in m.index {
        MirroredRemove(m.attempts, m.index, m.index[sig]);
      }
    case Sweep(now) =>
      MirroredRetire(m, Expired(m, now));
    case Flush =>
      MirroredRetire(m, m.attempts.Keys);
  }

  /** Attempts and indexed signatures stem from registrations. */
  lemma {:induction false} RunGrounded(ops: seq<Op>, n: nat, deadline: nat)
    requires n <= |ops|
    ensures Run(ops, n, deadline).attempts.Keys <= RegisteredKeys(ops, n)
    ensures Run(ops, n, deadline).index.Keys <= RegisteredSigs(ops, n)
  {
    if n > 0 {
      RunGrounded(ops, n - 1, deadline);
      StepGrounded(Run(ops, n - 1, deadline), ops[n - 1], deadline);
      hide Step;
    }
  }

  lemma StepGrounded(m: State, op: Op, deadline: nat)
    ensures Step(m, op, deadline).attempts.Keys <= m.attempts.Keys + if op.Register? then {op.key} else {}
    ensures Step(m, op, deadline).index.Keys <= m.index.Keys + if op.Register? then {op.sig} else {}
  {
  }

  /** With distinct keys and signatures, index and live attempts are in bijection at every step, and nothing is
      ever overwritten. */
  lemma {:induction false} DistinctRunIsMirrored(ops: seq<Op>, n: nat, deadline: nat)
    requires n <= |ops| && DistinctRegistrations(ops)
    ensures var m := Run(ops, n, deadline); Mirrored(m.attempts, m.index) && m.overwritten == multiset{} && m.lost == []
  {
    if n > 0 {
      DistinctRunIsMirrored(ops, n - 1, deadline);
      RunGrounded(ops, n - 1, deadline);
      NextIsFresh(ops, n - 1);
      MirroredStep(Run(ops, n - 1, deadline), ops[n - 1], deadline);
      StepOverwrites(Run(ops, n - 1, deadline), ops[n - 1], deadline);
      hide Step, Mirrored, DistinctRegistrations;
    }
  }

  /** Exactly what an operation adds to the account of registrations and of overwritten attempts. */
  lemma StepOverwrites(m: State, op: Op, deadline: nat)
    ensures var r := Step(m, op, deadline);
            && r.registered == m.registered + (if op.Register? then multiset{op.key} else multiset{})
            && r.overwritten == m.overwritten
                                + (if op.Register? && op.key in m.attempts then multiset{op.key} else multiset{})
            && r.lost == m.lost + (if op.Register? && op.key in m.attempts then [op.key.sender] else [])
  {
  }

  /** The registrations of key `k` that meet it live. */
  function OverwriteCount(ops: seq<Op>, n: nat, deadline: nat, k: Key): nat
    requires n <= |ops|
  {
    if n == 0 then 0
    else
      OverwriteCount(ops, n - 1, deadline, k)
      + if ops[n - 1].Register? && ops[n - 1].key == k && k in Run(ops, n - 1, deadline).attempts then 1 else 0
  }

  lemma OverwriteStep(m: State, op: Op, deadline: nat, k: Key)
    ensures Step(m, op, deadline).overwritten[k]
            == m.overwritten[k] + if op.Register? && op.key == k && k in m.attempts then 1 else 0
  {
    StepOverwrites(m, op, deadline);
    hide Step;
  }

  /** What is overwritten is exactly what was registered while live. */
  lemma {:induction false} OverwrittenExactly(ops: seq<Op>, n: nat, deadline: nat, k: Key)
    requires n <= |ops|
    ensures Run(ops, n, deadline).overwritten[k] == OverwriteCount(ops, n, deadline, k)
  {
    hide Step;
    if n > 0 {
      OverwrittenExactly(ops, n - 1, deadline, k);
      OverwriteStep(Run(ops, n - 1, deadline), ops[n - 1], deadline, k);
    }
  }

  lemma {:induction false} RegisteredExactly(ops: seq<Op>, n: nat, deadline: nat)
    requires n <= |ops|
    ensures Run(ops, n, deadline).registered == RegisteredBag(ops, n)
  {
    hide Step;
    if n > 0 {
      RegisteredExactly(ops, n - 1, deadline);
      StepOverwrites(Run(ops, n - 1, deadline), ops[n - 1], deadline);
    }
  }

  /** With distinct registrations a row that says landed carries the signature that was matched. */
  lemma LandedIsTheMatched(ops: seq<Op>, q: nat, deadline: nat, r: Row)
    requires q < |ops| && DistinctRegistrations(ops) && r.outcome.Landed? && Causes(Run(ops, q, deadline), ops[q], r)
    ensures ops[q].Match? && ops[q].sig == r.sig
  {
    DistinctRunIsMirrored(ops, q, deadline);
    hide Run, DistinctRegistrations;
  }

  function RegisteredBag(ops: seq<Op>, n: nat): multiset<Key>
    requires n <= |ops|
  {
    if n == 0 then multiset{}
    else RegisteredBag(ops, n - 1) + if ops[n - 1].Register? then multiset{ops[n - 1].key} else multiset{}
  }

  function RegisteredKeys(ops: seq<Op>, n: nat): set<Key>
    requires n <= |ops|
  {
    if n == 0 then {} else RegisteredKeys(ops, n - 1) + if ops[n - 1].Register? then {ops[n - 1].key} else {}
  }

  function RegisteredSigs(ops: seq<Op>, n: nat): set<nat>
    requires n <= |ops|
  {
    if n == 0 then {} else RegisteredSigs(ops, n - 1) + if ops[n - 1].Register? then {ops[n - 1].sig} else {}
  }

  lemma {:induction false} RegisteredEarlier(ops: seq<Op>, n: nat)
    requires n <= |ops|
    ensures forall k :: k in RegisteredKeys(ops, n) ==> exists i :: 0 <= i < n && ops[i].Register? && ops[i].key == k
    ensures forall s :: s in RegisteredSigs(ops, n) ==> exists i :: 0 <= i < n && ops[i].Register? && ops[i].sig == s
  {
    if n > 0 {
      RegisteredEarlier(ops, n - 1);
    }
  }

  lemma NextIsFresh(ops: seq<Op>, n: nat)
    requires n < |ops|
    ensures DistinctRegistrations(ops) && ops[n].Register? ==>
              ops[n].key !in RegisteredKeys(ops, n) && ops[n].sig !in RegisteredSigs(ops, n)
  {
    RegisteredEarlier(ops, n);
  }

  lemma {:induction false} RegisteredOnce(ops: seq<Op>, n: nat)
    requires n <= |ops| && DistinctRegistrations(ops)
    ensures forall k :: RegisteredBag(ops, n)[k] == if k in RegisteredKeys(ops, n) then 1 else 0
  {
    if n > 0 {
      RegisteredOnce(ops, n - 1);
      NextIsFresh(ops, n - 1);
      hide DistinctRegistrations;
    }
  }

  /** No key and no signature is registered twice. */
  ghost predicate DistinctRegistrations(ops: seq<Op>) {
    forall i, j :: 0 <= i < j < |ops| && ops[i].Register? && ops[j].Register?
                   ==> ops[i].key != ops[j].key && ops[i].sig != ops[j].sig
  }

  ghost predicate Bounds(lo: nat, hi: nat, ns: seq<nat>) {
    lo in ns && hi in ns && forall i :: 0 <= i < |ns| ==> lo <= ns[i] <= hi
  }

  lemma BoundsSnoc(ns: seq<nat>, n: nat)
    ensures Bounds(n, n, [n])
    ensures forall lo, hi :: Bounds(lo, hi, ns) ==> Bounds(Min(lo, n), Max(hi, n), ns + [n])
  {
    forall lo, hi | Bounds(lo, hi, ns) ensures Bounds(Min(lo, n), Max(hi, n), ns + [n]) {
      assert (ns + [n])[|ns|] == n;
    }
  }

  lemma SameLive(attempts: map<Key, Attempt>, key: Key, a: Attempt)
    requires key in attempts
    ensures attempts[key := a].Keys == attempts.Keys && |attempts[key := a]| == |attempts|
  {
    assert attempts[key := a].Keys == attempts.Keys;
    assert |attempts[key := a].Keys| == |attempts.Keys|;
  }

  lemma SameBalance(perSender: map<nat, Stats>, was: map<Key, Attempt>, attempts: map<Key, Attempt>, lost: seq<nat>)
    requires SendersBalanced(perSender, was, lost) && attempts.Keys == was.Keys
    ensures SendersBalanced(perSender, attempts, lost)
  {
    forall s ensures LiveKeys(attempts, s) == LiveKeys(was, s) {
    }
  }
}
