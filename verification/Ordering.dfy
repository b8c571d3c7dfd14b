/** The per-slot ordering tracker. A report is compared with the arrivals it covers, and the reports of
    a slot over a whole run with all of that slot's arrivals. */
module OrderingTracking {
  import opened Common

  /** One entry as its slot sees it: its index and its transaction count. */
  datatype Seen = Seen(index: nat, txs: nat)

  datatype Arrival = Arrival(slot: nat, entry: Seen)

  /** `lastEntry` pairs the highest index so far with the transaction count of the entry that set it. */
  datatype Progress = Progress(
    indices: set<nat>, top: nat, outOfOrder: nat, maxBackwardGap: nat, lastEntry: Option<Seen>)

  const FRESH := Progress({}, 0, 0, 0, None)

  datatype Report = Report(
    slot: nat, entriesSeen: nat, maxIndex: nat, outOfOrder: nat, maxBackwardGap: nat,
    missing: seq<nat>, lastWasTick: bool, lastTxs: nat)

  datatype Totals = Totals(
    sealed: nat, fullyOrdered: nat, disordered: nat, gapped: nat, endingOnTick: nat,
    outOfOrder: nat, missing: nat)

  const ZERO := Totals(0, 0, 0, 0, 0, 0, 0)

  // ---------------------------------------------------------------- one slot

  function Noted(p: Progress, e: Seen): Progress {
    var q :=
      if e.index < p.top then
        p.(outOfOrder := p.outOfOrder + 1, maxBackwardGap := Max(p.maxBackwardGap, p.top - e.index))
      else if e.index > p.top then
        p.(top := e.index, lastEntry := Some(e))
      else p;
    q.(indices := p.indices + {e.index})
  }

  function Replay(es: seq<Seen>): Progress {
    if es == [] then FRESH else Noted(Replay(es[..|es| - 1]), es[|es| - 1])
  }

  lemma ReplaySnoc(es: seq<Seen>, e: Seen)
    ensures Replay(es + [e]) == Noted(Replay(es), e)
  {
    assert (es + [e])[..|es + [e]| - 1] == es;
  }

  function Absent(indices: set<nat>, n: nat): seq<nat> {
    if n == 0 then [] else Absent(indices, n - 1) + if n - 1 in indices then [] else [n - 1]
  }

  function ReportOf(slot: nat, p: Progress): Report {
    var last := if p.lastEntry.Some? then p.lastEntry.value else Seen(0, 0);
    var missing := if p.indices == {} then [] else Absent(p.indices, last.index + 1);
    Report(slot, |p.indices|, last.index, p.outOfOrder, p.maxBackwardGap, missing, last.txs == 0, last.txs)
  }

  // What a report is meant to say, in terms of the arrivals alone.

  function Indices(es: seq<Seen>): set<nat> {
    set i | 0 <= i < |es| :: es[i].index
  }

  /** Position `k` holds the first arrival with the highest index. */
  ghost predicate FirstAtTop(es: seq<Seen>, k: nat) {
    && k < |es|
    && (forall i :: 0 <= i < |es| ==> es[i].index <= es[k].index)
    && (forall i :: 0 <= i < k ==> es[i].index < es[k].index)
  }

  /** The arrivals that some earlier arrival overtook. */
  ghost function Overtaken(es: seq<Seen>): set<nat> {
    set j | 0 <= j < |es| && exists i :: 0 <= i < j && es[i].index > es[j].index
  }

  ghost predicate InOrder(es: seq<Seen>) {
    forall i, j :: 0 <= i < j < |es| ==> es[i].index <= es[j].index
  }

  ghost predicate Drop(es: seq<Seen>, i: nat, j: nat, gap: nat) {
    i < j < |es| && es[i].index == es[j].index + gap
  }

  /** `gap` is the largest drop from an arrival to a later one, or 0 if there is none. */
  ghost predicate LargestDrop(es: seq<Seen>, gap: nat) {
    && (forall i, j :: 0 <= i < j < |es| ==> es[i].index <= es[j].index + gap)
    && (gap > 0 ==> exists i: nat, j: nat :: Drop(es, i, j, gap))
  }

  lemma {:induction false} ReplayTop(es: seq<Seen>) returns (k: nat)
    requires es != []
    ensures FirstAtTop(es, k) && Replay(es).top == es[k].index && Replay(es).indices == Indices(es)
    ensures Replay(es).lastEntry == if es[k].index > 0 then Some(es[k]) else None
  {
    var n := |es| - 1;
    if n == 0 {
      k := 0;
      assert Replay(es[..0]) == FRESH;
    } else {
      var before := ReplayTop(es[..n]);
      k := if es[n].index > es[before].index then n else before;
      assert Indices(es) == Indices(es[..n]) + {es[n].index};
    }
  }

  lemma TopIsUnique(es: seq<Seen>, j: nat, k: nat)
    requires FirstAtTop(es, j) && FirstAtTop(es, k)
    ensures j == k
  {
    assert es[j].index == es[k].index;
  }

  lemma {:induction false} ReplayOvertaken(es: seq<Seen>)
    ensures Replay(es).outOfOrder == |Overtaken(es)|
  {
    hide Overtaken;
    if es == [] {
      NoneOvertaken(es);
    } else {
      var n := |es| - 1;
      ReplayOvertaken(es[..n]);
      if n == 0 {
        NoneOvertaken(es);
        assert Replay(es[..0]) == FRESH;
      } else {
        var k := ReplayTop(es[..n]);
        OvertakenStep(es, k);
      }
    }
  }

  lemma NoneOvertaken(es: seq<Seen>)
    requires |es| <= 1
    ensures |Overtaken(es)| == 0
  {
    assert Overtaken(es) == {};
  }

  lemma OvertakenStep(es: seq<Seen>, k: nat)
    requires |es| > 1 && FirstAtTop(es[..|es| - 1], k)
    ensures var n := |es| - 1;
            |Overtaken(es)| == |Overtaken(es[..n])| + if es[n].index < es[k].index then 1 else 0
  {
    var n := |es| - 1;
    var was := Overtaken(es[..n]);
    forall j: nat | j < n
      ensures j in Overtaken(es) <==> j in was
    {
      OvertakenIn(es, j);
    }
    assert es[..n][k] == es[k];
    if es[n].index < es[k].index {
      assert n in Overtaken(es);
      assert Overtaken(es) == was + {n};
    } else {
      forall i | 0 <= i < n ensures es[i].index <= es[n].index {
        assert es[..n][i] == es[i];
      }
      assert n !in Overtaken(es);
      assert Overtaken(es) == was;
    }
  }

  lemma OvertakenIn(es: seq<Seen>, j: nat)
    requires j < |es| - 1
    ensures j in Overtaken(es) <==> j in Overtaken(es[..|es| - 1])
  {
    var before := es[..|es| - 1];
    if i :| 0 <= i < j && es[i].index > es[j].index {
      assert before[i].index > before[j].index;
    }
    if i :| 0 <= i < j && before[i].index > before[j].index {
      assert es[i].index > es[j].index;
    }
  }

  lemma OvertakenIsDisorder(es: seq<Seen>)
    ensures |Overtaken(es)| == 0 <==> InOrder(es)
  {
    if !InOrder(es) {
      var i, j :| 0 <= i < j < |es| && es[i].index > es[j].index;
      assert j in Overtaken(es);
    } else {
      assert Overtaken(es) == {};
    }
  }

  lemma {:induction false} ReplayDrop(es: seq<Seen>)
    ensures LargestDrop(es, Replay(es).maxBackwardGap)
  {
    if es != [] {
      var n := |es| - 1;
      ReplayDrop(es[..n]);
      var was, gap := Replay(es[..n]).maxBackwardGap, Replay(es).maxBackwardGap;
      if n > 0 {
        var k := ReplayTop(es[..n]);
        DropStep(es, k, was, gap);
      } else {
        assert Replay(es[..0]) == FRESH;
      }
    }
  }

  lemma DropStep(es: seq<Seen>, k: nat, was: nat, gap: nat)
    requires |es| > 1 && FirstAtTop(es[..|es| - 1], k) && LargestDrop(es[..|es| - 1], was)
    requires gap == Max(was, SatSub(es[k].index, es[|es| - 1].index))
    ensures LargestDrop(es, gap)
  {
    var n := |es| - 1;
    forall i, j | 0 <= i < j < |es| ensures es[i].index <= es[j].index + gap {
      assert es[i] == es[..n][i];
      if j < n {
        assert es[j] == es[..n][j];
      }
    }
    if gap > was {
      assert Drop(es, k, n, gap);
    } else if gap > 0 {
      var i: nat, j: nat :| Drop(es[..n], i, j, gap);
      assert Drop(es, i, j, gap);
    }
  }

  lemma IncreasingSnoc(ks: seq<nat>, k: nat)
    requires Increasing(ks) && forall j :: j in ks ==> j < k
    ensures Increasing(ks + []) && Increasing(ks + [k])
  {
    forall i, j | 0 <= i < j < |ks + [k]| ensures (ks + [k])[i] < (ks + [k])[j] {
      assert ks[i] in ks;
    }
    assert ks + [] == ks;
  }

  function Below(indices: set<nat>, n: nat): set<nat> {
    set k | k in indices && k < n
  }

  lemma BelowNext(indices: set<nat>, n: nat)
    ensures Below(indices, 0) == {}
    ensures |Below(indices, n + 1)| == |Below(indices, n)| + if n in indices then 1 else 0
  {
    assert Below(indices, n + 1) == Below(indices, n) + if n in indices then {n} else {};
  }

  lemma {:induction false} AbsentIsOrdered(indices: set<nat>, n: nat)
    ensures Increasing(Absent(indices, n))
    ensures forall k :: k in Absent(indices, n) <==> 0 <= k < n && k !in indices
  {
    if n > 0 {
      hide Increasing;
      AbsentIsOrdered(indices, n - 1);
      IncreasingSnoc(Absent(indices, n - 1), n - 1);
    }
  }

  lemma {:induction false} AbsentIsComplement(indices: set<nat>, n: nat)
    ensures |Absent(indices, n)| + |Below(indices, n)| == n
  {
    hide Below;
    if n == 0 {
      BelowNext(indices, 0);
    } else {
      AbsentIsComplement(indices, n - 1);
      BelowNext(indices, n - 1);
    }
  }

  /** The disorder figures of a report, against its arrivals. */
  lemma ReportCountsDisorder(slot: nat, es: seq<Seen>)
    ensures var r := ReportOf(slot, Replay(es));
            && r.outOfOrder == |Overtaken(es)| && (r.outOfOrder == 0 <==> InOrder(es))
            && LargestDrop(es, r.maxBackwardGap)
  {
    ReplayOvertaken(es);
    OvertakenIsDisorder(es);
    ReplayDrop(es);
  }

  lemma IndicesUpTo(es: seq<Seen>, k: nat)
    requires FirstAtTop(es, k)
    ensures es[k].index in Indices(es) && forall i :: i in Indices(es) ==> i <= es[k].index
    ensures Below(Indices(es), es[k].index + 1) == Indices(es)
  {
    assert es[k].index in Indices(es);
  }

  /** The index figures of a report, against its arrivals. */
  lemma ReportFindsGaps(slot: nat, es: seq<Seen>)
    requires es != []
    ensures var r := ReportOf(slot, Replay(es));
            && r.entriesSeen == |Indices(es)| && r.maxIndex in Indices(es)
            && (forall i :: i in Indices(es) ==> i <= r.maxIndex)
            && Increasing(r.missing) && (forall k :: k in r.missing <==> 0 <= k <= r.maxIndex && k !in Indices(es))
            && r.entriesSeen + |r.missing| == r.maxIndex + 1
  {
    var k := ReplayTop(es);
    IndicesUpTo(es, k);
    AbsentIsOrdered(Indices(es), es[k].index + 1);
    AbsentIsComplement(Indices(es), es[k].index + 1);
    hide Indices, Below, Increasing, Absent, Replay, FirstAtTop;
  }

  /** The `last_entry_*` figures describe the first arrival with the highest index exactly when that
      index is positive or that entry is a tick: an entry at index 0 never becomes the last entry. */
  lemma LastEntryIsTopExactly(slot: nat, es: seq<Seen>, k: nat)
    requires FirstAtTop(es, k)
    ensures var r := ReportOf(slot, Replay(es));
            && (r.lastTxs == es[k].txs <==> es[k].index > 0 || es[k].txs == 0)
            && (r.lastWasTick == (es[k].txs == 0) <==> es[k].index > 0 || es[k].txs == 0)
  {
    var j := ReplayTop(es);
    TopIsUnique(es, j, k);
  }

  lemma LoneEntryReportedAsTick()
    ensures var es := [Seen(0, 7)];
            FirstAtTop(es, 0) && es[0].txs != 0 && ReportOf(1, Replay(es)).lastWasTick
  {
    assert Replay([Seen(0, 7)][..0]) == FRESH;
  }

  // ---------------------------------------------------------------- a slot over a whole run

  function HighWater(stream: seq<Arrival>): nat {
    if stream == [] then 0 else Max(HighWater(stream[..|stream| - 1]), stream[|stream| - 1].slot)
  }

  predicate Due(slot: nat, highWater: nat, sealLag: nat) {
    highWater > sealLag && slot <= highWater - sealLag
  }

  /** The arrivals still in progress, and those of each report already written. */
  datatype Track = Track(live: seq<Seen>, sealed: seq<seq<Seen>>)

  function Arrived(t: Track, slot: nat, a: Arrival): Track {
    if a.slot == slot then t.(live := t.live + [a.entry]) else t
  }

  function SealIf(t: Track, due: bool): Track {
    if due && t.live != [] then Track([], t.sealed + [t.live]) else t
  }

  function TrackOf(stream: seq<Arrival>, slot: nat, lag: nat): Track {
    if stream == [] then Track([], [])
    else
      var before := TrackOf(stream[..|stream| - 1], slot, lag);
      SealIf(Arrived(before, slot, stream[|stream| - 1]), Due(slot, HighWater(stream), lag))
  }

  lemma StreamSnoc(stream: seq<Arrival>, a: Arrival, lag: nat)
    ensures HighWater(stream + [a]) == Max(HighWater(stream), a.slot)
    ensures forall s :: TrackOf(stream + [a], s, lag)
                        == SealIf(Arrived(TrackOf(stream, s, lag), s, a), Due(s, HighWater(stream + [a]), lag))
  {
    assert (stream + [a])[..|stream + [a]| - 1] == stream;
  }

  /** The slot's arrivals that came while it was (`late`) or was not already due for sealing. */
  function Arrivals(stream: seq<Arrival>, slot: nat, lag: nat, late: bool): seq<Seen> {
    if stream == [] then []
    else
      var a := stream[|stream| - 1];
      Arrivals(stream[..|stream| - 1], slot, lag, late)
      + if a.slot == slot && Due(slot, HighWater(stream), lag) == late then [a.entry] else []
  }

  /** All the slot's arrivals. */
  function Of(stream: seq<Arrival>, slot: nat): seq<Seen> {
    if stream == [] then []
    else
      Of(stream[..|stream| - 1], slot)
      + if stream[|stream| - 1].slot == slot then [stream[|stream| - 1].entry] else []
  }

  function Singles(es: seq<Seen>): seq<seq<Seen>> {
    if es == [] then [] else Singles(es[..|es| - 1]) + [[es[|es| - 1]]]
  }

  /** The arrivals each report of the slot covers, in the order of the reports. */
  function Batches(onTime: seq<Seen>, late: seq<Seen>): seq<seq<Seen>> {
    (if onTime == [] then [] else [onTime]) + Singles(late)
  }

  lemma BatchesSnoc(onTime: seq<Seen>, late: seq<Seen>, e: Seen)
    ensures Batches(onTime, late + [e]) == Batches(onTime, late) + [[e]]
  {
    assert (late + [e])[..|late + [e]| - 1] == late;
  }

  /** Before its slot is due, every arrival is on time and in progress; from then on nothing is, the
      on-time arrivals share one report and each late arrival has a report of its own. */
  ghost predicate TrackIs(t: Track, onTime: seq<Seen>, late: seq<Seen>, due: bool) {
    if due then t == Track([], Batches(onTime, late)) else late == [] && t == Track(onTime, [])
  }

  lemma {:induction false} TrackIsAlways(stream: seq<Arrival>, slot: nat, lag: nat)
    ensures var onTime, late := Arrivals(stream, slot, lag, false), Arrivals(stream, slot, lag, true);
            && Of(stream, slot) == onTime + late
            && TrackIs(TrackOf(stream, slot, lag), onTime, late, Due(slot, HighWater(stream), lag))
  {
    hide TrackIs;
    if stream == [] {
      TrackStart(slot, lag);
    } else {
      var before, a := stream[..|stream| - 1], stream[|stream| - 1];
      TrackIsAlways(before, slot, lag);
      var onTime, late := Arrivals(before, slot, lag, false), Arrivals(before, slot, lag, true);
      var was, due := Due(slot, HighWater(before), lag), Due(slot, HighWater(stream), lag);
      if slot > HighWater(before) {
        NoneAboveHighWater(before, slot);
        assert onTime + late == [];
        assert onTime == [] && late == [];
      }
      if a.slot == slot {
        TrackArrival(TrackOf(before, slot, lag), onTime, late, was, due, a);
      } else {
        TrackAdvance(TrackOf(before, slot, lag), onTime, late, was, due);
        assert onTime + [] == onTime && late + [] == late;
      }
    }
  }

  lemma TrackStart(slot: nat, lag: nat)
    ensures TrackIs(TrackOf([], slot, lag), [], [], Due(slot, 0, lag))
  {
  }

  lemma TrackArrival(t: Track, onTime: seq<Seen>, late: seq<Seen>, was: bool, due: bool, a: Arrival)
    requires TrackIs(t, onTime, late, was) && (was ==> due)
    requires due && !was ==> onTime == []
    ensures var n := SealIf(Arrived(t, a.slot, a), due);
            if due
            then TrackIs(n, onTime, late + [a.entry], due) && (onTime + late) + [a.entry] == onTime + (late + [a.entry])
            else TrackIs(n, onTime + [a.entry], late, due) && (onTime + late) + [a.entry] == (onTime + [a.entry]) + late
    ensures onTime + [] == onTime && late + [] == late
  {
    BatchesSnoc(onTime, late, a.entry);
    if due {
      assert [] + [a.entry] == [a.entry];
      if !was {
        assert Batches([], [a.entry]) == [[a.entry]];
      }
    }
  }

  lemma TrackAdvance(t: Track, onTime: seq<Seen>, late: seq<Seen>, was: bool, due: bool)
    requires TrackIs(t, onTime, late, was) && (was ==> due)
    ensures TrackIs(SealIf(t, due), onTime, late, due)
  {
  }

  lemma {:induction false} NoneAboveHighWater(stream: seq<Arrival>, slot: nat)
    requires slot > HighWater(stream)
    ensures Of(stream, slot) == []
  {
    if stream != [] {
      NoneAboveHighWater(stream[..|stream| - 1], slot);
    }
  }

  ghost predicate SeenFrom(stream: seq<Arrival>, bound: nat) {
    exists i :: 0 <= i < |stream| && stream[i].slot >= bound
  }

  lemma {:induction false} HighWaterExactly(stream: seq<Arrival>, bound: nat)
    ensures HighWater(stream) >= bound <==> bound == 0 || SeenFrom(stream, bound)
  {
    if stream != [] {
      var before := stream[..|stream| - 1];
      HighWaterExactly(before, bound);
      if SeenFrom(before, bound) {
        var i :| 0 <= i < |before| && before[i].slot >= bound;
        assert stream[i].slot >= bound;
      }
      if SeenFrom(stream, bound) {
        var i :| 0 <= i < |stream| && stream[i].slot >= bound;
        assert i < |before| ==> before[i].slot >= bound;
      }
    }
  }

  /** Read off the arrivals: some slot above the lag was seen, and some slot at least the lag above this one. */
  ghost predicate Overdue(stream: seq<Arrival>, slot: nat, lag: nat) {
    SeenFrom(stream, lag + 1) && (slot + lag == 0 || SeenFrom(stream, slot + lag))
  }

  lemma DueExactly(stream: seq<Arrival>, slot: nat, lag: nat)
    ensures Due(slot, HighWater(stream), lag) <==> Overdue(stream, slot, lag)
  {
    HighWaterExactly(stream, lag + 1);
    HighWaterExactly(stream, slot + lag);
  }

  ghost predicate Arrives(stream: seq<Arrival>, slot: nat) {
    exists i :: 0 <= i < |stream| && stream[i].slot == slot
  }

  lemma {:induction false} OfNothing(stream: seq<Arrival>, slot: nat)
    ensures Of(stream, slot) != [] <==> Arrives(stream, slot)
  {
    if stream != [] {
      var before := stream[..|stream| - 1];
      OfNothing(before, slot);
      if Arrives(before, slot) {
        var i :| 0 <= i < |before| && before[i].slot == slot;
        assert stream[i].slot == slot;
      }
      if Arrives(stream, slot) {
        var i :| 0 <= i < |stream| && stream[i].slot == slot;
        assert i < |before| ==> before[i].slot == slot;
      }
    }
  }

  /** A slot is in progress exactly when it has arrived and is not overdue, read off the arrivals alone. */
  lemma InProgressExactly(stream: seq<Arrival>, slot: nat, lag: nat)
    ensures TrackOf(stream, slot, lag).live != [] <==> Arrives(stream, slot) && !Overdue(stream, slot, lag)
  {
    TrackIsAlways(stream, slot, lag);
    DueExactly(stream, slot, lag);
    OfNothing(stream, slot);
    hide Arrivals, Of, TrackOf, Arrives, Overdue, Batches;
    AppendNothing(Arrivals(stream, slot, lag, false));
  }

  /** A slot's arrivals so far are on time exactly when the slot is not overdue. */
  lemma OnTimeUntilOverdue(stream: seq<Arrival>, slot: nat, lag: nat)
    requires !Overdue(stream, slot, lag)
    ensures Arrivals(stream, slot, lag, false) == Of(stream, slot)
  {
    TrackIsAlways(stream, slot, lag);
    DueExactly(stream, slot, lag);
    AppendNothing(Arrivals(stream, slot, lag, false));
  }

  lemma {:induction false} OnTimeGrows(stream: seq<Arrival>, slot: nat, lag: nat, n: nat)
    requires n <= |stream|
    ensures Arrivals(stream[..n], slot, lag, false) <= Arrivals(stream, slot, lag, false)
  {
    if n == |stream| {
      assert stream[..n] == stream;
    } else {
      var before := stream[..|stream| - 1];
      OnTimeGrows(before, slot, lag, n);
      assert before[..n] == stream[..n];
    }
  }

  /** All arrivals of a slot that come before any arrival of a slot at least the lag above it share one report. */
  lemma EarlyArrivalsShareReport(stream: seq<Arrival>, slot: nat, lag: nat, n: nat)
    requires n <= |stream| && Arrives(stream[..n], slot)
    requires forall i :: 0 <= i < n ==> stream[i].slot < slot + lag
    ensures var batches := BatchesOf(stream, slot, lag); |batches| > 0 && Of(stream[..n], slot) <= batches[0]
  {
    var early := stream[..n];
    assert !SeenFrom(early, slot + lag);
    var i :| 0 <= i < |early| && early[i].slot == slot;
    OnTimeUntilOverdue(early, slot, lag);
    OfNothing(early, slot);
    OnTimeGrows(stream, slot, lag, n);
    BatchesAtEnd(stream, slot, lag);
    hide Arrivals, Of, TrackOf, BatchesOf, SeenFrom, Arrives, Singles;
  }

  /** The batches of a slot's reports over a whole run that ends with the shutdown flush. */
  function BatchesOf(stream: seq<Arrival>, slot: nat, lag: nat): seq<seq<Seen>> {
    SealIf(TrackOf(stream, slot, lag), true).sealed
  }

  /** Every arrival of the slot is in exactly one batch, and each late arrival is alone in its own. */
  lemma BatchesAtEnd(stream: seq<Arrival>, slot: nat, lag: nat)
    ensures var onTime, late := Arrivals(stream, slot, lag, false), Arrivals(stream, slot, lag, true);
            && Of(stream, slot) == onTime + late
            && BatchesOf(stream, slot, lag) == Batches(onTime, late)
  {
    TrackIsAlways(stream, slot, lag);
  }

  lemma {:induction false} SinglesAre(es: seq<Seen>)
    ensures |Singles(es)| == |es| && forall i :: 0 <= i < |es| ==> Singles(es)[i] == [es[i]]
  {
    if es != [] {
      SinglesAre(es[..|es| - 1]);
    }
  }

  /** A slot gets one report, over all its arrivals, exactly when it is not late after being on time and
      not late twice. */
  lemma OneReportExactly(stream: seq<Arrival>, slot: nat, lag: nat)
    ensures var onTime, late := Arrivals(stream, slot, lag, false), Arrivals(stream, slot, lag, true);
            var batches := BatchesOf(stream, slot, lag);
            && (|batches| == 0 <==> Of(stream, slot) == [])
            && (|batches| == 1 <==> if onTime == [] then |late| == 1 else late == [])
            && (|batches| == 1 ==> batches == [Of(stream, slot)])
  {
    hide Batches, Arrivals, Of, TrackOf, SealIf;
    BatchesAtEnd(stream, slot, lag);
    BatchCount(Arrivals(stream, slot, lag, false), Arrivals(stream, slot, lag, true));
  }

  lemma BatchCount(onTime: seq<Seen>, late: seq<Seen>)
    ensures var batches := Batches(onTime, late);
            && (|batches| == 0 <==> onTime + late == [])
            && (|batches| == 1 <==> if onTime == [] then |late| == 1 else late == [])
            && (|batches| == 1 ==> batches == [onTime + late])
  {
    SinglesAre(late);
    if onTime == [] {
      LateAlone(late);
    } else if late == [] {
      assert onTime + late == onTime;
    }
  }

  lemma LateAlone(late: seq<Seen>)
    ensures Batches([], late) == Singles(late) && [] + late == late
    ensures |late| == 1 ==> [late[0]] == late
  {
    hide Singles;
    NothingAppend(Singles(late));
    NothingAppend(late);
  }

  /** A late arrival is reported in order, whatever was reported of its slot before. */
  lemma LateIsNeverDisorder(stream: seq<Arrival>, slot: nat, lag: nat, i: nat)
    requires var batches := BatchesOf(stream, slot, lag);
             i < |batches| && (i > 0 || Arrivals(stream, slot, lag, false) == [])
    ensures var batches := BatchesOf(stream, slot, lag);
            && |batches[i]| == 1 && batches[i][0] in Arrivals(stream, slot, lag, true)
            && ReportOf(slot, Replay(batches[i])).outOfOrder == 0
            && ReportOf(slot, Replay(batches[i])).maxBackwardGap == 0
  {
    BatchesAtEnd(stream, slot, lag);
    SinglesAre(Arrivals(stream, slot, lag, true));
    var batch := BatchesOf(stream, slot, lag)[i];
    ReportCountsDisorder(slot, batch);
  }

  /** Some report of the slot shows disorder. */
  ghost predicate DisorderReported(stream: seq<Arrival>, slot: nat, lag: nat) {
    var batches := BatchesOf(stream, slot, lag);
    exists i :: 0 <= i < |batches| && ReportOf(slot, Replay(batches[i])).outOfOrder > 0
  }

  /** Exactly when some report of a slot shows disorder: its on-time arrivals were out of order. */
  lemma DisorderReportedExactly(stream: seq<Arrival>, slot: nat, lag: nat)
    ensures DisorderReported(stream, slot, lag) <==> !InOrder(Arrivals(stream, slot, lag, false))
  {
    var onTime, batches := Arrivals(stream, slot, lag, false), BatchesOf(stream, slot, lag);
    BatchesAtEnd(stream, slot, lag);
    SinglesAre(Arrivals(stream, slot, lag, true));
    hide TrackOf, SealIf, Arrivals;
    forall i | 0 <= i < |batches|
      ensures ReportOf(slot, Replay(batches[i])).outOfOrder > 0 <==> i == 0 && !InOrder(onTime)
    {
      ReportCountsDisorder(slot, batches[i]);
    }
    if !InOrder(onTime) {
      assert onTime != [];
      assert ReportOf(slot, Replay(batches[0])).outOfOrder > 0;
    }
  }

  /** The disorder all reports of a slot show together. */
  function ReportedDisorder(slot: nat, batches: seq<seq<Seen>>): nat {
    if batches == [] then 0
    else ReportedDisorder(slot, batches[..|batches| - 1]) + ReportOf(slot, Replay(batches[|batches| - 1])).outOfOrder
  }

  lemma {:induction false} SinglesReportNone(slot: nat, onTime: seq<Seen>, late: seq<Seen>)
    ensures ReportedDisorder(slot, Batches(onTime, late)) == |Overtaken(onTime)|
  {
    hide Overtaken, ReportOf, Replay;
    if late == [] {
      ReportCountsDisorder(slot, onTime);
      OneBatch(slot, onTime);
    } else {
      var before, e := late[..|late| - 1], late[|late| - 1];
      SinglesReportNone(slot, onTime, before);
      BatchesSnoc(onTime, before, e);
      assert before + [e] == late;
      ReportCountsDisorder(slot, [e]);
      NoneOvertaken([e]);
      var was := Batches(onTime, before);
      assert (was + [[e]])[..|was|] == was;
    }
  }

  lemma OneBatch(slot: nat, onTime: seq<Seen>)
    ensures ReportedDisorder(slot, Batches(onTime, []))
            == if onTime == [] then |Overtaken(onTime)| else ReportOf(slot, Replay(onTime)).outOfOrder
  {
    assert Singles([]) == [];
    if onTime == [] {
      NoneOvertaken(onTime);
    } else {
      assert Batches(onTime, []) == [onTime];
      assert [onTime][..0] == [];
    }
  }

  /** A late arrival is below an index that arrived before it. */
  ghost predicate LateBelow(onTime: seq<Seen>, late: seq<Seen>) {
    exists j :: |onTime| <= j < |onTime + late| && j in Overtaken(onTime + late)
  }

  lemma PrefixOvertaken(onTime: seq<Seen>, late: seq<Seen>)
    ensures Overtaken(onTime) == set j | j in Overtaken(onTime + late) && j < |onTime|
  {
    var all := onTime + late;
    forall j | 0 <= j < |onTime| ensures j in Overtaken(onTime) <==> j in Overtaken(all) {
      if i :| 0 <= i < j && all[i].index > all[j].index {
        assert onTime[i].index > onTime[j].index;
      }
      if i :| 0 <= i < j && onTime[i].index > onTime[j].index {
        assert all[i].index > all[j].index;
      }
    }
  }

  /** The reports of a slot show all of its disorder exactly when no late arrival is below an index that
      arrived before it; otherwise they show less. */
  lemma DisorderCompleteExactly(stream: seq<Arrival>, slot: nat, lag: nat)
    ensures var onTime, late := Arrivals(stream, slot, lag, false), Arrivals(stream, slot, lag, true);
            var shown, actual := ReportedDisorder(slot, BatchesOf(stream, slot, lag)), |Overtaken(Of(stream, slot))|;
            shown <= actual && (shown == actual <==> !LateBelow(onTime, late))
  {
    var onTime, late := Arrivals(stream, slot, lag, false), Arrivals(stream, slot, lag, true);
    BatchesAtEnd(stream, slot, lag);
    SinglesReportNone(slot, onTime, late);
    hide Arrivals, Of, TrackOf, SealIf, Batches, ReportedDisorder;
    OvertakenSplit(onTime, late);
  }

  lemma OvertakenSplit(onTime: seq<Seen>, late: seq<Seen>)
    ensures var shown, actual := |Overtaken(onTime)|, |Overtaken(onTime + late)|;
            shown <= actual && (shown == actual <==> !LateBelow(onTime, late))
  {
    PrefixOvertaken(onTime, late);
    var all := Overtaken(onTime + late);
    var part := Overtaken(onTime);
    hide Overtaken;
    var rest := all - part;
    assert all == part + rest && part !! rest;
    assert |all| == |part| + |rest|;
    if LateBelow(onTime, late) {
      var j :| |onTime| <= j < |onTime + late| && j in all;
      assert j in rest;
    } else {
      OvertakenInRange(onTime + late);
      assert rest == {};
    }
  }

  lemma OvertakenInRange(es: seq<Seen>)
    ensures forall j :: j in Overtaken(es) ==> 0 <= j < |es|
  {
  }

  /** Index 1 then, after the slot was reported, index 0: the second report shows no disorder. */
  lemma LateDisorderGoesUnseen()
    ensures var stream := [Arrival(10, Seen(1, 0)), Arrival(20, Seen(0, 0)), Arrival(10, Seen(0, 0))];
            && !InOrder(Of(stream, 10))
            && var batches := BatchesOf(stream, 10, 5);
               forall i :: 0 <= i < |batches| ==> ReportOf(10, Replay(batches[i])).outOfOrder == 0
  {
    var first, jump, late := Arrival(10, Seen(1, 0)), Arrival(20, Seen(0, 0)), Arrival(10, Seen(0, 0));
    ArrivalsSnoc([], first, 10, 5);
    ArrivalsSnoc([first], jump, 10, 5);
    ArrivalsSnoc([first, jump], late, 10, 5);
    var stream := [first, jump, late];
    assert [] + [first] == [first] && [first] + [jump] == [first, jump] && [first, jump] + [late] == stream;
    hide Arrivals, Of, TrackOf, Replay, HighWater;
    assert Of(stream, 10) == [first.entry, late.entry];
    assert Of(stream, 10)[0].index > Of(stream, 10)[1].index;
    assert Arrivals(stream, 10, 5, false) == [first.entry];
    BatchesAtEnd(stream, 10, 5);
    forall i | 0 <= i < |BatchesOf(stream, 10, 5)|
      ensures ReportOf(10, Replay(BatchesOf(stream, 10, 5)[i])).outOfOrder == 0
    {
      if i == 0 {
        ReportCountsDisorder(10, [first.entry]);
      } else {
        LateIsNeverDisorder(stream, 10, 5, i);
      }
    }
  }

  lemma ArrivalsSnoc(stream: seq<Arrival>, a: Arrival, slot: nat, lag: nat)
    ensures HighWater([]) == 0 && Of([], slot) == [] && Arrivals([], slot, lag, false) == []
    ensures HighWater(stream + [a]) == Max(HighWater(stream), a.slot)
    ensures Of(stream + [a], slot) == Of(stream, slot) + if a.slot == slot then [a.entry] else []
    ensures Arrivals(stream + [a], slot, lag, false)
            == Arrivals(stream, slot, lag, false)
               + if a.slot == slot && !Due(slot, HighWater(stream + [a]), lag) then [a.entry] else []
  {
    assert (stream + [a])[..|stream + [a]| - 1] == stream;
  }

  // ---------------------------------------------------------------- reports

  function ReportsOf(rs: seq<Report>, slot: nat): seq<Report> {
    if rs == [] then []
    else ReportsOf(rs[..|rs| - 1], slot) + if rs[|rs| - 1].slot == slot then [rs[|rs| - 1]] else []
  }

  lemma ReportsSnoc(rs: seq<Report>, r: Report)
    ensures forall s :: ReportsOf(rs + [r], s) == ReportsOf(rs, s) + if r.slot == s then [r] else []
  {
    assert (rs + [r])[..|rs + [r]| - 1] == rs;
  }

  function ReportsFor(slot: nat, batches: seq<seq<Seen>>): seq<Report> {
    seq(|batches|, i requires 0 <= i < |batches| => ReportOf(slot, Replay(batches[i])))
  }

  function Tally(t: Totals, r: Report): Totals {
    var ordered := if r.outOfOrder == 0 && r.missing == [] then 1 else 0;
    Totals(
      t.sealed + 1, t.fullyOrdered + ordered,
      t.disordered + if r.outOfOrder > 0 then 1 else 0,
      t.gapped + if r.missing != [] then 1 else 0,
      t.endingOnTick + if r.lastWasTick then 1 else 0,
      t.outOfOrder + r.outOfOrder, t.missing + |r.missing|)
  }

  function TotalsOf(rs: seq<Report>): Totals {
    if rs == [] then ZERO else Tally(TotalsOf(rs[..|rs| - 1]), rs[|rs| - 1])
  }

  lemma TotalsSnoc(rs: seq<Report>, r: Report)
    ensures TotalsOf(rs + [r]) == Tally(TotalsOf(rs), r)
  {
    assert (rs + [r])[..|rs + [r]| - 1] == rs;
  }

  /** Every sealed slot is fully ordered, disordered or gapped; the overlap is only of the last two, and
      the two totals are zero exactly when the matching slot counts are. */
  lemma {:induction false} TotalsAreConsistent(rs: seq<Report>)
    ensures var t := TotalsOf(rs);
            && t.sealed == |rs| && t.endingOnTick <= t.sealed
            && t.sealed <= t.fullyOrdered + t.disordered + t.gapped
            && t.fullyOrdered + Max(t.disordered, t.gapped) <= t.sealed
            && t.disordered <= t.outOfOrder && (t.disordered == 0 ==> t.outOfOrder == 0)
            && t.gapped <= t.missing && (t.gapped == 0 ==> t.missing == 0)
  {
    if rs != [] {
      TotalsAreConsistent(rs[..|rs| - 1]);
    }
  }

  datatype Kind = AnySlot | OrderedSlot | DisorderedSlot | GappedSlot | TickSlot

  predicate IsOf(r: Report, kind: Kind) {
    match kind
    case AnySlot => true
    case OrderedSlot => r.outOfOrder == 0 && |r.missing| == 0
    case DisorderedSlot => r.outOfOrder > 0
    case GappedSlot => |r.missing| > 0
    case TickSlot => r.lastWasTick
  }

  function Where(rs: seq<Report>, kind: Kind): set<nat> {
    set k: nat | k < |rs| && IsOf(rs[k], kind)
  }

  ghost predicate CountsKind(rs: seq<Report>, count: nat, kind: Kind) {
    count == |Where(rs, kind)|
  }

  lemma CountKind(before: seq<Report>, r: Report, count: nat, kind: Kind)
    ensures CountsKind([], 0, kind)
    ensures CountsKind(before, count, kind) ==> CountsKind(before + [r], count + if IsOf(r, kind) then 1 else 0, kind)
  {
    WhereSnoc(before, r, kind);
    hide Where;
  }

  lemma WhereSnoc(before: seq<Report>, r: Report, kind: Kind)
    ensures Where([], kind) == {}
    ensures Where(before + [r], kind) == Where(before, kind) + if IsOf(r, kind) then {|before|} else {}
    ensures |before| !in Where(before, kind)
  {
    hide IsOf;
    forall k: nat | k < |before| ensures (before + [r])[k] == before[k] {
    }
  }

  function Figures(rs: seq<Report>, gaps: bool): seq<nat> {
    seq(|rs|, i requires 0 <= i < |rs| => if gaps then |rs[i].missing| else rs[i].outOfOrder)
  }

  /** Each counter counts the reports of its kind. */
  ghost predicate CountsSlots(rs: seq<Report>, t: Totals) {
    && CountsKind(rs, t.sealed, AnySlot) && CountsKind(rs, t.fullyOrdered, OrderedSlot)
    && CountsKind(rs, t.disordered, DisorderedSlot) && CountsKind(rs, t.gapped, GappedSlot)
    && CountsKind(rs, t.endingOnTick, TickSlot)
  }

  /** Each counter counts the reports of its kind, and the two totals are the sums over all reports. */
  lemma {:induction false} TotalsExactly(rs: seq<Report>)
    ensures CountsSlots(rs, TotalsOf(rs))
    ensures TotalsOf(rs).outOfOrder == Sum(Figures(rs, false)) && TotalsOf(rs).missing == Sum(Figures(rs, true))
  {
    hide CountsSlots, Figures;
    if rs == [] {
      NoneCounted();
    } else {
      var before, r := rs[..|rs| - 1], rs[|rs| - 1];
      TotalsExactly(before);
      assert rs == before + [r];
      CountsNext(before, r, TotalsOf(before));
      FiguresSnoc(before, r, false);
      FiguresSnoc(before, r, true);
    }
  }

  lemma NoneCounted()
    ensures CountsSlots([], ZERO) && Figures([], false) == [] && Figures([], true) == []
  {
    hide CountsKind;
    forall kind: Kind ensures CountsKind([], 0, kind) {
      CountKind([], Report(0, 0, 0, 0, 0, [], false, 0), 0, kind);
    }
  }

  lemma CountsNext(before: seq<Report>, r: Report, t: Totals)
    requires CountsSlots(before, t)
    ensures CountsSlots(before + [r], Tally(t, r))
  {
    hide CountsKind;
    CountKind(before, r, t.sealed, AnySlot);
    CountKind(before, r, t.fullyOrdered, OrderedSlot);
    CountKind(before, r, t.disordered, DisorderedSlot);
    CountKind(before, r, t.gapped, GappedSlot);
    CountKind(before, r, t.endingOnTick, TickSlot);
  }

  lemma FiguresSnoc(before: seq<Report>, r: Report, gaps: bool)
    ensures Sum(Figures(before + [r], gaps)) == Sum(Figures(before, gaps)) + if gaps then |r.missing| else r.outOfOrder
  {
    var figure := if gaps then |r.missing| else r.outOfOrder;
    assert Figures(before + [r], gaps) == Figures(before, gaps) + [figure];
    StatsSnoc(Figures(before, gaps), figure);
  }

  // ---------------------------------------------------------------- the tracker

  /** What the tracker holds about one slot, against the slot's track. */
  ghost predicate Mirrors(slot: nat, inProgress: map<nat, Progress>, reports: seq<Report>, t: Track) {
    && (slot in inProgress <==> t.live != [])
    && (slot in inProgress ==> inProgress[slot] == Replay(t.live))
    && ReportsOf(reports, slot) == ReportsFor(slot, t.sealed)
  }

  lemma MirrorsArrival(slot: nat, was: map<nat, Progress>, reports: seq<Report>, t: Track, a: Arrival)
    requires Mirrors(slot, was, reports, t)
    ensures var p := Noted(if a.slot in was then was[a.slot] else FRESH, a.entry);
            Mirrors(slot, was[a.slot := p], reports, Arrived(t, slot, a))
  {
    if a.slot == slot {
      ReplaySnoc(t.live, a.entry);
      assert t.live == [] ==> Replay(t.live) == FRESH;
    }
  }

  lemma MirrorsSeal(
      slot: nat, was: map<nat, Progress>, now: map<nat, Progress>, before: seq<Report>, after: seq<Report>, t: Track,
      due: bool)
    requires Mirrors(slot, was, before, t)
    requires slot in now <==> slot in was && !due
    requires slot in now ==> now[slot] == was[slot]
    requires ReportsOf(after, slot)
             == ReportsOf(before, slot) + if slot in was && due then [ReportOf(slot, was[slot])] else []
    ensures Mirrors(slot, now, after, SealIf(t, due))
  {
    if slot in was && due {
      assert ReportsFor(slot, t.sealed + [t.live]) == ReportsFor(slot, t.sealed) + [ReportOf(slot, Replay(t.live))];
    }
  }

  lemma MirrorsStep(
      stream: seq<Arrival>, a: Arrival, lag: nat, highWater: nat, was: map<nat, Progress>, noted: map<nat, Progress>,
      now: map<nat, Progress>, before: seq<Report>, after: seq<Report>)
    requires highWater == HighWater(stream + [a])
    requires forall s :: Mirrors(s, was, before, TrackOf(stream, s, lag))
    requires noted == was[a.slot := Noted(if a.slot in was then was[a.slot] else FRESH, a.entry)]
    requires SealedAll(DueSlots(noted, highWater, lag), noted, now, before, after)
    ensures forall s :: Mirrors(s, now, after, TrackOf(stream + [a], s, lag))
  {
    hide Mirrors, HighWater, Arrived, SealIf, Noted, ReportsOf;
    StreamSnoc(stream, a, lag);
    forall s ensures Mirrors(s, now, after, TrackOf(stream + [a], s, lag)) {
      var t := TrackOf(stream, s, lag);
      MirrorsArrival(s, was, before, t, a);
      MirrorsSeal(s, noted, now, before, after, Arrived(t, s, a), Due(s, highWater, lag));
    }
  }

  /** The slots left after sealing lie above the cutoff, so there are few of them. */
  lemma FewInProgress(inProgress: map<nat, Progress>, highWater: nat, lag: nat)
    requires forall s :: s in inProgress ==> s <= highWater && !Due(s, highWater, lag)
    ensures |inProgress| <= lag + 1
  {
    BoundedSetSize(inProgress.Keys, SatSub(highWater, lag), highWater + 1);
    assert |inProgress.Keys| == |inProgress|;
  }

  /** Which slots a sealing pass takes, and what it leaves of each. */
  ghost predicate SealedAll(
      slots: set<nat>, was: map<nat, Progress>, now: map<nat, Progress>, before: seq<Report>, after: seq<Report>)
  {
    && now == was - slots
    && forall s :: ReportsOf(after, s)
                   == ReportsOf(before, s) + if s in was && s in slots then [ReportOf(s, was[s])] else []
  }

  lemma NoneSealed(was: map<nat, Progress>, reports: seq<Report>)
    ensures SealedAll({}, was, was, reports, reports)
  {
  }

  lemma SlotIs(slot: nat, p: Progress)
    ensures ReportOf(slot, p).slot == slot
  {
  }

  lemma OneMoreSealed(
      slots: set<nat>, slot: nat, was: map<nat, Progress>, now: map<nat, Progress>, before: seq<Report>,
      after: seq<Report>)
    requires SealedAll(slots, was, now, before, after) && slot in was && slot !in slots
    ensures slot in now && now[slot] == was[slot]
    ensures SealedAll(slots + {slot}, was, now - {slot}, before, after + [ReportOf(slot, was[slot])])
  {
    hide ReportsOf, ReportOf;
    var r := ReportOf(slot, was[slot]);
    ReportsSnoc(after, r);
    SlotIs(slot, was[slot]);
    assert now - {slot} == was - (slots + {slot});
  }

  ghost function Listed(slots: seq<nat>): set<nat> {
    set s | s in slots
  }

  ghost function DueSlots(inProgress: map<nat, Progress>, highWater: nat, lag: nat): set<nat> {
    set s | s in inProgress && Due(s, highWater, lag)
  }

  method BuildReport(slot: nat, p: Progress) returns (r: Report)
    ensures r == ReportOf(slot, p)
  {
    var last := if p.lastEntry.Some? then p.lastEntry.value else Seen(0, 0);
    var missing := [];
    if p.indices != {} {
      for i := 0 to last.index + 1
        invariant missing == Absent(p.indices, i)
      {
        if i !in p.indices {
          missing := missing + [i];
        }
      }
    }
    r := Report(slot, |p.indices|, last.index, p.outOfOrder, p.maxBackwardGap, missing, last.txs == 0, last.txs);
  }

  class OrderingTracker {
    const sealLag: nat
    var highWater: nat
    var inProgress: map<nat, Progress>
    var sealedReports: seq<Report>
    var counters: Totals
    /** Every entry observed. */
    ghost var stream: seq<Arrival>

    ghost predicate Counted()
      reads this`counters, this`sealedReports
    {
      counters == TotalsOf(sealedReports)
    }

    ghost predicate MirrorsAll()
      reads this`inProgress, this`sealedReports, this`stream
    {
      forall s :: Mirrors(s, inProgress, sealedReports, TrackOf(stream, s, sealLag))
    }

    ghost predicate Windowed()
      reads this`highWater, this`inProgress, this`stream
    {
      && highWater == HighWater(stream)
      && forall s :: s in inProgress ==> s <= highWater && !Due(s, highWater, sealLag)
    }

    ghost predicate Valid()
      reads this
    {
      Counted() && MirrorsAll() && Windowed()
    }

    constructor (sealLag: nat)
      ensures Valid() && this.sealLag == sealLag && stream == [] && sealedReports == []
    {
      this.sealLag := sealLag;
      highWater, inProgress, sealedReports, counters, stream := 0, map[], [], ZERO, [];
    }

    method UpdateCounters(r: Report)
      modifies this`counters
      ensures counters == Tally(old(counters), r)
    {
      counters := counters.(sealed := counters.sealed + 1);
      if r.outOfOrder == 0 && r.missing == [] {
        counters := counters.(fullyOrdered := counters.fullyOrdered + 1);
      }
      if r.outOfOrder > 0 {
        counters := counters.(disordered := counters.disordered + 1);
      }
      if r.missing != [] {
        counters := counters.(gapped := counters.gapped + 1);
      }
      if r.lastWasTick {
        counters := counters.(endingOnTick := counters.endingOnTick + 1);
      }
      counters := counters.(outOfOrder := counters.outOfOrder + r.outOfOrder);
      counters := counters.(missing := counters.missing + |r.missing|);
    }

    /** The loop of `maybe_seal` and `flush_all`, over the collected slots in ascending order. */
    method SealListed(slots: seq<nat>) returns (reports: seq<Report>)
      requires Counted() && Increasing(slots) && forall s :: s in slots ==> s in inProgress
      modifies this`inProgress, this`sealedReports, this`counters
      ensures Counted() && sealedReports == old(sealedReports) + reports
      ensures SealedAll(Listed(slots), old(inProgress), inProgress, old(sealedReports), sealedReports)
    {
      hide SealedAll, TotalsOf, Tally;
      reports := [];
      ghost var done: set<nat> := {};
      NoneSealed(inProgress, sealedReports);
      for i := 0 to |slots|
        invariant Counted() && sealedReports == old(sealedReports) + reports
        invariant done == Listed(slots[..i])
        invariant SealedAll(done, old(inProgress), inProgress, old(sealedReports), sealedReports)
      {
        var slot := slots[i];
        assert slots[..i + 1] == slots[..i] + [slot];
        OneMoreSealed(done, slot, old(inProgress), inProgress, old(sealedReports), sealedReports);
        var report := BuildReport(slot, inProgress[slot]);
        TotalsSnoc(sealedReports, report);
        inProgress := inProgress - {slot};
        UpdateCounters(report);
        reports := reports + [report];
        sealedReports := sealedReports + [report];
        done := done + {slot};
      }
      assert slots[..|slots|] == slots;
    }

    method MaybeSeal() returns (reports: seq<Report>)
      requires Counted()
      modifies this`inProgress, this`sealedReports, this`counters
      ensures Counted() && sealedReports == old(sealedReports) + reports
      ensures SealedAll(
                DueSlots(old(inProgress), highWater, sealLag),
                old(inProgress), inProgress, old(sealedReports), sealedReports)
    {
      hide SealedAll;
      NoneSealed(inProgress, sealedReports);
      if highWater <= sealLag {
        reports := [];
        assert DueSlots(inProgress, highWater, sealLag) == {};
        return;
      }
      var cutoff := highWater - sealLag;
      var due := set s | s in inProgress && s <= cutoff;
      var slots := SortedKeys(due);
      assert Listed(slots) == due == DueSlots(inProgress, highWater, sealLag);
      reports := SealListed(slots);
    }

    /** `observe`, up to its call of `maybe_seal`. */
    method Note(a: Arrival)
      modifies this`highWater, this`inProgress
      ensures highWater == Max(old(highWater), a.slot)
      ensures inProgress
              == var was := if a.slot in old(inProgress) then old(inProgress)[a.slot] else FRESH;
                 old(inProgress)[a.slot := Noted(was, a.entry)]
    {
      if a.slot > highWater {
        highWater := a.slot;
      }
      var p := if a.slot in inProgress then inProgress[a.slot] else FRESH;
      if a.entry.index < p.top {
        var gap := p.top - a.entry.index;
        p := p.(outOfOrder := p.outOfOrder + 1);
        if gap > p.maxBackwardGap {
          p := p.(maxBackwardGap := gap);
        }
      } else if a.entry.index > p.top {
        p := p.(top := a.entry.index, lastEntry := Some(a.entry));
      }
      inProgress := inProgress[a.slot := p.(indices := p.indices + {a.entry.index})];
    }

    method Observe(a: Arrival) returns (reports: seq<Report>)
      requires Valid()
      modifies this
      ensures Valid() && stream == old(stream) + [a]
      ensures sealedReports == old(sealedReports) + reports
      ensures |inProgress| <= sealLag + 1
      ensures forall s :: s in inProgress <==> Arrives(stream, s) && !Overdue(stream, s, sealLag)
    {
      hide Counted, TotalsOf, Mirrors, HighWater, Arrived, SealIf, Noted, ReportsOf;
      Note(a);
      ghost var noted := inProgress;
      reports := MaybeSeal();
      stream := stream + [a];
      StreamSnoc(old(stream), a, sealLag);
      MirrorsStep(
        old(stream), a, sealLag, highWater, old(inProgress), noted, inProgress, old(sealedReports), sealedReports);
      FewInProgress(inProgress, highWater, sealLag);
      HeldExactly();
    }

    lemma HeldExactly()
      requires MirrorsAll()
      ensures forall s :: s in inProgress <==> Arrives(stream, s) && !Overdue(stream, s, sealLag)
    {
      hide ReportsOf, ReportsFor, Replay, Arrives, Overdue, TrackOf;
      forall s ensures s in inProgress <==> Arrives(stream, s) && !Overdue(stream, s, sealLag) {
        assert Mirrors(s, inProgress, sealedReports, TrackOf(stream, s, sealLag));
        InProgressExactly(stream, s, sealLag);
      }
    }

    method FlushAll() returns (reports: seq<Report>)
      requires Valid()
      modifies this`inProgress, this`sealedReports, this`counters
      ensures Counted() && inProgress == map[] && sealedReports == old(sealedReports) + reports
      ensures forall s :: Mirrors(s, inProgress, sealedReports, SealIf(TrackOf(stream, s, sealLag), true))
    {
      hide Counted;
      var slots := SortedKeys(inProgress.Keys);
      assert Listed(slots) == inProgress.Keys;
      reports := SealListed(slots);
      forall s ensures Mirrors(s, inProgress, sealedReports, SealIf(TrackOf(stream, s, sealLag), true)) {
        MirrorsSeal(
          s, old(inProgress), inProgress, old(sealedReports), sealedReports, TrackOf(stream, s, sealLag), true);
      }
    }

    /** A whole run from a new tracker and its shutdown flush. */
    method RunLoop(arrivals: seq<Arrival>)
      requires Valid() && stream == []
      modifies this
      ensures Counted() && inProgress == map[]
      ensures forall s :: ReportsOf(sealedReports, s)
                          == ReportsFor(s, Batches(Arrivals(arrivals, s, sealLag, false),
                                                   Arrivals(arrivals, s, sealLag, true)))
    {
      hide Counted, MirrorsAll, Windowed;
      for n := 0 to |arrivals|
        invariant Valid() && stream == arrivals[..n]
      {
        assert arrivals[..n + 1] == arrivals[..n] + [arrivals[n]];
        var _ := Observe(arrivals[n]);
      }
      assert stream == arrivals;
      var _ := FlushAll();
      forall s ensures ReportsOf(sealedReports, s)
                       == ReportsFor(s, Batches(Arrivals(arrivals, s, sealLag, false),
                                                Arrivals(arrivals, s, sealLag, true)))
      {
        assert Mirrors(s, inProgress, sealedReports, SealIf(TrackOf(stream, s, sealLag), true));
        BatchesAtEnd(arrivals, s, sealLag);
      }
    }
  }
}
