/** Merger and supervisor joined: whatever order two redundant sources deliver in, and whichever is
    first with an entry, an undisturbed slot gets the same transcript. */
module Pipeline {
  import opened PohSlot
  import opened PohTrack
  import opened PohSupervisor
  import opened PohCanonical
  import M = Merger

  /** A message of either source, handed on at `now` if it is new, or the sweep timer. */
  datatype Raw = Delivered(obs: M.Obs, now: nat) | Timer(now: nat)

  function Content(o: M.Obs): Observation {
    Observation(o.key.slot, o.payload.index, o.payload.numHashes, o.key.hash, o.payload.txCount)
  }

  /** What the merger gets. */
  function Messages(raw: seq<Raw>): seq<M.Obs> {
    if raw == [] then []
    else Messages(raw[..|raw| - 1]) + if raw[|raw| - 1].Delivered? then [raw[|raw| - 1].obs] else []
  }

  /** The merger's memory once it has processed `raw`. */
  function Memory(raw: seq<Raw>, window: nat): M.Dedup {
    M.Run(Messages(raw), |Messages(raw)|, window)
  }

  /** What the supervisor gets. */
  function Merged(raw: seq<Raw>, window: nat): seq<Input> {
    if raw == [] then []
    else
      var before, r := raw[..|raw| - 1], raw[|raw| - 1];
      Merged(before, window)
      + match r
        case Timer(now) => [Sweep(now)]
        case Delivered(obs, now) => if obs.key in Memory(before, window).seen then [] else [Arrival(Content(obs), now)]
  }

  // ---------------------------------------------------------------- the supervisor gets what the merger emits

  lemma {:induction false} PrefixUnchanged(ms: seq<M.Obs>, m: M.Obs, n: nat, window: nat)
    requires n <= |ms|
    ensures M.Run(ms + [m], n, window) == M.Run(ms, n, window)
    ensures M.Emitted(ms + [m], n, window) == M.Emitted(ms, n, window)
  {
    if n > 0 {
      PrefixUnchanged(ms, m, n - 1, window);
    }
  }

  lemma MemorySnoc(raw: seq<Raw>, window: nat)
    requires raw != []
    ensures var before, r := raw[..|raw| - 1], raw[|raw| - 1];
            Memory(raw, window)
            == if r.Delivered? then M.After(Memory(before, window), r.obs.key, window) else Memory(before, window)
  {
    var r := raw[|raw| - 1];
    var ms := Messages(raw[..|raw| - 1]);
    if r.Delivered? {
      PrefixUnchanged(ms, r.obs, |ms|, window);
    } else {
      assert Messages(raw) == ms;
    }
  }

  function Arrivals(inputs: seq<Input>): seq<Observation> {
    if inputs == [] then []
    else
      Arrivals(inputs[..|inputs| - 1])
      + if inputs[|inputs| - 1].Arrival? then [inputs[|inputs| - 1].obs] else []
  }

  function Contents(os: seq<M.Obs>): seq<Observation> {
    seq(|os|, i requires 0 <= i < |os| => Content(os[i]))
  }

  /** The entries that reach the supervisor are exactly those both mergers are proved to emit. */
  lemma {:induction false} MergedIsEmitted(raw: seq<Raw>, window: nat)
    ensures var ms := Messages(raw);
            Arrivals(Merged(raw, window)) == Contents(M.Emitted(ms, |ms|, window))
  {
    if raw != [] {
      var before, r := raw[..|raw| - 1], raw[|raw| - 1];
      MergedIsEmitted(before, window);
      var ms, ins := Messages(before), Merged(before, window);
      if r.Timer? {
        assert (ins + [Sweep(r.now)])[..|ins|] == ins;
        assert Messages(raw) == ms;
      } else {
        PrefixUnchanged(ms, r.obs, |ms|, window);
        assert (ins + [Arrival(Content(r.obs), r.now)])[..|ins|] == ins;
        assert ins + [] == ins;
      }
    }
  }

  // ---------------------------------------------------------------- nothing is lost, nothing is invented

  /** Messages with the same slot and hash carry the same entry. */
  ghost predicate Consistent(raw: seq<Raw>) {
    forall i, j :: 0 <= i < j < |raw| && raw[i].Delivered? && raw[j].Delivered? && raw[i].obs.key == raw[j].obs.key
                   ==> raw[i].obs.payload == raw[j].obs.payload
  }

  /** Some source delivered this entry of the slot. */
  ghost predicate Sent(slot: nat, raw: seq<Raw>, obs: Observation) {
    exists k :: 0 <= k < |raw| && raw[k].Delivered? && Content(raw[k].obs) == obs && obs.slot == slot
  }

  lemma {:induction false} SeenWasSent(raw: seq<Raw>, window: nat, key: M.Key)
    requires key in Memory(raw, window).seen
    ensures exists k :: 0 <= k < |raw| && raw[k].Delivered? && raw[k].obs.key == key
  {
    if raw != [] {
      var before, r := raw[..|raw| - 1], raw[|raw| - 1];
      MemorySnoc(raw, window);
      if r.Delivered? && r.obs.key == key {
        assert raw[|raw| - 1].obs.key == key;
      } else {
        SeenWasSent(before, window, key);
        var k :| 0 <= k < |before| && before[k].Delivered? && before[k].obs.key == key;
        assert raw[k].Delivered? && raw[k].obs.key == key;
      }
    }
  }

  lemma SentSnoc(slot: nat, raw: seq<Raw>, obs: Observation)
    requires raw != []
    ensures var r := raw[|raw| - 1];
            Sent(slot, raw, obs)
            <==> Sent(slot, raw[..|raw| - 1], obs) || (r.Delivered? && Content(r.obs) == obs && obs.slot == slot)
  {
    var before := raw[..|raw| - 1];
    if k :| 0 <= k < |before| && before[k].Delivered? && Content(before[k].obs) == obs && obs.slot == slot {
      assert raw[k] == before[k];
    }
    if k :| 0 <= k < |raw| && raw[k].Delivered? && Content(raw[k].obs) == obs && obs.slot == slot {
      assert k < |before| ==> before[k] == raw[k];
    }
  }

  lemma ReceivedSnoc(slot: nat, ins: seq<Input>, input: Input, obs: Observation)
    ensures Received(slot, ins + [input], obs)
            <==> Received(slot, ins, obs) || (ArrivalFor(input, slot) && input.obs == obs)
  {
    var all := ins + [input];
    if k :| 0 <= k < |ins| && ArrivalFor(ins[k], slot) && ins[k].obs == obs {
      assert all[k] == ins[k];
    }
    if ArrivalFor(input, slot) && input.obs == obs {
      assert all[|ins|] == input;
    }
  }

  /** A message the merger drops repeats an entry sent before. */
  lemma DroppedWasSent(raw: seq<Raw>, window: nat, slot: nat)
    requires raw != [] && Consistent(raw) && raw[|raw| - 1].Delivered?
    requires raw[|raw| - 1].obs.key in Memory(raw[..|raw| - 1], window).seen
    ensures raw[|raw| - 1].obs.key.slot == slot ==> Sent(slot, raw[..|raw| - 1], Content(raw[|raw| - 1].obs))
  {
    var before, r := raw[..|raw| - 1], raw[|raw| - 1];
    SeenWasSent(before, window, r.obs.key);
    var k :| 0 <= k < |before| && before[k].Delivered? && before[k].obs.key == r.obs.key;
    assert raw[k] == before[k];
  }

  /** The supervisor receives an entry exactly when some source delivered it, however often it is repeated
      and whatever the merger evicts. */
  lemma {:induction false} ReceivedExactlySent(slot: nat, raw: seq<Raw>, window: nat)
    requires Consistent(raw)
    ensures forall obs :: Received(slot, Merged(raw, window), obs) <==> Sent(slot, raw, obs)
  {
    if raw != [] {
      var before, r := raw[..|raw| - 1], raw[|raw| - 1];
      assert Consistent(before);
      ReceivedExactlySent(slot, before, window);
      var ins := Merged(before, window);
      if r.Delivered? && r.obs.key in Memory(before, window).seen {
        DroppedWasSent(raw, window, slot);
        assert ins + [] == ins;
      }
      forall obs ensures Received(slot, Merged(raw, window), obs) <==> Sent(slot, raw, obs) {
        SentSnoc(slot, raw, obs);
        if r.Timer? {
          ReceivedSnoc(slot, ins, Sweep(r.now), obs);
        } else {
          ReceivedSnoc(slot, ins, Arrival(Content(r.obs), r.now), obs);
        }
      }
    }
  }

  /** Two pairs of sources that deliver the same entries of a slot, each at least once, in whatever order,
      with whatever repeats and whichever source first, lead to the same transcript of that slot. */
  lemma SourcesDoNotMatter(slot: nat, window: nat, raw1: seq<Raw>, end1: nat, cfg1: Config,
                           raw2: seq<Raw>, end2: nat, cfg2: Config)
    requires Consistent(raw1) && Consistent(raw2)
    requires Quiet(slot, Merged(raw1, window), |Merged(raw1, window)|, cfg1)
    requires Quiet(slot, Merged(raw2, window), |Merged(raw2, window)|, cfg2)
    requires forall obs :: Sent(slot, raw1, obs) <==> Sent(slot, raw2, obs)
    requires exists obs :: Sent(slot, raw1, obs)
    ensures Strip(Of(WholeRun(Merged(raw1, window), end1, cfg1).log, slot))
            == Strip(Of(WholeRun(Merged(raw2, window), end2, cfg2).log, slot))
  {
    hide Quiet, WholeRun, Merged, Sent, Consistent, Received;
    var in1, in2 := Merged(raw1, window), Merged(raw2, window);
    ReceivedExactlySent(slot, raw1, window);
    ReceivedExactlySent(slot, raw2, window);
    UndisturbedExactly(slot, in1, |in1|, cfg1);
    UndisturbedExactly(slot, in2, |in2|, cfg2);
    var obs :| Sent(slot, raw1, obs);
    assert Received(slot, in1, obs);
    OrderIndependence(slot, in1, end1, cfg1, in2, end2, cfg2);
  }
}
