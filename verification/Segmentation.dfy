/**
 What the windows mean. A run of callbacks splits greedily into segments, each one
 window long, and every window of the engine is the summary of its segment.
 */
module Segmentation {
  import opened Words
  import opened Telemetry

  /** A non-empty stretch of a run. */
  datatype Segment = Segment(first: Obs, rest: seq<Obs>) {
    function Events(): (s: seq<Obs>)
      ensures |s| == 1 + |rest|
    {
      [first] + rest
    }

    function Last(): Obs {
      if rest == [] then first else rest[|rest| - 1]
    }

    function Snoc(o: Obs): Segment {
      Segment(first, rest + [o])
    }

    lemma {:induction false} EventsSnoc(o: Obs)
      ensures Snoc(o).Events() == Events() + [o]
    {
    }
  }

  // ---------- greedy segmentation ----------

  /** `o` arrives too late for the window that `s` opened. */
  predicate Late(s: Segment, o: Obs) {
    Sub64(o.now, s.first.now) >= MIN_WINDOW_NS
  }

  /** Where the next event goes: into the newest segment, or into one of its own. */
  function Place(segs: seq<Segment>, o: Obs): (r: seq<Segment>) {
    if segs == [] || Late(segs[|segs| - 1], o) then segs + [Segment(o, [])]
    else segs[..|segs| - 1] + [segs[|segs| - 1].Snoc(o)]
  }

  function Segments(os: seq<Obs>): (segs: seq<Segment>)
    ensures segs == [] <==> os == []
  {
    if os == [] then [] else Place(Segments(os[..|os| - 1]), os[|os| - 1])
  }

  ghost function Flatten(segs: seq<Segment>): seq<Obs> {
    if segs == [] then [] else Flatten(segs[..|segs| - 1]) + segs[|segs| - 1].Events()
  }

  /** No event of the segment is late for its first one. */
  ghost predicate InTime(s: Segment) {
    forall o :: o in s.rest ==> !Late(s, o)
  }

  /** Each segment is followed by an event that was too late for it. */
  ghost predicate Chained(segs: seq<Segment>) {
    forall i, j :: 0 <= i && j == i + 1 < |segs| ==> Late(segs[i], segs[j].first)
  }

  /** The greedy split: segments in time, each followed by the first event that was too late for it. */
  ghost predicate Greedy(segs: seq<Segment>) {
    && (forall i :: 0 <= i < |segs| ==> InTime(segs[i]))
    && Chained(segs)
  }

  lemma {:induction false} FlattenSnoc(segs: seq<Segment>, s: Segment)
    ensures Flatten(segs + [s]) == Flatten(segs) + s.Events()
  {
    assert (segs + [s])[..|segs|] == segs;
  }

  lemma {:induction false} SegmentsSnoc(os: seq<Obs>, o: Obs)
    ensures Segments(os + [o]) == Place(Segments(os), o)
  {
    assert (os + [o])[..|os|] == os;
  }

  lemma {:induction false} InTimeSnoc(s: Segment, o: Obs)
    requires InTime(s) && !Late(s, o)
    ensures InTime(s.Snoc(o)) && forall x :: Late(s.Snoc(o), x) <==> Late(s, x)
  {
  }

  lemma {:induction false} PlaceFlattens(segs: seq<Segment>, o: Obs)
    ensures Flatten(Place(segs, o)) == Flatten(segs) + [o]
  {
    hide Late;
    var n := |segs| - 1;
    if segs == [] || Late(segs[n], o) {
      FlattenSnoc(segs, Segment(o, []));
    } else {
      FlattenSnoc(segs[..n], segs[n]);
      FlattenSnoc(segs[..n], segs[n].Snoc(o));
      segs[n].EventsSnoc(o);
      assert segs == segs[..n] + [segs[n]];
    }
  }

  lemma {:induction false} PlaceKeepsGreedy(segs: seq<Segment>, o: Obs)
    requires Greedy(segs)
    ensures Greedy(Place(segs, o))
    ensures Flatten(Place(segs, o)) == Flatten(segs) + [o]
  {
    hide Late, Flatten;
    PlaceFlattens(segs, o);
    if segs != [] && !Late(segs[|segs| - 1], o) {
      InTimeSnoc(segs[|segs| - 1], o);
    }
  }

  lemma {:induction false} SegmentsGreedy(os: seq<Obs>)
    ensures Greedy(Segments(os))
    ensures Flatten(Segments(os)) == os
  {
    if os != [] {
      SegmentsGreedy(os[..|os| - 1]);
      PlaceKeepsGreedy(Segments(os[..|os| - 1]), os[|os| - 1]);
    }
  }

  /** A greedy split comes from a shorter greedy split by placing the last event. */
  lemma {:induction false} GreedyUnplace(segs: seq<Segment>) returns (shorter: seq<Segment>, o: Obs)
    requires segs != [] && Greedy(segs)
    ensures Greedy(shorter) && segs == Place(shorter, o)
  {
    var n := |segs| - 1;
    var front, last := segs[..n], segs[n];
    assert segs == front + [last];
    if last.rest == [] {
      shorter, o := front, last.first;
    } else {
      var k := |last.rest| - 1;
      var cut := Segment(last.first, last.rest[..k]);
      shorter, o := front + [cut], last.rest[k];
      assert InTime(last) && o in last.rest;
      forall e | e in cut.rest ensures !Late(cut, e) {
        assert e in last.rest;
      }
      assert shorter[..n] == front;
      assert last.rest == last.rest[..k] + [o];
    }
  }

  /** There is only one greedy split of a run. */
  lemma {:induction false} GreedyUnique(segs: seq<Segment>)
    requires Greedy(segs)
    ensures segs == Segments(Flatten(segs))
    decreases |Flatten(segs)|
  {
    if segs != [] {
      var shorter, o := GreedyUnplace(segs);
      PlaceKeepsGreedy(shorter, o);
      GreedyUnique(shorter);
      SegmentsSnoc(Flatten(shorter), o);
    }
  }

  // ---------- summaries ----------

  function Packets(s: seq<Obs>): nat {
    if s == [] then 0 else
    Packets(s[..|s| - 1]) + (if s[|s| - 1].kind.Ack? then s[|s| - 1].kind.packets else 0)
  }

  /** The RTT samples that count: those of acknowledgements, zero left out. */
  function Rtts(s: seq<Obs>): seq<Rtt> {
    if s == [] then [] else
    var k := s[|s| - 1].kind;
    Rtts(s[..|s| - 1]) + if k.Ack? && k.rtt != 0 then [k.rtt] else []
  }

  function Sum(xs: seq<Rtt>): nat {
    if xs == [] then 0 else Sum(xs[..|xs| - 1]) + xs[|xs| - 1]
  }

  function MaxRtt(xs: seq<Rtt>): Rtt {
    MaxOf(xs)
  }

  function Notices(s: seq<Obs>, e: CaEvent): nat {
    if s == [] then 0 else
    Notices(s[..|s| - 1], e) + if s[|s| - 1].kind == Notice(e) then 1 else 0
  }

  /** The newest acknowledgement of `s` not made at time `except`. */
  function NewestAck(s: seq<Obs>, except: Option<u64>): (r: Option<Obs>)
    ensures r.Some? ==> Some(r.value.now) != except
  {
    if s == [] then None
    else if s[|s| - 1].kind.Ack? && Some(s[|s| - 1].now) != except then Some(s[|s| - 1])
    else NewestAck(s[..|s| - 1], except)
  }

  /** Bytes acknowledged between the first event of the segment and its newest acknowledgement. */
  function Bytes(s: Segment): u64 {
    match NewestAck(s.Events(), None)
    case None => 0
    case Some(o) => Sub64(o.acked, s.first.acked)
  }

  /** The rate at the newest acknowledgement made at another time than the window's start. */
  function OpenBandwidth(s: Segment): u64 {
    match NewestAck(s.Events(), Some(s.first.now))
    case None => 0
    case Some(o) => Bandwidth(Sub64(o.acked, s.first.acked), Sub64(o.now, s.first.now))
  }

  function Summary(s: Segment): Window {
    var events := s.Events();
    var rtts := Rtts(events);
    Window(
      s.first.now,
      s.Last().now,
      Trunc32(Packets(events)),
      Trunc32(Notices(events, Loss)),
      Trunc32(Notices(events, EcnIsCe)),
      Trunc64(Sum(rtts)),
      Trunc64(|rtts|),
      0,
      Average(Trunc64(Sum(rtts)), Trunc64(|rtts|)),
      MaxRtt(rtts),
      Notices(events, EcnIsCe) + Notices(events, EcnNoCe) > 0,
      Bytes(s),
      OpenBandwidth(s))
  }

  /** Leaving a window: its rate is recomputed over the time up to the event that replaces it. */
  function Close(s: Segment, next: Obs): Window
    requires Late(s, next)
  {
    Summary(s).(bandwidth := Bandwidth(Bytes(s), Sub64(next.now, s.first.now)))
  }

  /** The windows of all segments but the newest: each has been closed by the next segment's first event. */
  ghost function Closed(segs: seq<Segment>): (ws: seq<Window>)
    requires Chained(segs)
    ensures |ws| == if segs == [] then 0 else |segs| - 1
    ensures forall i, j :: 0 <= i && j == i + 1 < |segs| ==> ws[i] == Close(segs[i], segs[j].first)
  {
    if |segs| <= 1 then [] else
    var n := |segs| - 1;
    Closed(segs[..n]) + [Close(segs[n - 1], segs[n].first)]
  }

  ghost function Windows(segs: seq<Segment>): (ws: seq<Window>)
    requires Chained(segs)
    ensures |ws| == |segs|
  {
    if segs == [] then [] else Closed(segs) + [Summary(segs[|segs| - 1])]
  }

  // ---------- the engine computes the summaries ----------

  lemma {:induction false} FoldsSnoc(s: seq<Obs>, o: Obs)
    ensures Packets(s + [o]) == Packets(s) + (if o.kind.Ack? then o.kind.packets else 0)
    ensures forall e :: Notices(s + [o], e) == Notices(s, e) + if o.kind == Notice(e) then 1 else 0
    ensures Rtts(s + [o]) == if o.kind.Ack? && o.kind.rtt != 0 then Rtts(s) + [o.kind.rtt] else Rtts(s)
    ensures forall x :: NewestAck(s + [o], x) == if o.kind.Ack? && Some(o.now) != x then Some(o) else NewestAck(s, x)
  {
    assert (s + [o])[..|s|] == s;
  }

  lemma {:induction false} RttsSnoc(xs: seq<Rtt>, x: Rtt)
    ensures Sum(xs + [x]) == Sum(xs) + x && MaxRtt(xs + [x]) == Max(MaxRtt(xs), x)
  {
    assert (xs + [x])[..|xs|] == xs;
    MaxOfSnoc(xs, x);
  }

  lemma {:induction false} RatesOfFirst(o: Obs)
    ensures Bytes(Segment(o, [])) == 0 && OpenBandwidth(Segment(o, [])) == 0
  {
    assert Segment(o, []).Events() == [] + [o];
    FoldsSnoc([], o);
  }

  lemma {:induction false} RttSnoc(w: Window, xs: seq<Rtt>, x: Rtt)
    requires w.sumRtt == Trunc64(Sum(xs)) && w.nRtt == Trunc64(|xs|)
    requires w.maxRtt == MaxRtt(xs) && w.minRtt == 0
    requires x != 0
    ensures AbsorbRtt(w, x) == w.(sumRtt := Trunc64(Sum(xs + [x])), nRtt := Trunc64(|xs| + 1),
                                  maxRtt := MaxRtt(xs + [x]),
                                  avgRtt := Average(Trunc64(Sum(xs + [x])), Trunc64(|xs| + 1)))
  {
    RttsSnoc(xs, x);
    Trunc64Add(Sum(xs), x);
    Trunc64Add(|xs|, 1);
    hide Bandwidth, Trunc64, Average, Sum, MaxRtt;
  }

  /** What is true of every count and sum before the first event. */
  lemma {:induction false} EmptyFolds()
    ensures Trunc32(0) == 0 && Trunc64(0) == 0 && Average(0, 0) == 0
    ensures Sum([]) == 0 && MaxRtt([]) == 0 && Packets([]) == 0 && Rtts([]) == [] && forall e :: Notices([], e) == 0
  {
  }

  /** The folds over a segment of one event. */
  lemma {:induction false} FoldsOfFirst(o: Obs)
    ensures var events := Segment(o, []).Events();
            && Packets(events) == (if o.kind.Ack? then o.kind.packets else 0)
            && Rtts(events) == (if o.kind.Ack? && o.kind.rtt != 0 then [o.kind.rtt] else [])
            && forall e :: Notices(events, e) == if o.kind == Notice(e) then 1 else 0
  {
    assert Segment(o, []).Events() == [] + [o];
    EmptyFolds();
    FoldsSnoc([], o);
  }

  lemma {:induction false} RttOfFirst(w: Window, x: Rtt)
    requires w.sumRtt == 0 && w.nRtt == 0 && w.maxRtt == 0 && w.minRtt == 0 && w.avgRtt == 0
    ensures AbsorbRtt(w, x) ==
            var xs: seq<Rtt> := if x == 0 then [] else [x];
            w.(sumRtt := Trunc64(Sum(xs)), nRtt := Trunc64(|xs|), maxRtt := MaxRtt(xs),
            avgRtt := Average(Trunc64(Sum(xs)), Trunc64(|xs|)))
  {
    EmptyFolds();
    if x != 0 {
      RttSnoc(w, [], x);
      assert [] + [x] == [x];
    }
  }

  lemma {:induction false} SummaryOfFirst(o: Obs)
    ensures Summary(Segment(o, [])) == Absorb(Opened(o.now), o, o.acked)
  {
    RatesOfFirst(o);
    EmptyFolds();
    FoldsOfFirst(o);
    hide Bandwidth, Bytes, OpenBandwidth, Average, Trunc32, Trunc64, Packets, Notices, Rtts, Sum, MaxRtt, AbsorbRtt;
    if o.kind.Ack? {
      var w := Window(o.now, o.now, Trunc32(o.kind.packets), 0, 0, 0, 0, 0, 0, 0, false, 0, 0);
      RttOfFirst(w, o.kind.rtt);
      assert Absorb(Opened(o.now), o, o.acked) == AbsorbRtt(w, o.kind.rtt);
    }
  }

  lemma {:induction false} RatesSnoc(s: Segment, o: Obs)
    ensures Bytes(s.Snoc(o)) == if o.kind.Ack? then Sub64(o.acked, s.first.acked) else Bytes(s)
    ensures OpenBandwidth(s.Snoc(o)) ==
            if o.kind.Ack? && o.now != s.first.now
            then Bandwidth(Sub64(o.acked, s.first.acked), Sub64(o.now, s.first.now))
            else OpenBandwidth(s)
  {
    s.EventsSnoc(o);
    FoldsSnoc(s.Events(), o);
  }

  lemma {:induction false} SummarySnocAck(s: Segment, o: Obs)
    requires o.kind.Ack?
    ensures Summary(s.Snoc(o)) == Absorb(Summary(s), o, s.first.acked)
  {
    hide Bandwidth, Average, Trunc32, Trunc64, MaxOf, Bytes, OpenBandwidth;
    s.EventsSnoc(o);
    FoldsSnoc(s.Events(), o);
    RatesSnoc(s, o);
    Trunc32Add(Packets(s.Events()), o.kind.packets);
    var next := s.Snoc(o);
    var w := Summary(s).(endTime := o.now, packets := Summary(next).packets,
      bytesAcked := Bytes(next), bandwidth := OpenBandwidth(next));
    assert Absorb(Summary(s), o, s.first.acked) == AbsorbRtt(w, o.kind.rtt);
    if o.kind.rtt != 0 {
      RttSnoc(w, Rtts(s.Events()), o.kind.rtt);
    }
  }

  lemma {:induction false} SummarySnocNotice(s: Segment, o: Obs)
    requires !o.kind.Ack?
    ensures Summary(s.Snoc(o)) == Absorb(Summary(s), o, s.first.acked)
  {
    s.EventsSnoc(o);
    FoldsSnoc(s.Events(), o);
    RatesSnoc(s, o);
    if o.kind.Notice? {
      Trunc32Add(Notices(s.Events(), o.kind.event), 1);
    }
  }

  lemma {:induction false} SummarySnoc(s: Segment, o: Obs)
    ensures Summary(s.Snoc(o)) == Absorb(Summary(s), o, s.first.acked)
  {
    if o.kind.Ack? {
      SummarySnocAck(s, o);
    } else {
      SummarySnocNotice(s, o);
    }
  }

  lemma {:induction false} StepMinima(s: Engine, o: Obs)
    requires s.minRtt == 0 && s.minBandwidth == 0
    ensures Step(s, o).minRtt == 0 && Step(s, o).minBandwidth == 0
  {
  }

  /** The fields that claim to be minima start at 0 and stay there, so a window always lasts 1 ms. */
  lemma {:induction false} MinimaStayZero(os: seq<Obs>)
    ensures Run(os).minRtt == 0 && Run(os).minBandwidth == 0
    ensures Threshold(Run(os)) == MIN_WINDOW_NS == 1_000_000
  {
    if os != [] {
      MinimaStayZero(os[..|os| - 1]);
      StepMinima(Run(os[..|os| - 1]), os[|os| - 1]);
    }
  }

  /** The engine's state is that of the segments. */
  ghost predicate Tracks(s: Engine, segs: seq<Segment>) {
    && s.minRtt == 0
    && Greedy(segs)
    && s.log == Windows(segs)
    && (segs != [] ==> s.baseline == segs[|segs| - 1].first.acked)
  }

  lemma {:induction false} WindowsSnoc(segs: seq<Segment>, s: Segment)
    requires Chained(segs) && segs != [] && Late(segs[|segs| - 1], s.first)
    ensures Chained(segs + [s])
    ensures Windows(segs + [s]) == Closed(segs) + [Close(segs[|segs| - 1], s.first), Summary(s)]
  {
    assert (segs + [s])[..|segs|] == segs;
  }

  lemma {:induction false} WindowsReplaceNewest(segs: seq<Segment>, s: Segment)
    requires Chained(segs) && segs != [] && s.first == segs[|segs| - 1].first
    ensures Chained(segs[..|segs| - 1] + [s])
    ensures Windows(segs[..|segs| - 1] + [s]) == Closed(segs) + [Summary(s)]
  {
    assert (segs[..|segs| - 1] + [s])[..|segs| - 1] == segs[..|segs| - 1];
  }

  /** One callback either opens the log, closes the newest window, or lands in it. */
  lemma {:induction false} StepLog(s: Engine, o: Obs)
    requires s.minRtt == 0
    ensures s.log == [] ==> Step(s, o).log == [Absorb(Opened(o.now), o, o.acked)]
    ensures s.log != [] ==>
              var n := |s.log| - 1;
              var elapsed := Sub64(o.now, s.log[n].startTime);
              Step(s, o).log ==
              if elapsed >= MIN_WINDOW_NS then
                s.log[..n] + [s.log[n].(bandwidth := Bandwidth(s.log[n].bytesAcked, elapsed)),
                              Absorb(Opened(o.now), o, o.acked)]
              else s.log[..n] + [Absorb(s.log[n], o, s.baseline)]
  {
  }

  lemma {:induction false} StepTracks(s: Engine, segs: seq<Segment>, o: Obs)
    requires Tracks(s, segs)
    ensures Chained(Place(segs, o))
    ensures Step(s, o).log == Windows(Place(segs, o))
  {
    StepLog(s, o);
    if segs == [] {
      SummaryOfFirst(o);
    } else {
      var n := |segs| - 1;
      assert s.log[n] == Summary(segs[n]) && s.log[..n] == Closed(segs);
      if Late(segs[n], o) {
        SummaryOfFirst(o);
        WindowsSnoc(segs, Segment(o, []));
      } else {
        SummarySnoc(segs[n], o);
        WindowsReplaceNewest(segs, segs[n].Snoc(o));
      }
    }
  }

  lemma {:induction false} StepBaseline(s: Engine, segs: seq<Segment>, o: Obs)
    requires Tracks(s, segs)
    ensures Step(s, o).baseline == Place(segs, o)[|Place(segs, o)| - 1].first.acked
  {
  }

  /** Every window of the engine is the summary of its segment, whatever the callbacks were. */
  lemma {:induction false} LogIsSummaries(os: seq<Obs>)
    ensures Tracks(Run(os), Segments(os))
  {
    MinimaStayZero(os);
    SegmentsGreedy(os);
    if os != [] {
      var head, o := os[..|os| - 1], os[|os| - 1];
      LogIsSummaries(head);
      StepTracks(Run(head), Segments(head), o);
      StepBaseline(Run(head), Segments(head), o);
    }
  }
}
