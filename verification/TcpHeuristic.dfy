/**
 The congestion-control module itself: callbacks that update a ring of ten windows and
 a set of flow-wide counters in place.
 */
module TcpHeuristic {
  import opened Words
  import opened Telemetry
  import opened Segmentation
  import opened WindowProperties
  import opened Clocks
  import Ring
  import CwndStore

  method RingIndex(head: u32, i: u32) returns (k: nat)
    requires head < 10 && i < 10
    ensures k == Ring.SlotOf(head, i)
  {
    k := (head + 10 - i) % 10;
  }

  method NextIndex(head: u32, count: u32) returns (k: u32)
    requires head < 10
    ensures k == Ring.NextHead(head, count)
  {
    k := if count == 0 then 0 else (head + 1) % 10;
  }

  /** The updates of heuristic_pkts_acked to the newest window. */
  method AckWindow(w: Window, now: u64, acked: u64, baseline: u64, packets: u32, rtt: Rtt, ghost sent: u64)
    returns (h: Window)
    ensures h == Absorb(w, Obs(now, acked, Ack(packets, rtt, sent)), baseline)
  {
    hide Bandwidth, Average, Trunc32, Trunc64;
    h := w.(endTime := now);
    h := h.(packets := Trunc32(h.packets + packets));
    h := h.(bytesAcked := Sub64(acked, baseline));
    if Sub64(now, h.startTime) > 0 {
      h := h.(bandwidth := Bandwidth(h.bytesAcked, Sub64(now, h.startTime)));
    }
    if rtt != 0 {
      h := h.(maxRtt := Max(h.maxRtt, rtt));
      h := h.(minRtt := Min(h.minRtt, rtt));
      h := h.(nRtt := Trunc64(h.nRtt + 1));
      h := h.(sumRtt := Trunc64(h.sumRtt + rtt));
      h := h.(avgRtt := Average(h.sumRtt, h.nRtt));
    }
  }

  /** The updates of heuristic_cwnd_event to the newest window. */
  method EventWindow(w: Window, now: u64, ghost acked: u64, ghost baseline: u64, ev: CaEvent) returns (h: Window)
    ensures h == Absorb(w, Obs(now, acked, Notice(ev)), baseline)
  {
    h := w.(endTime := now);
    match ev
    case Loss => h := h.(losses := Trunc32(h.losses + 1));
    case EcnIsCe =>
      h := h.(ecnMarks := Trunc32(h.ecnMarks + 1));
      h := h.(ecnEnabled := true);
    case EcnNoCe => h := h.(ecnEnabled := true);
    case OtherEvent =>
  }

  /** The engine after its newest window, `elapsed` old, has been closed and the next one opened. */
  ghost function Rolled(s: Engine, elapsed: u64, now: u64, acked: u64): Engine
    requires s.log != [] && elapsed != 0
  {
    var w := s.log[|s.log| - 1];
    var bw := Bandwidth(w.bytesAcked, elapsed);
    s.(log := s.log[|s.log| - 1 := w.(bandwidth := bw)] + [Opened(now)], baseline := acked,
    maxBandwidth := Trunc32(Max(s.maxBandwidth, bw)), minBandwidth := Trunc32(Min(s.minBandwidth, bw)))
  }

  lemma {:induction false} RollCases(s: Engine, now: u64, acked: u64)
    ensures s.log == [] ==> Roll(s, now, acked) == s.(log := s.log + [Opened(now)], baseline := acked)
    ensures s.log != [] ==>
              var elapsed := Sub64(now, s.log[|s.log| - 1].startTime);
              Roll(s, now, acked) == if elapsed < Threshold(s) then s else Rolled(s, elapsed, now, acked)
  {
    if s.log != [] {
      var n := |s.log| - 1;
      assert forall w :: s.log[n := w] + [Opened(now)] == s.log[..n] + [w, Opened(now)];
    }
  }

  lemma {:induction false} RollIgnoresAckFields(s: Engine, now: u64, acked: u64, t: u64, inflight: u64)
    ensures Roll(s.(lastAckTime := t, inflight := inflight), now, acked)
         == Roll(s, now, acked).(lastAckTime := t, inflight := inflight)
  {
  }

  /** `struct heuristic_state`, with a ghost record of the callbacks it has taken in. */
  class HeuristicState {
    const history: array<Window>
    var head: u32
    var count: u32
    var baseline: u64
    var lastAckTime: u64
    var inflight: u64
    var maxCwnd: u32
    var minBandwidth: u32
    var maxBandwidth: u32
    var minRtt: u32
    var maxRtt: u32

    ghost var trace: seq<Obs>
    ghost var undone: seq<u32>

    ghost predicate Holds(s: Engine)
      reads this, history
    {
      && Ring.Holds(history[..], head, count, s.log)
      && baseline == s.baseline && lastAckTime == s.lastAckTime && inflight == s.inflight
      && maxCwnd == Max(s.maxCwnd, MaxOf(undone))
      && minBandwidth == s.minBandwidth && maxBandwidth == s.maxBandwidth
      && minRtt == s.minRtt && maxRtt == s.maxRtt
    }

    /** The fields are what the engine computes from the callbacks so far. */
    ghost predicate Valid()
      reads this, history
    {
      Holds(Run(trace))
    }

    /** kzalloc: everything starts at zero. */
    constructor ()
      ensures Valid() && trace == [] && undone == [] && fresh(history)
      ensures head == 0 && count == 0
    {
      history := new Window[10](_ => ZeroWindow);
      head, count := 0, 0;
      baseline, lastAckTime, inflight := 0, 0, 0;
      maxCwnd, minBandwidth, maxBandwidth, minRtt, maxRtt := 0, 0, 0, 0, 0;
      trace, undone := [], [];
    }

    /** The slot of the i-th newest window; None is the C code's NULL. */
    method HistoryGet(i: u32, ghost log: seq<Window>) returns (slot: Option<nat>)
      requires Ring.Holds(history[..], head, count, log)
      ensures slot.None? <==> |Ring.Retained(log)| <= i
      ensures slot.Some? ==>
                slot.value < history.Length && history[slot.value] == Ring.Retained(log)[|Ring.Retained(log)| - 1 - i]
      ensures slot.Some? && i == 0 ==> slot.value == head
    {
      Ring.CountIsLength(history[..], head, count, log);
      if i >= count {
        return None;
      }
      Ring.EntryAt(history[..], head, count, log, i);
      hide Ring.Holds, Ring.Retained;
      var k := RingIndex(head, i);
      slot := Some(k);
    }

    method HistoryAppend(ghost log: seq<Window>)
      requires Ring.Holds(history[..], head, count, log)
      modifies this`head, this`count, history
      ensures Ring.Holds(history[..], head, count, log + [ZeroWindow])
      ensures head < history.Length && history[head] == ZeroWindow
    {
      hide Ring.Entries, Ring.Retained;
      Ring.Append(history[..], head, count, log, ZeroWindow);
      head := NextIndex(head, count);
      history[head] := ZeroWindow;
      if count < 10 {
        count := count + 1;
      }
    }

    /** Store through the pointer to the newest window. */
    method SetNewest(w: Window, ghost log: seq<Window>)
      requires Ring.Holds(history[..], head, count, log) && log != []
      modifies history
      ensures Ring.Holds(history[..], head, count, log[|log| - 1 := w])
    {
      hide Ring.Entries, Ring.Retained;
      Ring.ReplaceNewest(history[..], head, count, log, w);
      history[head] := w;
    }

    /** Read through the pointer to the newest window. */
    method Newest(ghost log: seq<Window>) returns (w: Window)
      requires Ring.Holds(history[..], head, count, log) && log != []
      ensures w == log[|log| - 1]
    {
      var slot := HistoryGet(0, log);
      Ring.RetainedAt(log, 0);
      w := history[head];
    }

    /** A cleared slot, stamped with its start time; the socket's total becomes the byte baseline. */
    method OpenWindow(now: u64, acked: u64, ghost log: seq<Window>)
      requires Ring.Holds(history[..], head, count, log)
      modifies this`head, this`count, this`baseline, history
      ensures Ring.Holds(history[..], head, count, log + [Opened(now)])
      ensures baseline == acked
    {
      HistoryAppend(log);
      hide Ring.Holds;
      SetNewest(history[head].(startTime := now), log + [ZeroWindow]);
      baseline := acked;
      assert (log + [ZeroWindow])[|log| := Opened(now)] == log + [Opened(now)];
    }

    /** Close the newest window, `elapsed` old, and open the next. */
    method Rollover(elapsed: u64, now: u64, acked: u64, ghost s: Engine)
      requires Holds(s) && s.log != [] && elapsed != 0
      modifies this`head, this`count, this`baseline, this`minBandwidth, this`maxBandwidth, history
      ensures Holds(Rolled(s, elapsed, now, acked))
    {
      hide Ring.Holds, Opened, Bandwidth, Trunc32, MaxOf;
      var w := Newest(s.log);
      w := w.(bandwidth := Bandwidth(w.bytesAcked, elapsed));
      SetNewest(w, s.log);
      maxBandwidth := Trunc32(Max(maxBandwidth, w.bandwidth));
      minBandwidth := Trunc32(Min(minBandwidth, w.bandwidth));
      OpenWindow(now, acked, s.log[|s.log| - 1 := w]);
    }

    /** append_if_need_new_qwindow: afterwards the newest window is the one that `now` belongs to. */
    method RollIfNeeded(now: u64, acked: u64, ghost s: Engine)
      requires Holds(s)
      modifies this`head, this`count, this`baseline, this`minBandwidth, this`maxBandwidth, history
      ensures Holds(Roll(s, now, acked))
    {
      hide Ring.Holds, Roll, Rolled, Opened, MaxOf;
      Ring.CountIsLength(history[..], head, count, s.log);
      RollCases(s, now, acked);
      if count == 0 {
        OpenWindow(now, acked, s.log);
        return;
      }
      var w := Newest(s.log);
      var elapsed := Sub64(now, w.startTime);
      var threshold := Max(MIN_WINDOW_NS, minRtt);
      if elapsed >= threshold {
        Rollover(elapsed, now, acked, s);
      }
    }

    /** The part of heuristic_pkts_acked that updates the newest window through its pointer. */
    method AbsorbAck(now: u64, acked: u64, ghost sent: u64, packets: u32, rtt: Rtt, ghost log: seq<Window>)
      requires Ring.Holds(history[..], head, count, log) && log != []
      modifies history
      ensures var n := |log| - 1;
              Ring.Holds(history[..], head, count, log[n := Absorb(log[n], Obs(now, acked, Ack(packets, rtt, sent)), baseline)])
    {
      hide Ring.Holds, Absorb;
      var w := Newest(log);
      w := AckWindow(w, now, acked, baseline, packets, rtt, sent);
      SetNewest(w, log);
    }

    /** The body of heuristic_pkts_acked once its guard has passed. */
    method RecordAck(now: u64, acked: u64, sent: u64, packets: u32, rtt: Rtt)
      requires Valid()
      modifies this, history
      ensures Valid() && undone == old(undone)
      ensures trace == old(trace) + [Obs(now, acked, Ack(packets, rtt, sent))]
    {
      hide Ring.Holds, Run, Roll, Absorb, MaxOf, Sub64;
      ghost var o := Obs(now, acked, Ack(packets, rtt, sent));
      ghost var r := Roll(Run(trace), now, acked);
      RollIgnoresAckFields(Run(trace), now, acked, now, Sub64(sent, acked));
      lastAckTime := now;
      inflight := Sub64(sent, acked);
      RollIfNeeded(now, acked, Run(trace).(lastAckTime := now, inflight := Sub64(sent, acked)));
      AbsorbAck(now, acked, sent, packets, rtt, r.log);
      if rtt != 0 {
        maxRtt := Max(maxRtt, rtt);
        minRtt := Min(minRtt, rtt);
      }
      RunSnoc(trace, o);
      trace := trace + [o];
    }

    /** The body of heuristic_cwnd_event. */
    method RecordEvent(now: u64, acked: u64, ev: CaEvent)
      requires Valid()
      modifies this, history
      ensures Valid() && undone == old(undone)
      ensures trace == old(trace) + [Obs(now, acked, Notice(ev))]
    {
      hide Ring.Holds, Run, Roll, Absorb;
      ghost var o := Obs(now, acked, Notice(ev));
      ghost var r := Roll(Run(trace), now, acked);
      RollIfNeeded(now, acked, Run(trace));
      var w := Newest(r.log);
      w := EventWindow(w, now, acked, baseline, ev);
      SetNewest(w, r.log);
      RunSnoc(trace, o);
      trace := trace + [o];
    }

    /** The bookkeeping of heuristic_cong_control around the decision `cwnd`. */
    method RecordControl(now: u64, acked: u64, cwnd: u32)
      requires Valid()
      modifies this, history
      ensures Valid() && undone == old(undone)
      ensures trace == old(trace) + [Obs(now, acked, Control(cwnd))]
    {
      hide Ring.Holds, Run, Roll, MaxOf;
      ghost var o := Obs(now, acked, Control(cwnd));
      ghost var r := Roll(Run(trace), now, acked);
      RollIfNeeded(now, acked, Run(trace));
      var w := Newest(r.log);
      SetNewest(w.(endTime := now), r.log);
      maxCwnd := Max(maxCwnd, cwnd);
      RunSnoc(trace, o);
      trace := trace + [o];
    }

    /** The bookkeeping of heuristic_undo_cwnd around its decision. */
    method RecordUndo(cwnd: u32)
      requires Valid()
      modifies this`maxCwnd, this`undone
      ensures Valid() && undone == old(undone) + [cwnd]
    {
      hide Ring.Holds, Run, MaxOf;
      MaxOfSnoc(undone, cwnd);
      maxCwnd := Max(maxCwnd, cwnd);
      undone := undone + [cwnd];
    }

    /** What a reader of the ring gets: the i-th newest window is that of the i-th newest segment of the run. */
    method ReadWindow(i: u32) returns (w: Option<Window>)
      requires Valid()
      ensures w.Some? <==> i < Min(|Segments(trace)|, 10)
      ensures Greedy(Segments(trace)) && Flatten(Segments(trace)) == trace
      ensures w.Some? ==> w.value == WindowFor(Segments(trace), |Segments(trace)| - 1 - i)
    {
      hide Run, Segments, WindowFor, Ring.Holds, Ring.Retained;
      ghost var log := Run(trace).log;
      RetainedWindow(trace, i);
      SegmentsGreedy(trace);
      var slot := HistoryGet(i, log);
      if slot.None? {
        return None;
      }
      w := Some(history[slot.value]);
    }
  }

  /** The window of segment `i`: closed by the first event of the next one, or still open. */
  ghost function WindowFor(segs: seq<Segment>, i: nat): Window
    requires i < |segs| && Chained(segs)
  {
    if i + 1 < |segs| then Close(segs[i], segs[i + 1].first) else Summary(segs[i])
  }

  /** The i-th newest of the ten newest windows of a run is that of its i-th newest segment. */
  lemma {:induction false} RetainedWindow(os: seq<Obs>, i: nat)
    ensures Greedy(Segments(os))
    ensures |Ring.Retained(Run(os).log)| == Min(|Segments(os)|, 10)
    ensures var kept, segs := Ring.Retained(Run(os).log), Segments(os);
            i < |kept| ==> kept[|kept| - 1 - i] == WindowFor(segs, |segs| - 1 - i)
  {
    hide Run, Segments, Summary, Bandwidth, Ring.Retained, Windows;
    LogIsSummaries(os);
    var log := Run(os).log;
    if i < |Ring.Retained(log)| {
      Ring.RetainedAt(log, i);
      WindowAt(os, |log| - 1 - i);
    }
  }

  lemma {:induction false} RecordedSuffix(log: seq<Window>, kept: seq<Window>, d: nat, i: nat)
    requires d + |kept| == |log| && i <= |kept|
    requires forall j: nat :: j < |kept| ==> kept[j] == log[d + j]
    ensures Recorded(kept, i) == Recorded(log, d + i)
    decreases |kept| - i
  {
    if i < |kept| {
      RecordedSuffix(log, kept, d, i + 1);
    }
  }

  /**
   The windows still in the ring and the gaps behind them make up what was acknowledged since the oldest one's
   baseline; so the ring never claims more.
   */
  lemma {:induction false} RetainedBytes(os: seq<Obs>)
    requires os != [] && Nondecreasing(os, (o: Obs) => o.acked)
    ensures var kept := Ring.Retained(Run(os).log);
            && |kept| <= |Segments(os)|
            && var d := |Segments(os)| - |kept|;
            && Recorded(kept, 0) + Missed(os, d) == os[|os| - 1].acked - Baseline(os, d)
            && (forall j :: d <= j < |Segments(os)| ==> 0 <= Gap(os, j))
            && Recorded(kept, 0) <= os[|os| - 1].acked - Baseline(os, d)
  {
    hide Run, Segments, Recorded, Ring.Retained, Windows, Missed, Gap, Baseline;
    var log := Run(os).log;
    Ring.RetainedIsSuffix(log);
    var kept := Ring.Retained(log);
    LogIsSummaries(os);
    var d := |log| - |kept|;
    RecordedSuffix(log, kept, d, 0);
    BytesConserved(os, d);
  }

  /** The flow's greatest RTT bounds every window still in the ring, and is their maximum until one is evicted. */
  lemma {:induction false} RetainedPeaks(os: seq<Obs>)
    ensures var kept := Ring.Retained(Run(os).log);
            && (forall i :: 0 <= i < |kept| ==> kept[i].maxRtt <= Run(os).maxRtt)
            && (|Segments(os)| <= 10 ==> Run(os).maxRtt == MaxOf(Peaks(kept)))
  {
    hide Run, Segments, Ring.Retained, Windows;
    Ring.RetainedIsSuffix(Run(os).log);
    LogIsSummaries(os);
    MaxRttOfWindows(os);
    var log := Run(os).log;
    var kept := Ring.Retained(log);
    assert |log| <= 10 ==> kept == log;
    forall i | 0 <= i < |kept| ensures kept[i].maxRtt <= Run(os).maxRtt {
      assert kept[i] == log[|log| - |kept| + i];
      assert Peaks(log)[|log| - |kept| + i] == kept[i].maxRtt;
    }
  }

  // ---------- the callbacks ----------

  /** `struct ack_sample`; rtt is an s32. */
  datatype AckSample = AckSample(packets: u32, rtt: int)

  /** The private data of a socket: its statistics and the time at which it started. */
  class HeuristicCa {
    var state: HeuristicState?
    var startTs: u64

    ghost predicate Valid()
      reads this, state, if state == null then {} else {state.history}
    {
      state != null ==> state.Valid()
    }

    ghost function Repr(): set<object>
      reads this
    {
      if state == null then {} else {state, state.history}
    }

    /** heuristic_init_state, for an allocation that succeeds. */
    constructor (clock: u64)
      ensures Valid() && fresh(Repr()) && state != null
      ensures startTs == clock && state.trace == [] && state.undone == []
    {
      state := new HeuristicState();
      startTs := clock;
    }

    /** heuristic_release */
    method Release()
      modifies this
      ensures state == null && startTs == old(startTs)
    {
      state := null;
    }

    /** heuristic_pkts_acked: a missing sample or a negative RTT changes nothing. */
    method PktsAcked(clock: u64, sent: u64, acked: u64, sample: Option<AckSample>)
      requires Valid()
      requires sample.Some? ==> sample.value.rtt < 0x8000_0000
      modifies Repr()
      ensures Valid()
      ensures state != null ==>
                state.undone == old(state.undone) &&
                state.trace == if sample.None? || sample.value.rtt < 0 then old(state.trace)
                               else var k := Ack(sample.value.packets, sample.value.rtt, sent);
                                    old(state.trace) + [Obs(Stamp(startTs, clock, k), acked, k)]
    {
      if state == null || sample.None? || sample.value.rtt < 0 {
        return;
      }
      state.RecordAck(Sub64(clock, startTs), acked, sent, sample.value.packets, sample.value.rtt);
    }

    /** heuristic_cwnd_event */
    method CwndEvent(clock: u64, acked: u64, ev: CaEvent)
      requires Valid()
      modifies Repr()
      ensures Valid()
      ensures state != null ==>
                state.undone == old(state.undone) &&
                state.trace == old(state.trace) + [Obs(Stamp(startTs, clock, Notice(ev)), acked, Notice(ev))]
    {
      if state == null {
        return;
      }
      state.RecordEvent(Sub64(clock, startTs), acked, ev);
    }

    /**
     heuristic_cong_control around a decision taken elsewhere (the stand-alone module links its own
     logic): the window handed to the socket, or None when the guard returns early.
     */
    method ApplyDecision(clock: u64, acked: u64, rateSample: bool, decision: u32, limit: u32)
      returns (cwnd: Option<u32>)
      requires Valid()
      modifies Repr()
      ensures Valid()
      ensures cwnd == if old(state) == null || !rateSample then None else Some(CwndStore.ClampCwnd(decision, limit))
      ensures cwnd.Some? && limit >= 2 ==> CwndStore.Nearest(cwnd.value, decision, limit)
      ensures state != null ==>
                state.undone == old(state.undone) &&
                state.trace == if !rateSample then old(state.trace)
                               else old(state.trace) + [Obs(Stamp(startTs, clock, Control(decision)), acked, Control(decision))]
    {
      if state == null || !rateSample {
        return None;
      }
      state.RecordControl(clock, acked, decision);
      CwndStore.ClampedIsUsable(decision, limit);
      cwnd := Some(CwndStore.ClampCwnd(decision, limit));
    }

    /** heuristic_cong_control of the probed module: the decision is read from the shared register. */
    method CongControl(clock: u64, acked: u64, rateSample: bool, device: CwndStore.CwndDevice, limit: u32)
      returns (cwnd: Option<u32>)
      requires Valid() && device.Valid()
      modifies Repr()
      ensures Valid()
      ensures cwnd.Some? && limit >= 2 ==> CwndStore.Nearest(cwnd.value, CwndStore.Decision(old(device.State())), limit)
      ensures var decision := CwndStore.Decision(old(device.State()));
              && cwnd == (if old(state) == null || !rateSample then None else Some(CwndStore.ClampCwnd(decision, limit)))
              && (state != null ==>
                    state.undone == old(state.undone) &&
                    state.trace == if !rateSample then old(state.trace)
                                   else old(state.trace) + [Obs(Stamp(startTs, clock, Control(decision)), acked, Control(decision))])
    {
      var decision := device.CongControlLogic();
      cwnd := ApplyDecision(clock, acked, rateSample, decision, limit);
    }

    /** heuristic_undo_cwnd of the stand-alone module: only the fallback is clamped. */
    method UndoCwnd(current: u32, decision: u32, limit: u32) returns (cwnd: u32)
      requires Valid()
      modifies Repr()
      ensures Valid()
      ensures cwnd == if old(state) == null then CwndStore.ClampCwnd(current, limit) else decision
      ensures old(state) == null && limit >= 2 ==> CwndStore.Nearest(cwnd, current, limit)
      ensures state != null ==> state.trace == old(state.trace) && state.undone == old(state.undone) + [decision]
    {
      if state == null {
        CwndStore.ClampedIsUsable(current, limit);
        return CwndStore.ClampCwnd(current, limit);
      }
      state.RecordUndo(decision);
      cwnd := decision;
    }
  }
}
