/**
 The per-flow statistics engine of the congestion-control module, as a function on values.
 The fixed ring of the C code is replaced by an unbounded log of windows;
 module TcpHeuristic shows that the ring holds the newest part of this log.
 */
module Telemetry {
  import opened Words

  /** MIN_QWINDOW_DURATION_MS in nanoseconds. */
  const MIN_WINDOW_NS: u64 := 1_000_000
  /** 8ULL * NSEC_PER_SEC */
  const BITS_PER_BYTE_SECOND: u64 := 8_000_000_000

  /** `struct qwindow_sample`. */
  datatype Window = Window(
    startTime: u64,
    endTime: u64,
    packets: u32,
    losses: u32,
    ecnMarks: u32,
    sumRtt: u64,
    nRtt: u64,
    minRtt: u32,
    avgRtt: u32,
    maxRtt: u32,
    ecnEnabled: bool,
    bytesAcked: u64,
    bandwidth: u64)

  const ZeroWindow := Window(0, 0, 0, 0, 0, 0, 0, 0, 0, 0, false, 0, 0)

  /** A non-negative s32 round-trip time in microseconds. */
  type Rtt = x: int | 0 <= x < 0x8000_0000

  datatype CaEvent = Loss | EcnIsCe | EcnNoCe | OtherEvent

  /** What one effective callback brings: an RTT sample is never negative (negative ones are dropped). */
  datatype Kind =
    | Ack(packets: u32, rtt: Rtt, sent: u64)
    | Notice(event: CaEvent)
    | Control(cwnd: u32)

  /** One callback as the engine sees it: its local time, the socket's byte total, its payload. */
  datatype Obs = Obs(now: u64, acked: u64, kind: Kind)

  /** `struct heuristic_state`, with the ring replaced by the log of every window ever opened. */
  datatype Engine = Engine(
    log: seq<Window>,
    baseline: u64,
    lastAckTime: u64,
    inflight: u64,
    maxCwnd: u32,
    minBandwidth: u32,
    maxBandwidth: u32,
    minRtt: u32,
    maxRtt: u32)

  const ZeroEngine := Engine([], 0, 0, 0, 0, 0, 0, 0, 0)

  function Bandwidth(bytes: u64, elapsed: u64): u64
    requires elapsed != 0
  {
    Trunc64(BITS_PER_BYTE_SECOND * bytes) / elapsed
  }

  /** u64 quotient stored into a u32; a u64 sample counter is 0 here only after it wrapped. */
  function Average(sum: u64, n: u64): u32 {
    if n == 0 then 0 else Trunc32(sum / n)
  }

  /** A slot that has just been cleared and stamped. */
  function Opened(now: u64): Window {
    Window(now, 0, 0, 0, 0, 0, 0, 0, 0, 0, false, 0, 0)
  }

  function Threshold(s: Engine): u64 {
    Max(MIN_WINDOW_NS, s.minRtt)
  }

  /** append_if_need_new_qwindow */
  function Roll(s: Engine, now: u64, acked: u64): (r: Engine)
    ensures r.log != []
  {
    if s.log == [] then
      s.(log := [Opened(now)], baseline := acked)
    else
      var open := s.log[|s.log| - 1];
      var elapsed := Sub64(now, open.startTime);
      if elapsed >= Threshold(s) then
        var bw := Bandwidth(open.bytesAcked, elapsed);
        s.(log := s.log[..|s.log| - 1] + [open.(bandwidth := bw), Opened(now)],
        baseline := acked,
        maxBandwidth := Trunc32(Max(s.maxBandwidth, bw)),
        minBandwidth := Trunc32(Min(s.minBandwidth, bw)))
      else s
  }

  /** The RTT part of an acknowledgement, on one window. */
  function AbsorbRtt(w: Window, rtt: Rtt): Window {
    if rtt == 0 then w else
    var n := Trunc64(w.nRtt + 1);
    var sum := Trunc64(w.sumRtt + rtt);
    w.(maxRtt := Max(w.maxRtt, rtt), minRtt := Min(w.minRtt, rtt),
    nRtt := n, sumRtt := sum, avgRtt := Average(sum, n))
  }

  /** The effect of a callback on the open window. */
  function Absorb(w: Window, o: Obs, baseline: u64): Window {
    match o.kind
    case Ack(packets, rtt, _) =>
      var bytes, elapsed := Sub64(o.acked, baseline), Sub64(o.now, w.startTime);
      AbsorbRtt(w.(endTime := o.now, packets := Trunc32(w.packets + packets), bytesAcked := bytes,
                bandwidth := if elapsed > 0 then Bandwidth(bytes, elapsed) else w.bandwidth), rtt)
    case Notice(Loss) => w.(endTime := o.now, losses := Trunc32(w.losses + 1))
    case Notice(EcnIsCe) => w.(endTime := o.now, ecnMarks := Trunc32(w.ecnMarks + 1), ecnEnabled := true)
    case Notice(EcnNoCe) => w.(endTime := o.now, ecnEnabled := true)
    case _ => w.(endTime := o.now)
  }

  /** The effect of a callback on the flow-wide fields. */
  function AbsorbGlobal(s: Engine, o: Obs): Engine {
    match o.kind
    case Ack(_, rtt, sent) =>
      if rtt == 0 then s.(lastAckTime := o.now, inflight := Sub64(sent, o.acked))
      else s.(lastAckTime := o.now, inflight := Sub64(sent, o.acked),
           maxRtt := Max(s.maxRtt, rtt), minRtt := Min(s.minRtt, rtt))
    case Notice(_) => s
    case Control(cwnd) => s.(maxCwnd := Max(s.maxCwnd, cwnd))
  }

  function Step(s: Engine, o: Obs): Engine {
    var r := Roll(s, o.now, o.acked);
    var top := |r.log| - 1;
    AbsorbGlobal(r.(log := r.log[top := Absorb(r.log[top], o, r.baseline)]), o)
  }

  function Run(os: seq<Obs>): Engine {
    if os == [] then ZeroEngine else Step(Run(os[..|os| - 1]), os[|os| - 1])
  }

  lemma {:induction false} RunSnoc(os: seq<Obs>, o: Obs)
    ensures Run(os + [o]) == Step(Run(os), o)
  {
    assert (os + [o])[..|os|] == os;
  }
}
