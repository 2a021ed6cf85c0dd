/**
 Reading a link log: which lines the Perl analyser counts, and the hashes, sums and lists that it keeps
 of them. Module PlotReader has the Python reader of the same logs.
 */
module LinkLog {
  import opened Words

  datatype Kind = Arrival | Dropped | Capacity | Departure | OtherKind

  /** One line of the log; `Malformed` has no byte count, or a field that is not a number. */
  datatype Line =
    | Base(time: nat)
    | Remark
    | Malformed
    | Event(time: nat, kind: Kind, bytes: nat, delay: Option<int>)

  datatype LogError =
    | DuplicateBase | BadLine | MissingBase | ZeroBin
    | MissingDelay | NegativeDelay | DelayTooLong | UnknownEvent

  datatype Result<T> = Ok(value: T) | Err(error: LogError)

  /** A counted event: time since the base time stamp, size in bits, and delay (0 for all but departures). */
  datatype Record = Record(time: int, kind: Kind, bits: nat, delay: nat)

  // ---------- which lines count ----------

  /** The base time stamp seen so far and the events counted so far. */
  datatype Progress = Progress(base: Option<nat>, records: seq<Record>)

  /** What the Perl loop makes of one line. */
  function TakeLine(p: Progress, l: Line, msPerBin: nat): Result<Progress> {
    match l
    case Base(t) => if p.base.Some? then Err(DuplicateBase) else Ok(p.(base := Some(t)))
    case Remark => Ok(p)
    case Malformed => Err(BadLine)
    case Event(time, kind, bytes, delay) =>
      if p.base.None? then Err(MissingBase)
      else if time <= p.base.value then Ok(p)
      else if msPerBin == 0 then Err(ZeroBin)
      else if kind == OtherKind then Err(UnknownEvent)
      else if kind != Departure then Ok(p.(records := p.records + [Record(time - p.base.value, kind, 8 * bytes, 0)]))
      else if delay.None? then Err(MissingDelay)
      else if delay.value < 0 then Err(NegativeDelay)
      else if time - p.base.value < delay.value then Err(DelayTooLong)
      else Ok(p.(records := p.records + [Record(time - p.base.value, kind, 8 * bytes, delay.value)]))
  }

  function TakeLines(lines: seq<Line>, msPerBin: nat): Result<Progress> {
    if lines == [] then Ok(Progress(None, [])) else
    match TakeLines(lines[..|lines| - 1], msPerBin)
    case Err(e) => Err(e)
    case Ok(p) => TakeLine(p, lines[|lines| - 1], msPerBin)
  }

  // ---------- what is computed from the counted events ----------

  function BitsOf(r: Record, kind: Kind): nat {
    if r.kind == kind then r.bits else 0
  }

  function Total(rs: seq<Record>, kind: Kind): nat {
    if rs == [] then 0 else Total(rs[..|rs| - 1], kind) + BitsOf(rs[|rs| - 1], kind)
  }

  function BinOf(r: Record, w: nat): int
    requires w > 0
  {
    r.time / w
  }

  /** Bits of one kind in one bin. */
  function InBin(rs: seq<Record>, kind: Kind, w: nat, b: int): nat
    requires w > 0
  {
    if rs == [] then 0 else
    var r := rs[|rs| - 1];
    InBin(rs[..|rs| - 1], kind, w, b) + if BinOf(r, w) == b then BitsOf(r, kind) else 0
  }

  /** Some event of this kind falls into bin `b`. */
  predicate Seen(rs: seq<Record>, kind: Kind, w: nat, b: int)
    requires w > 0
  {
    rs != [] && (Seen(rs[..|rs| - 1], kind, w, b) || (rs[|rs| - 1].kind == kind && BinOf(rs[|rs| - 1], w) == b))
  }

  /** `m` has a key for exactly the bins with an event of this kind, and there its bits. */
  ghost predicate Bins(m: map<int, nat>, rs: seq<Record>, kind: Kind, w: nat)
    requires w > 0
  {
    forall b: int :: (b in m <==> Seen(rs, kind, w, b)) && (b in m ==> m[b] == InBin(rs, kind, w, b))
  }

  function GetOr0(m: map<int, nat>, b: int): nat {
    if b in m then m[b] else 0
  }

  lemma {:induction false} InBinZero(rs: seq<Record>, kind: Kind, w: nat, b: int)
    requires w > 0 && !Seen(rs, kind, w, b)
    ensures InBin(rs, kind, w, b) == 0
  {
    if rs != [] {
      InBinZero(rs[..|rs| - 1], kind, w, b);
    }
  }

  /** What `$hash{$bin} += $num_bits` does to a binning. */
  lemma {:induction false} BinsAdd(m: map<int, nat>, rs: seq<Record>, kind: Kind, w: nat, r: Record)
    requires w > 0 && Bins(m, rs, kind, w)
    ensures Bins(if r.kind == kind then m[BinOf(r, w) := GetOr0(m, BinOf(r, w)) + r.bits] else m, rs + [r], kind, w)
  {
    assert (rs + [r])[..|rs|] == rs;
    var b := BinOf(r, w);
    if b !in m {
      InBinZero(rs, kind, w, b);
    }
  }

  lemma {:induction false} BinsValue(m: map<int, nat>, rs: seq<Record>, kind: Kind, w: nat, b: int)
    requires w > 0 && Bins(m, rs, kind, w)
    ensures GetOr0(m, b) == InBin(rs, kind, w, b)
  {
    if b !in m {
      InBinZero(rs, kind, w, b);
    }
  }

  function Delays(rs: seq<Record>): seq<nat> {
    if rs == [] then [] else
    var r := rs[|rs| - 1];
    if r.kind == Departure then Delays(rs[..|rs| - 1]) + [r.delay] else Delays(rs[..|rs| - 1])
  }

  predicate CreatedAt(r: Record, t: nat) {
    r.kind == Departure && r.time == t + r.delay
  }

  /** The least delay of a departed packet created at `t`. */
  function LeastDelay(rs: seq<Record>, t: nat): Option<nat> {
    if rs == [] then None else
    var r, least := rs[|rs| - 1], LeastDelay(rs[..|rs| - 1], t);
    if !CreatedAt(r, t) then least
    else if least.None? then Some(r.delay)
    else Some(Min(r.delay, least.value))
  }

  lemma {:induction false} LeastDelayIsLeast(rs: seq<Record>, t: nat)
    ensures forall r :: r in rs && CreatedAt(r, t) ==> LeastDelay(rs, t).Some? && LeastDelay(rs, t).value <= r.delay
    ensures LeastDelay(rs, t).Some? ==> exists r :: r in rs && CreatedAt(r, t) && LeastDelay(rs, t) == Some(r.delay)
  {
    if rs != [] {
      var n := |rs| - 1;
      LeastDelayIsLeast(rs[..n], t);
      assert forall r :: r in rs ==> r in rs[..n] || r == rs[n];
      assert rs[n] in rs;
    }
  }

  /** `m` has the least delay for every time at which a departed packet was created, and nothing else. */
  ghost predicate LeastDelays(m: map<nat, nat>, rs: seq<Record>) {
    forall t: nat :: (if t in m then Some(m[t]) else None) == LeastDelay(rs, t)
  }

  /** What `$signal_delay{...} = min(...)` does. */
  lemma {:induction false} LeastDelaysAdd(m: map<nat, nat>, rs: seq<Record>, r: Record)
    requires LeastDelays(m, rs) && (r.kind == Departure ==> r.delay <= r.time)
    ensures r.kind != Departure ==> LeastDelays(m, rs + [r])
    ensures r.kind == Departure ==>
              var t := r.time - r.delay;
              LeastDelays(m[t := Min(r.delay, if t in m then m[t] else r.delay)], rs + [r])
  {
    assert (rs + [r])[..|rs|] == rs;
  }

  /** The latest time of an event. */
  function Latest(rs: seq<Record>): int
    requires rs != []
  {
    var r := rs[|rs| - 1];
    if |rs| == 1 then r.time else Max(Latest(rs[..|rs| - 1]), r.time)
  }

  datatype Stats = Stats(
    arrivals: map<int, nat>,
    departures: map<int, nat>,
    capacity: map<int, nat>,
    arrivalSum: nat,
    departureSum: nat,
    capacitySum: nat,
    firstTime: Option<int>,
    lastTime: Option<int>,
    delays: seq<nat>,
    signal: map<nat, nat>)

  // ---------- the Perl loop ----------

  lemma {:induction false} TakeLinesStep(lines: seq<Line>, i: nat, msPerBin: nat)
    requires i < |lines|
    ensures TakeLines(lines[..i + 1], msPerBin) ==
            match TakeLines(lines[..i], msPerBin)
            case Err(e) => Err(e)
            case Ok(p) => TakeLine(p, lines[i], msPerBin)
  {
    assert lines[..i + 1][..i] == lines[..i];
  }

  lemma {:induction false} ErrorSticks(lines: seq<Line>, i: nat, msPerBin: nat)
    requires i <= |lines| && TakeLines(lines[..i], msPerBin).Err?
    ensures TakeLines(lines, msPerBin) == TakeLines(lines[..i], msPerBin)
    decreases |lines| - i
  {
    if i < |lines| {
      TakeLinesStep(lines, i, msPerBin);
      ErrorSticks(lines, i + 1, msPerBin);
    } else {
      assert lines[..i] == lines;
    }
  }

  /** The hashes and sums after one more event of a kind. */
  method AddBits(m: map<int, nat>, sum: nat, ghost rs: seq<Record>, r: Record, w: nat) returns (m': map<int, nat>, sum': nat)
    requires w > 0 && Bins(m, rs, r.kind, w) && sum == Total(rs, r.kind)
    ensures Bins(m', rs + [r], r.kind, w) && sum' == Total(rs + [r], r.kind)
  {
    var bin := r.time / w;
    m' := m[bin := GetOr0(m, bin) + r.bits];
    sum' := sum + r.bits;
    BinsAdd(m, rs, r.kind, w, r);
    TotalAdd(rs, r, r.kind);
  }

  lemma {:induction false} OtherKindsStay(m: map<int, nat>, rs: seq<Record>, r: Record, w: nat, kind: Kind)
    requires w > 0 && Bins(m, rs, kind, w) && r.kind != kind
    ensures Bins(m, rs + [r], kind, w) && Total(rs + [r], kind) == Total(rs, kind)
  {
    BinsAdd(m, rs, kind, w, r);
    TotalAdd(rs, r, kind);
  }

  lemma {:induction false} TotalAdd(rs: seq<Record>, r: Record, kind: Kind)
    ensures Total(rs + [r], kind) == Total(rs, kind) + BitsOf(r, kind)
  {
    assert (rs + [r])[..|rs|] == rs;
  }

  ghost predicate DescribesBins(s: Stats, rs: seq<Record>, w: nat)
    requires w > 0
  {
    && Bins(s.arrivals, rs, Arrival, w) && s.arrivalSum == Total(rs, Arrival)
    && Bins(s.departures, rs, Departure, w) && s.departureSum == Total(rs, Departure)
    && Bins(s.capacity, rs, Capacity, w) && s.capacitySum == Total(rs, Capacity)
  }

  ghost predicate DescribesTimes(s: Stats, rs: seq<Record>) {
    && s.firstTime == (if rs == [] then None else Some(rs[0].time))
    && s.lastTime == (if rs == [] then None else Some(Latest(rs)))
  }

  ghost predicate DescribesDelays(s: Stats, rs: seq<Record>) {
    s.delays == Delays(rs) && LeastDelays(s.signal, rs)
  }

  /** The hashes, sums and lists of the analyser, in terms of the events it counted. */
  ghost predicate Describes(s: Stats, rs: seq<Record>, w: nat) {
    && (if w == 0 then rs == [] else DescribesBins(s, rs, w))
    && DescribesTimes(s, rs)
    && DescribesDelays(s, rs)
  }

  /** One counted event: the hashes, sums and lists after it. */
  method CountEvent(s: Stats, ghost rs: seq<Record>, r: Record, w: nat) returns (s': Stats)
    requires w > 0 && Describes(s, rs, w)
    requires r.kind != OtherKind && (r.kind == Departure ==> r.delay <= r.time)
    ensures Describes(s', rs + [r], w)
  {
    s' := CountTime(s, rs, r);
    s' := CountBits(s', rs, r, w);
    if r.kind == Departure {
      s' := CountDelay(s', rs, r);
    } else {
      LeastDelaysAdd(s.signal, rs, r);
      RestAdd(rs, r);
    }
  }

  method CountTime(s: Stats, ghost rs: seq<Record>, r: Record) returns (s': Stats)
    requires DescribesTimes(s, rs)
    ensures DescribesTimes(s', rs + [r])
    ensures s' == s.(firstTime := s'.firstTime, lastTime := s'.lastTime)
  {
    s' := s;
    if s'.lastTime.None? {
      s' := s'.(firstTime := Some(r.time), lastTime := Some(r.time));
    }
    s' := s'.(lastTime := Some(Max(r.time, s'.lastTime.value)));
    RestAdd(rs, r);
  }

  method CountBits(s: Stats, ghost rs: seq<Record>, r: Record, w: nat) returns (s': Stats)
    requires w > 0 && DescribesBins(s, rs, w) && r.kind != OtherKind
    ensures DescribesBins(s', rs + [r], w)
    ensures s'.firstTime == s.firstTime && s'.lastTime == s.lastTime && s'.delays == s.delays && s'.signal == s.signal
  {
    hide Bins, Total;
    s' := s;
    if r.kind != Arrival { OtherKindsStay(s.arrivals, rs, r, w, Arrival); }
    if r.kind != Departure { OtherKindsStay(s.departures, rs, r, w, Departure); }
    if r.kind != Capacity { OtherKindsStay(s.capacity, rs, r, w, Capacity); }
    match r.kind {
      case Arrival =>
        var bits, sum := AddBits(s.arrivals, s.arrivalSum, rs, r, w);
        s' := s.(arrivals := bits, arrivalSum := sum);
      case Departure =>
        var bits, sum := AddBits(s.departures, s.departureSum, rs, r, w);
        s' := s.(departures := bits, departureSum := sum);
      case Capacity =>
        var bits, sum := AddBits(s.capacity, s.capacitySum, rs, r, w);
        s' := s.(capacity := bits, capacitySum := sum);
      case Dropped =>
    }
  }

  method CountDelay(s: Stats, ghost rs: seq<Record>, r: Record) returns (s': Stats)
    requires DescribesDelays(s, rs) && r.kind == Departure && r.delay <= r.time
    ensures DescribesDelays(s', rs + [r])
    ensures s' == s.(delays := s'.delays, signal := s'.signal)
  {
    hide LeastDelays, Delays;
    var t := r.time - r.delay;
    s' := s.(delays := s.delays + [r.delay],
    signal := s.signal[t := Min(r.delay, if t in s.signal then s.signal[t] else r.delay)]);
    LeastDelaysAdd(s.signal, rs, r);
    RestAdd(rs, r);
  }

  lemma {:induction false} RestAdd(rs: seq<Record>, r: Record)
    ensures Delays(rs + [r]) == if r.kind == Departure then Delays(rs) + [r.delay] else Delays(rs)
    ensures Latest(rs + [r]) == if rs == [] then r.time else Max(Latest(rs), r.time)
    ensures (rs + [r])[0] == if rs == [] then r else rs[0]
  {
    assert (rs + [r])[..|rs|] == rs;
  }

  /** The line loop of the analyser: it stops with the first error, or describes exactly the counted events. */
  method ReadLog(lines: seq<Line>, msPerBin: nat) returns (r: Result<Stats>)
    ensures r.Err? <==> TakeLines(lines, msPerBin).Err?
    ensures r.Err? ==> r.error == TakeLines(lines, msPerBin).error
    ensures r.Ok? ==> Describes(r.value, TakeLines(lines, msPerBin).value.records, msPerBin)
  {
    var base: Option<nat> := None;
    ghost var rs: seq<Record> := [];
    var s := Stats(map[], map[], map[], 0, 0, 0, None, None, [], map[]);
    var i := 0;
    assert TakeLines(lines[..0], msPerBin) == Ok(Progress(base, rs));
    assert Describes(s, rs, msPerBin);
    hide Describes, TakeLines;
    while i < |lines|
      invariant i <= |lines|
      invariant TakeLines(lines[..i], msPerBin) == Ok(Progress(base, rs))
      invariant Describes(s, rs, msPerBin)
    {
      TakeLinesStep(lines, i, msPerBin);
      if TakeLines(lines[..i + 1], msPerBin).Err? {
        ErrorSticks(lines, i + 1, msPerBin);
      }
      match lines[i] {
        case Base(t) =>
          if base.Some? {
            return Err(DuplicateBase);
          }
          base := Some(t);
        case Remark =>
        case Malformed =>
          return Err(BadLine);
        case Event(time, kind, bytes, delay) =>
          if base.None? {
            return Err(MissingBase);
          }
          var t := time - base.value;
          if t > 0 {
            if msPerBin == 0 {
              return Err(ZeroBin);
            }
            if kind == OtherKind {
              return Err(UnknownEvent);
            }
            var d := 0;
            if kind == Departure {
              if delay.None? {
                return Err(MissingDelay);
              }
              if delay.value < 0 {
                return Err(NegativeDelay);
              }
              if t - delay.value < 0 {
                return Err(DelayTooLong);
              }
              d := delay.value;
            }
            s := CountEvent(s, rs, Record(t, kind, 8 * bytes, d), msPerBin);
            rs := rs + [Record(t, kind, 8 * bytes, d)];
          }
      }
      i := i + 1;
    }
    assert lines[..i] == lines;
    return Ok(s);
  }

  // ---------- sums of an accepted log ----------

  /** Eight times the bytes of all events of one kind after time `b`. */
  function BitsAfter(lines: seq<Line>, kind: Kind, b: nat): nat {
    if lines == [] then 0 else
    var l := lines[|lines| - 1];
    BitsAfter(lines[..|lines| - 1], kind, b) + if l.Event? && l.kind == kind && l.time > b then 8 * l.bytes else 0
  }

  lemma {:induction false} NothingBeforeBase(lines: seq<Line>, msPerBin: nat, kind: Kind, b: nat)
    requires TakeLines(lines, msPerBin).Ok? && TakeLines(lines, msPerBin).value.base.None?
    ensures TakeLines(lines, msPerBin).value.records == [] && BitsAfter(lines, kind, b) == 0
  {
    if lines != [] {
      NothingBeforeBase(lines[..|lines| - 1], msPerBin, kind, b);
    }
  }

  /** What one accepted line adds to the sum of a kind. */
  lemma {:induction false} LineAddsBits(p: Progress, l: Line, msPerBin: nat, kind: Kind)
    requires p.base.Some? && TakeLine(p, l, msPerBin).Ok?
    ensures var q := TakeLine(p, l, msPerBin).value;
            && q.base == p.base
            && Total(q.records, kind) == Total(p.records, kind) +
               if l.Event? && l.kind == kind && l.time > p.base.value then 8 * l.bytes else 0
  {
    if l.Event? && l.time > p.base.value {
      var d := if l.kind == Departure then l.delay.value else 0;
      TotalAdd(p.records, Record(l.time - p.base.value, l.kind, 8 * l.bytes, d), kind);
    }
  }

  /** The sums of an accepted log are those of its lines: every event after the one base time stamp counts, no other does. */
  lemma {:induction false} SumsAreBits(lines: seq<Line>, msPerBin: nat, kind: Kind)
    requires TakeLines(lines, msPerBin).Ok? && TakeLines(lines, msPerBin).value.base.Some?
    ensures var p := TakeLines(lines, msPerBin).value;
            Total(p.records, kind) == BitsAfter(lines, kind, p.base.value)
  {
    var n := |lines| - 1;
    var head, l := TakeLines(lines[..n], msPerBin).value, lines[n];
    if head.base.None? {
      NothingBeforeBase(lines[..n], msPerBin, kind, l.time);
    } else {
      hide TakeLine;
      SumsAreBits(lines[..n], msPerBin, kind);
      LineAddsBits(head, l, msPerBin, kind);
    }
  }

  // ---------- which logs are accepted ----------

  /** `b` is the base time stamp of some line before line `i`. */
  ghost predicate BaseBefore(lines: seq<Line>, i: nat, b: nat)
    requires i <= |lines|
  {
    exists j :: 0 <= j < i && lines[j] == Base(b)
  }

  /** The event in line `i` comes after base time stamp `b`. */
  ghost predicate EventAfter(lines: seq<Line>, i: nat, b: nat)
    requires i < |lines|
  {
    lines[i].Event? && lines[i].time > b && BaseBefore(lines, i, b)
  }

  /** Error `e` is what is wrong with line `i`, if every line before it is in order. */
  ghost predicate Fault(lines: seq<Line>, i: nat, w: nat, e: LogError)
    requires i < |lines|
  {
    var l := lines[i];
    match e
    case DuplicateBase => l.Base? && exists b :: BaseBefore(lines, i, b)
    case BadLine => l.Malformed?
    case MissingBase => l.Event? && !exists b :: BaseBefore(lines, i, b)
    case ZeroBin => w == 0 && exists b :: EventAfter(lines, i, b)
    case UnknownEvent => w > 0 && exists b :: EventAfter(lines, i, b) && l.kind == OtherKind
    case MissingDelay => w > 0 && exists b :: EventAfter(lines, i, b) && l.kind == Departure && l.delay == None
    case NegativeDelay =>
      w > 0 && exists b :: EventAfter(lines, i, b) && l.kind == Departure && l.delay.Some? && l.delay.value < 0
    case DelayTooLong =>
      w > 0 && exists b :: EventAfter(lines, i, b) && l.kind == Departure && l.delay.Some?
                           && 0 <= l.delay.value && l.time - b < l.delay.value
  }

  /** Nothing is wrong with line `i`. */
  ghost predicate InOrder(lines: seq<Line>, i: nat, w: nat)
    requires i < |lines|
  {
    forall e :: !Fault(lines, i, w, e)
  }

  /** The base time stamp kept is that of the one line that has one. */
  lemma {:induction false} BaseKnown(lines: seq<Line>, w: nat)
    requires TakeLines(lines, w).Ok?
    ensures forall b: nat :: TakeLines(lines, w).value.base == Some(b) <==> BaseBefore(lines, |lines|, b)
  {
    if lines != [] {
      var n := |lines| - 1;
      BaseKnown(lines[..n], w);
      BeforeSnoc(lines);
    }
  }

  lemma {:induction false} BeforeSnoc(lines: seq<Line>)
    requires lines != []
    ensures var n := |lines| - 1;
            forall b: nat :: BaseBefore(lines, |lines|, b) <==> BaseBefore(lines[..n], n, b) || lines[n] == Base(b)
    ensures var n := |lines| - 1;
            forall b: nat :: BaseBefore(lines, n, b) <==> BaseBefore(lines[..n], n, b)
  {
    var n := |lines| - 1;
    forall b: nat | BaseBefore(lines[..n], n, b) ensures BaseBefore(lines, n, b) && BaseBefore(lines, |lines|, b) {
      var j :| 0 <= j < n && lines[..n][j] == Base(b);
      assert lines[j] == Base(b);
    }
    forall b: nat | BaseBefore(lines, n, b) ensures BaseBefore(lines[..n], n, b) {
      var j :| 0 <= j < n && lines[j] == Base(b);
      assert lines[..n][j] == Base(b);
    }
    forall b: nat | BaseBefore(lines, |lines|, b) ensures BaseBefore(lines[..n], n, b) || lines[n] == Base(b) {
      var j :| 0 <= j <= n && lines[j] == Base(b);
      assert j < n ==> lines[..n][j] == Base(b);
    }
  }

  /** The last line is refused for exactly what is wrong with it. */
  lemma {:induction false} LastLineFault(lines: seq<Line>, w: nat)
    requires lines != [] && TakeLines(lines[..|lines| - 1], w).Ok?
    ensures TakeLines(lines, w).Ok? <==> InOrder(lines, |lines| - 1, w)
    ensures forall e :: TakeLines(lines, w) == Err(e) <==> Fault(lines, |lines| - 1, w, e)
  {
    var n := |lines| - 1;
    var p := TakeLines(lines[..n], w).value;
    BaseKnown(lines[..n], w);
    BeforeSnoc(lines);
    assert forall b: nat :: p.base == Some(b) <==> BaseBefore(lines, n, b);
    hide BaseBefore;
    if p.base.Some? {
      assert BaseBefore(lines, n, p.base.value);
      assert forall b: nat :: EventAfter(lines, n, b) ==> b == p.base.value;
    }
    LineFault(p, lines, n, w);
  }

  lemma {:induction false} LineFault(p: Progress, lines: seq<Line>, n: nat, w: nat)
    requires n < |lines|
    requires forall b: nat :: p.base == Some(b) <==> BaseBefore(lines, n, b)
    ensures forall e :: TakeLine(p, lines[n], w) == Err(e) <==> Fault(lines, n, w, e)
  {
    hide BaseBefore;
    var l := lines[n];
    assert forall b: nat :: EventAfter(lines, n, b) <==> l.Event? && p.base == Some(b) && l.time > b;
    if p.base.Some? {
      var b := p.base.value;
      assert BaseBefore(lines, n, b);
      assert l.Event? && l.time > b ==> EventAfter(lines, n, b);
    }
    hide EventAfter;
    forall e ensures TakeLine(p, l, w) == Err(e) <==> Fault(lines, n, w, e) {
      match e
      case DuplicateBase =>
      case BadLine =>
      case MissingBase =>
      case ZeroBin =>
      case UnknownEvent =>
      case MissingDelay =>
      case NegativeDelay =>
      case DelayTooLong =>
    }
  }

  /** Line `i` is the first that is not in order, and `e` is why. */
  ghost predicate StopsAt(lines: seq<Line>, i: nat, w: nat, e: LogError)
    requires i < |lines|
  {
    Fault(lines, i, w, e) && forall j: nat :: j < i ==> InOrder(lines, j, w)
  }

  lemma {:induction false} FaultInPrefix(lines: seq<Line>, n: nat, i: nat, w: nat)
    requires i < n <= |lines|
    ensures forall e :: Fault(lines[..n], i, w, e) <==> Fault(lines, i, w, e)
    ensures InOrder(lines[..n], i, w) <==> InOrder(lines, i, w)
  {
    forall b: nat ensures BaseBefore(lines[..n], i, b) <==> BaseBefore(lines, i, b) {
      assert forall j :: 0 <= j < i ==> lines[..n][j] == lines[j];
    }
    hide BaseBefore;
    forall b: nat ensures EventAfter(lines[..n], i, b) <==> EventAfter(lines, i, b) {
    }
  }

  /** A log is accepted exactly if every line is in order; otherwise the first line that is not decides the error. */
  lemma {:induction false} FirstFaultStops(lines: seq<Line>, w: nat)
    ensures TakeLines(lines, w).Ok? <==> forall i: nat :: i < |lines| ==> InOrder(lines, i, w)
    ensures forall e :: TakeLines(lines, w) == Err(e) <==> exists i: nat :: i < |lines| && StopsAt(lines, i, w, e)
  {
    if lines != [] {
      var n := |lines| - 1;
      FirstFaultStops(lines[..n], w);
      forall i: nat | i < n
        ensures forall e :: Fault(lines[..n], i, w, e) <==> Fault(lines, i, w, e)
        ensures InOrder(lines[..n], i, w) <==> InOrder(lines, i, w)
      {
        FaultInPrefix(lines, n, i, w);
      }
      if TakeLines(lines[..n], w).Ok? {
        LastLineFault(lines, w);
      }
      hide Fault, TakeLine;
      forall e ensures TakeLines(lines, w) == Err(e) <==> exists i: nat :: i < |lines| && StopsAt(lines, i, w, e) {
        StopsInPrefix(lines, w, e);
      }
    }
  }

  lemma {:induction false} StopsInPrefix(lines: seq<Line>, w: nat, e: LogError)
    requires lines != []
    ensures var n := |lines| - 1;
            (exists i: nat :: i < |lines| && StopsAt(lines, i, w, e)) <==>
            (exists i: nat :: i < n && StopsAt(lines[..n], i, w, e)) || StopsAt(lines, n, w, e)
  {
    var n := |lines| - 1;
    forall i: nat | i < n
      ensures Fault(lines[..n], i, w, e) <==> Fault(lines, i, w, e)
      ensures InOrder(lines[..n], i, w) <==> InOrder(lines, i, w)
    {
      FaultInPrefix(lines, n, i, w);
    }
    hide Fault, InOrder;
    forall i: nat | i < n ensures StopsAt(lines[..n], i, w, e) <==> StopsAt(lines, i, w, e) {
    }
  }

  // ---------- the counted events, in terms of their lines ----------

  /** The lines of the events after time `b`. */
  function LinesAfter(lines: seq<Line>, b: nat): (ls: seq<Line>)
    ensures forall i :: 0 <= i < |ls| ==> ls[i].Event? && ls[i] in lines && ls[i].time > b
  {
    if lines == [] then [] else
    var n := |lines| - 1;
    LinesAfter(lines[..n], b) + if lines[n].Event? && lines[n].time > b then [lines[n]] else []
  }

  /** `r` records line `l`: its time from `b` on, its kind, its size in bits, and a departure's delay. */
  ghost predicate IsRecordOf(r: Record, l: Line, b: nat)
    requires l.Event?
  {
    && r.time == l.time - b && r.kind == l.kind && r.bits == 8 * l.bytes
    && if l.kind == Departure then l.delay == Some(r.delay) else r.delay == 0
  }

  lemma {:induction false} LineRecorded(p: Progress, l: Line, w: nat, b: nat)
    requires TakeLine(p, l, w).Ok? && (p.base.Some? ==> p.base.value == b)
    ensures var rs := TakeLine(p, l, w).value.records;
            if l.Event? && l.time > b
            then |rs| == |p.records| + 1 && p.records <= rs && IsRecordOf(rs[|p.records|], l, b)
            else rs == p.records
  {
  }

  /** An accepted log records exactly its events after the base time stamp, in order, each as its line says. */
  lemma {:induction false} RecordsAreEvents(lines: seq<Line>, w: nat, b: nat)
    requires TakeLines(lines, w).Ok?
    requires TakeLines(lines, w).value.base.Some? ==> TakeLines(lines, w).value.base.value == b
    ensures var rs, ls := TakeLines(lines, w).value.records, LinesAfter(lines, b);
            |rs| == |ls| && forall i :: 0 <= i < |rs| ==> IsRecordOf(rs[i], ls[i], b)
  {
    if lines != [] {
      var n := |lines| - 1;
      var p := TakeLines(lines[..n], w).value;
      BaseStays(p, lines[n], w);
      RecordsAreEvents(lines[..n], w, b);
      LineRecorded(p, lines[n], w, b);
      hide TakeLine;
    }
  }

  lemma {:induction false} BaseStays(p: Progress, l: Line, w: nat)
    requires TakeLine(p, l, w).Ok?
    ensures p.base.Some? ==> TakeLine(p, l, w).value.base == p.base
  {
  }

  /** The delays logged for departures. */
  function LoggedDelays(ls: seq<Line>): seq<int> {
    if ls == [] then [] else
    var n := |ls| - 1;
    match ls[n]
    case Event(_, Departure, _, Some(d)) => LoggedDelays(ls[..n]) + [d]
    case _ => LoggedDelays(ls[..n])
  }

  lemma {:induction false} DelaysOfRecords(rs: seq<Record>, ls: seq<Line>, b: nat)
    requires |rs| == |ls| && forall i :: 0 <= i < |rs| ==> ls[i].Event? && IsRecordOf(rs[i], ls[i], b)
    ensures Delays(rs) == LoggedDelays(ls)
  {
    if rs != [] {
      var n := |rs| - 1;
      DelaysOfRecords(rs[..n], ls[..n], b);
      assert IsRecordOf(rs[n], ls[n], b);
    }
  }

  /** The delays kept are those of the departure lines after the base time stamp, in their order. */
  lemma {:induction false} DelaysAreLogged(lines: seq<Line>, w: nat, b: nat)
    requires TakeLines(lines, w).Ok?
    requires TakeLines(lines, w).value.base.Some? ==> TakeLines(lines, w).value.base.value == b
    ensures Delays(TakeLines(lines, w).value.records) == LoggedDelays(LinesAfter(lines, b))
  {
    RecordsAreEvents(lines, w, b);
    DelaysOfRecords(TakeLines(lines, w).value.records, LinesAfter(lines, b), b);
  }

  /** A departure after the base time stamp `b` whose packet was created `t` after it. */
  ghost predicate DepartureOf(l: Line, b: nat, t: nat) {
    l.Event? && l.kind == Departure && l.time > b && l.delay.Some? && l.time - b - l.delay.value == t
  }

  lemma {:induction false} LinesAfterAll(lines: seq<Line>, b: nat)
    ensures forall l :: l in lines && l.Event? && l.time > b ==> l in LinesAfter(lines, b)
  {
    if lines != [] {
      var n := |lines| - 1;
      LinesAfterAll(lines[..n], b);
      assert forall l :: l in lines ==> l in lines[..n] || l == lines[n];
    }
  }

  /** `least` is the least delay logged for a packet created `t` after `b`; None if there was no such packet. */
  ghost predicate LeastLogged(lines: seq<Line>, b: nat, t: nat, least: Option<nat>) {
    match least
    case None => forall l :: l in lines ==> !DepartureOf(l, b, t)
    case Some(d) =>
      && (exists l :: l in lines && DepartureOf(l, b, t) && l.delay == Some(d))
      && forall l :: l in lines && DepartureOf(l, b, t) ==> d <= l.delay.value
  }

  lemma {:induction false} RecordOfDeparture(rs: seq<Record>, ls: seq<Line>, b: nat, t: nat, l: Line)
    requires |rs| == |ls| && forall i :: 0 <= i < |rs| ==> ls[i].Event? && IsRecordOf(rs[i], ls[i], b)
    requires l in ls && DepartureOf(l, b, t)
    ensures LeastDelay(rs, t).Some? && LeastDelay(rs, t).value <= l.delay.value
  {
    var i :| 0 <= i < |ls| && ls[i] == l;
    LeastDelayIsLeast(rs, t);
    assert IsRecordOf(rs[i], ls[i], b) && rs[i] in rs && CreatedAt(rs[i], t);
  }

  lemma {:induction false} DepartureOfRecord(rs: seq<Record>, ls: seq<Line>, b: nat, t: nat) returns (l: Line)
    requires |rs| == |ls|
    requires forall i :: 0 <= i < |rs| ==> ls[i].Event? && ls[i].time > b && IsRecordOf(rs[i], ls[i], b)
    requires LeastDelay(rs, t).Some?
    ensures l in ls && DepartureOf(l, b, t) && l.delay == Some(LeastDelay(rs, t).value)
  {
    LeastDelayIsLeast(rs, t);
    var r :| r in rs && CreatedAt(r, t) && LeastDelay(rs, t) == Some(r.delay);
    var i :| 0 <= i < |rs| && rs[i] == r;
    assert IsRecordOf(rs[i], ls[i], b);
    l := ls[i];
  }

  lemma {:induction false} LeastOfRecords(rs: seq<Record>, ls: seq<Line>, b: nat, t: nat)
    requires |rs| == |ls|
    requires forall i :: 0 <= i < |rs| ==> ls[i].Event? && ls[i].time > b && IsRecordOf(rs[i], ls[i], b)
    ensures LeastLogged(ls, b, t, LeastDelay(rs, t))
  {
    hide LeastDelay, IsRecordOf;
    forall l | l in ls && DepartureOf(l, b, t)
      ensures LeastDelay(rs, t).Some? && l.delay.Some? && LeastDelay(rs, t).value <= l.delay.value
    {
      RecordOfDeparture(rs, ls, b, t, l);
    }
    if LeastDelay(rs, t).Some? {
      var l := DepartureOfRecord(rs, ls, b, t);
    }
  }

  /** The sample kept for a creation time is the least delay logged for a packet created then; there is one if there was such a packet. */
  lemma {:induction false} SampleIsLogged(lines: seq<Line>, w: nat, b: nat, t: nat)
    requires TakeLines(lines, w).Ok?
    requires TakeLines(lines, w).value.base.Some? ==> TakeLines(lines, w).value.base.value == b
    ensures LeastLogged(lines, b, t, LeastDelay(TakeLines(lines, w).value.records, t))
  {
    var ls := LinesAfter(lines, b);
    hide TakeLines, LinesAfter, LeastDelay, IsRecordOf;
    RecordsAreEvents(lines, w, b);
    LinesAfterAll(lines, b);
    LeastOfRecords(TakeLines(lines, w).value.records, ls, b, t);
    assert forall l :: l in ls ==> l in lines;
    assert forall l :: l in lines && DepartureOf(l, b, t) ==> l in ls;
  }

  /** It is the time of an event, and of none before it. */
  lemma {:induction false} LatestIsLatest(rs: seq<Record>)
    requires rs != []
    ensures forall r :: r in rs ==> r.time <= Latest(rs)
    ensures exists r :: r in rs && r.time == Latest(rs)
  {
    var n := |rs| - 1;
    assert forall r :: r in rs ==> r in rs[..n] || r == rs[n];
    assert rs[n] in rs;
    if n > 0 {
      LatestIsLatest(rs[..n]);
      var r :| r in rs[..n] && r.time == Latest(rs[..n]);
      assert r in rs;
    }
  }
}
