/** The Python reader of the same logs, and when its binnings are those of the Perl analyser. */
module PlotReader {
  import opened Words
  import opened LinkLog

  /** It accepts any number of base time stamps, and takes in events of every time and kind. */
  function PlotLine(p: Progress, l: Line, msPerBin: nat): Result<Progress> {
    match l
    case Base(t) => Ok(p.(base := Some(t)))
    case Remark => Ok(p)
    case Malformed => Err(BadLine)
    case Event(time, kind, bytes, _) =>
      if p.base.None? then Err(MissingBase)
      else if msPerBin == 0 then Err(ZeroBin)
      else Ok(p.(records := p.records + [Record(time - p.base.value, kind, 8 * bytes, 0)]))
  }

  function PlotLines(lines: seq<Line>, msPerBin: nat): Result<Progress> {
    if lines == [] then Ok(Progress(None, [])) else
    match PlotLines(lines[..|lines| - 1], msPerBin)
    case Err(e) => Err(e)
    case Ok(p) => PlotLine(p, lines[|lines| - 1], msPerBin)
  }

  datatype Plot = Plot(
    arrivals: map<int, nat>,
    departures: map<int, nat>,
    capacity: map<int, nat>,
    duration: Option<int>,
    drops: nat)

  function Count(rs: seq<Record>, kind: Kind): nat {
    if rs == [] then 0 else Count(rs[..|rs| - 1], kind) + if rs[|rs| - 1].kind == kind then 1 else 0
  }

  ghost predicate Plots(p: Plot, rs: seq<Record>, w: nat) {
    && (if w == 0 then rs == [] && p.arrivals == p.departures == p.capacity == map[] else
          Bins(p.arrivals, rs, Arrival, w) && Bins(p.departures, rs, Departure, w) && Bins(p.capacity, rs, Capacity, w))
    && p.duration == (if rs == [] then None else Some(rs[|rs| - 1].time))
    && p.drops == Count(rs, Dropped)
  }

  /** One line's worth of updates. */
  method PlotEvent(p: Plot, ghost rs: seq<Record>, r: Record, w: nat) returns (p': Plot)
    requires w > 0 && Plots(p, rs, w)
    ensures Plots(p', rs + [r], w)
  {
    var bin := r.time / w;
    assert bin == BinOf(r, w);
    assert (rs + [r])[..|rs|] == rs;
    BinsAdd(p.arrivals, rs, Arrival, w, r);
    BinsAdd(p.departures, rs, Departure, w, r);
    BinsAdd(p.capacity, rs, Capacity, w, r);
    hide Bins, BinOf;
    p' := p.(duration := Some(r.time));
    match r.kind {
      case Departure =>
        if bin !in p'.departures {
          p' := p'.(departures := p'.departures[bin := 0]);
        }
        p' := p'.(departures := p'.departures[bin := p'.departures[bin] + r.bits]);
        assert p'.departures == p.departures[bin := GetOr0(p.departures, bin) + r.bits];
      case Arrival =>
        if bin !in p'.arrivals {
          p' := p'.(arrivals := p'.arrivals[bin := 0]);
        }
        p' := p'.(arrivals := p'.arrivals[bin := p'.arrivals[bin] + r.bits]);
        assert p'.arrivals == p.arrivals[bin := GetOr0(p.arrivals, bin) + r.bits];
      case Capacity =>
        if bin !in p'.capacity {
          p' := p'.(capacity := p'.capacity[bin := 0]);
        }
        p' := p'.(capacity := p'.capacity[bin := p'.capacity[bin] + r.bits]);
        assert p'.capacity == p.capacity[bin := GetOr0(p.capacity, bin) + r.bits];
      case Dropped =>
        p' := p'.(drops := p'.drops + 1);
      case OtherKind =>
    }
  }

  lemma {:induction false} PlotLinesStep(lines: seq<Line>, i: nat, msPerBin: nat)
    requires i < |lines|
    ensures PlotLines(lines[..i + 1], msPerBin) ==
            match PlotLines(lines[..i], msPerBin)
            case Err(e) => Err(e)
            case Ok(p) => PlotLine(p, lines[i], msPerBin)
  {
    assert lines[..i + 1][..i] == lines[..i];
  }

  lemma {:induction false} PlotErrorSticks(lines: seq<Line>, i: nat, msPerBin: nat)
    requires i <= |lines| && PlotLines(lines[..i], msPerBin).Err?
    ensures PlotLines(lines, msPerBin) == PlotLines(lines[..i], msPerBin)
    decreases |lines| - i
  {
    if i < |lines| {
      PlotLinesStep(lines, i, msPerBin);
      PlotErrorSticks(lines, i + 1, msPerBin);
    } else {
      assert lines[..i] == lines;
    }
  }

  /** read_down_file */
  method ReadDownFile(lines: seq<Line>, msPerBin: nat) returns (r: Result<Plot>)
    ensures r.Err? <==> PlotLines(lines, msPerBin).Err?
    ensures r.Err? ==> r.error == PlotLines(lines, msPerBin).error
    ensures r.Ok? ==> Plots(r.value, PlotLines(lines, msPerBin).value.records, msPerBin)
  {
    var base: Option<nat> := None;
    ghost var rs: seq<Record> := [];
    var p := Plot(map[], map[], map[], None, 0);
    var i := 0;
    assert PlotLines(lines[..0], msPerBin) == Ok(Progress(base, rs));
    assert Plots(p, rs, msPerBin);
    hide Plots, PlotLines;
    while i < |lines|
      invariant i <= |lines|
      invariant PlotLines(lines[..i], msPerBin) == Ok(Progress(base, rs))
      invariant Plots(p, rs, msPerBin)
    {
      PlotLinesStep(lines, i, msPerBin);
      if PlotLines(lines[..i + 1], msPerBin).Err? {
        PlotErrorSticks(lines, i + 1, msPerBin);
      }
      match lines[i] {
        case Base(t) =>
          base := Some(t);
        case Remark =>
        case Malformed =>
          return Err(BadLine);
        case Event(time, kind, bytes, _) =>
          if base.None? {
            return Err(MissingBase);
          }
          if msPerBin == 0 {
            return Err(ZeroBin);
          }
          p := PlotEvent(p, rs, Record(time - base.value, kind, 8 * bytes, 0), msPerBin);
          rs := rs + [Record(time - base.value, kind, 8 * bytes, 0)];
      }
      i := i + 1;
    }
    assert lines[..i] == lines;
    return Ok(p);
  }

  // ---------- what the Python reader accepts and records ----------

  /** Some line before line `i` is a base time stamp. */
  ghost predicate AnyBase(lines: seq<Line>, i: nat)
    requires i <= |lines|
  {
    exists j :: 0 <= j < i && lines[j].Base?
  }

  /** Error `e` is what the Python reader finds wrong with line `i`. */
  ghost predicate PlotFault(lines: seq<Line>, i: nat, w: nat, e: LogError)
    requires i < |lines|
  {
    match e
    case BadLine => lines[i].Malformed?
    case MissingBase => lines[i].Event? && !AnyBase(lines, i)
    case ZeroBin => lines[i].Event? && AnyBase(lines, i) && w == 0
    case _ => false
  }

  ghost predicate Readable(lines: seq<Line>, i: nat, w: nat)
    requires i < |lines|
  {
    forall e :: !PlotFault(lines, i, w, e)
  }

  lemma {:induction false} AnyBaseInPrefix(lines: seq<Line>, n: nat, i: nat)
    requires i <= n <= |lines|
    ensures AnyBase(lines[..n], i) <==> AnyBase(lines, i)
  {
    assert forall j :: 0 <= j < i ==> lines[..n][j] == lines[j];
  }

  lemma {:induction false} PlotFaultInPrefix(lines: seq<Line>, n: nat, i: nat, w: nat)
    requires i < n <= |lines|
    ensures forall e :: PlotFault(lines[..n], i, w, e) <==> PlotFault(lines, i, w, e)
    ensures Readable(lines[..n], i, w) <==> Readable(lines, i, w)
  {
    AnyBaseInPrefix(lines, n, i);
    hide AnyBase;
    assert forall e :: PlotFault(lines[..n], i, w, e) <==> PlotFault(lines, i, w, e);
  }

  lemma {:induction false} PlotBaseKnown(lines: seq<Line>, w: nat)
    requires PlotLines(lines, w).Ok?
    ensures PlotLines(lines, w).value.base.Some? <==> AnyBase(lines, |lines|)
  {
    if lines != [] {
      var n := |lines| - 1;
      PlotBaseKnown(lines[..n], w);
      AnyBaseInPrefix(lines, n, n);
      assert AnyBase(lines, |lines|) <==> AnyBase(lines, n) || lines[n].Base?;
    }
  }

  lemma {:induction false} LastPlotFault(lines: seq<Line>, w: nat)
    requires lines != [] && PlotLines(lines[..|lines| - 1], w).Ok?
    ensures PlotLines(lines, w).Ok? <==> Readable(lines, |lines| - 1, w)
    ensures forall e :: PlotLines(lines, w) == Err(e) <==> PlotFault(lines, |lines| - 1, w, e)
  {
    var n := |lines| - 1;
    PlotBaseKnown(lines[..n], w);
    AnyBaseInPrefix(lines, n, n);
    hide AnyBase;
    forall e ensures PlotLines(lines, w) == Err(e) <==> PlotFault(lines, n, w, e) {
    }
    if PlotLines(lines, w).Err? {
      assert PlotFault(lines, n, w, PlotLines(lines, w).error);
    }
  }

  /** Line `i` is the first that cannot be read, and `e` is why. */
  ghost predicate PlotStopsAt(lines: seq<Line>, i: nat, w: nat, e: LogError)
    requires i < |lines|
  {
    PlotFault(lines, i, w, e) && forall j: nat :: j < i ==> Readable(lines, j, w)
  }

  lemma {:induction false} PlotStopsInPrefix(lines: seq<Line>, w: nat, e: LogError)
    requires lines != []
    ensures var n := |lines| - 1;
            && (forall i: nat :: i < n ==> (Readable(lines[..n], i, w) <==> Readable(lines, i, w)))
            && ((exists i: nat :: i < |lines| && PlotStopsAt(lines, i, w, e)) <==>
                (exists i: nat :: i < n && PlotStopsAt(lines[..n], i, w, e)) || PlotStopsAt(lines, n, w, e))
  {
    var n := |lines| - 1;
    forall i: nat | i < n
      ensures PlotFault(lines[..n], i, w, e) <==> PlotFault(lines, i, w, e)
      ensures Readable(lines[..n], i, w) <==> Readable(lines, i, w)
    {
      PlotFaultInPrefix(lines, n, i, w);
    }
    hide PlotFault, Readable;
    forall i: nat | i < n ensures PlotStopsAt(lines[..n], i, w, e) <==> PlotStopsAt(lines, i, w, e) {
    }
  }

  /** The Python reader fails with the first line that it cannot read, and only then. */
  lemma {:induction false} PlotFaultStops(lines: seq<Line>, w: nat)
    ensures PlotLines(lines, w).Ok? <==> forall i: nat :: i < |lines| ==> Readable(lines, i, w)
    ensures forall e :: PlotLines(lines, w) == Err(e) <==> exists i: nat :: i < |lines| && PlotStopsAt(lines, i, w, e)
  {
    if lines != [] {
      var n := |lines| - 1;
      PlotFaultStops(lines[..n], w);
      PlotStopsInPrefix(lines, w, BadLine);
      if PlotLines(lines[..n], w).Ok? {
        LastPlotFault(lines, w);
      }
      hide PlotFault, Readable, PlotLine;
      forall e ensures PlotLines(lines, w) == Err(e) <==> exists i: nat :: i < |lines| && PlotStopsAt(lines, i, w, e) {
        PlotStopsInPrefix(lines, w, e);
      }
    }
  }

  function Events(lines: seq<Line>): nat {
    if lines == [] then 0 else Events(lines[..|lines| - 1]) + if lines[|lines| - 1].Event? then 1 else 0
  }

  /** `b` is the newest base time stamp before line `i`. */
  ghost predicate NewestBase(lines: seq<Line>, i: nat, b: nat)
    requires i <= |lines|
  {
    exists j :: 0 <= j < i && lines[j] == Base(b) && forall k :: j < k < i ==> !lines[k].Base?
  }

  lemma {:induction false} NewestBaseSnoc(lines: seq<Line>, b: nat)
    requires lines != []
    ensures NewestBase(lines, |lines|, b) <==>
            if lines[|lines| - 1].Base? then lines[|lines| - 1] == Base(b)
            else NewestBase(lines[..|lines| - 1], |lines| - 1, b)
  {
    var n := |lines| - 1;
    if j :| 0 <= j < n && lines[..n][j] == Base(b) && forall k :: j < k < n ==> !lines[..n][k].Base? {
      assert forall k :: j < k < n ==> lines[k] == lines[..n][k];
      assert lines[j] == Base(b);
    }
    if j :| 0 <= j <= n && lines[j] == Base(b) && forall k :: j < k <= n ==> !lines[k].Base? {
      assert j < n ==> lines[..n][j] == Base(b);
      assert forall k :: j < k < n ==> lines[..n][k] == lines[k];
    }
  }

  lemma {:induction false} PlotBaseIsNewest(lines: seq<Line>, w: nat, b: nat)
    requires PlotLines(lines, w).Ok?
    ensures PlotLines(lines, w).value.base == Some(b) <==> NewestBase(lines, |lines|, b)
  {
    if lines != [] {
      PlotBaseIsNewest(lines[..|lines| - 1], w, b);
      NewestBaseSnoc(lines, b);
      hide NewestBase;
    }
  }

  lemma {:induction false} EventsGrow(lines: seq<Line>, i: nat)
    requires i < |lines| && lines[i].Event?
    ensures Events(lines[..i]) < Events(lines)
  {
    var n := |lines| - 1;
    if i < n {
      EventsGrow(lines[..n], i);
      assert lines[..n][..i] == lines[..i];
    }
  }

  /** Every event is recorded in its turn, at its time from the newest base time stamp before it, with its kind and bits. */
  lemma {:induction false} PlotRecordsEvents(lines: seq<Line>, w: nat, i: nat) returns (b: nat)
    requires PlotLines(lines, w).Ok? && i < |lines| && lines[i].Event?
    ensures |PlotLines(lines, w).value.records| == Events(lines) > Events(lines[..i])
    ensures NewestBase(lines[..i], i, b)
    ensures PlotLines(lines, w).value.records[Events(lines[..i])] == Record(lines[i].time - b, lines[i].kind, 8 * lines[i].bytes, 0)
  {
    var n := |lines| - 1;
    EventsGrow(lines, i);
    RecordedEvents(lines, w);
    if i < n {
      assert lines[..n][..i] == lines[..i];
      b := PlotRecordsEvents(lines[..n], w, i);
      PlotKeeps(lines, w);
    } else {
      RecordedEvents(lines[..n], w);
      b := PlotLines(lines[..n], w).value.base.value;
      PlotBaseIsNewest(lines[..n], w, b);
    }
  }

  lemma {:induction false} RecordedEvents(lines: seq<Line>, w: nat)
    requires PlotLines(lines, w).Ok?
    ensures |PlotLines(lines, w).value.records| == Events(lines)
  {
    if lines != [] {
      RecordedEvents(lines[..|lines| - 1], w);
    }
  }

  lemma {:induction false} PlotKeeps(lines: seq<Line>, w: nat)
    requires lines != [] && PlotLines(lines, w).Ok?
    ensures PlotLines(lines[..|lines| - 1], w).Ok?
    ensures PlotLines(lines[..|lines| - 1], w).value.records <= PlotLines(lines, w).value.records
  {
  }

  // ---------- agreement with the Perl analyser ----------

  /** A line that both readers put into bin `bin` of one kind. */
  predicate CountedIn(l: Line, kind: Kind, base: nat, w: nat, bin: int)
    requires w > 0
  {
    l.Event? && l.kind == kind && l.time > base && (l.time - base) / w == bin
  }

  /** A line that only the Python reader puts there: the analyser skips what is no later than the base time stamp. */
  predicate SkippedIn(l: Line, kind: Kind, base: nat, w: nat, bin: int)
    requires w > 0
  {
    l.Event? && l.kind == kind && l.time <= base && (l.time - base) / w == bin
  }

  lemma {:induction false} RecordInBin(rs: seq<Record>, r: Record, kind: Kind, w: nat, bin: int)
    requires w > 0
    ensures var there := r.kind == kind && r.time / w == bin;
            && (Seen(rs + [r], kind, w, bin) <==> Seen(rs, kind, w, bin) || there)
            && InBin(rs + [r], kind, w, bin) == InBin(rs, kind, w, bin) + if there then r.bits else 0
  {
    assert (rs + [r])[..|rs|] == rs;
  }

  /** What one accepted line adds to a bin of the analyser. */
  lemma {:induction false} LineTaken(p: Progress, l: Line, w: nat, base: nat, kind: Kind, bin: int)
    requires w > 0 && TakeLine(p, l, w).Ok? && (p.base.Some? ==> p.base.value == base)
    ensures var q := TakeLine(p, l, w).value;
            var counted := CountedIn(l, kind, base, w, bin);
            && (Seen(q.records, kind, w, bin) <==> Seen(p.records, kind, w, bin) || counted)
            && InBin(q.records, kind, w, bin) == InBin(p.records, kind, w, bin) + if counted then 8 * l.bytes else 0
  {
    if l.Event? && l.time > base {
      var delay := if l.kind == Departure then l.delay.value else 0;
      RecordInBin(p.records, Record(l.time - base, l.kind, 8 * l.bytes, delay), kind, w, bin);
    }
    hide Seen, InBin;
  }

  /** What the same line adds to a bin of the Python reader. */
  lemma {:induction false} LinePlotted(p: Progress, rs: seq<Record>, l: Line, w: nat, base: nat, kind: Kind, bin: int)
    requires w > 0 && TakeLine(p, l, w).Ok? && (p.base.Some? ==> p.base.value == base)
    ensures PlotLine(Progress(p.base, rs), l, w).Ok?
    ensures var q := PlotLine(Progress(p.base, rs), l, w).value;
            var there := CountedIn(l, kind, base, w, bin) || SkippedIn(l, kind, base, w, bin);
            && q.base == TakeLine(p, l, w).value.base
            && (Seen(q.records, kind, w, bin) <==> Seen(rs, kind, w, bin) || there)
            && InBin(q.records, kind, w, bin) == InBin(rs, kind, w, bin) + if there then 8 * l.bytes else 0
  {
    if l.Event? {
      RecordInBin(rs, Record(l.time - base, l.kind, 8 * l.bytes, 0), kind, w, bin);
    }
    hide Seen, InBin;
  }

  /** What an accepted log puts into a bin of either reader, line by line. */
  lemma {:induction false} LogInBins(lines: seq<Line>, w: nat, base: nat, kind: Kind, bin: int)
    requires w > 0 && TakeLines(lines, w).Ok?
    requires TakeLines(lines, w).value.base.Some? ==> TakeLines(lines, w).value.base.value == base
    ensures PlotLines(lines, w).Ok?
    ensures var p, p' := TakeLines(lines, w).value, PlotLines(lines, w).value;
            && p'.base == p.base
            && (Seen(p.records, kind, w, bin) <==> exists l :: l in lines && CountedIn(l, kind, base, w, bin))
            && (Seen(p'.records, kind, w, bin) <==>
                Seen(p.records, kind, w, bin) || exists l :: l in lines && SkippedIn(l, kind, base, w, bin))
            && InBin(p.records, kind, w, bin) <= InBin(p'.records, kind, w, bin)
            && (InBin(p.records, kind, w, bin) == InBin(p'.records, kind, w, bin) <==>
                forall l :: l in lines && SkippedIn(l, kind, base, w, bin) ==> l.bytes == 0)
  {
    if lines != [] {
      var n := |lines| - 1;
      var head, last := lines[..n], lines[n];
      var p := TakeLines(head, w).value;
      BaseStays(p, last, w);
      LogInBins(head, w, base, kind, bin);
      LineTaken(p, last, w, base, kind, bin);
      LinePlotted(p, PlotLines(head, w).value.records, last, w, base, kind, bin);
      hide TakeLine, PlotLine, CountedIn, SkippedIn, Seen, InBin;
      assert forall l :: l in lines <==> l in head || l == last;
    }
  }

  /** The base time stamp of an accepted log; without one the log has no events. */
  function BaseTime(lines: seq<Line>, w: nat): nat
    requires TakeLines(lines, w).Ok?
  {
    match TakeLines(lines, w).value.base
    case None => 0
    case Some(t) => t
  }

  /** An event that the analyser skips. */
  predicate Skipped(l: Line, kind: Kind, base: nat) {
    l.Event? && l.kind == kind && l.time <= base
  }

  /** An event that it counts in bin 0. */
  predicate InFirstBin(l: Line, kind: Kind, base: nat, w: nat) {
    l.Event? && l.kind == kind && base < l.time < base + w
  }

  /** Whatever is skipped comes at the base time stamp itself, brings no bytes, and has company in bin 0. */
  ghost predicate Harmless(lines: seq<Line>, kind: Kind, base: nat, w: nat) {
    forall l :: l in lines && Skipped(l, kind, base) ==>
      l.time == base && l.bytes == 0 && exists c :: c in lines && InFirstBin(c, kind, base, w)
  }

  /** Bits that the events counted in a bin bring. */
  function CountedBits(lines: seq<Line>, kind: Kind, base: nat, w: nat, bin: int): nat
    requires w > 0
  {
    if lines == [] then 0 else
    var n := |lines| - 1;
    CountedBits(lines[..n], kind, base, w, bin) + if CountedIn(lines[n], kind, base, w, bin) then 8 * lines[n].bytes else 0
  }

  /** The analyser's bins hold exactly the bits of their events. */
  lemma {:induction false} BinHoldsItsBits(lines: seq<Line>, w: nat, base: nat, kind: Kind, bin: int)
    requires w > 0 && TakeLines(lines, w).Ok?
    requires TakeLines(lines, w).value.base.Some? ==> TakeLines(lines, w).value.base.value == base
    ensures InBin(TakeLines(lines, w).value.records, kind, w, bin) == CountedBits(lines, kind, base, w, bin)
  {
    if lines != [] {
      var n := |lines| - 1;
      var p := TakeLines(lines[..n], w).value;
      BaseStays(p, lines[n], w);
      BinHoldsItsBits(lines[..n], w, base, kind, bin);
      LineTaken(p, lines[n], w, base, kind, bin);
      hide TakeLine, CountedIn, InBin;
    }
  }

  lemma {:induction false} SkippedBin(l: Line, c: Line, kind: Kind, base: nat, w: nat)
    requires w > 0 && Skipped(l, kind, base) && CountedIn(c, kind, base, w, (l.time - base) / w)
    ensures l.time == base && InFirstBin(c, kind, base, w)
  {
  }

  lemma {:induction false} FirstBin(c: Line, kind: Kind, base: nat, w: nat)
    requires w > 0 && InFirstBin(c, kind, base, w)
    ensures CountedIn(c, kind, base, w, 0)
  {
  }

  /** Equal binnings put no skipped event into a bin of its own, and none with bits into any. */
  lemma {:induction false} EqualIsHarmless(lines: seq<Line>, w: nat, kind: Kind, m: map<int, nat>, m': map<int, nat>, l: Line)
    requires w > 0 && TakeLines(lines, w).Ok? && PlotLines(lines, w).Ok?
    requires Bins(m, TakeLines(lines, w).value.records, kind, w)
    requires Bins(m', PlotLines(lines, w).value.records, kind, w)
    requires m == m' && l in lines && Skipped(l, kind, BaseTime(lines, w))
    ensures l.time == BaseTime(lines, w) && l.bytes == 0
    ensures exists c :: c in lines && InFirstBin(c, kind, BaseTime(lines, w), w)
  {
    var base := BaseTime(lines, w);
    var bin := (l.time - base) / w;
    LogInBins(lines, w, base, kind, bin);
    assert SkippedIn(l, kind, base, w, bin);
    hide TakeLines, PlotLines, Seen, InBin, InFirstBin;
    assert bin in m';
    var c :| c in lines && CountedIn(c, kind, base, w, bin);
    SkippedBin(l, c, kind, base, w);
  }

  lemma {:induction false} BinAt(m: map<int, nat>, rs: seq<Record>, kind: Kind, w: nat, bin: int)
    requires w > 0 && Bins(m, rs, kind, w)
    ensures bin in m <==> Seen(rs, kind, w, bin)
    ensures bin in m ==> m[bin] == InBin(rs, kind, w, bin)
  {
  }

  lemma {:induction false} HarmlessLine(lines: seq<Line>, l: Line, kind: Kind, base: nat, w: nat, bin: int)
    requires w > 0 && Harmless(lines, kind, base, w) && l in lines && SkippedIn(l, kind, base, w, bin)
    ensures l.bytes == 0 && exists c :: c in lines && CountedIn(c, kind, base, w, bin)
  {
    assert Skipped(l, kind, base);
    hide CountedIn, InFirstBin;
    var c :| c in lines && InFirstBin(c, kind, base, w);
    FirstBin(c, kind, base, w);
    BaseBin(l, kind, base, w, bin);
  }

  lemma {:induction false} BaseBin(l: Line, kind: Kind, base: nat, w: nat, bin: int)
    requires w > 0 && SkippedIn(l, kind, base, w, bin) && l.time == base
    ensures bin == 0
  {
  }

  lemma {:induction false} HarmlessBin(lines: seq<Line>, w: nat, kind: Kind, m: map<int, nat>, m': map<int, nat>, bin: int)
    requires w > 0 && TakeLines(lines, w).Ok? && PlotLines(lines, w).Ok?
    requires Bins(m, TakeLines(lines, w).value.records, kind, w)
    requires Bins(m', PlotLines(lines, w).value.records, kind, w)
    requires Harmless(lines, kind, BaseTime(lines, w), w)
    ensures (bin in m <==> bin in m') && (bin in m ==> m[bin] == m'[bin])
  {
    var base := BaseTime(lines, w);
    LogInBins(lines, w, base, kind, bin);
    hide TakeLines, PlotLines, Bins, Seen, InBin, Harmless, SkippedIn, CountedIn;
    BinAt(m, TakeLines(lines, w).value.records, kind, w, bin);
    BinAt(m', PlotLines(lines, w).value.records, kind, w, bin);
    forall l | l in lines && SkippedIn(l, kind, base, w, bin)
      ensures l.Event? && l.bytes == 0
      ensures exists c :: c in lines && CountedIn(c, kind, base, w, bin)
    {
      HarmlessLine(lines, l, kind, base, w, bin);
    }
  }

  /** On a log that the analyser accepts, both binnings of a kind are equal exactly if what it skips is harmless. */
  lemma {:induction false} BinningsAgree(lines: seq<Line>, w: nat, kind: Kind, m: map<int, nat>, m': map<int, nat>)
    requires w > 0 && TakeLines(lines, w).Ok? && PlotLines(lines, w).Ok?
    requires Bins(m, TakeLines(lines, w).value.records, kind, w)
    requires Bins(m', PlotLines(lines, w).value.records, kind, w)
    ensures m == m' <==> Harmless(lines, kind, BaseTime(lines, w), w)
  {
    hide TakeLines, PlotLines, Bins, InFirstBin, BaseTime;
    if m == m' {
      forall l | l in lines && Skipped(l, kind, BaseTime(lines, w))
        ensures l.time == BaseTime(lines, w) && l.bytes == 0
        ensures exists c :: c in lines && InFirstBin(c, kind, BaseTime(lines, w), w)
      {
        EqualIsHarmless(lines, w, kind, m, m', l);
      }
    }
    if Harmless(lines, kind, BaseTime(lines, w), w) {
      forall bin: int ensures (bin in m <==> bin in m') && (bin in m ==> m[bin] == m'[bin]) {
        HarmlessBin(lines, w, kind, m, m', bin);
      }
    }
  }

  /** The Python reader accepts what the analyser accepts, and each of its binnings is the same exactly under that condition. */
  lemma {:induction false} ReadersAgree(lines: seq<Line>, msPerBin: nat, s: Stats, p: Plot)
    requires TakeLines(lines, msPerBin).Ok? && msPerBin > 0
    requires Describes(s, TakeLines(lines, msPerBin).value.records, msPerBin)
    requires PlotLines(lines, msPerBin).Ok? ==> Plots(p, PlotLines(lines, msPerBin).value.records, msPerBin)
    ensures PlotLines(lines, msPerBin).Ok?
    ensures s.arrivals == p.arrivals <==> Harmless(lines, Arrival, BaseTime(lines, msPerBin), msPerBin)
    ensures s.departures == p.departures <==> Harmless(lines, Departure, BaseTime(lines, msPerBin), msPerBin)
    ensures s.capacity == p.capacity <==> Harmless(lines, Capacity, BaseTime(lines, msPerBin), msPerBin)
  {
    LogInBins(lines, msPerBin, BaseTime(lines, msPerBin), Arrival, 0);
    hide TakeLines, PlotLines, Bins, Harmless, BaseTime;
    BinningsAgree(lines, msPerBin, Arrival, s.arrivals, p.arrivals);
    BinningsAgree(lines, msPerBin, Departure, s.departures, p.departures);
    BinningsAgree(lines, msPerBin, Capacity, s.capacity, p.capacity);
  }

  /** An event at the base time stamp itself is plotted in bin 0 but not counted by the analyser. */
  lemma {:induction false} ReadersDisagreeAtBase()
    ensures var lines := [Base(5), Event(5, Arrival, 1, None)];
            && TakeLines(lines, 1) == Ok(Progress(Some(5), []))
            && PlotLines(lines, 1) == Ok(Progress(Some(5), [Record(0, Arrival, 8, 0)]))
            && Seen([Record(0, Arrival, 8, 0)], Arrival, 1, 0)
  {
    var lines := [Base(5), Event(5, Arrival, 1, None)];
    assert lines[..1] == [Base(5)] && lines[..1][..0] == [];
    assert TakeLines(lines[..1], 1) == Ok(Progress(Some(5), []));
    assert PlotLines(lines[..1], 1) == Ok(Progress(Some(5), []));
    assert lines[1] == Event(5, Arrival, 1, None);
    assert PlotLines(lines, 1) == PlotLine(Progress(Some(5), []), lines[1], 1);
    var rs := [Record(0, Arrival, 8, 0)];
    assert [] + rs == rs && rs[|rs| - 1] == Record(0, Arrival, 8, 0);
    assert rs[|rs| - 1].kind == Arrival && BinOf(rs[|rs| - 1], 1) == 0;
    assert Seen(rs, Arrival, 1, 0);
  }
}
