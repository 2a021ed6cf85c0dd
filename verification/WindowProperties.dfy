/**
 What the recorded windows guarantee, over every run of callbacks:
 their extent in time, the bytes they account for, their rates and their RTT statistics.
 */
module WindowProperties {
  import opened Words
  import opened Telemetry
  import opened Segmentation

  lemma {:induction false} WindowOf(segs: seq<Segment>, i: nat)
    requires i < |segs| && Chained(segs)
    ensures Windows(segs)[i] == if i + 1 < |segs| then Close(segs[i], segs[i + 1].first) else Summary(segs[i])
  {
  }

  /** Each window of the engine, in terms of its segment. */
  lemma {:induction false} WindowAt(os: seq<Obs>, i: nat)
    requires i < |Segments(os)|
    ensures Greedy(Segments(os)) && |Run(os).log| == |Segments(os)|
    ensures var s := Segments(os)[i];
            Run(os).log[i] == if i + 1 < |Segments(os)| then Close(s, Segments(os)[i + 1].first) else Summary(s)
  {
    LogIsSummaries(os);
    WindowOf(Segments(os), i);
  }

  // ---------- order of segments ----------

  ghost predicate Nondecreasing(os: seq<Obs>, key: Obs -> u64) {
    forall i, j :: 0 <= i < j < |os| ==> key(os[i]) <= key(os[j])
  }

  /** No event of `s` lies outside the range from its first to its last. */
  ghost predicate Spans(s: Segment, key: Obs -> u64) {
    && key(s.first) <= key(s.Last())
    && (forall o :: o in s.rest ==> key(s.first) <= key(o) <= key(s.Last()))
  }

  /** Within a segment and from one segment to the next, `key` does not go down. */
  ghost predicate Ascending(segs: seq<Segment>, key: Obs -> u64) {
    && (forall i :: 0 <= i < |segs| ==> Spans(segs[i], key))
    && (forall i, j :: 0 <= i && j == i + 1 < |segs| ==> key(segs[i].Last()) <= key(segs[j].first))
  }

  lemma {:induction false} NewestSegmentEndsRun(os: seq<Obs>)
    requires os != []
    ensures var segs := Segments(os); segs[|segs| - 1].Last() == os[|os| - 1]
  {
  }

  lemma {:induction false} OldestSegmentStartsRun(os: seq<Obs>)
    requires os != []
    ensures Segments(os)[0].first == os[0]
  {
    if |os| > 1 {
      OldestSegmentStartsRun(os[..|os| - 1]);
    }
  }

  lemma {:induction false} PlaceKeepsAscending(segs: seq<Segment>, o: Obs, key: Obs -> u64)
    requires Ascending(segs, key)
    requires segs != [] ==> key(segs[|segs| - 1].Last()) <= key(o)
    ensures Ascending(Place(segs, o), key)
  {
    if segs != [] {
      var last := segs[|segs| - 1];
      assert Spans(last, key);
      assert Spans(last.Snoc(o), key);
    }
  }

  lemma {:induction false} SegmentsAscend(os: seq<Obs>, key: Obs -> u64)
    requires Nondecreasing(os, key)
    ensures Ascending(Segments(os), key)
  {
    if os != [] {
      var head, o := os[..|os| - 1], os[|os| - 1];
      SegmentsAscend(head, key);
      if head != [] {
        NewestSegmentEndsRun(head);
      }
      PlaceKeepsAscending(Segments(head), o, key);
    }
  }

  // ---------- extent in time ----------

  /** On any clock, even one that jumps, a window ends less than 1 ms (mod 2^64 ns) after it started. */
  lemma {:induction false} WindowExtent(os: seq<Obs>, i: nat)
    requires i < |Run(os).log|
    ensures Sub64(Run(os).log[i].endTime, Run(os).log[i].startTime) < MIN_WINDOW_NS
  {
    LogIsSummaries(os);
    WindowAt(os, i);
    var s := Segments(os)[i];
    assert InTime(s);
    assert s.rest != [] ==> s.Last() in s.rest;
  }

  /** On one clock that does not go back, windows are at least 1 ms apart and do not overlap. */
  lemma {:induction false} WindowsDisjointInTime(os: seq<Obs>, i: nat)
    requires Nondecreasing(os, (o: Obs) => o.now)
    requires i + 1 < |Run(os).log|
    ensures var w, next := Run(os).log[i], Run(os).log[i + 1];
            w.startTime <= w.endTime < w.startTime + MIN_WINDOW_NS <= next.startTime
  {
    LogIsSummaries(os);
    WindowAt(os, i);
    WindowAt(os, i + 1);
    WindowExtent(os, i);
    var key := (o: Obs) => o.now;
    SegmentsAscend(os, key);
    var s, t := Segments(os)[i], Segments(os)[i + 1];
    assert Spans(s, key) && Late(s, t.first);
    assert key(s.Last()) <= key(t.first);
  }

  // ---------- bytes ----------

  /** The total that the socket had acknowledged when window `i` was opened. */
  ghost function Baseline(os: seq<Obs>, i: nat): u64
    requires i < |Segments(os)|
  {
    Segments(os)[i].first.acked
  }

  lemma {:induction false} NewestAckIn(s: seq<Obs>, except: Option<u64>)
    ensures NewestAck(s, except).Some? ==> NewestAck(s, except).value in s
  {
    if s != [] {
      NewestAckIn(s[..|s| - 1], except);
    }
  }

  /** The socket's total at the newest acknowledgement of the segment, or at its start if it has none. */
  ghost function Counted(s: Segment): u64 {
    match NewestAck(s.Events(), None)
    case None => s.first.acked
    case Some(o) => o.acked
  }

  lemma {:induction false} SegmentBytes(s: Segment)
    requires Spans(s, (o: Obs) => o.acked)
    ensures s.first.acked + Bytes(s) == Counted(s) <= s.Last().acked
  {
    NewestAckIn(s.Events(), None);
    var newest := NewestAck(s.Events(), None);
    assert newest.Some? ==> newest.value == s.first || newest.value in s.rest;
    var key := (o: Obs) => o.acked;
    assert newest.Some? ==> key(s.first) <= key(newest.value) <= key(s.Last());
  }

  /** What the socket had acknowledged by the time window `i` was left (or now, for the open one). */
  ghost function Reached(os: seq<Obs>, i: nat): u64
    requires i < |Segments(os)|
  {
    if i + 1 < |Segments(os)| then Baseline(os, i + 1) else os[|os| - 1].acked
  }

  /** What the socket acknowledged after the newest acknowledgement of window `i`, up to the next baseline. */
  ghost function Gap(os: seq<Obs>, i: nat): int
    requires i < |Segments(os)|
  {
    Reached(os, i) - Counted(Segments(os)[i])
  }

  /** A window and the gap behind it make up exactly what was acknowledged from its baseline to the next one. */
  lemma {:induction false} WindowAndGap(os: seq<Obs>, i: nat)
    requires Nondecreasing(os, (o: Obs) => o.acked)
    requires i < |Segments(os)|
    ensures |Run(os).log| == |Segments(os)|
    ensures Run(os).log[i].bytesAcked + Gap(os, i) == Reached(os, i) - Baseline(os, i)
    ensures 0 <= Gap(os, i)
  {
    assert os != [];
    hide Run, Segments, Bandwidth, Bytes, Windows, InTime, Late, Counted;
    LogIsSummaries(os);
    WindowAt(os, i);
    var key := (o: Obs) => o.acked;
    SegmentsAscend(os, key);
    var segs := Segments(os);
    assert Spans(segs[i], key);
    SegmentBytes(segs[i]);
    NewestSegmentEndsRun(os);
    if i + 1 < |segs| {
      assert key(segs[i].Last()) <= key(segs[i + 1].first);
    }
  }

  /** The byte ranges of the windows are in order and disjoint, and none runs ahead of the socket. */
  lemma {:induction false} ByteRangesDisjoint(os: seq<Obs>, i: nat)
    requires Nondecreasing(os, (o: Obs) => o.acked)
    requires i < |Segments(os)|
    ensures |Run(os).log| == |Segments(os)|
    ensures Baseline(os, i) + Run(os).log[i].bytesAcked <= Reached(os, i) <= os[|os| - 1].acked
  {
    assert os != [];
    hide Run, Segments, Gap;
    WindowAndGap(os, i);
    var key := (o: Obs) => o.acked;
    SegmentsAscend(os, key);
    NewestSegmentEndsRun(os);
    var segs := Segments(os);
    if i + 1 < |segs| {
      LaterBaselines(segs, i + 1, |segs| - 1);
      assert Spans(segs[|segs| - 1], key);
    }
  }

  lemma {:induction false} LaterBaselines(segs: seq<Segment>, i: nat, j: nat)
    requires Ascending(segs, (o: Obs) => o.acked)
    requires i <= j < |segs|
    ensures segs[i].first.acked <= segs[j].first.acked
    decreases j - i
  {
    if i < j {
      LaterBaselines(segs, i, j - 1);
      var key := (o: Obs) => o.acked;
      assert Spans(segs[j - 1], key) && key(segs[j - 1].Last()) <= key(segs[j].first);
    }
  }

  /** Bytes recorded by the windows from `i` on. */
  ghost function Recorded(log: seq<Window>, i: nat): nat
    requires i <= |log|
    decreases |log| - i
  {
    if i == |log| then 0 else log[i].bytesAcked + Recorded(log, i + 1)
  }

  /** Bytes in the gaps behind the windows from `i` on. */
  ghost function Missed(os: seq<Obs>, i: nat): int
    requires i <= |Segments(os)|
    decreases |Segments(os)| - i
  {
    if i == |Segments(os)| then 0 else Gap(os, i) + Missed(os, i + 1)
  }

  /**
   From any window on, the bytes in windows and the bytes in the gaps behind them add up to what the socket
   has acknowledged since that window's baseline. No gap is negative, so the windows never claim more than that.
   */
  lemma {:induction false} BytesConserved(os: seq<Obs>, i: nat)
    requires Nondecreasing(os, (o: Obs) => o.acked)
    requires i < |Segments(os)|
    ensures |Run(os).log| == |Segments(os)|
    ensures Recorded(Run(os).log, i) + Missed(os, i) == os[|os| - 1].acked - Baseline(os, i)
    ensures forall j :: i <= j < |Segments(os)| ==> 0 <= Gap(os, j)
    ensures 0 <= Missed(os, i)
    decreases |Segments(os)| - i
  {
    hide Run, Segments, Baseline, Gap;
    var log, n := Run(os).log, |Segments(os)|;
    WindowAndGap(os, i);
    assert Recorded(log, i) == log[i].bytesAcked + Recorded(log, i + 1);
    assert Missed(os, i) == Gap(os, i) + Missed(os, i + 1);
    if i + 1 < n {
      BytesConserved(os, i + 1);
    }
  }

  /** The acknowledgement that opens a window brings it no bytes: whatever it acknowledged is missed. */
  lemma {:induction false} OpeningAckIsMissed(os: seq<Obs>, o: Obs)
    requires o.kind.Ack?
    requires os != [] ==> Late(Segments(os)[|Segments(os)| - 1], o)
    ensures var log := Run(os + [o]).log; log != [] && log[|log| - 1].bytesAcked == 0
    ensures os != [] ==> Reached(os + [o], |Segments(os)| - 1) == o.acked
  {
    SegmentsSnoc(os, o);
    RunSnoc(os, o);
    MinimaStayZero(os);
    LogIsSummaries(os);
    StepLog(Run(os), o);
    OpeningAckBytes(o);
  }

  lemma {:induction false} OpeningAckBytes(o: Obs)
    requires o.kind.Ack?
    ensures Absorb(Opened(o.now), o, o.acked).bytesAcked == 0
  {
  }

  // ---------- bandwidth ----------

  /** The u64 product is exact, and the recorded rate is the true floor quotient, exactly up to this many bytes. */
  const EXACT_BYTES: u64 := 2_305_843_009

  ghost predicate FloorQuotient(q: int, n: int, d: int) {
    q * d <= n < (q + 1) * d
  }

  lemma {:induction false} BandwidthIsFloor(bytes: u64, elapsed: u64)
    requires elapsed != 0
    ensures FloorQuotient(Bandwidth(bytes, elapsed), Trunc64(BITS_PER_BYTE_SECOND * bytes), elapsed)
  {
    var n := Trunc64(BITS_PER_BYTE_SECOND * bytes);
    assert n == n / elapsed * elapsed + n % elapsed;
  }

  lemma {:induction false} BandwidthExact(bytes: u64, elapsed: u64)
    requires elapsed != 0
    ensures FloorQuotient(Bandwidth(bytes, elapsed), BITS_PER_BYTE_SECOND * bytes, elapsed) <==> bytes <= EXACT_BYTES
  {
    BandwidthIsFloor(bytes, elapsed);
    var product := BITS_PER_BYTE_SECOND * bytes;
    if bytes > EXACT_BYTES {
      assert product - Trunc64(product) >= 0x1_0000_0000_0000_0000;
    }
  }

  /** The rate of every window that has been closed, evicted ones included. */
  ghost function ClosingRates(log: seq<Window>): (rs: seq<nat>)
    ensures |rs| == if log == [] then 0 else |log| - 1
    ensures forall i :: 0 <= i < |rs| ==> rs[i] == log[i].bandwidth
  {
    if log == [] then [] else seq(|log| - 1, i requires 0 <= i < |log| - 1 => log[i].bandwidth)
  }

  ghost predicate AllFit(xs: seq<nat>) {
    forall i :: 0 <= i < |xs| ==> xs[i] < 0x1_0000_0000
  }

  lemma {:induction false} StepRates(s: Engine, o: Obs)
    requires s.minRtt == 0
    ensures var before, after := ClosingRates(s.log), ClosingRates(Step(s, o).log);
            (after == before && Step(s, o).maxBandwidth == s.maxBandwidth) ||
            (exists bw: u64 :: after == before + [bw] && Step(s, o).maxBandwidth == Trunc32(Max(s.maxBandwidth, bw)))
  {
    StepLog(s, o);
    var n := |s.log| - 1;
    if s.log != [] {
      var elapsed := Sub64(o.now, s.log[n].startTime);
      if elapsed >= MIN_WINDOW_NS {
        var bw := Bandwidth(s.log[n].bytesAcked, elapsed);
        assert ClosingRates(Step(s, o).log) == ClosingRates(s.log) + [bw];
      } else {
        assert ClosingRates(Step(s, o).log) == ClosingRates(s.log);
      }
    }
  }

  /** The bits of the segment, modulo 2^64, stay below 2^32 for each second up to `next`. */
  ghost predicate RateFits(s: Segment, next: Obs) {
    Trunc64(BITS_PER_BYTE_SECOND * Bytes(s)) < 0x1_0000_0000 * Sub64(next.now, s.first.now)
  }

  ghost predicate RatesFit(segs: seq<Segment>) {
    forall i, j :: 0 <= i && j == i + 1 < |segs| ==> RateFits(segs[i], segs[j].first)
  }

  lemma {:induction false} QuotientBelow(n: nat, d: nat, bound: nat)
    requires d > 0
    ensures n / d < bound <==> n < bound * d
  {
    var q := n / d;
    assert n == q * d + n % d;
    if q < bound {
      MulMono(q + 1, bound, d);
    } else {
      MulMono(bound, q, d);
    }
  }

  lemma {:induction false} RateIsBandwidth(os: seq<Obs>, i: nat)
    requires i + 1 < |Segments(os)|
    ensures |Run(os).log| == |Segments(os)|
    ensures RateFits(Segments(os)[i], Segments(os)[i + 1].first) <==> Run(os).log[i].bandwidth < 0x1_0000_0000
  {
    hide Run, Segments, Bytes, Trunc64;
    WindowAt(os, i);
    var s, t := Segments(os)[i], Segments(os)[i + 1];
    assert Late(s, t.first);
    QuotientBelow(Trunc64(BITS_PER_BYTE_SECOND * Bytes(s)), Sub64(t.first.now, s.first.now), 0x1_0000_0000);
  }

  /** The u32 field is the greatest closing rate of the whole run exactly when no segment brings too many bits for its time. */
  lemma {:induction false} MaxBandwidthIsGlobal(os: seq<Obs>)
    ensures Run(os).maxBandwidth == MaxOf(ClosingRates(Run(os).log)) <==> RatesFit(Segments(os))
  {
    hide Run, Segments, RateFits, MaxOf, ClosingRates, Windows, Greedy;
    MaxIsGlobalIfAllFit(os);
    LogIsSummaries(os);
    var segs, rates := Segments(os), ClosingRates(Run(os).log);
    if AllFit(rates) {
      forall i, j | 0 <= i && j == i + 1 < |segs| ensures RateFits(segs[i], segs[j].first) {
        RateIsBandwidth(os, i);
        assert rates[i] < 0x1_0000_0000;
      }
    }
    if RatesFit(segs) {
      forall i | 0 <= i < |rates| ensures rates[i] < 0x1_0000_0000 {
        RateIsBandwidth(os, i);
        assert RateFits(segs[i], segs[i + 1].first);
      }
    }
  }

  lemma {:induction false} MaxIsGlobalIfAllFit(os: seq<Obs>)
    ensures var rates := ClosingRates(Run(os).log);
            Run(os).maxBandwidth == MaxOf(rates) <==> AllFit(rates)
  {
    if os != [] {
      var head, o := os[..|os| - 1], os[|os| - 1];
      MaxIsGlobalIfAllFit(head);
      MinimaStayZero(head);
      RatesGrow(Run(head), o);
    }
  }

  lemma {:induction false} MaxFits(xs: seq<nat>, max: u32)
    requires max == MaxOf(xs)
    ensures AllFit(xs)
  {
  }

  lemma {:induction false} MaxFitsSnoc(xs: seq<nat>, max: u32, x: u64)
    requires max == MaxOf(xs) <==> AllFit(xs)
    ensures Trunc32(Max(max, x)) == MaxOf(xs + [x]) <==> AllFit(xs + [x])
  {
    MaxOfSnoc(xs, x);
    if Trunc32(Max(max, x)) == MaxOf(xs + [x]) {
      MaxFits(xs + [x], Trunc32(Max(max, x)));
    }
    if AllFit(xs + [x]) {
      assert forall i :: 0 <= i < |xs| ==> (xs + [x])[i] == xs[i];
      assert (xs + [x])[|xs|] == x;
    }
  }

  lemma {:induction false} RatesGrow(s: Engine, o: Obs)
    requires s.minRtt == 0
    requires s.maxBandwidth == MaxOf(ClosingRates(s.log)) <==> AllFit(ClosingRates(s.log))
    ensures var rates := ClosingRates(Step(s, o).log);
            Step(s, o).maxBandwidth == MaxOf(rates) <==> AllFit(rates)
  {
    StepRates(s, o);
    var before, after := ClosingRates(s.log), ClosingRates(Step(s, o).log);
    if after != before {
      var bw: u64 :| after == before + [bw] && Step(s, o).maxBandwidth == Trunc32(Max(s.maxBandwidth, bw));
      MaxFitsSnoc(before, s.maxBandwidth, bw);
    }
  }

  lemma {:induction false} LossyPrefix()
    ensures var s := Run([Obs(0, 0, Control(2)), Obs(999_999, 536_871, Ack(1, 0, 0))]);
            && |s.log| == 1 && s.log[0].startTime == 0 && s.log[0].bytesAcked == 536_871
            && s.minRtt == 0 && s.maxBandwidth == 0
  {
    var a, b := Obs(0, 0, Control(2)), Obs(999_999, 536_871, Ack(1, 0, 0));
    RunSnoc([], a);
    RunSnoc([a], b);
    assert [] + [a] == [a] && [a] + [b] == [a, b];
    var s1 := Run([a]);
    assert s1.log == [ZeroWindow] && s1.baseline == 0 && s1.minRtt == 0 && s1.maxBandwidth == 0;
    hide Run, Bandwidth;
  }

  /** Two windows: one closes just above 2^32 bit/s, and the field that should keep its rate keeps 704. */
  lemma {:induction false} MaxBandwidthCanLoseWindow()
    ensures var os := [Obs(0, 0, Control(2)), Obs(999_999, 536_871, Ack(1, 0, 0)), Obs(1_000_000, 536_871, Control(2))];
            Run(os).maxBandwidth == 704 && ClosingRates(Run(os).log) == [4_294_968_000]
  {
    var a, b, c := Obs(0, 0, Control(2)), Obs(999_999, 536_871, Ack(1, 0, 0)), Obs(1_000_000, 536_871, Control(2));
    LossyPrefix();
    var s := Run([a, b]);
    RunSnoc([a, b], c);
    assert [a, b] + [c] == [a, b, c];
    assert Bandwidth(536_871, 1_000_000) == 4_294_968_000;
    StepRates(s, c);
    StepLog(s, c);
    hide Run, Step, Absorb, Bandwidth;
  }

  /** The rate stored in a closed window is the true one, rounded down, exactly when its bytes do not overflow u64 bits. */
  lemma {:induction false} ClosedRate(os: seq<Obs>, i: nat)
    requires i + 1 < |Segments(os)|
    ensures |Run(os).log| == |Segments(os)|
    ensures var w := Run(os).log[i];
            var elapsed := Sub64(Run(os).log[i + 1].startTime, w.startTime);
            && elapsed >= MIN_WINDOW_NS
            && (FloorQuotient(w.bandwidth, BITS_PER_BYTE_SECOND * w.bytesAcked, elapsed) <==> w.bytesAcked <= EXACT_BYTES)
  {
    hide Run, Segments, Bandwidth, FloorQuotient;
    WindowAt(os, i);
    WindowAt(os, i + 1);
    var s, t := Segments(os)[i], Segments(os)[i + 1];
    assert Late(s, t.first);
    BandwidthExact(Bytes(s), Sub64(t.first.now, s.first.now));
  }

  /** The rate of the window in use is that at its newest acknowledgement, the one at its very start left out. */
  lemma {:induction false} OpenRate(os: seq<Obs>)
    requires os != []
    ensures |Run(os).log| == |Segments(os)| > 0
    ensures var n := |Segments(os)| - 1;
            var s, w := Segments(os)[n], Run(os).log[n];
            match NewestAck(s.Events(), Some(s.first.now))
            case None => w.bandwidth == 0
            case Some(o) =>
              var bytes, elapsed := Sub64(o.acked, s.first.acked), Sub64(o.now, s.first.now);
              elapsed > 0 && (FloorQuotient(w.bandwidth, BITS_PER_BYTE_SECOND * bytes, elapsed) <==> bytes <= EXACT_BYTES)
  {
    hide Run, Segments, Bandwidth, FloorQuotient;
    var n := |Segments(os)| - 1;
    WindowAt(os, n);
    var s := Segments(os)[n];
    var newest := NewestAck(s.Events(), Some(s.first.now));
    if newest.Some? {
      BandwidthExact(Sub64(newest.value.acked, s.first.acked), Sub64(newest.value.now, s.first.now));
    }
  }

  /** With at most 536,870 bytes in every window, the flow's greatest rate misses none. */
  lemma {:induction false} SmallWindowsKeepMax(os: seq<Obs>)
    requires forall i :: 0 <= i < |Run(os).log| ==> Run(os).log[i].bytesAcked <= 536_870
    ensures Run(os).maxBandwidth == MaxOf(ClosingRates(Run(os).log))
  {
    hide Run, Segments, Bytes, RateFits, MaxOf, ClosingRates, Windows;
    MaxBandwidthIsGlobal(os);
    LogIsSummaries(os);
    var log, segs := Run(os).log, Segments(os);
    forall i, j | 0 <= i && j == i + 1 < |segs| ensures RateFits(segs[i], segs[j].first) {
      WindowAt(os, i);
      assert log[i].bytesAcked == Bytes(segs[i]);
      SmallWindowFits(segs[i], segs[j].first);
    }
  }

  /** Few enough bytes cannot overflow the u32, since a window lasts at least 1 ms. */
  lemma {:induction false} SmallWindowFits(s: Segment, next: Obs)
    requires Bytes(s) <= 536_870 && Late(s, next)
    ensures RateFits(s, next)
  {
    hide Bytes;
  }

  // ---------- RTT ----------

  lemma {:induction false} SumBounds(xs: seq<Rtt>, lo: Rtt, hi: Rtt)
    requires forall x :: x in xs ==> lo <= x <= hi
    ensures lo * |xs| <= Sum(xs) <= hi * |xs|
  {
    if xs != [] {
      var n := |xs| - 1;
      forall x | x in xs[..n] ensures lo <= x <= hi {
        assert x in xs;
      }
      SumBounds(xs[..n], lo, hi);
      assert xs[n] in xs;
      assert lo * (n + 1) == lo * n + lo && hi * (n + 1) == hi * n + hi;
    }
  }

  lemma {:induction false} QuotientBetween(sum: nat, n: nat, lo: nat, hi: nat)
    requires n > 0 && lo * n <= sum <= hi * n
    ensures lo <= sum / n <= hi
    ensures FloorQuotient(sum / n, sum, n)
  {
    var q := sum / n;
    assert sum == q * n + sum % n;
    if q < lo {
      MulMono(q + 1, lo, n);
      assert false;
    }
    if hi < q {
      MulMono(hi + 1, q, n);
      assert false;
    }
  }

  /** With fewer than 2^33 samples the sum is exact and the average lies between the extremes. */
  lemma {:induction false} AverageBetween(xs: seq<Rtt>, lo: Rtt, hi: Rtt)
    requires 0 < |xs| < 0x2_0000_0000
    requires forall x :: x in xs ==> lo <= x <= hi
    ensures Trunc64(Sum(xs)) == Sum(xs) && Trunc64(|xs|) == |xs|
    ensures FloorQuotient(Average(Sum(xs), |xs|), Sum(xs), |xs|)
    ensures lo <= Average(Sum(xs), |xs|) <= hi
  {
    var n, sum := |xs|, Sum(xs);
    SumBounds(xs, lo, hi);
    MulMono(hi, 0x8000_0000, n);
    MulMono(n, 0x2_0000_0000, 0x8000_0000);
    assert sum < 0x1_0000_0000_0000_0000;
    QuotientBetween(sum, n, lo, hi);
  }

  /** What a window says about round-trip times: its maximum is the greatest counted sample, its average lies in range. */
  lemma {:induction false} WindowRtts(os: seq<Obs>, i: nat, lo: Rtt, hi: Rtt)
    requires i < |Segments(os)|
    requires var rtts := Rtts(Segments(os)[i].Events());
             0 < |rtts| < 0x2_0000_0000 && forall x :: x in rtts ==> lo <= x <= hi
    ensures |Run(os).log| == |Segments(os)|
    ensures var w, rtts := Run(os).log[i], Rtts(Segments(os)[i].Events());
            && w.maxRtt in rtts && (forall x :: x in rtts ==> x <= w.maxRtt)
            && w.nRtt == |rtts| && w.sumRtt == Sum(rtts)
            && FloorQuotient(w.avgRtt, w.sumRtt, w.nRtt)
            && lo <= w.avgRtt <= hi
  {
    WindowAt(os, i);
    var rtts := Rtts(Segments(os)[i].Events());
    AverageBetween(rtts, lo, hi);
    RttsPositive(Segments(os)[i].Events());
    assert rtts[0] in rtts;
  }

  lemma {:induction false} RttsPositive(s: seq<Obs>)
    ensures forall x :: x in Rtts(s) ==> x > 0
  {
    if s != [] {
      RttsPositive(s[..|s| - 1]);
    }
  }

  lemma {:induction false} StepMaxima(s: Engine, o: Obs)
    ensures Step(s, o).maxRtt == if o.kind.Ack? then Max(s.maxRtt, o.kind.rtt) else s.maxRtt
    ensures Step(s, o).maxCwnd == if o.kind.Control? then Max(s.maxCwnd, o.kind.cwnd) else s.maxCwnd
  {
  }

  /** The flow-wide maximum is that of every sample of the run. */
  lemma {:induction false} MaxRttOfRun(os: seq<Obs>)
    ensures Run(os).maxRtt == MaxRtt(Rtts(os))
  {
    if os != [] {
      var head, o := os[..|os| - 1], os[|os| - 1];
      MaxRttOfRun(head);
      StepMaxima(Run(head), o);
      assert os == head + [o];
      FoldsSnoc(head, o);
      if o.kind.Ack? && o.kind.rtt != 0 {
        RttsSnoc(Rtts(head), o.kind.rtt);
      }
    }
  }

  ghost function Peaks(log: seq<Window>): (ps: seq<nat>)
    ensures |ps| == |log|
  {
    seq(|log|, i requires 0 <= i < |log| => log[i].maxRtt)
  }

  lemma {:induction false} PeaksSnoc(log: seq<Window>, w: Window)
    ensures MaxOf(Peaks(log + [w])) == Max(MaxOf(Peaks(log)), w.maxRtt)
  {
    assert Peaks(log + [w]) == Peaks(log) + [w.maxRtt];
    MaxOfSnoc(Peaks(log), w.maxRtt);
  }

  lemma {:induction false} AbsorbPeak(w: Window, o: Obs, baseline: u64)
    ensures Absorb(w, o, baseline).maxRtt == if o.kind.Ack? then Max(w.maxRtt, o.kind.rtt) else w.maxRtt
  {
  }

  lemma {:induction false} StepPeaks(s: Engine, o: Obs)
    requires s.minRtt == 0
    ensures MaxOf(Peaks(Step(s, o).log)) ==
            if o.kind.Ack? then Max(MaxOf(Peaks(s.log)), o.kind.rtt) else MaxOf(Peaks(s.log))
  {
    StepLog(s, o);
    AbsorbPeak(Opened(o.now), o, o.acked);
    if s.log == [] {
      PeaksSnoc([], Absorb(Opened(o.now), o, o.acked));
      assert [] + [Absorb(Opened(o.now), o, o.acked)] == [Absorb(Opened(o.now), o, o.acked)];
    } else {
      var n := |s.log| - 1;
      var front, w := s.log[..n], s.log[n];
      assert s.log == front + [w];
      PeaksSnoc(front, w);
      var elapsed := Sub64(o.now, w.startTime);
      if elapsed >= MIN_WINDOW_NS {
        var closed, newest := w.(bandwidth := Bandwidth(w.bytesAcked, elapsed)), Absorb(Opened(o.now), o, o.acked);
        PeaksSnoc(front, closed);
        PeaksSnoc(front + [closed], newest);
        assert front + [closed] + [newest] == front + [closed, newest];
      } else {
        AbsorbPeak(w, o, s.baseline);
        PeaksSnoc(front, Absorb(w, o, s.baseline));
      }
    }
  }

  /** The flow-wide maximum is the greatest maximum of any window ever opened, evicted ones included. */
  lemma {:induction false} MaxRttOfWindows(os: seq<Obs>)
    ensures Run(os).maxRtt == MaxOf(Peaks(Run(os).log))
  {
    if os != [] {
      var head, o := os[..|os| - 1], os[|os| - 1];
      MaxRttOfWindows(head);
      MinimaStayZero(head);
      StepPeaks(Run(head), o);
    }
  }

  // ---------- congestion windows ----------

  function Cwnds(os: seq<Obs>): seq<u32> {
    if os == [] then [] else
    var cwnds := Cwnds(os[..|os| - 1]);
    if os[|os| - 1].kind.Control? then cwnds + [os[|os| - 1].kind.cwnd] else cwnds
  }

  /** The greatest window ever asked for, before any clamping. */
  lemma {:induction false} MaxCwndOfRun(os: seq<Obs>)
    ensures Run(os).maxCwnd == MaxOf(Cwnds(os))
  {
    if os != [] {
      var head, o := os[..|os| - 1], os[|os| - 1];
      MaxCwndOfRun(head);
      StepMaxima(Run(head), o);
      if o.kind.Control? {
        MaxOfSnoc(Cwnds(head), o.kind.cwnd);
      }
    }
  }

  /** The flow-wide ACK time and bytes in flight are those of the newest acknowledgement. */
  lemma {:induction false} NewestAckOfRun(os: seq<Obs>)
    ensures match NewestAck(os, None)
            case None => Run(os).lastAckTime == 0 && Run(os).inflight == 0
            case Some(o) => o.kind.Ack? && Run(os).lastAckTime == o.now && Run(os).inflight == Sub64(o.kind.sent, o.acked)
  {
    if os != [] {
      var head, o := os[..|os| - 1], os[|os| - 1];
      NewestAckOfRun(head);
      StepAckFields(Run(head), o);
    }
  }

  lemma {:induction false} StepAckFields(s: Engine, o: Obs)
    ensures Step(s, o).lastAckTime == if o.kind.Ack? then o.now else s.lastAckTime
    ensures Step(s, o).inflight == if o.kind.Ack? then Sub64(o.kind.sent, o.acked) else s.inflight
  {
  }
}
