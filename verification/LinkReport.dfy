/** What the analyser reports about a log: delay percentiles, signal delays, buffer occupancy per bin. */
module LinkReport {
  import opened Words
  import opened LinkLog
  import Percentiles
  import SignalDelay

  // ---------- buffer occupancy ----------

  /** Arrivals minus departures over the bins from `lo` to `b`. */
  ghost function Flow(arrivals: map<int, nat>, departures: map<int, nat>, lo: int, b: int): int
    decreases b - lo
  {
    if b < lo then 0
    else Flow(arrivals, departures, lo, b - 1) + GetOr0(arrivals, b) - GetOr0(departures, b)
  }

  /** The loop over bins: the running occupancy after each. */
  method OccupancySeries(arrivals: map<int, nat>, departures: map<int, nat>, lo: int, hi: int) returns (occ: seq<int>)
    requires lo <= hi
    ensures |occ| == hi - lo + 1
    ensures forall i :: 0 <= i < |occ| ==> occ[i] == Flow(arrivals, departures, lo, lo + i)
  {
    occ := [];
    var current := 0;
    var bin := lo;
    while bin <= hi
      invariant lo <= bin <= hi + 1
      invariant |occ| == bin - lo
      invariant current == Flow(arrivals, departures, lo, bin - 1)
      invariant forall i :: 0 <= i < |occ| ==> occ[i] == Flow(arrivals, departures, lo, lo + i)
    {
      current := current + GetOr0(arrivals, bin);
      current := current - GetOr0(departures, bin);
      occ := occ + [current];
      bin := bin + 1;
    }
  }

  /** Bits of one kind in all bins up to `b`. */
  function UpTo(rs: seq<Record>, kind: Kind, w: nat, b: int): nat
    requires w > 0
  {
    if rs == [] then 0 else
    var r := rs[|rs| - 1];
    UpTo(rs[..|rs| - 1], kind, w, b) + if BinOf(r, w) <= b then BitsOf(r, kind) else 0
  }

  lemma {:induction false} UpToStep(rs: seq<Record>, kind: Kind, w: nat, b: int)
    requires w > 0
    ensures UpTo(rs, kind, w, b) == UpTo(rs, kind, w, b - 1) + InBin(rs, kind, w, b)
  {
    if rs != [] {
      UpToStep(rs[..|rs| - 1], kind, w, b);
    }
  }

  lemma {:induction false} NothingBefore(rs: seq<Record>, kind: Kind, w: nat, lo: int)
    requires w > 0 && forall i :: 0 <= i < |rs| && rs[i].kind == kind ==> lo <= BinOf(rs[i], w)
    ensures UpTo(rs, kind, w, lo - 1) == 0
  {
    if rs != [] {
      NothingBefore(rs[..|rs| - 1], kind, w, lo);
    }
  }

  lemma {:induction false} EverythingUpTo(rs: seq<Record>, kind: Kind, w: nat, hi: int)
    requires w > 0 && forall i :: 0 <= i < |rs| && rs[i].kind == kind ==> BinOf(rs[i], w) <= hi
    ensures UpTo(rs, kind, w, hi) == Total(rs, kind)
  {
    if rs != [] {
      EverythingUpTo(rs[..|rs| - 1], kind, w, hi);
    }
  }

  /** The occupancy after bin `b` is everything that arrived up to it, less everything that departed. */
  lemma {:induction false} OccupancyConserved(
    arrivals: map<int, nat>, departures: map<int, nat>, rs: seq<Record>, w: nat, lo: int, b: int)
    requires w > 0 && Bins(arrivals, rs, Arrival, w) && Bins(departures, rs, Departure, w)
    requires forall k :: k in arrivals || k in departures ==> lo <= k
    requires lo - 1 <= b
    ensures Flow(arrivals, departures, lo, b) == UpTo(rs, Arrival, w, b) - UpTo(rs, Departure, w, b)
    decreases b - lo + 1
  {
    if b < lo {
      BinsFrom(arrivals, rs, Arrival, w, lo);
      BinsFrom(departures, rs, Departure, w, lo);
      NothingBefore(rs, Arrival, w, lo);
      NothingBefore(rs, Departure, w, lo);
    } else {
      OccupancyConserved(arrivals, departures, rs, w, lo, b - 1);
      BinsValue(arrivals, rs, Arrival, w, b);
      BinsValue(departures, rs, Departure, w, b);
      UpToStep(rs, Arrival, w, b);
      UpToStep(rs, Departure, w, b);
    }
  }

  lemma {:induction false} SeenAt(rs: seq<Record>, i: nat, w: nat)
    requires w > 0 && i < |rs|
    ensures Seen(rs, rs[i].kind, w, BinOf(rs[i], w))
  {
    if i < |rs| - 1 {
      SeenAt(rs[..|rs| - 1], i, w);
    }
  }

  lemma {:induction false} BinsFrom(m: map<int, nat>, rs: seq<Record>, kind: Kind, w: nat, lo: int)
    requires w > 0 && Bins(m, rs, kind, w) && forall k :: k in m ==> lo <= k
    ensures forall i :: 0 <= i < |rs| && rs[i].kind == kind ==> lo <= BinOf(rs[i], w)
  {
    forall i | 0 <= i < |rs| && rs[i].kind == kind ensures lo <= BinOf(rs[i], w) {
      SeenAt(rs, i, w);
    }
  }

  lemma {:induction false} BinsTo(m: map<int, nat>, rs: seq<Record>, kind: Kind, w: nat, hi: int)
    requires w > 0 && Bins(m, rs, kind, w) && forall k :: k in m ==> k <= hi
    ensures forall i :: 0 <= i < |rs| && rs[i].kind == kind ==> BinOf(rs[i], w) <= hi
  {
    forall i | 0 <= i < |rs| && rs[i].kind == kind ensures BinOf(rs[i], w) <= hi {
      SeenAt(rs, i, w);
    }
  }

  /** After the last bin the occupancy is the difference of the two sums. */
  lemma {:induction false} FinalOccupancy(s: Stats, rs: seq<Record>, w: nat, lo: int, hi: int)
    requires w > 0 && Describes(s, rs, w)
    requires forall k :: k in s.arrivals || k in s.departures ==> lo <= k <= hi
    requires lo <= hi
    ensures Flow(s.arrivals, s.departures, lo, hi) == s.arrivalSum - s.departureSum
  {
    OccupancyConserved(s.arrivals, s.departures, rs, w, lo, hi);
    BinsTo(s.arrivals, rs, Arrival, w, hi);
    BinsTo(s.departures, rs, Departure, w, hi);
    EverythingUpTo(rs, Arrival, w, hi);
    EverythingUpTo(rs, Departure, w, hi);
  }

  ghost predicate TimeSorted(rs: seq<Record>) {
    forall i, j :: 0 <= i < j < |rs| ==> rs[i].time <= rs[j].time
  }

  /** At no point of the log has more departed than arrived. */
  ghost predicate NeverOverdrawn(rs: seq<Record>) {
    forall k :: 0 <= k <= |rs| ==> Total(rs[..k], Departure) <= Total(rs[..k], Arrival)
  }

  lemma {:induction false} BinsAscend(a: Record, b: Record, w: nat)
    requires w > 0 && a.time <= b.time
    ensures BinOf(a, w) <= BinOf(b, w)
  {
    var p, q := a.time / w, b.time / w;
    assert a.time == p * w + a.time % w && b.time == q * w + b.time % w;
    if q < p {
      MulMono(q + 1, p, w);
      assert false;
    }
  }

  /** In a sorted log the bins up to `b` hold a prefix of the log. */
  lemma {:induction false} UpToIsPrefix(rs: seq<Record>, w: nat, b: int) returns (k: nat)
    requires w > 0 && TimeSorted(rs)
    ensures k <= |rs|
    ensures forall kind :: UpTo(rs, kind, w, b) == Total(rs[..k], kind)
  {
    if rs == [] {
      k := 0;
    } else {
      var n := |rs| - 1;
      if BinOf(rs[n], w) <= b {
        k := |rs|;
        forall i | 0 <= i < |rs| ensures BinOf(rs[i], w) <= b {
          BinsAscend(rs[i], rs[n], w);
        }
        assert rs[..k] == rs;
        forall kind ensures UpTo(rs, kind, w, b) == Total(rs, kind) {
          EverythingUpTo(rs, kind, w, b);
        }
      } else {
        k := UpToIsPrefix(rs[..n], w, b);
        assert rs[..n][..k] == rs[..k];
      }
    }
  }

  /** A sorted log in which nothing departs before it arrived never shows a negative occupancy. */
  lemma {:induction false} OccupancyNonNegative(
    arrivals: map<int, nat>, departures: map<int, nat>, rs: seq<Record>, w: nat, lo: int, b: int)
    requires w > 0 && Bins(arrivals, rs, Arrival, w) && Bins(departures, rs, Departure, w)
    requires forall k :: k in arrivals || k in departures ==> lo <= k
    requires lo - 1 <= b && TimeSorted(rs) && NeverOverdrawn(rs)
    ensures Flow(arrivals, departures, lo, b) >= 0
  {
    OccupancyConserved(arrivals, departures, rs, w, lo, b);
    var k := UpToIsPrefix(rs, w, b);
  }

  // ---------- signal delay ----------

  /** Packets leave in the order in which they were created. */
  ghost predicate FifoDepartures(rs: seq<Record>) {
    forall a, b :: a in rs && b in rs && a.kind == Departure && b.kind == Departure && a.time - a.delay < b.time - b.delay
      ==> a.time <= b.time
  }

  /** First-in first-out departures give first-in first-out samples, so their backfill is a true minimum. */
  lemma {:induction false} FifoSamples(m: map<nat, nat>, rs: seq<Record>)
    requires LeastDelays(m, rs) && FifoDepartures(rs)
    ensures SignalDelay.Fifo(m)
  {
    forall s, t | s in m && t in m && s <= t ensures s + m[s] <= t + m[t] {
      if s < t {
        LeastDelayIsLeast(rs, s);
        LeastDelayIsLeast(rs, t);
        var a :| a in rs && CreatedAt(a, s) && LeastDelay(rs, s) == Some(a.delay);
        var b :| b in rs && CreatedAt(b, t) && LeastDelay(rs, t) == Some(b.delay);
        assert a.time <= b.time;
      }
    }
  }

  /** Then no packet created at or after `t` arrives before `t` plus the delay filled in for `t`, and one arrives just then. */
  lemma {:induction false} SignalIsMinimum(
    m: map<nat, nat>, rs: seq<Record>, lo: nat, hi: nat, out: map<nat, nat>, t: nat)
    requires LeastDelays(m, rs) && FifoDepartures(rs)
    requires forall r :: r in rs && r.kind == Departure ==> r.delay <= r.time
    requires SignalDelay.Spans(m, lo, hi) && SignalDelay.Filled(m, lo, hi, out) && lo <= t <= hi
    ensures forall r :: r in rs && r.kind == Departure && t <= r.time - r.delay ==> t + out[t] <= r.time
    ensures exists r :: r in rs && r.kind == Departure && t <= r.time - r.delay && t + out[t] == r.time
  {
    FifoSamples(m, rs);
    SignalDelay.LeastIfFifo(m, lo, hi, out, t);
    forall r | r in rs && r.kind == Departure && t <= r.time - r.delay ensures t + out[t] <= r.time {
      var s: nat := r.time - r.delay;
      assert CreatedAt(r, s);
      LeastDelayIsLeast(rs, s);
      assert s in m;
    }
    var s :| s in m && t <= s && t + out[t] == s + m[s];
    LeastDelayIsLeast(rs, s);
    var r :| r in rs && CreatedAt(r, s) && LeastDelay(rs, s) == Some(r.delay);
  }

  // ---------- the analyser ----------

  datatype ReportError = InLog(error: LogError) | NoEvents | ZeroDuration | NoDepartures | NoCapacity | OneBin

  datatype Report = Report(
    pp50: nat, pp95: nat, pp99: nat,
    signalDelays: map<nat, nat>,
    earliestBin: int,
    occupancy: seq<int>)

  datatype Outcome = Reported(report: Report) | Died(error: ReportError)

  lemma {:induction false} NonEmpty(ks: set<int>)
    ensures ks == {} || exists k :: k in ks
  {
    if forall k :: k !in ks {
      assert ks == {};
    }
  }

  method KeyRange(ks: set<int>) returns (lo: int, hi: int)
    requires ks != {}
    ensures lo in ks && hi in ks && forall k :: k in ks ==> lo <= k <= hi
  {
    NonEmpty(ks);
    var first :| first in ks;
    lo, hi := first, first;
    var rest := ks - {first};
    while rest != {}
      invariant rest <= ks && lo in ks && hi in ks
      invariant forall k :: k in ks && k !in rest ==> lo <= k <= hi
      decreases rest
    {
      NonEmpty(rest);
      var k :| k in rest;
      lo, hi := Min(lo, k), Max(hi, k);
      rest := rest - {k};
    }
  }

  /** The first and last sampled creation time. */
  method SampleRange(m: map<nat, nat>) returns (lo: nat, hi: nat)
    requires m != map[]
    ensures SignalDelay.Spans(m, lo, hi)
  {
    var keys: set<int> := m.Keys;
    assert keys == {} ==> m == map[];
    var a, b := KeyRange(keys);
    lo, hi := a, b;
  }

  predicate Binned(r: Record) {
    r.kind == Arrival || r.kind == Departure || r.kind == Capacity
  }

  /** All events of a binned kind share one bin. */
  ghost predicate InOneBin(rs: seq<Record>, w: nat)
    requires w > 0
  {
    forall i, j :: 0 <= i < |rs| && 0 <= j < |rs| && Binned(rs[i]) && Binned(rs[j]) ==> BinOf(rs[i], w) == BinOf(rs[j], w)
  }

  /** Why a log whose lines are all in order still gives no report. */
  ghost function Refusal(rs: seq<Record>, w: nat): Option<ReportError> {
    if rs == [] then Some(NoEvents)
    else if rs[0].time == Latest(rs) then Some(ZeroDuration)
    else if Delays(rs) == [] then Some(NoDepartures)
    else if Total(rs, Capacity) == 0 then Some(NoCapacity)
    else if w > 0 && InOneBin(rs, w) then Some(OneBin)
    else None
  }

  lemma {:induction false} DelaysOfDepartures(rs: seq<Record>)
    ensures Delays(rs) == [] <==> forall r :: r in rs ==> r.kind != Departure
  {
    if rs != [] {
      var n := |rs| - 1;
      DelaysOfDepartures(rs[..n]);
      assert rs[n] in rs;
      assert forall r :: r in rs ==> r in rs[..n] || r == rs[n];
      assert forall r :: r in rs[..n] ==> r in rs;
    }
  }

  lemma {:induction false} NoBits(rs: seq<Record>, kind: Kind)
    ensures Total(rs, kind) == 0 <==> forall r :: r in rs && r.kind == kind ==> r.bits == 0
  {
    if rs != [] {
      var n := |rs| - 1;
      NoBits(rs[..n], kind);
      assert rs[n] in rs;
      assert forall r :: r in rs ==> r in rs[..n] || r == rs[n];
      assert forall r :: r in rs[..n] ==> r in rs;
    }
  }

  /** All counted events come at one time: none is later than the first. */
  ghost predicate NoDuration(rs: seq<Record>) {
    rs != [] && forall r :: r in rs ==> r.time <= rs[0].time
  }

  ghost predicate NoneDeparts(rs: seq<Record>) {
    forall r :: r in rs ==> r.kind != Departure
  }

  ghost predicate NoneUnused(rs: seq<Record>) {
    forall r :: r in rs && r.kind == Capacity ==> r.bits == 0
  }

  /** Why a log is refused: the first of five conditions on its counted events that holds. */
  lemma {:induction false} RefusalMeaning(rs: seq<Record>, w: nat)
    requires rs != [] ==> w > 0
    ensures Refusal(rs, w) == Some(NoEvents) <==> rs == []
    ensures Refusal(rs, w) == Some(ZeroDuration) <==> NoDuration(rs)
    ensures Refusal(rs, w) == Some(NoDepartures) <==> rs != [] && !NoDuration(rs) && NoneDeparts(rs)
    ensures Refusal(rs, w) == Some(NoCapacity) <==> rs != [] && !NoDuration(rs) && !NoneDeparts(rs) && NoneUnused(rs)
    ensures Refusal(rs, w) == Some(OneBin) <==>
            rs != [] && !NoDuration(rs) && !NoneDeparts(rs) && !NoneUnused(rs) && InOneBin(rs, w)
    ensures Refusal(rs, w) == None <==>
            rs != [] && !NoDuration(rs) && !NoneDeparts(rs) && !NoneUnused(rs) && !InOneBin(rs, w)
  {
    DelaysOfDepartures(rs);
    NoBits(rs, Capacity);
    if rs != [] {
      LatestIsLatest(rs);
      assert rs[0] in rs;
    }
    hide Delays, Total, Latest, InOneBin;
  }

  lemma {:induction false} DepartureSampled(m: map<nat, nat>, rs: seq<Record>)
    requires LeastDelays(m, rs) && Delays(rs) != []
    requires forall r :: r in rs && r.kind == Departure ==> r.delay <= r.time
    ensures m != map[]
  {
    var n := |rs| - 1;
    var i := DepartureAt(rs);
    LeastDelayIsLeast(rs, rs[i].time - rs[i].delay);
    assert CreatedAt(rs[i], rs[i].time - rs[i].delay);
    var t: nat := rs[i].time - rs[i].delay;
    assert t in m;
  }

  lemma {:induction false} DepartureAt(rs: seq<Record>) returns (i: nat)
    requires Delays(rs) != []
    ensures i < |rs| && rs[i].kind == Departure
  {
    if rs[|rs| - 1].kind == Departure {
      i := |rs| - 1;
    } else {
      i := DepartureAt(rs[..|rs| - 1]);
    }
  }

  lemma {:induction false} CountedAreSound(lines: seq<Line>, w: nat)
    requires TakeLines(lines, w).Ok?
    ensures forall r :: r in TakeLines(lines, w).value.records ==> r.time > 0 && r.delay <= r.time
  {
    if lines != [] {
      CountedAreSound(lines[..|lines| - 1], w);
    }
  }

  /** Some event of a binned kind falls into bin `b`. */
  ghost predicate Occupied(rs: seq<Record>, w: nat, b: int)
    requires w > 0
  {
    exists i :: 0 <= i < |rs| && Binned(rs[i]) && BinOf(rs[i], w) == b
  }

  /** The `n` bins from `lo` on are those from the first to the last one with an event of a binned kind. */
  ghost predicate CoversBins(rs: seq<Record>, w: nat, lo: int, n: nat)
    requires w > 0
  {
    && Occupied(rs, w, lo) && Occupied(rs, w, lo + n - 1)
    && forall i :: 0 <= i < |rs| && Binned(rs[i]) ==> lo <= BinOf(rs[i], w) < lo + n
  }

  /** `n` is the first creation time of a departed packet at or after `t`. */
  ghost predicate NextCreation(rs: seq<Record>, t: nat, n: nat) {
    t <= n && LeastDelay(rs, n).Some? && forall j: nat :: t <= j < n ==> LeastDelay(rs, j).None?
  }

  /** `t` lies between the first and the last creation time of a departed packet. */
  ghost predicate Sampled(rs: seq<Record>, t: nat) {
    (exists k: nat :: k <= t && LeastDelay(rs, k).Some?) && (exists n: nat :: t <= n && LeastDelay(rs, n).Some?)
  }

  /** For exactly those times `out` has a value, the wait for the next creation plus its least delay. */
  ghost predicate SignalOf(out: map<nat, nat>, rs: seq<Record>) {
    SignalTimes(out, rs) && SignalValues(out, rs)
  }

  ghost predicate SignalTimes(out: map<nat, nat>, rs: seq<Record>) {
    forall t: nat :: t in out <==> Sampled(rs, t)
  }

  ghost predicate SignalValues(out: map<nat, nat>, rs: seq<Record>) {
    forall k: nat, t: nat, n: nat :: LeastDelay(rs, k).Some? && k <= t && NextCreation(rs, t, n) ==>
      t in out && out[t] == n - t + LeastDelay(rs, n).value
  }

  /** What a report says about the events that were counted. */
  ghost predicate ReportsOn(r: Report, rs: seq<Record>, w: nat) {
    && w > 0
    && Delays(rs) != []
    && r.pp50 == Percentiles.Pick(Delays(rs), 50)
    && r.pp95 == Percentiles.Pick(Delays(rs), 95)
    && r.pp99 == Percentiles.Pick(Delays(rs), 99)
    && SignalOf(r.signalDelays, rs)
    && |r.occupancy| >= 2
    && CoversBins(rs, w, r.earliestBin, |r.occupancy|)
    && (forall i :: 0 <= i < |r.occupancy| ==>
          r.occupancy[i] == UpTo(rs, Arrival, w, r.earliestBin + i) - UpTo(rs, Departure, w, r.earliestBin + i))
    && r.occupancy[|r.occupancy| - 1] == Total(rs, Arrival) - Total(rs, Departure)
  }

  lemma {:induction false} NextIsNext(m: map<nat, nat>, rs: seq<Record>, t: nat, n: nat)
    requires LeastDelays(m, rs) && NextCreation(rs, t, n)
    ensures SignalDelay.IsNext(m, t, n) && m[n] == LeastDelay(rs, n).value
  {
    forall j: nat | t <= j < n ensures j !in m {
      assert LeastDelay(rs, j).None?;
    }
  }

  lemma {:induction false} FilledAt(m: map<nat, nat>, rs: seq<Record>, lo: nat, hi: nat, out: map<nat, nat>, k: nat, t: nat, n: nat)
    requires LeastDelays(m, rs) && SignalDelay.Spans(m, lo, hi) && SignalDelay.Filled(m, lo, hi, out)
    requires LeastDelay(rs, k).Some? && k <= t && NextCreation(rs, t, n)
    ensures t in out && out[t] == n - t + LeastDelay(rs, n).value
  {
    NextIsNext(m, rs, t, n);
    assert k in m && n in m;
  }

  lemma {:induction false} FilledDomain(m: map<nat, nat>, rs: seq<Record>, lo: nat, hi: nat, out: map<nat, nat>, t: nat)
    requires LeastDelays(m, rs) && SignalDelay.Spans(m, lo, hi) && SignalDelay.Filled(m, lo, hi, out)
    ensures t in out <==> Sampled(rs, t)
  {
    if lo <= t <= hi {
      assert LeastDelay(rs, lo).Some? && LeastDelay(rs, hi).Some?;
    }
    if k: nat, n: nat :| k <= t && LeastDelay(rs, k).Some? && t <= n && LeastDelay(rs, n).Some? {
      assert k in m && n in m;
    }
  }

  lemma {:induction false} SignalFilled(m: map<nat, nat>, rs: seq<Record>, lo: nat, hi: nat, out: map<nat, nat>)
    requires LeastDelays(m, rs) && SignalDelay.Spans(m, lo, hi) && SignalDelay.Filled(m, lo, hi, out)
    ensures SignalOf(out, rs)
  {
    SignalDomain(m, rs, lo, hi, out);
    SignalInside(m, rs, lo, hi, out);
    hide SignalTimes, SignalValues;
  }

  lemma {:induction false} SignalDomain(m: map<nat, nat>, rs: seq<Record>, lo: nat, hi: nat, out: map<nat, nat>)
    requires LeastDelays(m, rs) && SignalDelay.Spans(m, lo, hi) && SignalDelay.Filled(m, lo, hi, out)
    ensures SignalTimes(out, rs)
  {
    hide LeastDelays, SignalDelay.Spans, SignalDelay.Filled, Sampled;
    forall t: nat ensures t in out <==> Sampled(rs, t) {
      FilledDomain(m, rs, lo, hi, out, t);
    }
  }

  lemma {:induction false} SignalInside(m: map<nat, nat>, rs: seq<Record>, lo: nat, hi: nat, out: map<nat, nat>)
    requires LeastDelays(m, rs) && SignalDelay.Spans(m, lo, hi) && SignalDelay.Filled(m, lo, hi, out)
    ensures SignalValues(out, rs)
  {
    hide LeastDelays, SignalDelay.Spans, SignalDelay.Filled, NextCreation;
    forall k: nat, t: nat, n: nat | LeastDelay(rs, k).Some? && k <= t && NextCreation(rs, t, n)
      ensures LeastDelay(rs, n).Some? && t in out && out[t] == n - t + LeastDelay(rs, n).value
    {
      NextIsSome(rs, t, n);
      FilledAt(m, rs, lo, hi, out, k, t, n);
    }
  }

  lemma {:induction false} NextIsSome(rs: seq<Record>, t: nat, n: nat)
    requires NextCreation(rs, t, n)
    ensures t <= n && LeastDelay(rs, n).Some?
  {
  }

  /** The arithmetic behind the report of one log. */
  method Series(s: Stats, ghost rs: seq<Record>, w: nat) returns (lo: int, occ: seq<int>)
    requires w > 0 && Describes(s, rs, w) && s.departures != map[]
    ensures |occ| >= 1 && CoversBins(rs, w, lo, |occ|)
    ensures forall i :: 0 <= i < |occ| ==> occ[i] == UpTo(rs, Arrival, w, lo + i) - UpTo(rs, Departure, w, lo + i)
    ensures occ[|occ| - 1] == Total(rs, Arrival) - Total(rs, Departure)
    ensures |occ| == 1 <==> InOneBin(rs, w)
  {
    var keys := s.arrivals.Keys + s.capacity.Keys + s.departures.Keys;
    assert s.departures.Keys == {} ==> s.departures == map[];
    var hi;
    lo, hi := KeyRange(keys);
    occ := OccupancySeries(s.arrivals, s.departures, lo, hi);
    assert forall k :: k in s.arrivals || k in s.departures ==> k in keys;
    forall i | 0 <= i < |occ| ensures occ[i] == UpTo(rs, Arrival, w, lo + i) - UpTo(rs, Departure, w, lo + i) {
      OccupancyConserved(s.arrivals, s.departures, rs, w, lo, lo + i);
    }
    FinalOccupancy(s, rs, w, lo, hi);
    BinsCovered(s, rs, w, lo, hi);
    BinWitness(s, rs, w, lo);
    BinWitness(s, rs, w, hi);
  }

  lemma {:induction false} SeenWitness(rs: seq<Record>, kind: Kind, w: nat, b: int)
    requires w > 0 && Seen(rs, kind, w, b)
    ensures exists i :: 0 <= i < |rs| && rs[i].kind == kind && BinOf(rs[i], w) == b
  {
    var n := |rs| - 1;
    if !(rs[n].kind == kind && BinOf(rs[n], w) == b) {
      SeenWitness(rs[..n], kind, w, b);
      var i :| 0 <= i < n && rs[..n][i].kind == kind && BinOf(rs[..n][i], w) == b;
      assert rs[i] == rs[..n][i];
    }
  }

  lemma {:induction false} BinWitness(s: Stats, rs: seq<Record>, w: nat, b: int)
    requires w > 0 && Describes(s, rs, w)
    requires b in s.arrivals || b in s.departures || b in s.capacity
    ensures Occupied(rs, w, b)
  {
    var kind := if b in s.arrivals then Arrival else if b in s.departures then Departure else Capacity;
    SeenWitness(rs, kind, w, b);
  }

  lemma {:induction false} BinsCovered(s: Stats, rs: seq<Record>, w: nat, lo: int, hi: int)
    requires w > 0 && Describes(s, rs, w)
    requires forall k :: k in s.arrivals || k in s.departures || k in s.capacity ==> lo <= k <= hi
    ensures forall i :: 0 <= i < |rs| && Binned(rs[i]) ==> lo <= BinOf(rs[i], w) <= hi
  {
    forall i | 0 <= i < |rs| && Binned(rs[i]) ensures lo <= BinOf(rs[i], w) <= hi {
      SeenAt(rs, i, w);
    }
  }

  lemma {:induction false} DeparturesBinned(s: Stats, rs: seq<Record>, w: nat)
    requires w > 0 && Describes(s, rs, w) && Delays(rs) != []
    ensures s.departures != map[]
  {
    var i := DepartureAt(rs);
    SeenAt(rs, i, w);
    assert BinOf(rs[i], w) in s.departures;
  }

  /** The whole analysis of a log: the first error, a reason to refuse, or a report on the counted events. */
  method Analyse(lines: seq<Line>, msPerBin: nat) returns (r: Outcome)
    ensures TakeLines(lines, msPerBin).Err? ==> r == Died(InLog(TakeLines(lines, msPerBin).error))
    ensures TakeLines(lines, msPerBin).Ok? ==>
              var rs := TakeLines(lines, msPerBin).value.records;
              match Refusal(rs, msPerBin)
              case Some(e) => r == Died(e)
              case None => r.Reported? && ReportsOn(r.report, rs, msPerBin)
  {
    hide TakeLines, Describes, Refusal, ReportsOn;
    var log := ReadLog(lines, msPerBin);
    if log.Err? {
      return Died(InLog(log.error));
    }
    CountedAreSound(lines, msPerBin);
    r := AnalyseStats(log.value, TakeLines(lines, msPerBin).value.records, msPerBin);
  }

  method AnalyseStats(s: Stats, ghost rs: seq<Record>, w: nat) returns (r: Outcome)
    requires Describes(s, rs, w)
    requires forall x :: x in rs ==> x.time > 0 && x.delay <= x.time
    ensures match Refusal(rs, w)
            case Some(e) => r == Died(e)
            case None => r.Reported? && ReportsOn(r.report, rs, w)
  {
    hide Describes, Delays, InOneBin, SignalOf, CoversBins, Latest, Total, UpTo, LeastDelays, Percentiles.Pick, BinOf;
    DescribesAll(s, rs, w);
    if s.firstTime.None? {
      return Died(NoEvents);
    }
    if s.firstTime.value == s.lastTime.value {
      return Died(ZeroDuration);
    }
    if s.delays == [] {
      return Died(NoDepartures);
    }
    var pp95 := Percentile(s.delays, 95);
    var pp99 := Percentile(s.delays, 99);
    var pp50 := Percentile(s.delays, 50);
    var signal := SignalDelays(s, rs);
    if s.capacitySum == 0 {
      return Died(NoCapacity);
    }
    DeparturesBinned(s, rs, w);
    var lo, occ := Series(s, rs, w);
    if |occ| == 1 {
      return Died(OneBin);
    }
    r := Reported(Report(pp50, pp95, pp99, signal, lo, occ));
  }

  method SignalDelays(s: Stats, ghost rs: seq<Record>) returns (signal: map<nat, nat>)
    requires LeastDelays(s.signal, rs) && Delays(rs) != []
    requires forall x :: x in rs ==> x.time > 0 && x.delay <= x.time
    ensures SignalOf(signal, rs)
  {
    hide SignalOf, LeastDelays, SignalDelay.Spans, SignalDelay.Filled;
    DepartureSampled(s.signal, rs);
    var first, last := SampleRange(s.signal);
    signal := SignalDelay.Backfill(s.signal, first, last);
    SignalFilled(s.signal, rs, first, last, signal);
  }

  method Percentile(delays: seq<nat>, p: nat) returns (d: nat)
    requires delays != [] && p < 100
    ensures d == Percentiles.Pick(delays, p)
  {
    Percentiles.IndexInRange(p, |delays|);
    d := Percentiles.Sort(delays)[p * |delays| / 100];
  }

  lemma {:induction false} DescribesAll(s: Stats, rs: seq<Record>, w: nat)
    requires Describes(s, rs, w)
    ensures rs != [] ==> w > 0
    ensures DescribesTimes(s, rs) && DescribesDelays(s, rs)
    ensures w > 0 ==> s.capacitySum == Total(rs, Capacity)
  {
  }
}
