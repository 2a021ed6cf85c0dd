/**
 Two clocks in one ring: the control callback stamps events with the machine's clock,
 the other callbacks with the time since the flow started.
 */
module Clocks {
  import opened Words
  import opened Telemetry
  import opened Segmentation
  import opened WindowProperties

  /** The time stamp a callback of kind `k` takes at machine time `clock`. */
  function Stamp(startTs: u64, clock: u64, k: Kind): u64 {
    if k.Control? then clock else Sub64(clock, startTs)
  }

  /** The machine time at which an event was stamped. */
  function RealTime(startTs: u64, o: Obs): u64 {
    if o.kind.Control? then o.now else Trunc64(o.now + startTs)
  }

  lemma {:induction false} RealTimeOfStamp(startTs: u64, clock: u64, acked: u64, k: Kind)
    ensures RealTime(startTs, Obs(Stamp(startTs, clock, k), acked, k)) == clock
  {
  }

  /** Machine time does not go back and stays in the lower half of its range. */
  ghost predicate Steady(startTs: u64, os: seq<Obs>) {
    && Nondecreasing(os, (o: Obs) => RealTime(startTs, o))
    && (forall o :: o in os ==> RealTime(startTs, o) < 0x8000_0000_0000_0000)
  }

  /** All events of the segment were stamped by the same clock. */
  ghost predicate OneClock(s: Segment) {
    forall o :: o in s.rest ==> o.kind.Control? == s.first.kind.Control?
  }

  /**
   `o` comes while the other clock's stamps fall into the window that `s` opened: after a control event that is
   the millisecond from start_ts on, and after any other event what is left of 1 ms once start_ts has passed,
   which is nothing for a start_ts of 1 ms or more.
   */
  ghost predicate Crosses(startTs: u64, s: Segment, o: Obs) {
    var gap := RealTime(startTs, o) - RealTime(startTs, s.first);
    if s.first.kind.Control? then !o.kind.Control? && startTs <= gap < startTs + MIN_WINDOW_NS
    else o.kind.Control? && gap + startTs < MIN_WINDOW_NS
  }

  /** Exactly when an event joins a window that the other clock opened. */
  lemma {:induction false} JoinsAcrossClocks(startTs: u64, s: Segment, o: Obs)
    requires startTs < 0x8000_0000_0000_0000
    requires RealTime(startTs, s.first) <= RealTime(startTs, o) < 0x8000_0000_0000_0000
    requires o.kind.Control? != s.first.kind.Control?
    ensures !Late(s, o) <==> Crosses(startTs, s, o)
  {
  }

  // ---------- which runs mix the clocks ----------

  /** Event `k` joins the window in use across the clocks. */
  ghost predicate CrossesAt(startTs: u64, os: seq<Obs>, k: nat)
    requires k < |os|
  {
    var segs := Segments(os[..k]);
    segs != [] && Crosses(startTs, segs[|segs| - 1], os[k])
  }

  ghost predicate OneClockEach(segs: seq<Segment>) {
    forall i :: 0 <= i < |segs| ==> OneClock(segs[i])
  }

  lemma {:induction false} SnocOneClock(s: Segment, o: Obs)
    ensures OneClock(s.Snoc(o)) <==> OneClock(s) && o.kind.Control? == s.first.kind.Control?
  {
    assert s.Snoc(o).rest[|s.rest|] == o;
    forall x | x in s.rest ensures x in s.Snoc(o).rest {
    }
  }

  lemma {:induction false} FirstOneClock(o: Obs)
    ensures OneClock(Segment(o, []))
  {
  }

  lemma {:induction false} PlaceOneClock(segs: seq<Segment>, o: Obs)
    ensures OneClockEach(Place(segs, o)) <==>
            OneClockEach(segs) &&
            (segs == [] || Late(segs[|segs| - 1], o) || o.kind.Control? == segs[|segs| - 1].first.kind.Control?)
  {
    FirstOneClock(o);
    hide OneClock, Late;
    var n := |segs| - 1;
    assert forall i :: 0 <= i < n ==> Place(segs, o)[i] == segs[i];
    if segs == [] || Late(segs[n], o) {
      assert Place(segs, o) == segs + [Segment(o, [])];
      assert forall i :: 0 <= i < |segs| ==> Place(segs, o)[i] == segs[i];
    } else {
      SnocOneClock(segs[n], o);
      assert Place(segs, o)[n] == segs[n].Snoc(o);
    }
  }

  lemma {:induction false} SteadyPrefix(startTs: u64, os: seq<Obs>)
    requires os != [] && Steady(startTs, os)
    ensures var n := |os| - 1;
            && Steady(startTs, os[..n])
            && RealTime(startTs, os[n]) < 0x8000_0000_0000_0000
            && (n > 0 ==> RealTime(startTs, os[n - 1]) <= RealTime(startTs, os[n]))
  {
    var n := |os| - 1;
    var key := (o: Obs) => RealTime(startTs, o);
    assert os[n] in os;
    assert n > 0 ==> key(os[n - 1]) <= key(os[n]);
    forall o | o in os[..n] ensures o in os {
    }
  }

  /** A later event comes no earlier than the first one of the newest segment. */
  lemma {:induction false} AfterOpening(startTs: u64, os: seq<Obs>, o: Obs)
    requires os != [] && Nondecreasing(os, (e: Obs) => RealTime(startTs, e))
    requires RealTime(startTs, os[|os| - 1]) <= RealTime(startTs, o)
    ensures RealTime(startTs, Segments(os)[|Segments(os)| - 1].first) <= RealTime(startTs, o)
  {
    var key := (e: Obs) => RealTime(startTs, e);
    SegmentsAscend(os, key);
    NewestSegmentEndsRun(os);
    assert Spans(Segments(os)[|Segments(os)| - 1], key);
  }

  ghost predicate NeverCrosses(startTs: u64, os: seq<Obs>) {
    forall k: nat :: k < |os| ==> !CrossesAt(startTs, os, k)
  }

  lemma {:induction false} NeverCrossesSnoc(startTs: u64, os: seq<Obs>)
    requires os != []
    ensures var n := |os| - 1; NeverCrosses(startTs, os) <==> NeverCrosses(startTs, os[..n]) && !CrossesAt(startTs, os, n)
  {
    hide Crosses, Segments;
    var n := |os| - 1;
    forall k: nat | k < n ensures CrossesAt(startTs, os[..n], k) == CrossesAt(startTs, os, k) {
      assert os[..n][..k] == os[..k];
    }
  }

  lemma {:induction false} NewestCrosses(startTs: u64, head: seq<Obs>, o: Obs)
    requires startTs < 0x8000_0000_0000_0000 && Nondecreasing(head, (e: Obs) => RealTime(startTs, e))
    requires RealTime(startTs, o) < 0x8000_0000_0000_0000
    requires head != [] ==> RealTime(startTs, head[|head| - 1]) <= RealTime(startTs, o)
    ensures var segs := Segments(head);
            head != [] ==>
              (Crosses(startTs, segs[|segs| - 1], o) <==>
               !Late(segs[|segs| - 1], o) && o.kind.Control? != segs[|segs| - 1].first.kind.Control?)
  {
    if head != [] {
      AfterOpening(startTs, head, o);
      var s := Segments(head)[|Segments(head)| - 1];
      if o.kind.Control? != s.first.kind.Control? {
        JoinsAcrossClocks(startTs, s, o);
      }
    }
  }

  /**
   On a machine clock that does not go back, the windows of a run keep the two clocks apart exactly if no
   event comes while the other clock's stamps fall into the window in use.
   */
  lemma {:induction false} SeparateExactly(startTs: u64, os: seq<Obs>)
    requires startTs < 0x8000_0000_0000_0000 && Steady(startTs, os)
    ensures OneClockEach(Segments(os)) <==> NeverCrosses(startTs, os)
  {
    if os != [] {
      var n := |os| - 1;
      var head, o := os[..n], os[n];
      SteadyPrefix(startTs, os);
      SeparateExactly(startTs, head);
      PlaceOneClock(Segments(head), o);
      NeverCrossesSnoc(startTs, os);
      NewestCrosses(startTs, head, o);
      hide OneClockEach, NeverCrosses, Late, RealTime, Crosses, Place, Steady;
    }
  }

  // ---------- a pace that is enough ----------

  /** Consecutive events are at least 1 ms less than start_ts apart. */
  ghost predicate Frequent(startTs: u64, os: seq<Obs>) {
    forall i, j :: 0 <= i && j == i + 1 < |os| ==>
      RealTime(startTs, os[j]) - RealTime(startTs, os[i]) + MIN_WINDOW_NS <= startTs
  }

  /** All events of a segment of control events come within 1 ms. */
  lemma {:induction false} ControlSegmentIsShort(startTs: u64, s: Segment)
    requires s.first.kind.Control? && OneClock(s) && InTime(s)
    requires RealTime(startTs, s.first) <= RealTime(startTs, s.Last())
    ensures RealTime(startTs, s.Last()) - RealTime(startTs, s.first) < MIN_WINDOW_NS
  {
    assert s.rest != [] ==> s.Last() in s.rest;
  }

  /** At that pace no event can be the first one to cross. */
  lemma {:induction false} PacedEventDoesNotCross(startTs: u64, head: seq<Obs>, o: Obs)
    requires MIN_WINDOW_NS <= startTs < 0x8000_0000_0000_0000
    requires head != [] && Steady(startTs, head) && OneClockEach(Segments(head))
    requires RealTime(startTs, head[|head| - 1]) <= RealTime(startTs, o) < 0x8000_0000_0000_0000
    requires RealTime(startTs, o) - RealTime(startTs, head[|head| - 1]) + MIN_WINDOW_NS <= startTs
    ensures var segs := Segments(head);
            Late(segs[|segs| - 1], o) || o.kind.Control? == segs[|segs| - 1].first.kind.Control?
  {
    var key := (e: Obs) => RealTime(startTs, e);
    var s := Segments(head)[|Segments(head)| - 1];
    SegmentsGreedy(head);
    SegmentsAscend(head, key);
    NewestSegmentEndsRun(head);
    assert Spans(s, key) && InTime(s) && OneClock(s);
    NewestCrosses(startTs, head, o);
    if s.first.kind.Control? {
      ControlSegmentIsShort(startTs, s);
    }
  }

  /** If events keep coming at that pace, no window ever mixes the two clocks. */
  lemma {:induction false} ClocksStaySeparate(startTs: u64, os: seq<Obs>)
    requires MIN_WINDOW_NS <= startTs < 0x8000_0000_0000_0000
    requires Steady(startTs, os) && Frequent(startTs, os)
    ensures OneClockEach(Segments(os))
  {
    if os != [] {
      var n := |os| - 1;
      var head, o := os[..n], os[n];
      SteadyPrefix(startTs, os);
      ClocksStaySeparate(startTs, head);
      if head != [] {
        assert head[n - 1] == os[n - 1];
        PacedEventDoesNotCross(startTs, head, o);
      }
      PlaceOneClock(Segments(head), o);
    }
  }

  /** A pace merely below start_ts is not enough: the last acknowledgement joins a window of control events. */
  lemma {:induction false} SlowerPaceMixesClocks()
    ensures var startTs: u64 := 1_000_000;
            var os := [Obs(1_000_000, 0, Control(2)), Obs(1_900_000, 0, Control(2)), Obs(1_899_999, 0, Ack(1, 0, 0))];
            && (forall i, j :: 0 <= i && j == i + 1 < |os| ==> 0 <= RealTime(startTs, os[j]) - RealTime(startTs, os[i]) < startTs)
            && |Segments(os)| == 1 && !OneClock(Segments(os)[0])
  {
    var a, b, c := Obs(1_000_000, 0, Control(2)), Obs(1_900_000, 0, Control(2)), Obs(1_899_999, 0, Ack(1, 0, 0));
    var s := Segment(a, [b, c]);
    assert Flatten([s]) == [a, b, c] by {
      FlattenSnoc([], s);
      assert [] + [s] == [s];
    }
    GreedyUnique([s]);
    assert c in s.rest;
  }

  /** A flow that starts at time 0, or that never takes control decisions, has one monotone clock. */
  lemma {:induction false} SingleClock(startTs: u64, os: seq<Obs>)
    requires Nondecreasing(os, (o: Obs) => RealTime(startTs, o))
    requires startTs == 0 || forall o :: o in os ==> !o.kind.Control? && startTs <= RealTime(startTs, o)
    ensures Nondecreasing(os, (o: Obs) => o.now)
  {
    var clock := (o: Obs) => RealTime(startTs, o);
    forall i, j | 0 <= i < j < |os| ensures os[i].now <= os[j].now {
      assert clock(os[i]) <= clock(os[j]) && os[i] in os && os[j] in os;
    }
  }
}
