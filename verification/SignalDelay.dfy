/**
 Signal delay per millisecond: the least time a message created at time t needs to reach the receiver,
 filled in backwards between the times for which a departure was logged.
 */
module SignalDelay {
  /** `n` is the first sampled time at or after `t`. */
  ghost predicate IsNext(samples: map<nat, nat>, t: nat, n: nat) {
    t <= n && n in samples && forall k :: t <= k < n ==> k !in samples
  }

  /** `lo` and `hi` are the first and last sampled times. */
  ghost predicate Spans(samples: map<nat, nat>, lo: nat, hi: nat) {
    lo in samples && hi in samples && forall k :: k in samples ==> lo <= k <= hi
  }

  /** Between the first and last sample every time is filled with what waiting for the next sample would cost. */
  ghost predicate Filled(samples: map<nat, nat>, from: nat, hi: nat, out: map<nat, nat>) {
    && (forall t: nat :: t in out <==> t in samples || from <= t <= hi)
    && (forall t :: t in samples ==> out[t] == samples[t])
    && (forall t: nat, n: nat :: from <= t <= hi && IsNext(samples, t, n) ==> out[t] == n - t + samples[n])
  }

  lemma {:induction false} NextExists(samples: map<nat, nat>, t: nat, hi: nat) returns (n: nat)
    requires hi in samples && t <= hi
    ensures IsNext(samples, t, n) && n <= hi
    decreases hi - t
  {
    if t in samples {
      n := t;
    } else {
      n := NextExists(samples, t + 1, hi);
    }
  }

  /** One more millisecond, filled from the one after it. */
  lemma {:induction false} FillOne(samples: map<nat, nat>, ts: nat, hi: nat, out: map<nat, nat>)
    requires hi in samples && ts < hi && ts !in samples
    requires Filled(samples, ts + 1, hi, out)
    ensures ts !in out && ts + 1 in out && Filled(samples, ts, hi, out[ts := out[ts + 1] + 1])
  {
    var m := NextExists(samples, ts + 1, hi);
    var out' := out[ts := out[ts + 1] + 1];
    forall t: nat, n: nat | ts <= t <= hi && IsNext(samples, t, n) ensures out'[t] == n - t + samples[n] {
      if t == ts {
        assert n == m;
      }
    }
  }

  lemma {:induction false} KeepSample(samples: map<nat, nat>, ts: nat, hi: nat, out: map<nat, nat>)
    requires ts in samples && ts <= hi
    requires Filled(samples, ts + 1, hi, out)
    ensures Filled(samples, ts, hi, out)
  {
    forall t: nat, n: nat | ts <= t <= hi && IsNext(samples, t, n) ensures out[t] == n - t + samples[n] {
      assert t == ts ==> n == ts;
    }
  }

  /** The descending loop over milliseconds. */
  method Backfill(samples: map<nat, nat>, lo: nat, hi: nat) returns (out: map<nat, nat>)
    requires Spans(samples, lo, hi)
    ensures Filled(samples, lo, hi, out)
  {
    out := samples;
    var ts: int := hi;
    while ts >= lo
      invariant lo - 1 <= ts <= hi
      invariant Filled(samples, ts + 1, hi, out)
    {
      if ts !in out {
        FillOne(samples, ts, hi, out);
        out := out[ts := out[ts + 1] + 1];
      } else {
        KeepSample(samples, ts, hi, out);
      }
      ts := ts - 1;
    }
  }

  /** No sampled time is overtaken: whoever is created later also arrives no earlier. */
  ghost predicate Fifo(samples: map<nat, nat>) {
    forall s, t :: s in samples && t in samples && s <= t ==> s + samples[s] <= t + samples[t]
  }

  /** `out[t]` is the least time to the receiver over everything sampled at or after `t`. */
  ghost predicate IsLeast(samples: map<nat, nat>, t: nat, d: nat) {
    && (forall s :: s in samples && t <= s ==> t + d <= s + samples[s])
    && (exists s :: s in samples && t <= s && t + d == s + samples[s])
  }

  lemma {:induction false} LeastIfFifo(samples: map<nat, nat>, lo: nat, hi: nat, out: map<nat, nat>, t: nat)
    requires Spans(samples, lo, hi) && Filled(samples, lo, hi, out)
    requires Fifo(samples) && lo <= t <= hi
    ensures IsLeast(samples, t, out[t])
  {
    var n := NextExists(samples, t, hi);
    assert out[t] == n - t + samples[n];
  }

  lemma {:induction false} FifoIfLeast(samples: map<nat, nat>, lo: nat, hi: nat, out: map<nat, nat>)
    requires Spans(samples, lo, hi) && Filled(samples, lo, hi, out)
    requires forall t: nat :: lo <= t <= hi ==> IsLeast(samples, t, out[t])
    ensures Fifo(samples)
  {
    forall s, t | s in samples && t in samples && s <= t ensures s + samples[s] <= t + samples[t] {
      assert IsLeast(samples, s, out[s]);
    }
  }

  /** The filled-in values are true minima, for every time, exactly when samples are first-in first-out. */
  lemma {:induction false} FilledIsLeast(samples: map<nat, nat>, lo: nat, hi: nat, out: map<nat, nat>)
    requires Spans(samples, lo, hi) && Filled(samples, lo, hi, out)
    ensures (forall t: nat :: lo <= t <= hi ==> IsLeast(samples, t, out[t])) <==> Fifo(samples)
  {
    hide IsLeast, Fifo;
    if Fifo(samples) {
      forall t: nat | lo <= t <= hi ensures IsLeast(samples, t, out[t]) {
        LeastIfFifo(samples, lo, hi, out, t);
      }
    }
    if forall t: nat :: lo <= t <= hi ==> IsLeast(samples, t, out[t]) {
      FifoIfLeast(samples, lo, hi, out);
    }
  }

  /** With first-in first-out samples, waiting to create a message never lets it arrive earlier. */
  lemma {:induction false} ArrivalsNondecreasing(samples: map<nat, nat>, lo: nat, hi: nat, out: map<nat, nat>, s: nat, t: nat)
    requires Spans(samples, lo, hi) && Filled(samples, lo, hi, out) && Fifo(samples)
    requires lo <= s <= t <= hi
    ensures s + out[s] <= t + out[t]
  {
    var n := NextExists(samples, t, hi);
    LeastIfFifo(samples, lo, hi, out, s);
    assert out[t] == n - t + samples[n];
  }
}
