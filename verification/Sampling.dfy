/**
 One sample of the search: ask the model for code, build it, and ask again while building fails
 and attempts are left.
 */
module Sampling {
  import opened Words

  /** What happens to one sample: the code blocks of the k-th answer, whether the k-th build succeeds, the experiment. */
  datatype Oracle = Oracle(
    respond: nat -> seq<string>,
    build: nat -> bool,
    experiment: Experiment)

  /** run_experiment: a score, or a failed status. */
  datatype Experiment = Scored(score: int) | Failed

  datatype Revision = Built(code: string, success: bool) | NoCode

  datatype Crash = IndexError | NameError | AssertionFailed

  /** What a sample contributes to its document. */
  datatype Attempted = Attempted(
    revisions: seq<Revision>,
    finalCode: string,
    buildStatus: bool,
    experiment: Option<Experiment>)

  datatype Outcome = Completed(sample: Attempted) | Crashed(crash: Crash)

  /** The revisions from attempt `k` on; None when an answer has no code block at all. */
  function Revisions(o: Oracle, n: nat, k: nat): Option<seq<Revision>>
    requires k <= n
    decreases n - k
  {
    if k == n then Some([])
    else if o.respond(k) == [] then None
    else
      var code := o.respond(k)[0];
      var r := if code == [] then NoCode else Built(code, o.build(k));
      if code != [] && (r.success || k == n - 1) then Some([r])
      else match Revisions(o, n, k + 1)
        case None => None
        case Some(rest) => Some([r] + rest)
  }

  /** The newest revision that was built at all. */
  function LastBuilt(rs: seq<Revision>): Option<Revision> {
    if rs == [] then None
    else if rs[|rs| - 1].Built? then Some(rs[|rs| - 1])
    else LastBuilt(rs[..|rs| - 1])
  }

  /** What the sample amounts to, given the value that `success` still has from an earlier sample. */
  function Sampled(o: Oracle, n: nat, stale: Option<bool>): Outcome {
    match Revisions(o, n, 0)
    case None => Crashed(IndexError)
    case Some(rs) =>
      match LastBuilt(rs)
      case None => Crashed(if stale.None? then NameError else AssertionFailed)
      case Some(last) =>
        if last.Built? then
          Completed(Attempted(rs, last.code, last.success, if last.success then Some(o.experiment) else None))
        else Crashed(NameError)
  }

  lemma {:induction false} LastBuiltIsNewest(rs: seq<Revision>)
    ensures LastBuilt(rs).None? <==> forall i :: 0 <= i < |rs| ==> rs[i].NoCode?
    ensures LastBuilt(rs).Some? ==>
              && LastBuilt(rs).value.Built?
              && (exists i :: 0 <= i < |rs| && rs[i] == LastBuilt(rs).value && forall j :: i < j < |rs| ==> rs[j].NoCode?)
  {
    if rs != [] && rs[|rs| - 1].NoCode? {
      LastBuiltIsNewest(rs[..|rs| - 1]);
      if LastBuilt(rs).Some? {
        var head := rs[..|rs| - 1];
        var i :| 0 <= i < |head| && head[i] == LastBuilt(rs).value && forall j :: i < j < |head| ==> head[j].NoCode?;
        assert rs[i] == LastBuilt(rs).value;
        assert forall j :: i < j < |rs| ==> rs[j].NoCode?;
      }
    }
  }

  /** At most one revision per attempt, and nothing is tried after a build that succeeds. */
  lemma {:induction false} RetriesStop(o: Oracle, n: nat, k: nat)
    requires k <= n && Revisions(o, n, k).Some?
    ensures var rs := Revisions(o, n, k).value;
            && |rs| <= n - k
            && (forall i :: 0 <= i < |rs| - 1 ==> !(rs[i].Built? && rs[i].success))
    decreases n - k
  {
    if k < n && Revisions(o, n, k + 1).Some? {
      RetriesStop(o, n, k + 1);
    }
  }

  // ---------- when a sample crashes ----------

  /** The k-th answer has a first block that is not empty. */
  predicate HasCode(o: Oracle, k: nat) {
    o.respond(k) != [] && o.respond(k)[0] != []
  }

  /** From attempt `k` on, an answer without any block is asked for: no attempt before it builds successfully. */
  predicate RunsDry(o: Oracle, n: nat, k: nat) {
    exists j :: k <= j < n && o.respond(j) == [] && forall i :: k <= i < j ==> !(HasCode(o, i) && o.build(i))
  }

  predicate AnyCode(o: Oracle, n: nat, k: nat) {
    exists j :: k <= j < n && HasCode(o, j)
  }

  lemma {:induction false} RunsDryStep(o: Oracle, n: nat, k: nat)
    requires k < n
    ensures RunsDry(o, n, k) <==> o.respond(k) == [] || (!(HasCode(o, k) && o.build(k)) && RunsDry(o, n, k + 1))
  {
    if RunsDry(o, n, k) {
      var j :| k <= j < n && o.respond(j) == [] && forall i :: k <= i < j ==> !(HasCode(o, i) && o.build(i));
      assert j == k || k + 1 <= j;
    }
    if !(HasCode(o, k) && o.build(k)) && RunsDry(o, n, k + 1) {
      var j :| k + 1 <= j < n && o.respond(j) == [] && forall i :: k + 1 <= i < j ==> !(HasCode(o, i) && o.build(i));
      assert forall i :: k <= i < j ==> !(HasCode(o, i) && o.build(i));
    }
  }

  /** The loop meets an answer without a block exactly if it is asked for one. */
  lemma {:induction false} NoBlockEndsLoop(o: Oracle, n: nat, k: nat)
    requires k <= n
    ensures Revisions(o, n, k).None? <==> RunsDry(o, n, k)
    decreases n - k
  {
    if k < n {
      RunsDryStep(o, n, k);
      NoBlockEndsLoop(o, n, k + 1);
    }
  }

  lemma {:induction false} AnyCodeStep(o: Oracle, n: nat, k: nat)
    requires k < n
    ensures AnyCode(o, n, k) <==> HasCode(o, k) || AnyCode(o, n, k + 1)
  {
    if AnyCode(o, n, k) {
      var j :| k <= j < n && HasCode(o, j);
      assert j == k || k + 1 <= j;
    }
  }

  ghost predicate AnyBuilt(rs: seq<Revision>) {
    exists i :: 0 <= i < |rs| && rs[i].Built?
  }

  lemma {:induction false} AnyBuiltCons(r: Revision, rs: seq<Revision>)
    ensures AnyBuilt([r] + rs) <==> r.Built? || AnyBuilt(rs)
  {
    if AnyBuilt(rs) {
      var i :| 0 <= i < |rs| && rs[i].Built?;
      assert ([r] + rs)[i + 1].Built?;
    }
    assert ([r] + rs)[0] == r;
  }

  /** A loop that meets no such answer builds something exactly if one of the first n first blocks is not empty. */
  lemma {:induction false} NonEmptyBlockIsBuilt(o: Oracle, n: nat, k: nat)
    requires k <= n && Revisions(o, n, k).Some?
    ensures AnyBuilt(Revisions(o, n, k).value) <==> AnyCode(o, n, k)
    decreases n - k
  {
    if k < n {
      AnyCodeStep(o, n, k);
      var r := if HasCode(o, k) then Built(o.respond(k)[0], o.build(k)) else NoCode;
      if r.Built? && (r.success || k == n - 1) {
        AnyBuiltCons(r, []);
        assert [r] + [] == [r];
      } else {
        NonEmptyBlockIsBuilt(o, n, k + 1);
        AnyBuiltCons(r, Revisions(o, n, k + 1).value);
      }
    }
  }

  /**
   How a sample ends, in terms of the answers and builds. An answer without a block that is asked for crashes it;
   otherwise the sanity check at the end passes exactly if one of the n first blocks is not empty, and if none is,
   `success` is unbound, or left over from an earlier sample and different from the missing status.
   */
  lemma {:induction false} SanityCheckHolds(o: Oracle, n: nat, stale: Option<bool>)
    ensures Sampled(o, n, stale) == Crashed(IndexError) <==> RunsDry(o, n, 0)
    ensures Sampled(o, n, stale).Completed? <==> !RunsDry(o, n, 0) && AnyCode(o, n, 0)
    ensures Sampled(o, n, stale) == Crashed(NameError) <==> !RunsDry(o, n, 0) && !AnyCode(o, n, 0) && stale.None?
    ensures Sampled(o, n, stale) == Crashed(AssertionFailed) <==> !RunsDry(o, n, 0) && !AnyCode(o, n, 0) && stale.Some?
  {
    NoBlockEndsLoop(o, n, 0);
    if Revisions(o, n, 0).Some? {
      NonEmptyBlockIsBuilt(o, n, 0);
      LastBuiltIsNewest(Revisions(o, n, 0).value);
    }
    hide RunsDry, AnyCode, Revisions, LastBuilt;
  }

  /**
   Code and build status come from one revision, the newest that was built; there are at most `n` revisions,
   nothing follows a successful build, and the experiment ran exactly for a successful one.
   */
  ghost predicate Sound(a: Attempted, n: nat) {
    && |a.revisions| <= n
    && (exists i :: 0 <= i < |a.revisions| && a.revisions[i] == Built(a.finalCode, a.buildStatus)
          && forall j :: i < j < |a.revisions| ==> a.revisions[j].NoCode?)
    && (forall i :: 0 <= i < |a.revisions| - 1 ==> !(a.revisions[i].Built? && a.revisions[i].success))
    && (a.experiment.Some? <==> a.buildStatus)
  }

  lemma {:induction false} CompletedIsSound(o: Oracle, n: nat, stale: Option<bool>)
    requires Sampled(o, n, stale).Completed?
    ensures Sound(Sampled(o, n, stale).sample, n)
  {
    LastBuiltIsNewest(Revisions(o, n, 0).value);
    RetriesStop(o, n, 0);
  }

  // ---------- what a completed sample records ----------

  /** Attempt `k` as its answer and its build determine it. */
  ghost predicate AttemptIs(r: Revision, o: Oracle, k: nat) {
    if HasCode(o, k) then r == Built(o.respond(k)[0], o.build(k)) else r == NoCode
  }

  /** The loop ends after `n` attempts, or with one whose code builds successfully. */
  ghost predicate EndsAfter(o: Oracle, n: nat, k: nat) {
    k == n || (0 < k < n && HasCode(o, k - 1) && o.build(k - 1))
  }

  lemma {:induction false} RevisionsAreAttempts(o: Oracle, n: nat, k: nat)
    requires k <= n && Revisions(o, n, k).Some?
    ensures var rs := Revisions(o, n, k).value;
            && k + |rs| <= n
            && (forall i: nat :: i < |rs| ==> AttemptIs(rs[i], o, k + i))
            && (k < n ==> rs != [] && EndsAfter(o, n, k + |rs|))
    decreases n - k
  {
    if k < n {
      var r := if HasCode(o, k) then Built(o.respond(k)[0], o.build(k)) else NoCode;
      var rs := Revisions(o, n, k).value;
      assert rs[0] == r;
      if !(r.Built? && (r.success || k == n - 1)) {
        RevisionsAreAttempts(o, n, k + 1);
        var rest := Revisions(o, n, k + 1).value;
        assert rs == [r] + rest;
        forall i: nat | i < |rs| ensures AttemptIs(rs[i], o, k + i) {
          if i > 0 {
            assert rs[i] == rest[i - 1] && AttemptIs(rest[i - 1], o, (k + 1) + (i - 1));
          }
        }
      }
    }
  }

  /** `rs` are the attempts, each as determined, up to the one that ended the loop. */
  ghost predicate AreAttempts(rs: seq<Revision>, o: Oracle, n: nat) {
    var k := |rs|;
    && EndsAfter(o, n, k)
    && (forall i: nat :: i < k ==> AttemptIs(rs[i], o, i))
    && (forall i: nat :: i < k - 1 ==> !(HasCode(o, i) && o.build(i)))
  }

  lemma {:induction false} RevisionsEnd(o: Oracle, n: nat)
    requires n > 0 && Revisions(o, n, 0).Some?
    ensures AreAttempts(Revisions(o, n, 0).value, o, n)
  {
    var rs := Revisions(o, n, 0).value;
    RevisionsAreAttempts(o, n, 0);
    RetriesStop(o, n, 0);
    hide Revisions;
    forall i: nat | i < |rs| - 1 ensures !(HasCode(o, i) && o.build(i)) {
      assert AttemptIs(rs[i], o, i);
    }
  }

  /** Attempt `j` is the newest of the first `k` whose answer has code. */
  ghost predicate NewestCode(o: Oracle, k: nat, j: nat) {
    j < k && HasCode(o, j) && forall i: nat :: j < i < k ==> !HasCode(o, i)
  }

  lemma {:induction false} LastBuiltHasCode(o: Oracle, n: nat, rs: seq<Revision>) returns (j: nat)
    requires AreAttempts(rs, o, n) && LastBuilt(rs).Some?
    ensures NewestCode(o, |rs|, j) && LastBuilt(rs) == Some(Built(o.respond(j)[0], o.build(j)))
  {
    LastBuiltIsNewest(rs);
    j :| j < |rs| && rs[j] == LastBuilt(rs).value && forall i :: j < i < |rs| ==> rs[i].NoCode?;
    hide LastBuilt;
    assert AttemptIs(rs[j], o, j);
    forall i: nat | j < i < |rs| ensures !HasCode(o, i) {
      assert AttemptIs(rs[i], o, i);
    }
  }

  /**
   The document holds each attempt up to the one that ended the loop, the code and the outcome of the newest
   one with code, and, exactly if that one was built, the result of the experiment.
   */
  ghost predicate Follows(a: Attempted, o: Oracle, n: nat) {
    && AreAttempts(a.revisions, o, n)
    && (exists j :: NewestCode(o, |a.revisions|, j) && a.finalCode == o.respond(j)[0] && a.buildStatus == o.build(j))
    && a.experiment == if a.buildStatus then Some(o.experiment) else None
  }

  lemma {:induction false} CompletedFollows(o: Oracle, n: nat, stale: Option<bool>)
    requires Sampled(o, n, stale).Completed?
    ensures Follows(Sampled(o, n, stale).sample, o, n)
  {
    RevisionsEnd(o, n);
    var j := LastBuiltHasCode(o, n, Revisions(o, n, 0).value);
    hide Revisions, LastBuilt, AreAttempts, NewestCode;
    assert NewestCode(o, |Sampled(o, n, stale).sample.revisions|, j);
  }

  /** Only a crash depends on what an earlier sample left behind. */
  lemma {:induction false} CompletedIgnoresStale(o: Oracle, n: nat, stale: Option<bool>)
    requires Sampled(o, n, stale).Completed?
    ensures Sampled(o, n, None) == Sampled(o, n, stale)
  {
  }

  lemma {:induction false} LastBuiltSnoc(rs: seq<Revision>, r: Revision)
    ensures LastBuilt(rs + [r]) == if r.Built? then Some(r) else LastBuilt(rs)
  {
    assert (rs + [r])[..|rs|] == rs;
  }

  /** `done` in front of what later attempts add. */
  function Prepend(done: seq<Revision>, later: Option<seq<Revision>>): Option<seq<Revision>> {
    match later
    case None => None
    case Some(rest) => Some(done + rest)
  }

  lemma {:induction false} PrependNothing(later: Option<seq<Revision>>)
    ensures Prepend([], later) == later
  {
    match later
    case None =>
    case Some(rest) => assert [] + rest == rest;
  }

  lemma {:induction false} PrependOne(done: seq<Revision>, r: Revision, later: Option<seq<Revision>>)
    ensures Prepend(done + [r], later) == Prepend(done, Prepend([r], later))
  {
    match later
    case None =>
    case Some(rest) => assert (done + [r]) + rest == done + ([r] + rest);
  }

  /** The body of the sample loop, from the first answer to the finished document. `success` outlives the sample. */
  method Sample(o: Oracle, n: nat, stale: Option<bool>) returns (r: Outcome, success: Option<bool>)
    ensures r == Sampled(o, n, stale)
    ensures r.Completed? ==> success == Some(r.sample.buildStatus)
  {
    success := stale;
    var revisions: seq<Revision> := [];
    var finalCode: Option<string> := None;
    var buildStatus: Option<bool> := None;
    var segs := o.respond(0);
    var attempt := 0;
    PrependNothing(Revisions(o, n, 0));
    while attempt < n
      invariant 0 <= attempt <= n
      invariant segs == o.respond(attempt)
      invariant Revisions(o, n, 0) == Prepend(revisions, Revisions(o, n, attempt))
      invariant match LastBuilt(revisions)
                case None => finalCode == None && buildStatus == None && success == stale
                case Some(b) => b.Built? && finalCode == Some(b.code) && buildStatus == success == Some(b.success)
    {
      if segs == [] {
        return Crashed(IndexError), success;
      }
      var code := segs[0];
      PrependOne(revisions, if |code| > 0 then Built(code, o.build(attempt)) else NoCode, Revisions(o, n, attempt + 1));
      if |code| > 0 {
        var built := o.build(attempt);
        success := Some(built);
        LastBuiltSnoc(revisions, Built(code, built));
        revisions := revisions + [Built(code, built)];
        finalCode := Some(code);
        buildStatus := success;
        if built || attempt == n - 1 {
          break;
        }
      } else {
        LastBuiltSnoc(revisions, NoCode);
        revisions := revisions + [NoCode];
      }
      attempt := attempt + 1;
      segs := o.respond(attempt);
    }
    assert revisions + [] == revisions;
    assert Revisions(o, n, 0) == Some(revisions);
    if success.None? {
      return Crashed(NameError), success;
    }
    if buildStatus != success {
      return Crashed(AssertionFailed), success;
    }
    var experiment := None;
    if success.value {
      experiment := Some(o.experiment);
    }
    r := Completed(Attempted(revisions, finalCode.value, buildStatus.value, experiment));
  }
}
