/**
 The evolutionary search: a resumable double loop over iterations and samples that only ever
 appends documents to a collection, and can be killed at any moment.
 */
module Evolution {
  import opened Words
  import opened Sampling

  /** Ids and code of the programs that a later program was mutated from. */
  datatype Parents = Parents(ids: seq<nat>, programs: seq<string>)

  /** One document; its id is its place in the collection. */
  datatype Doc = Doc(iter: nat, sample: nat, parents: Option<Parents>, result: Attempted)

  /** A program that was built and whose experiment ran. */
  predicate Valid(d: Doc) {
    d.result.buildStatus && d.result.experiment.Some? && d.result.experiment.value.Scored?
  }

  function Score(d: Doc): int
    requires Valid(d)
  {
    d.result.experiment.value.score
  }

  // ---------- choosing parents ----------

  /** collection.find: the ids of the valid programs of iterations up to `k`, in insertion order. */
  function Found(store: seq<Doc>, k: nat): (ids: seq<nat>)
    ensures forall i :: i in ids ==> i < |store| && Valid(store[i]) && store[i].iter <= k
  {
    if store == [] then [] else
    var n := |store| - 1;
    var ids := Found(store[..n], k);
    if Valid(store[n]) && store[n].iter <= k then ids + [n] else ids
  }

  predicate ValidIds(store: seq<Doc>, ids: seq<nat>) {
    forall i :: 0 <= i < |ids| ==> ids[i] < |store| && Valid(store[ids[i]])
  }

  /** The score with which `d` competes: its build succeeded, and so did its experiment. */
  ghost function Standing(d: Doc): Option<int> {
    match d.result
    case Attempted(_, _, true, Some(Scored(score))) => Some(score)
    case _ => None
  }

  lemma {:induction false} ValidStands(d: Doc)
    ensures Valid(d) <==> Standing(d).Some?
    ensures Valid(d) ==> Standing(d) == Some(Score(d))
  {
  }

  /** The document with id `i` may become a parent after iteration `k`. */
  ghost predicate Eligible(store: seq<Doc>, k: nat, i: nat) {
    i < |store| && Standing(store[i]).Some? && store[i].iter <= k
  }

  /** `i` ranks before `j`: a better score, or the same score and found earlier. */
  ghost predicate Ranks(store: seq<Doc>, i: nat, j: nat)
    requires i < |store| && j < |store|
  {
    && Standing(store[i]).Some? && Standing(store[j]).Some?
    && (Standing(store[i]).value > Standing(store[j]).value ||
        (Standing(store[i]) == Standing(store[j]) && i < j))
  }

  /** A newcomer goes after everything that scores at least as well: sorting in descending order is stable. */
  function InsertDescending(store: seq<Doc>, ids: seq<nat>, x: nat): (r: seq<nat>)
    requires ValidIds(store, ids) && x < |store| && Valid(store[x])
    ensures ValidIds(store, r) && |r| == |ids| + 1
  {
    if ids == [] || Score(store[x]) > Score(store[ids[0]]) then [x] + ids
    else [ids[0]] + InsertDescending(store, ids[1..], x)
  }

  /** sorted(..., key=score, reverse=True) */
  function SortDescending(store: seq<Doc>, ids: seq<nat>): (r: seq<nat>)
    requires ValidIds(store, ids)
    ensures ValidIds(store, r) && |r| == |ids|
  {
    if ids == [] then [] else
    InsertDescending(store, SortDescending(store, ids[..|ids| - 1]), ids[|ids| - 1])
  }

  function Ranking(store: seq<Doc>, k: nat): (r: seq<nat>)
    ensures ValidIds(store, r) && |r| == |Found(store, k)|
  {
    var ids := Found(store, k);
    assert forall i :: 0 <= i < |ids| ==> ids[i] in ids;
    SortDescending(store, ids)
  }

  /** The two parents that iteration k + 1 mutates; None stands for the ValueError. */
  function Select(store: seq<Doc>, k: nat): Option<Parents> {
    var ids := Ranking(store, k);
    if |ids| < 2 then None
    else Some(Parents([ids[0], ids[1]], [store[ids[0]].result.finalCode, store[ids[1]].result.finalCode]))
  }

  lemma {:induction false} FoundAll(store: seq<Doc>, k: nat)
    ensures forall i :: i in Found(store, k) <==> 0 <= i < |store| && Valid(store[i]) && store[i].iter <= k
    ensures forall i, j :: 0 <= i < j < |Found(store, k)| ==> Found(store, k)[i] < Found(store, k)[j]
  {
    if store != [] {
      var n := |store| - 1;
      FoundAll(store[..n], k);
      var ids := Found(store[..n], k);
      forall i | 0 <= i < |ids| ensures ids[i] < n {
        assert ids[i] in ids;
      }
    }
  }

  ghost predicate Ranked(store: seq<Doc>, ids: seq<nat>)
    requires ValidIds(store, ids)
  {
    forall i, j :: 0 <= i < j < |ids| ==> Ranks(store, ids[i], ids[j])
  }

  lemma {:induction false} InsertRanks(store: seq<Doc>, ids: seq<nat>, x: nat)
    requires ValidIds(store, ids) && x < |store| && Valid(store[x])
    requires Ranked(store, ids) && forall i :: 0 <= i < |ids| ==> ids[i] < x
    ensures Ranked(store, InsertDescending(store, ids, x))
    ensures forall i :: i in InsertDescending(store, ids, x) <==> i in ids || i == x
  {
    if ids != [] && Score(store[x]) <= Score(store[ids[0]]) {
      InsertRanks(store, ids[1..], x);
      var r := InsertDescending(store, ids[1..], x);
      assert ids == [ids[0]] + ids[1..];
      forall i | 0 <= i < |r| ensures Ranks(store, ids[0], r[i]) {
        assert r[i] in r;
        if r[i] != x {
          assert r[i] in ids[1..];
        }
      }
    }
  }

  lemma {:induction false} SortRanks(store: seq<Doc>, ids: seq<nat>)
    requires ValidIds(store, ids) && forall i, j :: 0 <= i < j < |ids| ==> ids[i] < ids[j]
    ensures Ranked(store, SortDescending(store, ids))
    ensures forall i :: i in SortDescending(store, ids) <==> i in ids
  {
    if ids != [] {
      var n := |ids| - 1;
      SortRanks(store, ids[..n]);
      var sorted := SortDescending(store, ids[..n]);
      forall i | 0 <= i < |sorted| ensures sorted[i] < ids[n] {
        assert sorted[i] in sorted;
        assert sorted[i] in ids[..n];
      }
      InsertRanks(store, sorted, ids[n]);
      assert ids == ids[..n] + [ids[n]];
    }
  }

  /** The ranking holds exactly the valid programs so far, best first, ties in insertion order. */
  lemma {:induction false} RankingIsSorted(store: seq<Doc>, k: nat)
    ensures Ranked(store, Ranking(store, k))
    ensures forall i :: i in Ranking(store, k) <==> Eligible(store, k, i)
  {
    FoundAll(store, k);
    SortRanks(store, Found(store, k));
  }

  /**
   The two parents outrank every other valid program, the first outranks the second, and each program recorded
   is the final code of the document whose id is recorded.
   */
  lemma {:induction false} ParentsDominate(store: seq<Doc>, k: nat)
    requires Select(store, k).Some?
    ensures var ids, programs := Select(store, k).value.ids, Select(store, k).value.programs;
            && |ids| == 2 && Eligible(store, k, ids[0]) && Eligible(store, k, ids[1]) && Ranks(store, ids[0], ids[1])
            && programs == [store[ids[0]].result.finalCode, store[ids[1]].result.finalCode]
            && forall i :: Eligible(store, k, i) && i != ids[0] && i != ids[1] ==> Ranks(store, ids[1], i)
  {
    RankingIsSorted(store, k);
    var r := Ranking(store, k);
    assert r[0] in r && r[1] in r;
    forall i | Eligible(store, k, i) && i != r[0] && i != r[1]
      ensures Ranks(store, r[1], i)
    {
      assert i in r;
      var j :| 0 <= j < |r| && r[j] == i;
      assert j > 1;
    }
  }

  /** There is a choice exactly when two programs are valid. */
  lemma {:induction false} TwoAreNeeded(store: seq<Doc>, k: nat)
    ensures Select(store, k).Some? <==> exists i, j :: i != j && Eligible(store, k, i) && Eligible(store, k, j)
  {
    var r := Ranking(store, k);
    assert Select(store, k).Some? <==> |r| >= 2;
    RankingIsSorted(store, k);
    hide Select, Ranking, Eligible;
    if |r| >= 2 {
      assert r[0] in r && r[1] in r && Ranks(store, r[0], r[1]);
    }
    if i, j :| i != j && Eligible(store, k, i) && Eligible(store, k, j) {
      assert i in r && j in r;
    }
  }

  /** The best score so far never gets worse from one iteration to the next. */
  lemma {:induction false} BestImproves(store: seq<Doc>, k: nat, k': nat)
    requires k <= k' && Ranking(store, k) != []
    ensures Ranking(store, k') != []
    ensures var best, best' := Standing(store[Ranking(store, k)[0]]), Standing(store[Ranking(store, k')[0]]);
            best.Some? && best'.Some? && best.value <= best'.value
  {
    RankingIsSorted(store, k);
    RankingIsSorted(store, k');
    var r, r' := Ranking(store, k), Ranking(store, k');
    assert r[0] in r;
    assert r[0] in r';
    assert r'[0] in r';
    var j :| 0 <= j < |r'| && r'[j] == r[0];
    assert j == 0 || Ranks(store, r'[0], r'[j]);
  }

  // ---------- what a run may append ----------

  /** What a run was started with. */
  datatype Args = Args(start: nat, end: nat, samples: nat, retries: nat)

  predicate Has(store: seq<Doc>, iter: nat, sample: nat) {
    exists m :: 0 <= m < |store| && store[m].iter == iter && store[m].sample == sample
  }

  /** Every sample of the iterations from `start` up to, not including, `iter` is stored. */
  ghost predicate CompleteBefore(store: seq<Doc>, a: Args, iter: nat) {
    forall i, j :: a.start <= i < iter && 0 <= j < a.samples ==> Has(store, i, j)
  }

  /** `d` may be appended to `store`. */
  ghost predicate MayAppend(store: seq<Doc>, a: Args, d: Doc) {
    && a.start <= d.iter < a.end && d.sample < a.samples
    && Sound(d.result, a.retries)
    && !Has(store, d.iter, d.sample)
    && CompleteBefore(store, a, d.iter)
    && (if d.iter == 0 then d.parents == None else d.parents == Select(store, d.iter - 1) && d.parents.Some?)
  }

  /** A run, killed or not, turned `before` into `after`: it appended documents, each of them allowed at its moment. */
  ghost predicate RunOf(a: Args, before: seq<Doc>, after: seq<Doc>) {
    && before <= after
    && (forall m :: |before| <= m < |after| ==> MayAppend(after[..m], a, after[m]))
  }

  /** Any number of runs, one after the other. */
  ghost predicate RunsOf(a: Args, stores: seq<seq<Doc>>) {
    stores != [] && forall i, j :: 0 <= i && j == i + 1 < |stores| ==> RunOf(a, stores[i], stores[j])
  }

  lemma {:induction false} RunsCompose(a: Args, s: seq<Doc>, t: seq<Doc>, u: seq<Doc>)
    requires RunOf(a, s, t) && RunOf(a, t, u)
    ensures RunOf(a, s, u)
  {
    forall m | |s| <= m < |u| ensures MayAppend(u[..m], a, u[m]) {
      if m < |t| {
        assert u[..m] == t[..m] && u[m] == t[m];
      }
    }
  }

  /** Crashing and restarting with the same arguments is one long run. */
  lemma {:induction false} RestartsAreOneRun(a: Args, stores: seq<seq<Doc>>)
    requires RunsOf(a, stores)
    ensures RunOf(a, stores[0], stores[|stores| - 1])
  {
    var n := |stores| - 1;
    if n > 0 {
      assert RunsOf(a, stores[..n]);
      RestartsAreOneRun(a, stores[..n]);
      RunsCompose(a, stores[0], stores[n - 1], stores[n]);
    }
  }

  /** No pair of iteration and sample is ever stored a second time. */
  lemma {:induction false} NoPairTwice(a: Args, before: seq<Doc>, after: seq<Doc>, m: nat, m': nat)
    requires RunOf(a, before, after)
    requires m < m' < |after| && |before| <= m'
    ensures !(after[m].iter == after[m'].iter && after[m].sample == after[m'].sample)
  {
    assert MayAppend(after[..m'], a, after[m']);
    assert after[..m'][m] == after[m];
  }

  lemma {:induction false} FoundFrozen(store: seq<Doc>, longer: seq<Doc>, k: nat)
    requires store <= longer
    requires forall m :: |store| <= m < |longer| ==> longer[m].iter > k
    ensures Found(longer, k) == Found(store, k)
    decreases |longer|
  {
    if |longer| > |store| {
      var n := |longer| - 1;
      FoundFrozen(store, longer[..n], k);
    } else {
      assert longer == store;
    }
  }

  lemma {:induction false} InsertFrozen(store: seq<Doc>, longer: seq<Doc>, ids: seq<nat>, x: nat)
    requires store <= longer && ValidIds(store, ids) && x < |store| && Valid(store[x])
    ensures ValidIds(longer, ids) && InsertDescending(longer, ids, x) == InsertDescending(store, ids, x)
  {
    if ids != [] {
      InsertFrozen(store, longer, ids[1..], x);
    }
  }

  lemma {:induction false} SortFrozen(store: seq<Doc>, longer: seq<Doc>, ids: seq<nat>)
    requires store <= longer && ValidIds(store, ids)
    ensures ValidIds(longer, ids) && SortDescending(longer, ids) == SortDescending(store, ids)
  {
    if ids != [] {
      var n := |ids| - 1;
      SortFrozen(store, longer, ids[..n]);
      InsertFrozen(store, longer, SortDescending(store, ids[..n]), ids[n]);
    }
  }

  /** Documents of later iterations do not change which parents are chosen. */
  lemma {:induction false} SelectFrozen(store: seq<Doc>, longer: seq<Doc>, k: nat)
    requires store <= longer
    requires forall m :: |store| <= m < |longer| ==> longer[m].iter > k
    ensures Select(longer, k) == Select(store, k)
  {
    FoundFrozen(store, longer, k);
    SortFrozen(store, longer, Found(store, k));
  }

  /** Once a document of iteration k is there, nothing of an earlier iteration is added any more. */
  lemma {:induction false} EarlierFrozen(a: Args, before: seq<Doc>, after: seq<Doc>, m: nat, j: nat)
    requires RunOf(a, before, after)
    requires |before| <= m <= j < |after|
    ensures after[j].iter >= after[m].iter
  {
    var d, e := after[m], after[j];
    assert MayAppend(after[..m], a, d) && MayAppend(after[..j], a, e);
    if e.iter < d.iter {
      HasStays(after, m, j, e.iter, e.sample);
      assert false;
    }
  }

  lemma {:induction false} HasStays(store: seq<Doc>, m: nat, j: nat, iter: nat, sample: nat)
    requires m <= j <= |store| && Has(store[..m], iter, sample)
    ensures Has(store[..j], iter, sample)
  {
    var i :| 0 <= i < m && store[..m][i].iter == iter && store[..m][i].sample == sample;
    assert store[..j][i] == store[..m][i];
  }

  lemma {:induction false} SelectionFrozen(a: Args, before: seq<Doc>, after: seq<Doc>, m: nat, m': nat)
    requires RunOf(a, before, after)
    requires |before| <= m <= m' < |after| && after[m].iter > 0
    ensures Select(after[..m'], after[m].iter - 1) == Select(after[..m], after[m].iter - 1)
  {
    hide Select, MayAppend;
    var longer := after[..m'];
    forall j | m <= j < m' ensures longer[j].iter > after[m].iter - 1 {
      EarlierFrozen(a, before, after, m, j);
    }
    assert after[..m] <= longer;
    SelectFrozen(after[..m], longer, after[m].iter - 1);
  }

  /**
   All documents of one iteration record the same parents, however often the search was killed and
   restarted while that iteration was being sampled.
   */
  lemma {:induction false} SameParents(a: Args, before: seq<Doc>, after: seq<Doc>, m: nat, m': nat)
    requires RunOf(a, before, after)
    requires |before| <= m <= m' < |after| && after[m].iter == after[m'].iter
    ensures after[m].parents == after[m'].parents
  {
    hide Select, Has, CompleteBefore;
    assert MayAppend(after[..m], a, after[m]) && MayAppend(after[..m'], a, after[m']);
    if after[m].iter > 0 {
      SelectionFrozen(a, before, after, m, m');
    }
  }

  // ---------- completed runs ----------

  ghost predicate PairsDiffer(store: seq<Doc>) {
    forall m, m' :: 0 <= m < m' < |store| ==> store[m].iter != store[m'].iter || store[m].sample != store[m'].sample
  }

  /** A collection without duplicates stays without. */
  lemma {:induction false} PairsStayUnique(a: Args, before: seq<Doc>, after: seq<Doc>)
    requires RunOf(a, before, after) && PairsDiffer(before)
    ensures PairsDiffer(after)
  {
    forall m, m' | 0 <= m < m' < |after| ensures after[m].iter != after[m'].iter || after[m].sample != after[m'].sample {
      if m' >= |before| {
        NoPairTwice(a, before, after, m, m');
      } else {
        assert after[m] == before[m] && after[m'] == before[m'];
      }
    }
  }

  /** One document of the collection, and only one, is for this pair. */
  ghost predicate StoredOnce(store: seq<Doc>, iter: nat, sample: nat) {
    exists m ::
      && 0 <= m < |store| && store[m].iter == iter && store[m].sample == sample
      && forall m' :: 0 <= m' < |store| && store[m'].iter == iter && store[m'].sample == sample ==> m' == m
  }

  lemma {:induction false} HeldOnce(store: seq<Doc>, iter: nat, sample: nat)
    requires PairsDiffer(store) && Has(store, iter, sample)
    ensures StoredOnce(store, iter, sample)
  {
    var m :| 0 <= m < |store| && store[m].iter == iter && store[m].sample == sample;
    assert forall m' :: 0 <= m' < |store| && store[m'].iter == iter && store[m'].sample == sample ==> m' == m;
  }

  /** Every pair of the range is stored, and none twice. */
  ghost predicate EachOnce(store: seq<Doc>, a: Args) {
    forall i, j :: a.start <= i < a.end && 0 <= j < a.samples ==> StoredOnce(store, i, j)
  }

  /** Once runs on a collection without duplicates have completed the range, each of its pairs is stored exactly once. */
  lemma {:induction false} EachPairOnce(a: Args, before: seq<Doc>, after: seq<Doc>)
    requires RunOf(a, before, after) && PairsDiffer(before) && CompleteBefore(after, a, a.end)
    ensures EachOnce(after, a)
  {
    PairsStayUnique(a, before, after);
    hide Has, StoredOnce, PairsDiffer;
    forall i, j | a.start <= i < a.end && 0 <= j < a.samples ensures StoredOnce(after, i, j) {
      HeldOnce(after, i, j);
    }
  }

  /** Running a completed range again stores nothing. */
  lemma {:induction false} RepeatStoresNothing(a: Args, before: seq<Doc>, after: seq<Doc>)
    requires CompleteBefore(before, a, a.end) && RunOf(a, before, after)
    ensures after == before
  {
    if |after| > |before| {
      assert after[..|before|] == before;
      CompleteIsClosed(a, before, after[|before|]);
      assert false;
    }
  }

  lemma {:induction false} CompleteIsClosed(a: Args, store: seq<Doc>, d: Doc)
    requires CompleteBefore(store, a, a.end)
    ensures !MayAppend(store, a, d)
  {
    assert a.start <= d.iter < a.end && d.sample < a.samples ==> Has(store, d.iter, d.sample);
  }

  // ---------- the runner ----------

  datatype End =
    | Finished                   // the loop ran to its end
    | Killed                     // the process was stopped from outside
    | TooFewPrograms             // ValueError in get_priority_programs
    | SampleCrashed(crash: Crash)

  /** A run ends for a reason that the collection still shows. */
  ghost predicate EndsFor(end: End, a: Args, store: seq<Doc>, oracles: (nat, nat) -> Oracle) {
    match end
    case Finished => CompleteBefore(store, a, a.end)
    case Killed =>
      exists i, j :: a.start <= i < a.end && 0 <= j < a.samples && !Has(store, i, j)
    case TooFewPrograms =>
      exists k: nat :: a.start <= k + 1 < a.end && CompleteBefore(store, a, k + 1) && Select(store, k).None?
    case SampleCrashed(c) =>
      exists i, j, stale :: a.start <= i < a.end && 0 <= j < a.samples && !Has(store, i, j)
                            && Sampled(oracles(i, j), a.retries, stale) == Crashed(c)
  }

  /** Every document from `m` on records what its own answers, builds and experiment gave. */
  ghost predicate Records(store: seq<Doc>, from: nat, a: Args, oracles: (nat, nat) -> Oracle) {
    forall m :: from <= m < |store| ==>
      Sampled(oracles(store[m].iter, store[m].sample), a.retries, None) == Completed(store[m].result)
  }

  function Below(i: nat): set<nat> {
    if i == 0 then {} else Below(i - 1) + {i - 1}
  }

  lemma {:induction false} BelowHolds(i: nat, j: nat)
    ensures j in Below(i) <==> j < i
  {
    if i > 0 {
      BelowHolds(i - 1, j);
    }
  }

  /** The naming loop of the constructor: the least number that no existing collection uses. */
  method FreshNumber(used: set<nat>) returns (i: nat)
    ensures i !in used && forall j: nat :: j < i ==> j in used
  {
    i := 0;
    while i in used
      invariant forall j: nat :: j < i ==> j in used
      decreases |used - Below(i)|
    {
      BelowHolds(i, i);
      assert used - Below(i + 1) == used - Below(i) - {i};
      i := i + 1;
    }
  }

  class EvolutionRunner {
    const args: Args
    var collection: seq<Doc>
    var priorityPrograms: Option<Parents>

    constructor (args: Args, collection: seq<Doc>)
      ensures this.args == args && this.collection == collection
    {
      this.args := args;
      this.collection := collection;
      priorityPrograms := None;
    }

    /** get_priority_programs; false stands for the ValueError. */
    method GetPriorityPrograms(k: nat) returns (ok: bool)
      modifies this`priorityPrograms
      ensures ok <==> Select(collection, k).Some?
      ensures ok ==> priorityPrograms == Select(collection, k)
    {
      var ids := Ranking(collection, k);
      if |ids| < 2 {
        return false;
      }
      priorityPrograms := Some(Parents([ids[0], ids[1]],
        [collection[ids[0]].result.finalCode, collection[ids[1]].result.finalCode]));
      ok := true;
    }

    /** find_one: is the pair already stored? */
    method FindOne(iter: nat, sample: nat) returns (found: bool)
      ensures found == Has(collection, iter, sample)
    {
      found := false;
      var m := 0;
      while m < |collection|
        invariant 0 <= m <= |collection|
        invariant !found && !Has(collection[..m], iter, sample)
      {
        if collection[m].iter == iter && collection[m].sample == sample {
          return true;
        }
        m := m + 1;
      }
      assert collection[..m] == collection;
    }

    /** The body of the sample loop. `end` is None when the loop goes on; `room` is false when the kill comes first. */
    method EvolveSample(oracles: (nat, nat) -> Oracle, iter: nat, sample: nat, stale: Option<bool>, room: bool)
      returns (end: Option<End>, success: Option<bool>)
      requires args.start <= iter < args.end && sample < args.samples
      requires CompleteBefore(collection, args, iter)
      requires iter > 0 ==> priorityPrograms.Some? && priorityPrograms == Select(collection, iter - 1)
      modifies this`collection
      ensures RunOf(args, old(collection), collection)
      ensures Extends(old(collection), collection, iter)
      ensures Records(collection, |old(collection)|, args, oracles)
      ensures |collection| <= |old(collection)| + (if room then 1 else 0)
      ensures end.None? ==> Has(collection, iter, sample)
      ensures end.Some? ==> !end.value.Finished? && EndsFor(end.value, args, collection, oracles)
      ensures end == Some(Killed) ==> !room
    {
      hide Select, Sampled, Sound;
      success := stale;
      var found := FindOne(iter, sample);
      if found {
        return None, success;
      }
      var outcome;
      var o := oracles(iter, sample);
      outcome, success := Sample(o, args.retries, stale);
      if outcome.Crashed? {
        assert Sampled(oracles(iter, sample), args.retries, stale) == Crashed(outcome.crash);
        return Some(SampleCrashed(outcome.crash)), success;
      }
      if !room {
        return Some(Killed), success;
      }
      CompletedIsSound(o, args.retries, stale);
      CompletedIgnoresStale(o, args.retries, stale);
      var d := Doc(iter, sample, if iter == 0 then None else priorityPrograms, outcome.sample);
      assert MayAppend(collection, args, d);
      AppendIsRun(args, collection, collection, d);
      AppendExtends(collection, d);
      collection := collection + [d];
      end := None;
    }

    /** The body of the iteration loop: parents are chosen once, before the samples. */
    method EvolveIteration(oracles: (nat, nat) -> Oracle, iter: nat, stale: Option<bool>, killAfter: nat)
      returns (end: Option<End>, success: Option<bool>)
      requires args.start <= iter < args.end && CompleteBefore(collection, args, iter)
      modifies this
      ensures RunOf(args, old(collection), collection)
      ensures Records(collection, |old(collection)|, args, oracles)
      ensures |collection| <= |old(collection)| + killAfter
      ensures end.None? ==> CompleteBefore(collection, args, iter + 1)
      ensures end.Some? ==> !end.value.Finished? && EndsFor(end.value, args, collection, oracles)
      ensures end == Some(Killed) ==> |collection| == |old(collection)| + killAfter
    {
      hide Select, RunOf, Has;
      var had := |collection|;
      success := stale;
      end := None;
      NothingAppended(args, collection, iter);
      if iter > 0 {
        var ok := GetPriorityPrograms(iter - 1);
        if !ok {
          return Some(TooFewPrograms), success;
        }
      }
      var sample := 0;
      while sample < args.samples
        invariant 0 <= sample <= args.samples && end.None?
        invariant RunOf(args, old(collection), collection) && Extends(old(collection), collection, iter)
        invariant Records(collection, |old(collection)|, args, oracles)
        invariant |collection| <= |old(collection)| + killAfter
        invariant CompleteBefore(collection, args, iter)
        invariant forall j :: 0 <= j < sample ==> Has(collection, iter, j)
        invariant iter > 0 ==> priorityPrograms.Some? && priorityPrograms == Select(collection, iter - 1)
      {
        ghost var before := collection;
        end, success := EvolveSample(oracles, iter, sample, success, |collection| < had + killAfter);
        RunsCompose(args, old(collection), before, collection);
        ExtendsKeeps(args, before, collection, iter);
        if end.Some? {
          return;
        }
        sample := sample + 1;
      }
      IterationComplete(args, collection, iter);
    }

    /**
     evolve, with the model, the builds and the experiments given by `oracles`, killed just before it would
     insert document number `killAfter` of this run. Whatever the end, it has a reason, and what was stored is
     a legitimate run.
     */
    method Evolve(oracles: (nat, nat) -> Oracle, killAfter: nat) returns (end: End)
      modifies this
      ensures RunOf(args, old(collection), collection)
      ensures Records(collection, |old(collection)|, args, oracles)
      ensures |collection| <= |old(collection)| + killAfter
      ensures EndsFor(end, args, collection, oracles)
      ensures end.Killed? ==> |collection| == |old(collection)| + killAfter
      ensures end.Finished? && PairsDiffer(old(collection)) ==> EachOnce(collection, args)
    {
      var had := |collection|;
      var success: Option<bool> := None;
      var iter := args.start;
      assert CompleteBefore(collection, args, iter);
      NothingAppended(args, collection, iter);
      hide RunOf, Has, Select, PairsDiffer, EachOnce;
      while iter < args.end
        invariant args.start <= iter
        invariant RunOf(args, old(collection), collection)
        invariant old(collection) <= collection && |collection| <= |old(collection)| + killAfter
        invariant Records(collection, |old(collection)|, args, oracles)
        invariant CompleteBefore(collection, args, iter)
      {
        ghost var before := collection;
        var room := had + killAfter - |collection|;
        var stop;
        stop, success := EvolveIteration(oracles, iter, success, room);
        RunsCompose(args, old(collection), before, collection);
        RunExtends(args, old(collection), collection);
        if stop.Some? {
          return stop.value;
        }
        iter := iter + 1;
      }
      if PairsDiffer(old(collection)) {
        EachPairOnce(args, old(collection), collection);
      }
      end := Finished;
    }
  }

  /** `longer` adds only documents of iteration `iter`. */
  ghost predicate Extends(store: seq<Doc>, longer: seq<Doc>, iter: nat) {
    store <= longer && forall m :: |store| <= m < |longer| ==> longer[m].iter == iter
  }

  lemma {:induction false} AppendExtends(store: seq<Doc>, d: Doc)
    ensures Extends(store, store + [d], d.iter)
  {
  }

  lemma {:induction false} NothingAppended(a: Args, store: seq<Doc>, iter: nat)
    ensures RunOf(a, store, store) && Extends(store, store, iter)
  {
  }

  lemma {:induction false} RunExtends(a: Args, before: seq<Doc>, after: seq<Doc>)
    requires RunOf(a, before, after)
    ensures before <= after
  {
  }

  lemma {:induction false} HasKept(store: seq<Doc>, longer: seq<Doc>)
    requires store <= longer
    ensures forall i, j :: Has(store, i, j) ==> Has(longer, i, j)
  {
    forall i, j | Has(store, i, j) ensures Has(longer, i, j) {
      var m :| 0 <= m < |store| && store[m].iter == i && store[m].sample == j;
      assert longer[m] == store[m];
    }
  }

  /** Adding documents of iteration `iter` keeps what was complete, and the parents chosen for it. */
  lemma {:induction false} ExtendsKeeps(a: Args, store: seq<Doc>, longer: seq<Doc>, iter: nat)
    requires Extends(store, longer, iter)
    ensures forall i, j :: Has(store, i, j) ==> Has(longer, i, j)
    ensures CompleteBefore(store, a, iter) ==> CompleteBefore(longer, a, iter)
    ensures iter > 0 ==> Select(longer, iter - 1) == Select(store, iter - 1)
  {
    HasKept(store, longer);
    hide Has, Select;
    if iter > 0 {
      SelectFrozen(store, longer, iter - 1);
    }
  }

  lemma {:induction false} IterationComplete(a: Args, store: seq<Doc>, iter: nat)
    requires CompleteBefore(store, a, iter)
    requires forall j :: 0 <= j < a.samples ==> Has(store, iter, j)
    ensures CompleteBefore(store, a, iter + 1)
  {
  }

  lemma {:induction false} AppendIsRun(a: Args, before: seq<Doc>, store: seq<Doc>, d: Doc)
    requires RunOf(a, before, store) && MayAppend(store, a, d)
    ensures RunOf(a, before, store + [d])
    ensures Has(store + [d], d.iter, d.sample)
  {
    hide MayAppend;
    var longer := store + [d];
    forall m | |before| <= m < |longer| ensures MayAppend(longer[..m], a, longer[m]) {
      assert longer[..m] == store[..m] && (m == |store| ==> longer[..m] == store);
    }
    assert longer[|store|] == d;
  }
}
