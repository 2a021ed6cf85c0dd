/** Ranking a heuristic among baselines, and comparing miss ratios with a FIFO cache. */
module Rankings {
  import opened Words

  datatype Entry = Entry(name: string, ratio: real)

  // ---------- table.py: the rank of a heuristic ----------

  /** Where list.sort puts a newcomer that was appended last: after everything that is not larger. */
  function InsertStable(xs: seq<Entry>, e: Entry): (r: seq<Entry>)
    ensures |r| == |xs| + 1
  {
    if xs == [] || e.ratio < xs[0].ratio then [e] + xs else [xs[0]] + InsertStable(xs[1..], e)
  }

  function SortStable(xs: seq<Entry>): (r: seq<Entry>)
    ensures |r| == |xs|
  {
    if xs == [] then [] else InsertStable(SortStable(xs[..|xs| - 1]), xs[|xs| - 1])
  }

  ghost predicate Ascending(xs: seq<Entry>) {
    forall i, j :: 0 <= i < j < |xs| ==> xs[i].ratio <= xs[j].ratio
  }

  lemma {:induction false} InsertAscends(xs: seq<Entry>, e: Entry)
    requires Ascending(xs)
    ensures Ascending(InsertStable(xs, e))
    ensures forall i :: 0 <= i < |xs| + 1 ==>
              (InsertStable(xs, e)[i].ratio == e.ratio ||
               exists j :: 0 <= j < |xs| && InsertStable(xs, e)[i].ratio == xs[j].ratio)
  {
    if xs != [] && !(e.ratio < xs[0].ratio) {
      InsertAscends(xs[1..], e);
      var rest := InsertStable(xs[1..], e);
      forall i | 0 <= i < |rest|
        ensures xs[0].ratio <= rest[i].ratio
        ensures rest[i].ratio == e.ratio || exists j :: 0 <= j < |xs| && rest[i].ratio == xs[j].ratio
      {
        if rest[i].ratio != e.ratio {
          var j :| 0 <= j < |xs| - 1 && rest[i].ratio == xs[1..][j].ratio;
          assert xs[1..][j] == xs[j + 1];
        }
      }
    }
  }

  lemma {:induction false} SortAscends(xs: seq<Entry>)
    ensures Ascending(SortStable(xs))
  {
    if xs != [] {
      SortAscends(xs[..|xs| - 1]);
      InsertAscends(SortStable(xs[..|xs| - 1]), xs[|xs| - 1]);
    }
  }

  /** How many entries have a ratio of at most `r`. */
  function AtMost(xs: seq<Entry>, r: real): nat {
    if xs == [] then 0 else (if xs[0].ratio <= r then 1 else 0) + AtMost(xs[1..], r)
  }

  function NamedAtMost(xs: seq<Entry>, name: string, r: real): nat {
    if xs == [] then 0 else (if xs[0].name == name && xs[0].ratio <= r then 1 else 0) + NamedAtMost(xs[1..], name, r)
  }

  lemma {:induction false} CountsOfInsert(xs: seq<Entry>, e: Entry, name: string, r: real)
    ensures AtMost(InsertStable(xs, e), r) == AtMost(xs, r) + if e.ratio <= r then 1 else 0
    ensures NamedAtMost(InsertStable(xs, e), name, r) ==
            NamedAtMost(xs, name, r) + if e.name == name && e.ratio <= r then 1 else 0
  {
    if xs != [] && !(e.ratio < xs[0].ratio) {
      CountsOfInsert(xs[1..], e, name, r);
    } else {
      assert ([e] + xs)[1..] == xs;
    }
  }

  lemma {:induction false} CountsSnoc(xs: seq<Entry>, e: Entry, name: string, r: real)
    ensures AtMost(xs + [e], r) == AtMost(xs, r) + if e.ratio <= r then 1 else 0
    ensures NamedAtMost(xs + [e], name, r) == NamedAtMost(xs, name, r) + if e.name == name && e.ratio <= r then 1 else 0
  {
    if xs == [] {
      assert [] + [e] == [e];
    } else {
      assert (xs + [e])[1..] == xs[1..] + [e];
      CountsSnoc(xs[1..], e, name, r);
    }
  }

  lemma {:induction false} CountsOfSort(xs: seq<Entry>, name: string, r: real)
    ensures AtMost(SortStable(xs), r) == AtMost(xs, r)
    ensures NamedAtMost(SortStable(xs), name, r) == NamedAtMost(xs, name, r)
  {
    if xs != [] {
      var head, e := xs[..|xs| - 1], xs[|xs| - 1];
      CountsOfSort(head, name, r);
      CountsOfInsert(SortStable(head), e, name, r);
      CountsSnoc(head, e, name, r);
      assert xs == head + [e];
    }
  }

  /** In a sorted list the entries that are not larger than `r` come first. */
  lemma {:induction false} AtMostIsPrefix(xs: seq<Entry>, r: real)
    requires Ascending(xs)
    ensures AtMost(xs, r) <= |xs|
    ensures forall i :: 0 <= i < |xs| ==> (i < AtMost(xs, r) <==> xs[i].ratio <= r)
  {
    if xs != [] && xs[0].ratio <= r {
      AtMostIsPrefix(xs[1..], r);
    } else {
      NoneAtMost(xs, r);
    }
  }

  /** The newcomer ends up right behind the entries that are not larger. */
  lemma {:induction false} NewcomerPosition(xs: seq<Entry>, e: Entry)
    requires Ascending(xs)
    ensures AtMost(xs, e.ratio) <= |xs|
    ensures InsertStable(xs, e) == xs[..AtMost(xs, e.ratio)] + [e] + xs[AtMost(xs, e.ratio)..]
  {
    if xs != [] && !(e.ratio < xs[0].ratio) {
      NewcomerPosition(xs[1..], e);
      var n := AtMost(xs[1..], e.ratio);
      assert xs[..n + 1] == [xs[0]] + xs[1..][..n];
      assert xs[n + 1..] == xs[1..][n..];
    } else {
      NoneAtMost(xs, e.ratio);
    }
  }

  lemma {:induction false} NoneAtMost(xs: seq<Entry>, r: real)
    requires forall i :: 0 <= i < |xs| ==> r < xs[i].ratio
    ensures AtMost(xs, r) == 0
  {
    if xs != [] {
      NoneAtMost(xs[1..], r);
    }
  }

  /** Index of the first entry with this name. */
  function FirstNamed(xs: seq<Entry>, name: string): Option<nat> {
    if xs == [] then None
    else if xs[0].name == name then Some(0)
    else match FirstNamed(xs[1..], name)
      case None => None
      case Some(i) => Some(i + 1)
  }

  lemma {:induction false} FirstNamedInFront(xs: seq<Entry>, rest: seq<Entry>, name: string, r: real)
    requires forall i :: 0 <= i < |xs| ==> xs[i].ratio <= r
    requires rest != [] && rest[0].name == name
    ensures FirstNamed(xs + rest, name).Some? && FirstNamed(xs + rest, name).value <= |xs|
    ensures FirstNamed(xs + rest, name) == Some(|xs|) <==> NamedAtMost(xs, name, r) == 0
  {
    if xs == [] {
      assert xs + rest == rest;
    } else {
      assert (xs + rest)[1..] == xs[1..] + rest;
      FirstNamedInFront(xs[1..], rest, name, r);
    }
  }

  lemma {:induction false} NamedSplit(xs: seq<Entry>, n: nat, name: string, r: real)
    requires n <= |xs| && forall i :: n <= i < |xs| ==> r < xs[i].ratio
    ensures NamedAtMost(xs[..n], name, r) == NamedAtMost(xs, name, r)
  {
    if n > 0 {
      assert xs[..n][1..] == xs[1..][..n - 1];
      NamedSplit(xs[1..], n - 1, name, r);
    } else {
      NoneNamed(xs, name, r);
    }
  }

  lemma {:induction false} NoneNamed(xs: seq<Entry>, name: string, r: real)
    requires forall i :: 0 <= i < |xs| ==> r < xs[i].ratio
    ensures NamedAtMost(xs, name, r) == 0
  {
    if xs != [] {
      NoneNamed(xs[1..], name, r);
    }
  }

  /** The rank that table.py reports for `e` among `baselines`. */
  function Rank(baselines: seq<Entry>, e: Entry): Option<nat> {
    match FirstNamed(SortStable(baselines + [e]), e.name)
    case None => None
    case Some(i) => Some(i + 1)
  }

  lemma {:induction false} SortSnoc(xs: seq<Entry>, e: Entry)
    ensures SortStable(xs + [e]) == InsertStable(SortStable(xs), e)
  {
    assert (xs + [e])[..|xs|] == xs;
  }

  /**
   The heuristic is always found, and ranked behind every baseline that misses at most as often, exactly when
   none of those baselines bears its own name.
   */
  lemma {:induction false} RankCountsBetter(baselines: seq<Entry>, e: Entry)
    ensures Rank(baselines, e).Some? && 1 <= Rank(baselines, e).value <= 1 + AtMost(baselines, e.ratio)
    ensures Rank(baselines, e) == Some(1 + AtMost(baselines, e.ratio)) <==>
            NamedAtMost(baselines, e.name, e.ratio) == 0
  {
    SortSnoc(baselines, e);
    hide SortStable, InsertStable, AtMost, NamedAtMost, FirstNamed, Ascending;
    var sorted := SortStable(baselines);
    var n := AtMost(sorted, e.ratio);
    SortAscends(baselines);
    CountsOfSort(baselines, e.name, e.ratio);
    NewcomerPosition(sorted, e);
    AtMostIsPrefix(sorted, e.ratio);
    NamedSplit(sorted, n, e.name, e.ratio);
    FirstNamedInFront(sorted[..n], [e] + sorted[n..], e.name, e.ratio);
    assert sorted[..n] + ([e] + sorted[n..]) == sorted[..n] + [e] + sorted[n..];
  }

  lemma {:induction false} InsertPermutes(xs: seq<Entry>, e: Entry)
    ensures multiset(InsertStable(xs, e)) == multiset(xs) + multiset{e}
  {
    if xs != [] && !(e.ratio < xs[0].ratio) {
      InsertPermutes(xs[1..], e);
      assert xs == [xs[0]] + xs[1..];
    }
  }

  lemma {:induction false} SnocMultiset(xs: seq<Entry>)
    requires xs != []
    ensures multiset(xs) == multiset(xs[..|xs| - 1]) + multiset{xs[|xs| - 1]}
  {
    assert xs == xs[..|xs| - 1] + [xs[|xs| - 1]];
  }

  lemma {:induction false} SortPermutes(xs: seq<Entry>)
    ensures multiset(SortStable(xs)) == multiset(xs)
  {
    if xs != [] {
      var n := |xs| - 1;
      SortPermutes(xs[..n]);
      InsertPermutes(SortStable(xs[..n]), xs[n]);
      SnocMultiset(xs);
    }
  }

  lemma {:induction false} FirstNamedMeaning(xs: seq<Entry>, name: string)
    ensures match FirstNamed(xs, name)
            case None => forall i :: 0 <= i < |xs| ==> xs[i].name != name
            case Some(n) => n < |xs| && xs[n].name == name && forall i :: 0 <= i < n ==> xs[i].name != name
  {
    if xs != [] && xs[0].name != name {
      FirstNamedMeaning(xs[1..], name);
      assert forall i :: 0 < i < |xs| ==> xs[i] == xs[1..][i - 1];
    }
  }

  /** Among the baselines and the heuristic in ascending order, the rank is the place of the first entry with its name. */
  lemma {:induction false} RankIsFirstPlace(baselines: seq<Entry>, e: Entry) returns (sorted: seq<Entry>)
    ensures Ascending(sorted) && multiset(sorted) == multiset(baselines + [e])
    ensures match Rank(baselines, e)
            case None => false
            case Some(rank) =>
              && 1 <= rank <= |sorted| && sorted[rank - 1].name == e.name
              && forall i :: 0 <= i < rank - 1 ==> sorted[i].name != e.name
  {
    sorted := SortStable(baselines + [e]);
    SortAscends(baselines + [e]);
    SortPermutes(baselines + [e]);
    RankCountsBetter(baselines, e);
    FirstNamedMeaning(sorted, e.name);
  }

  /** One evaluated trace: its baselines and the heuristic's own entry. */
  datatype Evaluation = Evaluation(baselines: seq<Entry>, entry: Entry)

  function RanksAt(es: seq<Evaluation>, rank: nat): nat {
    if es == [] then 0 else
    RanksAt(es[..|es| - 1], rank) + if Rank(es[|es| - 1].baselines, es[|es| - 1].entry) == Some(rank) then 1 else 0
  }

  function SumCounts(m: map<nat, nat>, upTo: nat): nat {
    (if upTo in m then m[upTo] else 0) + if upTo == 0 then 0 else SumCounts(m, upTo - 1)
  }

  lemma {:induction false} SumCountsAdd(m: map<nat, nat>, rank: nat, upTo: nat)
    ensures SumCounts(m[rank := (if rank in m then m[rank] else 0) + 1], upTo) ==
            SumCounts(m, upTo) + if rank <= upTo then 1 else 0
  {
    if upTo > 0 {
      SumCountsAdd(m, rank, upTo - 1);
    }
  }

  lemma {:induction false} RanksAtSnoc(es: seq<Evaluation>, i: nat)
    requires i < |es|
    ensures forall r: nat ::
      RanksAt(es[..i + 1], r) == RanksAt(es[..i], r) + if Rank(es[i].baselines, es[i].entry) == Some(r) then 1 else 0
  {
    assert es[..i + 1][..i] == es[..i];
  }

  /** Append, sort, and look for the heuristic's name. */
  method RankOf(e: Evaluation) returns (rank: nat)
    ensures Rank(e.baselines, e.entry) == Some(rank)
  {
    var entries := SortStable(e.baselines + [e.entry]);
    RankCountsBetter(e.baselines, e.entry);
    rank := FirstNamed(entries, e.entry.name).value + 1;
  }

  /** The counting loop of get_perf: how often each rank was reached; together, once per evaluation. */
  method RankCounts(es: seq<Evaluation>) returns (counts: map<nat, nat>, ghost top: nat)
    ensures forall r: nat :: (if r in counts then counts[r] else 0) == RanksAt(es, r)
    ensures forall r :: r in counts ==> r <= top
    ensures SumCounts(counts, top) == |es|
  {
    counts := map[];
    top := 0;
    var i := 0;
    assert es[..0] == [];
    while i < |es|
      invariant 0 <= i <= |es|
      invariant forall r: nat :: (if r in counts then counts[r] else 0) == RanksAt(es[..i], r)
      invariant forall r :: r in counts ==> r <= top
      invariant SumCounts(counts, top) == i
    {
      hide Rank, RanksAt;
      var rank := RankOf(es[i]);
      RanksAtSnoc(es, i);
      if rank > top {
        SumCountsFlat(counts, top, rank);
        top := rank;
      }
      SumCountsAdd(counts, rank, top);
      counts := counts[rank := (if rank in counts then counts[rank] else 0) + 1];
      i := i + 1;
    }
    assert es[..i] == es;
  }

  lemma {:induction false} SumCountsFlat(m: map<nat, nat>, top: nat, upTo: nat)
    requires top <= upTo && forall r :: r in m ==> r <= top
    ensures SumCounts(m, upTo) == SumCounts(m, top)
  {
    if top < upTo {
      SumCountsFlat(m, top, upTo - 1);
    }
  }

  // ---------- boxplot.py: improvement over FIFO ----------

  /** A miss ratio. */
  type Ratio = r: real | 0.0 <= r

  /** The improvement over a cache with ratio `fifo`; None where the division is by zero. */
  function Improvement(fifo: Ratio, ratio: Ratio): Option<real> {
    if ratio < fifo then Some((fifo - ratio) / fifo)
    else if ratio == 0.0 then None
    else Some((fifo - ratio) / ratio)
  }

  lemma {:induction false} MulMono(a: real, b: real, c: real)
    requires a <= b && 0.0 <= c
    ensures a * c <= b * c
  {
  }

  lemma {:induction false} MulStrict(a: real, b: real, c: real)
    requires a < b && 0.0 < c
    ensures a * c < b * c
  {
  }

  lemma {:induction false} DivMono(a: real, b: real, c: real)
    requires a < b && c > 0.0
    ensures a / c < b / c
  {
  }

  lemma {:induction false} DivDifference(a: real, b: real, c: real)
    requires c > 0.0
    ensures (a - b) / c == a / c - b / c
  {
    var q, t := a / c - b / c, (a - b) / c;
    assert q * c == a / c * c - b / c * c;
    assert t * c == a - b;
    if q < t {
      MulStrict(q, t, c);
      assert false;
    } else if t < q {
      MulStrict(t, q, c);
      assert false;
    }
  }

  lemma {:induction false} InverseFalls(f: real, m: real, n: real)
    requires 0.0 < m < n && f > 0.0
    ensures f / n < f / m
  {
    var a, b := f / n, f / m;
    DivMono(0.0, f, n);
    assert a * n == f && b * m == f;
    if a >= b {
      MulMono(b, a, m);
      MulStrict(m, n, a);
      assert false;
    }
  }

  /** The difference in miss ratios, as a fraction of the greater one. */
  lemma {:induction false} ImprovementValue(fifo: Ratio, ratio: Ratio)
    ensures var worse := if ratio < fifo then fifo else ratio;
            match Improvement(fifo, ratio)
            case None => worse == 0.0
            case Some(v) => worse > 0.0 && v * worse == fifo - ratio
  {
  }

  /** It is defined exactly unless neither cache ever misses, and lies above -1 and at most at 1. */
  lemma {:induction false} ImprovementRange(fifo: Ratio, ratio: Ratio)
    ensures Improvement(fifo, ratio).None? <==> fifo == 0.0 && ratio == 0.0
    ensures fifo > 0.0 ==> -1.0 < Improvement(fifo, ratio).value <= 1.0
    ensures fifo == 0.0 && ratio > 0.0 ==> Improvement(fifo, ratio) == Some(-1.0)
  {
    if ratio < fifo {
      DivMono(0.0, fifo - ratio, fifo);
      DivDifference(fifo, ratio, fifo);
    } else if ratio > 0.0 {
      DivDifference(fifo, ratio, ratio);
      if fifo > 0.0 {
        DivMono(0.0, fifo, ratio);
      } else {
        assert ratio / ratio == 1.0 && fifo / ratio == 0.0;
        assert Improvement(fifo, ratio).value == -1.0;
      }
    }
  }

  /** Fewer misses always score strictly higher, across both branches of the statistic. */
  lemma {:induction false} ImprovementFalls(fifo: Ratio, ratio: Ratio, worse: Ratio)
    requires fifo > 0.0 && ratio < worse
    ensures Improvement(fifo, worse).value < Improvement(fifo, ratio).value
  {
    ImprovementRange(fifo, ratio);
    ImprovementRange(fifo, worse);
    if worse < fifo {
      DivMono(fifo - worse, fifo - ratio, fifo);
    } else if ratio < fifo {
      DivMono(0.0, fifo - ratio, fifo);
      assert (fifo - worse) / worse <= 0.0;
    } else {
      DivDifference(fifo, ratio, ratio);
      DivDifference(fifo, worse, worse);
      InverseFalls(fifo, ratio, worse);
    }
  }

  predicate Contains(s: string, sub: string) {
    sub <= s || (s != [] && Contains(s[1..], sub))
  }

  datatype Algo = Algo(name: string, ratio: Ratio)

  ghost predicate OccursAt(s: string, sub: string, i: nat) {
    i + |sub| <= |s| && s[i..i + |sub|] == sub
  }

  /** `sub` stands somewhere in `s`. */
  ghost predicate Occurs(s: string, sub: string) {
    exists i: nat :: OccursAt(s, sub, i)
  }

  lemma {:induction false} OccursInTail(s: string, sub: string, i: nat)
    requires s != [] && i > 0
    ensures OccursAt(s, sub, i) <==> OccursAt(s[1..], sub, i - 1)
  {
    if i + |sub| <= |s| {
      assert s[1..][i - 1..i - 1 + |sub|] == s[i..i + |sub|];
    }
  }

  lemma {:induction false} ContainsMeaning(s: string, sub: string)
    ensures Contains(s, sub) <==> Occurs(s, sub)
  {
    assert OccursAt(s, sub, 0) <==> sub <= s;
    if s != [] {
      ContainsMeaning(s[1..], sub);
      if i: nat :| OccursAt(s, sub, i) && i > 0 {
        OccursInTail(s, sub, i);
      }
      if i: nat :| OccursAt(s[1..], sub, i) {
        OccursInTail(s, sub, i + 1);
      }
    }
  }

  /** The algorithm is compared: never FIFO itself, and an evolved one for the oracle over all policies only. */
  ghost predicate Counts(a: Algo, alsoEvolved: bool) {
    a.name != "FIFO" && (alsoEvolved || !Occurs(a.name, "PQEvolve"))
  }

  /** `best` is the improvement of the least ratio among the algorithms that count; None stands for minus infinity. */
  ghost predicate IsOracle(best: Option<real>, algos: seq<Algo>, fifo: Ratio, alsoEvolved: bool) {
    match best
    case None => forall i :: 0 <= i < |algos| ==> !Counts(algos[i], alsoEvolved)
    case Some(v) => exists i :: 0 <= i < |algos| && Counts(algos[i], alsoEvolved) && IsLeast(algos, i, alsoEvolved)
                                && Improvement(fifo, algos[i].ratio) == Some(v)
  }

  ghost predicate IsLeast(algos: seq<Algo>, i: nat, alsoEvolved: bool)
    requires i < |algos|
  {
    forall j :: 0 <= j < |algos| && Counts(algos[j], alsoEvolved) ==> algos[i].ratio <= algos[j].ratio
  }

  /** max(best, stat), with None as minus infinity. */
  function Better(best: Option<real>, stat: real): Option<real> {
    match best
    case None => Some(stat)
    case Some(v) => Some(if stat > v then stat else v)
  }

  lemma {:induction false} OracleSnoc(best: Option<real>, algos: seq<Algo>, fifo: Ratio, alsoEvolved: bool, a: Algo)
    requires IsOracle(best, algos, fifo, alsoEvolved)
    ensures Counts(a, alsoEvolved) && Improvement(fifo, a.ratio).Some? ==>
              IsOracle(Better(best, Improvement(fifo, a.ratio).value), algos + [a], fifo, alsoEvolved)
    ensures !Counts(a, alsoEvolved) ==> IsOracle(best, algos + [a], fifo, alsoEvolved)
  {
    var more, n := algos + [a], |algos|;
    assert more[n] == a;
    match best
    case None =>
      assert Counts(a, alsoEvolved) ==> IsLeast(more, n, alsoEvolved);
    case Some(v) =>
      var i :| 0 <= i < n && Counts(algos[i], alsoEvolved) && IsLeast(algos, i, alsoEvolved)
        && Improvement(fifo, algos[i].ratio) == Some(v);
      assert more[i] == algos[i];
      ImprovementRange(fifo, a.ratio);
      ImprovementRange(fifo, algos[i].ratio);
      if a.ratio < algos[i].ratio {
        assert Counts(a, alsoEvolved) ==> IsLeast(more, n, alsoEvolved);
        if fifo > 0.0 {
          ImprovementFalls(fifo, a.ratio, algos[i].ratio);
        }
      } else {
        assert IsLeast(more, i, alsoEvolved);
        if a.ratio > algos[i].ratio && fifo > 0.0 {
          ImprovementFalls(fifo, algos[i].ratio, a.ratio);
        }
      }
  }

  /** Some algorithm other than FIFO cannot be compared: neither it nor FIFO ever misses. */
  predicate Incomparable(algos: seq<Algo>, fifo: Ratio) {
    fifo == 0.0 && exists i :: 0 <= i < |algos| && algos[i].name != "FIFO" && algos[i].ratio == 0.0
  }

  /** The oracle loop over the algorithms of one trace; not `ok` stands for a division by zero. */
  method Oracles(algos: seq<Algo>, fifo: Ratio) returns (ok: bool, baselineOracle: Option<real>, policyOracle: Option<real>)
    ensures ok <==> !Incomparable(algos, fifo)
    ensures ok ==> IsOracle(baselineOracle, algos, fifo, false) && IsOracle(policyOracle, algos, fifo, true)
  {
    baselineOracle, policyOracle := None, None;
    var i := 0;
    while i < |algos|
      invariant 0 <= i <= |algos|
      invariant !Incomparable(algos[..i], fifo)
      invariant IsOracle(baselineOracle, algos[..i], fifo, false)
      invariant IsOracle(policyOracle, algos[..i], fifo, true)
    {
      hide IsOracle, Improvement, Contains, Occurs;
      var a := algos[i];
      ContainsMeaning(a.name, "PQEvolve");
      assert algos[..i + 1] == algos[..i] + [a];
      OracleSnoc(baselineOracle, algos[..i], fifo, false, a);
      OracleSnoc(policyOracle, algos[..i], fifo, true, a);
      ImprovementRange(fifo, a.ratio);
      if a.name != "FIFO" {
        var stat := Improvement(fifo, a.ratio);
        if stat.None? {
          return false, None, None;
        }
        if !Contains(a.name, "PQEvolve") {
          baselineOracle := Better(baselineOracle, stat.value);
        }
        policyOracle := Better(policyOracle, stat.value);
      }
      i := i + 1;
    }
    assert algos[..i] == algos;
    ok := true;
  }
}
