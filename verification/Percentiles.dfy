/** Picking percentiles: sort, then take the element at the truncated fraction of the length. */
module Percentiles {

  ghost predicate Sorted(xs: seq<nat>) {
    forall i, j :: 0 <= i < j < |xs| ==> xs[i] <= xs[j]
  }

  function Insert(x: nat, xs: seq<nat>): (r: seq<nat>)
    ensures |r| == |xs| + 1
  {
    if xs == [] || x <= xs[0] then [x] + xs else [xs[0]] + Insert(x, xs[1..])
  }

  function Sort(xs: seq<nat>): (r: seq<nat>)
    ensures |r| == |xs|
  {
    if xs == [] then [] else Insert(xs[0], Sort(xs[1..]))
  }

  lemma {:induction false} InsertAbove(x: nat, xs: seq<nat>, lo: nat)
    requires lo <= x && forall i :: 0 <= i < |xs| ==> lo <= xs[i]
    ensures forall i :: 0 <= i < |xs| + 1 ==> lo <= Insert(x, xs)[i]
  {
    if xs != [] && x > xs[0] {
      InsertAbove(x, xs[1..], lo);
    }
  }

  lemma {:induction false} InsertSorts(x: nat, xs: seq<nat>)
    requires Sorted(xs)
    ensures Sorted(Insert(x, xs))
  {
    if xs != [] && x > xs[0] {
      InsertSorts(x, xs[1..]);
      InsertAbove(x, xs[1..], xs[0]);
    }
  }

  lemma {:induction false} InsertPermutes(x: nat, xs: seq<nat>)
    ensures multiset(Insert(x, xs)) == multiset{x} + multiset(xs)
  {
    if xs != [] && x > xs[0] {
      InsertPermutes(x, xs[1..]);
      assert xs == [xs[0]] + xs[1..];
    }
  }

  lemma {:induction false} SortSorts(xs: seq<nat>)
    ensures Sorted(Sort(xs)) && multiset(Sort(xs)) == multiset(xs)
  {
    if xs != [] {
      SortSorts(xs[1..]);
      InsertSorts(xs[0], Sort(xs[1..]));
      InsertPermutes(xs[0], Sort(xs[1..]));
      assert xs == [xs[0]] + xs[1..];
    }
  }

  /** Two insertions can change places. */
  lemma {:induction false} InsertsCommute(x: nat, y: nat, xs: seq<nat>)
    ensures Insert(x, Insert(y, xs)) == Insert(y, Insert(x, xs))
    decreases |xs|, if x <= y then 0 else 1
  {
    if x > y {
      InsertsCommute(y, x, xs);
    } else if xs == [] || y <= xs[0] {
      assert ([y] + xs)[1..] == xs && ([x] + xs)[1..] == xs;
    } else {
      InsertsCommute(x, y, xs[1..]);
      assert ([x] + xs)[1..] == xs;
      assert ([xs[0]] + Insert(y, xs[1..]))[1..] == Insert(y, xs[1..]);
      assert ([xs[0]] + Insert(x, xs[1..]))[1..] == Insert(x, xs[1..]);
    }
  }

  /** The value at any index may as well be inserted last. */
  lemma {:induction false} SortPullsOut(xs: seq<nat>, i: nat)
    requires i < |xs|
    ensures Sort(xs) == Insert(xs[i], Sort(xs[..i] + xs[i + 1..]))
  {
    if i > 0 {
      var tail, rest := xs[1..], xs[..i] + xs[i + 1..];
      SortPullsOut(tail, i - 1);
      assert rest[1..] == tail[..i - 1] + tail[i..];
      InsertsCommute(xs[0], xs[i], Sort(rest[1..]));
    } else {
      assert xs[..0] + xs[1..] == xs[1..];
    }
  }

  lemma {:induction false} WithoutOne(xs: seq<nat>, i: nat)
    requires i < |xs|
    ensures multiset(xs[..i] + xs[i + 1..]) == multiset(xs) - multiset{xs[i]}
  {
    assert xs == xs[..i] + ([xs[i]] + xs[i + 1..]);
  }

  /** Sorting does not depend on the order of the log. */
  lemma {:induction false} SortIgnoresOrder(xs: seq<nat>, ys: seq<nat>)
    requires multiset(xs) == multiset(ys)
    ensures Sort(xs) == Sort(ys)
  {
    if xs == [] {
      assert |multiset(ys)| == 0;
    } else {
      assert xs[0] in multiset(ys);
      var i :| 0 <= i < |ys| && ys[i] == xs[0];
      var rest := ys[..i] + ys[i + 1..];
      WithoutOne(ys, i);
      assert xs == [xs[0]] + xs[1..];
      assert multiset(xs[1..]) == multiset(xs) - multiset{ys[i]} == multiset(rest);
      SortIgnoresOrder(xs[1..], rest);
      SortPullsOut(ys, i);
    }
  }

  /** The truncated index of the p-th percentile of `n` values. */
  function Index(p: nat, n: nat): nat {
    p * n / 100
  }

  function Pick(xs: seq<nat>, p: nat): nat
    requires xs != [] && p < 100
  {
    IndexInRange(p, |xs|);
    Sort(xs)[Index(p, |xs|)]
  }

  lemma {:induction false} IndexInRange(p: nat, n: nat)
    requires n > 0 && p < 100
    ensures Index(p, n) < n
  {
    assert p * n <= 99 * n;
  }

  function CountAtMost(xs: seq<nat>, v: nat): nat {
    if xs == [] then 0 else (if xs[0] <= v then 1 else 0) + CountAtMost(xs[1..], v)
  }

  function CountAtLeast(xs: seq<nat>, v: nat): nat {
    if xs == [] then 0 else (if xs[0] >= v then 1 else 0) + CountAtLeast(xs[1..], v)
  }

  lemma {:induction false} CountsOfInsert(x: nat, xs: seq<nat>, v: nat)
    ensures CountAtMost(Insert(x, xs), v) == (if x <= v then 1 else 0) + CountAtMost(xs, v)
    ensures CountAtLeast(Insert(x, xs), v) == (if x >= v then 1 else 0) + CountAtLeast(xs, v)
  {
    if xs != [] && x > xs[0] {
      CountsOfInsert(x, xs[1..], v);
    } else {
      assert ([x] + xs)[1..] == xs;
    }
  }

  lemma {:induction false} CountsOfSort(xs: seq<nat>, v: nat)
    ensures CountAtMost(Sort(xs), v) == CountAtMost(xs, v)
    ensures CountAtLeast(Sort(xs), v) == CountAtLeast(xs, v)
  {
    if xs != [] {
      CountsOfSort(xs[1..], v);
      CountsOfInsert(xs[0], Sort(xs[1..]), v);
    }
  }

  lemma {:induction false} CountsOfSorted(xs: seq<nat>, i: nat)
    requires Sorted(xs) && i < |xs|
    ensures CountAtMost(xs, xs[i]) >= i + 1
    ensures CountAtLeast(xs, xs[i]) >= |xs| - i
  {
    if i > 0 {
      CountsOfSorted(xs[1..], i - 1);
    } else {
      AllAtLeast(xs, xs[0]);
    }
  }

  lemma {:induction false} AllAtLeast(xs: seq<nat>, v: nat)
    requires forall i :: 0 <= i < |xs| ==> xs[i] >= v
    ensures CountAtLeast(xs, v) == |xs|
  {
    if xs != [] {
      AllAtLeast(xs[1..], v);
    }
  }

  /** Enough values lie on either side of the pick. */
  lemma {:induction false} PickSplits(xs: seq<nat>, p: nat)
    requires xs != [] && p < 100
    ensures Pick(xs, p) in xs
    ensures CountAtMost(xs, Pick(xs, p)) >= p * |xs| / 100 + 1
    ensures CountAtLeast(xs, Pick(xs, p)) >= |xs| - p * |xs| / 100
  {
    IndexInRange(p, |xs|);
    SortSorts(xs);
    CountsOfSorted(Sort(xs), Index(p, |xs|));
    CountsOfSort(xs, Pick(xs, p));
    assert Pick(xs, p) in multiset(Sort(xs));
  }

  lemma {:induction false} IndexAscends(p: nat, q: nat, n: nat)
    requires p <= q
    ensures Index(p, n) <= Index(q, n)
  {
    assert p * n <= q * n;
  }

  lemma {:induction false} PicksAscend(xs: seq<nat>, p: nat, q: nat)
    requires xs != [] && p <= q < 100
    ensures Pick(xs, p) <= Pick(xs, q)
  {
    hide Index, Sort;
    IndexInRange(q, |xs|);
    SortSorts(xs);
    IndexAscends(p, q, |xs|);
  }

  lemma {:induction false} PickIgnoresOrder(xs: seq<nat>, ys: seq<nat>, p: nat)
    requires xs != [] && ys != [] && p < 100 && multiset(xs) == multiset(ys)
    ensures Pick(xs, p) == Pick(ys, p)
  {
    SortIgnoresOrder(xs, ys);
  }
}
