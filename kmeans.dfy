/** k-means clustering (nerdy.kmeans): the nearest-centroid choice, the
    assignment sweep with its cluster sizes and totals, the mean update with
    its zero-vector rule for empty clusters, and the outer loop that repeats
    sweeps until no assignment changes. */
module KMeans {
  import opened Vectors

  /** The distance option: any function of two vectors. */
  type Distance = (seq<real>, seq<real>) -> real

  /** The index of the nearest mean, the lowest index on ties: underscore's
      `_.min` over 0..k-1 keeps a later index only when it is strictly
      closer. The classifier returned by nerdy.kmeans is this function on the
      final means. */
  function Nearest(distance: Distance, v: seq<real>, means: seq<seq<real>>): (c: nat)
    requires |means| >= 1
    ensures c < |means|
    ensures forall j :: 0 <= j < |means| ==> distance(v, means[c]) <= distance(v, means[j])
    ensures forall j :: 0 <= j < c ==> distance(v, means[c]) < distance(v, means[j])
  {
    NearestAmong(distance, v, means, |means|)
  }

  /** `_.min`'s scan over the first k means. */
  function NearestAmong(distance: Distance, v: seq<real>, means: seq<seq<real>>, k: nat): (c: nat)
    requires 1 <= k <= |means|
    ensures c < k
    ensures forall j :: 0 <= j < k ==> distance(v, means[c]) <= distance(v, means[j])
    ensures forall j :: 0 <= j < c ==> distance(v, means[c]) < distance(v, means[j])
  {
    if k == 1 then 0
    else
      var c := NearestAmong(distance, v, means, k - 1);
      if distance(v, means[k - 1]) < distance(v, means[c]) then k - 1 else c
  }

  /** The assignment a sweep computes: every point's nearest mean. */
  function Assign(distance: Distance, X: seq<seq<real>>, means: seq<seq<real>>): (g: seq<nat>)
    requires |means| >= 1
    ensures |g| == |X|
    ensures forall i :: 0 <= i < |X| ==> g[i] == Nearest(distance, X[i], means)
  {
    seq(|X|, i requires 0 <= i < |X| => Nearest(distance, X[i], means))
  }

  /** Number of points grouped to cluster c. */
  function Size(groups: seq<nat>, c: nat): nat
  {
    if groups == [] then 0
    else Size(groups[..|groups| - 1], c) + (if groups[|groups| - 1] == c then 1 else 0)
  }

  function Sizes(groups: seq<nat>, k: nat): (r: seq<nat>)
    ensures |r| == k
  {
    seq(k, c requires 0 <= c < k => Size(groups, c))
  }

  /** Sum of the points grouped to cluster c; the zero vector of width n
      when there are none. */
  function Total(X: seq<seq<real>>, groups: seq<nat>, c: nat, n: nat): (r: seq<real>)
    requires |groups| == |X| && Rectangular(X, n)
    ensures |r| == n
  {
    if X == [] then Zeros(n)
    else
      var t := Total(X[..|X| - 1], groups[..|groups| - 1], c, n);
      if groups[|X| - 1] == c then Add(t, X[|X| - 1]) else t
  }

  function Totals(X: seq<seq<real>>, groups: seq<nat>, k: nat, n: nat): (r: seq<seq<real>>)
    requires |groups| == |X| && Rectangular(X, n)
    ensures |r| == k && Rectangular(r, n)
  {
    seq(k, c requires 0 <= c < k => Total(X, groups, c, n))
  }

  /** Pointwise division by a scalar (numeric.div with a scalar operand). */
  function Div(a: seq<real>, s: real): (r: seq<real>)
    requires s != 0.0
    ensures |r| == |a|
  {
    seq(|a|, i requires 0 <= i < |a| => a[i] / s)
  }

  /** The next mean of one cluster: its total divided by its size, or the
      total itself when the cluster is empty. */
  function NextMean(total: seq<real>, size: nat): (r: seq<real>)
    ensures |r| == |total|
  {
    if size > 0 then Div(total, size as real) else total
  }

  /** The means after a sweep that changed some assignment. */
  function NewMeans(X: seq<seq<real>>, groups: seq<nat>, k: nat, n: nat): (r: seq<seq<real>>)
    requires |groups| == |X| && Rectangular(X, n)
    ensures |r| == k && Rectangular(r, n)
  {
    seq(k, j requires 0 <= j < k => NextMean(Total(X, groups, j, n), Size(groups, j)))
  }

  function SumNat(s: seq<nat>): nat
  {
    if s == [] then 0 else SumNat(s[..|s| - 1]) + s[|s| - 1]
  }

  /** Where the outer loop ends: the means and the assignment it holds, and
      whether it stopped because a sweep changed nothing. */
  datatype Outcome = Outcome(means: seq<seq<real>>, groups: seq<nat>, converged: bool)

  /** Reference definition of the outer loop, given at most `fuel` sweeps:
      sweep; stop when no assignment changed, otherwise move every mean and
      sweep again. A run that stops by convergence ends in a fixed point:
      every point sits at its nearest final mean. */
  function Run(distance: Distance, X: seq<seq<real>>, n: nat, means: seq<seq<real>>,
               groups: seq<nat>, fuel: nat): (r: Outcome)
    requires |means| >= 1 && Rectangular(X, n) && Rectangular(means, n)
    ensures |r.means| == |means| && Rectangular(r.means, n)
    ensures r.converged ==> r.groups == Assign(distance, X, r.means)
    decreases fuel
  {
    if fuel == 0 then Outcome(means, groups, false)
    else
      var g := Assign(distance, X, means);
      if Same(g, groups) then Outcome(means, g, true)
      else Run(distance, X, n, NewMeans(X, g, |means|, n), g, fuel - 1)
  }

  /** Element-by-element equality of two assignments. */
  predicate Same(a: seq<nat>, b: seq<nat>)
  {
    |a| == |b| && (a == [] || (Same(a[..|a| - 1], b[..|b| - 1]) && a[|a| - 1] == b[|b| - 1]))
  }

  lemma {:induction false} SameIff(a: seq<nat>, b: seq<nat>)
    ensures Same(a, b) <==> a == b
    decreases |a|
  {
    if |a| == |b| && a != [] {
      SameIff(a[..|a| - 1], b[..|b| - 1]);
      if a[..|a| - 1] == b[..|b| - 1] && a[|a| - 1] == b[|b| - 1] {
        assert a == a[..|a| - 1] + [a[|a| - 1]];
        assert b == b[..|b| - 1] + [b[|b| - 1]];
      }
    }
  }

  lemma SizeSnoc(g: seq<nat>, x: nat, c: nat)
    ensures Size(g + [x], c) == Size(g, c) + (if x == c then 1 else 0)
  {
    assert (g + [x])[..|g|] == g;
  }

  /** Grouping one more point to cluster x adds one to x's size only. */
  lemma {:induction false} SizesSnoc(g: seq<nat>, x: nat, k: nat)
    requires x < k
    ensures Sizes(g + [x], k) == Sizes(g, k)[x := Sizes(g, k)[x] + 1]
  {
    forall c | 0 <= c < k
      ensures Sizes(g + [x], k)[c] == Sizes(g, k)[x := Sizes(g, k)[x] + 1][c]
    {
      SizeSnoc(g, x, c);
    }
  }

  /** Adding one to entry x adds one to the sum. */
  lemma {:induction false} SumNatBump(s: seq<nat>, x: nat)
    requires x < |s|
    ensures SumNat(s[x := s[x] + 1]) == SumNat(s) + 1
    decreases |s|
  {
    var t := s[x := s[x] + 1];
    if x < |s| - 1 {
      assert t[..|t| - 1] == s[..|s| - 1][x := s[x] + 1];
      SumNatBump(s[..|s| - 1], x);
    } else {
      assert t[..|t| - 1] == s[..|s| - 1];
    }
  }

  lemma {:induction false} SumNatZeros(k: nat)
    ensures SumNat(seq(k, c => 0)) == 0
  {
    if k > 0 {
      assert seq(k, c => 0)[..k - 1] == seq(k - 1, c => 0);
      SumNatZeros(k - 1);
    }
  }

  /** Cluster sizes of an assignment into k clusters add up to the number of
      points. */
  lemma {:induction false} SizesSum(g: seq<nat>, k: nat)
    requires forall i :: 0 <= i < |g| ==> g[i] < k
    ensures SumNat(Sizes(g, k)) == |g|
    decreases |g|
  {
    if g == [] {
      assert Sizes(g, k) == seq(k, c => 0);
      SumNatZeros(k);
    } else {
      var p := g[..|g| - 1];
      var x := g[|g| - 1];
      assert g == p + [x];
      SizesSnoc(p, x, k);
      SizesSum(p, k);
      SumNatBump(Sizes(p, k), x);
    }
  }

  /** An empty cluster's total is the zero vector, so the mean update leaves
      the zero vector as that cluster's mean. */
  lemma {:induction false} EmptyClusterZero(X: seq<seq<real>>, g: seq<nat>, c: nat, n: nat)
    requires |g| == |X| && Rectangular(X, n)
    requires Size(g, c) == 0
    ensures Total(X, g, c, n) == Zeros(n)
    ensures NewMeansAt(X, g, c, n) == Zeros(n)
    decreases |X|
  {
    if X != [] {
      EmptyClusterZero(X[..|X| - 1], g[..|g| - 1], c, n);
    }
  }

  /** Entry c of the mean update, for any cluster index. */
  function NewMeansAt(X: seq<seq<real>>, g: seq<nat>, c: nat, n: nat): (r: seq<real>)
    requires |g| == |X| && Rectangular(X, n)
    ensures |r| == n
  {
    NextMean(Total(X, g, c, n), Size(g, c))
  }

  /** A non-empty cluster's new mean times its size is its total: the mean
      of the points grouped to it. */
  lemma MeanTimesSize(X: seq<seq<real>>, g: seq<nat>, c: nat, n: nat, t: nat)
    requires |g| == |X| && Rectangular(X, n)
    requires Size(g, c) > 0 && t < n
    ensures NewMeansAt(X, g, c, n)[t] * (Size(g, c) as real) == Total(X, g, c, n)[t]
  {
  }

  /** Column t of a cluster's total is the sum of column t over the points
      grouped to it. */
  lemma {:induction false} TotalColumn(X: seq<seq<real>>, g: seq<nat>, c: nat, n: nat, t: nat)
    requires |g| == |X| && Rectangular(X, n) && t < n
    ensures Total(X, g, c, n)[t] == Sum(Picked(X, g, c, t))
    decreases |X|
  {
    if X != [] {
      TotalColumn(X[..|X| - 1], g[..|g| - 1], c, n, t);
    }
  }

  /** Column t of the points grouped to cluster c, in point order. */
  function Picked(X: seq<seq<real>>, g: seq<nat>, c: nat, t: nat): seq<real>
    requires |g| == |X|
    requires forall i :: 0 <= i < |X| ==> t < |X[i]|
  {
    if X == [] then []
    else
      var p := Picked(X[..|X| - 1], g[..|g| - 1], c, t);
      if g[|X| - 1] == c then p + [X[|X| - 1][t]] else p
  }

  lemma TotalSnoc(X: seq<seq<real>>, g: seq<nat>, v: seq<real>, x: nat, c: nat, n: nat)
    requires |g| == |X| && Rectangular(X, n) && |v| == n
    ensures Rectangular(X + [v], n)
    ensures Total(X + [v], g + [x], c, n)
         == if x == c then Add(Total(X, g, c, n), v) else Total(X, g, c, n)
  {
    assert (X + [v])[..|X|] == X;
    assert (g + [x])[..|g|] == g;
  }

  /** Grouping one more point v to cluster x adds v to x's total only. */
  lemma {:induction false} TotalsSnoc(X: seq<seq<real>>, g: seq<nat>, v: seq<real>, x: nat, k: nat, n: nat)
    requires |g| == |X| && Rectangular(X, n) && |v| == n && x < k
    ensures Rectangular(X + [v], n)
    ensures Totals(X + [v], g + [x], k, n)
         == Totals(X, g, k, n)[x := Add(Totals(X, g, k, n)[x], v)]
  {
    TotalSnoc(X, g, v, x, 0, n);
    forall c | 0 <= c < k
      ensures Totals(X + [v], g + [x], k, n)[c]
           == Totals(X, g, k, n)[x := Add(Totals(X, g, k, n)[x], v)][c]
    {
      TotalSnoc(X, g, v, x, c, n);
    }
  }

  /** The state of a sweep after its first i points: those points are at
      their nearest means, the rest keep their old cluster, `converged` says
      whether none of the first i moved, and sizes and totals count exactly
      the first i points. */
  ghost predicate SweptTo(distance: Distance, X: seq<seq<real>>, n: nat, means: seq<seq<real>>,
                          groups: seq<nat>, i: nat, grouped: seq<nat>, sizes: seq<nat>,
                          nextMeans: seq<seq<real>>, converged: bool)
    requires |means| >= 1 && |groups| == |X| && Rectangular(X, n) && i <= |X|
  {
    var done := Assign(distance, X[..i], means);
    && grouped == done + groups[i..]
    && (converged <==> done == groups[..i])
    && sizes == Sizes(done, |means|)
    && nextMeans == Totals(X[..i], done, |means|, n)
  }

  lemma {:induction false} SweepStep(distance: Distance, X: seq<seq<real>>, n: nat, means: seq<seq<real>>,
                  groups: seq<nat>, i: nat, grouped: seq<nat>, sizes: seq<nat>,
                  nextMeans: seq<seq<real>>, converged: bool, c: nat)
    requires |means| >= 1 && |groups| == |X| && Rectangular(X, n) && i < |X|
    requires SweptTo(distance, X, n, means, groups, i, grouped, sizes, nextMeans, converged)
    requires c == Nearest(distance, X[i], means)
    ensures SweptTo(distance, X, n, means, groups, i + 1, grouped[i := c], sizes[c := sizes[c] + 1],
                    nextMeans[c := Add(nextMeans[c], X[i])], converged && grouped[i] == c)
  {
    var k := |means|;
    var done := Assign(distance, X[..i], means);
    var done1 := Assign(distance, X[..i + 1], means);
    assert X[..i + 1] == X[..i] + [X[i]];
    assert done1 == done + [c];
    assert groups[..i + 1] == groups[..i] + [groups[i]];
    assert grouped[i] == groups[i];
    assert grouped[i := c] == done1 + groups[i + 1..];
    assert (converged && grouped[i] == c) <==> done1 == groups[..i + 1];
    CountsSnoc(X, n, i, done, c, k, sizes, nextMeans);
  }

  /** Sizes and totals after grouping point i to cluster c. */
  lemma {:induction false} CountsSnoc(X: seq<seq<real>>, n: nat, i: nat, done: seq<nat>, c: nat, k: nat,
                                      sizes: seq<nat>, nextMeans: seq<seq<real>>)
    requires |done| == i < |X| && Rectangular(X, n) && c < k
    requires sizes == Sizes(done, k) && nextMeans == Totals(X[..i], done, k, n)
    ensures sizes[c := sizes[c] + 1] == Sizes(done + [c], k)
    ensures nextMeans[c := Add(nextMeans[c], X[i])] == Totals(X[..i + 1], done + [c], k, n)
  {
    SizesSnoc(done, c, k);
    assert X[..i + 1] == X[..i] + [X[i]];
    TotalsSnoc(X[..i], done, X[i], c, k, n);
  }

  lemma {:induction false} SweepStart(distance: Distance, X: seq<seq<real>>, n: nat, means: seq<seq<real>>,
                   groups: seq<nat>)
    requires |means| >= 1 && |groups| == |X| && Rectangular(X, n)
    ensures SweptTo(distance, X, n, means, groups, 0, groups, seq(|means|, c => 0),
                    seq(|means|, c => Zeros(n)), true)
  {
    assert Sizes([], |means|) == seq(|means|, c => 0);
    assert Totals([], [], |means|, n) == seq(|means|, c => Zeros(n));
    assert X[..0] == [] && groups[..0] == [] && groups[0..] == groups;
  }

  lemma {:induction false} SweepEnd(distance: Distance, X: seq<seq<real>>, n: nat, means: seq<seq<real>>,
                 groups: seq<nat>, grouped: seq<nat>, sizes: seq<nat>,
                 nextMeans: seq<seq<real>>, converged: bool)
    requires |means| >= 1 && |groups| == |X| && Rectangular(X, n)
    requires SweptTo(distance, X, n, means, groups, |X|, grouped, sizes, nextMeans, converged)
    ensures grouped == Assign(distance, X, means)
    ensures converged <==> grouped == groups
    ensures sizes == Sizes(grouped, |means|) && SumNat(sizes) == |X|
    ensures nextMeans == Totals(X, grouped, |means|, n)
  {
    assert X[..|X|] == X && groups[..|X|] == groups && groups[|X|..] == [];
    assert grouped == Assign(distance, X, means);
    SizesSum(grouped, |means|);
  }

  /** One sweep over the points (the `_.each` in nerdy.kmeans): move each
      point to its nearest mean, clearing `converged` when a point moves,
      and accumulate each cluster's size and vector total. */
  method Sweep(distance: Distance, X: seq<seq<real>>, n: nat, means: seq<seq<real>>,
               groups: seq<nat>)
    returns (grouped: seq<nat>, sizes: seq<nat>, nextMeans: seq<seq<real>>, converged: bool)
    requires |means| >= 1 && |groups| == |X| && Rectangular(X, n)
    ensures grouped == Assign(distance, X, means)
    ensures converged <==> grouped == groups
    ensures sizes == Sizes(grouped, |means|) && SumNat(sizes) == |X|
    ensures nextMeans == Totals(X, grouped, |means|, n)
  {
    var k := |means|;
    grouped := groups;
    sizes := seq(k, c => 0);
    nextMeans := seq(k, c => Zeros(n));
    converged := true;
    SweepStart(distance, X, n, means, groups);
    for i := 0 to |X|
      invariant SweptTo(distance, X, n, means, groups, i, grouped, sizes, nextMeans, converged)
    {
      var c := Nearest(distance, X[i], means);
      SweepStep(distance, X, n, means, groups, i, grouped, sizes, nextMeans, converged, c);
      if grouped[i] != c {
        grouped := grouped[i := c];
        converged := false;
      } else {
        assert grouped[i := c] == grouped;
      }
      nextMeans := nextMeans[c := Add(nextMeans[c], X[i])];
      sizes := sizes[c := sizes[c] + 1];
    }
    SweepEnd(distance, X, n, means, groups, grouped, sizes, nextMeans, converged);
  }

  /** Divide every total by its cluster's size, keeping an empty cluster's
      total (the zero vector) as its mean. */
  method UpdateMeans(X: seq<seq<real>>, groups: seq<nat>, n: nat, sizes: seq<nat>,
                     nextMeans: seq<seq<real>>) returns (means: seq<seq<real>>)
    requires |groups| == |X| && Rectangular(X, n)
    requires |sizes| == |nextMeans|
    requires sizes == Sizes(groups, |sizes|) && nextMeans == Totals(X, groups, |sizes|, n)
    ensures means == NewMeans(X, groups, |sizes|, n)
  {
    means := nextMeans;
    for j := 0 to |nextMeans|
      invariant |means| == |nextMeans|
      invariant forall c :: 0 <= c < j ==> means[c] == NextMean(nextMeans[c], sizes[c])
      invariant forall c :: j <= c < |means| ==> means[c] == nextMeans[c]
    {
      var mean := nextMeans[j];
      if sizes[j] > 0 {
        mean := Div(mean, sizes[j] as real);
      }
      means := means[j := mean];
    }
  }

  lemma {:induction false} RunStep(distance: Distance, X: seq<seq<real>>, n: nat, means: seq<seq<real>>,
                groups: seq<nat>, fuel: nat, grouped: seq<nat>, next: seq<seq<real>>)
    requires |means| >= 1 && Rectangular(X, n) && Rectangular(means, n) && fuel > 0
    requires grouped == Assign(distance, X, means)
    requires next == NewMeans(X, grouped, |means|, n)
    ensures grouped == groups ==> Run(distance, X, n, means, groups, fuel) == Outcome(means, grouped, true)
    ensures grouped != groups ==> Run(distance, X, n, means, groups, fuel) == Run(distance, X, n, next, grouped, fuel - 1)
  {
    SameIff(grouped, groups);
  }

  /** One pass of the outer loop: a sweep, then the mean update when some
      point moved. */
  method Round(distance: Distance, X: seq<seq<real>>, n: nat, means: seq<seq<real>>,
               groups: seq<nat>, fuel: nat)
    returns (means': seq<seq<real>>, groups': seq<nat>, same: bool)
    requires |means| >= 1 && Rectangular(X, n) && Rectangular(means, n) && fuel > 0
    requires |groups| == |X|
    ensures |means'| == |means| && Rectangular(means', n) && |groups'| == |X|
    ensures same ==> means' == means
    ensures same ==> Run(distance, X, n, means, groups, fuel) == Outcome(means', groups', true)
    ensures !same ==> Run(distance, X, n, means, groups, fuel) == Run(distance, X, n, means', groups', fuel - 1)
  {
    var sizes, nextMeans;
    groups', sizes, nextMeans, same := Sweep(distance, X, n, means, groups);
    RunStep(distance, X, n, means, groups, fuel, groups', NewMeans(X, groups', |means|, n));
    if same {
      means' := means;
    } else {
      means' := UpdateMeans(X, groups', n, sizes, nextMeans);
    }
  }

  /** nerdy.kmeans on a matrix the caller has already shuffled: the first k
      rows are the initial means, every point starts in cluster 0, and sweeps
      repeat until one changes nothing (at most `fuel` of them). */
  method Fit(distance: Distance, X: seq<seq<real>>, n: nat, k: nat, fuel: nat)
    returns (means: seq<seq<real>>, groups: seq<nat>, converged: bool)
    requires 1 <= k <= |X| && Rectangular(X, n)
    ensures Outcome(means, groups, converged) == Run(distance, X, n, X[..k], seq(|X|, i => 0), fuel)
    ensures |means| == k && Rectangular(means, n) && |groups| == |X|
    ensures converged ==> forall i :: 0 <= i < |X| ==> Nearest(distance, X[i], means) == groups[i]
  {
    ghost var goal := Run(distance, X, n, X[..k], seq(|X|, i => 0), fuel);
    means := X[..k];
    groups := seq(|X|, i => 0);
    converged := false;
    var f := fuel;
    while !converged && f > 0
      invariant |means| == k && Rectangular(means, n) && |groups| == |X|
      invariant !converged ==> Run(distance, X, n, means, groups, f) == goal
      invariant converged ==> Outcome(means, groups, true) == goal
      decreases f
    {
      var same;
      means, groups, same := Round(distance, X, n, means, groups, f);
      converged := same;
      f := f - 1;
    }
  }
}
