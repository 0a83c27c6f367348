/** Principal component analysis (nerdy.pca) after its singular value
    decomposition: how many components keep a given share of the variance
    (`required`), which components the reducer projects onto, and the
    projection itself. The decomposition is an input: S are the singular
    values and U the left singular vectors, one row per feature. */
module Pca {
  import opened Vectors

  /** The stopping test of `required` at k: the first k singular values
      carry less than `variance` of the total. When the total is zero the
      quotient is a floating-point division by zero: -Infinity, below any
      variance, for a negative leading sum; +Infinity for a positive one and
      NaN for a zero one, and the test fails for both. */
  predicate Below(S: seq<real>, k: nat, variance: real)
    requires k <= |S|
  {
    if Sum(S) == 0.0 then Leading(S, k) < 0.0
    else Leading(S, k) / Sum(S) < variance
  }

  /** `sum(S.slice(0, k))`: the total of the first k values. */
  function Leading(S: seq<real>, k: nat): real
    requires k <= |S|
  {
    Sum(S[..k])
  }

  /** `result.required(variance)`: count k down from n - 1 to 0 and answer
      k + 1 at the first k whose leading share is below `variance`; answer 1
      when none is. */
  method Required(S: seq<real>, variance: real) returns (r: nat)
    ensures RequiredAnswer(S, variance, r)
  {
    var n := |S|;
    var k := n;
    while k > 0
      invariant 0 <= k <= n
      invariant forall j :: k <= j < n ==> !Below(S, j, variance)
    {
      k := k - 1;
      if Below(S, k, variance) {
        return k + 1;
      }
    }
    return 1;
  }

  /** What `required` answers: a count in [1, n] (1 when n = 0) such that
      the share before it is below `variance` (unless it is 1) and no larger
      count's share is. */
  ghost predicate RequiredAnswer(S: seq<real>, variance: real, r: nat)
  {
    && 1 <= r <= (if |S| == 0 then 1 else |S|)
    && (r > 1 ==> Below(S, r - 1, variance))
    && (forall j :: r <= j < |S| ==> !Below(S, j, variance))
  }

  predicate NonNegative(S: seq<real>)
  {
    forall i :: 0 <= i < |S| ==> S[i] >= 0.0
  }

  /** With non-negative values the leading sums only grow. */
  lemma {:induction false} PrefixMonotone(S: seq<real>, a: nat, b: nat)
    requires NonNegative(S) && a <= b <= |S|
    ensures Leading(S, a) <= Leading(S, b)
    decreases b - a
  {
    if a < b {
      PrefixMonotone(S, a, b - 1);
      assert S[..b][..b - 1] == S[..b - 1];
    }
  }

  /** Comparing a share of a positive total with a fraction. */
  lemma ShareBelow(a: real, t: real, v: real)
    requires t > 0.0
    ensures a / t < v <==> a < v * t
  {
    var q := a / t;
    assert a == q * t;
    if q < v {
      assert (v - q) * t > 0.0;
    } else {
      assert (q - v) * t >= 0.0;
    }
  }

  /** For singular values (non-negative, not all zero) the answer r of
      `required` is the least j >= 1 such that j = n or the first j values
      carry at least `variance` of the total: r itself qualifies ... */
  lemma RequiredStops(S: seq<real>, variance: real, r: nat)
    requires NonNegative(S) && Sum(S) > 0.0 && |S| >= 1
    requires RequiredAnswer(S, variance, r)
    ensures r == |S| || Leading(S, r) >= variance * Sum(S)
  {
    if r < |S| {
      StopsAt(S, variance, r);
    }
  }

  /** ... and no smaller j >= 1 does. */
  lemma RequiredPasses(S: seq<real>, variance: real, r: nat)
    requires NonNegative(S) && Sum(S) > 0.0 && |S| >= 1
    requires RequiredAnswer(S, variance, r)
    ensures forall j :: 1 <= j < r ==> Leading(S, j) < variance * Sum(S)
  {
    if r > 1 {
      ShareBelow(Leading(S, r - 1), Sum(S), variance);
      PassesBefore(S, variance * Sum(S), r - 1);
    }
  }

  lemma StopsAt(S: seq<real>, variance: real, k: nat)
    requires Sum(S) > 0.0 && k <= |S| && !Below(S, k, variance)
    ensures Leading(S, k) >= variance * Sum(S)
  {
    ShareBelow(Leading(S, k), Sum(S), variance);
  }

  /** Every shorter leading sum stays under a bound the first k stay under. */
  lemma PassesBefore(S: seq<real>, bound: real, k: nat)
    requires NonNegative(S) && k <= |S| && Leading(S, k) < bound
    ensures forall j :: 0 <= j <= k ==> Leading(S, j) < bound
  {
    forall j | 0 <= j <= k
      ensures Leading(S, j) < bound
    {
      PrefixMonotone(S, j, k);
    }
  }

  /** The second argument of the reducer: an array of component indices, a
      number c, or nothing. */
  datatype ComponentsArg = Indices(list: seq<int>) | Count(c: int) | Absent

  /** `_.range(c)`: 0, 1, ..., c - 1 (empty when c <= 0). */
  function Range(c: int): (r: seq<int>)
    ensures |r| == if c <= 0 then 0 else c
    ensures forall i :: 0 <= i < |r| ==> r[i] == i
  {
    if c <= 0 then [] else Range(c - 1) + [c - 1]
  }

  /** The components the reducer projects onto; `width` is the number of
      feature columns. */
  function Components(arg: ComponentsArg, width: nat): (r: seq<int>)
    ensures arg.Indices? ==> r == arg.list
    ensures arg.Count? ==>
      |r| == (if arg.c <= 0 then 0 else arg.c) && forall i :: 0 <= i < |r| ==> r[i] == i
    ensures arg.Absent? ==> |r| == width && forall i :: 0 <= i < |r| ==> r[i] == i
  {
    match arg
    case Indices(list) => list
    case Count(c) => Range(c)
    case Absent => Range(width)
  }

  /** Every component names a column of U, which has `width` columns. */
  predicate InColumns(comps: seq<int>, width: nat)
  {
    forall c :: 0 <= c < |comps| ==> 0 <= comps[c] < width
  }

  /** The columns of U the components pick, row by row. */
  function Select(U: seq<seq<real>>, width: nat, comps: seq<int>): (M: seq<seq<real>>)
    requires Rectangular(U, width) && InColumns(comps, width)
    ensures |M| == |U| && Rectangular(M, |comps|)
    ensures forall i, c :: 0 <= i < |U| && 0 <= c < |comps| ==> M[i][c] == U[i][comps[c]]
  {
    seq(|U|, i requires 0 <= i < |U| =>
      seq(|comps|, c requires 0 <= c < |comps| => U[i][comps[c]]))
  }

  /** A row vector times a matrix (numeric.dot of a vector and a matrix). */
  function VecMat(v: seq<real>, M: seq<seq<real>>, w: nat): (r: seq<real>)
    requires |M| == |v| && Rectangular(M, w)
    ensures |r| == w
  {
    seq(w, j requires 0 <= j < w => Dot(v, Column(M, j)))
  }

  /** The reducer: the feature vector projected onto the chosen components,
      one entry per component, each the dot product with that column of U. */
  function Project(v: seq<real>, U: seq<seq<real>>, width: nat, comps: seq<int>): (r: seq<real>)
    requires |U| == |v| && Rectangular(U, width) && InColumns(comps, width)
    ensures |r| == |comps|
    ensures forall c :: 0 <= c < |comps| ==> r[c] == Dot(v, Column(U, comps[c]))
  {
    var M := Select(U, width, comps);
    forall c | 0 <= c < |comps|
      ensures Column(M, c) == Column(U, comps[c])
    {
    }
    VecMat(v, M, |comps|)
  }
}
