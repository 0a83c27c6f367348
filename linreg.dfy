/** Linear regression (nerdy.linreg): the regularised least-squares cost and
    its gradient that the minimiser is handed, the starting coefficients,
    and the r² score of the fitted model. X is the feature matrix (one row
    per sample, the intercept column first when there is one), y the
    targets, theta the coefficients and lambda the regularisation weight. */
module Linreg {
  import opened Vectors
  import opened Wrappers
  import Stats

  /** What costFunction needs of its inputs: at least one sample, one
      target per sample, and one coefficient per feature column (at least
      one, since the intercept's entry of the gradient is written). */
  ghost predicate Fits(X: seq<seq<real>>, y: seq<real>, theta: seq<real>)
  {
    |X| >= 1 && |y| == |X| && |theta| >= 1 && Rectangular(X, |theta|)
  }

  /** The errors of the hypothesis: X theta - y. */
  function Residual(X: seq<seq<real>>, y: seq<real>, theta: seq<real>): (e: seq<real>)
    requires |y| == |X| && Rectangular(X, |theta|)
    ensures |e| == |X|
    ensures forall i :: 0 <= i < |X| ==> e[i] == Dot(X[i], theta) - y[i]
  {
    Sub(MatVec(X, theta), y)
  }

  /** The regularisation part of the cost: lambda / 2 / m times the squares
      of every coefficient except the intercept. */
  function Penalty(theta: seq<real>, lambda: real, m: nat): real
    requires |theta| >= 1 && m >= 1
  {
    (lambda / 2.0 / (m as real)) * SumSq(theta[1..])
  }

  /** The cost: the squared errors over 2m, plus the penalty. */
  function Cost(X: seq<seq<real>>, y: seq<real>, theta: seq<real>, lambda: real): real
    requires Fits(X, y, theta)
  {
    SumSq(Residual(X, y, theta)) / (2.0 * (|X| as real)) + Penalty(theta, lambda, |X|)
  }

  /** `reg`: lambda / m times theta, with the intercept's entry set to 0. */
  function Reg(theta: seq<real>, lambda: real, m: nat): (r: seq<real>)
    requires |theta| >= 1 && m >= 1
    ensures |r| == |theta| && r[0] == 0.0
    ensures forall k :: 1 <= k < |r| ==> r[k] == lambda / (m as real) * theta[k]
  {
    Scale(theta, lambda / (m as real))[0 := 0.0]
  }

  /** Xᵀ e: one dot product per feature column. */
  function TransposeTimes(X: seq<seq<real>>, e: seq<real>, n: nat): (r: seq<real>)
    requires |e| == |X| && Rectangular(X, n)
    ensures |r| == n
  {
    seq(n, j requires 0 <= j < n => Dot(Column(X, j), e))
  }

  /** Pointwise division of a vector by m. */
  function Over(v: seq<real>, m: nat): (r: seq<real>)
    requires m >= 1
    ensures |r| == |v|
  {
    seq(|v|, i requires 0 <= i < |v| => v[i] / (m as real))
  }

  /** The gradient: Xᵀ(X theta - y) / m + reg. Entry j is column j's
      correlation with the errors over m, plus lambda / m times theta[j]
      for every j except the intercept. */
  function Gradient(X: seq<seq<real>>, y: seq<real>, theta: seq<real>, lambda: real): (g: seq<real>)
    requires Fits(X, y, theta)
    ensures |g| == |theta|
    ensures forall j :: 0 <= j < |g| ==>
      g[j] == Dot(Column(X, j), Residual(X, y, theta)) / (|X| as real)
              + (if j == 0 then 0.0 else lambda / (|X| as real) * theta[j])
  {
    var m := |X|;
    Add(Over(TransposeTimes(X, Residual(X, y, theta), |theta|), m), Reg(theta, lambda, m))
  }

  /** The coefficients the minimiser starts from: zero, one per column of
      the first sample. */
  function InitialTheta(X: seq<seq<real>>): (theta: seq<real>)
    requires |X| >= 1
    ensures |theta| == |X[0]|
    ensures forall k :: 0 <= k < |theta| ==> theta[k] == 0.0
  {
    Zeros(|X[0]|)
  }

  // ---------------------------------------------------------------- lemmas

  /** With lambda >= 0 the cost is never negative. */
  lemma CostNonNegative(X: seq<seq<real>>, y: seq<real>, theta: seq<real>, lambda: real)
    requires Fits(X, y, theta) && lambda >= 0.0
    ensures Cost(X, y, theta, lambda) >= 0.0
  {
    var m := |X| as real;
    SumSqNonNegative(Residual(X, y, theta));
    SumSqNonNegative(theta[1..]);
    assert lambda / 2.0 / m >= 0.0;
  }

  /** The intercept is never penalised: two coefficient vectors that differ
      only in the intercept have the same penalty and the same reg vector. */
  lemma InterceptFree(theta: seq<real>, theta': seq<real>, lambda: real, m: nat)
    requires |theta| == |theta'| >= 1 && m >= 1
    requires forall k :: 1 <= k < |theta| ==> theta[k] == theta'[k]
    ensures Penalty(theta, lambda, m) == Penalty(theta', lambda, m)
    ensures Reg(theta, lambda, m) == Reg(theta', lambda, m)
  {
    assert theta[1..] == theta'[1..];
    var r, r' := Reg(theta, lambda, m), Reg(theta', lambda, m);
    assert forall k :: 0 <= k < |r| ==> r[k] == r'[k];
  }

  lemma {:induction false} DotZeros(v: seq<real>, z: seq<real>)
    requires |v| == |z| && forall i :: 0 <= i < |z| ==> z[i] == 0.0
    ensures Dot(v, z) == 0.0
  {
    if v != [] {
      DotZeros(v[..|v| - 1], z[..|z| - 1]);
    }
  }

  /** Without regularisation, coefficients that reproduce every target
      exactly cost nothing and have a zero gradient. */
  lemma PerfectFit(X: seq<seq<real>>, y: seq<real>, theta: seq<real>)
    requires Fits(X, y, theta) && MatVec(X, theta) == y
    ensures Cost(X, y, theta, 0.0) == 0.0
    ensures forall j :: 0 <= j < |theta| ==> Gradient(X, y, theta, 0.0)[j] == 0.0
  {
    var e := Residual(X, y, theta);
    assert forall i :: 0 <= i < |e| ==> e[i] == 0.0;
    SumSqZero(e);
    forall j | 0 <= j < |theta|
      ensures Gradient(X, y, theta, 0.0)[j] == 0.0
    {
      DotZeros(Column(X, j), e);
    }
  }

  lemma {:induction false} SumSqNegate(a: seq<real>, b: seq<real>)
    requires |a| == |b| && forall i :: 0 <= i < |a| ==> a[i] == -b[i]
    ensures SumSq(a) == SumSq(b)
  {
    if a != [] {
      SumSqNegate(a[..|a| - 1], b[..|b| - 1]);
    }
  }

  /** At the starting point the hypothesis is zero, so the cost is the
      squared targets over 2m, whatever lambda is. */
  lemma {:induction false} InitialCost(X: seq<seq<real>>, y: seq<real>, lambda: real)
    requires |X| >= 1 && |X[0]| >= 1 && Rectangular(X, |X[0]|) && |y| == |X|
    ensures Fits(X, y, InitialTheta(X))
    ensures Cost(X, y, InitialTheta(X), lambda) == SumSq(y) / (2.0 * (|X| as real))
  {
    var theta := InitialTheta(X);
    var e := Residual(X, y, theta);
    forall i | 0 <= i < |X|
      ensures e[i] == -y[i]
    {
      DotZeros(X[i], theta);
    }
    SumSqNegate(e, y);
    SumSqZero(theta[1..]);
  }

  // -------------------------------------------------------------------- r²

  /** `result.r2`: the regression sum of squares ss(H - mean(y)) over the
      total sum of squares ss(y - mean(y)), H being X theta. When every
      target equals the mean the quotient is 0/0 or x/0 in the library
      (NaN or Infinity), here None. */
  function R2(X: seq<seq<real>>, y: seq<real>, theta: seq<real>): (r: Option<real>)
    requires |X| >= 1 && |y| == |X| && Rectangular(X, |theta|)
  {
    var mean := Stats.Mean(y).value;
    var regression := SumSq(Shift(MatVec(X, theta), mean));
    var total := SumSq(Shift(y, mean));
    if total == 0.0 then None else Some(regression / total)
  }

  /** When every target is equal there is no variance to explain and r²
      is undefined. */
  lemma R2Undefined(X: seq<seq<real>>, y: seq<real>, theta: seq<real>)
    requires |X| >= 1 && |y| == |X| && Rectangular(X, |theta|)
    requires forall i :: 0 <= i < |y| ==> y[i] == y[0]
    ensures R2(X, y, theta).None?
  {
    ConstantMean(y);
    var d := Shift(y, Stats.Mean(y).value);
    assert forall i :: 0 <= i < |d| ==> d[i] == 0.0;
    SumSqZero(d);
  }

  lemma {:induction false} ConstantSum(y: seq<real>, c: real)
    requires forall i :: 0 <= i < |y| ==> y[i] == c
    ensures Sum(y) == |y| as real * c
  {
    if y != [] {
      ConstantSum(y[..|y| - 1], c);
    }
  }

  /** The mean of equal values is that value. */
  lemma ConstantMean(y: seq<real>)
    requires |y| >= 1 && forall i :: 0 <= i < |y| ==> y[i] == y[0]
    ensures Stats.Mean(y).value == y[0]
  {
    ConstantSum(y, y[0]);
    var n := |y| as real;
    assert Sum(y) / n == n * y[0] / n;
  }

  /** r² is never negative, and it is 1 when the hypothesis reproduces the
      targets. */
  lemma {:induction false} R2Bounds(X: seq<seq<real>>, y: seq<real>, theta: seq<real>)
    requires |X| >= 1 && |y| == |X| && Rectangular(X, |theta|)
    ensures R2(X, y, theta).Some? ==> R2(X, y, theta).value >= 0.0
    ensures R2(X, y, theta).Some? && MatVec(X, theta) == y ==> R2(X, y, theta).value == 1.0
  {
    var mean := Stats.Mean(y).value;
    var regression := SumSq(Shift(MatVec(X, theta), mean));
    var total := SumSq(Shift(y, mean));
    SumSqNonNegative(Shift(MatVec(X, theta), mean));
    SumSqNonNegative(Shift(y, mean));
    if total != 0.0 {
      QuotientNonNegative(regression, total);
      if MatVec(X, theta) == y {
        SelfQuotient(regression, total);
      }
    }
  }

  lemma SelfQuotient(a: real, t: real)
    requires a == t && t != 0.0
    ensures a / t == 1.0
  {
  }

  lemma QuotientNonNegative(a: real, t: real)
    requires a >= 0.0 && t > 0.0
    ensures a / t >= 0.0
  {
    var q := a / t;
    assert q * t == a;
  }
}
