/** nerdy.svm (src/svm.js): a support vector machine trained with the
    simplified SMO algorithm. The dual coefficients live in an array updated
    in place; the bias and the iteration counters are fields of the trainer.
    The kernel is a parameter; the random partner choice is a caller-supplied
    function, and the rejection loop that draws it is modelled on its own. */
module Svm {
  import opened Wrappers
  import opened Vectors

  type Kernel = (seq<real>, seq<real>) -> real

  /** The labels: +1 for a truthy target, -1 otherwise. */
  function Labels(targets: seq<bool>): (y: seq<real>)
    ensures |y| == |targets|
    ensures forall i :: 0 <= i < |y| ==> (y[i] == 1.0 <==> targets[i]) && (y[i] == 1.0 || y[i] == -1.0)
  {
    seq(|targets|, i requires 0 <= i < |targets| => if targets[i] then 1.0 else -1.0)
  }

  predicate IsLabels(y: seq<real>)
  {
    forall i :: 0 <= i < |y| ==> y[i] == 1.0 || y[i] == -1.0
  }

  /** Every coefficient lies in [0, C]. */
  predicate InBox(a: seq<real>, C: real)
  {
    forall i :: 0 <= i < |a| ==> 0.0 <= a[i] <= C
  }

  function Max(x: real, y: real): real { if x >= y then x else y }
  function Min(x: real, y: real): real { if x <= y then x else y }

  // ---------------------------------------------------------------------------
  // The linear kernel
  // ---------------------------------------------------------------------------

  /** kernels.linear: the dot product, accumulated over v1's positions. */
  method LinearKernel(v1: seq<real>, v2: seq<real>) returns (s: real)
    requires |v1| == |v2|
    ensures s == Dot(v1, v2)
  {
    s := 0.0;
    for q := 0 to |v1|
      invariant s == Dot(v1[..q], v2[..q])
    {
      assert v1[..q + 1][..q] == v1[..q] && v2[..q + 1][..q] == v2[..q];
      s := s + v1[q] * v2[q];
    }
    assert v1[..|v1|] == v1 && v2[..|v2|] == v2;
  }

  /** The linear kernel is symmetric. */
  lemma {:induction false} LinearSymmetric(v1: seq<real>, v2: seq<real>)
    requires |v1| == |v2|
    ensures Dot(v1, v2) == Dot(v2, v1)
    decreases |v1|
  {
    if v1 != [] {
      LinearSymmetric(v1[..|v1| - 1], v2[..|v2| - 1]);
    }
  }

  // ---------------------------------------------------------------------------
  // The score
  // ---------------------------------------------------------------------------

  /** The signed coefficient alpha[k] * y[k] of sample k. */
  function Coef(alpha: seq<real>, y: seq<real>, k: nat): real
    requires k < |alpha| && k < |y|
  {
    alpha[k] * y[k]
  }

  /** Sum over the first |alpha| samples of alpha[k] * y[k] * K(v, X[k]). */
  function Support(alpha: seq<real>, y: seq<real>, X: seq<seq<real>>, K: Kernel, v: seq<real>): real
    requires |alpha| <= |y| && |alpha| <= |X|
  {
    if alpha == [] then 0.0
    else
      var k := |alpha| - 1;
      Support(alpha[..k], y, X, K, v) + Coef(alpha, y, k) * K(v, X[k])
  }

  /** With every coefficient zero the kernel terms vanish, so an untrained
      machine scores every vector at its bias. */
  lemma {:induction false} SupportOfZeros(alpha: seq<real>, y: seq<real>, X: seq<seq<real>>, K: Kernel, v: seq<real>)
    requires |alpha| <= |y| && |alpha| <= |X|
    requires forall k :: 0 <= k < |alpha| ==> alpha[k] == 0.0
    ensures Support(alpha, y, X, K, v) == 0.0
    decreases |alpha|
  {
    if alpha != [] {
      SupportOfZeros(alpha[..|alpha| - 1], y, X, K, v);
    }
  }

  /** The weight vector sum of alpha[k] * y[k] * X[k]. */
  function Weights(alpha: seq<real>, y: seq<real>, X: seq<seq<real>>, d: nat): (w: seq<real>)
    requires |alpha| <= |y| && |alpha| <= |X|
    requires forall k :: 0 <= k < |X| ==> |X[k]| == d
    ensures |w| == d
  {
    if alpha == [] then Zeros(d)
    else
      var k := |alpha| - 1;
      Add(Weights(alpha[..k], y, X, d), Scale(X[k], Coef(alpha, y, k)))
  }

  lemma {:induction false} DotAdd(a: seq<real>, b: seq<real>, v: seq<real>)
    requires |a| == |b| == |v|
    ensures Dot(Add(a, b), v) == Dot(a, v) + Dot(b, v)
    decreases |a|
  {
    if a != [] {
      var n := |a| - 1;
      assert Add(a, b)[..n] == Add(a[..n], b[..n]);
      DotAdd(a[..n], b[..n], v[..n]);
    }
  }

  lemma {:induction false} DotScale(a: seq<real>, c: real, v: seq<real>)
    requires |a| == |v|
    ensures Dot(Scale(a, c), v) == c * Dot(a, v)
    decreases |a|
  {
    if a != [] {
      var n := |a| - 1;
      forall i | 0 <= i < n ensures Scale(a, c)[..n][i] == Scale(a[..n], c)[i] {
      }
      assert Scale(a, c)[..n] == Scale(a[..n], c);
      DotScale(a[..n], c, v[..n]);
      assert Scale(a, c)[n] * v[n] == c * (a[n] * v[n]);
    }
  }

  lemma {:induction false} DotZeros(v: seq<real>)
    ensures Dot(Zeros(|v|), v) == 0.0
    decreases |v|
  {
    if v != [] {
      assert Zeros(|v|)[..|v| - 1] == Zeros(|v| - 1);
      DotZeros(v[..|v| - 1]);
    }
  }

  /** With the linear kernel the score is affine: the kernel sum equals the
      dot product of the query with the weight vector, so the classifier
      splits the space with a hyperplane. */
  lemma LinearScoreIsHyperplane(alpha: seq<real>, y: seq<real>, X: seq<seq<real>>, K: Kernel, v: seq<real>)
    requires |alpha| <= |y| && |alpha| <= |X|
    requires forall k :: 0 <= k < |X| ==> |X[k]| == |v|
    requires forall k :: 0 <= k < |alpha| ==> K(v, X[k]) == Dot(v, X[k])
    ensures Support(alpha, y, X, K, v) == Dot(Weights(alpha, y, X, |v|), v)
  {
    SupportIsWeights(alpha, y, X, K, v, |v|);
  }

  /** LinearScoreIsHyperplane, by induction on the number of samples, for
      vectors of dimension d. */
  lemma {:induction false} SupportIsWeights(alpha: seq<real>, y: seq<real>, X: seq<seq<real>>, K: Kernel, v: seq<real>, d: nat)
    requires d == |v| && |alpha| <= |y| && |alpha| <= |X|
    requires forall k :: 0 <= k < |X| ==> |X[k]| == d
    requires forall k :: 0 <= k < |alpha| ==> K(v, X[k]) == Dot(v, X[k])
    ensures Support(alpha, y, X, K, v) == Dot(Weights(alpha, y, X, d), v)
    decreases |alpha|
  {
    if alpha == [] {
      DotZeros(v);
    } else {
      var k := |alpha| - 1;
      SupportIsWeights(alpha[..k], y, X, K, v, d);
      assert K(v, X[k]) == Dot(X[k], v) by {
        LinearSymmetric(v, X[k]);
      }
      SupportWeightsStep(alpha, y, X, K, v, d, k);
    }
  }

  /** The inductive step of SupportIsWeights: when the kernel agrees with
      the dot product on sample k = |alpha| - 1, adding that sample keeps
      the kernel sum equal to the dot product with the weights. */
  lemma {:induction false} SupportWeightsStep(alpha: seq<real>, y: seq<real>, X: seq<seq<real>>, K: Kernel, v: seq<real>, d: nat, k: nat)
    requires d == |v| && k + 1 == |alpha| && |alpha| <= |y| && |alpha| <= |X|
    requires forall k :: 0 <= k < |X| ==> |X[k]| == d
    requires Support(alpha[..k], y, X, K, v) == Dot(Weights(alpha[..k], y, X, d), v)
    requires K(v, X[k]) == Dot(X[k], v)
    ensures Support(alpha, y, X, K, v) == Dot(Weights(alpha, y, X, d), v)
  {
    SupportStep(alpha, y, X, K, v, k);
    WeightsDot(alpha, y, X, v, d, k);
  }

  /** Support with the last sample k = |alpha| - 1 split off, where the
      kernel agrees with the dot product on that sample: the new term is
      the dot product of v with the sample scaled by its coefficient. */
  lemma {:induction false} SupportStep(alpha: seq<real>, y: seq<real>, X: seq<seq<real>>, K: Kernel, v: seq<real>, k: nat)
    requires k + 1 == |alpha| && |alpha| <= |y| && |alpha| <= |X| && |X[k]| == |v|
    requires K(v, X[k]) == Dot(X[k], v)
    ensures Support(alpha, y, X, K, v) == Support(alpha[..k], y, X, K, v) + Dot(Scale(X[k], Coef(alpha, y, k)), v)
  {
    DotScale(X[k], Coef(alpha, y, k), v);
  }

  /** Adding sample k = |alpha| - 1 to the weights adds its scaled vector
      to their dot product with v. */
  lemma {:induction false} WeightsDot(alpha: seq<real>, y: seq<real>, X: seq<seq<real>>, v: seq<real>, d: nat, k: nat)
    requires d == |v| && k + 1 == |alpha| && |alpha| <= |y| && |alpha| <= |X|
    requires forall k :: 0 <= k < |X| ==> |X[k]| == d
    ensures Dot(Weights(alpha, y, X, d), v)
            == Dot(Weights(alpha[..k], y, X, d), v) + Dot(Scale(X[k], Coef(alpha, y, k)), v)
  {
    var w := Weights(alpha[..k], y, X, d);
    var sx := Scale(X[k], Coef(alpha, y, k));
    assert Weights(alpha, y, X, d) == Add(w, sx);
    DotAdd(w, sx, v);
  }

  // ---------------------------------------------------------------------------
  // One pair update, on values
  // ---------------------------------------------------------------------------

  /** What the update of the pair (i, j) reads: labels, coefficients, errors
      and the three kernel values. */
  datatype Pair = Pair(yi: real, yj: real, ai: real, aj: real, Ei: real, Ej: real, kii: real, kij: real, kjj: real)

  /** L and H: the range alpha[j] may take so that both coefficients stay in
      the box on the line the pair must stay on. */
  function Bounds(p: Pair, C: real): (real, real)
  {
    if p.yi == p.yj then (Max(0.0, p.ai + p.aj - C), Min(C, p.ai + p.aj))
    else (Max(0.0, p.aj - p.ai), Min(C, C + p.aj - p.ai))
  }

  /** The two clipping statements, in source order. */
  function Clip(v: real, L: real, H: real): (r: real)
    ensures L <= H ==> L <= r <= H
    ensures L <= v <= H ==> r == v
  {
    var w := if v > H then H else v;
    if w < L then L else w
  }

  /** The bias an accepted update leaves: b2 when the new alpha[j] is strictly
      inside (0, C), else b1 when the new alpha[i] is, else their mean. */
  function Bias(b1: real, b2: real, newai: real, newaj: real, C: real): real
  {
    if 0.0 < newaj < C then b2 else if 0.0 < newai < C then b1 else 0.5 * (b1 + b2)
  }

  datatype Outcome = Skipped | Updated(newai: real, newaj: real, b: real)

  /** eta = 2 K(i, j) - K(i, i) - K(j, j). */
  function Eta(p: Pair): real
  {
    2.0 * p.kij - p.kii - p.kjj
  }

  /** The unclipped new alpha[j]. */
  function Target(p: Pair, eta: real): real
    requires eta != 0.0
  {
    p.aj - p.yj * (p.Ei - p.Ej) / eta
  }

  /** The new alpha[i] that keeps the pair on its line. */
  function Partner(p: Pair, newaj: real): real
  {
    p.ai + p.yi * p.yj * (p.aj - newaj)
  }

  function B1(p: Pair, b: real, newai: real, newaj: real): real
  {
    b - p.Ei - p.yi * (newai - p.ai) * p.kii - p.yj * (newaj - p.aj) * p.kij
  }

  function B2(p: Pair, b: real, newai: real, newaj: real): real
  {
    b - p.Ej - p.yi * (newai - p.ai) * p.kij - p.yj * (newaj - p.aj) * p.kjj
  }

  /** The pair update as the training loop performs it: skipped when
      |L - H| < tol, when eta >= 0, or when alpha[j] would move by less than
      tol. */
  function PairStep(p: Pair, b: real, C: real, tol: real): (o: Outcome)
    ensures o.Updated? ==> Abs(o.newaj - p.aj) >= tol
  {
    var (L, H) := Bounds(p, C);
    if Abs(L - H) < tol || Eta(p) >= 0.0 then Skipped
    else
      var newaj := Clip(Target(p, Eta(p)), L, H);
      if Abs(p.aj - newaj) < tol then Skipped
      else
        var newai := Partner(p, newaj);
        Updated(newai, newaj, Bias(B1(p, b, newai, newaj), B2(p, b, newai, newaj), newai, newaj, C))
  }

  predicate IsLabel(x: real) { x == 1.0 || x == -1.0 }

  /** L <= H whenever both coefficients start in the box. */
  lemma BoundsOrdered(p: Pair, C: real)
    requires 0.0 <= p.ai <= C && 0.0 <= p.aj <= C
    ensures Bounds(p, C).0 <= Bounds(p, C).1
  {
  }

  /** An accepted update keeps both coefficients in [0, C]. */
  lemma PairStepInBox(p: Pair, b: real, C: real, tol: real)
    requires IsLabel(p.yi) && IsLabel(p.yj)
    requires 0.0 <= p.ai <= C && 0.0 <= p.aj <= C
    ensures var o := PairStep(p, b, C, tol);
              o.Updated? ==> 0.0 <= o.newai <= C && 0.0 <= o.newaj <= C
  {
    var o := PairStep(p, b, C, tol);
    if o.Updated? {
      var (L, H) := Bounds(p, C);
      BoundsOrdered(p, C);
      assert L <= o.newaj <= H;
      if p.yi == p.yj {
        assert p.yi * p.yj == 1.0;
        assert o.newai == p.ai + (p.aj - o.newaj);
      } else {
        assert p.yi * p.yj == -1.0;
        assert o.newai == p.ai - (p.aj - o.newaj);
      }
    }
  }

  /** An accepted update moves along the line y[i] * alpha[i] + y[j] * alpha[j]
      = constant. */
  lemma PairStepConserves(p: Pair, b: real, C: real, tol: real)
    requires IsLabel(p.yi) && IsLabel(p.yj)
    ensures var o := PairStep(p, b, C, tol);
              o.Updated? ==> p.yi * o.newai + p.yj * o.newaj == p.yi * p.ai + p.yj * p.aj
  {
    var o := PairStep(p, b, C, tol);
    if o.Updated? {
      var d := p.aj - o.newaj;
      assert o.newai == p.ai + p.yi * p.yj * d;
      assert p.yi * p.yi == 1.0;
      calc {
        p.yi * o.newai + p.yj * o.newaj;
        p.yi * p.ai + (p.yi * p.yi) * p.yj * d + p.yj * o.newaj;
        p.yi * p.ai + p.yj * d + p.yj * o.newaj;
        p.yi * p.ai + p.yj * p.aj;
      }
    }
  }

  /** Changing one coefficient changes the weighted sum by its label times
      the change. */
  lemma {:induction false} DotUpdate(y: seq<real>, a: seq<real>, k: nat, v: real)
    requires |y| == |a| && k < |a|
    ensures Dot(y, a[k := v]) == Dot(y, a) + y[k] * (v - a[k])
    decreases |a|
  {
    var n := |a| - 1;
    if k < n {
      assert a[k := v][..n] == a[..n][k := v];
      DotUpdate(y[..n], a[..n], k, v);
    } else {
      assert a[k := v][..n] == a[..n];
    }
  }

  /** The statements of the pair update, from the bounds to the bias, on the
      values they read: they compute exactly PairStep. */
  method UpdatePair(p: Pair, b: real, C: real, tol: real) returns (o: Outcome)
    ensures o == PairStep(p, b, C, tol)
  {
    var ai, aj := p.ai, p.aj;
    var L, H := 0.0, C;
    if p.yi == p.yj {
      L := Max(0.0, ai + aj - C);
      H := Min(C, ai + aj);
    } else {
      L := Max(0.0, aj - ai);
      H := Min(C, C + aj - ai);
    }
    assert (L, H) == Bounds(p, C);
    if Abs(L - H) < tol {
      return Skipped;
    }
    var eta := Eta(p);
    if eta >= 0.0 {
      return Skipped;
    }
    var newaj := Target(p, eta);
    if newaj > H {
      newaj := H;
    }
    if newaj < L {
      newaj := L;
    }
    assert newaj == Clip(Target(p, eta), L, H);
    if Abs(aj - newaj) < tol {
      return Skipped;
    }
    var newai := Partner(p, newaj);
    var b1, b2 := B1(p, b, newai, newaj), B2(p, b, newai, newaj);
    var nb := 0.5 * (b1 + b2);
    if newai > 0.0 && newai < C {
      nb := b1;
    }
    if newaj > 0.0 && newaj < C {
      nb := b2;
    }
    assert nb == Bias(b1, b2, newai, newaj, C);
    o := Updated(newai, newaj, nb);
  }

  /** Moving two coefficients along their line keeps the weighted sum. */
  lemma BalanceKept(yi: real, yj: real, y: seq<real>, a: seq<real>, i: nat, j: nat, vi: real, vj: real)
    requires |y| == |a| && i < |a| && j < |a| && i != j && y[i] == yi && y[j] == yj
    requires yi * vi + yj * vj == yi * a[i] + yj * a[j]
    ensures Dot(y, a[j := vj][i := vi]) == Dot(y, a)
  {
    DotUpdate(y, a, j, vj);
    DotUpdate(y, a[j := vj], i, vi);
    assert y[j] * (vj - a[j]) + y[i] * (vi - a[i]) == 0.0;
  }

  // ---------------------------------------------------------------------------
  // The partner choice
  // ---------------------------------------------------------------------------

  /** The loop `while (j === i) j = floor(random * n)` run over a finite
      stream of draws: the first draw other than i, or none when every draw
      equals i. */
  method PickPartner(i: nat, draws: seq<nat>) returns (j: Option<nat>)
    ensures j.Some? ==> exists k :: 0 <= k < |draws| && draws[k] == j.value && j.value != i
                          && forall m :: 0 <= m < k ==> draws[m] == i
    ensures j.None? <==> forall m :: 0 <= m < |draws| ==> draws[m] == i
  {
    var k := 0;
    while k < |draws| && draws[k] == i
      invariant 0 <= k <= |draws|
      invariant forall m :: 0 <= m < k ==> draws[m] == i
    {
      k := k + 1;
    }
    if k == |draws| {
      j := None;
    } else {
      j := Some(draws[k]);
    }
  }

  /** With a single sample every draw floor(random * 1) is 0, so no stream
      of draws ever yields a partner: the loop never ends. */
  method SingleSampleNeverPairs(draws: seq<nat>) returns (j: Option<nat>)
    requires forall m :: 0 <= m < |draws| ==> draws[m] < 1
    ensures j.None?
  {
    j := PickPartner(0, draws);
  }

  // ---------------------------------------------------------------------------
  // The trainer
  // ---------------------------------------------------------------------------

  /** The options the trainer reads; an absent one takes its default. */
  datatype Options = Options(C: Option<real>, tol: Option<real>, iterations: Option<nat>, numpasses: Option<nat>)

  function OrElse<T>(o: Option<T>, d: T): T
  {
    if o.Some? then o.value else d
  }

  /** `options.numpasses || 10`: an absent or zero count means 10. */
  function NumPasses(given: Option<nat>): (r: nat)
    ensures r >= 1
    ensures given.Some? && given.value != 0 ==> r == given.value
    ensures given.None? || given.value == 0 ==> r == 10
  {
    if given.None? || given.value == 0 then 10 else given.value
  }

  class Trainer {
    const X: seq<seq<real>>
    const y: seq<real>
    const n: nat
    const C: real
    const tol: real
    const iterations: nat
    const numpasses: nat
    const kernel: Kernel
    const alpha: array<real>
    var b: real
    var iter: nat
    var passes: nat

    ghost predicate Valid()
      reads this
    {
      n == |X| == |y| == alpha.Length && IsLabels(y)
    }

    /** Options filled with their defaults (C = 1, tol = 1e-4, 10000
        iterations), labels from the targets, every coefficient 0, bias 0 and
        both counters 0. */
    constructor (X: seq<seq<real>>, targets: seq<bool>, options: Options, kernel: Kernel)
      requires |targets| == |X|
      ensures Valid() && fresh(alpha)
      ensures this.X == X && y == Labels(targets) && this.kernel == kernel
      ensures C == OrElse(options.C, 1.0) && tol == OrElse(options.tol, 0.0001)
      ensures iterations == OrElse(options.iterations, 10000) && numpasses == NumPasses(options.numpasses)
      ensures forall k :: 0 <= k < n ==> alpha[k] == 0.0
      ensures b == 0.0 && iter == 0 && passes == 0
      ensures C >= 0.0 ==> InBox(alpha[..], C)
    {
      this.X := X;
      y := Labels(targets);
      n := |X|;
      C := OrElse(options.C, 1.0);
      tol := OrElse(options.tol, 0.0001);
      iterations := OrElse(options.iterations, 10000);
      numpasses := NumPasses(options.numpasses);
      this.kernel := kernel;
      alpha := new real[|X|](_ => 0.0);
      b := 0.0;
      iter := 0;
      passes := 0;
    }

    /** The decision value bb + sum of a[k] * y[k] * K(v, X[k]) for the
        coefficients a and the bias bb. */
    ghost function ScoreOf(a: seq<real>, bb: real, v: seq<real>): real
      requires |a| <= |y| && |a| <= |X|
    {
      bb + Support(a, y, X, kernel, v)
    }

    /** The decision value of the current state. */
    ghost function Score(v: seq<real>): real
      reads this, alpha
      requires Valid()
    {
      ScoreOf(alpha[..], b, v)
    }

    /** marginOne(vector). */
    method MarginOne(v: seq<real>) returns (f: real)
      requires Valid()
      ensures f == Score(v)
    {
      f := b;
      for k := 0 to n
        invariant f == b + Support(alpha[..k], y, X, kernel, v)
      {
        assert alpha[..k + 1][..k] == alpha[..k];
        f := f + alpha[k] * y[k] * kernel(v, X[k]);
        assert Coef(alpha[..k + 1], y, k) == alpha[k] * y[k];
      }
      assert alpha[..n] == alpha[..];
    }

    /** The classifier: true exactly when the score is positive. */
    method Classify(v: seq<real>) returns (c: bool)
      requires Valid()
      ensures c <==> Score(v) > 0.0
    {
      var s := MarginOne(v);
      c := s > 0.0;
    }

    /** The KKT test on alpha[i] = ai: it needs updating. */
    predicate Violates(i: nat, ai: real, Ei: real)
      requires i < |y|
    {
      (y[i] * Ei < -tol && ai < C) || (y[i] * Ei > tol && ai > 0.0)
    }

    /** The outcome of updating the pair (i, j) from the coefficients a and
        the bias bb, with Ej computed from the score of X[j]. */
    ghost function OutcomeOf(a: seq<real>, bb: real, i: nat, j: nat, Ei: real): Outcome
      requires |a| == |y| == |X| && i < |a| && j < |a|
    {
      var Ej := ScoreOf(a, bb, X[j]) - y[j];
      PairStep(Pair(y[i], y[j], a[i], a[j], Ei, Ej,
                    kernel(X[i], X[i]), kernel(X[i], X[j]), kernel(X[j], X[j])), bb, C, tol)
    }

    /** One index of the reference sweep: when alpha[i] violates the KKT
        test, the pair (i, pick(it, i)) is updated and counted if the update
        is accepted. Only an accepted update changes anything, and it adds
        one to the count. */
    ghost function SweepNext(i: nat, a: seq<real>, bb: real, count: nat, it: nat, pick: (nat, nat) -> nat)
      : (r: (seq<real>, real, nat))
      requires |a| == |y| == |X| && i < |a|
      requires forall k :: 0 <= k < |a| ==> pick(it, k) < |a| && pick(it, k) != k
      ensures |r.0| == |a|
      ensures r.2 == count || r.2 == count + 1
      ensures r.2 == count ==> r.0 == a && r.1 == bb
    {
      var Ei := ScoreOf(a, bb, X[i]) - y[i];
      if Violates(i, a[i], Ei) then
        var j := pick(it, i);
        var o := OutcomeOf(a, bb, i, j, Ei);
        if o.Updated? then (a[j := o.newaj][i := o.newai], o.b, count + 1)
        else (a, bb, count)
      else (a, bb, count)
    }

    /** The reference sweep: SweepNext for every index from i to the end.
        Gives the final coefficients, bias and count. */
    ghost function SweepFrom(i: nat, a: seq<real>, bb: real, count: nat, it: nat, pick: (nat, nat) -> nat)
      : (r: (seq<real>, real, nat))
      requires |a| == |y| == |X| && i <= |a|
      requires forall k :: 0 <= k < |a| ==> pick(it, k) < |a| && pick(it, k) != k
      ensures |r.0| == |a|
      decreases |a| - i
    {
      if i == |a| then (a, bb, count)
      else
        var s := SweepNext(i, a, bb, count, it, pick);
        SweepFrom(i + 1, s.0, s.1, s.2, it, pick)
    }

    /** One index of the reference sweep, for a known result of SweepNext. */
    lemma SweepStep(i: nat, a: seq<real>, bb: real, count: nat, it: nat, pick: (nat, nat) -> nat,
                    a': seq<real>, bb': real, count': nat)
      requires |a| == |y| == |X| && i < |a|
      requires forall k :: 0 <= k < |a| ==> pick(it, k) < |a| && pick(it, k) != k
      requires (a', bb', count') == SweepNext(i, a, bb, count, it, pick)
      ensures |a'| == |a|
      ensures SweepFrom(i, a, bb, count, it, pick) == SweepFrom(i + 1, a', bb', count', it, pick)
    {
    }

    /** The reference sweep only adds to the count, and a sweep that adds
        nothing leaves the coefficients and the bias as they were. */
    lemma {:induction false} SweepQuiet(i: nat, a: seq<real>, bb: real, count: nat, it: nat,
                                        pick: (nat, nat) -> nat)
      requires |a| == |y| == |X| && i <= |a|
      requires forall k :: 0 <= k < |a| ==> pick(it, k) < |a| && pick(it, k) != k
      ensures var r := SweepFrom(i, a, bb, count, it, pick);
              r.2 >= count && (r.2 == count ==> r.0 == a && r.1 == bb)
      decreases |a| - i
    {
      if i < |a| {
        var s := SweepNext(i, a, bb, count, it, pick);
        SweepQuiet(i + 1, s.0, s.1, s.2, it, pick);
      }
    }

    /** The reference training loop: sweeps, counting iterations and quiet
        passes, until numpasses quiet passes in a row or the iteration cap.
        Gives the final coefficients, bias, iteration and pass counts. */
    ghost function TrainFrom(a: seq<real>, bb: real, it: nat, ps: nat, pick: (nat, nat) -> nat)
      : (r: (seq<real>, real, nat, nat))
      requires |a| == |y| == |X|
      requires forall t, k :: 0 <= k < |a| ==> pick(t, k) < |a| && pick(t, k) != k
      ensures r.3 >= numpasses || r.2 >= iterations
      decreases iterations - it
    {
      if ps >= numpasses || it >= iterations then (a, bb, it, ps)
      else
        var s := SweepFrom(0, a, bb, 0, it, pick);
        TrainFrom(s.0, s.1, it + 1, if s.2 == 0 then ps + 1 else 0, pick)
    }

    /** The reference training loop stops at or before the iteration cap
        and keeps the number of coefficients. */
    lemma {:induction false} TrainWithinCap(a: seq<real>, bb: real, it: nat, ps: nat,
                                            pick: (nat, nat) -> nat)
      requires |a| == |y| == |X| && it <= iterations
      requires forall t, k :: 0 <= k < |a| ==> pick(t, k) < |a| && pick(t, k) != k
      ensures var r := TrainFrom(a, bb, it, ps, pick);
              it <= r.2 <= iterations && |r.0| == |a|
      decreases iterations - it
    {
      if ps < numpasses && it < iterations {
        var s := SweepFrom(0, a, bb, 0, it, pick);
        TrainWithinCap(s.0, s.1, it + 1, if s.2 == 0 then ps + 1 else 0, pick);
      }
    }

    /** One round of the reference training loop, for a known sweep result. */
    lemma TrainStep(a: seq<real>, bb: real, it: nat, ps: nat, pick: (nat, nat) -> nat,
                    a': seq<real>, bb': real, count: nat, it': nat, ps': nat)
      requires |a| == |y| == |X| && ps < numpasses && it < iterations
      requires forall t, k :: 0 <= k < |a| ==> pick(t, k) < |a| && pick(t, k) != k
      requires (a', bb', count) == SweepFrom(0, a, bb, 0, it, pick)
      requires it' == it + 1 && ps' == if count == 0 then ps + 1 else 0
      ensures |a'| == |a|
      ensures TrainFrom(a, bb, it, ps, pick) == TrainFrom(a', bb', it', ps', pick)
    {
    }

    /** The body of the inner loop once j is chosen: either nothing changes,
        or alpha[i], alpha[j] and b take the values of PairStep and every
        other coefficient stays. */
    method TryPair(i: nat, j: nat, Ei: real) returns (changed: bool)
      requires Valid() && i < n && j < n && i != j
      modifies this, alpha
      ensures Valid() && iter == old(iter) && passes == old(passes)
      ensures changed <==> old(OutcomeOf(alpha[..], b, i, j, Ei)).Updated?
      ensures !changed ==> alpha[..] == old(alpha[..]) && b == old(b)
      ensures changed ==> var o := old(OutcomeOf(alpha[..], b, i, j, Ei));
                alpha[..] == old(alpha[..])[j := o.newaj][i := o.newai] && b == o.b
      ensures C >= 0.0 && old(InBox(alpha[..], C)) ==> InBox(alpha[..], C)
      ensures Dot(y, alpha[..]) == old(Dot(y, alpha[..]))
    {
      ghost var expected := OutcomeOf(alpha[..], b, i, j, Ei);
      var m := MarginOne(X[j]);
      var Ej := m - y[j];
      var p := Pair(y[i], y[j], alpha[i], alpha[j], Ei, Ej,
                    kernel(X[i], X[i]), kernel(X[i], X[j]), kernel(X[j], X[j]));
      var o := UpdatePair(p, b, C, tol);
      assert o == expected;
      if o.Skipped? {
        return false;
      }
      SetPair(i, j, p, o);
      changed := true;
    }

    /** alpha[j] = newaj; alpha[i] = newai; b = the new bias, for an accepted
        update o of the pair p read from the state. Moving along the pair's
        line keeps the weighted sum, and the box is kept. */
    method SetPair(i: nat, j: nat, p: Pair, o: Outcome)
      requires Valid() && i < n && j < n && i != j
      requires p.yi == y[i] && p.yj == y[j] && p.ai == alpha[i] && p.aj == alpha[j]
      requires o == PairStep(p, b, C, tol) && o.Updated?
      modifies this, alpha
      ensures Valid() && iter == old(iter) && passes == old(passes)
      ensures alpha[..] == old(alpha[..])[j := o.newaj][i := o.newai] && b == o.b
      ensures C >= 0.0 && old(InBox(alpha[..], C)) ==> InBox(alpha[..], C)
      ensures Dot(y, alpha[..]) == old(Dot(y, alpha[..]))
    {
      ghost var before := alpha[..];
      if C >= 0.0 && InBox(before, C) {
        assert before[i] == alpha[i] && before[j] == alpha[j];
        PairStepInBox(p, b, C, tol);
      }
      PairStepConserves(p, b, C, tol);
      assert IsLabel(y[i]) && IsLabel(y[j]);
      alpha[j] := o.newaj;
      alpha[i] := o.newai;
      b := o.b;
      assert alpha[..] == before[j := o.newaj][i := o.newai];
      BalanceKept(p.yi, p.yj, y, before, i, j, o.newai, o.newaj);
    }

    /** One sweep over i = 0 .. n - 1, with pick(iter, i) as the partner of i.
        The new coefficients, bias and count of updated pairs are those of
        the reference sweep; the box and the balance are kept, and a sweep
        with no update changes nothing. */
    method Sweep(pick: (nat, nat) -> nat) returns (alphaChanged: nat)
      requires Valid()
      requires forall i :: 0 <= i < n ==> pick(iter, i) < n && pick(iter, i) != i
      modifies this, alpha
      ensures Valid() && iter == old(iter) && passes == old(passes)
      ensures C >= 0.0 && old(InBox(alpha[..], C)) ==> InBox(alpha[..], C)
      ensures Dot(y, alpha[..]) == old(Dot(y, alpha[..]))
      ensures alphaChanged == 0 ==> alpha[..] == old(alpha[..]) && b == old(b)
      ensures (alpha[..], b, alphaChanged) == SweepFrom(0, old(alpha[..]), old(b), 0, iter, pick)
    {
      alphaChanged := 0;
      for i := 0 to n
        invariant Valid() && iter == old(iter) && passes == old(passes)
        invariant SweepFrom(i, alpha[..], b, alphaChanged, iter, pick)
                  == SweepFrom(0, old(alpha[..]), old(b), 0, iter, pick)
        invariant C >= 0.0 && old(InBox(alpha[..], C)) ==> InBox(alpha[..], C)
        invariant Dot(y, alpha[..]) == old(Dot(y, alpha[..]))
        invariant alphaChanged == 0 ==> alpha[..] == old(alpha[..]) && b == old(b)
      {
        alphaChanged := Visit(i, pick, alphaChanged);
      }
    }

    /** The body of the sweep for one i: the KKT test on alpha[i], then the
        pair update with pick(iter, i), counted when accepted. It takes the
        reference sweep one index further, and keeps the box and the balance. */
    method Visit(i: nat, pick: (nat, nat) -> nat, count: nat) returns (count': nat)
      requires Valid() && i < n
      requires forall k :: 0 <= k < n ==> pick(iter, k) < n && pick(iter, k) != k
      modifies this, alpha
      ensures Valid() && iter == old(iter) && passes == old(passes)
      ensures C >= 0.0 && old(InBox(alpha[..], C)) ==> InBox(alpha[..], C)
      ensures Dot(y, alpha[..]) == old(Dot(y, alpha[..]))
      ensures count' >= count
      ensures count' == count ==> alpha[..] == old(alpha[..]) && b == old(b)
      ensures SweepFrom(i + 1, alpha[..], b, count', iter, pick)
              == SweepFrom(i, old(alpha[..]), old(b), count, iter, pick)
    {
      ghost var next := SweepNext(i, alpha[..], b, count, iter, pick);
      ghost var a0, b0 := alpha[..], b;
      var m := MarginOne(X[i]);
      var Ei := m - y[i];
      count' := count;
      if Violates(i, alpha[i], Ei) {
        var j := pick(iter, i);
        var changed := TryPair(i, j, Ei);
        if changed {
          count' := count + 1;
        }
      }
      assert (alpha[..], b, count') == next;
      SweepStep(i, a0, b0, count, iter, pick, alpha[..], b, count');
    }

    /** One pass of the outer loop: a sweep, then iter + 1, and passes + 1
        after a sweep with no change or 0 after one with a change. */
    method Round(pick: (nat, nat) -> nat) returns (alphaChanged: nat)
      requires Valid()
      requires forall i :: 0 <= i < n ==> pick(iter, i) < n && pick(iter, i) != i
      modifies this, alpha
      ensures Valid()
      ensures iter == old(iter) + 1
      ensures passes == if alphaChanged == 0 then old(passes) + 1 else 0
      ensures C >= 0.0 && old(InBox(alpha[..], C)) ==> InBox(alpha[..], C)
      ensures Dot(y, alpha[..]) == old(Dot(y, alpha[..]))
      ensures alphaChanged == 0 ==> alpha[..] == old(alpha[..]) && b == old(b)
      ensures (alpha[..], b, alphaChanged) == SweepFrom(0, old(alpha[..]), old(b), 0, old(iter), pick)
    {
      alphaChanged := Sweep(pick);
      iter := iter + 1;
      if alphaChanged == 0 {
        passes := passes + 1;
      } else {
        passes := 0;
      }
    }

    /** The training loop: rounds until numpasses quiet sweeps in a row or
        the iteration cap. Starting from the constructor's state, at most
        `iterations` sweeps run, every coefficient stays in [0, C], and the
        weighted sum of the coefficients stays 0. */
    method Train(pick: (nat, nat) -> nat)
      requires Valid() && iter == 0
      requires forall it, i :: 0 <= i < n ==> pick(it, i) < n && pick(it, i) != i
      modifies this, alpha
      ensures Valid()
      ensures passes >= numpasses || iter >= iterations
      ensures iter <= iterations
      ensures C >= 0.0 && old(InBox(alpha[..], C)) ==> InBox(alpha[..], C)
      ensures Dot(y, alpha[..]) == old(Dot(y, alpha[..]))
      ensures (alpha[..], b, iter, passes) == TrainFrom(old(alpha[..]), old(b), 0, old(passes), pick)
    {
      while passes < numpasses && iter < iterations
        invariant Valid() && iter <= iterations
        invariant TrainFrom(alpha[..], b, iter, passes, pick)
                  == TrainFrom(old(alpha[..]), old(b), 0, old(passes), pick)
        invariant C >= 0.0 && old(InBox(alpha[..], C)) ==> InBox(alpha[..], C)
        invariant Dot(y, alpha[..]) == old(Dot(y, alpha[..]))
        decreases iterations - iter
      {
        ghost var a0, b0, i0, p0 := alpha[..], b, iter, passes;
        var changed := Round(pick);
        TrainStep(a0, b0, i0, p0, pick, alpha[..], b, changed, iter, passes);
      }
    }
  }

  /** A freshly constructed trainer has weighted sum 0, which training keeps,
      and scores every vector at the bias 0 before training. */
  lemma FreshTrainerBalance(y: seq<real>, alpha: seq<real>, X: seq<seq<real>>, K: Kernel, v: seq<real>)
    requires |y| == |alpha| == |X|
    requires forall k :: 0 <= k < |alpha| ==> alpha[k] == 0.0
    ensures Dot(y, alpha) == 0.0
    ensures Support(alpha, y, X, K, v) == 0.0
  {
    assert alpha == Zeros(|alpha|);
    DotZerosRight(y);
    SupportOfZeros(alpha, y, X, K, v);
  }

  lemma {:induction false} DotZerosRight(y: seq<real>)
    ensures Dot(y, Zeros(|y|)) == 0.0
    decreases |y|
  {
    if y != [] {
      assert Zeros(|y|)[..|y| - 1] == Zeros(|y| - 1);
      DotZerosRight(y[..|y| - 1]);
    }
  }
}
