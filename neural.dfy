/** The parameter layout of the one-hidden-layer network (nerdy.neural):
    how many weights it has, how `reshape` cuts the flat weight vector into
    the two layer matrices, how the gradient is flattened back, and how the
    regularisation terms leave the bias row of each matrix alone. The
    feed-forward pass, the logistic cost and back-propagation are floating
    point and are not part of this model. */
module Neural {
  import opened Vectors

  /** The shape of one weight matrix: `rows` by `cols`. */
  datatype Layer = Layer(rows: nat, cols: nat)

  /** `shape`: the input layer maps `inputs` features to `hidden` units; the
      output layer maps the hidden units plus a bias unit to one output. */
  datatype Shape = Shape(first: Layer, second: Layer)

  function NetShape(inputs: nat, hidden: nat): Shape
  {
    Shape(Layer(inputs, hidden), Layer(hidden + 1, 1))
  }

  /** `weights`: the number of entries of both matrices together. */
  function Weights(s: Shape): nat
  {
    s.first.rows * s.first.cols + s.second.rows * s.second.cols
  }

  /** The network has inputs * hidden + hidden + 1 weights. */
  lemma WeightCount(inputs: nat, hidden: nat)
    ensures Weights(NetShape(inputs, hidden)) == inputs * hidden + hidden + 1
  {
  }

  function Min(a: nat, b: nat): nat
  {
    if a <= b then a else b
  }

  /** `s.slice(a, b)` for 0 <= a: both ends are clamped to the length, and
      the slice is empty when b <= a. */
  function Slice(s: seq<real>, a: nat, b: nat): seq<real>
  {
    var lo := Min(a, |s|);
    var hi := Min(b, |s|);
    if hi <= lo then [] else s[lo..hi]
  }

  /** Within bounds the slice is the subsequence ... */
  lemma SliceWithin(s: seq<real>, a: nat, b: nat)
    requires a <= b <= |s|
    ensures Slice(s, a, b) == s[a..b]
  {
  }

  /** ... past the end it is clamped, and it is empty when b <= a. */
  lemma SliceClamped(s: seq<real>, a: nat, b: nat)
    ensures |s| <= a || b <= a ==> Slice(s, a, b) == []
    ensures a <= |s| <= b ==> Slice(s, a, b) == s[a..]
  {
  }

  /** `s.slice(a)`: everything from a on (empty when a is past the end). */
  function Drop(s: seq<real>, a: nat): (r: seq<real>)
    ensures a <= |s| ==> r == s[a..]
    ensures a > |s| ==> r == []
  {
    s[Min(a, |s|)..]
  }

  /** The matrix `reshape` builds from a flat vector: row i is the slice of
      length c starting at i * c. */
  function Rows(t: seq<real>, r: nat, c: nat): (M: seq<seq<real>>)
    ensures |M| == r
  {
    seq(r, i requires 0 <= i < r => Slice(t, i * c, i * c + c))
  }

  /** `reshape(theta)`: theta1 takes the first rows of `shape[0]`, one slice
      per row, and theta2 the rows of `shape[1]` from what follows. */
  method Reshape(s: Shape, theta: seq<real>) returns (theta1: seq<seq<real>>, theta2: seq<seq<real>>)
    ensures theta1 == Rows(theta, s.first.rows, s.first.cols)
    ensures theta2 == Rows(Drop(theta, s.first.rows * s.first.cols), s.second.rows, s.second.cols)
  {
    theta1, theta2 := [], [];
    var size := s.first.cols;
    for i := 0 to s.first.rows
      invariant theta1 == Rows(theta, i, size)
    {
      theta1 := theta1 + [Slice(theta, i * size, i * size + size)];
    }
    var rest := Drop(theta, s.first.rows * s.first.cols);
    size := s.second.cols;
    for i := 0 to s.second.rows
      invariant theta2 == Rows(rest, i, size)
    {
      theta2 := theta2 + [Slice(rest, i * size, i * size + size)];
    }
  }

  /** Row-by-row flattening of a matrix (the deep `_.flatten` of a list of
      matrices, one matrix at a time). */
  function Flatten(M: seq<seq<real>>): seq<real>
  {
    if M == [] then [] else Flatten(M[..|M| - 1]) + M[|M| - 1]
  }

  /** The flat layout the gradient is returned in: both matrices, row by
      row, one after the other. */
  function FlattenBoth(M1: seq<seq<real>>, M2: seq<seq<real>>): seq<real>
  {
    Flatten(M1) + Flatten(M2)
  }

  lemma MulStep(i: nat, r: nat, c: nat)
    requires i < r
    ensures i * c + c <= r * c
  {
    assert i * c + c == (i + 1) * c;
  }

  lemma MulSucc(i: nat, c: nat)
    ensures i * c + c == (i + 1) * c
  {
  }

  /** The first r rows of a matrix `reshape` cuts from t flatten back to the
      first r * c entries of t. */
  lemma {:induction false} FlattenRows(t: seq<real>, r: nat, c: nat)
    requires r * c <= |t|
    ensures Flatten(Rows(t, r, c)) == t[..r * c]
  {
    if r > 0 {
      var k := (r - 1) * c;
      MulSucc(r - 1, c);
      var A := Rows(t, r - 1, c);
      RowsSnoc(t, r, c);
      FlattenRows(t, r - 1, c);
      SliceWithin(t, k, k + c);
      FlattenSnoc(A, t[k..k + c]);
      assert t[..k] + t[k..k + c] == t[..k + c];
    }
  }

  /** One more row is one more slice. */
  lemma RowsSnoc(t: seq<real>, r: nat, c: nat)
    requires r > 0
    ensures Rows(t, r, c) == Rows(t, r - 1, c) + [Slice(t, (r - 1) * c, (r - 1) * c + c)]
  {
  }

  lemma FlattenSnoc(A: seq<seq<real>>, row: seq<real>)
    ensures Flatten(A + [row]) == Flatten(A) + row
  {
    assert (A + [row])[..|A|] == A;
  }

  /** Cutting the flat weight vector with `reshape` and flattening the two
      matrices gives back the vector, whenever it has exactly Weights(s)
      entries. */
  lemma ReshapeFlatten(s: Shape, theta: seq<real>)
    requires |theta| == Weights(s)
    ensures FlattenBoth(Rows(theta, s.first.rows, s.first.cols),
                        Rows(Drop(theta, s.first.rows * s.first.cols), s.second.rows, s.second.cols))
            == theta
  {
    var k1 := s.first.rows * s.first.cols;
    var rest := Drop(theta, k1);
    assert rest == theta[k1..] && |rest| == s.second.rows * s.second.cols;
    FlattenRows(theta, s.first.rows, s.first.cols);
    FlattenRows(rest, s.second.rows, s.second.cols);
    JoinAt(theta, k1);
  }

  lemma JoinAt(t: seq<real>, k: nat)
    requires k <= |t|
    ensures t[..k] + t[k..] == t && t[k..][..|t| - k] == t[k..]
  {
  }

  /** A matrix of r rows of length c flattens to r * c entries ... */
  lemma {:induction false} FlattenLength(M: seq<seq<real>>, c: nat)
    requires Rectangular(M, c)
    ensures |Flatten(M)| == |M| * c
  {
    if M != [] {
      FlattenLength(M[..|M| - 1], c);
      assert |M| * c == (|M| - 1) * c + c;
    }
  }

  /** ... and entry j of row i lands at i * c + j. */
  lemma {:induction false} FlattenAt(M: seq<seq<real>>, c: nat, i: nat, j: nat)
    requires Rectangular(M, c) && i < |M| && j < c
    ensures i * c + j < |Flatten(M)| && Flatten(M)[i * c + j] == M[i][j]
  {
    var init := M[..|M| - 1];
    FlattenLength(M, c);
    FlattenLength(init, c);
    MulStep(i, |M|, c);
    if i < |M| - 1 {
      FlattenAt(init, c, i, j);
    }
  }

  /** Row i of a flattened matrix sits at [i * c, i * c + c). */
  lemma {:induction false} FlatRow(M: seq<seq<real>>, c: nat, i: nat)
    requires Rectangular(M, c) && i < |M|
    ensures i * c + c <= |Flatten(M)| && Flatten(M)[i * c..i * c + c] == M[i]
    decreases |M|
  {
    var init := M[..|M| - 1];
    var F := Flatten(init);
    assert Flatten(M) == F + M[|M| - 1];
    FlattenLength(init, c);
    if i == |M| - 1 {
      SliceOfSuffix(F, M[i]);
    } else {
      MulStep(i, |M| - 1, c);
      FlatRow(init, c, i);
      SliceOfPrefix(F, M[|M| - 1], i * c, i * c + c);
    }
  }

  lemma SliceOfSuffix(F: seq<real>, row: seq<real>)
    ensures (F + row)[|F|..|F| + |row|] == row
  {
  }

  lemma SliceOfPrefix(F: seq<real>, rest: seq<real>, lo: nat, hi: nat)
    requires lo <= hi <= |F|
    ensures (F + rest)[lo..hi] == F[lo..hi]
  {
  }

  /** Row i that `reshape` cuts from a flattened matrix, followed by
      anything, is row i of that matrix. */
  lemma RowOfFlatten(M: seq<seq<real>>, c: nat, rest: seq<real>, i: nat)
    requires Rectangular(M, c) && i < |M|
    ensures Slice(Flatten(M) + rest, i * c, i * c + c) == M[i]
  {
    FlatRow(M, c, i);
    SliceOfPrefix(Flatten(M), rest, i * c, i * c + c);
    SliceWithin(Flatten(M) + rest, i * c, i * c + c);
  }

  /** `reshape` applied to a flattened matrix, followed by anything, cuts
      that matrix back out. */
  lemma RowsOfFlatten(M: seq<seq<real>>, c: nat, rest: seq<real>)
    requires Rectangular(M, c)
    ensures Rows(Flatten(M) + rest, |M|, c) == M
  {
    var R := Rows(Flatten(M) + rest, |M|, c);
    forall i | 0 <= i < |M|
      ensures R[i] == M[i]
    {
      RowOfFlatten(M, c, rest, i);
    }
    assert R == M;
  }

  /** The other direction of the round trip: a gradient laid out as the two
      flattened matrices is cut by `reshape` into those same matrices. */
  lemma FlattenReshape(s: Shape, M1: seq<seq<real>>, M2: seq<seq<real>>)
    requires |M1| == s.first.rows && Rectangular(M1, s.first.cols)
    requires |M2| == s.second.rows && Rectangular(M2, s.second.cols)
    ensures |FlattenBoth(M1, M2)| == Weights(s)
    ensures Rows(FlattenBoth(M1, M2), s.first.rows, s.first.cols) == M1
    ensures Rows(Drop(FlattenBoth(M1, M2), s.first.rows * s.first.cols), s.second.rows, s.second.cols) == M2
  {
    var t := FlattenBoth(M1, M2);
    FlattenLength(M1, s.first.cols);
    FlattenLength(M2, s.second.cols);
    RowsOfFlatten(M1, s.first.cols, Flatten(M2));
    assert Drop(t, s.first.rows * s.first.cols) == Flatten(M2) + [];
    RowsOfFlatten(M2, s.second.cols, []);
  }

  /** A weight matrix with its bias row (row 0) replaced by zeros, as the
      cost function does before regularising the gradient. */
  function ZeroBias(M: seq<seq<real>>): (r: seq<seq<real>>)
    requires |M| >= 1
    ensures |r| == |M|
  {
    [Zeros(|M[0]|)] + M[1..]
  }

  /** `add(D, mul(lambda / m, theta))` with the bias row of theta zeroed:
      the regularised gradient of one weight matrix. */
  function Regularize(D: seq<seq<real>>, M: seq<seq<real>>, lambda: real, m: nat): (r: seq<seq<real>>)
    requires m >= 1 && |M| >= 1 && |D| == |M|
    requires forall i :: 0 <= i < |M| ==> |D[i]| == |M[i]|
    ensures |r| == |M|
  {
    var Z := ZeroBias(M);
    seq(|M|, i requires 0 <= i < |M| => Add(D[i], Scale(Z[i], lambda / (m as real))))
  }

  /** Every entry of the bias row keeps its back-propagated value; every
      other entry gains lambda / m times its weight. */
  lemma RegularizeEntries(D: seq<seq<real>>, M: seq<seq<real>>, lambda: real, m: nat, i: nat, j: nat)
    requires m >= 1 && |M| >= 1 && |D| == |M|
    requires forall k :: 0 <= k < |M| ==> |D[k]| == |M[k]|
    requires i < |M| && j < |M[i]|
    ensures j < |Regularize(D, M, lambda, m)[i]|
    ensures i == 0 ==> Regularize(D, M, lambda, m)[i][j] == D[i][j]
    ensures i > 0 ==> Regularize(D, M, lambda, m)[i][j] == D[i][j] + lambda / (m as real) * M[i][j]
  {
  }

  /** The sum of the squares of every entry of a matrix (numeric.sum of
      numeric.pow(M, 2)). */
  function SumSqAll(M: seq<seq<real>>): real
  {
    if M == [] then 0.0 else SumSq(M[0]) + SumSqAll(M[1..])
  }

  /** `M.slice(1)`: every row but the bias row. */
  function DropBias(M: seq<seq<real>>): seq<seq<real>>
  {
    if M == [] then [] else M[1..]
  }

  /** The penalty added to the cost: lambda / (2m) times the squares of all
      weights outside the bias rows. */
  function Penalty(M1: seq<seq<real>>, M2: seq<seq<real>>, lambda: real, m: nat): real
    requires m >= 1
  {
    (lambda / (2.0 * (m as real))) * (SumSqAll(DropBias(M1)) + SumSqAll(DropBias(M2)))
  }

  lemma {:induction false} SumSqAllNonNegative(M: seq<seq<real>>)
    ensures SumSqAll(M) >= 0.0
  {
    if M != [] {
      SumSqNonNegative(M[0]);
      SumSqAllNonNegative(M[1..]);
    }
  }

  /** With lambda >= 0 the penalty never lowers the cost. */
  lemma PenaltyNonNegative(M1: seq<seq<real>>, M2: seq<seq<real>>, lambda: real, m: nat)
    requires m >= 1 && lambda >= 0.0
    ensures Penalty(M1, M2, lambda, m) >= 0.0
  {
    SumSqAllNonNegative(DropBias(M1));
    SumSqAllNonNegative(DropBias(M2));
    assert lambda / (2.0 * (m as real)) >= 0.0;
  }

  /** The penalty and the gradient term skip the same entries: the penalty
      is lambda / (2m) times the squares of the matrices whose bias rows the
      gradient zeroes, so the bias weights do not affect it. */
  lemma PenaltySkipsBias(M1: seq<seq<real>>, M2: seq<seq<real>>, lambda: real, m: nat)
    requires m >= 1 && |M1| >= 1 && |M2| >= 1
    ensures Penalty(M1, M2, lambda, m)
         == (lambda / (2.0 * (m as real))) * (SumSqAll(ZeroBias(M1)) + SumSqAll(ZeroBias(M2)))
  {
    var a := SumSqAll(ZeroBias(M1)) + SumSqAll(ZeroBias(M2));
    assert a == SumSqAll(DropBias(M1)) + SumSqAll(DropBias(M2)) by {
      ZeroBiasSquares(M1);
      ZeroBiasSquares(M2);
    }
  }

  lemma ZeroBiasSquares(M: seq<seq<real>>)
    requires |M| >= 1
    ensures SumSqAll(ZeroBias(M)) == SumSqAll(DropBias(M))
  {
    var Z := ZeroBias(M);
    SumSqZero(Z[0]);
    assert Z[1..] == M[1..];
  }
}
