/** Aggregates and simple distances of src/nerdy.js: polyval, sum, ss, mean,
    variance, median, and the manhattan and chebyshev distances. Results that
    the library produces as NaN (the mean of an empty array, a variance with
    n - 1 = 0, the median of an empty array) are None here. */
module Stats {
  import opened Vectors
  import opened Wrappers

  // ---------------------------------------------------------------- polyval

  /** Sum of coefs[i] * x^i, accumulated from the constant term upwards. */
  function PolyEval(coefs: seq<real>, x: real): real
  {
    if coefs == [] then 0.0
    else PolyEval(coefs[..|coefs| - 1], x) + Pow(x, |coefs| - 1) * coefs[|coefs| - 1]
  }

  /** Horner's scheme, an independent reading of the same polynomial. */
  function Horner(coefs: seq<real>, x: real): real
  {
    if coefs == [] then 0.0 else coefs[0] + x * Horner(coefs[1..], x)
  }

  /** nerdy.polyval: a running power p and a running sum. */
  method Polyval(coefs: seq<real>, x: real) returns (sum: real)
    ensures sum == PolyEval(coefs, x)
  {
    sum := 0.0;
    var p := 1.0;
    var n := |coefs|;
    for i := 0 to n
      invariant sum == PolyEval(coefs[..i], x)
      invariant p == Pow(x, i)
    {
      assert coefs[..i + 1][..i] == coefs[..i];
      sum := sum + p * coefs[i];
      p := p * x;
    }
    assert coefs[..n] == coefs;
  }

  lemma {:induction false} HornerCons(c: real, rest: seq<real>, x: real)
    ensures PolyEval([c] + rest, x) == c + x * PolyEval(rest, x)
    decreases |rest|
  {
    if rest == [] {
      assert [c] + rest == [c];
      assert [c][..0] == [];
    } else {
      var all := [c] + rest;
      assert all[..|all| - 1] == [c] + rest[..|rest| - 1];
      HornerCons(c, rest[..|rest| - 1], x);
    }
  }

  /** The loop of polyval agrees with Horner's evaluation. */
  lemma {:induction false} PolyEvalIsHorner(coefs: seq<real>, x: real)
    ensures PolyEval(coefs, x) == Horner(coefs, x)
    decreases |coefs|
  {
    if coefs != [] {
      assert coefs == [coefs[0]] + coefs[1..];
      HornerCons(coefs[0], coefs[1..], x);
      PolyEvalIsHorner(coefs[1..], x);
    }
  }

  /** The documented example: polyval([1, 2, 3], 5) == 1 + 2*5 + 3*5*5 == 86. */
  lemma PolyvalExample()
    ensures PolyEval([1.0, 2.0, 3.0], 5.0) == 86.0
  {
    PolyEvalIsHorner([1.0, 2.0, 3.0], 5.0);
    assert [1.0, 2.0, 3.0][1..] == [2.0, 3.0];
    assert [2.0, 3.0][1..] == [3.0];
    assert [3.0][1..] == [];
  }

  // ----------------------------------------------- sum, ss, mean, variance

  /** nerdy.sum on a matrix: column totals, added row by row into a zero
      vector as long as the first row. */
  method SumColumns(matrix: seq<seq<real>>) returns (out: seq<real>)
    requires |matrix| > 0 && Rectangular(matrix, |matrix[0]|)
    ensures |out| == |matrix[0]|
    ensures forall c :: 0 <= c < |out| ==> out[c] == Sum(Column(matrix, c))
  {
    var cols := |matrix[0]|;
    out := Zeros(cols);
    for i := 0 to |matrix|
      invariant |out| == cols
      invariant forall c :: 0 <= c < cols ==> out[c] == Sum(Column(matrix[..i], c))
    {
      SumColumnsStep(matrix, cols, i, out);
      out := Add(out, matrix[i]);
    }
    assert matrix[..|matrix|] == matrix;
  }

  /** Adding row i to the totals of rows 0 .. i - 1 gives the totals of rows
      0 .. i. */
  lemma SumColumnsStep(matrix: seq<seq<real>>, cols: nat, i: nat, out: seq<real>)
    requires i < |matrix| && Rectangular(matrix, cols) && |out| == cols
    requires forall c :: 0 <= c < cols ==> out[c] == Sum(Column(matrix[..i], c))
    ensures forall c :: 0 <= c < cols ==> Add(out, matrix[i])[c] == Sum(Column(matrix[..i + 1], c))
  {
    forall c | 0 <= c < cols ensures Add(out, matrix[i])[c] == Sum(Column(matrix[..i + 1], c)) {
      var col := Column(matrix[..i + 1], c);
      assert col[..i] == Column(matrix[..i], c);
      assert col[i] == matrix[i][c];
    }
  }

  /** nerdy.mean: sum / length; NaN (None) for an empty array. */
  function Mean(a: seq<real>): (r: Option<real>)
    ensures r.None? <==> a == []
  {
    if a == [] then None else Some(Sum(a) / |a| as real)
  }

  /** nerdy.variance(array, mean): ss(array - mean) / (n - 1), the mean
      defaulting to nerdy.mean(array). With one element the division is by
      zero and the library yields NaN or Infinity (None); with none it is
      0 / -1, which is zero. */
  function Variance(a: seq<real>, mean: Option<real>): (r: Option<real>)
    ensures r.None? <==> |a| == 1
  {
    if |a| == 1 then None
    else if a == [] then Some(0.0)
    else
      var m := if mean.Some? then mean.value else Sum(a) / |a| as real;
      Some(SumSq(Shift(a, m)) / (|a| - 1) as real)
  }

  lemma {:induction false} SumShift(a: seq<real>, c: real)
    ensures Sum(Shift(a, c)) == Sum(a) - |a| as real * c
    decreases |a|
  {
    if a != [] {
      assert Shift(a, c)[..|a| - 1] == Shift(a[..|a| - 1], c);
      SumShift(a[..|a| - 1], c);
    }
  }

  /** Deviations from the mean sum to zero. */
  lemma DeviationsSumToZero(a: seq<real>)
    requires a != []
    ensures Sum(Shift(a, Mean(a).value)) == 0.0
  {
    var n := |a| as real;
    var m := Sum(a) / n;
    SumShift(a, m);
    assert n * m == Sum(a);
  }

  /** A variance, whenever defined, is never negative. */
  lemma VarianceNonNegative(a: seq<real>, mean: Option<real>)
    requires |a| != 1
    ensures Variance(a, mean).value >= 0.0
  {
    if |a| > 1 {
      var m := if mean.Some? then mean.value else Sum(a) / |a| as real;
      SumSqNonNegative(Shift(a, m));
    }
  }

  /** A constant array has variance zero about its own mean. */
  lemma VarianceOfConstant(a: seq<real>, c: real)
    requires |a| >= 2
    requires forall i :: 0 <= i < |a| ==> a[i] == c
    ensures Variance(a, Some(c)) == Some(0.0)
  {
    SumSqZero(Shift(a, c));
  }

  /** The unit-test values: sum([]) == 0, ss([1,2,3]) == 14, mean([1,2,3]) == 2,
      variance([1,2,3]) == 1, variance([1,2,3], 3) == 2.5, variance([]) == 0. */
  lemma AggregateExamples()
    ensures Sum([]) == 0.0
    ensures SumSq([1.0, 2.0, 3.0]) == 14.0
    ensures Mean([1.0, 2.0, 3.0]) == Some(2.0)
    ensures Variance([1.0, 2.0, 3.0], None) == Some(1.0)
    ensures Variance([1.0, 2.0, 3.0], Some(2.0)) == Some(1.0)
    ensures Variance([1.0, 2.0, 3.0], Some(3.0)) == Some(2.5)
    ensures Variance([], None) == Some(0.0)
    ensures Mean([]) == None
  {
    var a := [1.0, 2.0, 3.0];
    assert a[..2] == [1.0, 2.0] && [1.0, 2.0][..1] == [1.0] && [1.0][..0] == [];
    assert Sum(a) == 6.0;
    assert Shift(a, 2.0) == [-1.0, 0.0, 1.0];
    assert [-1.0, 0.0, 1.0][..2] == [-1.0, 0.0] && [-1.0, 0.0][..1] == [-1.0];
    assert Shift(a, 3.0) == [-2.0, -1.0, 0.0];
    assert [-2.0, -1.0, 0.0][..2] == [-2.0, -1.0] && [-2.0, -1.0][..1] == [-2.0];
  }

  // ------------------------------------------------------------------ median

  ghost predicate SortedAsc(s: seq<real>)
  {
    forall i, j :: 0 <= i < j < |s| ==> s[i] <= s[j]
  }

  function Insert(x: real, s: seq<real>): seq<real>
  {
    if s == [] || x <= s[0] then [x] + s else [s[0]] + Insert(x, s[1..])
  }

  /** _.sortBy with the identity: ascending order. */
  function SortAsc(s: seq<real>): seq<real>
  {
    if s == [] then [] else Insert(s[0], SortAsc(s[1..]))
  }

  lemma SortedFirstIsLeast(s: seq<real>)
    requires SortedAsc(s) && s != []
    ensures forall y :: y in s ==> s[0] <= y
  {
    forall y | y in s ensures s[0] <= y {
      var j :| 0 <= j < |s| && s[j] == y;
    }
  }

  lemma {:induction false} InsertPermutes(x: real, s: seq<real>)
    ensures multiset(Insert(x, s)) == multiset(s) + multiset{x}
    ensures |Insert(x, s)| == |s| + 1
    ensures forall y :: y in Insert(x, s) ==> y == x || y in s
    decreases |s|
  {
    if s != [] && x > s[0] {
      InsertPermutes(x, s[1..]);
      assert s == [s[0]] + s[1..];
    }
  }

  lemma {:induction false} InsertSorted(x: real, s: seq<real>)
    requires SortedAsc(s)
    ensures SortedAsc(Insert(x, s))
    decreases |s|
  {
    InsertPermutes(x, s);
    if s != [] && x > s[0] {
      InsertSorted(x, s[1..]);
      var t := Insert(x, s[1..]);
      InsertPermutes(x, s[1..]);
      SortedFirstIsLeast(s);
      assert forall y :: y in s[1..] ==> y in s;
      assert forall k :: 0 <= k < |t| ==> s[0] <= t[k] by {
        forall k | 0 <= k < |t| ensures s[0] <= t[k] {
          assert t[k] in t;
        }
      }
      assert Insert(x, s) == [s[0]] + t;
    } else if s != [] {
      SortedFirstIsLeast(s);
    }
  }

  /** Sorting yields an ascending permutation of its input. */
  lemma {:induction false} SortAscCorrect(s: seq<real>)
    ensures SortedAsc(SortAsc(s))
    ensures multiset(SortAsc(s)) == multiset(s)
    ensures |SortAsc(s)| == |s|
    decreases |s|
  {
    if s != [] {
      SortAscCorrect(s[1..]);
      InsertSorted(s[0], SortAsc(s[1..]));
      InsertPermutes(s[0], SortAsc(s[1..]));
      assert s == [s[0]] + s[1..];
    }
  }

  /** Two ascending sequences with the same elements are equal. */
  lemma {:induction false} SortedUnique(a: seq<real>, b: seq<real>)
    requires SortedAsc(a) && SortedAsc(b)
    requires multiset(a) == multiset(b)
    ensures a == b
    decreases |a|
  {
    assert |a| == |multiset(a)| == |multiset(b)| == |b|;
    if a != [] {
      SameFirst(a, b);
      MultisetTail(a);
      MultisetTail(b);
      SortedUnique(a[1..], b[1..]);
      assert a == [a[0]] + a[1..] && b == [b[0]] + b[1..];
    }
  }

  /** Two non-empty ascending sequences with the same elements start alike. */
  lemma SameFirst(a: seq<real>, b: seq<real>)
    requires SortedAsc(a) && SortedAsc(b) && a != [] && b != []
    requires multiset(a) == multiset(b)
    ensures a[0] == b[0]
  {
    assert a[0] in multiset(b) && b[0] in multiset(a);
    SortedFirstIsLeast(a);
    SortedFirstIsLeast(b);
  }

  lemma MultisetTail(a: seq<real>)
    requires a != []
    ensures multiset(a[1..]) == multiset(a) - multiset{a[0]}
  {
    assert a == [a[0]] + a[1..];
  }

  /** nerdy.median on a vector: the middle of the sorted values, or the mean of
      the two middle values for an even length; NaN (None) when empty. */
  function Median(v: seq<real>): (r: Option<real>)
    ensures r.None? <==> v == []
  {
    SortAscCorrect(v);
    var sorted := SortAsc(v);
    var n := |sorted|;
    if n == 0 then None
    else if n % 2 == 1 then Some(sorted[n / 2])
    else Some((sorted[n / 2 - 1] + sorted[n / 2]) / 2.0)
  }

  /** The median depends only on the values, not on their order, and lies
      between the smallest and the largest of them. */
  lemma MedianOfPermutation(v: seq<real>, w: seq<real>)
    requires multiset(v) == multiset(w)
    ensures Median(v) == Median(w)
  {
    SortAscCorrect(v);
    SortAscCorrect(w);
    SortedUnique(SortAsc(v), SortAsc(w));
  }

  lemma MedianBounded(v: seq<real>)
    requires v != []
    ensures exists j :: 0 <= j < |v| && v[j] <= Median(v).value
    ensures exists j :: 0 <= j < |v| && Median(v).value <= v[j]
  {
    SortAscCorrect(v);
    var s := SortAsc(v);
    var n := |s|;
    assert s[0] in multiset(v);
    assert s[n - 1] in multiset(v);
    var lo :| 0 <= lo < |v| && v[lo] == s[0];
    var hi :| 0 <= hi < |v| && v[hi] == s[n - 1];
    if n % 2 == 0 {
      assert s[0] <= s[n / 2 - 1] <= s[n / 2] <= s[n - 1];
    } else {
      assert s[0] <= s[n / 2] <= s[n - 1];
    }
  }

  /** The unit-test values median([1,2,3]) == 2, median([1,2,3,4]) == 2.5 and
      median([-1, 1]) == 0. */
  lemma MedianExamples()
    ensures Median([1.0, 2.0, 3.0]) == Some(2.0)
    ensures Median([1.0, 2.0, 3.0, 4.0]) == Some(2.5)
    ensures Median([-1.0, 1.0]) == Some(0.0)
  {
    assert [1.0, 2.0, 3.0][1..] == [2.0, 3.0] && [2.0, 3.0][1..] == [3.0] && [3.0][1..] == [];
    assert SortAsc([1.0, 2.0, 3.0]) == [1.0, 2.0, 3.0];
    assert [1.0, 2.0, 3.0, 4.0][1..] == [2.0, 3.0, 4.0] && [2.0, 3.0, 4.0][1..] == [3.0, 4.0];
    assert [3.0, 4.0][1..] == [4.0] && [4.0][1..] == [];
    assert SortAsc([1.0, 2.0, 3.0, 4.0]) == [1.0, 2.0, 3.0, 4.0];
    assert [-1.0, 1.0][1..] == [1.0] && [1.0][1..] == [];
    assert SortAsc([-1.0, 1.0]) == [-1.0, 1.0];
  }

  // --------------------------------------------------------------- distances

  /** distance.manhattan: sum(abs(a - b)). */
  function Manhattan(a: seq<real>, b: seq<real>): real
    requires |a| == |b|
  {
    if a == [] then 0.0
    else Manhattan(a[..|a| - 1], b[..|b| - 1]) + Abs(a[|a| - 1] - b[|b| - 1])
  }

  /** distance.chebyshev: nerdy.max(abs(a - b)), a Math.max over the absolute
      differences, -Infinity for empty vectors. */
  function Chebyshev(a: seq<real>, b: seq<real>): Ext
    requires |a| == |b|
  {
    if a == [] then NegInf
    else ExtMax(Chebyshev(a[..|a| - 1], b[..|b| - 1]), Fin(Abs(a[|a| - 1] - b[|b| - 1])))
  }

  /** Manhattan distance is symmetric, non-negative and zero exactly on equal vectors. */
  lemma {:induction false} ManhattanMetric(a: seq<real>, b: seq<real>)
    requires |a| == |b|
    ensures Manhattan(a, b) == Manhattan(b, a)
    ensures Manhattan(a, b) >= 0.0
    ensures Manhattan(a, b) == 0.0 <==> a == b
    decreases |a|
  {
    if a != [] {
      var n := |a| - 1;
      ManhattanMetric(a[..n], b[..n]);
      assert a == a[..n] + [a[n]] && b == b[..n] + [b[n]];
    }
  }

  /** Chebyshev distance is symmetric. */
  lemma {:induction false} ChebyshevSymmetric(a: seq<real>, b: seq<real>)
    requires |a| == |b|
    ensures Chebyshev(a, b) == Chebyshev(b, a)
    decreases |a|
  {
    if a != [] {
      var n := |a| - 1;
      ChebyshevSymmetric(a[..n], b[..n]);
      assert Abs(a[n] - b[n]) == Abs(b[n] - a[n]);
    }
  }

  /** On non-empty vectors the Chebyshev distance is finite and is the
      largest coordinate difference: no difference exceeds it and some
      difference equals it. */
  lemma {:induction false} ChebyshevIsLargestDifference(a: seq<real>, b: seq<real>)
    requires |a| == |b| && a != []
    ensures Chebyshev(a, b).Fin?
    ensures forall i :: 0 <= i < |a| ==> Abs(a[i] - b[i]) <= Chebyshev(a, b).v
    ensures exists i :: 0 <= i < |a| && Abs(a[i] - b[i]) == Chebyshev(a, b).v
    decreases |a|
  {
    var n := |a| - 1;
    var d := Abs(a[n] - b[n]);
    if n > 0 {
      var a', b' := a[..n], b[..n];
      ChebyshevIsLargestDifference(a', b');
      var prev := Chebyshev(a', b');
      assert Chebyshev(a, b) == ExtMax(prev, Fin(d));
      var w :| 0 <= w < n && Abs(a'[w] - b'[w]) == prev.v;
      assert a'[w] == a[w] && b'[w] == b[w];
      forall i | 0 <= i < n ensures Abs(a[i] - b[i]) <= prev.v {
        assert a'[i] == a[i] && b'[i] == b[i];
      }
      if Fin(d).Lt(prev) {
        assert Abs(a[w] - b[w]) == Chebyshev(a, b).v;
      } else {
        assert Abs(a[n] - b[n]) == Chebyshev(a, b).v;
      }
    }
  }

  /** The Chebyshev distance never exceeds the Manhattan distance. */
  lemma {:induction false} ChebyshevBelowManhattan(a: seq<real>, b: seq<real>)
    requires |a| == |b| && a != []
    ensures Chebyshev(a, b).Fin? && Chebyshev(a, b).v <= Manhattan(a, b)
    decreases |a|
  {
    var n := |a| - 1;
    if n > 0 {
      ChebyshevBelowManhattan(a[..n], b[..n]);
      ManhattanMetric(a[..n], b[..n]);
    }
  }
}
