/** Real-vector arithmetic shared by the numeric modules (the parts of
    numeric.js that the library leans on: sum, dot, pointwise sub/add/scale),
    and the extended reals used where the library stores Infinity. */
module Vectors {

  /** Sum of a vector, accumulated left to right. */
  function Sum(s: seq<real>): real
  {
    if s == [] then 0.0 else Sum(s[..|s| - 1]) + s[|s| - 1]
  }

  /** Sum of squares. */
  function SumSq(s: seq<real>): real
  {
    if s == [] then 0.0 else SumSq(s[..|s| - 1]) + s[|s| - 1] * s[|s| - 1]
  }

  function Dot(a: seq<real>, b: seq<real>): real
    requires |a| == |b|
  {
    if a == [] then 0.0 else Dot(a[..|a| - 1], b[..|b| - 1]) + a[|a| - 1] * b[|b| - 1]
  }

  function Pow(x: real, n: nat): real
  {
    if n == 0 then 1.0 else Pow(x, n - 1) * x
  }

  function Abs(x: real): real
  {
    if x < 0.0 then -x else x
  }

  /** Pointwise a - b. */
  function Sub(a: seq<real>, b: seq<real>): (r: seq<real>)
    requires |a| == |b|
    ensures |r| == |a|
  {
    seq(|a|, i requires 0 <= i < |a| => a[i] - b[i])
  }

  /** Pointwise a + b. */
  function Add(a: seq<real>, b: seq<real>): (r: seq<real>)
    requires |a| == |b|
    ensures |r| == |a|
  {
    seq(|a|, i requires 0 <= i < |a| => a[i] + b[i])
  }

  /** a - c for a scalar c (numeric.sub with a scalar operand). */
  function Shift(a: seq<real>, c: real): (r: seq<real>)
    ensures |r| == |a|
  {
    seq(|a|, i requires 0 <= i < |a| => a[i] - c)
  }

  /** c * a for a scalar c. */
  function Scale(a: seq<real>, c: real): (r: seq<real>)
    ensures |r| == |a|
  {
    seq(|a|, i requires 0 <= i < |a| => c * a[i])
  }

  function Zeros(n: nat): (r: seq<real>)
    ensures |r| == n
  {
    seq(n, i => 0.0)
  }

  ghost predicate Rectangular(m: seq<seq<real>>, cols: nat)
  {
    forall i :: 0 <= i < |m| ==> |m[i]| == cols
  }

  /** Matrix-vector product: one dot product per row. */
  function MatVec(m: seq<seq<real>>, v: seq<real>): (r: seq<real>)
    requires Rectangular(m, |v|)
    ensures |r| == |m|
  {
    seq(|m|, i requires 0 <= i < |m| => Dot(m[i], v))
  }

  /** Column c of a matrix. */
  function Column(m: seq<seq<real>>, c: nat): (r: seq<real>)
    requires forall i :: 0 <= i < |m| ==> c < |m[i]|
    ensures |r| == |m|
  {
    seq(|m|, i requires 0 <= i < |m| => m[i][c])
  }

  lemma {:induction false} SumAppend(s: seq<real>, t: seq<real>)
    ensures Sum(s + t) == Sum(s) + Sum(t)
    decreases |t|
  {
    if t == [] {
      assert s + t == s;
    } else {
      assert (s + t)[..|s + t| - 1] == s + t[..|t| - 1];
      SumAppend(s, t[..|t| - 1]);
    }
  }

  lemma {:induction false} SumSqNonNegative(s: seq<real>)
    ensures SumSq(s) >= 0.0
    decreases |s|
  {
    if s != [] {
      SumSqNonNegative(s[..|s| - 1]);
    }
  }

  lemma {:induction false} SumSqZero(s: seq<real>)
    requires forall i :: 0 <= i < |s| ==> s[i] == 0.0
    ensures SumSq(s) == 0.0
    decreases |s|
  {
    if s != [] {
      SumSqZero(s[..|s| - 1]);
    }
  }

  lemma {:induction false} SumZeros(n: nat)
    ensures Sum(Zeros(n)) == 0.0
  {
    if n > 0 {
      assert Zeros(n)[..n - 1] == Zeros(n - 1);
      SumZeros(n - 1);
    }
  }

  /** Extended reals: the library stores Infinity in its distance matrix and
      starts running maxima at -Infinity. */
  datatype Ext = NegInf | Fin(v: real) | PosInf
  {
    predicate Lt(that: Ext)
    {
      match (this, that)
      case (NegInf, NegInf) => false
      case (NegInf, _) => true
      case (Fin(a), Fin(b)) => a < b
      case (Fin(_), PosInf) => true
      case (_, _) => false
    }

    predicate Le(that: Ext)
    {
      this == that || Lt(that)
    }
  }

  function ExtMax(a: Ext, b: Ext): Ext
  {
    if b.Lt(a) then a else b
  }

  function ExtMin(a: Ext, b: Ext): Ext
  {
    if a.Lt(b) then a else b
  }
}
