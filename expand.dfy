/** nerdy.expand (src/nerdy.js): polynomial feature expansion. An odometer of
    exponents, one digit per input coordinate, each running over 0..p, emits
    one product term per reading. The exponent tuples are exactly the
    little-endian base-(p + 1) numerals of 0, 1, 2, ... */
module Expand {
  import opened Vectors
  import opened Seqs

  /** The recognised expansion names; the position plus one is the degree. */
  const OrderNames: seq<string> := ["linear", "quadratic", "cubic", "quartic", "quintic", "sextic"]

  /** p = 1 + _.indexOf(types, order): 0 for an unknown name. */
  function Degree(order: string): (p: nat)
    ensures p <= |OrderNames|
    ensures p == 0 <==> order !in OrderNames
    ensures p > 0 ==> OrderNames[p - 1] == order
  {
    1 + IndexOf(OrderNames, order)
  }

  function IPow(b: nat, e: nat): (r: nat)
  {
    if e == 0 then 1 else IPow(b, e - 1) * b
  }

  /** The value of a little-endian digit sequence in base b. */
  function FromDigits(ds: seq<nat>, b: nat): nat
  {
    if ds == [] then 0 else ds[0] + b * FromDigits(ds[1..], b)
  }

  /** The m lowest little-endian digits of n in base b. */
  function ToDigits(n: nat, m: nat, b: nat): (ds: seq<nat>)
    requires b >= 1
    ensures |ds| == m
  {
    if m == 0 then [] else [n % b] + ToDigits(n / b, m - 1, b)
  }

  ghost predicate InBox(ds: seq<nat>, p: nat)
  {
    forall i :: 0 <= i < |ds| ==> ds[i] <= p
  }

  /** One expanded term: the product of vector[i]^polys[i]. */
  function Term(vector: seq<real>, polys: seq<nat>): real
    requires |polys| == |vector|
  {
    if vector == [] then 1.0
    else Term(vector[..|vector| - 1], polys[..|polys| - 1])
         * Pow(vector[|vector| - 1], polys[|polys| - 1])
  }

  /** `term()`: the running product over the coordinates. */
  method TermOf(vector: seq<real>, polys: seq<nat>) returns (value: real)
    requires |polys| == |vector|
    ensures value == Term(vector, polys)
  {
    value := 1.0;
    for i := 0 to |vector|
      invariant value == Term(vector[..i], polys[..i])
    {
      assert vector[..i + 1][..i] == vector[..i];
      assert polys[..i + 1][..i] == polys[..i];
      value := value * Pow(vector[i], polys[i]);
    }
    assert vector[..|vector|] == vector && polys[..|polys|] == polys;
  }

  lemma IPowPositive(b: nat, e: nat)
    requires b >= 1
    ensures IPow(b, e) >= 1
  {
  }

  lemma {:induction false} IPowFront(b: nat, e: nat)
    ensures IPow(b, e + 1) == b * IPow(b, e)
    decreases e
  {
    if e > 0 {
      IPowFront(b, e - 1);
    }
  }

  lemma MulLe(b: nat, x: int, y: int)
    requires x <= y
    ensures b * x <= b * y
  {
    assert b * y - b * x == b * (y - x);
  }

  lemma DivModUnique(v: nat, b: nat, q: nat, r: nat)
    requires b >= 1 && r < b && v == r + b * q
    ensures v % b == r && v / b == q
  {
    var q2 := v / b;
    var r2 := v % b;
    assert v == b * q2 + r2;
    if q > q2 {
      MulLe(b, q2 + 1, q);
    } else if q < q2 {
      MulLe(b, q + 1, q2);
    }
  }

  /** Digits of n are digits, and read back as n. */
  lemma {:induction false} ToDigitsRoundTrip(n: nat, m: nat, b: nat)
    requires b >= 1
    requires n < IPow(b, m)
    ensures InBox(ToDigits(n, m, b), b - 1)
    ensures FromDigits(ToDigits(n, m, b), b) == n
    decreases m
  {
    if m > 0 {
      var P := IPow(b, m - 1);
      IPowFront(b, m - 1);
      assert IPow(b, m) == b * P;
      var q := n / b;
      assert n == b * q + n % b;
      assert q < P by {
        if q >= P {
          MulLe(b, P, q);
        }
      }
      ToDigitsRoundTrip(q, m - 1, b);
      var ds := ToDigits(n, m, b);
      assert ds[0] == n % b;
      assert ds[1..] == ToDigits(q, m - 1, b);
      assert FromDigits(ds, b) == n % b + b * FromDigits(ds[1..], b);
    }
  }

  /** Digit sequences in the box denote numbers below b^m and are recovered
      from them. */
  lemma {:induction false} FromDigitsRoundTrip(ds: seq<nat>, b: nat)
    requires b >= 1 && InBox(ds, b - 1)
    ensures FromDigits(ds, b) < IPow(b, |ds|)
    ensures ToDigits(FromDigits(ds, b), |ds|, b) == ds
    decreases |ds|
  {
    if ds != [] {
      var rest := ds[1..];
      FromDigitsRoundTrip(rest, b);
      var P := IPow(b, |rest|);
      var f := FromDigits(rest, b);
      var v := FromDigits(ds, b);
      assert v == ds[0] + b * f;
      assert v < IPow(b, |ds|) by {
        IPowFront(b, |rest|);
        MulLe(b, f + 1, P);
        BelowNext(v, ds[0], b, f, P);
      }
      DivModUnique(v, b, f, ds[0]);
      assert ToDigits(v, |ds|, b) == [ds[0]] + ToDigits(f, |rest|, b);
      assert ds == [ds[0]] + rest;
    }
  }

  /** d + b f < b P when d < b and f < P. */
  lemma BelowNext(v: int, d: int, b: int, f: int, P: int)
    requires v == d + b * f && d < b && b * (f + 1) <= b * P
    ensures v < b * P
  {
    assert b * (f + 1) == b * f + b;
  }

  /** Setting digit i to w changes the value by (w - ds[i]) * b^i. */
  lemma {:induction false} FromDigitsUpdate(ds: seq<nat>, b: nat, i: nat, w: nat)
    requires i < |ds|
    ensures FromDigits(ds[i := w], b) as int == FromDigits(ds, b) as int + (w as int - ds[i] as int) * IPow(b, i)
    decreases i
  {
    var es := ds[i := w];
    if i == 0 {
      assert es[1..] == ds[1..];
    } else {
      var rest := ds[1..];
      assert es[1..] == rest[i - 1 := w];
      FromDigitsUpdate(rest, b, i - 1, w);
      IPowFront(b, i - 1);
      UpdateArith(FromDigits(es, b), FromDigits(ds, b), ds[0], b,
                  FromDigits(rest[i - 1 := w], b), FromDigits(rest, b),
                  w as int - ds[i] as int, IPow(b, i - 1), IPow(b, i));
    }
  }

  /** The arithmetic of FromDigitsUpdate's inductive step. */
  lemma UpdateArith(e: int, v: int, d0: int, b: int, fe: int, f: int, d: int, P: int, Q: int)
    requires e == d0 + b * fe && v == d0 + b * f
    requires fe == f + d * P && Q == b * P
    ensures e == v + d * Q
  {
    assert b * fe == b * f + b * (d * P);
    assert b * (d * P) == d * (b * P);
  }

  /** Digits that are zero below position i contribute b^i times the rest. */
  lemma {:induction false} FromDigitsLowZeros(ds: seq<nat>, b: nat, i: nat)
    requires i <= |ds|
    requires forall j :: 0 <= j < i ==> ds[j] == 0
    ensures FromDigits(ds, b) == IPow(b, i) * FromDigits(ds[i..], b)
    decreases i
  {
    if i > 0 {
      var rest := ds[1..];
      assert forall j :: 0 <= j < i - 1 ==> rest[j] == 0 by {
        forall j | 0 <= j < i - 1 ensures rest[j] == 0 {
          assert rest[j] == ds[j + 1];
        }
      }
      FromDigitsLowZeros(rest, b, i - 1);
      assert rest[i - 1..] == ds[i..];
      IPowFront(b, i - 1);
      LowZerosArith(FromDigits(ds, b), ds[0], b, FromDigits(rest, b),
                    IPow(b, i - 1), FromDigits(ds[i..], b), IPow(b, i));
    }
  }

  /** The arithmetic of FromDigitsLowZeros's inductive step. */
  lemma LowZerosArith(v: int, d0: int, b: int, fr: int, P: int, F: int, Q: int)
    requires d0 == 0 && v == d0 + b * fr && fr == P * F && Q == b * P
    ensures v == Q * F
  {
    assert b * (P * F) == (b * P) * F;
  }

  lemma {:induction false} ToDigitsZero(m: nat, b: nat)
    requires b >= 1
    ensures forall i :: 0 <= i < m ==> ToDigits(0, m, b)[i] == 0
    decreases m
  {
    if m > 0 {
      ToDigitsZero(m - 1, b);
    }
  }

  lemma {:induction false} TermOfZeros(vector: seq<real>, polys: seq<nat>)
    requires |polys| == |vector|
    requires forall i :: 0 <= i < |polys| ==> polys[i] == 0
    ensures Term(vector, polys) == 1.0
    decreases |vector|
  {
    if vector != [] {
      TermOfZeros(vector[..|vector| - 1], polys[..|polys| - 1]);
    }
  }

  /** An odometer reading at the loop head: digits in [0, p], zero below the
      carry position, and worth `count - 1` once the pending carry is added. */
  ghost predicate Reading(polys: seq<nat>, p: nat, index: nat, count: nat)
  {
    index < |polys| && InBox(polys, p)
    && (forall j :: 0 <= j < index ==> polys[j] == 0)
    && FromDigits(polys, p + 1) + IPow(p + 1, index) == count
  }

  /** Bumping a digit that stays within p yields the numeral of `count`. */
  lemma EmitStep(before: seq<nat>, p: nat, index: nat, count: nat)
    requires Reading(before, p, index, count)
    requires before[index] + 1 <= p
    ensures InBox(before[index := before[index] + 1], p)
    ensures before[index := before[index] + 1] == ToDigits(count, |before|, p + 1)
    ensures count < IPow(p + 1, |before|)
    ensures Reading(before[index := before[index] + 1], p, 0, count + 1)
  {
    var after := before[index := before[index] + 1];
    assert InBox(after, p);
    FromDigitsUpdate(before, p + 1, index, before[index] + 1);
    var Q := IPow(p + 1, index);
    assert FromDigits(after, p + 1) as int == FromDigits(before, p + 1) as int + 1 * Q;
    assert FromDigits(after, p + 1) == count;
    FromDigitsRoundTrip(after, p + 1);
  }

  /** A digit at p overflows: it is reset and the carry moves up one place. */
  lemma CarryStep(before: seq<nat>, p: nat, index: nat, count: nat)
    requires Reading(before, p, index, count)
    requires before[index] == p && index + 1 < |before|
    ensures Reading(before[index := 0], p, index + 1, count)
  {
    var after := before[index := 0];
    FromDigitsUpdate(before, p + 1, index, 0);
    IPowFront(p + 1, index);
    CarryArith(FromDigits(before, p + 1), FromDigits(after, p + 1), p,
               IPow(p + 1, index), IPow(p + 1, index + 1));
    assert InBox(after, p);
  }

  /** The arithmetic of a carry: -p Q + (p + 1) Q is Q. */
  lemma CarryArith(v: int, a: int, p: int, Q: int, Q1: int)
    requires a == v + (0 - p) * Q && Q1 == (p + 1) * Q
    ensures a + Q1 == v + Q
  {
  }

  /** The top digit overflows: every numeral below (p + 1)^m has been read. */
  lemma LastStep(before: seq<nat>, p: nat, count: nat)
    requires |before| >= 1 && Reading(before, p, |before| - 1, count)
    requires before[|before| - 1] == p
    ensures count == IPow(p + 1, |before|)
  {
    var m := |before|;
    var P := IPow(p + 1, m - 1);
    FromDigitsLowZeros(before, p + 1, m - 1);
    assert before[m - 1..] == [p];
    assert FromDigits([p], p + 1) == p;
    IPowFront(p + 1, m - 1);
    LastArith(FromDigits(before, p + 1), count, p, P, IPow(p + 1, m));
  }

  /** The arithmetic of the last step: P p + P is (p + 1) P. */
  lemma LastArith(v: int, count: int, p: int, P: int, Q: int)
    requires v == P * p && count == v + P && Q == (p + 1) * P
    ensures count == Q
  {
  }

  /** The all-zero reading is the numeral of 0, with the first bump pending. */
  lemma FirstReading(m: nat, p: nat)
    requires m >= 1
    ensures seq(m, i => 0) == ToDigits(0, m, p + 1)
    ensures Reading(seq(m, i => 0), p, 0, 1)
    ensures 1 <= IPow(p + 1, m)
  {
    var zs: seq<nat> := seq(m, i => 0);
    ToDigitsZero(m, p + 1);
    FromDigitsLowZeros(zs, p + 1, m);
    assert zs[m..] == [];
    IPowPositive(p + 1, m);
  }

  /** nerdy.expand(vector, order): the odometer loop. Each pass bumps the digit
      at `index`; a digit that passes p is reset and the carry moves up, and
      the loop ends when the top digit overflows. */
  method ExpandTerms(vector: seq<real>, order: string) returns (out: seq<real>)
    requires |vector| >= 1
    ensures |out| == IPow(Degree(order) + 1, |vector|)
    ensures forall t :: 0 <= t < |out| ==> out[t] == Term(vector, ToDigits(t, |vector|, Degree(order) + 1))
  {
    out := Odometer(vector, Degree(order));
  }

  /** The loop of nerdy.expand for degree p. */
  method Odometer(vector: seq<real>, p: nat) returns (out: seq<real>)
    requires |vector| >= 1
    ensures |out| == IPow(p + 1, |vector|)
    ensures forall t :: 0 <= t < |out| ==> out[t] == Term(vector, ToDigits(t, |vector|, p + 1))
  {
    var m := |vector|;
    var polys: seq<nat> := seq(m, i => 0);
    var index := 0;
    FirstReading(m, p);
    FirstTerm(vector, polys, p);
    var value := TermOf(vector, polys);
    out := [value];
    while true
      invariant |polys| == m
      invariant Reading(polys, p, index, |out|)
      invariant |out| <= IPow(p + 1, m)
      invariant out == Terms(vector, |out|, p)
      decreases IPow(p + 1, m) - |out|, m - index
    {
      var before := polys;
      polys := polys[index := polys[index] + 1];
      if polys[index] > p {
        if index < m - 1 {
          CarryStep(before, p, index, |out|);
          polys := before[index := 0];
          index := index + 1;
        } else {
          LastStep(before, p, |out|);
          TermsIndex(vector, |out|, p);
          break;
        }
      } else {
        EmitTerm(vector, out, before, p, index);
        index := 0;
        var value := TermOf(vector, polys);
        out := out + [value];
      }
    }
  }

  /** The terms of the readings 0 .. n - 1, in order. */
  function Terms(vector: seq<real>, n: nat, p: nat): (r: seq<real>)
    ensures |r| == n
  {
    if n == 0 then [] else Terms(vector, n - 1, p) + [Term(vector, ToDigits(n - 1, |vector|, p + 1))]
  }

  /** The first reading gives the first term. */
  lemma FirstTerm(vector: seq<real>, polys: seq<nat>, p: nat)
    requires polys == ToDigits(0, |vector|, p + 1)
    ensures [Term(vector, polys)] == Terms(vector, 1, p)
  {
  }

  /** A bump that stays within p emits the term of the next reading. */
  lemma EmitTerm(vector: seq<real>, out: seq<real>, before: seq<nat>, p: nat, index: nat)
    requires |before| == |vector| && Reading(before, p, index, |out|)
    requires before[index] + 1 <= p
    requires out == Terms(vector, |out|, p)
    ensures var after := before[index := before[index] + 1];
            && |out| < IPow(p + 1, |vector|)
            && Reading(after, p, 0, |out| + 1)
            && out + [Term(vector, after)] == Terms(vector, |out| + 1, p)
  {
    EmitStep(before, p, index, |out|);
  }

  /** Entry t of Terms is the term of reading t. */
  lemma {:induction false} TermsIndex(vector: seq<real>, n: nat, p: nat)
    ensures forall t :: 0 <= t < n ==> Terms(vector, n, p)[t] == Term(vector, ToDigits(t, |vector|, p + 1))
  {
    if n > 0 {
      TermsIndex(vector, n - 1, p);
      var r := Terms(vector, n, p);
      forall t | 0 <= t < n ensures r[t] == Term(vector, ToDigits(t, |vector|, p + 1)) {
        if t < n - 1 {
          assert r[t] == Terms(vector, n - 1, p)[t];
        }
      }
    }
  }

  /** The first term is 1: every exponent of the first reading is zero. */
  lemma FirstTermIsOne(vector: seq<real>, p: nat)
    ensures Term(vector, ToDigits(0, |vector|, p + 1)) == 1.0
  {
    ToDigitsZero(|vector|, p + 1);
    TermOfZeros(vector, ToDigits(0, |vector|, p + 1));
  }

  /** The readings 0 .. b^m - 1 visit every exponent tuple in [0, b - 1]^m
      exactly once: each reading is in the box, distinct readings differ,
      and every tuple in the box is some reading. */
  lemma ReadingsEnumerateBox(m: nat, b: nat)
    requires b >= 1
    ensures forall t :: 0 <= t < IPow(b, m) ==> InBox(ToDigits(t, m, b), b - 1)
    ensures forall s, t :: 0 <= s < IPow(b, m) && 0 <= t < IPow(b, m) && ToDigits(s, m, b) == ToDigits(t, m, b) ==> s == t
    ensures forall ds: seq<nat> :: |ds| == m && InBox(ds, b - 1) ==>
              FromDigits(ds, b) < IPow(b, m) && ToDigits(FromDigits(ds, b), m, b) == ds
  {
    forall t | 0 <= t < IPow(b, m) ensures InBox(ToDigits(t, m, b), b - 1) {
      ToDigitsRoundTrip(t, m, b);
    }
    forall s, t | 0 <= s < IPow(b, m) && 0 <= t < IPow(b, m) && ToDigits(s, m, b) == ToDigits(t, m, b)
      ensures s == t
    {
      ToDigitsRoundTrip(s, m, b);
      ToDigitsRoundTrip(t, m, b);
    }
    forall ds: seq<nat> | |ds| == m && InBox(ds, b - 1)
      ensures FromDigits(ds, b) < IPow(b, m) && ToDigits(FromDigits(ds, b), m, b) == ds
    {
      FromDigitsRoundTrip(ds, b);
    }
  }
}
