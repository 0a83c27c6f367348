/** The k-nearest-neighbour classifier closure of nerdy.knn: distances from
    the query to every training row, the training labels stably sorted by
    distance, a count of the first k labels, and the strict-greater scan
    that picks the winning label. */
module Knn {
  import opened Wrappers
  import opened Vectors
  import opened Seqs

  type Distance = (seq<real>, seq<real>) -> real

  /** The distance from the query to every training row, in row order. */
  function Distances(distance: Distance, X: seq<seq<real>>, v: seq<real>): (d: seq<real>)
    ensures |d| == |X|
    ensures forall i :: 0 <= i < |X| ==> d[i] == distance(v, X[i])
  {
    seq(|X|, i requires 0 <= i < |X| => distance(v, X[i]))
  }

  /** Row i sorts before row j: it is strictly closer, or as close and
      earlier (underscore's sortBy compares the criteria, then the original
      positions, so it is stable). */
  predicate Before(d: seq<real>, i: nat, j: nat)
    requires i < |d| && j < |d|
  {
    d[i] < d[j] || (d[i] == d[j] && i < j)
  }

  /** A list of row indices in ascending (distance, row) order. */
  predicate Ordered(d: seq<real>, order: seq<nat>)
  {
    (forall p :: 0 <= p < |order| ==> order[p] < |d|)
    && (forall p, q :: 0 <= p < q < |order| ==> Before(d, order[p], order[q]))
  }

  /** Insert row i into an ordered index list. */
  function Insert(d: seq<real>, order: seq<nat>, i: nat): (r: seq<nat>)
    requires i < |d| && i !in order && Ordered(d, order)
    ensures |r| == |order| + 1
    ensures forall x :: x in r <==> x in order || x == i
    ensures Ordered(d, r)
  {
    if order == [] then [i]
    else if Before(d, i, order[0]) then
      assert forall p :: 0 <= p < |order| ==> Before(d, order[0], order[p]) || p == 0;
      [i] + order
    else
      assert Before(d, order[0], i);
      assert Ordered(d, order[1..]);
      var rest := Insert(d, order[1..], i);
      assert forall x :: x in rest ==> Before(d, order[0], x);
      [order[0]] + rest
  }

  /** The rows 0..m-1 in ascending (distance, row) order. */
  function SortRows(d: seq<real>, m: nat): (r: seq<nat>)
    requires m <= |d|
    ensures |r| == m
    ensures forall x: nat :: x in r <==> x < m
    ensures Ordered(d, r)
  {
    if m == 0 then []
    else
      var rest := SortRows(d, m - 1);
      Insert(d, rest, m - 1)
  }

  /** `_.sortBy(y, distance)`: the labels in ascending distance order, ties
      in training order. */
  function SortedLabels<L>(d: seq<real>, y: seq<L>): (r: seq<L>)
    requires |y| == |d|
    ensures |r| == |y|
  {
    var order := SortRows(d, |d|);
    seq(|y|, p requires 0 <= p < |y| => y[order[p]])
  }

  /** The labels that are counted: the first k of the sorted labels
      (`slice(0, k)`, all of them when k exceeds their number). */
  function TopLabels<L>(distance: Distance, X: seq<seq<real>>, y: seq<L>, k: nat, v: seq<real>): (r: seq<L>)
    requires |y| == |X|
    ensures |r| == if k < |y| then k else |y|
  {
    var s := SortedLabels(Distances(distance, X, v), y);
    if k < |s| then s[..k] else s
  }

  /** The position of label x among the counted keys, or -1. */
  function KeyIndex<L(==)>(c: seq<(L, nat)>, x: L): (r: int)
    ensures -1 <= r < |c|
    ensures r >= 0 ==> c[r].0 == x
    ensures r == -1 <==> forall j :: 0 <= j < |c| ==> c[j].0 != x
  {
    if c == [] then -1
    else if c[|c| - 1].0 == x then |c| - 1
    else KeyIndex(c[..|c| - 1], x)
  }

  /** c counts s: every distinct label of s once, in order of first
      appearance, with the number of times it occurs. */
  ghost predicate Tally<L>(s: seq<L>, c: seq<(L, nat)>)
  {
    && (forall j :: 0 <= j < |c| ==> c[j].0 in s && c[j].1 == multiset(s)[c[j].0])
    && (forall x :: x in s ==> KeyIndex(c, x) >= 0)
    && (forall i, j :: 0 <= i < j < |c| ==> IndexOf(s, c[i].0) < IndexOf(s, c[j].0))
  }

  /** Count one more occurrence of x. */
  function Bump<L(==)>(c: seq<(L, nat)>, x: L): (r: seq<(L, nat)>)
  {
    var j := KeyIndex(c, x);
    if j >= 0 then c[j := (x, c[j].1 + 1)] else c + [(x, 1)]
  }

  /** `_.countBy` over the counted labels. */
  function CountBy<L(==)>(s: seq<L>): (c: seq<(L, nat)>)
    ensures Tally(s, c)
  {
    if s == [] then []
    else
      var c := CountBy(s[..|s| - 1]);
      BumpTally(s[..|s| - 1], c, s[|s| - 1]);
      assert s[..|s| - 1] + [s[|s| - 1]] == s;
      Bump(c, s[|s| - 1])
  }

  /** Distinct labels are distinct keys: the first-appearance order is
      strict, so no key is listed twice. */
  lemma TallyKeysDistinct<L>(s: seq<L>, c: seq<(L, nat)>, i: nat, j: nat)
    requires Tally(s, c) && i < j < |c|
    ensures c[i].0 != c[j].0
  {
  }

  lemma BumpTally<L>(p: seq<L>, c: seq<(L, nat)>, x: L)
    requires Tally(p, c)
    ensures Tally(p + [x], Bump(c, x))
  {
    forall y | y in p
      ensures IndexOf(p + [x], y) == IndexOf(p, y)
    {
      IndexOfPrefix(p, x, y);
    }
    assert multiset(p + [x]) == multiset(p) + multiset{x};
    if KeyIndex(c, x) >= 0 {
      BumpSeen(p, c, x);
    } else {
      BumpNew(p, c, x);
    }
  }

  /** A label already counted has its count raised by one. */
  lemma BumpSeen<L>(p: seq<L>, c: seq<(L, nat)>, x: L)
    requires Tally(p, c) && KeyIndex(c, x) >= 0
    requires forall y :: y in p ==> IndexOf(p + [x], y) == IndexOf(p, y)
    requires multiset(p + [x]) == multiset(p) + multiset{x}
    ensures Tally(p + [x], Bump(c, x))
  {
    SeenCounts(p, c, x);
    SeenCovers(p, c, x);
    var s := p + [x];
    var r := Bump(c, x);
    forall i, j' | 0 <= i < j' < |r|
      ensures IndexOf(s, r[i].0) < IndexOf(s, r[j'].0)
    {
      assert r[i].0 == c[i].0 && r[j'].0 == c[j'].0;
    }
  }

  lemma SeenCounts<L>(p: seq<L>, c: seq<(L, nat)>, x: L)
    requires Tally(p, c) && KeyIndex(c, x) >= 0
    requires multiset(p + [x]) == multiset(p) + multiset{x}
    ensures var r := Bump(c, x);
      forall t :: 0 <= t < |r| ==> r[t].0 in p + [x] && r[t].1 == multiset(p + [x])[r[t].0]
  {
    var r := Bump(c, x);
    var j := KeyIndex(c, x);
    forall t | 0 <= t < |r|
      ensures r[t].0 in p + [x] && r[t].1 == multiset(p + [x])[r[t].0]
    {
      if t != j {
        assert r[t] == c[t];
        assert c[t].0 != x;
      }
    }
  }

  lemma SeenCovers<L>(p: seq<L>, c: seq<(L, nat)>, x: L)
    requires Tally(p, c) && KeyIndex(c, x) >= 0
    ensures forall y :: y in p + [x] ==> KeyIndex(Bump(c, x), y) >= 0
  {
    var r := Bump(c, x);
    var j := KeyIndex(c, x);
    forall y | y in p + [x]
      ensures KeyIndex(r, y) >= 0
    {
      if y != x {
        assert y in p;
        var jy := KeyIndex(c, y);
        assert r[jy].0 == y;
      } else {
        assert r[j].0 == x;
      }
    }
  }

  /** A label seen for the first time is appended with count one. */
  lemma BumpNew<L>(p: seq<L>, c: seq<(L, nat)>, x: L)
    requires Tally(p, c) && KeyIndex(c, x) < 0
    requires forall y :: y in p ==> IndexOf(p + [x], y) == IndexOf(p, y)
    requires multiset(p + [x]) == multiset(p) + multiset{x}
    ensures Tally(p + [x], Bump(c, x))
  {
    assert Bump(c, x) == c + [(x, 1)];
    assert x !in p;
    NewCounts(p, c, x);
    NewCovers(p, c, x);
    IndexOfLast(p, x);
    NewOrder(p, c, x);
  }

  lemma NewCounts<L>(p: seq<L>, c: seq<(L, nat)>, x: L)
    requires Tally(p, c) && x !in p
    requires multiset(p + [x]) == multiset(p) + multiset{x}
    ensures var r := c + [(x, 1)];
      forall t :: 0 <= t < |r| ==> r[t].0 in p + [x] && r[t].1 == multiset(p + [x])[r[t].0]
  {
    var r := c + [(x, 1)];
    forall t | 0 <= t < |r|
      ensures r[t].0 in p + [x] && r[t].1 == multiset(p + [x])[r[t].0]
    {
      if t < |c| {
        assert r[t] == c[t];
        assert c[t].0 in p;
      }
    }
  }

  lemma NewCovers<L>(p: seq<L>, c: seq<(L, nat)>, x: L)
    requires Tally(p, c)
    ensures forall y :: y in p + [x] ==> KeyIndex(c + [(x, 1)], y) >= 0
  {
    var r := c + [(x, 1)];
    forall y | y in p + [x]
      ensures KeyIndex(r, y) >= 0
    {
      if y != x {
        assert y in p;
        var jy := KeyIndex(c, y);
        assert r[jy].0 == y;
      } else {
        assert r[|c|].0 == x;
      }
    }
  }

  lemma NewOrder<L>(p: seq<L>, c: seq<(L, nat)>, x: L)
    requires Tally(p, c) && x !in p
    requires forall y :: y in p ==> IndexOf(p + [x], y) == IndexOf(p, y)
    requires IndexOf(p + [x], x) == |p|
    ensures var r := c + [(x, 1)];
      forall i, j :: 0 <= i < j < |r| ==> IndexOf(p + [x], r[i].0) < IndexOf(p + [x], r[j].0)
  {
    var s := p + [x];
    var r := c + [(x, 1)];
    forall i, j' | 0 <= i < j' < |r|
      ensures IndexOf(s, r[i].0) < IndexOf(s, r[j'].0)
    {
      assert r[i] == c[i];
      assert c[i].0 in p;
      if j' < |c| {
        assert r[j'] == c[j'];
      }
    }
  }

  lemma {:induction false} IndexOfPrefix<L>(p: seq<L>, x: L, y: L)
    requires y in p
    ensures IndexOf(p + [x], y) == IndexOf(p, y)
    decreases |p|
  {
    if p[0] != y {
      assert (p + [x])[1..] == p[1..] + [x];
      IndexOfPrefix(p[1..], x, y);
    }
  }

  lemma {:induction false} IndexOfLast<L>(p: seq<L>, x: L)
    requires x !in p
    ensures IndexOf(p + [x], x) == |p|
    decreases |p|
  {
    if p != [] {
      assert (p + [x])[1..] == p[1..] + [x];
      IndexOfLast(p[1..], x);
    }
  }

  /** The scan over the counts: the first entry with the largest count. */
  function FirstMax<L>(c: seq<(L, nat)>, t: nat): (b: nat)
    requires 1 <= t <= |c|
    ensures b < t
    ensures forall j :: 0 <= j < t ==> c[j].1 <= c[b].1
    ensures forall j :: 0 <= j < b ==> c[j].1 < c[b].1
  {
    if t == 1 then 0
    else
      var b := FirstMax(c, t - 1);
      if c[t - 1].1 > c[b].1 then t - 1 else b
  }

  /** The final loop of the classifier: `best` starts at null and `count`
      at -Infinity, and a key replaces them only when its count is strictly
      greater. */
  method Vote<L>(counts: seq<(L, nat)>) returns (best: Option<L>)
    ensures best.None? <==> counts == []
    ensures best.Some? ==> best.value == counts[FirstMax(counts, |counts|)].0
  {
    best := None;
    var count := NegInf;
    for t := 0 to |counts|
      invariant t == 0 ==> best.None? && count == NegInf
      invariant t > 0 ==>
        best == Some(counts[FirstMax(counts, t)].0) && count == Fin(counts[FirstMax(counts, t)].1 as real)
    {
      if count.Lt(Fin(counts[t].1 as real)) {
        count := Fin(counts[t].1 as real);
        best := Some(counts[t].0);
      }
    }
  }

  /** The key the scan picks has the largest count among the counted
      labels, and the scan picks nothing only when nothing was counted. */
  lemma VoteWins<L>(top: seq<L>, counts: seq<(L, nat)>, best: Option<L>)
    requires Tally(top, counts)
    requires best.None? <==> counts == []
    requires best.Some? ==> best.value == counts[FirstMax(counts, |counts|)].0
    ensures best.None? <==> top == []
    ensures best.Some? ==> best.value in top
    ensures best.Some? ==> forall l :: multiset(top)[l] <= multiset(top)[best.value]
    ensures best.Some? ==> forall l :: l in top && multiset(top)[l] == multiset(top)[best.value] ==>
      IndexOf(top, best.value) <= IndexOf(top, l)
  {
    if best.Some? {
      FirstMaxWins(top, counts);
    }
    if top != [] {
      assert top[0] in top;
      assert KeyIndex(counts, top[0]) >= 0;
    }
  }

  /** The first entry with the largest count holds the most frequent label,
      the earliest one on ties. */
  lemma FirstMaxWins<L>(top: seq<L>, counts: seq<(L, nat)>)
    requires Tally(top, counts) && counts != []
    ensures var w := counts[FirstMax(counts, |counts|)].0;
      && w in top
      && (forall l :: multiset(top)[l] <= multiset(top)[w])
      && (forall l :: l in top && multiset(top)[l] == multiset(top)[w] ==> IndexOf(top, w) <= IndexOf(top, l))
  {
    var b := FirstMax(counts, |counts|);
    var w := counts[b].0;
    forall l
      ensures multiset(top)[l] <= multiset(top)[w]
      ensures l in top && multiset(top)[l] == multiset(top)[w] ==> IndexOf(top, w) <= IndexOf(top, l)
    {
      if l in top {
        var j := KeyIndex(counts, l);
        assert counts[j].1 <= counts[b].1;
        if j < b {
          assert counts[j].1 < counts[b].1;
        }
      }
    }
  }

  /** The classifier closure: the label that occurs most often among the k
      nearest training rows, the earliest-counted one on ties, and None only
      when nothing is counted. */
  method Classify<L(==)>(distance: Distance, X: seq<seq<real>>, y: seq<L>, k: nat, v: seq<real>)
    returns (best: Option<L>)
    requires |y| == |X|
    ensures best.None? <==> k == 0 || |X| == 0
    ensures best.Some? ==> best.value in TopLabels(distance, X, y, k, v)
    ensures best.Some? ==>
      forall l :: multiset(TopLabels(distance, X, y, k, v))[l] <= multiset(TopLabels(distance, X, y, k, v))[best.value]
    ensures best.Some? ==>
      var top := TopLabels(distance, X, y, k, v);
      forall l :: l in top && multiset(top)[l] == multiset(top)[best.value] ==> IndexOf(top, best.value) <= IndexOf(top, l)
  {
    var d := Distances(distance, X, v);
    var sorted := SortedLabels(d, y);
    var top := if k < |sorted| then sorted[..k] else sorted;
    var counts := CountBy(top);
    best := Vote(counts);
    VoteWins(top, counts, best);
  }
}
