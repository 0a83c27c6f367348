/** nerdy.hclust (src/hclust.js): agglomerative clustering over an m x m
    distance matrix rewritten in place, with a per-row index of the closest
    cluster, cluster sizes and cluster trees. The distance function is a
    parameter; Infinity is the PosInf of the extended reals. */
module HClust {
  import opened Wrappers
  import opened Vectors

  type Distance = (seq<real>, seq<real>) -> real

  /** A cluster tree: a sample index, or the merge of two trees. */
  datatype Tree = Leaf(index: nat) | Node(left: Tree, right: Tree)

  /** The linkage option; a string the switch does not know leaves the
      distances alone. */
  datatype Linkage = Single | Complete | Average | Unrecognised

  // ---------------------------------------------------------------------------
  // Order on the extended reals
  // ---------------------------------------------------------------------------

  lemma ExtTotal(a: Ext, b: Ext)
    ensures !a.Lt(b) ==> b.Le(a)
  {
  }

  lemma ExtLeLtTrans(a: Ext, b: Ext, c: Ext)
    ensures a.Le(b) && b.Lt(c) ==> a.Lt(c)
    ensures a.Lt(b) && b.Le(c) ==> a.Lt(c)
    ensures a.Le(b) && b.Le(c) ==> a.Le(c)
  {
  }

  /** Index k holds the first smallest entry of row. */
  ghost predicate FirstMin(row: seq<Ext>, k: nat)
  {
    k < |row|
    && (forall t :: 0 <= t < |row| ==> row[k].Le(row[t]))
    && (forall t :: 0 <= t < k ==> row[k].Lt(row[t]))
  }

  // ---------------------------------------------------------------------------
  // Linkage rules
  // ---------------------------------------------------------------------------

  /** The average-linkage value as written: both distances weighted by
      sizes, where s1 is the size of c1 AFTER it absorbed c2, divided by
      s1 + sj. Infinity stays Infinity. */
  function AverageLink(s1: nat, d1: Ext, s2: nat, d2: Ext, sj: nat): Ext
    requires s1 + sj > 0
  {
    if d1.Fin? && d2.Fin? then Fin((s1 as real * d1.v + s2 as real * d2.v) / (s1 + sj) as real)
    else PosInf
  }

  /** What the switch writes to d(c1, j) and d(j, c1), or None when it writes
      nothing. d1 = d(c1, j), d2 = d(c2, j); s1 is the updated size of c1. */
  function Link(linkage: Linkage, d1: Ext, d2: Ext, s1: nat, s2: nat, sj: nat): Option<Ext>
    requires s1 + sj > 0
  {
    match linkage
    case Single => if d2.Lt(d1) then Some(d2) else None
    case Complete => if d1.Lt(d2) then Some(d2) else None
    case Average => Some(AverageLink(s1, d1, s2, d2, sj))
    case Unrecognised => None
  }

  /** An entry of row or column c1 after the switch: the written value, or
      the entry e that was there. */
  function Relinked(linkage: Linkage, d1: Ext, d2: Ext, e: Ext, s1: nat, s2: nat, sj: nat): Ext
    requires s1 + sj > 0
  {
    var w := Link(linkage, d1, d2, s1, s2, sj);
    if w.Some? then w.value else e
  }

  /** Single linkage keeps the smaller distance, complete linkage the
      larger. */
  lemma SingleAndCompleteLinkage(d1: Ext, d2: Ext, s1: nat, s2: nat, sj: nat)
    requires s1 + sj > 0
    ensures Relinked(Single, d1, d2, d1, s1, s2, sj) == ExtMin(d1, d2)
    ensures Relinked(Complete, d1, d2, d1, s1, s2, sj) == ExtMax(d1, d2)
  {
  }

  /** The average as written falls below both distances whenever the other
      cluster j is larger than c2: two clusters at the same distance x from
      j merge into one that is nearer than x. */
  lemma AverageLinkBelowBoth(s1: nat, s2: nat, sj: nat, x: real)
    requires s1 > 0 && s2 < sj && x > 0.0
    ensures AverageLink(s1, Fin(x), s2, Fin(x), sj).Fin?
    ensures AverageLink(s1, Fin(x), s2, Fin(x), sj).v < x
  {
    var num := s1 as real * x + s2 as real * x;
    var den := (s1 + sj) as real;
    assert num == (s1 + s2) as real * x;
    assert num < den * x;
  }

  /** A concrete case: singletons c1, c2 at distance 1 from a cluster j of
      size 3 merge into a cluster at distance 0.6 from j. */
  lemma AverageLinkExample()
    ensures AverageLink(2, Fin(1.0), 1, Fin(1.0), 3) == Fin(0.6)
  {
  }

  /** The size-weighted mean of the two distances, weighted by the sizes c1
      and c2 had before the merge. */
  function AverageLinkCorrected(s1: nat, d1: Ext, s2: nat, d2: Ext): (r: Ext)
    requires s1 > 0 && s2 > 0 && !d1.NegInf? && !d2.NegInf?
    ensures d1.Fin? && d2.Fin? ==> r.Fin?
    ensures ExtMin(d1, d2).Le(r) && r.Le(ExtMax(d1, d2))
  {
    if d1.Fin? && d2.Fin? then
      var w := (s1 as real * d1.v + s2 as real * d2.v) / (s1 + s2) as real;
      WeightedMeanBetween(s1 as real, d1.v, s2 as real, d2.v);
      assert d1.v <= d2.v ==> ExtMin(d1, d2) == d1 && ExtMax(d1, d2) == d2;
      assert d2.v < d1.v ==> ExtMin(d1, d2) == d2 && ExtMax(d1, d2) == d1;
      Fin(w)
    else PosInf
  }

  lemma WeightedMeanBetween(a: real, x: real, b: real, y: real)
    requires a > 0.0 && b > 0.0
    ensures var w := (a * x + b * y) / (a + b);
              (x <= y ==> x <= w <= y) && (y <= x ==> y <= w <= x)
  {
    var w := (a * x + b * y) / (a + b);
    assert w * (a + b) == a * x + b * y;
    if x <= y {
      assert a * x + b * x <= a * x + b * y <= a * y + b * y;
      assert (a + b) * x <= w * (a + b) <= (a + b) * y;
    } else {
      assert a * y + b * y <= a * x + b * y <= a * x + b * x;
      assert (a + b) * y <= w * (a + b) <= (a + b) * x;
    }
  }

  // ---------------------------------------------------------------------------
  // The distance matrix
  // ---------------------------------------------------------------------------

  /** The initial entry: Infinity on the diagonal, the distance elsewhere. */
  function Initial(X: seq<seq<real>>, distance: Distance, i: nat, j: nat): Ext
    requires i < |X| && j < |X|
  {
    if i == j then PosInf else Fin(distance(X[i], X[j]))
  }

  function InitialRow(X: seq<seq<real>>, distance: Distance, i: nat): (row: seq<Ext>)
    requires i < |X|
    ensures |row| == |X| && forall j :: 0 <= j < |X| ==> row[j] == Initial(X, distance, i, j)
  {
    seq(|X|, j requires 0 <= j < |X| => Initial(X, distance, i, j))
  }

  /** The first smallest entry of the prefix row[..j + 1], given the first
      smallest of row[..j], is the old one unless row[j] is strictly
      smaller. */
  lemma FirstMinStep(row: seq<Ext>, j: nat, k: nat)
    requires j < |row| && (j == 0 ==> k == 0) && (j > 0 ==> FirstMin(row[..j], k))
    ensures row[j].Lt(row[k]) ==> FirstMin(row[..j + 1], j)
    ensures !row[j].Lt(row[k]) ==> FirstMin(row[..j + 1], k)
  {
    var p := row[..j + 1];
    if row[j].Lt(row[k]) {
      forall t | 0 <= t < j + 1 ensures p[j].Le(p[t]) && (t < j ==> p[j].Lt(p[t])) {
        if t < j {
          assert row[..j][t] == p[t];
          ExtLeLtTrans(row[j], row[k], p[t]);
        }
      }
    } else {
      ExtTotal(row[j], row[k]);
      forall t | 0 <= t < j + 1 ensures p[k].Le(p[t]) {
        if t < j {
          assert row[..j][t] == p[t];
        }
      }
      forall t | 0 <= t < k ensures p[k].Lt(p[t]) {
        assert row[..j][t] == p[t];
      }
    }
  }

  /** Fill row i of the matrix and find its first minimum (the inner loop of
      the set-up). */
  method FillRow(X: seq<seq<real>>, distance: Distance, dists: array2<Ext>, mins: array<nat>, i: nat)
    requires dists.Length0 == dists.Length1 == mins.Length == |X| && i < |X|
    requires forall b :: 0 <= b < |X| ==> dists[i, b] == PosInf
    requires mins[i] == 0
    modifies dists, mins
    ensures forall a, b :: 0 <= a < |X| && 0 <= b < |X| && a != i ==> dists[a, b] == old(dists[a, b])
    ensures forall b :: 0 <= b < |X| ==> dists[i, b] == Initial(X, distance, i, b)
    ensures forall a :: 0 <= a < |X| && a != i ==> mins[a] == old(mins[a])
    ensures FirstMin(InitialRow(X, distance, i), mins[i])
  {
    ghost var row := InitialRow(X, distance, i);
    var m := |X|;
    for j := 0 to m
      invariant forall a, b :: 0 <= a < m && 0 <= b < m && a != i ==> dists[a, b] == old(dists[a, b])
      invariant forall b :: 0 <= b < j ==> dists[i, b] == row[b]
      invariant forall b :: j <= b < m ==> dists[i, b] == PosInf
      invariant forall a :: 0 <= a < m && a != i ==> mins[a] == old(mins[a])
      invariant j == 0 ==> mins[i] == 0
      invariant j > 0 ==> FirstMin(row[..j], mins[i])
    {
      if i != j {
        dists[i, j] := Fin(distance(X[i], X[j]));
      }
      assert dists[i, j] == row[j];
      FirstMinStep(row, j, mins[i]);
      if dists[i, j].Lt(dists[i, mins[i]]) {
        mins[i] := j;
      }
    }
    if m > 0 {
      assert row[..m] == row;
    }
  }

  /** The set-up: Infinity on the diagonal, distances elsewhere, and mins[i]
      the first index of the smallest entry of row i. */
  method InitDistances(X: seq<seq<real>>, distance: Distance) returns (dists: array2<Ext>, mins: array<nat>)
    ensures fresh(dists) && fresh(mins)
    ensures dists.Length0 == dists.Length1 == mins.Length == |X|
    ensures forall a, b :: 0 <= a < |X| && 0 <= b < |X| ==> dists[a, b] == Initial(X, distance, a, b)
    ensures forall a :: 0 <= a < |X| ==> FirstMin(InitialRow(X, distance, a), mins[a])
  {
    var m := |X|;
    dists := new Ext[m, m]((a, b) => PosInf);
    mins := new nat[m](a => 0);
    for i := 0 to m
      invariant forall a, b :: 0 <= a < i && 0 <= b < m ==> dists[a, b] == Initial(X, distance, a, b)
      invariant forall a, b :: i <= a < m && 0 <= b < m ==> dists[a, b] == PosInf
      invariant forall a :: 0 <= a < i ==> FirstMin(InitialRow(X, distance, a), mins[a])
      invariant forall a :: i <= a < m ==> mins[a] == 0
    {
      FillRow(X, distance, dists, mins, i);
    }
  }

  // ---------------------------------------------------------------------------
  // One merge
  // ---------------------------------------------------------------------------

  /** The distance from cluster i to its recorded closest cluster. */
  ghost function Key(dists: array2<Ext>, mins: array<nat>, i: nat): Ext
    reads dists, mins
    requires dists.Length0 == dists.Length1 == mins.Length && i < mins.Length && mins[i] < mins.Length
  {
    dists[i, mins[i]]
  }

  ghost predicate MinsInRange(dists: array2<Ext>, mins: array<nat>)
    reads mins
  {
    dists.Length0 == dists.Length1 == mins.Length
    && forall a :: 0 <= a < mins.Length ==> mins[a] < mins.Length
  }

  /** c1: the first row whose recorded closest distance is smallest. */
  method Closest(dists: array2<Ext>, mins: array<nat>) returns (c1: nat)
    requires MinsInRange(dists, mins) && mins.Length > 0
    ensures c1 < mins.Length
    ensures forall i :: 0 <= i < mins.Length ==> Key(dists, mins, c1).Le(Key(dists, mins, i))
    ensures forall i :: 0 <= i < c1 ==> Key(dists, mins, c1).Lt(Key(dists, mins, i))
  {
    c1 := 0;
    for i := 0 to mins.Length
      invariant c1 < mins.Length && (i == 0 ==> c1 == 0) && (i > 0 ==> c1 < i)
      invariant forall t :: 0 <= t < i ==> Key(dists, mins, c1).Le(Key(dists, mins, t))
      invariant forall t :: 0 <= t < c1 ==> Key(dists, mins, c1).Lt(Key(dists, mins, t))
    {
      if dists[i, mins[i]].Lt(dists[c1, mins[c1]]) {
        forall t | 0 <= t < i ensures Key(dists, mins, i).Lt(Key(dists, mins, t)) {
          ExtLeLtTrans(Key(dists, mins, i), Key(dists, mins, c1), Key(dists, mins, t));
        }
        c1 := i;
      } else {
        ExtTotal(Key(dists, mins, i), Key(dists, mins, c1));
      }
    }
  }

  /** The contents of a distance matrix, row by row. */
  ghost function Snap(d: array2<Ext>): (D: seq<seq<Ext>>)
    reads d
    ensures |D| == d.Length0 && forall a :: 0 <= a < d.Length0 ==> |D[a]| == d.Length1
    ensures forall a, b :: 0 <= a < d.Length0 && 0 <= b < d.Length1 ==> D[a][b] == d[a, b]
  {
    seq(d.Length0, a requires 0 <= a < d.Length0 reads d =>
      seq(d.Length1, b requires 0 <= b < d.Length1 reads d => d[a, b]))
  }

  ghost predicate Square(D: seq<seq<Ext>>, m: nat)
  {
    |D| == m && forall a :: 0 <= a < m ==> |D[a]| == m
  }

  /** The linkage loop took matrix D0 to D1: row and column c1 hold the
      linked distances (S holds the sizes, c1's already updated); nothing
      outside row and column c1 changed. d(c1, c1), d(c1, c2) and d(c2, c1)
      are left to the clean-up. */
  ghost predicate LinksUpdated(D0: seq<seq<Ext>>, D1: seq<seq<Ext>>, S: seq<nat>, c1: nat, c2: nat, linkage: Linkage, m: nat)
  {
    Square(D0, m) && Square(D1, m) && |S| == m && c1 < m && c2 < m
    && (forall k :: 0 <= k < m ==> S[k] >= 1)
    && (forall a, b :: 0 <= a < m && 0 <= b < m && a != c1 && b != c1 ==> D1[a][b] == D0[a][b])
    && (forall j :: 0 <= j < m && j != c1 && j != c2 ==>
          D1[c1][j] == Relinked(linkage, D0[c1][j], D0[c2][j], D0[c1][j], S[c1], S[c2], S[j])
          && D1[j][c1] == Relinked(linkage, D0[c1][j], D0[c2][j], D0[j][c1], S[c1], S[c2], S[j]))
  }

  /** The linkage loop of one merge. */
  method UpdateLinks(dists: array2<Ext>, sizes: array<nat>, c1: nat, c2: nat, linkage: Linkage)
    requires dists.Length0 == dists.Length1 == sizes.Length && c1 < sizes.Length && c2 < sizes.Length
    requires forall k :: 0 <= k < sizes.Length ==> sizes[k] >= 1
    modifies dists
    ensures LinksUpdated(old(Snap(dists)), Snap(dists), sizes[..], c1, c2, linkage, sizes.Length)
  {
    var m := dists.Length0;
    for j := 0 to m
      invariant forall a, b :: 0 <= a < m && 0 <= b < m && a != c1 && b != c1 ==> dists[a, b] == old(dists[a, b])
      invariant forall b :: j <= b < m && b != c1 ==> dists[c1, b] == old(dists[c1, b])
      invariant forall a :: j <= a < m && a != c1 ==> dists[a, c1] == old(dists[a, c1])
      invariant forall t :: 0 <= t < j && t != c1 && t != c2 ==>
                  dists[c1, t] == Relinked(linkage, old(dists[c1, t]), old(dists[c2, t]), old(dists[c1, t]), sizes[c1], sizes[c2], sizes[t])
                  && dists[t, c1] == Relinked(linkage, old(dists[c1, t]), old(dists[c2, t]), old(dists[t, c1]), sizes[c1], sizes[c2], sizes[t])
    {
      match linkage {
        case Single =>
          if dists[c2, j].Lt(dists[c1, j]) {
            dists[c1, j] := dists[c2, j];
            dists[j, c1] := dists[c1, j];
          }
        case Complete =>
          if dists[c1, j].Lt(dists[c2, j]) {
            dists[c1, j] := dists[c2, j];
            dists[j, c1] := dists[c1, j];
          }
        case Average =>
          dists[c1, j] := AverageLink(sizes[c1], dists[c1, j], sizes[c2], dists[c2, j], sizes[j]);
          dists[j, c1] := dists[c1, j];
        case Unrecognised =>
      }
    }
  }

  /** The clean-up took D0 to D1: d(c1, c1) and all of row and column c2
      are Infinity, every other entry is unchanged. */
  ghost predicate Cleared(D0: seq<seq<Ext>>, D1: seq<seq<Ext>>, c1: nat, c2: nat, m: nat)
  {
    Square(D0, m) && Square(D1, m) && c1 < m && c2 < m
    && D1[c1][c1] == PosInf
    && (forall k :: 0 <= k < m ==> D1[k][c2] == PosInf && D1[c2][k] == PosInf)
    && (forall a, b :: 0 <= a < m && 0 <= b < m && a != c2 && b != c2 && !(a == c1 && b == c1) ==> D1[a][b] == D0[a][b])
  }

  /** The clean-up of one merge. */
  method ClearMerged(dists: array2<Ext>, c1: nat, c2: nat)
    requires dists.Length0 == dists.Length1 && c1 < dists.Length0 && c2 < dists.Length0
    modifies dists
    ensures Cleared(old(Snap(dists)), Snap(dists), c1, c2, dists.Length0)
  {
    var m := dists.Length0;
    dists[c1, c1] := PosInf;
    for i := 0 to m
      invariant dists[c1, c1] == PosInf
      invariant forall k :: 0 <= k < i ==> dists[k, c2] == PosInf && dists[c2, k] == PosInf
      invariant forall a, b :: 0 <= a < m && 0 <= b < m && a != c2 && b != c2 && !(a == c1 && b == c1)
                  ==> dists[a, b] == old(dists[a, b])
    {
      dists[c2, i] := PosInf;
      dists[i, c2] := PosInf;
    }
  }

  /** The recalculation took closest indices M0 to M1 over matrix D: every
      index that named c2 names c1, and M1[c1] is a smallest entry of row
      c1. */
  ghost predicate MinsRecalculated(D: seq<seq<Ext>>, M0: seq<nat>, M1: seq<nat>, c1: nat, c2: nat, m: nat)
  {
    Square(D, m) && |M0| == m && |M1| == m && c1 < m
    && (forall j :: 0 <= j < m ==> M1[j] < m)
    && (forall j :: 0 <= j < m && j != c1 ==> M1[j] == (if M0[j] == c2 then c1 else M0[j]))
    && (forall k :: 0 <= k < m ==> D[c1][M1[c1]].Le(D[c1][k]))
  }

  /** The minimum recalculation of one merge. */
  method RecalcMins(dists: array2<Ext>, mins: array<nat>, c1: nat, c2: nat)
    requires MinsInRange(dists, mins) && c1 < mins.Length && c2 < mins.Length
    requires mins[c1] == c2 && dists[c1, c1] == PosInf && dists[c1, c2] == PosInf
    modifies mins
    ensures MinsRecalculated(Snap(dists), old(mins[..]), mins[..], c1, c2, mins.Length)
  {
    var m := mins.Length;
    for j := 0 to m
      invariant MinsInRange(dists, mins)
      invariant forall t :: 0 <= t < j && t != c1 ==> mins[t] == (if old(mins[t]) == c2 then c1 else old(mins[t]))
      invariant forall t :: j <= t < m && t != c1 ==> mins[t] == old(mins[t])
      invariant forall k :: 0 <= k < j ==> dists[c1, mins[c1]].Le(dists[c1, k])
    {
      if mins[j] == c2 {
        mins[j] := c1;
      }
      if dists[c1, j].Lt(dists[c1, mins[c1]]) {
        forall k | 0 <= k < j ensures dists[c1, j].Le(dists[c1, k]) {
          ExtLeLtTrans(dists[c1, j], dists[c1, mins[c1]], dists[c1, k]);
        }
        mins[c1] := j;
      } else {
        ExtTotal(dists[c1, j], dists[c1, mins[c1]]);
      }
    }
  }

  /** The result of a merge: clusters c1 and c2 = mins[c1], and the new
      node. */
  datatype Merged = Merged(c1: nat, c2: nat, node: Tree)

  /** c1 is the first row whose recorded closest distance is smallest, and
      c2 is that closest index. */
  ghost predicate ClosestPair(D: seq<seq<Ext>>, M: seq<nat>, c1: nat, c2: nat, m: nat)
  {
    Square(D, m) && |M| == m && (forall i :: 0 <= i < m ==> M[i] < m)
    && c1 < m && c2 == M[c1]
    && (forall i :: 0 <= i < m ==> D[c1][c2].Le(D[i][M[i]]))
    && (forall i :: 0 <= i < c1 ==> D[c1][c2].Lt(D[i][M[i]]))
  }

  /** c1 holds the node of the two trees and the sum of the two sizes. */
  ghost predicate Absorbed(S0: seq<nat>, S1: seq<nat>, C0: seq<Tree>, C1: seq<Tree>, c1: nat, c2: nat, node: Tree)
  {
    |S0| == |C0| && c1 < |S0| && c2 < |S0|
    && node == Node(C0[c1], C0[c2]) && C1 == C0[c1 := node]
    && S1 == S0[c1 := S0[c1] + S0[c2]]
  }

  /** The distances after one merge of c1 != c2: row and column c1 hold the
      linked distances, row and column c2 and d(c1, c1) are Infinity, every
      other entry is unchanged. */
  ghost predicate MergedDistances(D0: seq<seq<Ext>>, D1: seq<seq<Ext>>, S: seq<nat>, c1: nat, c2: nat, linkage: Linkage, m: nat)
  {
    Square(D0, m) && Square(D1, m) && |S| == m && c1 < m && c2 < m
    && (forall k :: 0 <= k < m ==> S[k] >= 1)
    && D1[c1][c1] == PosInf
    && (forall k :: 0 <= k < m ==> D1[k][c2] == PosInf && D1[c2][k] == PosInf)
    && (forall a, b :: 0 <= a < m && 0 <= b < m && a != c1 && b != c1 && a != c2 && b != c2 ==> D1[a][b] == D0[a][b])
    && (forall j :: 0 <= j < m && j != c1 && j != c2 ==>
          D1[c1][j] == Relinked(linkage, D0[c1][j], D0[c2][j], D0[c1][j], S[c1], S[c2], S[j])
          && D1[j][c1] == Relinked(linkage, D0[c1][j], D0[c2][j], D0[j][c1], S[c1], S[c2], S[j]))
  }

  lemma ComposeDistances(D0: seq<seq<Ext>>, Da: seq<seq<Ext>>, D1: seq<seq<Ext>>, S: seq<nat>, c1: nat, c2: nat,
                         linkage: Linkage, m: nat)
    requires LinksUpdated(D0, Da, S, c1, c2, linkage, m) && Cleared(Da, D1, c1, c2, m) && c1 != c2
    ensures MergedDistances(D0, D1, S, c1, c2, linkage, m)
  {
  }

  /** The first half of a merge: choose c1 and c2 = mins[c1], then c1
      takes the node of the two trees and the sum of the two sizes. */
  method Absorb(dists: array2<Ext>, mins: array<nat>, sizes: array<nat>, clusters: array<Tree>)
    returns (c1: nat, c2: nat, node: Tree)
    requires MinsInRange(dists, mins) && mins.Length > 0
    requires sizes.Length == clusters.Length == mins.Length && sizes != mins
    requires forall k :: 0 <= k < sizes.Length ==> sizes[k] >= 1
    modifies sizes, clusters
    ensures ClosestPair(Snap(dists), mins[..], c1, c2, mins.Length)
    ensures Absorbed(old(sizes[..]), sizes[..], old(clusters[..]), clusters[..], c1, c2, node)
    ensures forall k :: 0 <= k < sizes.Length ==> sizes[k] >= 1
  {
    c1 := Closest(dists, mins);
    c2 := mins[c1];
    ghost var D := Snap(dists);
    assert ClosestPair(D, mins[..], c1, c2, mins.Length) by {
      forall i | 0 <= i < mins.Length ensures D[i][mins[i]] == Key(dists, mins, i) {
      }
    }
    node := Node(clusters[c1], clusters[c2]);
    clusters[c1] := node;
    sizes[c1] := sizes[c1] + sizes[c2];
  }

  /** The second half of a merge: relink row and column c1, clear c2,
      recalculate the closest indices. */
  method Relink(dists: array2<Ext>, mins: array<nat>, sizes: array<nat>, c1: nat, c2: nat, linkage: Linkage)
    requires MinsInRange(dists, mins) && sizes.Length == mins.Length && sizes != mins
    requires c1 < mins.Length && mins[c1] == c2
    requires forall k :: 0 <= k < sizes.Length ==> sizes[k] >= 1
    modifies dists, mins
    ensures MinsInRange(dists, mins)
    ensures c1 != c2 ==> MergedDistances(old(Snap(dists)), Snap(dists), sizes[..], c1, c2, linkage, mins.Length)
    ensures MinsRecalculated(Snap(dists), old(mins[..]), mins[..], c1, c2, mins.Length)
  {
    ghost var D0 := Snap(dists);
    UpdateLinks(dists, sizes, c1, c2, linkage);
    ghost var Da := Snap(dists);
    ClearMerged(dists, c1, c2);
    if c1 != c2 {
      ComposeDistances(D0, Da, Snap(dists), sizes[..], c1, c2, linkage, mins.Length);
    }
    RecalcMins(dists, mins, c1, c2);
  }

  /** One pass of the merge loop. */
  method Merge(dists: array2<Ext>, mins: array<nat>, sizes: array<nat>, clusters: array<Tree>, linkage: Linkage)
    returns (r: Merged)
    requires MinsInRange(dists, mins) && mins.Length > 0
    requires sizes.Length == clusters.Length == mins.Length && sizes != mins
    requires forall k :: 0 <= k < sizes.Length ==> sizes[k] >= 1
    modifies dists, mins, sizes, clusters
    ensures MinsInRange(dists, mins) && forall k :: 0 <= k < sizes.Length ==> sizes[k] >= 1
    ensures ClosestPair(old(Snap(dists)), old(mins[..]), r.c1, r.c2, mins.Length)
    ensures Absorbed(old(sizes[..]), sizes[..], old(clusters[..]), clusters[..], r.c1, r.c2, r.node)
    ensures r.c1 != r.c2 ==> MergedDistances(old(Snap(dists)), Snap(dists), sizes[..], r.c1, r.c2, linkage, mins.Length)
    ensures MinsRecalculated(Snap(dists), old(mins[..]), mins[..], r.c1, r.c2, mins.Length)
  {
    var c1, c2, node := Absorb(dists, mins, sizes, clusters);
    Relink(dists, mins, sizes, c1, c2, linkage);
    r := Merged(c1, c2, node);
  }

  // ---------------------------------------------------------------------------
  // Samples held by the live clusters
  // ---------------------------------------------------------------------------

  /** The sample indices at the leaves of a tree, with multiplicity. */
  function Leaves(t: Tree): multiset<nat>
  {
    match t
    case Leaf(i) => multiset{i}
    case Node(l, r) => Leaves(l) + Leaves(r)
  }

  /** The samples 0 .. n - 1, each once. */
  function Samples(n: nat): (r: multiset<nat>)
    ensures |r| == n
  {
    if n == 0 then multiset{} else Samples(n - 1) + multiset{n - 1}
  }

  lemma {:induction false} SamplesOnce(n: nat)
    ensures forall s: nat :: Samples(n)[s] == if s < n then 1 else 0
  {
    if n > 0 {
      SamplesOnce(n - 1);
      forall s: nat ensures Samples(n)[s] == if s < n then 1 else 0 {
        assert Samples(n)[s] == Samples(n - 1)[s] + multiset{n - 1}[s];
      }
    }
  }

  /** The leaves of the live clusters among the first n slots. */
  function Gathered(C: seq<Tree>, A: set<nat>, n: nat): multiset<nat>
    requires n <= |C|
  {
    if n == 0 then multiset{}
    else Gathered(C, A, n - 1) + (if n - 1 in A then Leaves(C[n - 1]) else multiset{})
  }

  /** Absorbing c2 into c1 moves c2's leaves from slot c2 to slot c1. */
  lemma {:induction false} GatheredMerge(C0: seq<Tree>, A: set<nat>, n: nat, c1: nat, c2: nat)
    requires n <= |C0| && c1 < |C0| && c2 < |C0| && c1 != c2 && c1 in A && c2 in A
    ensures Gathered(C0[c1 := Node(C0[c1], C0[c2])], A - {c2}, n) + (if c2 < n then Leaves(C0[c2]) else multiset{})
            == Gathered(C0, A, n) + (if c1 < n then Leaves(C0[c2]) else multiset{})
  {
    if n > 0 {
      var k := n - 1;
      GatheredMerge(C0, A, k, c1, c2);
      var C1 := C0[c1 := Node(C0[c1], C0[c2])];
      var L := Leaves(C0[c2]);
      var x1 := if k in A - {c2} then Leaves(C1[k]) else multiset{};
      var x0 := if k in A then Leaves(C0[k]) else multiset{};
      assert Gathered(C1, A - {c2}, n) == Gathered(C1, A - {c2}, k) + x1;
      assert Gathered(C0, A, n) == Gathered(C0, A, k) + x0;
      SlotMerge(C0, A, k, c1, c2);
      MergeCancel(Gathered(C1, A - {c2}, k), (if c2 < k then L else multiset{}),
                  Gathered(C0, A, k), (if c1 < k then L else multiset{}),
                  x1, (if c2 < n then L else multiset{}), x0, (if c1 < n then L else multiset{}));
    }
  }

  /** What the merge does to slot k: the leaves it holds, with c2's leaves
      counted once they are passed (at c1 after the merge, at c2 before). */
  lemma SlotMerge(C0: seq<Tree>, A: set<nat>, k: nat, c1: nat, c2: nat)
    requires k < |C0| && c1 < |C0| && c2 < |C0| && c1 != c2 && c1 in A && c2 in A
    ensures var C1 := C0[c1 := Node(C0[c1], C0[c2])];
            var L := Leaves(C0[c2]);
            (if k in A - {c2} then Leaves(C1[k]) else multiset{}) + (if c2 <= k then L else multiset{})
              + (if c1 < k then L else multiset{})
            == (if k in A then Leaves(C0[k]) else multiset{}) + (if c1 <= k then L else multiset{})
              + (if c2 < k then L else multiset{})
  {
    var C1 := C0[c1 := Node(C0[c1], C0[c2])];
    if k == c1 {
      assert Leaves(C1[k]) == Leaves(C0[c1]) + Leaves(C0[c2]);
    }
  }

  /** Adding the same slot change to both sides of a balanced sum. */
  lemma MergeCancel(g1: multiset<nat>, e2: multiset<nat>, g0: multiset<nat>, e1: multiset<nat>,
                    x1: multiset<nat>, f2: multiset<nat>, x0: multiset<nat>, f1: multiset<nat>)
    requires g1 + e2 == g0 + e1
    requires x1 + f2 + e1 == x0 + f1 + e2
    ensures g1 + x1 + f2 == g0 + x0 + f1
  {
    forall y ensures (g1 + x1 + f2)[y] == (g0 + x0 + f1)[y] {
      assert (g1 + e2)[y] == (g0 + e1)[y];
      assert (x1 + f2 + e1)[y] == (x0 + f1 + e2)[y];
    }
  }

  /** With one live cluster, the gathered leaves are its tree's. */
  lemma {:induction false} GatheredSingle(C: seq<Tree>, r: nat, n: nat)
    requires n <= |C| && r < |C|
    ensures Gathered(C, {r}, n) == if r < n then Leaves(C[r]) else multiset{}
  {
    if n > 0 {
      GatheredSingle(C, r, n - 1);
    }
  }

  /** At the start every slot is live and holds its own sample. */
  lemma {:induction false} GatheredStart(C: seq<Tree>, A: set<nat>, n: nat)
    requires n <= |C| && (forall i :: 0 <= i < |C| ==> C[i] == Leaf(i)) && (forall i: nat :: i in A <==> i < |C|)
    ensures Gathered(C, A, n) == Samples(n)
  {
    if n > 0 {
      GatheredStart(C, A, n - 1);
    }
  }

  // ---------------------------------------------------------------------------
  // The merge loop
  // ---------------------------------------------------------------------------

  /** The invariant of the merge loop, on the contents of the arrays, with A
      the set of live clusters: distances between distinct live clusters
      are finite and all others Infinity; the closest index of a live
      cluster names another live cluster; the size of a live cluster counts
      the leaves of its tree, and the live trees hold every sample once. */
  ghost predicate Live(D: seq<seq<Ext>>, M: seq<nat>, S: seq<nat>, C: seq<Tree>, A: set<nat>, m: nat)
  {
    LiveShape(D, M, S, A, m) && LiveTrees(S, C, A, m)
  }

  ghost predicate LiveShape(D: seq<seq<Ext>>, M: seq<nat>, S: seq<nat>, A: set<nat>, m: nat)
  {
    Square(D, m) && |M| == m && |S| == m
    && (forall a :: a in A ==> a < m)
    && (forall a, b {:trigger D[a][b]} :: 0 <= a < m && 0 <= b < m ==>
          if a in A && b in A && a != b then D[a][b].Fin? else D[a][b] == PosInf)
    && (forall a :: 0 <= a < m ==> M[a] < m && S[a] >= 1)
    && (|A| >= 2 ==> forall a {:trigger M[a]} :: a in A ==> M[a] in A && M[a] != a)
  }

  ghost predicate LiveTrees(S: seq<nat>, C: seq<Tree>, A: set<nat>, m: nat)
  {
    |S| == m && |C| == m
    && (forall a :: a in A ==> a < m)
    && (forall a {:trigger C[a]} :: a in A ==> S[a] == |Leaves(C[a])|)
    && Gathered(C, A, m) == Samples(m)
  }

  ghost predicate Inv(dists: array2<Ext>, mins: array<nat>, sizes: array<nat>, clusters: array<Tree>, A: set<nat>)
    reads dists, mins, sizes, clusters
  {
    dists.Length0 == dists.Length1 == mins.Length == sizes.Length == clusters.Length
    && sizes != mins
    && Live(Snap(dists), mins[..], sizes[..], clusters[..], A, mins.Length)
  }

  lemma LinkedFinite(linkage: Linkage, d1: Ext, d2: Ext, e: Ext, s1: nat, s2: nat, sj: nat)
    requires s1 + sj > 0
    requires (d1.Fin? && d2.Fin? && e.Fin?) || (d1 == PosInf && d2 == PosInf && e == PosInf)
    ensures (d1.Fin? ==> Relinked(linkage, d1, d2, e, s1, s2, sj).Fin?)
    ensures (d1 == PosInf ==> Relinked(linkage, d1, d2, e, s1, s2, sj) == PosInf)
  {
  }

  /** A set with two or more elements has one other than a. */
  lemma OtherMember(A: set<nat>, a: nat) returns (k: nat)
    requires |A| >= 2
    ensures k in A && k != a
  {
    var x :| x in A;
    if x != a {
      k := x;
    } else {
      assert |A - {a}| >= 1;
      k :| k in A - {a};
    }
  }

  /** The merged pair is two distinct live clusters: with two or more live
      clusters some key is finite, so the smallest one is too. */
  lemma MergedPairLive(D0: seq<seq<Ext>>, M0: seq<nat>, S0: seq<nat>, A: set<nat>, m: nat, c1: nat, c2: nat)
    requires LiveShape(D0, M0, S0, A, m) && |A| >= 2
    requires ClosestPair(D0, M0, c1, c2, m)
    ensures c1 in A && c2 in A && c1 != c2
  {
    var a :| a in A;
    assert D0[a][M0[a]].Fin?;
    assert D0[c1][c2].Le(D0[a][M0[a]]);
  }

  /** After the merge, exactly the distances between distinct live clusters
      are finite. */
  lemma MergeKeepsDistances(D0: seq<seq<Ext>>, D1: seq<seq<Ext>>, M0: seq<nat>, S0: seq<nat>, S1: seq<nat>,
                            A: set<nat>, m: nat, c1: nat, c2: nat, linkage: Linkage)
    requires LiveShape(D0, M0, S0, A, m)
    requires MergedDistances(D0, D1, S1, c1, c2, linkage, m)
    requires c1 in A && c2 in A && c1 != c2
    ensures forall a, b {:trigger D1[a][b]} :: 0 <= a < m && 0 <= b < m ==>
              if a in A - {c2} && b in A - {c2} && a != b then D1[a][b].Fin? else D1[a][b] == PosInf
  {
    forall x, y | 0 <= x < m && 0 <= y < m
      ensures if x in A - {c2} && y in A - {c2} && x != y then D1[x][y].Fin? else D1[x][y] == PosInf
    {
      if x == c1 && y != c1 && y != c2 {
        LinkedFinite(linkage, D0[c1][y], D0[c2][y], D0[c1][y], S1[c1], S1[c2], S1[y]);
      } else if y == c1 && x != c1 && x != c2 {
        LinkedFinite(linkage, D0[c1][x], D0[c2][x], D0[x][c1], S1[c1], S1[c2], S1[x]);
      }
    }
  }

  /** After the merge, every live cluster's closest index names another
      live cluster. */
  lemma MergeKeepsClosest(D1: seq<seq<Ext>>, M0: seq<nat>, M1: seq<nat>, A: set<nat>, m: nat, c1: nat, c2: nat)
    requires |A| >= 3 && c1 in A && c2 in A && c1 != c2
    requires MinsRecalculated(D1, M0, M1, c1, c2, m)
    requires forall a :: a in A ==> a < m
    requires forall a {:trigger M0[a]} :: a in A ==> M0[a] in A && M0[a] != a
    requires forall a, b {:trigger D1[a][b]} :: 0 <= a < m && 0 <= b < m ==>
               if a in A - {c2} && b in A - {c2} && a != b then D1[a][b].Fin? else D1[a][b] == PosInf
    ensures forall a {:trigger M1[a]} :: a in A - {c2} ==> M1[a] in A - {c2} && M1[a] != a
  {
    forall x | x in A - {c2} ensures M1[x] in A - {c2} && M1[x] != x {
      if x == c1 {
        var k := OtherMember(A - {c2}, c1);
        assert D1[c1][k].Fin?;
        assert D1[c1][M1[c1]].Le(D1[c1][k]);
      } else {
        assert M0[x] in A;
      }
    }
  }

  /** After the merge, the sizes still count the leaves and the live trees
      still hold every sample once. */
  lemma MergeKeepsTrees(S0: seq<nat>, S1: seq<nat>, C0: seq<Tree>, C1: seq<Tree>, A: set<nat>, m: nat,
                        c1: nat, c2: nat, node: Tree)
    requires LiveTrees(S0, C0, A, m) && c1 in A && c2 in A && c1 != c2
    requires Absorbed(S0, S1, C0, C1, c1, c2, node)
    ensures LiveTrees(S1, C1, A - {c2}, m)
  {
    GatheredMerge(C0, A, m, c1, c2);
    var G1, G0, L := Gathered(C1, A - {c2}, m), Gathered(C0, A, m), Leaves(C0[c2]);
    assert G1 + L == G0 + L;
    assert forall x :: G1[x] == (G1 + L)[x] - L[x] == (G0 + L)[x] - L[x] == G0[x];
    assert G1 == G0;
    forall a | a in A - {c2} ensures S1[a] == |Leaves(C1[a])| {
      if a == c1 {
        assert S0[c2] == |Leaves(C0[c2])|;
      }
    }
  }

  /** One merge keeps the loop invariant and retires c2. */
  lemma MergeKeepsLive(D0: seq<seq<Ext>>, D1: seq<seq<Ext>>, M0: seq<nat>, M1: seq<nat>, S0: seq<nat>, S1: seq<nat>,
                       C0: seq<Tree>, C1: seq<Tree>, A: set<nat>, m: nat, linkage: Linkage, r: Merged)
    requires Live(D0, M0, S0, C0, A, m) && |A| >= 2
    requires ClosestPair(D0, M0, r.c1, r.c2, m)
    requires Absorbed(S0, S1, C0, C1, r.c1, r.c2, r.node)
    requires r.c1 != r.c2 ==> MergedDistances(D0, D1, S1, r.c1, r.c2, linkage, m)
    requires MinsRecalculated(D1, M0, M1, r.c1, r.c2, m)
    ensures Live(D1, M1, S1, C1, A - {r.c2}, m)
    ensures |A - {r.c2}| == |A| - 1 && r.c1 in A - {r.c2}
  {
    MergedPairLive(D0, M0, S0, A, m, r.c1, r.c2);
    MergeKeepsDistances(D0, D1, M0, S0, S1, A, m, r.c1, r.c2, linkage);
    if |A| >= 3 {
      MergeKeepsClosest(D1, M0, M1, A, m, r.c1, r.c2);
    }
    MergeKeepsTrees(S0, S1, C0, C1, A, m, r.c1, r.c2, r.node);
  }

  /** One pass of the merge loop keeps the invariant and retires one
      cluster; the new node is the tree of a live cluster. */
  method Step(dists: array2<Ext>, mins: array<nat>, sizes: array<nat>, clusters: array<Tree>, linkage: Linkage,
              ghost A: set<nat>)
    returns (r: Merged)
    requires Inv(dists, mins, sizes, clusters, A) && |A| >= 2
    modifies dists, mins, sizes, clusters
    ensures Inv(dists, mins, sizes, clusters, A - {r.c2})
    ensures |A - {r.c2}| == |A| - 1 && r.c1 in A - {r.c2} && clusters[r.c1] == r.node
  {
    ghost var D0, M0, S0, C0 := Snap(dists), mins[..], sizes[..], clusters[..];
    assert MinsInRange(dists, mins);
    r := Merge(dists, mins, sizes, clusters, linkage);
    MergeKeepsLive(D0, Snap(dists), M0, mins[..], S0, sizes[..], C0, clusters[..], A, mins.Length, linkage, r);
  }

  lemma StartShape(X: seq<seq<real>>, distance: Distance, D: seq<seq<Ext>>, M: seq<nat>, S: seq<nat>, A: set<nat>)
    requires Square(D, |X|) && |M| == |X| && |S| == |X| && |A| == |X|
    requires forall i: nat :: i in A <==> i < |X|
    requires forall a, b :: 0 <= a < |X| && 0 <= b < |X| ==> D[a][b] == Initial(X, distance, a, b)
    requires forall a :: 0 <= a < |X| ==> FirstMin(InitialRow(X, distance, a), M[a])
    requires forall a :: 0 <= a < |X| ==> S[a] == 1
    ensures LiveShape(D, M, S, A, |X|)
  {
    var m := |X|;
    forall a | 0 <= a < m ensures M[a] < m {
      assert FirstMin(InitialRow(X, distance, a), M[a]);
    }
    if m >= 2 {
      forall x | x in A ensures M[x] in A && M[x] != x {
        var row := InitialRow(X, distance, x);
        assert FirstMin(row, M[x]);
        var k := OtherMember(A, x);
        assert row[k].Fin? && row[M[x]].Le(row[k]);
      }
    }
  }

  /** The set-up of the merge loop: the distance matrix and closest
      indices, sizes 1, each cluster the leaf of its own sample, all live. */
  method Start(X: seq<seq<real>>, distance: Distance)
    returns (dists: array2<Ext>, mins: array<nat>, sizes: array<nat>, clusters: array<Tree>, ghost A: set<nat>)
    ensures fresh(dists) && fresh(mins) && fresh(sizes) && fresh(clusters)
    ensures Inv(dists, mins, sizes, clusters, A) && mins.Length == |X| && |A| == |X|
  {
    var m := |X|;
    dists, mins := InitDistances(X, distance);
    sizes := new nat[m](i => 1);
    clusters := new Tree[m](i => Leaf(i));
    A := AllLive(m);
    StartShape(X, distance, Snap(dists), mins[..], sizes[..], A);
    StartTrees(sizes[..], clusters[..], A);
  }

  lemma StartTrees(S: seq<nat>, C: seq<Tree>, A: set<nat>)
    requires |S| == |C| && (forall i :: 0 <= i < |C| ==> C[i] == Leaf(i) && S[i] == 1)
    requires forall i: nat :: i in A <==> i < |C|
    ensures LiveTrees(S, C, A, |C|)
  {
    GatheredStart(C, A, |C|);
  }

  /** The slots 0 .. m - 1, all live. */
  lemma AllLive(m: nat) returns (A: set<nat>)
    ensures |A| == m && forall i: nat :: i in A <==> i < m
  {
    A := RangeSet(m);
    RangeSetSize(m);
  }

  /** nerdy.hclust: m - 1 merges of the closest pair; no tree for fewer than
      two samples, and otherwise a tree holding every sample exactly once. */
  method Cluster(X: seq<seq<real>>, distance: Distance, linkage: Linkage) returns (root: Option<Tree>)
    ensures root.None? <==> |X| <= 1
    ensures root.Some? ==> Leaves(root.value) == Samples(|X|)
    ensures root.Some? ==> forall s: nat :: Leaves(root.value)[s] == if s < |X| then 1 else 0
  {
    var m := |X|;
    var dists, mins, sizes, clusters;
    ghost var A;
    dists, mins, sizes, clusters, A := Start(X, distance);
    root := None;
    ghost var last: nat := 0;
    var p := 0;
    while p + 1 < m
      invariant 0 <= p && (m >= 1 ==> p <= m - 1)
      invariant Inv(dists, mins, sizes, clusters, A) && mins.Length == m
      invariant |A| == m - p
      invariant root.None? <==> p == 0
      invariant root.Some? ==> last in A && root.value == clusters[last]
      decreases m - p
    {
      var r := Step(dists, mins, sizes, clusters, linkage, A);
      A := A - {r.c2};
      root := Some(r.node);
      last := r.c1;
      p := p + 1;
    }
    if root.Some? {
      assert A == {last} by {
        assert |A - {last}| == 0;
      }
      GatheredSingle(clusters[..], last, m);
      SamplesOnce(m);
    }
  }

  function RangeSet(n: nat): (r: set<nat>)
    ensures forall i: nat :: i in r <==> i < n
  {
    if n == 0 then {} else RangeSet(n - 1) + {n - 1}
  }

  lemma {:induction false} RangeSetSize(n: nat)
    ensures |RangeSet(n)| == n
  {
    if n > 0 {
      var r := RangeSet(n - 1);
      RangeSetSize(n - 1);
      assert n - 1 !in r;
      assert RangeSet(n) == r + {n - 1};
    }
  }
}
