/**
  Vectors of a fixed dimension with exact real coordinates, and the few
  operations the simplex needs: sums, scaling, dot products.
 */
module Vectors {

  type Vec = seq<real>

  /** The zero vector of dimension `d`. */
  function Zero(d: nat): (r: Vec)
    ensures |r| == d && forall i :: 0 <= i < d ==> r[i] == 0.0
  {
    seq(d, i => 0.0)
  }

  function Add(a: Vec, b: Vec): (r: Vec)
    requires |a| == |b|
    ensures |r| == |a| && forall i :: 0 <= i < |a| ==> r[i] == a[i] + b[i]
  {
    seq(|a|, i requires 0 <= i < |a| => a[i] + b[i])
  }

  function Sub(a: Vec, b: Vec): (r: Vec)
    requires |a| == |b|
    ensures |r| == |a| && forall i :: 0 <= i < |a| ==> r[i] == a[i] - b[i]
  {
    seq(|a|, i requires 0 <= i < |a| => a[i] - b[i])
  }

  function Neg(a: Vec): (r: Vec)
    ensures |r| == |a| && forall i :: 0 <= i < |a| ==> r[i] == -a[i]
  {
    seq(|a|, i requires 0 <= i < |a| => -a[i])
  }

  function Scale(a: Vec, c: real): (r: Vec)
    ensures |r| == |a| && forall i :: 0 <= i < |a| ==> r[i] == a[i] * c
  {
    seq(|a|, i requires 0 <= i < |a| => a[i] * c)
  }

  /** Every coordinate divided by `c`. */
  function Div(a: Vec, c: real): (r: Vec)
    requires c != 0.0
    ensures |r| == |a| && forall i :: 0 <= i < |a| ==> r[i] == a[i] / c
  {
    seq(|a|, i requires 0 <= i < |a| => a[i] / c)
  }

  /** Sum of the coordinate products. */
  function Dot(a: Vec, b: Vec): real
    requires |a| == |b|
  {
    if |a| == 0 then 0.0 else Dot(a[..|a| - 1], b[..|b| - 1]) + a[|a| - 1] * b[|b| - 1]
  }

  /** `(a - b) . c`. */
  function SubDot(a: Vec, b: Vec, c: Vec): real
    requires |a| == |b| == |c|
  {
    Dot(Sub(a, b), c)
  }

  /** The squared length. */
  function SqNorm(a: Vec): (r: real)
    ensures r >= 0.0
  {
    SqNormNonNegative(a);
    Dot(a, a)
  }

  lemma {:induction false} SqNormNonNegative(a: Vec)
    ensures Dot(a, a) >= 0.0
    decreases |a|
  {
    if |a| > 0 {
      SqNormNonNegative(a[..|a| - 1]);
    }
  }

  /* ---------------------------------------------------------------------- */
  /* Weighted sums of points.                                                 */
  /* ---------------------------------------------------------------------- */

  /** The sum of `ws`, from the front. */
  function Total(ws: seq<real>): real
  {
    if |ws| == 0 then 0.0 else Total(ws[..|ws| - 1]) + ws[|ws| - 1]
  }

  /** The points `ids` names, in that order. */
  function Pick(points: seq<Vec>, ids: seq<nat>): (r: seq<Vec>)
    requires forall i :: 0 <= i < |ids| ==> ids[i] < |points|
    ensures |r| == |ids| && forall i :: 0 <= i < |ids| ==> r[i] == points[ids[i]]
  {
    seq(|ids|, i requires 0 <= i < |ids| => points[ids[i]])
  }

  /** The picked points are points of the list. */
  lemma PickMembers(points: seq<Vec>, ids: seq<nat>)
    requires forall i :: 0 <= i < |ids| ==> ids[i] < |points|
    ensures forall p :: p in Pick(points, ids) ==> p in points
  {
    forall p | p in Pick(points, ids)
      ensures p in points
    {
      var i :| 0 <= i < |ids| && Pick(points, ids)[i] == p;
      assert points[ids[i]] == p;
    }
  }

  /** `Σ points[ids[i]] * ws[i]`, from the front, starting at zero. */
  function Combination(points: seq<Vec>, ids: seq<nat>, ws: seq<real>, d: nat): (r: Vec)
    requires |ids| == |ws|
    requires forall i :: 0 <= i < |ids| ==> ids[i] < |points| && |points[ids[i]]| == d
    ensures |r| == d
  {
    if |ids| == 0 then Zero(d)
    else
      var n := |ids|;
      Add(Combination(points, ids[..n - 1], ws[..n - 1], d), Scale(points[ids[n - 1]], ws[n - 1]))
  }

  /** `lambdas` are positive weights adding up to one on points `ids`. */
  ghost predicate IsConvex(points: seq<Vec>, ids: seq<nat>, lambdas: seq<real>, d: nat)
  {
    && |ids| == |lambdas| >= 1
    && (forall i :: 0 <= i < |ids| ==> ids[i] < |points| && |points[ids[i]]| == d)
    && (forall i :: 0 <= i < |lambdas| ==> lambdas[i] > 0.0)
    && Total(lambdas) == 1.0
  }

  /** Every weight multiplied by `c`. */
  function ScaleAll(ws: seq<real>, c: real): (r: seq<real>)
    ensures |r| == |ws| && forall i :: 0 <= i < |ws| ==> r[i] == ws[i] * c
  {
    seq(|ws|, i requires 0 <= i < |ws| => ws[i] * c)
  }

  /** The weights divided by their sum. */
  function Normalize(ws: seq<real>): (r: seq<real>)
    requires Total(ws) != 0.0
    ensures |r| == |ws|
  {
    ScaleAll(ws, 1.0 / Total(ws))
  }

  lemma ScaleAllPrefix(ws: seq<real>, c: real)
    requires |ws| >= 1
    ensures ScaleAll(ws, c)[..|ws| - 1] == ScaleAll(ws[..|ws| - 1], c)
  {
    var n := |ws|;
    var l, r := ScaleAll(ws, c)[..n - 1], ScaleAll(ws[..n - 1], c);
    forall i | 0 <= i < n - 1
      ensures l[i] == r[i]
    {
      assert ws[..n - 1][i] == ws[i];
    }
  }

  lemma {:induction false} TotalScale(ws: seq<real>, c: real)
    ensures Total(ScaleAll(ws, c)) == Total(ws) * c
    decreases |ws|
  {
    if |ws| > 0 {
      var n := |ws|;
      ScaleAllPrefix(ws, c);
      TotalScale(ws[..n - 1], c);
    }
  }

  /** Positive weights have a positive sum. */
  lemma {:induction false} TotalPositive(ws: seq<real>)
    requires |ws| >= 1 && forall i :: 0 <= i < |ws| ==> ws[i] > 0.0
    ensures Total(ws) > 0.0
    decreases |ws|
  {
    if |ws| > 1 {
      TotalPositive(ws[..|ws| - 1]);
    }
  }

  /** Scaling every weight scales the combination. */
  lemma {:induction false} CombinationScale(points: seq<Vec>, ids: seq<nat>, ws: seq<real>, d: nat, c: real)
    requires |ids| == |ws|
    requires forall i :: 0 <= i < |ids| ==> ids[i] < |points| && |points[ids[i]]| == d
    ensures Combination(points, ids, ScaleAll(ws, c), d) == Scale(Combination(points, ids, ws, d), c)
    decreases |ids|
  {
    if |ids| > 0 {
      var n := |ids|;
      ScaleAllPrefix(ws, c);
      CombinationScale(points, ids[..n - 1], ws[..n - 1], d, c);
      var a := Combination(points, ids[..n - 1], ws[..n - 1], d);
      var p := points[ids[n - 1]];
      var w := ws[n - 1];
      ScaleAdd(a, p, w, c);
      assert ScaleAll(ws, c)[n - 1] == w * c;
      assert Combination(points, ids, ScaleAll(ws, c), d)
          == Add(Combination(points, ids[..n - 1], ScaleAll(ws, c)[..n - 1], d), Scale(p, w * c));
    }
  }

  /** Scaling distributes over one more term of a combination. */
  lemma ScaleAdd(a: Vec, p: Vec, w: real, c: real)
    requires |a| == |p|
    ensures Add(Scale(a, c), Scale(p, w * c)) == Scale(Add(a, Scale(p, w)), c)
  {
    forall j | 0 <= j < |a|
      ensures Add(Scale(a, c), Scale(p, w * c))[j] == Scale(Add(a, Scale(p, w)), c)[j]
    {
      Distribute(a[j], p[j], w, c);
    }
  }

  lemma Distribute(x: real, y: real, w: real, c: real)
    ensures x * c + y * (w * c) == (x + y * w) * c
  {
  }

  /** Positive weights, divided by their sum, are positive and add up to one:
      the combination they give is a convex combination, and it is the
      combination of the raw weights divided by their sum. */
  lemma Convex(points: seq<Vec>, ids: seq<nat>, ws: seq<real>, d: nat)
    requires |ids| == |ws| >= 1
    requires forall i :: 0 <= i < |ids| ==> ids[i] < |points| && |points[ids[i]]| == d
    requires forall i :: 0 <= i < |ws| ==> ws[i] > 0.0
    ensures Total(ws) > 0.0
    ensures forall i :: 0 <= i < |ws| ==> Normalize(ws)[i] > 0.0
    ensures Total(Normalize(ws)) == 1.0
    ensures Div(Combination(points, ids, ws, d), Total(ws)) == Combination(points, ids, Normalize(ws), d)
  {
    TotalPositive(ws);
    var t := Total(ws);
    var c := 1.0 / t;
    Reciprocal(t);
    TotalScale(ws, c);
    forall i | 0 <= i < |ws|
      ensures Normalize(ws)[i] > 0.0
    {
      ProductPositive(ws[i], c);
    }
    CombinationScale(points, ids, ws, d, c);
    var v := Combination(points, ids, ws, d);
    forall j | 0 <= j < d
      ensures Div(v, t)[j] == Scale(v, c)[j]
    {
      DivByProduct(v[j], t);
    }
  }

  /** The reciprocal of a positive number is positive and cancels it. */
  lemma Reciprocal(t: real)
    requires t > 0.0
    ensures 1.0 / t > 0.0 && t * (1.0 / t) == 1.0
  {
  }

  lemma ProductPositive(a: real, b: real)
    requires a > 0.0 && b > 0.0
    ensures a * b > 0.0
  {
  }

  lemma DivByProduct(x: real, t: real)
    requires t != 0.0
    ensures x / t == x * (1.0 / t)
  {
  }
}
