/**
  The Johnson simplex as a state machine over its point list: the record,
  its constructor and the point-set operations of the `Simplex` interface.
  The projection of the origin is in `JohnsonProjection`.
 */
module JohnsonSimplices {
  import opened Wrappers
  import opened Vectors
  import opened RecursionTemplates
  import opened TemplateTables

  /** A cell of the determinant buffer: a value, or the invalidation mark the
      projection writes into a sub-simplex determinant once a parent has
      been found positive. */
  datatype Det = Val(v: real) | Invalidated

  /** `dim` is the dimension of the vector type, a field here where the
      program fixes it by the type; `recursion` is the shared table of
      templates. */
  datatype JohnsonSimplex = JohnsonSimplex(
    dim: nat,
    recursion: seq<RecursionTemplate>,
    points: seq<Vec>,
    exchangePoints: seq<Vec>,
    determinants: seq<Det>)

  /** Every point has the dimension of the vector type. */
  ghost predicate OfDim(points: seq<Vec>, dim: nat)
  {
    forall i :: 0 <= i < |points| ==> |points[i]| == dim
  }

  /** A table with a template for every point count up to `dim + 1`, and a
      buffer of `nd` cells sized by the template of dimension `dim`. */
  ghost predicate Tables(recursion: seq<RecursionTemplate>, dim: nat, nd: nat)
  {
    && dim < |recursion| && TemplateTable(recursion, |recursion| - 1)
    && nd == recursion[dim].numDeterminants
  }

  /** The state every simplex built from a table of `RecursionTemplate::new`
      keeps: the tables, at most `dim + 1` points of dimension `dim`, and an
      empty spare list. */
  ghost predicate Valid(s: JohnsonSimplex)
  {
    && Tables(s.recursion, s.dim, |s.determinants|)
    && |s.points| <= s.dim + 1 && OfDim(s.points, s.dim)
    && s.exchangePoints == []
  }

  /** `JohnsonSimplex::new`: no points, and a zeroed buffer with as many
      cells as the template of dimension `dim` has slots; the table must have
      that template. */
  function New(dim: nat, recursion: seq<RecursionTemplate>): (r: Result<JohnsonSimplex>)
    ensures r.Failure? <==> |recursion| <= dim
    ensures r.Success? ==>
      && r.value.dim == dim && r.value.recursion == recursion
      && r.value.points == [] && r.value.exchangePoints == []
      && |r.value.determinants| == recursion[dim].numDeterminants
      && forall c :: 0 <= c < |r.value.determinants| ==> r.value.determinants[c] == Val(0.0)
  {
    if dim < |recursion| then
      Success(JohnsonSimplex(dim, recursion, [], [], seq(recursion[dim].numDeterminants, c => Val(0.0))))
    else
      Failure("no template for this dimension")
  }

  /** A simplex made over a table of templates for dimensions `0..top`, with
      `dim <= top`, satisfies the invariant. */
  lemma NewValid(dim: nat, top: nat, recursion: seq<RecursionTemplate>)
    requires TemplateTable(recursion, top) && dim <= top
    ensures New(dim, recursion).Success? && Valid(New(dim, recursion).value)
  {
  }

  /** `reset(pt)`: the point list becomes `[pt]`. */
  function Reset(s: JohnsonSimplex, pt: Vec): (r: JohnsonSimplex)
    ensures r.points == [pt]
    ensures r == s.(points := [pt])
  {
    s.(points := [pt])
  }

  /** The largest `uint`, taken as 64 bits wide. */
  const UINT_MAX: nat := 0xFFFF_FFFF_FFFF_FFFF

  /** `dimension()`: one less than the number of points; the unsigned
      subtraction wraps round on an empty simplex. */
  function Dimension(s: JohnsonSimplex): (r: nat)
    ensures |s.points| >= 1 ==> r + 1 == |s.points|
    ensures |s.points| == 0 ==> r == UINT_MAX
  {
    if |s.points| == 0 then UINT_MAX else |s.points| - 1
  }

  /** The largest of `xs`, if any. */
  function MaxOf(xs: seq<real>): (r: Option<real>)
    ensures r.None? <==> |xs| == 0
    ensures r.Some? ==> (exists i :: 0 <= i < |xs| && xs[i] == r.value)
    ensures r.Some? ==> forall i :: 0 <= i < |xs| ==> xs[i] <= r.value
  {
    if |xs| == 0 then None
    else
      match MaxOf(xs[..|xs| - 1])
      case None => Some(xs[0])
      case Some(m) =>
        assert forall i :: 0 <= i < |xs| - 1 ==> xs[..|xs| - 1][i] == xs[i];
        if xs[|xs| - 1] >= m then Some(xs[|xs| - 1]) else Some(m)
  }

  /** `max_sq_len()`: the largest squared length of a point; the maximum
      is unwrapped, so an empty simplex fails. */
  function MaxSqLen(s: JohnsonSimplex): (r: Result<real>)
    ensures r.Failure? <==> |s.points| == 0
    ensures r.Success? ==> exists i :: 0 <= i < |s.points| && SqNorm(s.points[i]) == r.value
    ensures r.Success? ==> forall i :: 0 <= i < |s.points| ==> SqNorm(s.points[i]) <= r.value
  {
    var lens := seq(|s.points|, i requires 0 <= i < |s.points| => SqNorm(s.points[i]));
    assert forall i :: 0 <= i < |s.points| ==> lens[i] == SqNorm(s.points[i]);
    match MaxOf(lens)
    case None => Failure("no points")
    case Some(m) => Success(m)
  }

  /** `contains_point(pt)`: some point equals `pt`. */
  function ContainsPoint(s: JohnsonSimplex, pt: Vec): (r: bool)
    ensures r <==> pt in s.points
  {
    AnyEqual(s.points, pt)
  }

  /** Some member of `ps` equals `pt`, scanned from the front. */
  function AnyEqual(ps: seq<Vec>, pt: Vec): (r: bool)
    ensures r <==> exists i :: 0 <= i < |ps| && ps[i] == pt
  {
    if |ps| == 0 then false
    else
      assert forall i :: 1 <= i < |ps| ==> ps[i] == ps[1..][i - 1];
      ps[0] == pt || AnyEqual(ps[1..], pt)
  }

  /** `add_point(pt)`: appends `pt`, and fails when that leaves more than
      `dim + 1` points. */
  function AddPoint(s: JohnsonSimplex, pt: Vec): (r: Result<JohnsonSimplex>)
    ensures r.Failure? <==> |s.points| + 1 > s.dim + 1
    ensures r.Success? ==> r.value == s.(points := s.points + [pt])
  {
    var points := s.points + [pt];
    if |points| <= s.dim + 1 then Success(s.(points := points))
    else Failure("more points than the dimension allows")
  }

  /** `translate_by(v)`: every point moved by `v`. */
  function TranslateBy(s: JohnsonSimplex, v: Vec): (r: JohnsonSimplex)
    requires OfDim(s.points, s.dim) && |v| == s.dim
    ensures |r.points| == |s.points| && OfDim(r.points, s.dim)
    ensures forall i :: 0 <= i < |s.points| ==> r.points[i] == Add(s.points[i], v)
    ensures r == s.(points := r.points)
  {
    s.(points := seq(|s.points|, i requires 0 <= i < |s.points| => Add(s.points[i], v)))
  }

  /* ---------------------------------------------------------------------- */
  /* Properties of the point-set operations.                                  */
  /* ---------------------------------------------------------------------- */

  /** Every operation keeps the invariant. */
  lemma OperationsKeepValid(s: JohnsonSimplex, pt: Vec, v: Vec)
    requires Valid(s) && |pt| == s.dim && |v| == s.dim
    ensures Valid(Reset(s, pt))
    ensures AddPoint(s, pt).Success? ==> Valid(AddPoint(s, pt).value)
    ensures Valid(TranslateBy(s, v))
  {
  }

  /** After `reset(pt)` the simplex has dimension 0 and holds exactly `pt`;
      adding a point not yet held raises the dimension by one and makes it
      held. */
  lemma ResetThenAdd(s: JohnsonSimplex, pt: Vec, q: Vec)
    requires s.dim >= 1
    ensures Dimension(Reset(s, pt)) == 0
    ensures ContainsPoint(Reset(s, pt), q) <==> q == pt
    ensures AddPoint(Reset(s, pt), q).Success?
    ensures Dimension(AddPoint(Reset(s, pt), q).value) == 1
    ensures ContainsPoint(AddPoint(Reset(s, pt), q).value, q)
  {
    assert AddPoint(Reset(s, pt), q).value.points == [pt, q];
  }

  /** Translating by `v` and then by `-v` restores every point, and a point
      is held after translating exactly when it was held, moved. */
  lemma {:induction false} TranslateInverse(s: JohnsonSimplex, v: Vec, pt: Vec)
    requires OfDim(s.points, s.dim) && |v| == s.dim && |pt| == s.dim
    ensures TranslateBy(TranslateBy(s, v), Neg(v)) == s
    ensures ContainsPoint(TranslateBy(s, v), Add(pt, v)) <==> ContainsPoint(s, pt)
  {
    var t := TranslateBy(s, v);
    var u := TranslateBy(t, Neg(v));
    forall i | 0 <= i < |s.points|
      ensures u.points[i] == s.points[i]
    {
      assert u.points[i] == Add(Add(s.points[i], v), Neg(v));
    }
    assert u.points == s.points;
    if ContainsPoint(t, Add(pt, v)) {
      var i :| 0 <= i < |t.points| && t.points[i] == Add(pt, v);
      assert s.points[i] == pt by {
        forall c | 0 <= c < s.dim
          ensures s.points[i][c] == pt[c]
        {
          assert Add(s.points[i], v)[c] == Add(pt, v)[c];
        }
      }
    }
    if ContainsPoint(s, pt) {
      var i :| 0 <= i < |s.points| && s.points[i] == pt;
      assert t.points[i] == Add(pt, v);
    }
  }

  /** The largest squared length bounds that of every held point, and after
      adding a point it is at least that point's. */
  lemma MaxSqLenAfterAdd(s: JohnsonSimplex, pt: Vec)
    requires AddPoint(s, pt).Success?
    ensures MaxSqLen(AddPoint(s, pt).value).Success?
    ensures SqNorm(pt) <= MaxSqLen(AddPoint(s, pt).value).value
    ensures MaxSqLen(s).Success? ==> MaxSqLen(s).value <= MaxSqLen(AddPoint(s, pt).value).value
  {
    var t := AddPoint(s, pt).value;
    assert t.points[|s.points|] == pt;
    if MaxSqLen(s).Success? {
      var i :| 0 <= i < |s.points| && SqNorm(s.points[i]) == MaxSqLen(s).value;
      assert t.points[i] == s.points[i];
    }
  }
}
