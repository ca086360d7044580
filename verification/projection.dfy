/**
  `do_project_origin`: the projection of the origin on a simplex by the
  Johnson sub-algorithm, driven by the recursion template for the current
  number of points.

  A first pass walks the template front to back and fills the determinant
  buffer, one block at a time, each block from the determinants of its
  children.  A second pass walks it back to front, one group of blocks (one
  sub-simplex, one block per vertex) at a time, and stops at the first group
  whose determinants are all strictly positive and none of them marked
  invalid; marking the first child of every positive block on the way.  The
  result is the barycentre of that group's vertices weighted by their
  determinants, or zero when no group qualifies.
 */
module JohnsonProjection {
  import opened Sequences
  import opened Wrappers
  import opened Vectors
  import opened RecursionTemplates
  import opened TemplateTables
  import opened JohnsonSimplices

  /* ---------------------------------------------------------------------- */
  /* Determinant cells.                                                       */
  /* ---------------------------------------------------------------------- */

  /** The largest double, the value the invalidation mark stands for. */
  const MaxValue: real := 179769313486231570814527423731704356798070567525844996598917476803157260780028538760589558632766878171540458953514382464234321326889464182768467546703537516986049910576551282076245490090389328944075868508455133942304583236903222948165808559332123348274797826204144723168738177180919299881250404026184124858368.0

  /** The number a cell holds. */
  function Num(d: Det): real
  {
    match d
    case Val(v) => v
    case Invalidated => MaxValue
  }

  /** The cell compares greater than zero, as `det > 0` does on the number
      it holds; the mark, standing for the largest double, does. */
  predicate ComparesPositive(d: Det)
  {
    d.Invalidated? || d.v > 0.0
  }

  /** The cell holds a strictly positive determinant and not the mark: what
      every block of the selected group must hold. */
  predicate Qualified(d: Det)
  {
    d.Val? && d.v > 0.0
  }

  /** `d'` is `d` with some cells that compare greater than zero replaced by
      the mark; the search does nothing else to the buffer. */
  ghost predicate MarksOnly(d: seq<Det>, d': seq<Det>)
  {
    && |d'| == |d|
    && forall x :: 0 <= x < |d| ==> d'[x] == d[x] || (ComparesPositive(d[x]) && d'[x] == Invalidated)
  }

  lemma MarksOnlyTrans(d1: seq<Det>, d2: seq<Det>, d3: seq<Det>)
    requires MarksOnly(d1, d2) && MarksOnly(d2, d3)
    ensures MarksOnly(d1, d3)
  {
  }

  /* ---------------------------------------------------------------------- */
  /* What the passes need of a template.                                      */
  /* ---------------------------------------------------------------------- */

  /** Every point index names one of `n` points and every determinant index
      one of `nd` cells. */
  ghost predicate Indexable(t: RecursionTemplate, n: nat, nd: nat)
  {
    && |t.permutationList| == |t.subDeterminants|
    && (forall p :: 0 <= p < |t.permutationList| ==> t.permutationList[p] < n)
    && SlotsIn(t, nd)
  }

  /** Every determinant index names one of `nd` cells. */
  ghost predicate SlotsIn(t: RecursionTemplate, nd: nat)
  {
    forall p :: 0 <= p < |t.subDeterminants| ==> t.subDeterminants[p] < nd
  }

  /** The regions of a template for `n` points: region `m` holds groups of
      `m + 1` blocks of `m + 1` entries each. */
  ghost predicate Regions(t: RecursionTemplate, n: nat)
  {
    && n >= 1 && |t.offsets| == n + 1 && t.offsets[0] == 0 && t.offsets[1] == n
    && t.offsets[n] == |t.permutationList|
    && (forall m :: 0 <= m <= n ==> t.offsets[m] <= t.offsets[n])
    && forall m :: 0 <= m < n ==>
         t.offsets[m] <= t.offsets[m + 1] && Tiles(t.offsets[m + 1] - t.offsets[m], Square(m + 1))
  }

  function Square(c: nat): (r: nat)
    ensures c > 0 ==> r >= c
  {
    if c > 0 then MulLe(1, c, c); c * c else 0
  }

  lemma SquareMultiple(x: nat, b: int, c: nat)
    requires c > 0 && x == b * c && b % c == 0
    ensures x % Square(c) == 0
  {
    var q: nat := b / c;
    assert b == q * c;
    assert x == q * Square(c);
    MulDiv(q, Square(c));
  }

  lemma SquareStep(x: nat, c: nat)
    requires c > 0 && x % Square(c) == 0
    ensures x % c == 0
  {
    var q := x / Square(c);
    assert x == (q * c) * c;
    MulDiv(q * c, c);
  }

  /** A well-formed template for `k + 1` points, with a buffer that covers
      its slots, can be walked by both passes. */
  lemma Evaluable(t: RecursionTemplate, k: nat, nd: nat)
    requires WellFormed(t, k) && t.numDeterminants <= nd
    ensures Indexable(t, k + 1, nd) && Regions(t, k + 1)
  {
    TemplateRegions(t, k);
  }

  lemma TemplateRegions(t: RecursionTemplate, k: nat)
    requires WellFormed(t, k)
    ensures Regions(t, k + 1)
  {
    forall m | 0 <= m < k + 1
      ensures Tiles(t.offsets[m + 1] - t.offsets[m], Square(m + 1))
    {
      RegionSquares(t, k, m);
      RegionTiles(t, m);
    }
    OffsetsBelowTop(t.offsets, k + 1);
  }

  lemma OffsetsBelowTop(offsets: seq<nat>, n: nat)
    requires |offsets| == n + 1
    requires forall j :: 0 <= j < n ==> offsets[j] <= offsets[j + 1]
    ensures forall m :: 0 <= m <= n ==> offsets[m] <= offsets[n]
  {
    forall m | 0 <= m <= n
      ensures offsets[m] <= offsets[n]
    {
      OffsetsUpTo(offsets, n, m);
    }
  }

  lemma RegionGroups(t: RecursionTemplate, k: nat, m: nat)
    requires m <= k && |t.offsets| == k + 2 && t.offsets[m] <= t.offsets[m + 1]
    requires BlockCount(t, m) * (m + 1) == t.offsets[m + 1] - t.offsets[m] && BlockCount(t, m) % (m + 1) == 0
    ensures (t.offsets[m + 1] - t.offsets[m]) % Square(m + 1) == 0
  {
    SquareMultiple(t.offsets[m + 1] - t.offsets[m], BlockCount(t, m), m + 1);
  }

  lemma {:induction false} OffsetsUpTo(offsets: seq<nat>, n: nat, m: nat)
    requires |offsets| == n + 1 && m <= n
    requires forall j :: 0 <= j < n ==> offsets[j] <= offsets[j + 1]
    ensures offsets[m] <= offsets[n]
    decreases n - m
  {
    if m < n {
      OffsetsUpTo(offsets, n, m + 1);
    }
  }

  /** `c` divides `a * c <= b * c`. */
  lemma MulLeInv(a: nat, b: nat, c: nat)
    requires c > 0 && a * c <= b * c
    ensures a <= b
  {
    if a > b {
      MulLe(b + 1, a, c);
      assert false;
    }
  }

  /** The difference of two multiples of `s` is one. */
  lemma ModDiff(a: nat, b: nat, s: nat)
    requires s > 0 && b <= a && a % s == 0 && b % s == 0
    ensures (a - b) % s == 0
  {
    var qa := a / s;
    var qb := b / s;
    assert a == qa * s && b == qb * s;
    MulLeInv(qb, qa, s);
    assert a - b == (qa - qb) * s;
    MulDiv(qa - qb, s);
  }

  /** One step of `s` up from a multiple of `s` is one. */
  lemma StepUp(x: nat, s: nat)
    requires s > 0 && x % s == 0
    ensures (x + s) % s == 0
  {
    var q := x / s;
    assert x + s == (q + 1) * s;
    MulDiv(q + 1, s);
  }

  /** `x` is a positive multiple of `s`: one step of `s` leaves a multiple. */
  lemma StepDown(x: nat, s: nat)
    requires s > 0 && x > 0 && x % s == 0
    ensures s <= x && (x - s) % s == 0
  {
    var q := x / s;
    assert x == q * s;
    if q == 0 {
      assert false;
    }
    MulLe(1, q, s);
    assert x - s == (q - 1) * s;
    MulDiv(q - 1, s);
  }

  /** `x` is a whole number of steps of `s`: the divisibility the walks
      over a region need, stated without division. */
  predicate Tiles(x: nat, s: nat)
    decreases x
  {
    x == 0 || (0 < s <= x && Tiles(x - s, s))
  }

  lemma {:induction false} TilesMod(x: nat, s: nat)
    requires s > 0
    ensures Tiles(x, s) <==> x % s == 0
    decreases x
  {
    if x >= s {
      TilesMod(x - s, s);
      if x % s == 0 {
        StepDown(x, s);
      }
      if (x - s) % s == 0 {
        StepUp(x - s, s);
      }
    }
  }

  /** A whole number of squares of `c` is a whole number of steps of `c`. */
  lemma TilesSquare(x: nat, c: nat)
    requires c > 0 && Tiles(x, Square(c))
    ensures Tiles(x, c)
  {
    TilesMod(x, Square(c));
    SquareStep(x, c);
    TilesMod(x, c);
  }

  /* ---------------------------------------------------------------------- */
  /* First pass: the determinants.                                            */
  /* ---------------------------------------------------------------------- */

  /** `Σ det[D[i]] * ((kpt - jpt) . points[P[i]])` over `i` in `lo..hi`,
      summed from the front. */
  function Terms(t: RecursionTemplate, points: seq<Vec>, dets: seq<Det>, kpt: Vec, jpt: Vec,
                 lo: nat, hi: nat): real
    requires Indexable(t, |points|, |dets|) && OfDim(points, |kpt|) && |jpt| == |kpt|
    requires lo <= hi <= |t.permutationList|
    decreases hi - lo
  {
    if lo == hi then 0.0
    else
      Terms(t, points, dets, kpt, jpt, lo, hi - 1)
        + Num(dets[t.subDeterminants[hi - 1]]) * SubDot(kpt, jpt, points[t.permutationList[hi - 1]])
  }

  /** The determinant of the block at `curr` with `cnp` children: its first
      entry names the vertex `j` removed last, its second the vertex `k` the
      differences are taken against. */
  function BlockDet(t: RecursionTemplate, points: seq<Vec>, dets: seq<Det>, dim: nat, curr: nat, cnp: nat): real
    requires Indexable(t, |points|, |dets|) && OfDim(points, dim)
    requires cnp >= 1 && curr + cnp + 1 <= |t.permutationList|
  {
    var kpt := points[t.permutationList[curr + 1]];
    var jpt := points[t.permutationList[curr]];
    Terms(t, points, dets, kpt, jpt, curr + 1, curr + 1 + cnp)
  }

  /** `p` starts one of the blocks of `w` entries laid end to end from `lo`
      up to `hi`. */
  ghost predicate BlockIn(p: nat, lo: nat, hi: nat, w: nat)
  {
    lo <= p < hi && Tiles(p - lo, w)
  }

  /** The walk over the blocks of `w` entries from `lo` to `hi` stores a
      determinant in cell `x`: the first entry of one of them names `x`. */
  ghost predicate Writes(t: RecursionTemplate, lo: nat, hi: nat, w: nat, x: nat)
  {
    exists p: nat :: BlockIn(p, lo, hi, w) && p < |t.subDeterminants| && t.subDeterminants[p] == x
  }

  /** Past the first block, the blocks left are those after it. */
  lemma WritesStep(t: RecursionTemplate, lo: nat, hi: nat, w: nat)
    requires w > 0 && lo + w <= hi && lo < |t.subDeterminants|
    ensures forall x :: Writes(t, lo, hi, w, x) <==> t.subDeterminants[lo] == x || Writes(t, lo + w, hi, w, x)
  {
    forall x
      ensures Writes(t, lo, hi, w, x) <==> t.subDeterminants[lo] == x || Writes(t, lo + w, hi, w, x)
    {
      if Writes(t, lo, hi, w, x) && t.subDeterminants[lo] != x {
        var p: nat :| BlockIn(p, lo, hi, w) && p < |t.subDeterminants| && t.subDeterminants[p] == x;
        assert p - lo - w == p - (lo + w);
        assert BlockIn(p, lo + w, hi, w);
      }
      if Writes(t, lo + w, hi, w, x) {
        var p: nat :| BlockIn(p, lo + w, hi, w) && p < |t.subDeterminants| && t.subDeterminants[p] == x;
        assert p - lo - w == p - (lo + w);
        assert BlockIn(p, lo, hi, w);
      }
      assert BlockIn(lo, lo, hi, w);
    }
  }

  /** The blocks of `cnp + 1` entries from `curr` to `end`, each determinant
      stored in the slot its first entry names: those slots end up holding
      values, and every other cell is kept. */
  function ComputeRegion(t: RecursionTemplate, points: seq<Vec>, dets: seq<Det>, dim: nat,
                         cnp: nat, curr: nat, end: nat): (r: seq<Det>)
    requires Indexable(t, |points|, |dets|) && OfDim(points, dim)
    requires cnp >= 1 && curr <= end <= |t.permutationList| && Tiles(end - curr, cnp + 1)
    ensures |r| == |dets|
    ensures forall x :: 0 <= x < |dets| && !Writes(t, curr, end, cnp + 1, x) ==> r[x] == dets[x]
    ensures forall x :: 0 <= x < |dets| && Writes(t, curr, end, cnp + 1, x) ==> r[x].Val?
    decreases end - curr
  {
    if curr == end then dets
    else
      var det := BlockDet(t, points, dets, dim, curr, cnp);
      var r := ComputeRegion(t, points, dets[t.subDeterminants[curr] := Val(det)], dim, cnp, curr + cnp + 1, end);
      WritesStep(t, curr, end, cnp + 1);
      r
  }

  /** The first pass over region `m` stores a determinant in cell `x`. */
  ghost predicate RegionWrites(t: RecursionTemplate, m: nat, x: nat)
  {
    m + 1 < |t.offsets| && t.offsets[m] <= t.offsets[m + 1]
    && Writes(t, t.offsets[m], t.offsets[m + 1], m + 1, x)
  }

  /** The regions `j - 1 .. n - 1` ending at `offsets[j..]`, one more child
      per block from one region to the next; the final place and block size
      are returned with the buffer.  Every cell a region stores into ends up
      holding a value, and every cell no region stores into is kept. */
  function ComputeRegions(t: RecursionTemplate, points: seq<Vec>, dets: seq<Det>, dim: nat,
                          j: nat, cnp: nat, curr: nat): (r: (seq<Det>, nat, nat))
    requires Indexable(t, |points|, |dets|) && OfDim(points, dim) && Regions(t, |points|)
    requires 2 <= j <= |points| + 1 && cnp + 1 == j && curr == t.offsets[j - 1]
    ensures |r.0| == |dets| && r.1 == t.offsets[|points|] && r.2 == |points|
    ensures forall x :: 0 <= x < |dets| && (forall m :: j - 1 <= m < |points| ==> !RegionWrites(t, m, x)) ==>
      r.0[x] == dets[x]
    ensures forall m, x :: j - 1 <= m < |points| && 0 <= x < |dets| && RegionWrites(t, m, x) ==> r.0[x].Val?
    decreases |points| + 1 - j
  {
    if j == |points| + 1 then (dets, curr, cnp)
    else
      var end := t.offsets[j];
      TilesSquare(end - curr, cnp + 1);
      var dets' := ComputeRegion(t, points, dets, dim, cnp, curr, end);
      var r := ComputeRegions(t, points, dets', dim, j + 1, cnp + 1, end);
      RegionsStep(t, dets, dets', r.0, j - 1, |points|, curr, end, cnp + 1);
      r
  }

  /** Region `k` followed by the regions after it, up to `n - 1`: a cell
      stored into by one of them ends up holding a value, and any other
      cell is kept. */
  lemma RegionsStep(t: RecursionTemplate, d: seq<Det>, d': seq<Det>, r: seq<Det>, k: nat, n: nat,
                    lo: nat, hi: nat, w: nat)
    requires k < n && n < |t.offsets| && w == k + 1 && lo == t.offsets[k] && hi == t.offsets[k + 1] && lo <= hi
    requires |d'| == |d| && |r| == |d|
    requires forall x :: 0 <= x < |d| && !Writes(t, lo, hi, w, x) ==> d'[x] == d[x]
    requires forall x :: 0 <= x < |d| && Writes(t, lo, hi, w, x) ==> d'[x].Val?
    requires forall x :: 0 <= x < |d| && (forall m :: k + 1 <= m < n ==> !RegionWrites(t, m, x)) ==> r[x] == d'[x]
    requires forall m, x :: k + 1 <= m < n && 0 <= x < |d| && RegionWrites(t, m, x) ==> r[x].Val?
    ensures forall x :: 0 <= x < |d| && (forall m :: k <= m < n ==> !RegionWrites(t, m, x)) ==> r[x] == d[x]
    ensures forall m, x :: k <= m < n && 0 <= x < |d| && RegionWrites(t, m, x) ==> r[x].Val?
  {
    forall x | 0 <= x < |d|
      ensures RegionWrites(t, k, x) == Writes(t, lo, hi, w, x)
    {
    }
  }

  /* ---------------------------------------------------------------------- */
  /* Second pass: the search.                                                 */
  /* ---------------------------------------------------------------------- */

  /** The place of block `i` of the group that ends at `curr`, counted from
      the back. */
  function DetId(curr: nat, cnp: nat, i: nat): (r: nat)
    requires i < cnp && Square(cnp) <= curr
    ensures r + cnp <= curr && r + (i + 1) * cnp == curr
  {
    MulLe(i + 1, cnp, cnp);
    MulLe(1, i + 1, cnp);
    curr - (i + 1) * cnp
  }

  /** The cell block `i` of the group ending at `curr` owns: the
      determinant of the group's sub-simplex with that block's vertex. */
  function OwnCell(t: RecursionTemplate, curr: nat, cnp: nat, i: nat): nat
    requires i < cnp && Square(cnp) <= curr <= |t.subDeterminants|
  {
    t.subDeterminants[DetId(curr, cnp, i)]
  }

  /** The cell of that block's first child, the one the search marks. */
  function FirstChild(t: RecursionTemplate, curr: nat, cnp: nat, i: nat): nat
    requires 1 < cnp && i < cnp && Square(cnp) <= curr <= |t.subDeterminants|
  {
    t.subDeterminants[DetId(curr, cnp, i) + 1]
  }

  /** The group ending at `curr` lies in the template, and no block of it
      marks a cell one of its blocks owns. */
  ghost predicate GroupApart(t: RecursionTemplate, curr: nat, cnp: nat)
  {
    && Square(cnp) <= curr <= |t.subDeterminants|
    && (cnp > 1 ==>
          forall i, i' :: 0 <= i < cnp && 0 <= i' < cnp ==>
            OwnCell(t, curr, cnp, i) != FirstChild(t, curr, cnp, i'))
  }

  /** Every block of the group ending at `curr` holds a strictly positive,
      unmarked determinant. */
  ghost predicate Qualifies(t: RecursionTemplate, dets: seq<Det>, curr: nat, cnp: nat)
  {
    && Square(cnp) <= curr <= |t.subDeterminants| && SlotsIn(t, |dets|)
    && forall i :: 0 <= i < cnp ==> Qualified(dets[OwnCell(t, curr, cnp, i)])
  }

  /** Some block of the group ending at `curr` holds a determinant that is
      not positive, or the mark. */
  ghost predicate Fails(t: RecursionTemplate, dets: seq<Det>, curr: nat, cnp: nat)
  {
    && Square(cnp) <= curr <= |t.subDeterminants| && SlotsIn(t, |dets|)
    && exists i :: 0 <= i < cnp && !Qualified(dets[OwnCell(t, curr, cnp, i)])
  }

  lemma FailsNotQualifies(t: RecursionTemplate, dets: seq<Det>, curr: nat, cnp: nat)
    requires Square(cnp) <= curr <= |t.subDeterminants| && SlotsIn(t, |dets|)
    ensures Fails(t, dets, curr, cnp) <==> !Qualifies(t, dets, curr, cnp)
  {
  }

  /** A group that fails keeps failing once cells are marked. */
  lemma FailsMarked(t: RecursionTemplate, d: seq<Det>, d': seq<Det>, curr: nat, cnp: nat)
    requires MarksOnly(d, d') && Fails(t, d, curr, cnp)
    ensures Fails(t, d', curr, cnp)
  {
    var i :| 0 <= i < cnp && !Qualified(d[OwnCell(t, curr, cnp, i)]);
    assert !Qualified(d'[OwnCell(t, curr, cnp, i)]);
  }

  /** Cell `x` is marked by the checks of blocks `i..cnp`: it compares
      greater than zero and is the first child of one of those blocks whose
      own determinant compares greater than zero. */
  ghost predicate MarkedFrom(t: RecursionTemplate, dets: seq<Det>, curr: nat, cnp: nat, i: nat, x: nat)
    requires SlotsIn(t, |dets|) && Square(cnp) <= curr <= |t.subDeterminants| && x < |dets|
  {
    && cnp > 1 && ComparesPositive(dets[x])
    && exists i' :: i <= i' < cnp && FirstChild(t, curr, cnp, i') == x
                    && ComparesPositive(dets[OwnCell(t, curr, cnp, i')])
  }

  /** The check of block `i`: the buffer it leaves, in which the first
      child is marked when both it and the block compare greater than zero. */
  function MarkChild(t: RecursionTemplate, dets: seq<Det>, curr: nat, cnp: nat, i: nat): (r: seq<Det>)
    requires SlotsIn(t, |dets|) && i < cnp && Square(cnp) <= curr <= |t.subDeterminants|
    ensures MarksOnly(dets, r)
  {
    if cnp > 1 && ComparesPositive(dets[OwnCell(t, curr, cnp, i)])
       && ComparesPositive(dets[FirstChild(t, curr, cnp, i)])
    then dets[FirstChild(t, curr, cnp, i) := Invalidated]
    else dets
  }

  /** The mark of block `i` leaves every cell the group owns alone, and
      folds into the marks of blocks `i..cnp`. */
  lemma MarkStep(t: RecursionTemplate, dets: seq<Det>, curr: nat, cnp: nat, i: nat)
    requires SlotsIn(t, |dets|) && i < cnp && GroupApart(t, curr, cnp)
    ensures var d' := MarkChild(t, dets, curr, cnp, i);
      && (forall i' :: 0 <= i' < cnp ==> d'[OwnCell(t, curr, cnp, i')] == dets[OwnCell(t, curr, cnp, i')])
      && forall x :: 0 <= x < |dets| ==>
           (if MarkedFrom(t, d', curr, cnp, i + 1, x) then Invalidated else d'[x])
           == (if MarkedFrom(t, dets, curr, cnp, i, x) then Invalidated else dets[x])
  {
    var d' := MarkChild(t, dets, curr, cnp, i);
    forall i' | 0 <= i' < cnp
      ensures d'[OwnCell(t, curr, cnp, i')] == dets[OwnCell(t, curr, cnp, i')]
    {
      if cnp > 1 {
        assert OwnCell(t, curr, cnp, i') != FirstChild(t, curr, cnp, i);
      }
    }
    forall x | 0 <= x < |dets|
      ensures (if MarkedFrom(t, d', curr, cnp, i + 1, x) then Invalidated else d'[x])
              == (if MarkedFrom(t, dets, curr, cnp, i, x) then Invalidated else dets[x])
    {
      if cnp > 1 && ComparesPositive(dets[OwnCell(t, curr, cnp, i)])
         && ComparesPositive(dets[x]) && x == FirstChild(t, curr, cnp, i) {
        assert MarkedFrom(t, dets, curr, cnp, i, x);
      } else {
        assert d'[x] == dets[x];
        if MarkedFrom(t, dets, curr, cnp, i, x) {
          var j :| i <= j < cnp && FirstChild(t, curr, cnp, j) == x
                   && ComparesPositive(dets[OwnCell(t, curr, cnp, j)]);
          assert j != i;
          assert d'[OwnCell(t, curr, cnp, j)] == dets[OwnCell(t, curr, cnp, j)];
          assert MarkedFrom(t, d', curr, cnp, i + 1, x);
        }
        if MarkedFrom(t, d', curr, cnp, i + 1, x) {
          var j :| i + 1 <= j < cnp && FirstChild(t, curr, cnp, j) == x
                   && ComparesPositive(d'[OwnCell(t, curr, cnp, j)]);
          assert d'[OwnCell(t, curr, cnp, j)] == dets[OwnCell(t, curr, cnp, j)];
          assert MarkedFrom(t, dets, curr, cnp, i, x);
        }
      }
    }
  }

  /** The checks of blocks `i..cnp` of the group ending at `curr`: a block
      whose determinant compares greater than zero marks its first child
      when that compares greater than zero too, and the group fails when
      some determinant is not positive or carries the mark.  The marks are
      exactly those of `MarkedFrom`, they never touch the group's own cells,
      and the group passes exactly when it already had and all the blocks
      checked qualify; `CheckGroupMarks` says which cells it marks. */
  function CheckGroup(t: RecursionTemplate, dets: seq<Det>, curr: nat, cnp: nat, i: nat, found: bool)
    : (r: (seq<Det>, bool))
    requires SlotsIn(t, |dets|)
    requires i <= cnp && GroupApart(t, curr, cnp)
    ensures |r.0| == |dets| && MarksOnly(dets, r.0)
    ensures forall i' :: 0 <= i' < cnp ==> r.0[OwnCell(t, curr, cnp, i')] == dets[OwnCell(t, curr, cnp, i')]
    ensures r.1 <==> found && forall i' :: i <= i' < cnp ==> Qualified(dets[OwnCell(t, curr, cnp, i')])
    decreases cnp - i
  {
    if i == cnp then (dets, found)
    else
      var det := dets[OwnCell(t, curr, cnp, i)];
      var dets' := MarkChild(t, dets, curr, cnp, i);
      MarkStep(t, dets, curr, cnp, i);
      var r := if ComparesPositive(det) then CheckGroup(t, dets', curr, cnp, i + 1, found && det != Invalidated)
               else CheckGroup(t, dets', curr, cnp, i + 1, false);
      MarksOnlyTrans(dets, dets', r.0);
      r
  }

  /** The checks of blocks `i..cnp` mark exactly the cells `MarkedFrom`
      names and leave every other cell as it was. */
  lemma {:induction false} CheckGroupMarks(t: RecursionTemplate, dets: seq<Det>, curr: nat, cnp: nat, i: nat, found: bool)
    requires SlotsIn(t, |dets|)
    requires i <= cnp && GroupApart(t, curr, cnp)
    ensures var r := CheckGroup(t, dets, curr, cnp, i, found);
      forall x :: 0 <= x < |dets| ==>
        r.0[x] == if MarkedFrom(t, dets, curr, cnp, i, x) then Invalidated else dets[x]
    decreases cnp - i
  {
    if i < cnp {
      var det := dets[OwnCell(t, curr, cnp, i)];
      var dets' := MarkChild(t, dets, curr, cnp, i);
      MarkStep(t, dets, curr, cnp, i);
      CheckGroupMarks(t, dets', curr, cnp, i + 1, found && det != Invalidated);
      CheckGroupMarks(t, dets', curr, cnp, i + 1, false);
    }
  }

  /** A group whose checks pass qualifies in the buffer they leave, and one
      whose checks fail already failed in the buffer they started from. */
  lemma GroupVerdict(t: RecursionTemplate, dets: seq<Det>, curr: nat, cnp: nat)
    requires SlotsIn(t, |dets|) && GroupApart(t, curr, cnp)
    ensures var r := CheckGroup(t, dets, curr, cnp, 0, true);
      && (r.1 ==> Qualifies(t, r.0, curr, cnp))
      && (!r.1 ==> Fails(t, dets, curr, cnp))
  {
  }

  /** `c` ends one of the groups of `cnp` blocks from `curr` down to `end`. */
  ghost predicate Scanned(c: nat, end: nat, curr: nat, cnp: nat)
  {
    1 <= cnp && end < c <= curr && Tiles(curr - c, Square(cnp))
  }

  /** Below the first group, the groups left are those after it. */
  lemma ScannedBelow(end: nat, curr: nat, next: nat, cnp: nat)
    requires cnp >= 1 && end <= next && next + Square(cnp) == curr
    ensures forall c: nat :: Scanned(c, end, next, cnp) <==> Scanned(c, end, curr, cnp) && c < curr
  {
    var s := Square(cnp);
    forall c: nat
      ensures Scanned(c, end, next, cnp) <==> Scanned(c, end, curr, cnp) && c < curr
    {
      if Scanned(c, end, next, cnp) {
        assert curr - c - s == next - c;
      }
      if Scanned(c, end, curr, cnp) && c < curr {
        assert curr - c - s == next - c;
      }
    }
  }

  /** The groups of `cnp` blocks of `cnp` entries from `curr` down to `end`,
      checked one after another until one qualifies: a group found is the
      first from the top that qualifies, every group above it fails, and
      when none is found every group fails. */
  function SearchRegion(t: RecursionTemplate, dets: seq<Det>, cnp: nat, curr: nat, end: nat)
    : (r: (seq<Det>, Search))
    requires SlotsIn(t, |dets|)
    requires cnp >= 1 && end <= curr <= |t.subDeterminants| && Tiles(curr - end, Square(cnp))
    requires forall c :: Scanned(c, end, curr, cnp) ==> GroupApart(t, c, cnp)
    ensures |r.0| == |dets| && MarksOnly(dets, r.0)
    ensures r.1.Found? ==> r.1.cnp == cnp && Scanned(r.1.curr, end, curr, cnp) && Selects(t, r.0, r.1)
    ensures forall c :: Scanned(c, end, curr, cnp) && (r.1.Found? ==> r.1.curr < c) ==> Fails(t, r.0, c, cnp)
    decreases curr - end
  {
    if curr == end then (dets, NotFound)
    else
      assert Scanned(curr, end, curr, cnp);
      GroupVerdict(t, dets, curr, cnp);
      var (dets', found) := CheckGroup(t, dets, curr, cnp, 0, true);
      if found then (dets', Found(curr, cnp))
      else
        ScannedBelow(end, curr, curr - Square(cnp), cnp);
        var r := SearchRegion(t, dets', cnp, curr - Square(cnp), end);
        MarksOnlyTrans(dets, dets', r.0);
        FailsFrom(t, dets, r.0, cnp, curr, end, r.1);
        r
  }

  /** A group that failed still fails once the groups below it have marked
      their cells, so it joins the failed groups below it. */
  lemma FailsFrom(t: RecursionTemplate, dets: seq<Det>, d': seq<Det>, cnp: nat, curr: nat, end: nat, f: Search)
    requires cnp >= 1 && end + Square(cnp) <= curr
    requires MarksOnly(dets, d') && Fails(t, dets, curr, cnp)
    requires f.Found? ==> Scanned(f.curr, end, curr - Square(cnp), cnp)
    requires forall c :: Scanned(c, end, curr - Square(cnp), cnp) && (f.Found? ==> f.curr < c) ==> Fails(t, d', c, cnp)
    ensures forall c :: Scanned(c, end, curr, cnp) && (f.Found? ==> f.curr < c) ==> Fails(t, d', c, cnp)
  {
    ScannedBelow(end, curr, curr - Square(cnp), cnp);
    FailsMarked(t, dets, d', curr, cnp);
  }

  /** `c` ends a group of region `m`: `m + 1` blocks of `m + 1` entries. */
  ghost predicate GroupOf(t: RecursionTemplate, m: nat, c: nat)
  {
    m + 1 < |t.offsets| && Scanned(c, t.offsets[m], t.offsets[m + 1], m + 1)
  }

  /** No group of region `m` marks a cell of its own. */
  ghost predicate RegionApartAt(t: RecursionTemplate, m: nat)
  {
    forall c :: GroupOf(t, m, c) ==> GroupApart(t, c, m + 1)
  }

  /** No group of the template marks a cell of its own. */

  ghost predicate GroupsApart(t: RecursionTemplate, n: nat)
  {
    && |t.offsets| == n + 1
    && forall m :: 0 <= m < n ==> RegionApartAt(t, m)
  }

  /** The search checks the group of region `m` ending at `c` before it
      reaches `f`, or `f` is no group. */
  predicate ScannedBefore(m: nat, c: nat, f: Search)
  {
    f.NotFound? || f.cnp <= m || (f.cnp == m + 1 && f.curr < c)
  }

  /** No group of the template for `n` points qualifies. */
  ghost predicate NoGroupQualifies(t: RecursionTemplate, dets: seq<Det>, n: nat)
  {
    forall m, c :: 0 <= m < n && GroupOf(t, m, c) ==> Fails(t, dets, c, m + 1)
  }

  lemma RegionApart(t: RecursionTemplate, n: nat, j: nat, end: nat, curr: nat, cnp: nat)
    requires GroupsApart(t, n) && j < n
    requires end == t.offsets[j] && curr == t.offsets[j + 1] && cnp == j + 1
    ensures forall c :: Scanned(c, end, curr, cnp) ==> GroupApart(t, c, cnp)
  {
    assert RegionApartAt(t, j);
    forall c | Scanned(c, end, curr, cnp)
      ensures GroupApart(t, c, cnp)
    {
      assert GroupOf(t, j, c);
    }
  }

  lemma RegionFailsMarked(t: RecursionTemplate, d: seq<Det>, d': seq<Det>, j: nat, end: nat, curr: nat, cnp: nat)
    requires MarksOnly(d, d') && j + 1 < |t.offsets|
    requires end == t.offsets[j] && curr == t.offsets[j + 1] && cnp == j + 1
    requires forall c :: Scanned(c, end, curr, cnp) ==> Fails(t, d, c, cnp)
    ensures forall c :: GroupOf(t, j, c) ==> Fails(t, d', c, j + 1)
  {
    forall c | GroupOf(t, j, c)
      ensures Fails(t, d', c, j + 1)
    {
      FailsMarked(t, d, d', c, j + 1);
    }
  }

  /** The regions ending at `offsets[j]`, `offsets[j - 1]`, ..., `offsets[0]`,
      one child fewer per block from one region to the next: the group found
      is the first that qualifies in that order, and every group checked
      before it fails. */
  function SearchRegions(t: RecursionTemplate, dets: seq<Det>, n: nat, j: nat, cnp: nat, curr: nat)
    : (r: (seq<Det>, Search))
    requires SlotsIn(t, |dets|) && Regions(t, n) && |t.permutationList| == |t.subDeterminants|
    requires GroupsApart(t, n)
    requires j < n && cnp == j + 1 && curr == t.offsets[j + 1]
    ensures |r.0| == |dets| && MarksOnly(dets, r.0)
    ensures Searched(t, r.0, cnp, r.1)
    decreases j
  {
    RegionApart(t, n, j, t.offsets[j], curr, cnp);
    var (dets', f) := SearchRegion(t, dets, cnp, curr, t.offsets[j]);
    if f.Found? || j == 0 then (dets', f)
    else
      var r := SearchRegions(t, dets', n, j - 1, cnp - 1, t.offsets[j]);
      RegionFailsMarked(t, dets', r.0, j, t.offsets[j], curr, cnp);
      MarksOnlyTrans(dets, dets', r.0);
      r
  }

  /** What the search over the regions `0..top - 1` promises: the group it
      stops at lies in one of them and qualifies, and every group it checks
      before that fails. */
  ghost predicate Searched(t: RecursionTemplate, dets: seq<Det>, top: nat, f: Search)
  {
    && (f.Found? ==> 1 <= f.cnp <= top && GroupOf(t, f.cnp - 1, f.curr) && Selects(t, dets, f))
    && forall m, c :: 0 <= m < top && GroupOf(t, m, c) && ScannedBefore(m, c, f) ==> Fails(t, dets, c, m + 1)
  }

  /** The outcome of the search: the group of `cnp` blocks ending at
      `curr`, or none. */
  datatype Search = Found(curr: nat, cnp: nat) | NotFound

  /** `f` names a group of the template whose cells in `dets` all hold
      strictly positive, unmarked determinants. */
  ghost predicate Selects(t: RecursionTemplate, dets: seq<Det>, f: Search)
    requires f.Found?
  {
    1 <= f.cnp && Qualifies(t, dets, f.curr, f.cnp)
  }

  /* ---------------------------------------------------------------------- */
  /* The projection.                                                          */
  /* ---------------------------------------------------------------------- */

  /** Every cell from `from` to the end of the buffer set to one. */
  function SetOnes(dets: seq<Det>, from: nat): (r: seq<Det>)
    requires from <= |dets|
    ensures |r| == |dets|
    ensures forall c :: 0 <= c < from ==> r[c] == dets[c]
    ensures forall c :: from <= c < |dets| ==> r[c] == Val(1.0)
  {
    dets[..from] + seq(|dets| - from, c => Val(1.0))
  }

  /** The vertices of the group: the first entry of each of its blocks. */
  function GroupIds(t: RecursionTemplate, n: nat, f: Search): (r: seq<nat>)
    requires f.Found? && Square(f.cnp) <= f.curr <= |t.permutationList|
    requires forall p :: 0 <= p < |t.permutationList| ==> t.permutationList[p] < n
    ensures |r| == f.cnp && forall i :: 0 <= i < |r| ==> r[i] < n
  {
    seq(f.cnp, i requires 0 <= i < f.cnp => t.permutationList[DetId(f.curr, f.cnp, i)])
  }

  /** The determinants of the group's blocks. */
  function GroupWeights(t: RecursionTemplate, dets: seq<Det>, f: Search): (r: seq<real>)
    requires f.Found? && Selects(t, dets, f)
    ensures |r| == f.cnp && forall i :: 0 <= i < |r| ==> r[i] > 0.0
  {
    seq(f.cnp, i requires 0 <= i < f.cnp => Num(dets[OwnCell(t, f.curr, f.cnp, i)]))
  }

  /** What the passes need of a simplex of two or more points: the template
      for its point count indexes its points and its buffer, has the regions
      the passes walk, and leaves a cell for every one-vertex block. */
  ghost predicate Ready(s: JohnsonSimplex)
  {
    && 2 <= |s.points| <= |s.recursion| && OfDim(s.points, s.dim)
    && var t := s.recursion[|s.points| - 1];
       && Indexable(t, |s.points|, |s.determinants|) && Regions(t, |s.points|)
       && GroupsApart(t, |s.points|)
       && |s.points| <= t.numDeterminants <= |s.determinants|
  }

  /** Every simplex keeping the invariant with two or more points is ready
      for the passes. */
  lemma ValidReady(s: JohnsonSimplex)
    requires Valid(s) && |s.points| >= 2
    ensures Ready(s)
  {
    var n := |s.points|;
    TableSlotsGrow(s.recursion, |s.recursion| - 1, n - 1, s.dim);
    Evaluable(s.recursion[n - 1], n - 1, |s.determinants|);
    TemplateGroupsApart(s.recursion[n - 1], n - 1);
  }

  /** `p` starts one of the blocks of `w` entries laid from `lo`, the
      `b`-th of fewer than `bc`. */
  lemma BlockIndex(lo: nat, hi: nat, w: nat, bc: nat, p: nat) returns (b: nat)
    requires w > 0 && lo <= p && p + w <= hi && (p - lo) % w == 0 && bc * w == hi - lo
    ensures p == lo + b * w && b < bc
  {
    b := (p - lo) / w;
    assert (b + 1) * w <= bc * w;
    MulLeInv(b + 1, bc, w);
  }

  /** The blocks of region `m` own cells below `limit` and, when they have
      children, read them at or above it. */
  ghost predicate BlocksBelow(t: RecursionTemplate, m: nat, limit: int)
    requires m + 1 < |t.offsets| && t.offsets[m + 1] <= |t.subDeterminants|
  {
    && (forall p :: t.offsets[m] <= p && p + m + 1 <= t.offsets[m + 1] && (p - t.offsets[m]) % (m + 1) == 0 ==>
          t.subDeterminants[p] < limit)
    && (m >= 1 ==>
          forall q :: t.offsets[m] < q && q + m <= t.offsets[m + 1] && (q - 1 - t.offsets[m]) % (m + 1) == 0 ==>
            limit <= t.subDeterminants[q])
  }

  /** In a well-formed template a block of region `m` owns a cell below the
      region's slot limit and reads its children at or above it. */
  lemma RegionBlocksBelow(t: RecursionTemplate, k: nat, m: nat)
    requires WellFormed(t, k) && m <= k
    ensures t.offsets[m + 1] <= |t.subDeterminants| && BlocksBelow(t, m, SlotLimit(t, m))
  {
    RegionLayout(t, k, m);
    LayoutBlocksBelow(t, m);
  }

  /** What a well-formed template says of the layout of region `m`. */
  lemma RegionLayout(t: RecursionTemplate, k: nat, m: nat)
    requires WellFormed(t, k) && m <= k
    ensures m + 1 < |t.offsets| && t.offsets[m] <= t.offsets[m + 1] <= |t.subDeterminants|
    ensures BlockCount(t, m) * (m + 1) == t.offsets[m + 1] - t.offsets[m]
    ensures Tiles(t.offsets[m + 1] - t.offsets[m], Square(m + 1))
    ensures m >= 1 ==> forall b :: 0 <= b < BlockCount(t, m) ==> BlockSlots(t, m, b)
    ensures m == 0 ==> SlotsIn(t, SlotLimit(t, m))
  {
    RegionOffsets(t, k, m);
    RegionSlots(t, k, m);
  }

  lemma RegionOffsets(t: RecursionTemplate, k: nat, m: nat)
    requires WellFormed(t, k) && m <= k
    ensures m + 1 < |t.offsets| && t.offsets[m] <= t.offsets[m + 1] <= |t.subDeterminants|
    ensures BlockCount(t, m) * (m + 1) == t.offsets[m + 1] - t.offsets[m]
    ensures Tiles(t.offsets[m + 1] - t.offsets[m], Square(m + 1))
  {
    RegionBounds(t, k, m);
    RegionBlockCount(t, k, m);
    RegionSquares(t, k, m);
    RegionTiles(t, m);
  }

  lemma RegionBounds(t: RecursionTemplate, k: nat, m: nat)
    requires |t.offsets| == k + 2 && |t.subDeterminants| == t.offsets[k + 1] && m <= k
    requires forall j :: 0 <= j <= k ==> t.offsets[j] <= t.offsets[j + 1]
    ensures m + 1 < |t.offsets| && t.offsets[m] <= t.offsets[m + 1] <= |t.subDeterminants|
  {
    OffsetsUpTo(t.offsets, k + 1, m + 1);
  }

  lemma RegionBlockCount(t: RecursionTemplate, k: nat, m: nat)
    requires WellFormed(t, k) && m <= k
    ensures BlockCount(t, m) * (m + 1) == t.offsets[m + 1] - t.offsets[m]
  {
  }

  lemma RegionSquares(t: RecursionTemplate, k: nat, m: nat)
    requires WellFormed(t, k) && m <= k
    ensures t.offsets[m] <= t.offsets[m + 1] && (t.offsets[m + 1] - t.offsets[m]) % Square(m + 1) == 0
  {
    assert t.offsets[m] <= t.offsets[m + 1];
    assert BlockCount(t, m) * (m + 1) == t.offsets[m + 1] - t.offsets[m] && BlockCount(t, m) % (m + 1) == 0;
    RegionGroups(t, k, m);
  }

  lemma RegionTiles(t: RecursionTemplate, m: nat)
    requires m + 1 < |t.offsets| && t.offsets[m] <= t.offsets[m + 1]
    requires (t.offsets[m + 1] - t.offsets[m]) % Square(m + 1) == 0
    ensures Tiles(t.offsets[m + 1] - t.offsets[m], Square(m + 1))
  {
    TilesMod(t.offsets[m + 1] - t.offsets[m], Square(m + 1));
  }

  lemma RegionSlots(t: RecursionTemplate, k: nat, m: nat)
    requires WellFormed(t, k) && m <= k
    ensures m >= 1 ==> forall b :: 0 <= b < BlockCount(t, m) ==> BlockSlots(t, m, b)
    ensures m == 0 ==> SlotsIn(t, SlotLimit(t, m))
  {
  }


  /** The same, from the layout of region `m` alone. */
  lemma LayoutBlocksBelow(t: RecursionTemplate, m: nat)
    requires m + 1 < |t.offsets| && t.offsets[m] <= t.offsets[m + 1] <= |t.subDeterminants|
    requires BlockCount(t, m) * (m + 1) == t.offsets[m + 1] - t.offsets[m]
    requires m >= 1 ==> forall b :: 0 <= b < BlockCount(t, m) ==> BlockSlots(t, m, b)
    requires m == 0 ==> SlotsIn(t, SlotLimit(t, m))
    ensures BlocksBelow(t, m, SlotLimit(t, m))
  {
    var lo := t.offsets[m];
    forall p | lo <= p && p + m + 1 <= t.offsets[m + 1] && (p - lo) % (m + 1) == 0
      ensures t.subDeterminants[p] < SlotLimit(t, m)
    {
      if m >= 1 {
        BlockOwnAndChild(t, m, p);
      }
    }
    if m >= 1 {
      forall q | lo < q && q + m <= t.offsets[m + 1] && (q - 1 - lo) % (m + 1) == 0
        ensures SlotLimit(t, m) <= t.subDeterminants[q]
      {
        BlockOwnAndChild(t, m, q - 1);
      }
    }
  }

  lemma BlockOwnAndChild(t: RecursionTemplate, m: nat, p: nat)
    requires 1 <= m && m + 1 < |t.offsets| && t.offsets[m] <= t.offsets[m + 1] <= |t.subDeterminants|
    requires BlockCount(t, m) * (m + 1) == t.offsets[m + 1] - t.offsets[m]
    requires forall b :: 0 <= b < BlockCount(t, m) ==> BlockSlots(t, m, b)
    requires t.offsets[m] <= p && p + m + 1 <= t.offsets[m + 1] && (p - t.offsets[m]) % (m + 1) == 0
    ensures t.subDeterminants[p] < SlotLimit(t, m) <= t.subDeterminants[p + 1]
  {
    var b := BlockIndex(t.offsets[m], t.offsets[m + 1], m + 1, BlockCount(t, m), p);
    assert BlockSlots(t, m, b);
  }

  /** A group of region `m` lies in the region, and its blocks start at
      multiples of `m + 1`. */
  lemma GroupInRegion(lo: nat, hi: nat, c: nat, cnp: nat, i: nat)
    requires cnp >= 1 && lo < c <= hi && Tiles(hi - lo, Square(cnp)) && Tiles(hi - c, Square(cnp))
    requires i < cnp
    ensures Square(cnp) <= c - lo
    ensures lo <= c - (i + 1) * cnp && (c - (i + 1) * cnp - lo) % cnp == 0
  {
    TilesMod(hi - lo, Square(cnp));
    TilesMod(hi - c, Square(cnp));
    ModDiff(hi - lo, hi - c, Square(cnp));
    StepDown(c - lo, Square(cnp));
    SquareStep(c - lo, cnp);
    MulLe(i + 1, cnp, cnp);
    MulDiv(i + 1, cnp);
    ModDiff(c - lo, (i + 1) * cnp, cnp);
  }

  /** No group of a region whose blocks own cells below a limit their
      children lie above marks a cell of its own. */
  lemma GroupBlocksApart(t: RecursionTemplate, m: nat, c: nat, limit: int)
    requires GroupOf(t, m, c) && t.offsets[m + 1] <= |t.subDeterminants|
    requires t.offsets[m] <= t.offsets[m + 1] && Tiles(t.offsets[m + 1] - t.offsets[m], Square(m + 1))
    requires BlocksBelow(t, m, limit)
    ensures GroupApart(t, c, m + 1)
  {
    var cnp := m + 1;
    var lo := t.offsets[m];
    GroupInRegion(lo, t.offsets[m + 1], c, cnp, 0);
    if m >= 1 {
      forall i | 0 <= i < cnp
        ensures OwnCell(t, c, cnp, i) < limit <= FirstChild(t, c, cnp, i)
      {
        GroupInRegion(lo, t.offsets[m + 1], c, cnp, i);
        assert DetId(c, cnp, i) == c - (i + 1) * cnp;
      }
    }
  }

  /** No group of a laid-out region marks a cell of its own. */
  lemma LayoutGroupsApart(t: RecursionTemplate, m: nat, limit: int)
    requires m + 1 < |t.offsets| && t.offsets[m + 1] <= |t.subDeterminants|
    requires t.offsets[m] <= t.offsets[m + 1] && Tiles(t.offsets[m + 1] - t.offsets[m], Square(m + 1))
    requires BlocksBelow(t, m, limit)
    ensures RegionApartAt(t, m)
  {
    forall c | GroupOf(t, m, c)
      ensures GroupApart(t, c, m + 1)
    {
      GroupBlocksApart(t, m, c, limit);
    }
  }

  lemma TemplateGroupsApart(t: RecursionTemplate, k: nat)
    requires WellFormed(t, k)
    ensures GroupsApart(t, k + 1)
  {
    forall m | 0 <= m < k + 1
      ensures RegionApartAt(t, m)
    {
      RegionLayout(t, k, m);
      RegionBlocksBelow(t, k, m);
      LayoutGroupsApart(t, m, SlotLimit(t, m));
    }
  }


  /** The template for the current number of points. */
  function Template(s: JohnsonSimplex): RecursionTemplate
    requires 1 <= |s.points| <= |s.recursion|
  {
    s.recursion[|s.points| - 1]
  }

  /** The first pass over the template for the current number of points:
      the one-point cells set to one, then every region from two points up.
      A cell some region stores into holds a value; any other cell is one
      from the one-point cells on and is kept below them. */
  function FirstPass(s: JohnsonSimplex): (r: (seq<Det>, nat, nat))
    requires Ready(s)
    ensures |r.0| == |s.determinants|
    ensures r.1 == s.recursion[|s.points| - 1].offsets[|s.points|] && r.2 == |s.points|
    ensures forall m, x :: 1 <= m < |s.points| && 0 <= x < |s.determinants| && RegionWrites(Template(s), m, x) ==>
      r.0[x].Val?
    ensures forall x :: 0 <= x < |s.determinants| && (forall m :: 1 <= m < |s.points| ==> !RegionWrites(Template(s), m, x)) ==>
      r.0[x] == if x < Template(s).numDeterminants - |s.points| then s.determinants[x] else Val(1.0)
  {
    var n := |s.points|;
    var t := s.recursion[n - 1];
    var dets0 := SetOnes(s.determinants, t.numDeterminants - n);
    ComputeRegions(t, s.points, dets0, s.dim, 2, 1, n)
  }

  /** Both passes over the template for the current number of points: the
      buffer they leave and the group the search stopped at.  The search
      only marks cells of the first pass's buffer; the group it stops at is
      the first, from the last region down, whose determinants are all
      strictly positive and unmarked, and every group checked before it
      fails. */
  function Passes(s: JohnsonSimplex): (r: (seq<Det>, Search))
    requires Ready(s)
    ensures |r.0| == |s.determinants| && MarksOnly(FirstPass(s).0, r.0)
    ensures Searched(s.recursion[|s.points| - 1], r.0, |s.points|, r.1)
    ensures r.1.Found? ==> Selects(s.recursion[|s.points| - 1], r.0, r.1) && r.1.cnp <= |s.points|
    ensures Indexable(s.recursion[|s.points| - 1], |s.points|, |r.0|)
  {
    var n := |s.points|;
    var t := s.recursion[n - 1];
    var (dets1, curr, cnp) := FirstPass(s);
    SearchRegions(t, dets1, n, n - 1, cnp, curr)
  }

  /** The search finds no group exactly when no group of the buffer it
      leaves qualifies. */
  lemma SearchOutcome(s: JohnsonSimplex)
    requires Ready(s)
    ensures var t := s.recursion[|s.points| - 1];
      Passes(s).1.NotFound? <==> NoGroupQualifies(t, Passes(s).0, |s.points|)
  {
    var t := s.recursion[|s.points| - 1];
    var (dets, f) := Passes(s);
    if f.Found? {
      FailsNotQualifies(t, dets, f.curr, f.cnp);
      assert !Fails(t, dets, f.curr, f.cnp);
    }
  }

  /** The answer once both passes are done: the barycentre of the group's
      vertices weighted by their determinants, and with `reduce` those
      vertices become the point list; zero when no group qualified. */
  function Answer(s: JohnsonSimplex, reduce: bool, dets: seq<Det>, f: Search): (r: (Vec, JohnsonSimplex))
    requires 2 <= |s.points| <= |s.recursion| && OfDim(s.points, s.dim)
    requires f.Found? ==>
      var t := s.recursion[|s.points| - 1];
      Selects(t, dets, f) && Indexable(t, |s.points|, |dets|)
    ensures |r.0| == s.dim
    ensures r.1.dim == s.dim && r.1.recursion == s.recursion && r.1.determinants == dets
    ensures f.NotFound? ==> r.0 == Zero(s.dim) && r.1.points == s.points && r.1.exchangePoints == s.exchangePoints
    ensures f.Found? ==>
      var t := s.recursion[|s.points| - 1];
      var ids := GroupIds(t, |s.points|, f);
      var ws := GroupWeights(t, dets, f);
      && Total(ws) > 0.0 && IsConvex(s.points, ids, Normalize(ws), s.dim)
      && r.0 == Combination(s.points, ids, Normalize(ws), s.dim)
      && r.1.points == (if reduce then s.exchangePoints + Pick(s.points, ids) else s.points)
      && r.1.exchangePoints == (if reduce then [] else s.exchangePoints)
  {
    match f
    case NotFound => (Zero(s.dim), s.(determinants := dets))
    case Found(_, _) =>
      var t := s.recursion[|s.points| - 1];
      var ids := GroupIds(t, |s.points|, f);
      var ws := GroupWeights(t, dets, f);
      var proj := Combination(s.points, ids, ws, s.dim);
      Convex(s.points, ids, ws, s.dim);
      var total := Total(ws);
      var s' :=
        if reduce then s.(points := s.exchangePoints + Pick(s.points, ids), exchangePoints := [], determinants := dets)
        else s.(determinants := dets);
      (Div(proj, total), s')
  }

  /** `do_project_origin(reduce)`: fails on an empty simplex, returns the
      only point of a one-point simplex untouched, and otherwise runs both
      passes and answers from the group they select. */
  function DoProjectOrigin(s: JohnsonSimplex, reduce: bool): (r: Result<(Vec, JohnsonSimplex)>)
    requires Valid(s)
    ensures r.Failure? <==> |s.points| == 0
    ensures |s.points| == 1 ==> r == Success((s.points[0], s))
    ensures r.Success? ==> Valid(r.value.1) && |r.value.0| == s.dim
    ensures r.Success? ==> r.value.1.dim == s.dim && r.value.1.recursion == s.recursion
    ensures |s.points| >= 2 ==> Ready(s) && r == Success(ProjectReady(s, reduce))
  {
    if |s.points| == 0 then Failure("empty simplex")
    else if |s.points| == 1 then Success((s.points[0], s))
    else
      ValidReady(s);
      var (dets, f) := Passes(s);
      AnswerValid(s, reduce, dets, f);
      Success(ProjectReady(s, reduce))
  }

  /** Two or more points: both passes, then the answer from the group they
      select. */
  function ProjectReady(s: JohnsonSimplex, reduce: bool): (r: (Vec, JohnsonSimplex))
    requires Ready(s)
    ensures var (dets, f) := Passes(s);
      r == Answer(s, reduce, dets, f)
  {
    var (dets, f) := Passes(s);
    Answer(s, reduce, dets, f)
  }

  /** The answer keeps the invariant: the group has at most as many
      vertices as the simplex had points. */
  lemma AnswerValid(s: JohnsonSimplex, reduce: bool, dets: seq<Det>, f: Search)
    requires Valid(s) && |s.points| >= 2 && |dets| == |s.determinants|
    requires f.Found? ==>
      var t := s.recursion[|s.points| - 1];
      Selects(t, dets, f) && f.cnp <= |s.points| && Indexable(t, |s.points|, |dets|)
    ensures Valid(Answer(s, reduce, dets, f).1)
  {
    var r := Answer(s, reduce, dets, f);
    if f.Found? && reduce {
      var ids := GroupIds(s.recursion[|s.points| - 1], |s.points|, f);
      assert r.1.points == Pick(s.points, ids);
    }
    KeepsValid(s, r.1);
  }

  /** A simplex over the same table and buffer size, with no more points of
      the same dimension and nothing to exchange, keeps the invariant. */
  lemma KeepsValid(s: JohnsonSimplex, s': JohnsonSimplex)
    requires Valid(s) && s'.dim == s.dim && s'.recursion == s.recursion
    requires |s'.determinants| == |s.determinants| && |s'.points| <= |s.points|
    requires OfDim(s'.points, s.dim) && s'.exchangePoints == []
    ensures Valid(s')
  {
  }

  /** `project_origin()`: the point list is left as it is. */
  function ProjectOrigin(s: JohnsonSimplex): (r: Result<(Vec, JohnsonSimplex)>)
    requires Valid(s)
    ensures r.Failure? <==> |s.points| == 0
    ensures r.Success? ==> Valid(r.value.1) && r.value.1.points == s.points
  {
    DoProjectOrigin(s, false)
  }

  /** `project_origin_and_reduce()`: the point list shrinks to the vertices
      of the selected sub-simplex, all of them old points. */
  function ProjectOriginAndReduce(s: JohnsonSimplex): (r: Result<(Vec, JohnsonSimplex)>)
    requires Valid(s)
    ensures r.Failure? <==> |s.points| == 0
    ensures r.Success? ==> Valid(r.value.1) && 1 <= |r.value.1.points| <= |s.points|
    ensures r.Success? ==> forall p :: p in r.value.1.points ==> p in s.points
  {
    ReducedPoints(s);
    DoProjectOrigin(s, true)
  }

  lemma ReducedPoints(s: JohnsonSimplex)
    requires Valid(s)
    ensures var r := DoProjectOrigin(s, true);
      r.Success? ==> 1 <= |r.value.1.points| <= |s.points| && forall p :: p in r.value.1.points ==> p in s.points
  {
    if |s.points| >= 2 {
      ValidReady(s);
      var (dets, f) := Passes(s);
      var a := Answer(s, true, dets, f);
      assert DoProjectOrigin(s, true) == Success(ProjectReady(s, true)) == Success(a);
      if f.Found? {
        var ids := GroupIds(s.recursion[|s.points| - 1], |s.points|, f);
        PickMembers(s.points, ids);
      }
    }
  }

  /** The answer of a projection on two or more points is zero, when no
      sub-simplex qualifies, or a convex combination of the points: positive
      weights adding up to one. */
  lemma ProjectionIsConvex(s: JohnsonSimplex, reduce: bool)
    requires Valid(s) && |s.points| >= 2
    ensures DoProjectOrigin(s, reduce).Success?
    ensures var v := DoProjectOrigin(s, reduce).value.0;
      || (NoGroupQualifies(Template(s), Passes(s).0, |s.points|) && v == Zero(s.dim))
      || exists ids, lambdas :: IsConvex(s.points, ids, lambdas, s.dim) && v == Combination(s.points, ids, lambdas, s.dim)
  {
    ValidReady(s);
    var (dets, f) := Passes(s);
    var a := Answer(s, reduce, dets, f);
    assert DoProjectOrigin(s, reduce) == Success(ProjectReady(s, reduce)) == Success(a);
    SearchOutcome(s);
    if f.Found? {
      var t := s.recursion[|s.points| - 1];
      var ids := GroupIds(t, |s.points|, f);
      var ws := GroupWeights(t, dets, f);
      assert IsConvex(s.points, ids, Normalize(ws), s.dim);
      assert a.0 == Combination(s.points, ids, Normalize(ws), s.dim);
    }
  }
}
