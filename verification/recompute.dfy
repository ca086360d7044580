/**
  What the first pass of `do_project_origin` reads and writes: a block of
  region `m` reads only cells that region `m - 1` has already filled, stores
  into a cell of its own below them, and together the regions fill every cell
  below the one-point cells.  Hence the first pass does not depend on what the
  buffer held before, and projecting twice gives the same answer as
  projecting once.
 */
module JohnsonRecompute {
  import opened Sequences
  import opened Wrappers
  import opened Vectors
  import opened RecursionTemplates
  import opened TemplateTables
  import opened JohnsonSimplices
  import opened JohnsonProjection

  /** Two buffers of one size that hold the same cells from `lim` up. */
  ghost predicate SameFrom(d: seq<Det>, d': seq<Det>, lim: int)
  {
    |d| == |d'| && forall x :: 0 <= x < |d| && lim <= x ==> d[x] == d'[x]
  }

  /** The block at `p` of `w` entries stores below `lim` and reads its
      children from `lim` up. */
  ghost predicate BlockReads(t: RecursionTemplate, p: nat, w: nat, lim: int)
  {
    && p < |t.subDeterminants| && p + w <= |t.subDeterminants| && t.subDeterminants[p] < lim
    && forall q :: p < q < p + w ==> lim <= t.subDeterminants[q]
  }

  /** Every block of the walk from `lo` to `hi` stores below `lim` and reads
      from `lim` up. */
  ghost predicate WalkBelow(t: RecursionTemplate, lo: nat, hi: nat, w: nat, lim: int)
  {
    forall p :: BlockIn(p, lo, hi, w) ==> BlockReads(t, p, w, lim)
  }

  /** Region `m` stores below its slot limit, reads from it up, and stores
      into every cell from the next region's slot limit up to its own. */
  ghost predicate RegionFeeds(t: RecursionTemplate, m: nat)
  {
    && m + 1 < |t.offsets| && t.offsets[m] <= t.offsets[m + 1]
    && WalkBelow(t, t.offsets[m], t.offsets[m + 1], m + 1, SlotLimit(t, m))
    && forall x: nat :: SlotLimit(t, m + 1) <= x < SlotLimit(t, m) ==> RegionWrites(t, m, x)
  }

  /** Some region of a template for `n` points from the second one on
      stores into cell `x`. */
  ghost predicate Covered(t: RecursionTemplate, n: nat, x: nat)
  {
    exists m :: 1 <= m < n && RegionWrites(t, m, x)
  }

  /* ---------------------------------------------------------------------- */
  /* Steps of whole blocks.                                                   */
  /* ---------------------------------------------------------------------- */

  /** `b` steps of `w` are a whole number of steps. */
  lemma {:induction false} TilesMul(b: nat, w: nat)
    requires w > 0
    ensures Tiles(b * w, w)
  {
    if b > 0 {
      TilesMul(b - 1, w);
      assert b * w - w == (b - 1) * w;
    }
  }

  /** A whole number of steps is `b` steps for some `b`. */
  lemma {:induction false} TilesIndex(x: nat, w: nat) returns (b: nat)
    requires w > 0 && Tiles(x, w)
    ensures x == b * w
    decreases x
  {
    if x == 0 {
      b := 0;
    } else {
      var b' := TilesIndex(x - w, w);
      b := b' + 1;
      assert b * w == b' * w + w;
    }
  }

  /** Two whole numbers of steps are at least a step apart. */
  lemma {:induction false} TilesGap(a: nat, c: nat, w: nat)
    requires w > 0 && Tiles(a, w) && Tiles(c, w) && a < c
    ensures a + w <= c
    decreases a
  {
    if a > 0 {
      TilesGap(a - w, c - w, w);
    }
  }

  /** Past the first block, the blocks left are those after it. */
  lemma WalkStep(t: RecursionTemplate, lo: nat, hi: nat, w: nat, lim: int)
    requires w > 0 && lo + w <= hi && WalkBelow(t, lo, hi, w, lim)
    ensures BlockReads(t, lo, w, lim) && WalkBelow(t, lo + w, hi, w, lim)
  {
    assert BlockIn(lo, lo, hi, w);
    forall p: nat | BlockIn(p, lo + w, hi, w)
      ensures BlockReads(t, p, w, lim)
    {
      assert p - lo - w == p - (lo + w);
      assert BlockIn(p, lo, hi, w);
    }
  }

  /* ---------------------------------------------------------------------- */
  /* A block reads only its children.                                         */
  /* ---------------------------------------------------------------------- */

  /** The sum over entries whose cells lie from `lim` up is the same for two
      buffers that agree there. */
  lemma {:induction false} TermsAgree(t: RecursionTemplate, points: seq<Vec>, d: seq<Det>, d': seq<Det>,
                                      kpt: Vec, jpt: Vec, lo: nat, hi: nat, lim: int)
    requires Indexable(t, |points|, |d|) && OfDim(points, |kpt|) && |jpt| == |kpt|
    requires lo <= hi <= |t.permutationList| && SameFrom(d, d', lim)
    requires forall q :: lo <= q < hi ==> lim <= t.subDeterminants[q]
    ensures Terms(t, points, d, kpt, jpt, lo, hi) == Terms(t, points, d', kpt, jpt, lo, hi)
    decreases hi - lo
  {
    if lo < hi {
      TermsAgree(t, points, d, d', kpt, jpt, lo, hi - 1, lim);
      assert d[t.subDeterminants[hi - 1]] == d'[t.subDeterminants[hi - 1]];
    }
  }

  /** Walking the same blocks over two buffers that agree from `lim` up,
      when every block stores below `lim` and reads from `lim` up, leaves
      buffers that agree from `lim` up and on every cell the walk stores
      into. */
  lemma {:induction false} RegionAgree(t: RecursionTemplate, points: seq<Vec>, d: seq<Det>, d': seq<Det>,
                                       dim: nat, cnp: nat, curr: nat, end: nat, lim: int)
    requires Indexable(t, |points|, |d|) && OfDim(points, dim)
    requires cnp >= 1 && curr <= end <= |t.permutationList| && Tiles(end - curr, cnp + 1)
    requires SameFrom(d, d', lim) && WalkBelow(t, curr, end, cnp + 1, lim)
    ensures forall x :: 0 <= x < |d| && lim <= x ==>
      ComputeRegion(t, points, d, dim, cnp, curr, end)[x] == ComputeRegion(t, points, d', dim, cnp, curr, end)[x]
    ensures forall x :: 0 <= x < |d| && Writes(t, curr, end, cnp + 1, x) ==>
      ComputeRegion(t, points, d, dim, cnp, curr, end)[x] == ComputeRegion(t, points, d', dim, cnp, curr, end)[x]
    decreases end - curr
  {
    if curr < end {
      var w := cnp + 1;
      WalkStep(t, curr, end, w, lim);
      var kpt := points[t.permutationList[curr + 1]];
      var jpt := points[t.permutationList[curr]];
      TermsAgree(t, points, d, d', kpt, jpt, curr + 1, curr + 1 + cnp, lim);
      var det := BlockDet(t, points, d, dim, curr, cnp);
      assert det == BlockDet(t, points, d', dim, curr, cnp);
      var slot := t.subDeterminants[curr];
      var u := d[slot := Val(det)];
      var u' := d'[slot := Val(det)];
      RegionAgree(t, points, u, u', dim, cnp, curr + w, end, lim);
      WritesStep(t, curr, end, w);
      var r := ComputeRegion(t, points, u, dim, cnp, curr + w, end);
      var r' := ComputeRegion(t, points, u', dim, cnp, curr + w, end);
      assert ComputeRegion(t, points, d, dim, cnp, curr, end) == r;
      assert ComputeRegion(t, points, d', dim, cnp, curr, end) == r';
      forall x | 0 <= x < |d| && (lim <= x || Writes(t, curr, end, w, x))
        ensures r[x] == r'[x]
      {
        if !(lim <= x || Writes(t, curr + w, end, w, x)) {
          assert x == slot;
          assert r[x] == u[x] && r'[x] == u'[x];
        }
      }
    }
  }

  /** The regions from `j - 1` on, each feeding the next, turn two buffers
      that agree from region `j - 1`'s slot limit up into the same buffer
      from the last region's slot limit up. */
  lemma {:induction false} RegionsAgree(t: RecursionTemplate, points: seq<Vec>, d: seq<Det>, d': seq<Det>,
                                        dim: nat, j: nat, cnp: nat, curr: nat)
    requires Indexable(t, |points|, |d|) && OfDim(points, dim) && Regions(t, |points|)
    requires 2 <= j <= |points| + 1 && cnp + 1 == j && curr == t.offsets[j - 1]
    requires forall m :: j - 1 <= m < |points| ==> RegionFeeds(t, m)
    requires SameFrom(d, d', SlotLimit(t, j - 1))
    ensures SameFrom(ComputeRegions(t, points, d, dim, j, cnp, curr).0,
                     ComputeRegions(t, points, d', dim, j, cnp, curr).0, SlotLimit(t, |points|))
    decreases |points| + 1 - j
  {
    if j <= |points| {
      var end := t.offsets[j];
      TilesSquare(end - curr, cnp + 1);
      var e := ComputeRegion(t, points, d, dim, cnp, curr, end);
      var e' := ComputeRegion(t, points, d', dim, cnp, curr, end);
      RegionStepAgree(t, points, d, d', dim, j - 1);
      RegionsAgree(t, points, e, e', dim, j + 1, cnp + 1, end);
    }
  }

  /** One region that feeds the next turns two buffers that agree from its
      slot limit up into buffers that agree from the next one up. */
  lemma RegionStepAgree(t: RecursionTemplate, points: seq<Vec>, d: seq<Det>, d': seq<Det>, dim: nat, m: nat)
    requires Indexable(t, |points|, |d|) && OfDim(points, dim)
    requires 1 <= m && RegionFeeds(t, m) && t.offsets[m + 1] <= |t.permutationList|
    requires Tiles(t.offsets[m + 1] - t.offsets[m], m + 1)
    requires SameFrom(d, d', SlotLimit(t, m))
    ensures SameFrom(ComputeRegion(t, points, d, dim, m, t.offsets[m], t.offsets[m + 1]),
                     ComputeRegion(t, points, d', dim, m, t.offsets[m], t.offsets[m + 1]), SlotLimit(t, m + 1))
  {
    var e := ComputeRegion(t, points, d, dim, m, t.offsets[m], t.offsets[m + 1]);
    var e' := ComputeRegion(t, points, d', dim, m, t.offsets[m], t.offsets[m + 1]);
    RegionAgree(t, points, d, d', dim, m, t.offsets[m], t.offsets[m + 1], SlotLimit(t, m));
    forall x | 0 <= x < |d| && SlotLimit(t, m + 1) <= x
      ensures e[x] == e'[x]
    {
      if x < SlotLimit(t, m) {
        assert RegionWrites(t, m, x);
      }
    }
  }

  /* ---------------------------------------------------------------------- */
  /* The regions of a well-formed template feed each other.                   */
  /* ---------------------------------------------------------------------- */

  /** Block `b` of region `m` stores into the slot `SlotLimit(t, m) - 1 - b`. */
  lemma BlockCovers(t: RecursionTemplate, m: nat, b: nat)
    requires 1 <= m && m + 1 < |t.offsets| && t.offsets[m] <= t.offsets[m + 1]
    requires BlockCount(t, m) * (m + 1) == t.offsets[m + 1] - t.offsets[m]
    requires b < BlockCount(t, m) && BlockSlots(t, m, b)
    ensures RegionWrites(t, m, SlotLimit(t, m) - 1 - b)
  {
    var p := BlockStart(t, m, b);
    MulLe(b + 1, BlockCount(t, m), m + 1);
    TilesMul(b, m + 1);
    assert p - t.offsets[m] == b * (m + 1);
    assert BlockIn(p, t.offsets[m], t.offsets[m + 1], m + 1);
  }

  /** A block of a laid-out region is one of its blocks, and so stores
      below the region's slot limit and reads from it up. */
  lemma LayoutWalkBelow(t: RecursionTemplate, m: nat)
    requires 1 <= m && m + 1 < |t.offsets| && t.offsets[m] <= t.offsets[m + 1]
    requires BlockCount(t, m) * (m + 1) == t.offsets[m + 1] - t.offsets[m]
    requires Tiles(t.offsets[m + 1] - t.offsets[m], m + 1)
    requires forall b :: 0 <= b < BlockCount(t, m) ==> BlockSlots(t, m, b)
    ensures WalkBelow(t, t.offsets[m], t.offsets[m + 1], m + 1, SlotLimit(t, m))
  {
    var lo := t.offsets[m];
    var hi := t.offsets[m + 1];
    var w := m + 1;
    forall p: nat | BlockIn(p, lo, hi, w)
      ensures BlockReads(t, p, w, SlotLimit(t, m))
    {
      TilesGap(p - lo, hi - lo, w);
      var b := TilesIndex(p - lo, w);
      assert (b + 1) * w <= BlockCount(t, m) * w;
      MulLeInv(b + 1, BlockCount(t, m), w);
      assert BlockSlots(t, m, b);
      assert BlockStart(t, m, b) == p;
    }
  }

  /** Region `m` of a laid-out region stores into every cell of its range. */
  lemma LayoutCovers(t: RecursionTemplate, m: nat)
    requires 1 <= m && m + 1 < |t.offsets| && t.offsets[m] <= t.offsets[m + 1]
    requires BlockCount(t, m) * (m + 1) == t.offsets[m + 1] - t.offsets[m]
    requires forall b :: 0 <= b < BlockCount(t, m) ==> BlockSlots(t, m, b)
    ensures forall x: nat :: SlotLimit(t, m + 1) <= x < SlotLimit(t, m) ==> RegionWrites(t, m, x)
  {
    forall x: nat | SlotLimit(t, m + 1) <= x < SlotLimit(t, m)
      ensures RegionWrites(t, m, x)
    {
      var b: nat := SlotLimit(t, m) - 1 - x;
      BlockCovers(t, m, b);
    }
  }

  /** In a well-formed template for `k + 1` points every region from the
      second one on feeds the next. */
  lemma TemplateFeeds(t: RecursionTemplate, k: nat)
    requires WellFormed(t, k)
    ensures forall m :: 1 <= m <= k ==> RegionFeeds(t, m)
    ensures SlotLimit(t, 1) == t.numDeterminants - (k + 1) && SlotLimit(t, k + 1) == 0
  {
    forall m | 1 <= m <= k
      ensures RegionFeeds(t, m)
    {
      RegionFeedsAt(t, k, m);
    }
  }

  lemma RegionFeedsAt(t: RecursionTemplate, k: nat, m: nat)
    requires WellFormed(t, k) && 1 <= m <= k
    ensures RegionFeeds(t, m)
  {
    RegionLayout(t, k, m);
    LayoutFeeds(t, m);
  }

  /** A laid-out region feeds the next. */
  lemma LayoutFeeds(t: RecursionTemplate, m: nat)
    requires 1 <= m && m + 1 < |t.offsets| && t.offsets[m] <= t.offsets[m + 1]
    requires BlockCount(t, m) * (m + 1) == t.offsets[m + 1] - t.offsets[m]
    requires Tiles(t.offsets[m + 1] - t.offsets[m], Square(m + 1))
    requires forall b :: 0 <= b < BlockCount(t, m) ==> BlockSlots(t, m, b)
    ensures RegionFeeds(t, m)
  {
    TilesSquare(t.offsets[m + 1] - t.offsets[m], m + 1);
    LayoutWalkBelow(t, m);
    LayoutCovers(t, m);
  }

  /** What a well-formed template for `n` points gives the first pass:
      the regions `1 .. n - 1` feed each other, the first of them reads the
      one-point cells from `numDeterminants - n` up, and the last stores
      down to cell zero. */
  ghost predicate Feeding(t: RecursionTemplate, n: nat)
  {
    && 1 <= n < |t.offsets| && SlotLimit(t, n) == 0
    && SlotLimit(t, 1) == t.numDeterminants - n
    && forall m :: 1 <= m < n ==> RegionFeeds(t, m)
  }

  /** When the regions feed each other down to cell zero, every cell below
      the second region's slot limit is stored into by one of them. */
  lemma FeedsCover(t: RecursionTemplate, n: nat)
    requires Feeding(t, n)
    ensures forall x: nat :: x < SlotLimit(t, 1) ==> Covered(t, n, x)
  {
    forall x: nat | x < SlotLimit(t, 1)
      ensures Covered(t, n, x)
    {
      var m := FindRegion(t, 1, n, x);
      assert RegionFeeds(t, m);
      assert RegionWrites(t, m, x);
    }
  }

  /** A cell below `SlotLimit(t, lo)` and from `SlotLimit(t, hi)` up lies in
      the slot range of one of the regions `lo .. hi - 1`. */
  lemma {:induction false} FindRegion(t: RecursionTemplate, lo: nat, hi: nat, x: int) returns (m: nat)
    requires lo < hi < |t.offsets| && SlotLimit(t, hi) <= x < SlotLimit(t, lo)
    ensures lo <= m < hi && SlotLimit(t, m + 1) <= x < SlotLimit(t, m)
    decreases hi - lo
  {
    if SlotLimit(t, lo + 1) <= x {
      m := lo;
    } else {
      m := FindRegion(t, lo + 1, hi, x);
    }
  }

  /* ---------------------------------------------------------------------- */
  /* The first pass.                                                          */
  /* ---------------------------------------------------------------------- */

  /** The template of a simplex keeping the invariant is well-formed, so
      its regions feed each other. */
  lemma ValidFeeding(s: JohnsonSimplex)
    requires Valid(s) && |s.points| >= 2
    ensures Ready(s) && Feeding(Template(s), |s.points|)
  {
    ValidReady(s);
    TableSlotsGrow(s.recursion, |s.recursion| - 1, |s.points| - 1, s.dim);
    TemplateFeeds(Template(s), |s.points| - 1);
  }

  /** The regions from two points up store into every cell below the
      one-point cells, so after the first pass every cell holds a value. */
  lemma FirstPassCovers(s: JohnsonSimplex)
    requires Valid(s) && |s.points| >= 2
    ensures Ready(s)
    ensures forall x: nat :: x < Template(s).numDeterminants - |s.points| ==> Covered(Template(s), |s.points|, x)
    ensures forall x :: 0 <= x < |s.determinants| ==> FirstPass(s).0[x].Val?
  {
    ValidFeeding(s);
    ReadyCovers(s);
  }

  lemma ReadyCovers(s: JohnsonSimplex)
    requires Ready(s) && Feeding(Template(s), |s.points|)
    ensures forall x: nat :: x < Template(s).numDeterminants - |s.points| ==> Covered(Template(s), |s.points|, x)
    ensures forall x :: 0 <= x < |s.determinants| ==> FirstPass(s).0[x].Val?
  {
    var t := Template(s);
    var n := |s.points|;
    FeedsCover(t, n);
    forall x | 0 <= x < |s.determinants|
      ensures FirstPass(s).0[x].Val?
    {
      if x < t.numDeterminants - n {
        assert Covered(t, n, x);
      }
    }
  }

  /** The first pass does not read what the buffer held: over any buffer of
      the same size it fills in the same cells. */
  lemma FirstPassFresh(s: JohnsonSimplex, d: seq<Det>)
    requires Valid(s) && |s.points| >= 2 && |d| == |s.determinants|
    ensures Ready(s) && Ready(s.(determinants := d))
    ensures FirstPass(s.(determinants := d)) == FirstPass(s)
  {
    ValidFeeding(s);
    ReadyFresh(s, d);
  }

  lemma ReadyFresh(s: JohnsonSimplex, d: seq<Det>)
    requires Ready(s) && Feeding(Template(s), |s.points|) && |d| == |s.determinants|
    ensures Ready(s.(determinants := d))
    ensures FirstPass(s.(determinants := d)) == FirstPass(s)
  {
    var n := |s.points|;
    var t := Template(s);
    var d0 := SetOnes(s.determinants, t.numDeterminants - n);
    var d0' := SetOnes(d, t.numDeterminants - n);
    assert SameFrom(d0, d0', SlotLimit(t, 1));
    RegionsAgree(t, s.points, d0, d0', s.dim, 2, 1, t.offsets[1]);
    var r := ComputeRegions(t, s.points, d0, s.dim, 2, 1, t.offsets[1]);
    var r' := ComputeRegions(t, s.points, d0', s.dim, 2, 1, t.offsets[1]);
    assert r.0 == r'.0;
  }

  /* ---------------------------------------------------------------------- */
  /* Projecting twice.                                                        */
  /* ---------------------------------------------------------------------- */

  /** Both passes, too, do not read what the buffer held. */
  lemma PassesFresh(s: JohnsonSimplex, d: seq<Det>)
    requires Valid(s) && |s.points| >= 2 && |d| == |s.determinants|
    ensures Ready(s) && Ready(s.(determinants := d))
    ensures Passes(s.(determinants := d)) == Passes(s)
  {
    FirstPassFresh(s, d);
  }

  /** `project_origin()` twice gives the same point and the same simplex as
      once: the buffer it leaves is the one it would fill anyway. */
  lemma ProjectOriginIdempotent(s: JohnsonSimplex)
    requires Valid(s) && |s.points| >= 1
    ensures ProjectOrigin(s).Success?
    ensures ProjectOrigin(ProjectOrigin(s).value.1) == ProjectOrigin(s)
    ensures ProjectOrigin(s).value.1.points == s.points
  {
    if |s.points| >= 2 {
      ValidReady(s);
      var (dets, f) := Passes(s);
      var a := Answer(s, false, dets, f);
      assert ProjectOrigin(s) == Success(a);
      var s1 := s.(determinants := dets);
      assert a.1 == s1;
      PassesFresh(s, dets);
      ValidReady(s1);
      assert ProjectOrigin(s1) == Success(Answer(s1, false, dets, f));
      assert Answer(s1, false, dets, f) == a;
    }
  }
}
