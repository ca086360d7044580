/**
  The recursion template of the Johnson sub-algorithm: flat index arrays that
  tell the projection which determinant of which sub-simplex to compute from
  which smaller ones, and in what order.

  The arrays are split into regions by `offsets`: region `m` (for `m` in
  `0..k`) holds the blocks of the sub-simplices with `m + 1` points, each
  block being `m + 1` consecutive entries.  In `permutationList` a block lists
  the vertex whose removal leads to the sub-simplex first, then the vertices
  of that sub-simplex; in `subDeterminants` the same places hold the
  determinant slot of the block's own sub-simplex, then the slots of its
  children (one vertex fewer).
 */
module RecursionTemplates {

  datatype RecursionTemplate = RecursionTemplate(
    permutationList: seq<nat>,
    offsets: seq<nat>,
    subDeterminants: seq<nat>,
    numDeterminants: nat,
    numLeaves: nat)

  /** Number of blocks of region `m`. */
  function BlockCount(t: RecursionTemplate, m: nat): int
    requires m + 1 < |t.offsets|
  {
    (t.offsets[m + 1] - t.offsets[m]) / (m + 1)
  }

  /** One past the highest determinant slot owned by region `m`; region `m`
      owns the slots `SlotLimit(t, m + 1) .. SlotLimit(t, m)`. */
  function SlotLimit(t: RecursionTemplate, m: nat): int
    requires m < |t.offsets|
  {
    if m == 0 then t.numDeterminants else SlotLimit(t, m - 1) - BlockCount(t, m - 1)
  }

  /** Place of the first entry of block `b` of region `m`. */
  function BlockStart(t: RecursionTemplate, m: nat, b: nat): int
    requires m < |t.offsets|
  {
    t.offsets[m] + b * (m + 1)
  }

  /** Block `b` of region `m` writes the slot `SlotLimit(t, m) - 1 - b`, and
      reads the slots of its children, which all belong to region `m - 1`:
      bottom-up evaluation region by region computes every child before its
      parent. */
  ghost predicate BlockSlots(t: RecursionTemplate, m: nat, b: nat)
    requires 1 <= m < |t.offsets|
  {
    var p := BlockStart(t, m, b);
    && 0 <= p && p + m < |t.subDeterminants|
    && t.subDeterminants[p] == SlotLimit(t, m) - 1 - b
    && forall q :: p + 1 <= q <= p + m ==>
         SlotLimit(t, m) <= t.subDeterminants[q] < SlotLimit(t, m - 1)
  }

  /** The shape of a template for simplices of up to `k + 1` points. */
  ghost predicate WellFormed(t: RecursionTemplate, k: nat)
  {
    && |t.offsets| == k + 2
    && t.offsets[0] == 0
    && t.offsets[1] == k + 1
    && |t.permutationList| == t.offsets[k + 1]
    && |t.subDeterminants| == t.offsets[k + 1]
    && (forall m :: 0 <= m <= k ==> t.offsets[m] <= t.offsets[m + 1])
    && (forall m :: 0 <= m <= k ==>
          && BlockCount(t, m) * (m + 1) == t.offsets[m + 1] - t.offsets[m]
          && BlockCount(t, m) % (m + 1) == 0)
    && (forall p :: 0 <= p < |t.permutationList| ==> t.permutationList[p] <= k)
    && k + 1 <= t.numDeterminants
    && (forall p :: 0 <= p < |t.subDeterminants| ==> t.subDeterminants[p] < t.numDeterminants)
    && SlotLimit(t, k + 1) == 0
    && (forall m, b :: 1 <= m <= k && 0 <= b < BlockCount(t, m) ==> BlockSlots(t, m, b))
  }
}
