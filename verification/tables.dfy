/**
  The builder of one recursion template, `make_permutation_list(k)`, from
  the first level to the finished arrays, and the table of templates for
  every dimension up to a bound, `RecursionTemplate::new`.

  The builder runs the levels (see `PermutationLists`), pushes the slot of
  every one-vertex key, turns the level ends into offsets counted from the
  back, reads points and sub-determinants back to front and drops the full
  block that seeded the first level.
 */
module TemplateTables {
  import opened Sequences
  import opened SubsimplexKeys
  import opened TemplateBuilder
  import opened TemplateLevels
  import opened RecursionTemplates
  import opened PermutationLists
  import opened TemplateReadBack
  import opened KeyCounts

  /** Every entry of `s` subtracted from `n`. */
  function FromEnd(n: nat, s: seq<nat>): (r: seq<nat>)
    requires forall i :: 0 <= i < |s| ==> s[i] <= n
    ensures |r| == |s|
    ensures forall i :: 0 <= i < |s| ==> r[i] + s[i] == n
  {
    seq(|s|, i requires 0 <= i < |s| => n - s[i])
  }

  /** After the last level and the leaves, the forward arrays have the shape
      the read-back proof starts from. */
  lemma ForwardIntro(k: nat, lnp: nat, begin: nat, end: nat, offsets: seq<nat>, b: Build,
                     order: seq<seq<nat>>, S: seq<nat>, G: seq<seq<seq<seq<nat>>>>,
                     logs: seq<seq<seq<nat>>>, sd: seq<nat>)
    requires Outer(k, k + 1, lnp, begin, end, offsets, b, order, S, G, logs)
    requires |sd| == |b.sd| + k + 1 && sd[..|b.sd|] == b.sd
    requires forall u :: 0 <= u <= k ==> Leaf(k, u) in b.memo && sd[|b.sd| + u] == b.memo[Leaf(k, u)]
    ensures Forward(k, order, S, G, offsets, logs, b.memo, b.pts, sd)
  {
    assert LengthDone(b.memo, k, 1);
    LeafCount(k, order, S, G, offsets, b.memo);
    LevelSize(k, k + 1, order, S, G, offsets, k);
    assert |b.sd| == offsets[k];
    forall j | 0 <= j < k
      ensures LevelLog(k, j, sd, order, S, offsets, logs[j])
    {
      assert LevelLog(k, j, b.sd, order, S, offsets, logs[j]);
      assert order[..|order|] == order && S[..|S|] == S && offsets[..|offsets|] == offsets;
      LevelLogGrow(k, j, b.sd, order, S, offsets, logs[j], sd, order, S, offsets);
    }
  }

  /** The offsets counted from the back: `0` put in front, the whole
      reversed, the last entry dropped. */
  function BackOffsets(k: nat, offsets: seq<nat>): (offs: seq<nat>)
    requires |offsets| == k + 2
    ensures |offs| == k + 2
    ensures forall m :: 0 <= m <= k + 1 ==> offs[m] == offsets[k + 1 - m]
  {
    Reverse([0] + offsets)[..k + 2]
  }

  /** The arrays of the template: the offsets from the back, and points and
      sub-determinants back to front without the full block's `k + 2`
      entries; the slot count is one past the slot of the last entry pushed. */
  function Assemble(k: nat, offsets: seq<nat>, pts: seq<nat>, sd: seq<nat>): (t: RecursionTemplate)
    requires |offsets| == k + 2 && |sd| == |pts| && k + 2 < |pts|
    requires forall j :: 0 <= j <= k + 1 ==> offsets[j] <= |pts|
    ensures ReadBack(k, offsets, pts, sd, t)
    ensures t.numDeterminants == sd[|sd| - 1] + 1
    ensures t.numLeaves + offsets[k + 1] == |pts|
  {
    var maxNumPoints := k + 1;
    var numPts := |pts|;
    var revOffsets := FromEnd(numPts, BackOffsets(k, offsets));
    var permutationList := Truncate(Reverse(pts), numPts - maxNumPoints - 1);
    var subDeterminants := Truncate(Reverse(sd), numPts - maxNumPoints - 1);
    RecursionTemplate(permutationList, revOffsets, subDeterminants, subDeterminants[0] + 1, revOffsets[0])
  }

  /** The levels of `make_permutation_list(k)`: `k + 1` rounds, each removing
      one more vertex. */
  method RunLevels(k: nat) returns (b: Build, offsets: seq<nat>, begin: nat, end: nat,
                                   ghost order: seq<seq<nat>>, ghost S: seq<nat>,
                                   ghost G: seq<seq<seq<seq<nat>>>>, ghost logs: seq<seq<seq<nat>>>)
    ensures Outer(k, k + 1, 0, begin, end, offsets, b, order, S, G, logs)
  {
    var maxNumPoints: nat := k + 1;
    b := Build(FullBlock(k), [], map[], 0, 0);
    offsets := [maxNumPoints + 1];
    begin, end := 0, maxNumPoints + 1;
    var lastNumPoints: nat := maxNumPoints;
    order, S, G, logs := [], [0], [], [];
    assert Flatten(order) == [];
    var i := 0;
    while i < k + 1
      invariant i <= k + 1
      invariant Outer(k, i, lastNumPoints, begin, end, offsets, b, order, S, G, logs)
    {
      var b0 := b.(numAdded := 0);
      ghost var blocks := LevelBlocks(k, i, order, S);
      LevelPoints(k, i, lastNumPoints, begin, end, offsets, b, order, S, G, logs);
      LevelReady(k, i, lastNumPoints, begin, end, offsets, b, order, S, G, logs);
      var b';
      ghost var order', groups, newSdb;
      b', order', groups, newSdb := ProcessLevel(k, i, lastNumPoints, begin, end, b0, order, blocks);
      var end' := end + b'.numAdded;
      var offsets' := Snoc<nat>(offsets, end');
      ghost var S', G' := Snoc<nat>(S, |order'|), Snoc(G, groups);
      logs := LevelNext(k, i, lastNumPoints, begin, end, offsets, b, order, S, G, logs,
                        b0, b', order', groups, newSdb, i + 1, lastNumPoints - 1, end', offsets', S', G');
      i, lastNumPoints, begin, end := i + 1, lastNumPoints - 1, end, end';
      b, order, offsets, S, G := b', order', offsets', S', G';
    }
  }

  /** The slots of the one-vertex keys, vertex `k` first, appended to `sd0`. */
  method PushLeaves(k: nat, memo: Memo, sd0: seq<nat>) returns (sd: seq<nat>)
    requires LengthDone(memo, k, 1)
    ensures |sd| == |sd0| + k + 1 && sd[..|sd0|] == sd0
    ensures forall u :: 0 <= u <= k ==> Leaf(k, u) in memo && sd[|sd0| + u] == memo[Leaf(k, u)]
    ensures Leaf(k, k) in memo && sd[|sd| - 1] == memo[Leaf(k, k)]
  {
    sd := sd0;
    var u := 0;
    while u < k + 1
      invariant u <= k + 1 && |sd| == |sd0| + u && sd[..|sd0|] == sd0
      invariant forall u' :: 0 <= u' < u ==> Leaf(k, u') in memo && sd[|sd0| + u'] == memo[Leaf(k, u')]
    {
      assert IsKey(Leaf(k, u), k) by {
        assert Front(Leaf(k, u)) == [];
      }
      sd := sd + [memo[Leaf(k, u)]];
      u := u + 1;
    }
  }

  /** `make_permutation_list(k)`: the recursion template for simplices of up
      to `k + 1` points, with one determinant slot per key over `0..k`. */
  method MakePermutationList(k: nat) returns (t: RecursionTemplate)
    ensures WellFormed(t, k)
    ensures t.numDeterminants == |AllKeys(k)|
    ensures t.numLeaves == 0
  {
    var b, offsets, begin, end, order, S, G, logs := RunLevels(k);
    assert LengthDone(b.memo, k, 1);
    var sd := PushLeaves(k, b.memo, b.sd);
    ForwardIntro(k, 0, begin, end, offsets, b, order, S, G, logs, sd);
    forall j | 0 <= j <= k + 1
      ensures k + 2 <= offsets[j] <= |b.pts|
    {
      OffsetsFloor(k, k + 1, order, S, G, offsets, j);
      OffsetsCeil(k, k + 1, order, S, G, offsets, j);
    }
    t := Assemble(k, offsets, b.pts, sd);
    Finish(k, order, S, G, offsets, logs, b.memo, b.pts, sd, t);
  }

  /** The template read back from the finished forward arrays is well formed,
      with one slot per key and no leaves left over. */
  lemma Finish(k: nat, order: seq<seq<nat>>, S: seq<nat>, G: seq<seq<seq<seq<nat>>>>, offsets: seq<nat>,
               logs: seq<seq<seq<nat>>>, memo: Memo, pts: seq<nat>, sd: seq<nat>, t: RecursionTemplate)
    requires Forward(k, order, S, G, offsets, logs, memo, pts, sd) && ReadBack(k, offsets, pts, sd, t)
    requires |sd| >= 1 && Leaf(k, k) in memo && sd[|sd| - 1] == memo[Leaf(k, k)]
    requires t.numDeterminants == sd[|sd| - 1] + 1 && t.numLeaves + offsets[k + 1] == |pts|
    ensures WellFormed(t, k)
    ensures t.numDeterminants == |AllKeys(k)|
    ensures t.numLeaves == 0
  {
    assert LengthDone(memo, k, 1);
    LastLeaf(k, order, S, G, offsets, memo);
    ReadBackWellFormed(k, order, S, G, offsets, logs, memo, pts, sd, t);
    SlotsPerKey(k, order, S, G, offsets, memo);
  }

  /** A table of templates for every dimension `0..dim`, entry `d` being the
      template `make_permutation_list(d)` builds. */
  ghost predicate TemplateTable(r: seq<RecursionTemplate>, dim: nat)
  {
    && |r| == dim + 1
    && forall d :: 0 <= d <= dim ==> WellFormed(r[d], d) && r[d].numDeterminants == |AllKeys(d)|
  }

  /** `RecursionTemplate::new(dim)`: one template per dimension `0..dim`. */
  method NewTemplates(dim: nat) returns (r: seq<RecursionTemplate>)
    ensures TemplateTable(r, dim)
  {
    r := [];
    var d := 0;
    while d < dim + 1
      invariant d <= dim + 1 && |r| == d
      invariant forall d' :: 0 <= d' < d ==> WellFormed(r[d'], d') && r[d'].numDeterminants == |AllKeys(d')|
    {
      var t := MakePermutationList(d);
      assert forall d' :: 0 <= d' < d ==> (r + [t])[d'] == r[d'];
      r := r + [t];
      d := d + 1;
    }
  }

  /** A template of a lower dimension needs no more determinant slots than
      one of a higher dimension: a buffer sized for dimension `d'` serves
      every simplex of at most `d' + 1` points. */
  lemma TableSlotsGrow(r: seq<RecursionTemplate>, dim: nat, d: nat, d': nat)
    requires TemplateTable(r, dim) && d <= d' <= dim
    ensures d + 1 <= r[d].numDeterminants <= r[d'].numDeterminants
  {
    AllKeysGrow(d, d');
  }
}
