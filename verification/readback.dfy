/**
  The end of `make_permutation_list`: the arrays built front to back are read
  back to front, and the result is a well-formed recursion template.

  Forward, level `j` made the keys `order[S[j]..S[j + 1]]`, each of
  `k + 1 - j` entries, at `offsets[j]..offsets[j + 1]` in the points, and the
  next level pushed one block of sub-determinant slots per key at the same
  places.  The last level's keys are the `k + 1` one-vertex keys, whose
  slots are pushed last.  Read back to front, level `j` becomes region
  `k - j`: a key's block ends with its own slot, so reversed it starts with
  it, followed by the slots of its children, which were made by level
  `j + 1` and therefore sit in region `k - j - 1`.
 */
module TemplateReadBack {
  import opened Sequences
  import opened SubsimplexKeys
  import opened TemplateBuilder
  import opened TemplateLevels
  import opened RecursionTemplates
  import opened PermutationLists
  import opened KeyCounts

  /** The one-vertex key `[k - u]`, the `u`-th leaf looked up. */
  function Leaf(k: nat, u: nat): seq<nat>
    requires u <= k
  {
    [k - u]
  }

  /** What the builder leaves behind once the leaves are pushed. */
  ghost predicate Forward(k: nat, order: seq<seq<nat>>, S: seq<nat>, G: seq<seq<seq<seq<nat>>>>,
                          offsets: seq<nat>, logs: seq<seq<seq<nat>>>, memo: Memo, pts: seq<nat>, sd: seq<nat>)
  {
    && Layout(k, k + 1, order, S, G, offsets)
    && MemoMatches(memo, order) && (forall s :: 0 <= s < |order| ==> IsKey(order[s], k))
    && DoneFrom(memo, k, 1) && ZeroLast(order)
    && pts == FullBlock(k) + Flatten(order) && |pts| == offsets[k + 1] && |sd| == |pts|
    && offsets[k] + k + 1 == |sd|
    && |logs| == k && (forall j :: 0 <= j < k ==> LevelLog(k, j, sd, order, S, offsets, logs[j]))
    && (forall u :: 0 <= u <= k ==> Leaf(k, u) in memo && sd[offsets[k] + u] == memo[Leaf(k, u)])
  }

  /** `t` holds the forward arrays back to front, without the full block,
      and its offsets are the forward offsets counted from the end. */
  ghost predicate ReadBack(k: nat, offsets: seq<nat>, pts: seq<nat>, sd: seq<nat>, t: RecursionTemplate)
    requires |offsets| == k + 2
  {
    && |sd| == |pts| && k + 2 <= |pts|
    && |t.offsets| == k + 2
    && (forall m :: 0 <= m <= k + 1 ==> offsets[k + 1 - m] <= |pts| && t.offsets[m] == |pts| - offsets[k + 1 - m])
    && |t.permutationList| == |pts| - (k + 2) && |t.subDeterminants| == |pts| - (k + 2)
    && (forall p :: 0 <= p < |pts| - (k + 2) ==>
          t.permutationList[p] == pts[|pts| - 1 - p] && t.subDeterminants[p] == sd[|pts| - 1 - p])
  }

  /* ---------------------------------------------------------------------- */
  /* Sizes of the levels.                                                     */
  /* ---------------------------------------------------------------------- */

  /** Level `j` made a multiple of `k + 1 - j` keys (one group per new
      sub-simplex), and their entries fill `offsets[j]..offsets[j + 1]`. */
  lemma LevelSize(k: nat, i: nat, order: seq<seq<nat>>, S: seq<nat>, G: seq<seq<seq<seq<nat>>>>,
                  offsets: seq<nat>, j: nat)
    requires Layout(k, i, order, S, G, offsets) && j < i
    ensures S[j] <= S[j + 1] <= |order| && offsets[j] <= offsets[j + 1]
    ensures (S[j + 1] - S[j]) as int % (k + 1 - j) == 0
    ensures offsets[j + 1] as int - offsets[j] == (S[j + 1] - S[j]) as int * (k + 1 - j)
  {
    assert S[j + 1] <= S[i];
    assert LevelKeys(k, j, order, S, G[j], offsets);
    var L := k + 1 - j;
    var keys := order[S[j]..S[j + 1]];
    assert Uniform(G[j], 0, |G[j]|, L);
    FlattenUniformLength(G[j], L);
    assert Uniform(keys, 0, |keys|, L) by {
      forall q | 0 <= q < |keys|
        ensures |keys[q]| == L
      {
        assert keys[q] == order[S[j] + q];
      }
    }
    FlattenUniformLength(keys, L);
    MulDiv(|G[j]|, L);
  }

  /** The offsets never drop below the full block's end. */
  lemma {:induction false} OffsetsFloor(k: nat, i: nat, order: seq<seq<nat>>, S: seq<nat>,
                                        G: seq<seq<seq<seq<nat>>>>, offsets: seq<nat>, j: nat)
    requires Layout(k, i, order, S, G, offsets) && j <= i
    ensures k + 2 <= offsets[j]
    decreases j
  {
    if j > 0 {
      OffsetsFloor(k, i, order, S, G, offsets, j - 1);
      assert S[j] <= S[i];
      assert LevelKeys(k, j - 1, order, S, G[j - 1], offsets);
    }
  }

  /** The vertices of the keys of the last level, in slot order. */
  lemma LeafVertices(k: nat, order: seq<seq<nat>>, S: seq<nat>, G: seq<seq<seq<seq<nat>>>>,
                     offsets: seq<nat>, memo: Memo)
    returns (v: seq<nat>)
    requires Layout(k, k + 1, order, S, G, offsets) && MemoMatches(memo, order)
    requires forall s :: 0 <= s < |order| ==> IsKey(order[s], k)
    ensures S[k] <= S[k + 1] && |v| == S[k + 1] - S[k]
    ensures forall c :: 0 <= c < |v| ==> order[S[k] + c] == [v[c]]
    ensures forall c1, c2 :: 0 <= c1 < c2 < |v| ==> v[c1] != v[c2]
  {
    LevelSize(k, k + 1, order, S, G, offsets, k);
    var a, n := S[k], S[k + 1] - S[k];
    v := seq(n, c requires 0 <= c < n => order[a + c][0]);
    forall c | 0 <= c < n
      ensures order[a + c] == [v[c]]
    {
      LevelLength(k, k + 1, order, S, G, offsets, k, a + c);
      assert order[a + c] == [order[a + c][0]];
    }
    forall c1, c2 | 0 <= c1 < c2 < n
      ensures v[c1] != v[c2]
    {
      assert memo[order[a + c1]] == a + c1 && memo[order[a + c2]] == a + c2;
      assert order[a + c1] == [v[c1]] && order[a + c2] == [v[c2]];
    }
  }

  /** Those vertices are exactly `0..k`. */
  lemma LeafVerticesRange(k: nat, order: seq<seq<nat>>, S: seq<nat>, G: seq<seq<seq<seq<nat>>>>,
                          offsets: seq<nat>, memo: Memo, v: seq<nat>, r: seq<nat>)
    requires Layout(k, k + 1, order, S, G, offsets)
    requires MemoMatches(memo, order) && LengthDone(memo, k, 1)
    requires forall s :: 0 <= s < |order| ==> IsKey(order[s], k)
    requires S[k] <= S[k + 1] && |v| == S[k + 1] - S[k]
    requires forall c :: 0 <= c < |v| ==> order[S[k] + c] == [v[c]]
    requires r == Range(k + 1)
    ensures (set x: nat | x in v) == (set x: nat | x in r)
  {
    var a := S[k];
    forall x | x in v
      ensures x in Range(k + 1)
    {
      var c :| 0 <= c < |v| && v[c] == x;
      assert x in order[a + c];
      assert IsKey(order[a + c], k);
      assert Range(k + 1)[x] == x;
    }
    forall x | x in Range(k + 1)
      ensures x in v
    {
      assert IsKey([x], k) by {
        assert Front([x]) == [];
      }
      LengthDoneAt(memo, k, 1, [x]);
      var s := memo[[x]];
      SlotRange(k, k + 1, order, S, G, offsets, s, k);
      assert order[a + (s - a)] == [v[s - a]];
    }
  }

  /** Offsets only grow. */
  lemma {:induction false} OffsetsCeil(k: nat, i: nat, order: seq<seq<nat>>, S: seq<nat>,
                                       G: seq<seq<seq<seq<nat>>>>, offsets: seq<nat>, j: nat)
    requires Layout(k, i, order, S, G, offsets) && j <= i
    ensures offsets[j] <= offsets[i]
    decreases i - j
  {
    if j < i {
      OffsetsCeil(k, i, order, S, G, offsets, j + 1);
      LevelSize(k, i, order, S, G, offsets, j);
    }
  }

  /** The last level made exactly the `k + 1` one-vertex keys. */
  lemma LeafCount(k: nat, order: seq<seq<nat>>, S: seq<nat>, G: seq<seq<seq<seq<nat>>>>,
                  offsets: seq<nat>, memo: Memo)
    requires Layout(k, k + 1, order, S, G, offsets)
    requires MemoMatches(memo, order) && LengthDone(memo, k, 1)
    requires forall s :: 0 <= s < |order| ==> IsKey(order[s], k)
    ensures S[k] + k + 1 == S[k + 1]
  {
    var v := LeafVertices(k, order, S, G, offsets, memo);
    DistinctCard(v);
    LeafVerticesRange(k, order, S, G, offsets, memo, v, Range(k + 1));
    RangeCard(k + 1);
  }

  /** The vertex `0` alone is the last key made. */
  lemma LastLeaf(k: nat, order: seq<seq<nat>>, S: seq<nat>, G: seq<seq<seq<seq<nat>>>>,
                 offsets: seq<nat>, memo: Memo)
    requires Layout(k, k + 1, order, S, G, offsets)
    requires MemoMatches(memo, order) && LengthDone(memo, k, 1) && ZeroLast(order)
    requires forall s :: 0 <= s < |order| ==> IsKey(order[s], k)
    ensures Leaf(k, k) in memo && memo[Leaf(k, k)] + 1 == |order|
  {
    LeafCount(k, order, S, G, offsets, memo);
    var zero := Leaf(k, k);
    assert zero == [0];
    assert IsKey(zero, k) by {
      assert Front(zero) == [];
    }
    LengthDoneAt(memo, k, 1, zero);
    var s0 := memo[zero];
    SlotRange(k, k + 1, order, S, G, offsets, s0, k);
    var last := |order| - 1;
    if s0 < last {
      LevelLength(k, k + 1, order, S, G, offsets, k, last);
      assert memo[order[last]] == last;
      assert order[last] == [order[last][0]] && order[last] != zero;
      assert !HasZero(order[last]) && HasZero(order[s0]);
      assert false;
    }
  }

  /* ---------------------------------------------------------------------- */
  /* Regions and slots of the template.                                       */
  /* ---------------------------------------------------------------------- */

  /** Region `m` holds level `k - m`: as many blocks as that level made keys,
      each of `m + 1` entries. */
  lemma BlockCounts(k: nat, order: seq<seq<nat>>, S: seq<nat>, G: seq<seq<seq<seq<nat>>>>,
                    offsets: seq<nat>, pts: seq<nat>, sd: seq<nat>, t: RecursionTemplate, m: nat)
    requires Layout(k, k + 1, order, S, G, offsets) && ReadBack(k, offsets, pts, sd, t) && m <= k
    ensures t.offsets[m] <= t.offsets[m + 1]
    ensures BlockCount(t, m) + S[k - m] == S[k + 1 - m]
    ensures BlockCount(t, m) * (m + 1) == t.offsets[m + 1] - t.offsets[m]
    ensures BlockCount(t, m) % (m + 1) == 0
  {
    var j := k - m;
    LevelSize(k, k + 1, order, S, G, offsets, j);
    assert t.offsets[m + 1] == |pts| - offsets[j];
    assert t.offsets[m] == |pts| - offsets[j + 1];
    MulDiv(S[j + 1] - S[j], m + 1);
  }

  /** Region `m` owns the slots of level `k - m`. */
  lemma {:induction false} SlotLimits(t: RecursionTemplate, k: nat, S: seq<nat>, m: nat)
    requires |t.offsets| == k + 2 && |S| == k + 2 && m <= k + 1
    requires t.numDeterminants == S[k + 1]
    requires forall m' :: 0 <= m' <= k ==> BlockCount(t, m') + S[k - m'] == S[k + 1 - m']
    ensures SlotLimit(t, m) == S[k + 1 - m]
    decreases m
  {
    if m > 0 {
      SlotLimits(t, k, S, m - 1);
      assert BlockCount(t, m - 1) + S[k + 1 - m] == S[k + 2 - m];
    }
  }

  /** Entry `u` of the block of key `c` of level `j`. */
  lemma LogEntry(k: nat, j: nat, sd: seq<nat>, order: seq<seq<nat>>, S: seq<nat>, offsets: seq<nat>,
                 log: seq<seq<nat>>, L: nat, c: nat, u: nat)
    requires j + 1 < |S| && j + 1 < |offsets|
    requires LevelLog(k, j, sd, order, S, offsets, log)
    requires forall q :: S[j] <= q < S[j + 1] ==> |order[q]| == L
    requires c < |log| && u < L
    ensures |log[c]| == L
    ensures offsets[j] + c * L + u < offsets[j + 1]
    ensures sd[offsets[j] + c * L + u] == log[c][u]
  {
    assert Uniform(log, 0, |log|, L) by {
      forall c' | 0 <= c' < |log|
        ensures |log[c']| == L
      {
        assert SdBlock(log[c'], order[S[j] + c'], S[j] + c', order);
      }
    }
    FlattenUniformIndex(log, L, c, u);
    var x := offsets[j] + c * L + u;
    assert sd[x] == sd[offsets[j]..offsets[j + 1]][c * L + u];
  }

  /** Every entry of a key's block names a slot that exists. */
  lemma SdBlockBound(blk: seq<nat>, key: seq<nat>, slot: nat, order: seq<seq<nat>>, x: nat)
    requires SdBlock(blk, key, slot, order) && slot < |order| && x in blk
    ensures x < |order|
  {
    var slots := blk[..|blk| - 1];
    assert blk == slots + [blk[|blk| - 1]];
    if x in slots {
      var u :| 0 <= u < |slots| && slots[u] == x;
    }
  }

  /** Every sub-determinant entry of the template names a slot. */
  lemma EntryBound(k: nat, order: seq<seq<nat>>, S: seq<nat>, G: seq<seq<seq<seq<nat>>>>, offsets: seq<nat>,
                   logs: seq<seq<seq<nat>>>, memo: Memo, pts: seq<nat>, sd: seq<nat>, t: RecursionTemplate, p: nat)
    requires Forward(k, order, S, G, offsets, logs, memo, pts, sd) && ReadBack(k, offsets, pts, sd, t)
    requires p < |t.subDeterminants|
    ensures t.subDeterminants[p] < |order|
  {
    var N := |pts|;
    var q := N - 1 - p;
    assert t.subDeterminants[p] == sd[q];
    if q >= offsets[k] {
      var u := q - offsets[k];
      assert sd[offsets[k] + u] == memo[Leaf(k, u)];
    } else {
      var j := LevelOf(offsets[..k + 1], k, q);
      var log := logs[j];
      assert LevelLog(k, j, sd, order, S, offsets, log);
      var x := sd[q];
      assert x == Flatten(log)[q - offsets[j]] by {
        assert sd[offsets[j]..offsets[j + 1]][q - offsets[j]] == sd[q];
      }
      FlattenMember(log, x);
      var c :| 0 <= c < |log| && x in log[c];
      SdBlockBound(log[c], order[S[j] + c], S[j] + c, order, x);
    }
  }

  /** The slots a key's block names after its own: its children, of one
      vertex fewer, made by the next level. */
  lemma ChildSlot(k: nat, order: seq<seq<nat>>, S: seq<nat>, G: seq<seq<seq<seq<nat>>>>, offsets: seq<nat>,
                  j: nat, blk: seq<nat>, key: seq<nat>, slot: nat, u: nat)
    requires Layout(k, k + 1, order, S, G, offsets) && j < k
    requires SdBlock(blk, key, slot, order) && IsKey(key, k) && |key| == k + 1 - j
    requires u + 1 < |key|
    ensures S[j + 1] <= blk[u] < S[j + 2]
  {
    var front := Front(key);
    assert blk[u] == blk[..|blk| - 1][u];
    assert order[blk[u]] == Children(front)[u] == SubKey(front, u);
    SubKeyMembers(front, u);
    SlotRange(k, k + 1, order, S, G, offsets, blk[u], j + 1);
  }

  /** Where the block of key `c = n - 1 - b` of a level of `n` keys of `L`
      entries, starting at `e0`, ends up once read back from `N`. */
  lemma BlockArith(N: int, e0: int, n: nat, L: nat, b: nat, c: nat, p: int) returns (base: int)
    requires b < n && c == n - 1 - b && p == N - (e0 + n * L) + b * L
    ensures base == e0 + c * L && e0 <= base
    ensures p == N - 1 - (base + L - 1)
  {
    base := e0 + c * L;
    assert n * L == c * L + L + b * L;
  }

  /** The block a level pushed for its key `c`, starting at `base`: the
      slots of the key's children, all made by the next level, then the
      key's own slot. */
  lemma KeyBlockSlots(k: nat, order: seq<seq<nat>>, S: seq<nat>, G: seq<seq<seq<seq<nat>>>>, offsets: seq<nat>,
                      sd: seq<nat>, log: seq<seq<nat>>, j: nat, c: nat, base: int)
    requires Layout(k, k + 1, order, S, G, offsets) && j < k
    requires forall s :: 0 <= s < |order| ==> IsKey(order[s], k)
    requires LevelLog(k, j, sd, order, S, offsets, log) && c < |log|
    requires base == offsets[j] + c * (k + 1 - j)
    ensures 0 <= base && base + (k - j) < |sd|
    ensures sd[base + (k - j)] == S[j] + c
    ensures forall x :: base <= x < base + (k - j) ==> S[j + 1] <= sd[x] < S[j + 2]
  {
    LevelLengths(k, k + 1, order, S, G, offsets, j);
    KeyOwnSlot(k, sd, order, S, offsets, log, j, c, base, k + 1 - j);
    KeyChildSlots(k, order, S, G, offsets, sd, log, j, c, base, k + 1 - j);
  }

  /** The last entry of that block is the key's own slot. */
  lemma KeyOwnSlot(k: nat, sd: seq<nat>, order: seq<seq<nat>>, S: seq<nat>, offsets: seq<nat>,
                   log: seq<seq<nat>>, j: nat, c: nat, base: int, L: nat)
    requires j + 1 < |S| && j + 1 < |offsets| && L >= 1
    requires LevelLog(k, j, sd, order, S, offsets, log) && c < |log|
    requires forall q :: S[j] <= q < S[j + 1] ==> |order[q]| == L
    requires base == offsets[j] + c * L
    ensures 0 <= base && base + L <= |sd| && sd[base + L - 1] == S[j] + c
  {
    LogEntry(k, j, sd, order, S, offsets, log, L, c, L - 1);
    assert SdBlock(log[c], order[S[j] + c], S[j] + c, order);
  }

  /** The entries of that block before the key's own slot are slots of the
      next level. */
  lemma KeyChildSlots(k: nat, order: seq<seq<nat>>, S: seq<nat>, G: seq<seq<seq<seq<nat>>>>, offsets: seq<nat>,
                      sd: seq<nat>, log: seq<seq<nat>>, j: nat, c: nat, base: int, L: nat)
    requires Layout(k, k + 1, order, S, G, offsets) && j < k && L == k + 1 - j
    requires forall s :: 0 <= s < |order| ==> IsKey(order[s], k)
    requires LevelLog(k, j, sd, order, S, offsets, log) && c < |log|
    requires forall q :: S[j] <= q < S[j + 1] ==> |order[q]| == L
    requires base == offsets[j] + c * L && 0 <= base && base + L <= |sd|
    ensures forall x :: base <= x < base + (k - j) ==> S[j + 1] <= sd[x] < S[j + 2]
  {
    var key := order[S[j] + c];
    assert SdBlock(log[c], key, S[j] + c, order);
    forall x | base <= x < base + (k - j)
      ensures S[j + 1] <= sd[x] < S[j + 2]
    {
      var u := x - base;
      LogEntry(k, j, sd, order, S, offsets, log, L, c, u);
      ChildSlot(k, order, S, G, offsets, j, log[c], key, S[j] + c, u);
    }
  }

  /** The forward block behind block `b` of region `m`: that of key
      `n - 1 - b` of level `k - m`, read back from `N`. */
  lemma ForwardBlock(k: nat, order: seq<seq<nat>>, S: seq<nat>, G: seq<seq<seq<seq<nat>>>>, offsets: seq<nat>,
                     sd: seq<nat>, log: seq<seq<nat>>, N: nat, m: nat, b: nat, p: int)
    returns (base: int)
    requires Layout(k, k + 1, order, S, G, offsets)
    requires forall s :: 0 <= s < |order| ==> IsKey(order[s], k)
    requires 1 <= m <= k && LevelLog(k, k - m, sd, order, S, offsets, log)
    requires S[k - m] + b < S[k + 1 - m]
    requires p == N - offsets[k + 1 - m] + b * (m + 1)
    ensures k + 2 <= base && base + m < |sd| && p == N - 1 - (base + m)
    ensures sd[base + m] + 1 + b == S[k + 1 - m]
    ensures forall x :: base <= x < base + m ==> S[k + 1 - m] <= sd[x] < S[k + 2 - m]
  {
    var j, L := k - m, m + 1;
    LevelSize(k, k + 1, order, S, G, offsets, j);
    var n := S[j + 1] - S[j];
    var c := n - 1 - b;
    OffsetsFloor(k, k + 1, order, S, G, offsets, j);
    assert offsets[j + 1] == offsets[j] + n * L;
    base := BlockArith(N, offsets[j], n, L, b, c, p);
    KeyBlockSlots(k, order, S, G, offsets, sd, log, j, c, base);
  }

  /** Block `b` of region `m` writes the slot of its key and reads those of
      its children, one region down. */
  lemma BlockSlotsAt(k: nat, order: seq<seq<nat>>, S: seq<nat>, G: seq<seq<seq<seq<nat>>>>, offsets: seq<nat>,
                     logs: seq<seq<seq<nat>>>, pts: seq<nat>, sd: seq<nat>, t: RecursionTemplate,
                     m: nat, b: nat)
    requires Layout(k, k + 1, order, S, G, offsets) && ReadBack(k, offsets, pts, sd, t)
    requires forall s :: 0 <= s < |order| ==> IsKey(order[s], k)
    requires 1 <= m <= k && |logs| == k && LevelLog(k, k - m, sd, order, S, offsets, logs[k - m])
    requires t.numDeterminants == |order|
    requires forall m' :: 0 <= m' <= k ==> BlockCount(t, m') + S[k - m'] == S[k + 1 - m']
    requires b < BlockCount(t, m)
    ensures BlockSlots(t, m, b)
  {
    var N := |pts|;
    SlotLimits(t, k, S, m);
    SlotLimits(t, k, S, m - 1);
    var p := BlockStart(t, m, b);
    var base := ForwardBlock(k, order, S, G, offsets, sd, logs[k - m], N, m, b, p);
    assert t.subDeterminants[p] == sd[base + m];
    forall q | p + 1 <= q <= p + m
      ensures SlotLimit(t, m) <= t.subDeterminants[q] < SlotLimit(t, m - 1)
    {
      assert t.subDeterminants[q] == sd[base + (m - (q - p))];
    }
  }

  /** Every vertex in the points is one of `0..k`. */
  lemma PointsBounded(k: nat, pts: seq<nat>, order: seq<seq<nat>>)
    requires pts == FullBlock(k) + Flatten(order)
    requires forall s :: 0 <= s < |order| ==> IsKey(order[s], k)
    ensures forall p :: 0 <= p < |pts| ==> pts[p] <= k
  {
    forall p | 0 <= p < |pts|
      ensures pts[p] <= k
    {
      var x := pts[p];
      assert |FullBlock(k)| == k + 2;
      if p < k + 2 {
        PrefixIndex(pts, FullBlock(k), Flatten(order), p);
      } else {
        AppendIndex(pts, FullBlock(k), Flatten(order), p);
        FlattenMember(order, x);
        var s :| 0 <= s < |order| && x in order[s];
        assert IsKey(order[s], k);
      }
    }
  }

  /** The forward arrays read back to front make a well-formed template. */
  lemma ReadBackWellFormed(k: nat, order: seq<seq<nat>>, S: seq<nat>, G: seq<seq<seq<seq<nat>>>>, offsets: seq<nat>,
                           logs: seq<seq<seq<nat>>>, memo: Memo, pts: seq<nat>, sd: seq<nat>, t: RecursionTemplate)
    requires Forward(k, order, S, G, offsets, logs, memo, pts, sd) && ReadBack(k, offsets, pts, sd, t)
    requires t.numDeterminants == |order|
    ensures WellFormed(t, k)
  {
    assert LengthDone(memo, k, 1);
    LeafCount(k, order, S, G, offsets, memo);
    LevelSize(k, k + 1, order, S, G, offsets, k);
    forall m | 0 <= m <= k
      ensures t.offsets[m] <= t.offsets[m + 1]
      ensures BlockCount(t, m) + S[k - m] == S[k + 1 - m]
      ensures BlockCount(t, m) * (m + 1) == t.offsets[m + 1] - t.offsets[m]
      ensures BlockCount(t, m) % (m + 1) == 0
    {
      BlockCounts(k, order, S, G, offsets, pts, sd, t, m);
    }
    PointsBounded(k, pts, order);
    forall p | 0 <= p < |t.permutationList|
      ensures t.permutationList[p] <= k
    {
      assert t.permutationList[p] == pts[|pts| - 1 - p];
    }
    forall p | 0 <= p < |t.subDeterminants|
      ensures t.subDeterminants[p] < t.numDeterminants
    {
      EntryBound(k, order, S, G, offsets, logs, memo, pts, sd, t, p);
    }
    SlotLimits(t, k, S, k + 1);
    forall m, b | 1 <= m <= k && 0 <= b < BlockCount(t, m)
      ensures BlockSlots(t, m, b)
    {
      assert LevelLog(k, k - m, sd, order, S, offsets, logs[k - m]);
      BlockSlotsAt(k, order, S, G, offsets, logs, pts, sd, t, m, b);
    }
  }

  /** One slot per key: the keys made are all the keys over `0..k`. */
  lemma SlotsPerKey(k: nat, order: seq<seq<nat>>, S: seq<nat>, G: seq<seq<seq<seq<nat>>>>,
                    offsets: seq<nat>, memo: Memo)
    requires Layout(k, k + 1, order, S, G, offsets)
    requires MemoMatches(memo, order) && DoneFrom(memo, k, 1)
    requires forall s :: 0 <= s < |order| ==> IsKey(order[s], k)
    ensures |order| == |AllKeys(k)|
  {
    forall s1, s2 | 0 <= s1 < s2 < |order|
      ensures order[s1] != order[s2]
    {
      assert memo[order[s1]] == s1 && memo[order[s2]] == s2;
    }
    DistinctCard(order);
    forall key | key in order
      ensures key in AllKeys(k)
    {
      var s :| 0 <= s < |order| && order[s] == key;
      var j := LevelOf(S, k + 1, s);
      LevelLength(k, k + 1, order, S, G, offsets, j, s);
      AllKeysMembers(k, key);
    }
    forall key | key in AllKeys(k)
      ensures key in order
    {
      AllKeysMembers(k, key);
      assert LengthDone(memo, k, |key|);
      LengthDoneAt(memo, k, |key|, key);
      assert order[memo[key]] == key;
    }
    assert (set key | key in order) == AllKeys(k);
  }
}
