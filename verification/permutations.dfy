/**
  The outer loop of `make_permutation_list`: the state it keeps from one
  level to the next, and the facts that carry it across a level.

  The builder pushes the full block `[0, ..., k, 0]`, then runs one level per
  removed vertex (`TemplateLevels`), each level walking the keys the previous
  one made, and finally pushes the slots of the one-vertex keys (the
  "leaves").  Everything is then read back to front: the offsets become
  distances from the end, the points and sub-determinant slots are reversed,
  and the full block, now last, is cut off.

  Forward, level `j` made the keys `order[S[j]..S[j + 1]]`, all of length
  `k + 1 - j`, whose entries sit at `offsets[j]..offsets[j + 1]` in the
  points; the sub-determinant entries at the same places are those pushed by
  level `j + 1` while walking exactly these keys.  Reversed, level `j`
  becomes region `k - j` of the template.
 */
module PermutationLists {
  import opened Sequences
  import opened SubsimplexKeys
  import opened TemplateBuilder
  import opened TemplateLevels
  import opened RecursionTemplates

  /* ---------------------------------------------------------------------- */
  /* The state of the level loop.                                             */
  /* ---------------------------------------------------------------------- */

  /** The keys level `j` made: the groups `groups` of `k + 1 - j` keys, each
      of length `k + 1 - j`, in the slots `S[j]..S[j + 1]`, whose entries
      take the points from `offsets[j]` to `offsets[j + 1]`. */
  ghost predicate LevelKeys(k: nat, j: nat, order: seq<seq<nat>>, S: seq<nat>, groups: seq<seq<seq<nat>>>,
                            offsets: seq<nat>)
    requires j + 1 < |S| && j + 1 < |offsets| && S[j] <= S[j + 1] <= |order|
  {
    && order[S[j]..S[j + 1]] == Flatten(groups)
    && (forall g :: 0 <= g < |groups| ==> |groups[g]| == k + 1 - j)
    && (forall q :: S[j] <= q < S[j + 1] ==> |order[q]| == k + 1 - j)
    && offsets[j + 1] == offsets[j] + |Flatten(order[S[j]..S[j + 1]])|
  }

  /** The keys made by the first `i` levels, level by level. */
  ghost predicate Layout(k: nat, i: nat, order: seq<seq<nat>>, S: seq<nat>, G: seq<seq<seq<seq<nat>>>>,
                         offsets: seq<nat>)
  {
    && i <= k + 1
    && |S| == i + 1 && |G| == i && |offsets| == i + 1
    && S[0] == 0 && S[i] == |order| && offsets[0] == k + 2
    && (forall j, j' :: 0 <= j <= j' <= i ==> S[j] <= S[j'])
    && (forall j :: 0 <= j < i ==> LevelKeys(k, j, order, S, G[j], offsets))
  }

  /** The sub-determinant entries level `j + 1` pushed while walking the keys
      of level `j`: one block per key, at the same places as the key's
      entries in the points. */
  ghost predicate LevelLog(k: nat, j: nat, sd: seq<nat>, order: seq<seq<nat>>, S: seq<nat>,
                           offsets: seq<nat>, log: seq<seq<nat>>)
    requires j + 1 < |S| && j + 1 < |offsets|
  {
    && offsets[j] <= offsets[j + 1] <= |sd|
    && sd[offsets[j]..offsets[j + 1]] == Flatten(log)
    && S[j] <= S[j + 1] <= |order|
    && |log| == S[j + 1] - S[j]
    && forall c :: 0 <= c < |log| ==> SdBlock(log[c], order[S[j] + c], S[j] + c, order)
  }

  /** The sub-determinant entries of the first `i` levels: the full block's
      `k + 2` entries, then the blocks pushed by every later level. */
  ghost predicate Logs(k: nat, i: nat, sd: seq<nat>, order: seq<seq<nat>>, S: seq<nat>,
                       offsets: seq<nat>, logs: seq<seq<seq<nat>>>)
  {
    && |S| == i + 1 && |offsets| == i + 1
    && (i == 0 ==> sd == [] && logs == [])
    && (i >= 1 ==>
          && |logs| == i - 1
          && |sd| == offsets[i - 1]
          && forall j :: 0 <= j < i - 1 ==> LevelLog(k, j, sd, order, S, offsets, logs[j]))
  }

  /** Every key of `L0` or more entries is known. */
  ghost predicate DoneFrom(memo: Memo, k: nat, L0: nat)
  {
    forall L :: L0 <= L <= k + 1 ==> LengthDone(memo, k, L)
  }

  /** The state of the outer loop after `i` levels. */
  ghost predicate Outer(k: nat, i: nat, lnp: nat, begin: nat, end: nat, offsets: seq<nat>,
                        b: Build, order: seq<seq<nat>>, S: seq<nat>, G: seq<seq<seq<seq<nat>>>>,
                        logs: seq<seq<seq<nat>>>)
  {
    && lnp + i == k + 1
    && Core(k, b, order) && ZeroLast(order)
    && Layout(k, i, order, S, G, offsets)
    && end == |b.pts| && offsets[i] == end
    && begin == (if i == 0 then 0 else offsets[i - 1])
    && Logs(k, i, b.sd, order, S, offsets, logs)
    && DoneFrom(b.memo, k, lnp + 1)
    && (i >= 1 ==> |order| >= 1 && order[0] == SubKey(Range(k + 1), 0))
  }

  /** The blocks level `i` walks: the full block, then the keys the previous
      level made. */
  ghost function LevelBlocks(k: nat, i: nat, order: seq<seq<nat>>, S: seq<nat>): seq<seq<nat>>
    requires i >= 1 ==> i - 1 < |S| && S[i - 1] <= |order|
  {
    if i == 0 then [FullBlock(k)] else order[S[i - 1]..]
  }

  /* ---------------------------------------------------------------------- */
  /* Facts about the layout.                                                  */
  /* ---------------------------------------------------------------------- */

  /** The level whose slots hold `q`. */
  lemma LevelOf(S: seq<nat>, i: nat, q: nat) returns (j: nat)
    requires |S| == i + 1 && S[0] <= q < S[i]
    ensures j < i && S[j] <= q < S[j + 1]
  {
    j := 0;
    while S[j + 1] <= q
      invariant j < i && S[j] <= q
      decreases i - j
    {
      j := j + 1;
    }
  }

  /** Keys of level `j` have length `k + 1 - j`. */
  lemma LevelLength(k: nat, i: nat, order: seq<seq<nat>>, S: seq<nat>, G: seq<seq<seq<seq<nat>>>>,
                    offsets: seq<nat>, j: nat, q: nat)
    requires Layout(k, i, order, S, G, offsets)
    requires j < i && S[j] <= q < S[j + 1]
    ensures q < |order| && |order[q]| == k + 1 - j
  {
    assert S[j + 1] <= S[i];
    assert LevelKeys(k, j, order, S, G[j], offsets);
  }

  /** Every key of level `j` has `k + 1 - j` entries. */
  lemma LevelLengths(k: nat, i: nat, order: seq<seq<nat>>, S: seq<nat>, G: seq<seq<seq<seq<nat>>>>,
                     offsets: seq<nat>, j: nat)
    requires Layout(k, i, order, S, G, offsets) && j < i
    ensures forall q :: S[j] <= q < S[j + 1] ==> q < |order| && |order[q]| == k + 1 - j
  {
    forall q | S[j] <= q < S[j + 1]
      ensures q < |order| && |order[q]| == k + 1 - j
    {
      LevelLength(k, i, order, S, G, offsets, j, q);
    }
  }

  /** Keys of level `j` are the only ones of length `k + 1 - j`. */
  lemma SlotRange(k: nat, i: nat, order: seq<seq<nat>>, S: seq<nat>, G: seq<seq<seq<seq<nat>>>>, offsets: seq<nat>,
                  s: nat, j: nat)
    requires Layout(k, i, order, S, G, offsets)
    requires s < |order| && j <= k && |order[s]| == k + 1 - j
    ensures j < i && S[j] <= s < S[j + 1]
  {
    var j' := LevelOf(S, i, s);
    LevelLength(k, i, order, S, G, offsets, j', s);
  }

  /** The entries of the keys of level `i` fill the points from `offsets[i]`. */
  lemma LayoutEntries(k: nat, i: nat, order: seq<seq<nat>>, S: seq<nat>, G: seq<seq<seq<seq<nat>>>>, offsets: seq<nat>)
    requires Layout(k, i, order, S, G, offsets) && 1 <= i
    requires offsets[i] == k + 2 + |Flatten(order)|
    ensures offsets[i - 1] == k + 2 + |Flatten(order[..S[i - 1]])|
    ensures Flatten(order) == Flatten(order[..S[i - 1]]) + Flatten(order[S[i - 1]..])
  {
    var p := S[i - 1];
    FlattenSplit(order, p);
    assert LevelKeys(k, i - 1, order, S, G[i - 1], offsets);
    assert order[p..S[i]] == order[p..];
  }

  /* ---------------------------------------------------------------------- */
  /* Starting a level.                                                        */
  /* ---------------------------------------------------------------------- */

  /** The blocks of level `i` are the last entries of the points. */
  lemma LevelPoints(k: nat, i: nat, lnp: nat, begin: nat, end: nat, offsets: seq<nat>,
                    b: Build, order: seq<seq<nat>>, S: seq<nat>, G: seq<seq<seq<seq<nat>>>>, logs: seq<seq<seq<nat>>>)
    requires Outer(k, i, lnp, begin, end, offsets, b, order, S, G, logs)
    ensures begin + |Flatten(LevelBlocks(k, i, order, S))| == end
    ensures b.pts[begin..] == Flatten(LevelBlocks(k, i, order, S))
  {
    var blocks := LevelBlocks(k, i, order, S);
    if i == 0 {
      FlattenSingle(FullBlock(k));
      assert Flatten(order) == [];
    } else {
      LayoutEntries(k, i, order, S, G, offsets);
      var head := FullBlock(k) + Flatten(order[..S[i - 1]]);
      AppendAssoc(FullBlock(k), Flatten(order[..S[i - 1]]), Flatten(blocks));
      assert b.pts == head + Flatten(blocks);
      assert |head| == begin;
    }
  }

  /** The keys of the last level have the shape of blocks of length `L`. */
  lemma LastLevelShape(k: nat, i: nat, order: seq<seq<nat>>, S: seq<nat>, G: seq<seq<seq<seq<nat>>>>,
                       offsets: seq<nat>)
    requires Layout(k, i, order, S, G, offsets) && 1 <= i <= k
    requires forall q :: 0 <= q < |order| ==> IsKey(order[q], k)
    ensures BlocksShape(order[S[i - 1]..], k, k + 2 - i)
  {
    var p := S[i - 1];
    var blocks := order[p..];
    forall c | 0 <= c < |blocks|
      ensures |blocks[c]| == k + 2 - i && Increasing(Front(blocks[c])) && Bounded(Front(blocks[c]), k)
    {
      LevelLength(k, i, order, S, G, offsets, i - 1, p + c);
      assert blocks[c] == order[p + c];
      assert IsKey(order[p + c], k);
      assert forall x :: x in Front(blocks[c]) ==> x in blocks[c];
    }
  }

  /** Keys of earlier levels are longer. */
  lemma EarlierLonger(k: nat, i: nat, order: seq<seq<nat>>, S: seq<nat>, G: seq<seq<seq<seq<nat>>>>,
                      offsets: seq<nat>)
    requires Layout(k, i, order, S, G, offsets) && 1 <= i
    ensures forall q :: 0 <= q < |order| ==> |order[q]| + i > k + 1
    ensures forall q :: 0 <= q < S[i - 1] ==> |order[q]| + i > k + 2
  {
    forall q | 0 <= q < |order|
      ensures |order[q]| + i > k + 1 && (q < S[i - 1] ==> |order[q]| + i > k + 2)
    {
      var j := LevelOf(S, i, q);
      LevelLength(k, i, order, S, G, offsets, j, q);
      if q < S[i - 1] {
        assert j < i - 1;
      }
    }
  }

  /** What level `i` needs: its blocks have the right shape, the keys
      before them are longer, and on later levels every key of the blocks'
      length is known. */
  lemma LevelReady(k: nat, i: nat, lnp: nat, begin: nat, end: nat, offsets: seq<nat>,
                   b: Build, order: seq<seq<nat>>, S: seq<nat>, G: seq<seq<seq<seq<nat>>>>, logs: seq<seq<seq<nat>>>)
    requires Outer(k, i, lnp, begin, end, offsets, b, order, S, G, logs) && i <= k
    ensures LevelStart(k, i, lnp, order, b.memo, LevelBlocks(k, i, order, S))
  {
    if i == 0 {
      assert Front(FullBlock(k)) == Range(k + 1);
      assert order == [];
    } else {
      assert LengthDone(b.memo, k, lnp + 1);
      LastLevelShape(k, i, order, S, G, offsets);
      EarlierLonger(k, i, order, S, G, offsets);
    }
  }

  /* ---------------------------------------------------------------------- */
  /* Finishing a level.                                                       */
  /* ---------------------------------------------------------------------- */

  /** Appending keys keeps what a level made. */
  lemma LevelKeysGrow(k: nat, j: nat, order0: seq<seq<nat>>, S: seq<nat>, groups: seq<seq<seq<nat>>>,
                      offsets: seq<nat>, order: seq<seq<nat>>, S': seq<nat>, offsets': seq<nat>)
    requires j + 1 < |S| && j + 1 < |offsets| && S[j] <= S[j + 1] <= |order0|
    requires LevelKeys(k, j, order0, S, groups, offsets)
    requires |order0| <= |order| && order[..|order0|] == order0
    requires |S| <= |S'| && S'[..|S|] == S && |offsets| <= |offsets'| && offsets'[..|offsets|] == offsets
    ensures S'[j] <= S'[j + 1] <= |order|
    ensures LevelKeys(k, j, order, S', groups, offsets')
  {
    assert S'[j] == S[j] && S'[j + 1] == S[j + 1];
    assert offsets'[j] == offsets[j] && offsets'[j + 1] == offsets[j + 1];
    assert order[S[j]..S[j + 1]] == order0[S[j]..S[j + 1]] by {
      SliceOfSlice(order, 0, |order0|, S[j], S[j + 1]);
    }
    forall q | S[j] <= q < S[j + 1]
      ensures order[q] == order0[q]
    {
      assert order[q] == order[..|order0|][q];
    }
  }

  /** The keys a level adds extend the layout by one level. */
  lemma LayoutNext(k: nat, i: nat, order0: seq<seq<nat>>, S: seq<nat>, G: seq<seq<seq<seq<nat>>>>,
                   offsets: seq<nat>, order: seq<seq<nat>>, groups: seq<seq<seq<nat>>>, end': nat)
    requires Layout(k, i, order0, S, G, offsets) && i <= k
    requires offsets[i] == k + 2 + |Flatten(order0)| && end' == k + 2 + |Flatten(order)|
    requires NewKeys(order0, order, groups, k + 1 - i)
    ensures Layout(k, i + 1, order, Snoc(S, |order|), Snoc(G, groups), Snoc(offsets, end'))
  {
    var S', G', offsets' := Snoc(S, |order|), Snoc(G, groups), Snoc(offsets, end');
    FlattenAppend(order0, Flatten(groups));
    assert order[|order0|..|order|] == Flatten(groups);
    forall j, j' | 0 <= j <= j' <= i + 1
      ensures S'[j] <= S'[j']
    {
      if j' <= i {
        assert S'[j] == S[j] && S'[j'] == S[j'];
      }
    }
    forall j | 0 <= j < i + 1
      ensures LevelKeys(k, j, order, S', G'[j], offsets')
    {
      if j < i {
        assert G'[j] == G[j];
        LevelKeysGrow(k, j, order0, S, G[j], offsets, order, S', offsets');
      }
    }
  }

  /** Appending entries and keys keeps the blocks a level pushed. */
  lemma LevelLogGrow(k: nat, j: nat, sd0: seq<nat>, order0: seq<seq<nat>>, S: seq<nat>, offsets: seq<nat>,
                     log: seq<seq<nat>>, sd: seq<nat>, order: seq<seq<nat>>, S': seq<nat>, offsets': seq<nat>)
    requires j + 1 < |S| && j + 1 < |offsets|
    requires LevelLog(k, j, sd0, order0, S, offsets, log)
    requires |sd0| <= |sd| && sd[..|sd0|] == sd0
    requires |order0| <= |order| && order[..|order0|] == order0
    requires |S| <= |S'| && S'[..|S|] == S && |offsets| <= |offsets'| && offsets'[..|offsets|] == offsets
    ensures LevelLog(k, j, sd, order, S', offsets', log)
  {
    assert S'[j] == S[j] && S'[j + 1] == S[j + 1];
    assert offsets'[j] == offsets[j] && offsets'[j + 1] == offsets[j + 1];
    assert sd[offsets[j]..offsets[j + 1]] == sd0[offsets[j]..offsets[j + 1]] by {
      SliceOfSlice(sd, 0, |sd0|, offsets[j], offsets[j + 1]);
    }
    forall c | 0 <= c < |log|
      ensures SdBlock(log[c], order[S[j] + c], S[j] + c, order)
    {
      var blk := log[c];
      assert order[S[j] + c] == order0[S[j] + c];
      SlotsNameExtend(blk[..|blk| - 1], order0, Children(Front(order0[S[j] + c])), order);
    }
  }

  /** The blocks a level pushes extend the log by one level. */
  lemma LogsNext(k: nat, i: nat, sd0: seq<nat>, order0: seq<seq<nat>>, S: seq<nat>, offsets: seq<nat>,
                 logs: seq<seq<seq<nat>>>, blocks: seq<seq<nat>>, sd: seq<nat>, order: seq<seq<nat>>,
                 newSdb: seq<seq<nat>>, end': nat)
    returns (logs': seq<seq<seq<nat>>>)
    requires Logs(k, i, sd0, order0, S, offsets, logs) && i <= k
    requires S[i] == |order0| && (i >= 1 ==> S[i - 1] <= S[i])
    requires i >= 1 ==> offsets[i] == offsets[i - 1] + |Flatten(blocks)|
    requires i == 0 ==> offsets[0] == k + 2 && |blocks| == 1
    requires i >= 1 ==> blocks == order0[S[i - 1]..]
    requires BlocksShape(blocks, k, k + 2 - i)
    requires |order0| <= |order| && order[..|order0|] == order0
    requires SdLog(k, i, sd0, blocks, |order0| - |blocks|, |blocks|, order, sd, newSdb)
    ensures Logs(k, i + 1, sd, order, Snoc(S, |order|), Snoc(offsets, end'), logs')
  {
    var S', offsets' := Snoc(S, |order|), Snoc(offsets, end');
    if i == 0 {
      logs' := [];
      FlattenSingle(newSdb[0]);
      assert newSdb == [newSdb[0]];
    } else {
      logs' := logs + [newSdb];
      var L := k + 2 - i;
      FlattenUniformLength(newSdb, L);
      FlattenUniformLength(blocks, L);
      assert sd[..|sd0|] == sd0;
      forall j | 0 <= j < i
        ensures LevelLog(k, j, sd, order, S', offsets', logs'[j])
      {
        if j < i - 1 {
          assert logs'[j] == logs[j];
          LevelLogGrow(k, j, sd0, order0, S, offsets, logs[j], sd, order, S', offsets');
        } else {
          assert sd[offsets[j]..offsets[j + 1]] == Flatten(newSdb);
          forall c | 0 <= c < |newSdb|
            ensures SdBlock(newSdb[c], order[S[j] + c], S[j] + c, order)
          {
            assert blocks[c] == order0[S[j] + c] == order[S[j] + c];
          }
        }
      }
    }
  }

  /** A level finishes the keys of its length and forgets none. */
  lemma DoneNext(k: nat, lnp: nat, memo0: Memo, memo: Memo)
    requires DoneFrom(memo0, k, lnp + 1) && LengthDone(memo, k, lnp)
    requires forall key :: key in memo0 ==> key in memo
    ensures DoneFrom(memo, k, lnp)
  {
    forall L | lnp <= L <= k + 1
      ensures LengthDone(memo, k, L)
    {
      if L > lnp {
        assert LengthDone(memo0, k, L);
      }
    }
  }

  /** After a level, the layout has one more level and the points end
      where the new level ends. */
  lemma LayoutAfter(k: nat, i: nat, lnp: nat, begin: nat, end: nat, offsets: seq<nat>,
                    b: Build, order0: seq<seq<nat>>, S: seq<nat>, G: seq<seq<seq<seq<nat>>>>, logs: seq<seq<seq<nat>>>,
                    b0: Build, b': Build, order: seq<seq<nat>>, groups: seq<seq<seq<nat>>>, newSdb: seq<seq<nat>>,
                    end': nat)
    requires Outer(k, i, lnp, begin, end, offsets, b, order0, S, G, logs) && i <= k
    requires b0 == b.(numAdded := 0)
    requires LevelEnd(k, i, lnp, b0, order0, LevelBlocks(k, i, order0, S), b', order, groups, newSdb)
    requires end' == end + b'.numAdded
    ensures end' == |b'.pts|
    ensures Layout(k, i + 1, order, Snoc<nat>(S, |order|), Snoc(G, groups), Snoc<nat>(offsets, end'))
    ensures i >= 1 ==> offsets[i] == offsets[i - 1] + |Flatten(LevelBlocks(k, i, order0, S))|
  {
    assert Grows(b', b0) && |b0.pts| == end;
    LayoutNext(k, i, order0, S, G, offsets, order, groups, end');
    if i >= 1 {
      LayoutEntries(k, i, order0, S, G, offsets);
    }
  }

  /** After a level, the log has one more level. */
  lemma LogsAfter(k: nat, i: nat, lnp: nat, begin: nat, end: nat, offsets: seq<nat>,
                  b: Build, order0: seq<seq<nat>>, S: seq<nat>, G: seq<seq<seq<seq<nat>>>>, logs: seq<seq<seq<nat>>>,
                  b0: Build, b': Build, order: seq<seq<nat>>, groups: seq<seq<seq<nat>>>, newSdb: seq<seq<nat>>,
                  end': nat)
    returns (logs': seq<seq<seq<nat>>>)
    requires Outer(k, i, lnp, begin, end, offsets, b, order0, S, G, logs) && i <= k
    requires b0 == b.(numAdded := 0)
    requires BlocksShape(LevelBlocks(k, i, order0, S), k, lnp + 1)
    requires LevelEnd(k, i, lnp, b0, order0, LevelBlocks(k, i, order0, S), b', order, groups, newSdb)
    requires i >= 1 ==> offsets[i] == offsets[i - 1] + |Flatten(LevelBlocks(k, i, order0, S))|
    ensures Logs(k, i + 1, b'.sd, order, Snoc<nat>(S, |order|), Snoc<nat>(offsets, end'), logs')
  {
    var blocks := LevelBlocks(k, i, order0, S);
    logs' := LogsNext(k, i, b.sd, order0, S, offsets, logs, blocks, b'.sd, order, newSdb, end');
  }

  /** One level moves the outer loop on. */
  lemma LevelNext(k: nat, i: nat, lnp: nat, begin: nat, end: nat, offsets: seq<nat>,
                  b: Build, order0: seq<seq<nat>>, S: seq<nat>, G: seq<seq<seq<seq<nat>>>>, logs: seq<seq<seq<nat>>>,
                  b0: Build, b': Build, order: seq<seq<nat>>, groups: seq<seq<seq<nat>>>, newSdb: seq<seq<nat>>,
                  i': nat, lnp': nat, end': nat, offsets': seq<nat>, S': seq<nat>, G': seq<seq<seq<seq<nat>>>>)
    returns (logs': seq<seq<seq<nat>>>)
    requires Outer(k, i, lnp, begin, end, offsets, b, order0, S, G, logs) && i <= k
    requires b0 == b.(numAdded := 0)
    requires BlocksShape(LevelBlocks(k, i, order0, S), k, lnp + 1)
    requires LevelEnd(k, i, lnp, b0, order0, LevelBlocks(k, i, order0, S), b', order, groups, newSdb)
    requires i' == i + 1 && lnp' + 1 == lnp && end' == end + b'.numAdded
    requires offsets' == Snoc<nat>(offsets, end') && S' == Snoc<nat>(S, |order|) && G' == Snoc(G, groups)
    ensures Outer(k, i', lnp', end, end', offsets', b', order, S', G', logs')
  {
    LayoutAfter(k, i, lnp, begin, end, offsets, b, order0, S, G, logs, b0, b', order, groups, newSdb, end');
    logs' := LogsAfter(k, i, lnp, begin, end, offsets, b, order0, S, G, logs, b0, b', order, groups, newSdb, end');
    if i >= 1 {
      assert order[0] == order[..|order0|][0] == order0[0];
    }
    DoneNext(k, lnp, b.memo, b'.memo);
    assert offsets'[i'] == end' && offsets'[i' - 1] == end;
  }
}
