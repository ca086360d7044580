/**
  One level of `make_permutation_list`: the walk over the blocks made by
  the previous level (each a key of `lnp + 1` entries, or the full block
  `[0, ..., k, 0]` on the first level), which
  memoises the sub-lists of every block's vertex list and pushes, for every
  block, the slots of its sub-lists followed by the block's own slot.

  The main facts proved here are that the sub-lists of one block are either
  all new or all seen before (so new keys arrive in whole groups), that a
  level leaves every key of its length in the memo, and that keys with
  vertex 0 keep getting the later slots.
 */
module TemplateLevels {
  import opened Sequences
  import opened SubsimplexKeys
  import opened TemplateBuilder

  /** Every block has `L >= 1` entries and an increasing vertex list over
      `0..k`. */
  ghost predicate BlocksShape(blocks: seq<seq<nat>>, k: nat, L: nat)
  {
    forall c :: 0 <= c < |blocks| ==>
      && |blocks[c]| == L && L >= 1
      && Increasing(Front(blocks[c])) && Bounded(Front(blocks[c]), k)
  }

  /** What holds when level `i` starts: its blocks are the full block (level
      0) or the keys made by the previous level, which are the last keys of
      `order0` and the only ones of their length, and every key of that
      length is already in the memo. */
  ghost predicate LevelStart(k: nat, i: nat, lnp: nat, order0: seq<seq<nat>>, memo0: Memo,
                             blocks: seq<seq<nat>>)
  {
    && i <= k && lnp == k + 1 - i
    && BlocksShape(blocks, k, lnp + 1)
    && (forall q :: 0 <= q < |order0| ==> |order0[q]| > lnp)
    && (i == 0 ==> blocks == [FullBlock(k)] && order0 == [])
    && (i >= 1 ==>
          && |blocks| <= |order0|
          && blocks == order0[|order0| - |blocks|..]
          && (forall q :: 0 <= q < |order0| - |blocks| ==> |order0[q]| > lnp + 1)
          && LengthDone(memo0, k, lnp + 1)
          && |order0| >= 1 && order0[0] == SubKey(Range(k + 1), 0))
  }

  /** The sub-determinant entries pushed for the block `key`: the slots of its
      sub-lists, then its own slot. */
  ghost predicate SdBlock(blk: seq<nat>, key: seq<nat>, slot: int, order: seq<seq<nat>>)
  {
    && |key| >= 1 && |blk| == |key| && blk[|blk| - 1] == slot
    && SlotsName(blk[..|blk| - 1], order, Children(Front(key)))
  }

  /** `curr` is the place of block `bidx`, which is before the end unless
      all blocks are done. */
  ghost predicate Position(begin: nat, blocks: seq<seq<nat>>, bidx: nat, curr: nat)
  {
    && bidx <= |blocks| && curr == begin + |Flatten(blocks[..bidx])|
    && (bidx < |blocks| ==> curr < begin + |Flatten(blocks)|)
  }

  /** The keys made so far by the level: after the keys `order0` it started
      with come the groups of sub-lists it added, each of length `lnp`. */
  ghost predicate NewKeys(order0: seq<seq<nat>>, order: seq<seq<nat>>, groups: seq<seq<seq<nat>>>, lnp: nat)
  {
    && |order0| <= |order| && order[..|order0|] == order0
    && order == order0 + Flatten(groups)
    && (forall g :: 0 <= g < |groups| ==> |groups[g]| == lnp)
    && (forall p :: |order0| <= p < |order| ==> |order[p]| == lnp)
  }

  /** The sub-lists of the first `bidx` blocks are all in the memo, and every
      key of the level's length in the memo is one of them. */
  ghost predicate Seen(k: nat, blocks: seq<seq<nat>>, bidx: nat, memo: Memo, lnp: nat)
    requires BlocksShape(blocks, k, lnp + 1)
  {
    && (forall c :: 0 <= c < bidx && c < |blocks| ==> AllIn(Front(blocks[c]), memo))
    && (forall key :: key in memo && |key| == lnp ==>
          exists c, j :: 0 <= c < bidx && c < |blocks| && 0 <= j < lnp && key == SubKey(Front(blocks[c]), j))
  }

  /** The sub-determinant entries pushed by the level: one block per block
      processed; on the first level the full block's `k + 2` entries, later
      the slots of the block's sub-lists and its own slot, `base + c`. */
  ghost predicate SdLog(k: nat, i: nat, sd0: seq<nat>, blocks: seq<seq<nat>>, base: int, bidx: nat,
                        order: seq<seq<nat>>, sd: seq<nat>, newSdb: seq<seq<nat>>)
  {
    && sd == sd0 + Flatten(newSdb) && |newSdb| == bidx <= |blocks|
    && (i == 0 ==> forall c :: 0 <= c < bidx ==> |newSdb[c]| == k + 2)
    && (i >= 1 ==> forall c :: 0 <= c < bidx ==> SdBlock(newSdb[c], blocks[c], base + c, order))
  }

  /** The state of level `i` after its first `bidx` blocks, started in state
      `b0` with keys `order0`.  The level has added the keys `groups`, one
      group of `lnp` sub-lists per block whose sub-lists were new, and pushed
      the sub-determinant blocks `newSdb`. */
  ghost predicate LevelLoop(k: nat, i: nat, lnp: nat, begin: nat, b0: Build, order0: seq<seq<nat>>,
                            blocks: seq<seq<nat>>, bidx: nat, curr: nat,
                            b: Build, order: seq<seq<nat>>, groups: seq<seq<seq<nat>>>,
                            newSdb: seq<seq<nat>>)
  {
    && Position(begin, blocks, bidx, curr)
    && Core(k, b, order) && Grows(b, b0)
    && NewKeys(order0, order, groups, lnp)
    && ZeroLast(order) && ZeroWaits(order, b.memo, k, lnp)
    && BlocksShape(blocks, k, lnp + 1) && Seen(k, blocks, bidx, b.memo, lnp)
    && SdLog(k, i, b0.sd, blocks, |order0| - |blocks|, bidx, order, b.sd, newSdb)
    && (bidx == 0 ==> order == order0)
    && (i == 0 && bidx >= 1 ==> |order| >= 1 && order[0] == SubKey(Range(k + 1), 0))
  }

  /** Block `c` of the level sits at `curr`, after the blocks before it, in
      the (grown) points; its vertex list fills all but its last place. */
  lemma BlockAt(pts0: seq<nat>, pts: seq<nat>, begin: nat, blocks: seq<seq<nat>>, c: nat, curr: nat)
    requires begin + |Flatten(blocks)| == |pts0| && pts0[begin..] == Flatten(blocks)
    requires |pts| >= |pts0| && pts[..|pts0|] == pts0
    requires c < |blocks| && |blocks[c]| >= 1
    requires curr == begin + |Flatten(blocks[..c])|
    ensures curr + |blocks[c]| <= |pts0|
    ensures SliceAt(pts, curr, blocks[c])
    ensures SliceAt(pts, curr, Front(blocks[c]))
  {
    FlattenBlock(blocks, c);
    var L := |blocks[c]|;
    var p := |Flatten(blocks[..c])|;
    SliceOfSlice(pts0, begin, |pts0|, p, p + L);
    assert pts0[curr..curr + L] == blocks[c];
    SliceOfSlice(pts, 0, |pts0|, curr, curr + L);
    assert pts[curr..curr + L] == blocks[c];
    SliceOfSlice(pts, curr, curr + L, 0, L - 1);
  }

  /** Stepping over block `c` moves to the next one; while blocks remain,
      the position is before the end. */
  lemma BlockNext(blocks: seq<seq<nat>>, c: nat)
    requires c < |blocks| && forall c' :: 0 <= c' < |blocks| ==> |blocks[c']| >= 1
    ensures |Flatten(blocks[..c + 1])| == |Flatten(blocks[..c])| + |blocks[c]|
    ensures c + 1 < |blocks| ==> |Flatten(blocks[..c + 1])| < |Flatten(blocks)|
  {
    FlattenPrefixStep(blocks, c);
    if c + 1 < |blocks| {
      FlattenBlock(blocks, c + 1);
    }
  }

  /** The sub-lists of a block are either all seen or all new: a seen one was
      made by an earlier block with the same vertex list. */
  lemma AllOrNone(k: nat, lnp: nat, blocks: seq<seq<nat>>, bidx: nat, memo: Memo)
    requires BlocksShape(blocks, k, lnp + 1) && bidx < |blocks|
    requires Seen(k, blocks, bidx, memo, lnp)
    ensures AllIn(Front(blocks[bidx]), memo) || NoneIn(Front(blocks[bidx]), memo)
  {
    var s := Front(blocks[bidx]);
    if !NoneIn(s, memo) {
      var j :| 0 <= j < |s| && SubKey(s, j) in memo;
      SubKeyMembers(s, j);
      var c, j' :| 0 <= c < bidx && c < |blocks| && 0 <= j' < lnp && SubKey(s, j) == SubKey(Front(blocks[c]), j');
      SubKeyDeterminesList(s, j, Front(blocks[c]), j');
    }
  }

  /** On the second level, the zero-free keys of length `k` are the
      sub-lists of the first block, which is the only zero-free block. */
  lemma BlockReadySecond(k: nat, lnp: nat, order0: seq<seq<nat>>, memo0: Memo,
                         blocks: seq<seq<nat>>, bidx: nat, memo: Memo, key: seq<nat>)
    requires LevelStart(k, 1, lnp, order0, memo0, blocks)
    requires bidx < |blocks|
    requires forall c :: 0 <= c < bidx ==> AllIn(Front(blocks[c]), memo)
    requires 0 in Front(blocks[bidx])
    requires ZeroFreeKey(key, k, lnp)
    ensures key in memo
  {
    var j := ZeroFreeTopKey(key, k);
    FirstSubKeyZeroFree(k);
    SubKeyMembers(Range(k + 1), 0);
    assert |order0[0]| == lnp + 1;
    assert blocks[0] == order0[0];
    assert Front(blocks[0]) == Range(k + 1)[1..];
    assert bidx != 0;
  }

  /** Block `c` of a level is one of the last keys of the level before. */
  lemma LevelBlock(order0: seq<seq<nat>>, blocks: seq<seq<nat>>, c: nat)
    requires |blocks| <= |order0| && blocks == order0[|order0| - |blocks|..] && c < |blocks|
    ensures blocks[c] == order0[|order0| - |blocks| + c]
  {
  }

  /** From the third level on, a zero-free key of the level's length is a
      sub-list of a zero-free block of the level. */
  lemma ZeroFreeParent(k: nat, i: nat, lnp: nat, order0: seq<seq<nat>>, memo0: Memo,
                       blocks: seq<seq<nat>>, key: seq<nat>) returns (c: nat, j: nat)
    requires LevelStart(k, i, lnp, order0, memo0, blocks) && MemoMatches(memo0, order0) && i >= 2
    requires ZeroFreeKey(key, k, lnp)
    ensures c < |blocks| && j < lnp && key == SubKey(Front(blocks[c]), j) && 0 !in blocks[c]
  {
    var parent, j' := ZeroFreeParentKey(key, k);
    LengthDoneAt(memo0, k, lnp + 1, parent);
    var q := memo0[parent];
    var base := |order0| - |blocks|;
    assert order0[q] == parent;
    assert q >= base;
    c, j := q - base, j';
    LevelBlock(order0, blocks, c);
    assert |order0| - |blocks| + c == q;
    assert blocks[c] == parent;
  }

  /** From the third level on, a zero-free key has a zero-free parent block,
      which comes before every block with vertex 0. */
  lemma BlockReadyLater(k: nat, i: nat, lnp: nat, order0: seq<seq<nat>>, memo0: Memo,
                        blocks: seq<seq<nat>>, bidx: nat, order: seq<seq<nat>>, memo: Memo, key: seq<nat>)
    requires LevelStart(k, i, lnp, order0, memo0, blocks) && MemoMatches(memo0, order0) && i >= 2
    requires bidx < |blocks|
    requires |order0| <= |order| && order[..|order0|] == order0 && ZeroLast(order)
    requires forall c :: 0 <= c < bidx ==> AllIn(Front(blocks[c]), memo)
    requires 0 in Front(blocks[bidx])
    requires ZeroFreeKey(key, k, lnp)
    ensures key in memo
  {
    var c, j := ZeroFreeParent(k, i, lnp, order0, memo0, blocks, key);
    var base := |order0| - |blocks|;
    assert 0 in blocks[bidx] by {
      var z :| 0 <= z < |Front(blocks[bidx])| && Front(blocks[bidx])[z] == 0;
      assert blocks[bidx][z] == 0;
    }
    LevelBlock(order0, blocks, c);
    LevelBlock(order0, blocks, bidx);
    assert order[base + c] == order[..|order0|][base + c] == blocks[c];
    assert order[base + bidx] == order[..|order0|][base + bidx] == blocks[bidx];
    assert !HasZero(order[base + c]) && HasZero(order[base + bidx]);
    assert AllIn(Front(blocks[c]), memo);
  }

  /** When a block's vertex list has vertex 0, every zero-free key of the
      level's length is already in the memo. */
  lemma BlockReady(k: nat, i: nat, lnp: nat, order0: seq<seq<nat>>, memo0: Memo,
                   blocks: seq<seq<nat>>, bidx: nat, order: seq<seq<nat>>, memo: Memo)
    requires LevelStart(k, i, lnp, order0, memo0, blocks) && MemoMatches(memo0, order0)
    requires bidx < |blocks|
    requires |order0| <= |order| && order[..|order0|] == order0 && ZeroLast(order)
    requires forall c :: 0 <= c < bidx ==> AllIn(Front(blocks[c]), memo)
    requires 0 in Front(blocks[bidx])
    ensures ZeroFreeDone(memo, k, lnp)
  {
    forall key | ZeroFreeKey(key, k, lnp)
      ensures key in memo
    {
      if i == 0 {
        FullKeyHasZero(key, k);
      } else if i == 1 {
        BlockReadySecond(k, lnp, order0, memo0, blocks, bidx, memo, key);
      } else {
        BlockReadyLater(k, i, lnp, order0, memo0, blocks, bidx, order, memo, key);
      }
    }
  }

  /** After the last block, every key of the level's length is in the memo:
      it is a sub-list of a key one longer, and those were the blocks. */
  lemma LevelComplete(k: nat, i: nat, lnp: nat, order0: seq<seq<nat>>, memo0: Memo,
                      blocks: seq<seq<nat>>, memo: Memo)
    requires LevelStart(k, i, lnp, order0, memo0, blocks) && MemoMatches(memo0, order0)
    requires forall c :: 0 <= c < |blocks| ==> AllIn(Front(blocks[c]), memo)
    ensures LengthDone(memo, k, lnp)
  {
    forall key | IsKey(key, k) && |key| == lnp
      ensures key in memo
    {
      if i == 0 {
        FullKey(key, k);
        assert Front(blocks[0]) == Range(k + 1);
      } else {
        var s, _ := KeyAsSubKey(key, k);
        var r := MissingVertex(s, k);
        var s', j' := ParentKey(key, k, r);
        var parent := s' + [r];
        assert parent in memo0;
        var q := memo0[parent];
        var base := |order0| - |blocks|;
        assert order0[q] == parent;
        assert q >= base;
        assert blocks[q - base] == parent;
        assert Front(parent) == s';
      }
    }
  }

  /** The sub-lists of an increasing list all have its length. */
  lemma ChildrenLengths(s: seq<nat>)
    requires Increasing(s)
    ensures forall j :: 0 <= j < |s| ==> |Children(s)[j]| == |s|
  {
    forall j | 0 <= j < |s|
      ensures |Children(s)[j]| == |s|
    {
      SubKeyMembers(s, j);
    }
  }

  /** The parent lookup finds the block itself from the second level on,
      and never finds the full block. */
  lemma ParentSlot(k: nat, i: nat, lnp: nat, order0: seq<seq<nat>>, b0: Build,
                   blocks: seq<seq<nat>>, bidx: nat, b1: Build, order1: seq<seq<nat>>,
                   groups: seq<seq<seq<nat>>>)
    requires LevelStart(k, i, lnp, order0, b0.memo, blocks) && Core(k, b0, order0)
    requires Core(k, b1, order1) && Grows(b1, b0) && NewKeys(order0, order1, groups, lnp)
    requires bidx < |blocks|
    ensures i == 0 ==> blocks[bidx] !in b1.memo
    ensures i >= 1 ==> blocks[bidx] in b1.memo && b1.memo[blocks[bidx]] == |order0| - |blocks| + bidx
  {
    if i == 0 {
      forall q | 0 <= q < |order1|
        ensures order1[q] != blocks[bidx]
      {
        assert |order1[q]| == lnp < |blocks[bidx]|;
      }
    } else {
      var base := |order0| - |blocks|;
      LevelBlock(order0, blocks, bidx);
      assert b0.memo[order0[base + bidx]] == base + bidx;
    }
  }

  /** The keys after one more block: the old ones and, if its sub-lists were
      new, those sub-lists, all of the level's length. */
  lemma StepOrder(order0: seq<seq<nat>>, order: seq<seq<nat>>, order1: seq<seq<nat>>,
                  groups: seq<seq<seq<nat>>>, s: seq<nat>, allNew: bool, lnp: nat)
    returns (groups': seq<seq<seq<nat>>>)
    requires Increasing(s) && |s| == lnp
    requires NewKeys(order0, order, groups, lnp)
    requires !allNew ==> order1 == order
    requires allNew ==> order1 == order + Children(s)
    ensures |order| <= |order1| && order1[..|order|] == order
    ensures NewKeys(order0, order1, groups', lnp)
    ensures groups' == if allNew then groups + [Children(s)] else groups
  {
    groups' := if allNew then groups + [Children(s)] else groups;
    if allNew {
      ChildrenLengths(s);
      FlattenSnoc(groups, Children(s));
      AppendAssoc(order0, Flatten(groups), Children(s));
      assert order1[..|order|] == order;
      PrefixTrans(order0, order, order1);
      forall p | |order| <= p < |order1|
        ensures |order1[p]| == lnp
      {
        AppendIndex(order1, order, Children(s), p);
      }
    }
  }

  /** Blocks whose sub-lists were all seen stay so, and the current block
      joins them. */
  lemma StepDone(blocks: seq<seq<nat>>, bidx: nat, k: nat, lnp: nat, b: Build, order: seq<seq<nat>>,
                 b1: Build, order1: seq<seq<nat>>)
    requires BlocksShape(blocks, k, lnp + 1) && bidx < |blocks|
    requires forall c :: 0 <= c < bidx && c < |blocks| ==> AllIn(Front(blocks[c]), b.memo)
    requires Grows(b1, b) && MemoMatches(b1.memo, order1)
    requires AllIn(Front(blocks[bidx]), b.memo) ==> b1.memo == b.memo
    requires NoneIn(Front(blocks[bidx]), b.memo) ==> order1 == order + Children(Front(blocks[bidx]))
    requires AllIn(Front(blocks[bidx]), b.memo) || NoneIn(Front(blocks[bidx]), b.memo)
    ensures forall c :: 0 <= c < bidx + 1 && c < |blocks| ==> AllIn(Front(blocks[c]), b1.memo)
  {
    forall c, j | 0 <= c < bidx && 0 <= j < |Front(blocks[c])|
      ensures SubKey(Front(blocks[c]), j) in b1.memo
    {
      assert SubKey(Front(blocks[c]), j) in b.memo;
    }
    var s := Front(blocks[bidx]);
    if !AllIn(s, b.memo) {
      forall j | 0 <= j < |s|
        ensures SubKey(s, j) in b1.memo
      {
        assert order1[|order| + j] == SubKey(s, j);
      }
    }
  }

  /** Every key of the level's length was made by a block processed so far. */
  lemma StepCreator(blocks: seq<seq<nat>>, bidx: nat, k: nat, lnp: nat, b: Build, order: seq<seq<nat>>,
                    b1: Build, order1: seq<seq<nat>>)
    requires BlocksShape(blocks, k, lnp + 1) && bidx < |blocks|
    requires MemoMatches(b.memo, order) && MemoMatches(b1.memo, order1)
    requires forall key :: key in b.memo && |key| == lnp ==>
               exists c, j :: 0 <= c < bidx && c < |blocks| && 0 <= j < lnp && key == SubKey(Front(blocks[c]), j)
    requires order1 == order || order1 == order + Children(Front(blocks[bidx]))
    ensures forall key :: key in b1.memo && |key| == lnp ==>
              exists c, j :: 0 <= c < bidx + 1 && c < |blocks| && 0 <= j < lnp && key == SubKey(Front(blocks[c]), j)
  {
    forall key | key in b1.memo && |key| == lnp
      ensures exists c, j :: 0 <= c < bidx + 1 && c < |blocks| && 0 <= j < lnp && key == SubKey(Front(blocks[c]), j)
    {
      var c, j := CreatorOf(blocks, bidx, k, lnp, b, order, b1, order1, key);
    }
  }

  /** The block and place that made one key of the level's length. */
  lemma CreatorOf(blocks: seq<seq<nat>>, bidx: nat, k: nat, lnp: nat, b: Build, order: seq<seq<nat>>,
                  b1: Build, order1: seq<seq<nat>>, key: seq<nat>)
    returns (c: nat, j: nat)
    requires BlocksShape(blocks, k, lnp + 1) && bidx < |blocks|
    requires MemoMatches(b.memo, order) && MemoMatches(b1.memo, order1)
    requires forall key :: key in b.memo && |key| == lnp ==>
               exists c, j :: 0 <= c < bidx && c < |blocks| && 0 <= j < lnp && key == SubKey(Front(blocks[c]), j)
    requires order1 == order || order1 == order + Children(Front(blocks[bidx]))
    requires key in b1.memo && |key| == lnp
    ensures c < bidx + 1 && c < |blocks| && j < lnp && key == SubKey(Front(blocks[c]), j)
  {
    var s := Front(blocks[bidx]);
    var q := b1.memo[key];
    assert order1[q] == key;
    if q < |order| {
      if order1 != order {
        PrefixIndex(order1, order, Children(s), q);
      }
      assert order[q] == key;
      assert key in b.memo;
      c, j :| 0 <= c < bidx && c < |blocks| && 0 <= j < lnp && key == SubKey(Front(blocks[c]), j);
    } else {
      c, j := bidx, q - |order|;
      assert order1[q] == key;
      assert |order1| != |order|;
      assert order1 == order + Children(s);
      AppendIndex(order1, order, Children(s), q);
      assert j < |s|;
      assert key == Children(s)[j] == SubKey(s, j);
    }
  }

  /** The sub-lists seen after one more block. */
  lemma StepSeen(blocks: seq<seq<nat>>, bidx: nat, k: nat, lnp: nat, b: Build, order: seq<seq<nat>>,
                 b1: Build, order1: seq<seq<nat>>)
    requires BlocksShape(blocks, k, lnp + 1) && bidx < |blocks|
    requires Seen(k, blocks, bidx, b.memo, lnp)
    requires MemoMatches(b.memo, order) && MemoMatches(b1.memo, order1) && Grows(b1, b)
    requires AllIn(Front(blocks[bidx]), b.memo) ==> order1 == order && b1.memo == b.memo
    requires NoneIn(Front(blocks[bidx]), b.memo) ==> order1 == order + Children(Front(blocks[bidx]))
    requires AllIn(Front(blocks[bidx]), b.memo) || NoneIn(Front(blocks[bidx]), b.memo)
    ensures Seen(k, blocks, bidx + 1, b1.memo, lnp)
  {
    StepDone(blocks, bidx, k, lnp, b, order, b1, order1);
    StepCreator(blocks, bidx, k, lnp, b, order, b1, order1);
  }

  /** The logged blocks still name their slots once more keys are added, and
      one more block joins them. */
  lemma SdBlocksExtend(blocks: seq<seq<nat>>, bidx: nat, base: int, order: seq<seq<nat>>,
                       order1: seq<seq<nat>>, newSdb: seq<seq<nat>>, blk: seq<nat>)
    requires |newSdb| == bidx < |blocks|
    requires forall c :: 0 <= c < bidx ==> SdBlock(newSdb[c], blocks[c], base + c, order)
    requires |order| <= |order1| && order1[..|order|] == order
    requires SdBlock(blk, blocks[bidx], base + bidx, order1)
    ensures forall c :: 0 <= c < bidx + 1 ==> SdBlock((newSdb + [blk])[c], blocks[c], base + c, order1)
  {
    forall c | 0 <= c < bidx + 1
      ensures SdBlock((newSdb + [blk])[c], blocks[c], base + c, order1)
    {
      if c < bidx {
        var prev := newSdb[c];
        assert (newSdb + [blk])[c] == prev;
        SlotsNameExtend(prev[..|prev| - 1], order, Children(Front(blocks[c])), order1);
      }
    }
  }

  /** The sub-determinant log after one more block, whose entries are the
      slots of its sub-lists and then `slot`. */
  lemma SdStep(k: nat, i: nat, lnp: nat, sd0: seq<nat>, blocks: seq<seq<nat>>, base: int, bidx: nat,
               order: seq<seq<nat>>, order1: seq<seq<nat>>, sd: seq<nat>, newSdb: seq<seq<nat>>,
               slots: seq<nat>, slot: nat, sd': seq<nat>)
    returns (newSdb': seq<seq<nat>>)
    requires SdLog(k, i, sd0, blocks, base, bidx, order, sd, newSdb)
    requires bidx < |blocks| && |blocks[bidx]| == lnp + 1 && |slots| == lnp
    requires |order| <= |order1| && order1[..|order|] == order
    requires SlotsName(slots, order1, Children(Front(blocks[bidx])))
    requires sd' == sd + slots + [slot]
    requires i == 0 ==> lnp == k + 1
    requires i >= 1 ==> slot == base + bidx
    ensures SdLog(k, i, sd0, blocks, base, bidx + 1, order1, sd', newSdb')
    ensures sd' == sd0 + Flatten(newSdb')
  {
    var blk := slots + [slot];
    newSdb' := newSdb + [blk];
    FlattenSnoc(newSdb, blk);
    AppendAssoc(sd, slots, [slot]);
    AppendAssoc(sd0, Flatten(newSdb), blk);
    if i >= 1 {
      assert blk[..|blk| - 1] == slots;
      SdBlocksExtend(blocks, bidx, base, order, order1, newSdb, blk);
    } else {
      forall c | 0 <= c < bidx + 1
        ensures |newSdb'[c]| == k + 2
      {
        if c < bidx {
          assert newSdb'[c] == newSdb[c];
        }
      }
    }
  }

  /** Before a block is processed: it sits at `curr`, its sub-lists are all
      seen or all new, and the zero-free keys are done when it has vertex 0. */
  lemma StepReady(k: nat, i: nat, lnp: nat, begin: nat, b0: Build, order0: seq<seq<nat>>,
                  blocks: seq<seq<nat>>, bidx: nat, curr: nat,
                  b: Build, order: seq<seq<nat>>, groups: seq<seq<seq<nat>>>, newSdb: seq<seq<nat>>)
    requires Core(k, b0, order0)
    requires begin + |Flatten(blocks)| == |b0.pts| && b0.pts[begin..] == Flatten(blocks)
    requires bidx < |blocks|
    requires LevelStart(k, i, lnp, order0, b0.memo, blocks)
    requires LevelLoop(k, i, lnp, begin, b0, order0, blocks, bidx, curr, b, order, groups, newSdb)
    ensures |blocks[bidx]| == lnp + 1 && SliceAt(b.pts, curr, blocks[bidx])
    ensures ChildrenReady(k, lnp, curr, Front(blocks[bidx]), b, order)
    ensures Position(begin, blocks, bidx + 1, curr + lnp + 1)
  {
    assert |blocks[bidx]| == lnp + 1;
    BlockAt(b0.pts, b.pts, begin, blocks, bidx, curr);
    BlockNext(blocks, bidx);
    AllOrNone(k, lnp, blocks, bidx, b.memo);
    if 0 in Front(blocks[bidx]) {
      BlockReady(k, i, lnp, order0, b0.memo, blocks, bidx, order, b.memo);
    }
  }

  /** The lookup of the block itself: its slot, the keys and the state after
      it. */
  lemma StepParent(k: nat, i: nat, lnp: nat, b0: Build, order0: seq<seq<nat>>,
                   blocks: seq<seq<nat>>, bidx: nat,
                   b: Build, order: seq<seq<nat>>, groups: seq<seq<seq<nat>>>,
                   b1: Build, order1: seq<seq<nat>>, slots: seq<nat>, slot: nat, b': Build)
    returns (groups': seq<seq<seq<nat>>>)
    requires Core(k, b0, order0) && LevelStart(k, i, lnp, order0, b0.memo, blocks)
    requires bidx < |blocks| && |blocks[bidx]| == lnp + 1
    requires Grows(b, b0) && NewKeys(order0, order, groups, lnp)
    requires Increasing(Front(blocks[bidx]))
    requires AllIn(Front(blocks[bidx]), b.memo) || NoneIn(Front(blocks[bidx]), b.memo)
    requires ChildrenAdded(k, lnp, Front(blocks[bidx]), b, order, b1, order1, slots)
    requires blocks[bidx] in b1.memo ==> slot == b1.memo[blocks[bidx]] && b' == b1.(sd := b1.sd + [slot])
    requires blocks[bidx] !in b1.memo ==>
               slot == b1.detIdx &&
               b' == b1.(sd := b1.sd + [slot], detIdx := b1.detIdx + if i == 0 then 0 else 1)
    ensures Core(k, b', order1) && Grows(b', b0) && NewKeys(order0, order1, groups', lnp)
    ensures b'.memo == b1.memo && b'.sd == b.sd + slots + [slot]
    ensures |order| <= |order1| && order1[..|order|] == order
    ensures i >= 1 ==> slot == |order0| - |blocks| + bidx
  {
    var s := Front(blocks[bidx]);
    var allNew := NoneIn(s, b.memo);
    groups' := StepOrder(order0, order, order1, groups, s, allNew, lnp);
    GrowsTrans(b1, b, b0);
    ParentSlot(k, i, lnp, order0, b0, blocks, bidx, b1, order1, groups');
    assert b'.pts == b1.pts && b'.memo == b1.memo && b'.detIdx == b1.detIdx && b'.numAdded == b1.numAdded;
    PushSlot(k, b1, b', order1);
    GrowsTrans(b', b1, b0);
  }

  /** After a block is processed: the keys, the memo and the slot counter
      one block further; `slot` is the entry pushed for the block itself. */
  lemma StepKeys(k: nat, i: nat, lnp: nat, b0: Build, order0: seq<seq<nat>>,
                 blocks: seq<seq<nat>>, bidx: nat,
                 b: Build, order: seq<seq<nat>>, groups: seq<seq<seq<nat>>>,
                 b1: Build, order1: seq<seq<nat>>, slots: seq<nat>, slot: nat, b': Build)
    returns (groups': seq<seq<seq<nat>>>)
    requires Core(k, b0, order0) && LevelStart(k, i, lnp, order0, b0.memo, blocks)
    requires bidx < |blocks| && |blocks[bidx]| == lnp + 1
    requires Grows(b, b0) && NewKeys(order0, order, groups, lnp) && MemoMatches(b.memo, order)
    requires bidx == 0 ==> order == order0
    requires AllIn(Front(blocks[bidx]), b.memo) || NoneIn(Front(blocks[bidx]), b.memo)
    requires ChildrenAdded(k, lnp, Front(blocks[bidx]), b, order, b1, order1, slots)
    requires blocks[bidx] in b1.memo ==> slot == b1.memo[blocks[bidx]] && b' == b1.(sd := b1.sd + [slot])
    requires blocks[bidx] !in b1.memo ==>
               slot == b1.detIdx &&
               b' == b1.(sd := b1.sd + [slot], detIdx := b1.detIdx + if i == 0 then 0 else 1)
    ensures Core(k, b', order1) && Grows(b', b0) && NewKeys(order0, order1, groups', lnp)
    ensures ZeroLast(order1) && ZeroWaits(order1, b'.memo, k, lnp)
    ensures i == 0 ==> |order1| >= 1 && order1[0] == SubKey(Range(k + 1), 0)
    ensures b'.memo == b1.memo && b'.sd == b.sd + slots + [slot]
    ensures |order| <= |order1| && order1[..|order|] == order
    ensures i >= 1 ==> slot == |order0| - |blocks| + bidx
  {
    groups' := StepParent(k, i, lnp, b0, order0, blocks, bidx, b, order, groups, b1, order1, slots, slot, b');
    if i == 0 {
      FirstStep(k, blocks, bidx, order, order1, b.memo);
    }
  }

  /** The first level's only step starts from no keys at all, so the first
      key it adds is the full simplex without vertex 0. */
  lemma FirstStep(k: nat, blocks: seq<seq<nat>>, bidx: nat,
                  order: seq<seq<nat>>, order1: seq<seq<nat>>, memo: Memo)
    requires blocks == [FullBlock(k)] && bidx < |blocks| && order == [] && MemoMatches(memo, order)
    requires NoneIn(Front(blocks[bidx]), memo) ==> order1 == order + Children(Front(blocks[bidx]))
    ensures |order1| >= 1 && order1[0] == SubKey(Range(k + 1), 0)
  {
    var s := Front(blocks[bidx]);
    assert s == Range(k + 1);
    assert NoneIn(s, memo);
    AppendIndex(order1, order, Children(s), 0);
  }

  /** After a block is processed: the sub-lists seen and the sub-determinant
      log one block further. */
  lemma StepLog(k: nat, i: nat, lnp: nat, b0: Build, order0: seq<seq<nat>>,
                blocks: seq<seq<nat>>, bidx: nat,
                b: Build, order: seq<seq<nat>>, newSdb: seq<seq<nat>>,
                b1: Build, order1: seq<seq<nat>>, slots: seq<nat>, slot: nat, b': Build)
    returns (newSdb': seq<seq<nat>>)
    requires BlocksShape(blocks, k, lnp + 1) && bidx < |blocks|
    requires i == 0 ==> lnp == k + 1
    requires MemoMatches(b.memo, order) && Seen(k, blocks, bidx, b.memo, lnp)
    requires SdLog(k, i, b0.sd, blocks, |order0| - |blocks|, bidx, order, b.sd, newSdb)
    requires AllIn(Front(blocks[bidx]), b.memo) || NoneIn(Front(blocks[bidx]), b.memo)
    requires ChildrenAdded(k, lnp, Front(blocks[bidx]), b, order, b1, order1, slots)
    requires b'.memo == b1.memo && b'.sd == b.sd + slots + [slot]
    requires |order| <= |order1| && order1[..|order|] == order
    requires i >= 1 ==> slot == |order0| - |blocks| + bidx
    ensures Seen(k, blocks, bidx + 1, b'.memo, lnp)
    ensures SdLog(k, i, b0.sd, blocks, |order0| - |blocks|, bidx + 1, order1, b'.sd, newSdb')
  {
    newSdb' := SdStep(k, i, lnp, b0.sd, blocks, |order0| - |blocks|, bidx, order, order1, b.sd, newSdb,
                      slots, slot, b'.sd);
    StepSeen(blocks, bidx, k, lnp, b, order, b1, order1);
  }

  /** Before the first block: no key of the level's length is seen yet. */
  lemma InitSeen(k: nat, lnp: nat, order0: seq<seq<nat>>, memo0: Memo, blocks: seq<seq<nat>>)
    requires BlocksShape(blocks, k, lnp + 1) && MemoMatches(memo0, order0)
    requires forall q :: 0 <= q < |order0| ==> |order0[q]| > lnp
    ensures Seen(k, blocks, 0, memo0, lnp) && ZeroWaits(order0, memo0, k, lnp)
  {
    forall key | key in memo0
      ensures |key| > lnp
    {
      assert order0[memo0[key]] == key;
    }
  }

  /** Before the first block: the position is the start of the level. */
  lemma InitPosition(begin: nat, blocks: seq<seq<nat>>)
    requires forall c :: 0 <= c < |blocks| ==> |blocks[c]| >= 1
    ensures Position(begin, blocks, 0, begin)
  {
    assert blocks[..0] == [];
    if |blocks| > 0 {
      FlattenBlock(blocks, 0);
    }
  }

  /** The loop state before the first block. */
  lemma LevelInit(k: nat, i: nat, lnp: nat, begin: nat, b0: Build, order0: seq<seq<nat>>,
                  blocks: seq<seq<nat>>)
    requires Core(k, b0, order0) && ZeroLast(order0)
    requires LevelStart(k, i, lnp, order0, b0.memo, blocks)
    ensures LevelLoop(k, i, lnp, begin, b0, order0, blocks, 0, begin, b0, order0, [], [])
  {
    InitPosition(begin, blocks);
    InitSeen(k, lnp, order0, b0.memo, blocks);
    assert b0.pts[..|b0.pts|] == b0.pts && order0[..|order0|] == order0;
    assert order0 + Flatten([]) == order0 && b0.sd + Flatten([]) == b0.sd;
  }

  /** While the end of the level is not reached, a block remains. */
  lemma LoopGuard(begin: nat, blocks: seq<seq<nat>>, bidx: nat, curr: nat)
    requires Position(begin, blocks, bidx, curr) && curr != begin + |Flatten(blocks)|
    ensures bidx < |blocks|
  {
    assert blocks[..|blocks|] == blocks;
  }

  /** What a finished level leaves behind: the keys and memo grown by the
      level's groups of sub-lists, every key of the level's length seen, and
      one logged sub-determinant block per block of the level. */
  ghost predicate LevelEnd(k: nat, i: nat, lnp: nat, b0: Build, order0: seq<seq<nat>>,
                           blocks: seq<seq<nat>>, b: Build, order: seq<seq<nat>>,
                           groups: seq<seq<seq<nat>>>, newSdb: seq<seq<nat>>)
  {
    && Core(k, b, order) && Grows(b, b0)
    && NewKeys(order0, order, groups, lnp)
    && ZeroLast(order) && LengthDone(b.memo, k, lnp)
    && SdLog(k, i, b0.sd, blocks, |order0| - |blocks|, |blocks|, order, b.sd, newSdb)
    && (i == 0 ==> |order| >= 1 && order[0] == SubKey(Range(k + 1), 0))
  }

  /** At the end of the level every block is done, so every key of the
      level's length is in the memo. */
  lemma LevelDone(k: nat, i: nat, lnp: nat, begin: nat, b0: Build, order0: seq<seq<nat>>,
                  blocks: seq<seq<nat>>, bidx: nat, curr: nat,
                  b: Build, order: seq<seq<nat>>, groups: seq<seq<seq<nat>>>, newSdb: seq<seq<nat>>)
    requires Core(k, b0, order0) && curr == begin + |Flatten(blocks)|
    requires LevelStart(k, i, lnp, order0, b0.memo, blocks)
    requires LevelLoop(k, i, lnp, begin, b0, order0, blocks, bidx, curr, b, order, groups, newSdb)
    ensures LevelEnd(k, i, lnp, b0, order0, blocks, b, order, groups, newSdb)
  {
    LevelComplete(k, i, lnp, order0, b0.memo, blocks, b.memo);
    assert bidx == |blocks|;
  }

  /** The loop state after a step, named by the advanced position. */
  lemma LoopNext(k: nat, i: nat, lnp: nat, begin: nat, b0: Build, order0: seq<seq<nat>>,
                 blocks: seq<seq<nat>>, bidx: nat, curr: nat, bidx': nat, curr': nat,
                 b: Build, order: seq<seq<nat>>, groups: seq<seq<seq<nat>>>, newSdb: seq<seq<nat>>)
    requires LevelLoop(k, i, lnp, begin, b0, order0, blocks, bidx + 1, curr + lnp + 1, b, order, groups, newSdb)
    requires bidx' == bidx + 1 && curr' == curr + lnp + 1
    ensures LevelLoop(k, i, lnp, begin, b0, order0, blocks, bidx', curr', b, order, groups, newSdb)
  {
    assert Position(begin, blocks, bidx', curr');
    assert Seen(k, blocks, bidx', b.memo, lnp);
    assert SdLog(k, i, b0.sd, blocks, |order0| - |blocks|, bidx', order, b.sd, newSdb);
  }

  /** One step of the walk over a level's blocks: the children loop of
      the block at `curr`, then the lookup of the block itself (the
      "parent"), whose slot is pushed last.  Only the full block of the first
      level is not in the memo, and it takes no slot of its own. */
  method BlockStep(k: nat, i: nat, lnp: nat, begin: nat, b0: Build, ghost order0: seq<seq<nat>>,
                   ghost blocks: seq<seq<nat>>, ghost bidx: nat, curr: nat,
                   b: Build, ghost order: seq<seq<nat>>, ghost groups: seq<seq<seq<nat>>>,
                   ghost newSdb: seq<seq<nat>>)
    returns (b': Build, ghost order': seq<seq<nat>>, ghost groups': seq<seq<seq<nat>>>,
             ghost newSdb': seq<seq<nat>>, curr': nat, ghost bidx': nat)
    requires Core(k, b0, order0)
    requires begin + |Flatten(blocks)| == |b0.pts| && b0.pts[begin..] == Flatten(blocks)
    requires bidx < |blocks|
    requires LevelStart(k, i, lnp, order0, b0.memo, blocks)
    requires LevelLoop(k, i, lnp, begin, b0, order0, blocks, bidx, curr, b, order, groups, newSdb)
    ensures curr' == curr + lnp + 1 && bidx' == bidx + 1
    ensures LevelLoop(k, i, lnp, begin, b0, order0, blocks, bidx', curr', b', order', groups', newSdb')
  {
    StepReady(k, i, lnp, begin, b0, order0, blocks, bidx, curr, b, order, groups, newSdb);
    var b1;
    ghost var slots;
    b1, order', slots := AddChildren(k, b, curr, lnp, Front(blocks[bidx]), order);
    SliceAtPrefix(b1.pts, b.pts, curr, blocks[bidx]);
    var parent := Slice(b1.pts, curr, lnp + 1, blocks[bidx]);
    var slot;
    if parent in b1.memo {
      slot := b1.memo[parent];
      b' := b1.(sd := b1.sd + [slot]);
    } else {
      slot := b1.detIdx;
      b' := b1.(sd := b1.sd + [slot], detIdx := b1.detIdx + if i == 0 then 0 else 1);
    }
    groups' := StepKeys(k, i, lnp, b0, order0, blocks, bidx, b, order, groups, b1, order', slots, slot, b');
    newSdb' := StepLog(k, i, lnp, b0, order0, blocks, bidx, b, order, newSdb, b1, order', slots, slot, b');
    curr', bidx' := curr + lnp + 1, bidx + 1;
    LoopNext(k, i, lnp, begin, b0, order0, blocks, bidx, curr, bidx', curr', b', order', groups', newSdb');
  }

  /** One level of the outer loop over `0 ..= k`: walk the blocks between
      `begin` and `end`, made by the previous level. */
  method ProcessLevel(k: nat, i: nat, lnp: nat, begin: nat, end: nat, b0: Build,
                      ghost order0: seq<seq<nat>>, ghost blocks: seq<seq<nat>>)
    returns (b: Build, ghost order: seq<seq<nat>>, ghost groups: seq<seq<seq<nat>>>,
             ghost newSdb: seq<seq<nat>>)
    requires Core(k, b0, order0) && ZeroLast(order0)
    requires end == |b0.pts| && begin + |Flatten(blocks)| == end && b0.pts[begin..] == Flatten(blocks)
    requires LevelStart(k, i, lnp, order0, b0.memo, blocks)
    ensures LevelEnd(k, i, lnp, b0, order0, blocks, b, order, groups, newSdb)
  {
    var curr: nat := begin;
    b, order, groups, newSdb := b0, order0, [], [];
    ghost var bidx: nat := 0;
    LevelInit(k, i, lnp, begin, b0, order0, blocks);
    while curr != end
      invariant LevelLoop(k, i, lnp, begin, b0, order0, blocks, bidx, curr, b, order, groups, newSdb)
      decreases |blocks| - bidx
    {
      LoopGuard(begin, blocks, bidx, curr);
      b, order, groups, newSdb, curr, bidx := BlockStep(k, i, lnp, begin, b0, order0, blocks, bidx, curr,
                                                        b, order, groups, newSdb);
    }
    LevelDone(k, i, lnp, begin, b0, order0, blocks, bidx, curr, b, order, groups, newSdb);
  }
}
