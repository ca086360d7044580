/**
  Construction of the recursion template (`make_permutation_list`).

  The builder starts from the block of the full simplex `[0, ..., k, 0]` and,
  level by level, removes one vertex from every block of the previous level,
  memoising each resulting sub-list so that a sub-simplex reached along
  several paths gets one determinant slot only.  The ghost sequence `order`
  lists the memoised keys in slot order; the flat `pts` array is the full
  block followed by these keys.
 */
module TemplateBuilder {
  import opened Sequences
  import opened SubsimplexKeys

  type Memo = map<seq<nat>, nat>

  /** The block of the full simplex with `k + 1` points. */
  function FullBlock(k: nat): seq<nat>
  {
    Range(k + 1) + [0]
  }

  /** The sub-lists of `s`, one per removed vertex, in removal order. */
  ghost function Children(s: seq<nat>): (r: seq<seq<nat>>)
    ensures |r| == |s|
    ensures forall j :: 0 <= j < |s| ==> r[j] == SubKey(s, j)
  {
    seq(|s|, j requires 0 <= j < |s| => SubKey(s, j))
  }

  /** Every sub-list of `s` has been seen. */
  ghost predicate AllIn(s: seq<nat>, memo: Memo)
  {
    forall j :: 0 <= j < |s| ==> SubKey(s, j) in memo
  }

  /** No sub-list of `s` has been seen. */
  ghost predicate NoneIn(s: seq<nat>, memo: Memo)
  {
    forall j :: 0 <= j < |s| ==> SubKey(s, j) !in memo
  }

  /** The memo is the inverse of `order`: key `order[s]` has slot `s`. */
  ghost predicate MemoMatches(memo: Memo, order: seq<seq<nat>>)
  {
    && (forall s :: 0 <= s < |order| ==> order[s] in memo && memo[order[s]] == s)
    && (forall key :: key in memo ==> memo[key] < |order| && order[memo[key]] == key)
  }

  /** The working variables of the builder: the flat point array, the
      sub-determinant indices pushed so far, the memo, the next free slot and
      the number of entries added by the current level. */
  datatype Build = Build(pts: seq<nat>, sd: seq<nat>, memo: Memo, detIdx: nat, numAdded: nat)

  /** The state shared by all stages of the builder. */
  ghost predicate Core(k: nat, b: Build, order: seq<seq<nat>>)
  {
    && b.pts == FullBlock(k) + Flatten(order)
    && MemoMatches(b.memo, order)
    && (forall s :: 0 <= s < |order| ==> IsKey(order[s], k))
    && b.detIdx == |order|
  }

  /** `b'` grew from `b`: points appended, memo entries kept, and the level
      counter advanced by the number of points appended. */
  ghost predicate Grows(b': Build, b: Build)
  {
    && |b'.pts| >= |b.pts| && b'.pts[..|b.pts|] == b.pts
    && (forall key :: key in b.memo ==> key in b'.memo && b'.memo[key] == b.memo[key])
    && b'.numAdded == b.numAdded + (|b'.pts| - |b.pts|)
  }

  /** Vertex 0 is one of the vertices of `key`. */
  ghost predicate HasZero(key: seq<nat>)
  {
    0 in key
  }

  /** Among keys of one length, those without vertex 0 get the lower slots. */
  ghost predicate ZeroLast(order: seq<seq<nat>>)
  {
    forall s1, s2 {:trigger HasZero(order[s1]), HasZero(order[s2])} ::
      (0 <= s1 < |order| && 0 <= s2 < |order| && |order[s1]| == |order[s2]|
       && !HasZero(order[s1]) && HasZero(order[s2])) ==> s1 < s2
  }

  /** Every key of length `L` without vertex 0 has been seen. */
  ghost predicate ZeroFreeDone(memo: Memo, k: nat, L: nat)
  {
    forall key :: ZeroFreeKey(key, k, L) ==> key in memo
  }

  /** Every key of length `L` has been seen. */
  ghost predicate LengthDone(memo: Memo, k: nat, L: nat)
  {
    forall key :: IsKey(key, k) && |key| == L ==> key in memo
  }

  lemma LengthDoneAt(memo: Memo, k: nat, L: nat, key: seq<nat>)
    requires LengthDone(memo, k, L) && IsKey(key, k) && |key| == L
    ensures key in memo
  {
  }

  /** A key of length `L` with vertex 0 is seen only after all those without. */
  ghost predicate ZeroWaits(order: seq<seq<nat>>, memo: Memo, k: nat, L: nat)
  {
    forall s :: 0 <= s < |order| && |order[s]| == L && 0 in order[s] ==> ZeroFreeDone(memo, k, L)
  }

  /** All vertices are among `0..k`. */
  ghost predicate Bounded(s: seq<nat>, k: nat)
  {
    forall x :: x in s ==> x <= k
  }

  /** Appending a new key with the next slot keeps the shared state. */
  lemma CoreAppend(k: nat, b: Build, order: seq<seq<nat>>, c: seq<nat>)
    requires Core(k, b, order)
    requires c !in b.memo && IsKey(c, k)
    ensures Core(k, Build(b.pts + c, b.sd, b.memo[c := |order|], |order| + 1, b.numAdded), order + [c])
    ensures Grows(Build(b.pts + c, b.sd, b.memo[c := |order|], |order| + 1, b.numAdded + |c|), b)
  {
    var n := |order|;
    var order' := order + [c];
    assert order'[..n] == order;
    var memo' := b.memo[c := n];
    forall s | 0 <= s < |order'|
      ensures order'[s] in memo' && memo'[order'[s]] == s
    {
      if s < n {
        assert order'[s] == order[s] != c;
      }
    }
    assert (b.pts + c)[..|b.pts|] == b.pts;
  }

  /** Being grown is transitive. */
  lemma GrowsTrans(b'': Build, b': Build, b: Build)
    requires Grows(b'', b') && Grows(b', b)
    ensures Grows(b'', b)
  {
    PrefixTrans(b.pts, b'.pts, b''.pts);
  }

  /** Pushing a slot changes neither the points nor the memo. */
  lemma PushSlot(k: nat, b: Build, b': Build, order: seq<seq<nat>>)
    requires Core(k, b, order)
    requires b'.pts == b.pts && b'.memo == b.memo && b'.detIdx == b.detIdx && b'.numAdded == b.numAdded
    ensures Core(k, b', order) && Grows(b', b)
  {
    assert b'.pts[..|b.pts|] == b.pts;
  }

  /** Slot `slots[j]` holds the key `kids[j]`. */
  ghost predicate SlotsName(slots: seq<nat>, order: seq<seq<nat>>, kids: seq<seq<nat>>)
  {
    && |slots| <= |kids|
    && forall j :: 0 <= j < |slots| ==> slots[j] < |order| && order[slots[j]] == kids[j]
  }

  lemma SlotsNameStep(slots: seq<nat>, order: seq<seq<nat>>, kids: seq<seq<nat>>, c: seq<seq<nat>>, slot: nat)
    requires SlotsName(slots, order, kids) && |slots| < |kids|
    requires slot < |order + c| && (order + c)[slot] == kids[|slots|]
    ensures SlotsName(slots + [slot], order + c, kids)
  {
    var order' := order + c;
    forall j | 0 <= j < |slots|
      ensures order'[slots[j]] == kids[j]
    {
      assert order'[slots[j]] == order[slots[j]];
    }
  }

  /** Slots keep naming their keys when more keys are appended. */
  lemma SlotsNameExtend(slots: seq<nat>, order: seq<seq<nat>>, kids: seq<seq<nat>>, order': seq<seq<nat>>)
    requires SlotsName(slots, order, kids)
    requires |order| <= |order'| && order'[..|order|] == order
    ensures SlotsName(slots, order', kids)
  {
    forall j | 0 <= j < |slots|
      ensures order'[slots[j]] == kids[j]
    {
      assert order'[slots[j]] == order'[..|order|][slots[j]];
    }
  }

  /** Sub-list extraction: drop the `j`-th point of the block at `curr` and
      record it last. */
  method Sublist(pts: seq<nat>, curr: nat, lnp: nat, j: nat, ghost s: seq<nat>) returns (sublist: seq<nat>)
    requires j < lnp == |s| && SliceAt(pts, curr, s)
    ensures sublist == SubKey(s, j)
  {
    assert pts[curr..curr + lnp] == s;
    sublist := [];
    var x := 0;
    while x < lnp
      invariant x <= lnp
      invariant sublist == Remove(pts[curr..curr + x], pts[curr + j])
    {
      assert pts[curr..curr + x + 1][..x] == pts[curr..curr + x];
      if pts[curr + j] != pts[curr + x] {
        sublist := sublist + [pts[curr + x]];
      }
      x := x + 1;
    }
    assert pts[curr..curr + lnp][j] == pts[curr + j];
    sublist := sublist + [pts[curr + j]];
  }

  /** Appending a new key keeps the zero-last slot order, given that a key
      with vertex 0 is only appended once all zero-free ones are in. */
  lemma AppendKeepsZeroLast(order: seq<seq<nat>>, memo: Memo, k: nat, L: nat, c: seq<nat>)
    requires MemoMatches(memo, order) && ZeroLast(order) && ZeroWaits(order, memo, k, L)
    requires c !in memo && IsKey(c, k) && |c| == L
    requires 0 in c ==> ZeroFreeDone(memo, k, L)
    ensures ZeroLast(order + [c])
    ensures ZeroWaits(order + [c], memo[c := |order|], k, L)
  {
    var order' := order + [c];
    var n := |order|;
    forall s1, s2 | 0 <= s1 < |order'| && 0 <= s2 < |order'| && |order'[s1]| == |order'[s2]|
      && !HasZero(order'[s1]) && HasZero(order'[s2])
      ensures s1 < s2
    {
      if s1 == n && s2 < n {
        assert order[s2] == order'[s2];
        assert ZeroFreeKey(c, k, L);
        assert false;
      }
    }
  }

  /** One turn of the children loop (`j`): look up the sub-list without the
      `j`-th point of the block at `curr` and, when it is new, append it to
      the points with the next slot. */
  method AddChild(k: nat, b: Build, curr: nat, lnp: nat, j: nat, ghost s: seq<nat>,
                  ghost order: seq<seq<nat>>, ghost slots: seq<nat>, ghost kids: seq<seq<nat>>)
    returns (b': Build, ghost order': seq<seq<nat>>, ghost slots': seq<nat>)
    requires Core(k, b, order)
    requires j < lnp == |s| && SliceAt(b.pts, curr, s)
    requires Increasing(s) && Bounded(s, k) && kids == Children(s)
    requires ZeroLast(order) && ZeroWaits(order, b.memo, k, lnp)
    requires 0 in s ==> ZeroFreeDone(b.memo, k, lnp)
    requires SlotsName(slots, order, kids) && |slots| == j
    ensures Core(k, b', order') && Grows(b', b)
    ensures ZeroLast(order') && ZeroWaits(order', b'.memo, k, lnp)
    ensures kids[j] in b.memo ==> order' == order && b'.memo == b.memo
    ensures kids[j] !in b.memo ==> order' == order + [kids[j]] && b'.memo == b.memo[kids[j] := |order|]
    ensures |slots'| == j + 1 && slots'[..j] == slots && b'.sd == b.sd + [slots'[j]]
    ensures SlotsName(slots', order', kids)
  {
    var sublist := Sublist(b.pts, curr, lnp, j, s);
    SubKeyIsKey(s, j, k);
    assert sublist == kids[j];
    if sublist in b.memo {
      SlotsNameStep(slots, order, kids, [], b.memo[sublist]);
      assert order + [] == order;
      b' := b.(sd := b.sd + [b.memo[sublist]]);
      order' := order;
      slots' := slots + [b.memo[sublist]];
      assert b'.pts[..|b.pts|] == b.pts;
    } else {
      SlotsNameStep(slots, order, kids, [sublist], |order|);
      AppendKeepsZeroLast(order, b.memo, k, lnp, sublist);
      CoreAppend(k, b, order, sublist);
      b' := Build(b.pts + sublist, b.sd + [b.detIdx], b.memo[sublist := b.detIdx], b.detIdx + 1,
                  b.numAdded + |sublist|);
      order' := order + [sublist];
      slots' := slots + [b.detIdx];
    }
  }

  /** The state of the children loop of one block after its first `j`
      sub-lists; `kids` are all its sub-lists, `allNew` says whether none of
      them had been seen when the loop started in state `b0`. */
  ghost predicate ChildLoop(k: nat, b0: Build, order0: seq<seq<nat>>, s: seq<nat>,
                            kids: seq<seq<nat>>, allNew: bool, j: nat,
                            b: Build, order: seq<seq<nat>>, slots: seq<nat>)
  {
    && j <= |s| && |kids| == |s|
    && Core(k, b, order) && Grows(b, b0)
    && ZeroLast(order) && ZeroWaits(order, b.memo, k, |s|)
    && (!allNew ==> order == order0 && b.memo == b0.memo)
    && (allNew ==> order == order0 + kids[..j])
    && (allNew ==> forall j' :: j <= j' < |kids| ==> kids[j'] !in b.memo)
    && (0 in s ==> ZeroFreeDone(b.memo, k, |s|))
    && b.sd == b0.sd + slots && |slots| == j
    && SlotsName(slots, order, kids)
  }

  /** One turn of the children loop keeps its state. */
  method ChildStep(k: nat, b0: Build, curr: nat, lnp: nat, ghost order0: seq<seq<nat>>,
                   ghost s: seq<nat>, ghost kids: seq<seq<nat>>, ghost allNew: bool, j: nat,
                   b: Build, ghost order: seq<seq<nat>>, ghost slots: seq<nat>)
    returns (b': Build, ghost order': seq<seq<nat>>, ghost slots': seq<nat>)
    requires ChildrenReady(k, lnp, curr, s, b0, order0)
    requires kids == Children(s) && allNew == NoneIn(s, b0.memo) && j < |s|
    requires ChildLoop(k, b0, order0, s, kids, allNew, j, b, order, slots)
    ensures ChildLoop(k, b0, order0, s, kids, allNew, j + 1, b', order', slots')
  {
    assert allNew ==> kids[j] !in b0.memo;
    assert !allNew ==> kids[j] in b0.memo;
    SliceAtPrefix(b.pts, b0.pts, curr, s);
    b', order', slots' := AddChild(k, b, curr, lnp, j, s, order, slots, kids);
    AppendTakeStep(order0, kids, j);
    AppendGrow(b0.sd, slots, slots');
    GrowsTrans(b', b, b0);
    if allNew {
      forall j' | j + 1 <= j' < lnp
        ensures kids[j'] != kids[j]
      {
        SubKeyDistinct(s, j, j');
      }
    }
  }

  /** What the children loop of the block at `curr`, with vertex list `s`,
      needs: the list is increasing, over `0..k`, wholly seen or wholly new,
      and when it has vertex 0 the zero-free keys of its length are in. */
  ghost predicate ChildrenReady(k: nat, lnp: nat, curr: nat, s: seq<nat>, b: Build, order: seq<seq<nat>>)
  {
    && Core(k, b, order)
    && 1 <= lnp == |s| && SliceAt(b.pts, curr, s)
    && Increasing(s) && Bounded(s, k)
    && (AllIn(s, b.memo) || NoneIn(s, b.memo))
    && ZeroLast(order) && ZeroWaits(order, b.memo, k, lnp)
    && (0 in s ==> ZeroFreeDone(b.memo, k, lnp))
  }

  /** What the children loop did: seen sub-lists leave the keys alone, new
      ones are appended in order, and their slots were pushed. */
  ghost predicate ChildrenAdded(k: nat, lnp: nat, s: seq<nat>, b: Build, order: seq<seq<nat>>,
                                b': Build, order': seq<seq<nat>>, slots: seq<nat>)
  {
    && Core(k, b', order') && Grows(b', b)
    && ZeroLast(order') && ZeroWaits(order', b'.memo, k, lnp)
    && (AllIn(s, b.memo) ==> order' == order && b'.memo == b.memo)
    && (NoneIn(s, b.memo) ==> order' == order + Children(s))
    && b'.sd == b.sd + slots && |slots| == lnp
    && SlotsName(slots, order', Children(s))
  }

  /** The children loop of one block, over its `lnp` sub-lists:
      look every sub-list of the block's vertex list up, appending the new
      ones as keys with fresh slots.  When either all or none of them are
      new, the keys added are exactly the block's sub-lists. */
  method AddChildren(k: nat, b: Build, curr: nat, lnp: nat, ghost s: seq<nat>, ghost order: seq<seq<nat>>)
    returns (b': Build, ghost order': seq<seq<nat>>, ghost slots: seq<nat>)
    requires ChildrenReady(k, lnp, curr, s, b, order)
    ensures ChildrenAdded(k, lnp, s, b, order, b', order', slots)
  {
    ghost var kids := Children(s);
    ghost var allNew := NoneIn(s, b.memo);
    b', order', slots := b, order, [];
    ChildrenStart(k, lnp, curr, s, b, order, kids, allNew);
    var j := 0;
    while j < lnp
      invariant ChildLoop(k, b, order, s, kids, allNew, j, b', order', slots)
    {
      b', order', slots := ChildStep(k, b, curr, lnp, order, s, kids, allNew, j, b', order', slots);
      j := j + 1;
    }
    ChildrenEnd(k, lnp, curr, s, b, order, kids, allNew, b', order', slots);
  }

  lemma ChildrenStart(k: nat, lnp: nat, curr: nat, s: seq<nat>, b: Build, order: seq<seq<nat>>,
                      kids: seq<seq<nat>>, allNew: bool)
    requires ChildrenReady(k, lnp, curr, s, b, order)
    requires kids == Children(s) && allNew == NoneIn(s, b.memo)
    ensures ChildLoop(k, b, order, s, kids, allNew, 0, b, order, [])
  {
    assert b.pts[..|b.pts|] == b.pts && order + kids[..0] == order && b.sd + [] == b.sd;
  }

  lemma ChildrenEnd(k: nat, lnp: nat, curr: nat, s: seq<nat>, b: Build, order: seq<seq<nat>>,
                    kids: seq<seq<nat>>, allNew: bool, b': Build, order': seq<seq<nat>>, slots: seq<nat>)
    requires ChildrenReady(k, lnp, curr, s, b, order)
    requires kids == Children(s) && allNew == NoneIn(s, b.memo)
    requires ChildLoop(k, b, order, s, kids, allNew, lnp, b', order', slots)
    ensures ChildrenAdded(k, lnp, s, b, order, b', order', slots)
  {
    assert kids[..lnp] == kids;
  }
}
