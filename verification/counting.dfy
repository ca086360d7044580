/**
  How many determinant slots a template needs: one per key, that is one per
  pair of a sub-simplex of `0..k` and one of its vertices.  The set of all
  keys is built from the finite set of words over `0..k`, so that its size
  can be compared across dimensions.
 */
module KeyCounts {
  import opened SubsimplexKeys

  /** A sequence without repetitions has as many members as places. */
  lemma {:induction false} DistinctCard<T>(s: seq<T>)
    requires forall a, b :: 0 <= a < b < |s| ==> s[a] != s[b]
    ensures |set x | x in s| == |s|
    decreases |s|
  {
    if |s| > 0 {
      var init := s[..|s| - 1];
      var last := s[|s| - 1];
      DistinctCard(init);
      assert (set x | x in s) == (set x | x in init) + {last} by {
        assert s == init + [last];
      }
      forall a | 0 <= a < |init|
        ensures init[a] != last
      {
        assert init[a] == s[a];
      }
    }
  }

  /** `0..n` has `n` members. */
  lemma RangeCard(n: nat)
    ensures |set x: nat | x in Range(n)| == n
  {
    DistinctCard(Range(n));
  }

  /** A subset is no larger. */
  lemma {:induction false} SubsetCard<T>(a: set<T>, b: set<T>)
    requires a <= b
    ensures |a| <= |b|
    decreases |a|
  {
    if a != {} {
      var x :| x in a;
      SubsetCard(a - {x}, b - {x});
    }
  }

  /** The words of length `n` over `0..k`. */
  ghost function Words(n: nat, k: nat): set<seq<nat>>
  {
    if n == 0 then {[]} else set w, x: nat | w in Words(n - 1, k) && x <= k :: w + [x]
  }

  lemma {:induction false} WordsMembers(n: nat, k: nat, w: seq<nat>)
    ensures w in Words(n, k) <==> |w| == n && forall x :: x in w ==> x <= k
    decreases n
  {
    if n > 0 {
      if w in Words(n, k) {
        var w', x: nat :| w' in Words(n - 1, k) && x <= k && w == w' + [x];
        WordsMembers(n - 1, k, w');
        assert forall y :: y in w ==> y in w' || y == x;
      }
      if |w| == n && forall x :: x in w ==> x <= k {
        var w', x := w[..n - 1], w[n - 1];
        assert w == w' + [x] && x in w;
        assert forall y :: y in w' ==> y in w;
        WordsMembers(n - 1, k, w');
        assert w in Words(n, k) by {
          assert w' in Words(n - 1, k) && x <= k;
        }
      }
    }
  }

  /** The keys over `0..k` of at most `L` entries. */
  ghost function KeysUpTo(k: nat, L: nat): set<seq<nat>>
  {
    if L == 0 then {} else KeysUpTo(k, L - 1) + set w | w in Words(L, k) && IsKey(w, k)
  }

  /** Every key over `0..k`: one per sub-simplex of `0..k` and vertex of it. */
  ghost function AllKeys(k: nat): set<seq<nat>>
  {
    KeysUpTo(k, k + 1)
  }

  lemma {:induction false} KeysUpToMembers(k: nat, L: nat, key: seq<nat>)
    ensures key in KeysUpTo(k, L) <==> IsKey(key, k) && |key| <= L
    decreases L
  {
    if L > 0 {
      KeysUpToMembers(k, L - 1, key);
      WordsMembers(L, k, key);
    }
  }

  /** `AllKeys(k)` is exactly the keys of at most `k + 1` entries. */
  lemma AllKeysMembers(k: nat, key: seq<nat>)
    ensures key in AllKeys(k) <==> IsKey(key, k) && |key| <= k + 1
  {
    KeysUpToMembers(k, k + 1, key);
  }

  /** A key over fewer vertices is a key over more: the slots needed grow
      with the dimension. */
  lemma AllKeysGrow(k: nat, k': nat)
    requires k <= k'
    ensures AllKeys(k) <= AllKeys(k')
    ensures |AllKeys(k)| <= |AllKeys(k')|
  {
    forall key | key in AllKeys(k)
      ensures key in AllKeys(k')
    {
      AllKeysMembers(k, key);
      AllKeysMembers(k', key);
    }
    SubsetCard(AllKeys(k), AllKeys(k'));
  }
}
