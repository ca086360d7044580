/**
  Sub-simplex keys of the Johnson recursion template.

  A sub-simplex with vertex list `S` (strictly increasing vertex indices) that
  was reached by removing vertex `r` from a larger one is written `S + [r]`;
  the template builder uses these lists both as memo keys and as blocks of
  its flat permutation list.  This module proves the facts about such keys
  that the builder's invariants need.
 */
module SubsimplexKeys {

  /** Strictly increasing. */
  predicate Increasing(s: seq<nat>)
  {
    forall a, b :: 0 <= a < b < |s| ==> s[a] < s[b]
  }

  /** `[0, 1, ..., n - 1]`. */
  function Range(n: nat): (r: seq<nat>)
    ensures |r| == n
    ensures forall i :: 0 <= i < n ==> r[i] == i
  {
    seq(n, i requires 0 <= i < n => i as nat)
  }

  /** `s` with every occurrence of `x` dropped, order kept. */
  function Remove(s: seq<nat>, x: nat): seq<nat>
  {
    if |s| == 0 then []
    else Remove(s[..|s| - 1], x) + (if s[|s| - 1] == x then [] else [s[|s| - 1]])
  }

  /** The sub-list that removes the `j`-th vertex of `s` and records it last. */
  function SubKey(s: seq<nat>, j: nat): seq<nat>
    requires j < |s|
  {
    Remove(s, s[j]) + [s[j]]
  }

  /** The vertex list of a key (all but the recorded vertex). */
  function Front(key: seq<nat>): seq<nat>
    requires |key| >= 1
  {
    key[..|key| - 1]
  }

  /** A well-formed key over the vertices `0..k`: an increasing vertex list
      followed by a vertex that is not in it. */
  ghost predicate IsKey(key: seq<nat>, k: nat)
  {
    && |key| >= 1
    && Increasing(Front(key))
    && key[|key| - 1] !in Front(key)
    && forall x :: x in key ==> x <= k
  }

  /** Keys of length `L` containing no vertex 0. */
  ghost predicate ZeroFreeKey(key: seq<nat>, k: nat, L: nat)
  {
    IsKey(key, k) && |key| == L && 0 !in key
  }

  /** The sorted insertion of `x` into `t`. */
  ghost function Insert(t: seq<nat>, x: nat): seq<nat>
  {
    if |t| == 0 then [x]
    else if x < t[0] then [x] + t
    else [t[0]] + Insert(t[1..], x)
  }

  lemma {:induction false} RemoveMembers(s: seq<nat>, x: nat)
    ensures forall y :: y in Remove(s, x) <==> y in s && y != x
    decreases |s|
  {
    if |s| > 0 {
      RemoveMembers(s[..|s| - 1], x);
      assert s == s[..|s| - 1] + [s[|s| - 1]];
    }
  }

  lemma {:induction false} RemoveAbsent(s: seq<nat>, x: nat)
    requires x !in s
    ensures Remove(s, x) == s
    decreases |s|
  {
    if |s| > 0 {
      assert s == s[..|s| - 1] + [s[|s| - 1]];
      assert x !in s[..|s| - 1];
      RemoveAbsent(s[..|s| - 1], x);
    }
  }

  /** On an increasing list, removing the value at `j` removes place `j`. */
  lemma {:induction false} RemoveAt(s: seq<nat>, j: nat)
    requires Increasing(s) && j < |s|
    ensures Remove(s, s[j]) == s[..j] + s[j + 1..]
    decreases |s|
  {
    var n := |s|;
    var init := s[..n - 1];
    if j == n - 1 {
      assert s[j] !in init;
      RemoveAbsent(init, s[j]);
    } else {
      assert init[j] == s[j];
      RemoveAt(init, j);
      assert s[..j] + s[j + 1..] == init[..j] + init[j + 1..] + [s[n - 1]];
    }
  }

  lemma IncreasingWithout(s: seq<nat>, j: nat)
    requires Increasing(s) && j < |s|
    ensures Increasing(s[..j] + s[j + 1..])
  {
    var r := s[..j] + s[j + 1..];
    forall a, b | 0 <= a < b < |r|
      ensures r[a] < r[b]
    {
      var a' := if a < j then a else a + 1;
      var b' := if b < j then b else b + 1;
      assert r[a] == s[a'] && r[b] == s[b'];
    }
  }

  /** A sub-list has the same length and the same vertices as its list. */
  lemma SubKeyMembers(s: seq<nat>, j: nat)
    requires Increasing(s) && j < |s|
    ensures |SubKey(s, j)| == |s|
    ensures Front(SubKey(s, j)) == Remove(s, s[j]) == s[..j] + s[j + 1..]
    ensures SubKey(s, j)[|s| - 1] == s[j]
    ensures Increasing(Front(SubKey(s, j)))
    ensures s[j] !in Front(SubKey(s, j))
    ensures forall y :: y in SubKey(s, j) <==> y in s
  {
    RemoveAt(s, j);
    IncreasingWithout(s, j);
    RemoveMembers(s, s[j]);
    var c := SubKey(s, j);
    assert Front(c) == Remove(s, s[j]);
    assert s == s[..j] + [s[j]] + s[j + 1..];
  }

  /** A sub-list of a list over `0..k` is a key over `0..k`. */
  lemma SubKeyIsKey(s: seq<nat>, j: nat, k: nat)
    requires Increasing(s) && j < |s|
    requires forall x :: x in s ==> x <= k
    ensures IsKey(SubKey(s, j), k)
    ensures |SubKey(s, j)| == |s|
    ensures forall y :: y in SubKey(s, j) <==> y in s
  {
    SubKeyMembers(s, j);
  }

  /** Two different removed vertices give two different sub-lists. */
  lemma SubKeyDistinct(s: seq<nat>, j1: nat, j2: nat)
    requires Increasing(s) && j1 < |s| && j2 < |s| && j1 != j2
    ensures SubKey(s, j1) != SubKey(s, j2)
  {
    RemoveAt(s, j1);
    RemoveAt(s, j2);
    var c1, c2 := SubKey(s, j1), SubKey(s, j2);
    assert c1[|c1| - 1] == s[j1] != s[j2] == c2[|c2| - 1];
  }

  /** An increasing list climbs at least one per place. */
  lemma {:induction false} IncreasingGap(s: seq<nat>, a: nat, b: nat)
    requires Increasing(s) && a <= b < |s|
    ensures s[b] >= s[a] + (b - a)
    decreases b - a
  {
    if a < b {
      IncreasingGap(s, a + 1, b);
    }
  }

  /** Increasing lists with the same members are equal. */
  lemma {:induction false} Unique(a: seq<nat>, b: seq<nat>)
    requires Increasing(a) && Increasing(b)
    requires forall y :: y in a <==> y in b
    ensures a == b
    decreases |a|
  {
    if |a| > 0 || |b| > 0 {
      assert |a| > 0 ==> a[0] in b;
      assert |b| > 0 ==> b[0] in a;
      assert |a| > 0 && |b| > 0;
      assert a[0] in b && b[0] in a;
      var t :| 0 <= t < |b| && b[t] == a[0];
      var u :| 0 <= u < |a| && a[u] == b[0];
      assert a[0] <= a[u] && b[0] <= b[t];
      assert a[0] == b[0];
      forall y
        ensures y in a[1..] <==> y in b[1..]
      {
        if y in a[1..] {
          var p :| 1 <= p < |a| && a[p] == y;
          assert y > a[0];
          assert y in b;
        }
        if y in b[1..] {
          var p :| 1 <= p < |b| && b[p] == y;
          assert y > b[0];
          assert y in a;
        }
      }
      Unique(a[1..], b[1..]);
      assert a == [a[0]] + a[1..] && b == [b[0]] + b[1..];
    }
  }

  /** A sub-list determines the vertex list it came from. */
  lemma SubKeyDeterminesList(s1: seq<nat>, j1: nat, s2: seq<nat>, j2: nat)
    requires Increasing(s1) && j1 < |s1| && Increasing(s2) && j2 < |s2|
    requires SubKey(s1, j1) == SubKey(s2, j2)
    ensures s1 == s2
  {
    SubKeyMembers(s1, j1);
    SubKeyMembers(s2, j2);
    Unique(s1, s2);
  }

  /** An increasing list of `n` values below `n` is `Range(n)`. */
  lemma FullRange(s: seq<nat>, n: nat)
    requires Increasing(s) && |s| == n
    requires forall x :: x in s ==> x < n
    ensures s == Range(n)
  {
    forall t | 0 <= t < n
      ensures s[t] == t
    {
      IncreasingGap(s, 0, t);
      IncreasingGap(s, t, n - 1);
      assert s[n - 1] in s;
    }
  }

  /** A list of at most `k` vertices misses some vertex of `0..k`. */
  lemma MissingVertex(s: seq<nat>, k: nat) returns (r: nat)
    requires Increasing(s) && |s| <= k
    ensures r <= k && r !in s
  {
    var t := 0;
    while t < |s| && s[t] == t
      invariant 0 <= t <= |s|
      invariant forall a :: 0 <= a < t ==> s[a] == a
    {
      t := t + 1;
    }
    r := t;
    forall a | 0 <= a < |s|
      ensures s[a] != r
    {
      if a >= t {
        IncreasingGap(s, t, a);
        IncreasingGap(s, 0, t);
      }
    }
  }

  /** A list of fewer than `k` nonzero vertices misses a nonzero vertex. */
  lemma MissingNonzeroVertex(s: seq<nat>, k: nat) returns (r: nat)
    requires Increasing(s) && |s| < k && 0 !in s
    ensures 0 < r <= k && r !in s
  {
    var s' := [0] + s;
    forall a, b | 0 <= a < b < |s'|
      ensures s'[a] < s'[b]
    {
      if a > 0 {
        assert s'[a] == s[a - 1] && s'[b] == s[b - 1];
      } else {
        assert s'[b] == s[b - 1] && s[b - 1] in s;
      }
    }
    r := MissingVertex(s', k);
    assert r != 0;
  }

  lemma {:induction false} InsertMembers(t: seq<nat>, x: nat)
    ensures |Insert(t, x)| == |t| + 1
    ensures forall y :: y in Insert(t, x) <==> y in t || y == x
    decreases |t|
  {
    if |t| > 0 && x >= t[0] {
      InsertMembers(t[1..], x);
      assert t == [t[0]] + t[1..];
    }
  }

  lemma {:induction false} InsertIncreasing(t: seq<nat>, x: nat)
    requires Increasing(t) && x !in t
    ensures Increasing(Insert(t, x))
    decreases |t|
  {
    if |t| == 0 {
    } else if x < t[0] {
      var r := [x] + t;
      forall a, b | 0 <= a < b < |r|
        ensures r[a] < r[b]
      {
        if a == 0 {
          IncreasingGap(t, 0, b - 1);
        }
      }
    } else {
      var t' := t[1..];
      assert x !in t';
      InsertIncreasing(t', x);
      InsertMembers(t', x);
      var r := [t[0]] + Insert(t', x);
      forall a, b | 0 <= a < b < |r|
        ensures r[a] < r[b]
      {
        if a == 0 {
          var y := r[b];
          assert y in Insert(t', x);
          if y != x {
            var p :| 0 <= p < |t'| && t'[p] == y;
            assert t[p + 1] == y;
          }
        }
      }
    }
  }

  /** The insertion puts `x` at some place `p`, keeping `t` around it. */
  lemma {:induction false} InsertSplit(t: seq<nat>, x: nat) returns (p: nat)
    ensures p <= |t|
    ensures Insert(t, x) == t[..p] + [x] + t[p..]
    decreases |t|
  {
    if |t| == 0 || x < t[0] {
      p := 0;
    } else {
      var p' := InsertSplit(t[1..], x);
      p := p' + 1;
      assert t[..p] == [t[0]] + t[1..][..p'];
      assert t[p..] == t[1..][p'..];
    }
  }

  lemma InsertRemove(t: seq<nat>, x: nat)
    requires Increasing(t) && x !in t
    ensures Remove(Insert(t, x), x) == t
  {
    var p := InsertSplit(t, x);
    InsertIncreasing(t, x);
    var r := Insert(t, x);
    assert r[p] == x;
    RemoveAt(r, p);
    assert r[..p] == t[..p];
    assert r[p + 1..] == t[p..];
  }

  /** Every key is a sub-list of its sorted vertex set `s`, at some place `j`. */
  lemma KeyAsSubKey(key: seq<nat>, k: nat) returns (s: seq<nat>, j: nat)
    requires IsKey(key, k)
    ensures s == Insert(Front(key), key[|key| - 1])
    ensures Increasing(s) && |s| == |key|
    ensures forall x :: x in s ==> x <= k
    ensures forall y :: y in s <==> y in key
    ensures j < |s| && SubKey(s, j) == key && s[j] == key[|key| - 1]
  {
    var f, x := Front(key), key[|key| - 1];
    InsertMembers(f, x);
    InsertIncreasing(f, x);
    InsertRemove(f, x);
    s := Insert(f, x);
    assert key == f + [x];
    forall y
      ensures y in s <==> y in key
    {
    }
    assert x in s;
    var p :| 0 <= p < |s| && s[p] == x;
    j := p;
  }

  /** Each key of length `L` has a parent key `s + [r]` of length `L + 1`
      for every vertex `r` it leaves out. */
  lemma ParentKey(key: seq<nat>, k: nat, r: nat) returns (s: seq<nat>, j: nat)
    requires IsKey(key, k) && r <= k && r !in key
    ensures IsKey(s + [r], k) && |s| == |key| && Front(s + [r]) == s
    ensures forall y :: y in s <==> y in key
    ensures j < |s| && SubKey(s, j) == key
  {
    s, j := KeyAsSubKey(key, k);
    var p := s + [r];
    assert Front(p) == s;
    assert p[|p| - 1] == r;
    assert r !in s;
    forall x | x in p
      ensures x <= k
    {
      if x != r {
        assert x in s;
      }
    }
  }

  /** A key without vertex 0 that leaves out some other vertex has a parent
      key, one longer, also without vertex 0. */
  lemma ZeroFreeParentKey(key: seq<nat>, k: nat) returns (parent: seq<nat>, j: nat)
    requires ZeroFreeKey(key, k, |key|) && |key| < k
    ensures ZeroFreeKey(parent, k, |key| + 1)
    ensures j < |key| && SubKey(Front(parent), j) == key
  {
    var s, _ := KeyAsSubKey(key, k);
    var r := MissingNonzeroVertex(s, k);
    var s';
    s', j := ParentKey(key, k, r);
    parent := s' + [r];
    assert 0 !in s';
  }

  /** The keys that use all `k + 1` vertices are the sub-lists of the full
      vertex list. */
  lemma FullKey(key: seq<nat>, k: nat)
    requires IsKey(key, k) && |key| == k + 1
    ensures key[k] <= k
    ensures key == SubKey(Range(k + 1), key[k])
  {
    var s, j := KeyAsSubKey(key, k);
    assert |key| - 1 == k;
    assert forall x :: x in s ==> x < k + 1;
    FullRange(s, k + 1);
    assert s[j] == Range(k + 1)[j] == j;
    assert key[k] == j;
  }

  /** Every key over all `k + 1` vertices contains vertex 0. */
  lemma FullKeyHasZero(key: seq<nat>, k: nat)
    requires IsKey(key, k) && |key| == k + 1
    ensures 0 in key
  {
    FullKey(key, k);
    SubKeyMembers(Range(k + 1), key[k]);
    assert Range(k + 1)[0] == 0;
  }

  /** Removing vertex 0 from the full vertex list leaves a zero-free list. */
  lemma FirstSubKeyZeroFree(k: nat)
    ensures |SubKey(Range(k + 1), 0)| == k + 1
    ensures 0 !in Front(SubKey(Range(k + 1), 0))
  {
    SubKeyMembers(Range(k + 1), 0);
  }

  /** An increasing list of `k` vertices from `1..k` is `[1, ..., k]`. */
  lemma TopRange(s: seq<nat>, k: nat)
    requires Increasing(s) && |s| == k
    requires forall x :: x in s ==> 1 <= x <= k
    ensures s == Range(k + 1)[1..]
  {
    var top := Range(k + 1)[1..];
    if k > 0 {
      assert s[0] in s && s[k - 1] in s;
      forall t | 0 <= t < k
        ensures s[t] == top[t]
      {
        IncreasingGap(s, 0, t);
        IncreasingGap(s, t, k - 1);
      }
    }
  }

  /** A key with `k` vertices none of which is 0 uses all of `1..k`: it is a
      sub-list of `[1, ..., k]`. */
  lemma ZeroFreeTopKey(key: seq<nat>, k: nat) returns (j: nat)
    requires ZeroFreeKey(key, k, k)
    ensures j < k && key == SubKey(Range(k + 1)[1..], j)
  {
    var s, j0 := KeyAsSubKey(key, k);
    forall x | x in s
      ensures 1 <= x <= k
    {
      assert x in key && 0 !in key;
      assert x != 0;
    }
    TopRange(s, k);
    j := j0;
  }
}
