/**
  Generic facts about flattening and reversing sequences, used to describe
  the flat index arrays of a recursion template block by block.
 */
module Sequences {

  /** Concatenation of all blocks, in order. */
  function Flatten<T>(xs: seq<seq<T>>): seq<T>
  {
    if |xs| == 0 then [] else Flatten(xs[..|xs| - 1]) + xs[|xs| - 1]
  }

  /** `s` read back to front. */
  function Reverse<T>(s: seq<T>): (r: seq<T>)
    ensures |r| == |s|
    ensures forall i :: 0 <= i < |s| ==> r[i] == s[|s| - 1 - i]
  {
    seq(|s|, i requires 0 <= i < |s| => s[|s| - 1 - i])
  }

  /** `s` cut down to its first `n` elements, or unchanged when it has no
      more than `n`. */
  function Truncate<T>(s: seq<T>, n: nat): (r: seq<T>)
    ensures |r| == if n < |s| then n else |s|
    ensures forall i :: 0 <= i < |r| ==> r[i] == s[i]
  {
    if n < |s| then s[..n] else s
  }

  /** Every block of `xs[a..b]` has length `L`. */
  ghost predicate Uniform<T>(xs: seq<seq<T>>, a: nat, b: nat, L: nat)
    requires a <= b <= |xs|
  {
    forall i :: a <= i < b ==> |xs[i]| == L
  }

  /** `part` occurs in `s` starting at place `a`. */
  ghost predicate SliceAt<T>(s: seq<T>, a: nat, part: seq<T>)
  {
    a + |part| <= |s| && s[a..a + |part|] == part
  }

  /** A part of a prefix is a part of the whole. */
  lemma SliceAtPrefix<T>(s: seq<T>, pre: seq<T>, a: nat, part: seq<T>)
    requires |pre| <= |s| && s[..|pre|] == pre && SliceAt(pre, a, part)
    ensures SliceAt(s, a, part)
  {
    assert s[a..a + |part|] == s[..|pre|][a..a + |part|];
  }

  /** The `len` entries of `s` from place `a`, known to be `part`. */
  method Slice<T>(s: seq<T>, a: nat, len: nat, ghost part: seq<T>) returns (r: seq<T>)
    requires |part| == len && SliceAt(s, a, part)
    ensures r == part
  {
    r := s[a..a + len];
  }

  lemma {:induction false} FlattenAppend<T>(a: seq<seq<T>>, b: seq<seq<T>>)
    ensures Flatten(a + b) == Flatten(a) + Flatten(b)
    decreases |b|
  {
    if |b| == 0 {
      assert a + b == a;
    } else {
      var b' := b[..|b| - 1];
      assert (a + b)[..|a + b| - 1] == a + b';
      FlattenAppend(a, b');
    }
  }

  /** One more block at the end adds it at the end. */
  lemma FlattenSnoc<T>(xs: seq<seq<T>>, x: seq<T>)
    ensures Flatten(xs + [x]) == Flatten(xs) + x
  {
    assert (xs + [x])[..|xs|] == xs;
  }

  lemma FlattenSingle<T>(x: seq<T>)
    ensures Flatten([x]) == x
  {
    assert [x][..0] == [];
  }

  /** Splitting the blocks at `i` splits the flattening. */
  lemma FlattenSplit<T>(xs: seq<seq<T>>, i: nat)
    requires i <= |xs|
    ensures Flatten(xs) == Flatten(xs[..i]) + Flatten(xs[i..])
  {
    assert xs == xs[..i] + xs[i..];
    FlattenAppend(xs[..i], xs[i..]);
  }

  /** One more block adds its own length. */
  lemma FlattenPrefixStep<T>(xs: seq<seq<T>>, i: nat)
    requires i < |xs|
    ensures Flatten(xs[..i + 1]) == Flatten(xs[..i]) + xs[i]
  {
    assert xs[..i + 1][..i] == xs[..i];
  }

  /** Block `i` sits right after the blocks before it. */
  lemma FlattenBlock<T>(xs: seq<seq<T>>, i: nat)
    requires i < |xs|
    ensures |Flatten(xs[..i])| + |xs[i]| <= |Flatten(xs)|
    ensures Flatten(xs)[|Flatten(xs[..i])| .. |Flatten(xs[..i])| + |xs[i]|] == xs[i]
  {
    FlattenSplit(xs, i + 1);
    FlattenPrefixStep(xs, i);
  }

  /** Blocks of one common length `L` take `L` places each. */
  lemma {:induction false} FlattenUniformLength<T>(xs: seq<seq<T>>, L: nat)
    requires Uniform(xs, 0, |xs|, L)
    ensures |Flatten(xs)| == |xs| * L
    decreases |xs|
  {
    if |xs| > 0 {
      FlattenUniformLength(xs[..|xs| - 1], L);
    }
  }

  /** Position `t * L + u` of a flattening of length-`L` blocks is place `u`
      of block `t`. */
  lemma {:induction false} FlattenUniformIndex<T>(xs: seq<seq<T>>, L: nat, t: nat, u: nat)
    requires Uniform(xs, 0, |xs|, L)
    requires t < |xs| && u < L
    ensures t * L + u < |Flatten(xs)|
    ensures Flatten(xs)[t * L + u] == xs[t][u]
    decreases |xs|
  {
    var n := |xs|;
    var init := xs[..n - 1];
    FlattenUniformLength(init, L);
    FlattenUniformLength(xs, L);
    if t < n - 1 {
      FlattenUniformIndex(init, L, t, u);
      assert t * L + u < (n - 1) * L by {
        assert t * L + u < t * L + L == (t + 1) * L;
        MulLe(t + 1, n - 1, L);
      }
    } else {
      assert t * L == (n - 1) * L;
    }
  }

  lemma MulLe(a: nat, b: nat, c: nat)
    requires a <= b
    ensures a * c <= b * c
  {
  }

  /** A multiple of `L` divided by `L`. */
  lemma MulDiv(g: nat, L: nat)
    requires L > 0
    ensures (g * L) % L == 0 && (g * L) / L == g
  {
    var q, r := (g * L) / L, (g * L) % L;
    assert g * L == q * L + r && 0 <= r < L;
    if q < g {
      MulLe(q + 1, g, L);
      assert false;
    }
    if q > g {
      MulLe(g + 1, q, L);
      assert false;
    }
  }

  /** Every element of a flattening comes from some block. */
  lemma {:induction false} FlattenMember<T>(xs: seq<seq<T>>, x: T)
    requires x in Flatten(xs)
    ensures exists i :: 0 <= i < |xs| && x in xs[i]
    decreases |xs|
  {
    var n := |xs|;
    if x in Flatten(xs[..n - 1]) {
      FlattenMember(xs[..n - 1], x);
      var i :| 0 <= i < n - 1 && x in xs[..n - 1][i];
      assert x in xs[i];
    } else {
      assert x in xs[n - 1];
    }
  }

  /** Appending one more element of `s` after `a`. */
  lemma AppendTakeStep<T>(a: seq<T>, s: seq<T>, j: nat)
    requires j < |s|
    ensures a + s[..j + 1] == a + s[..j] + [s[j]]
  {
    assert s[..j + 1] == s[..j] + [s[j]];
  }

  /** Growing `tail` by one element grows `head + tail` by the same. */
  lemma AppendGrow<T>(head: seq<T>, tail: seq<T>, tail': seq<T>)
    requires |tail'| == |tail| + 1 && tail'[..|tail|] == tail
    ensures head + tail' == head + tail + [tail'[|tail|]]
  {
    assert tail' == tail + [tail'[|tail|]];
  }

  /** A slice of a slice is a slice of the whole. */
  lemma SliceOfSlice<T>(s: seq<T>, i: nat, j: nat, a: nat, b: nat)
    requires i <= j <= |s| && a <= b <= j - i
    ensures s[i..j][a..b] == s[i + a..i + b]
  {
    var u := s[i..j][a..b];
    var v := s[i + a..i + b];
    assert |u| == |v| == b - a;
    forall t | 0 <= t < b - a
      ensures u[t] == v[t]
    {
      assert u[t] == s[i..j][a + t] == s[i + a + t];
    }
  }

  /** `s` with `x` appended. */
  function Snoc<T>(s: seq<T>, x: T): seq<T>
  {
    s + [x]
  }

  /** Concatenation is associative. */
  lemma AppendAssoc<T>(a: seq<T>, b: seq<T>, c: seq<T>)
    ensures (a + b) + c == a + (b + c)
  {
  }

  /** Indexing past `a` in `a + b` indexes `b`. */
  lemma AppendIndex<T>(c: seq<T>, a: seq<T>, b: seq<T>, i: nat)
    requires c == a + b && |a| <= i < |c|
    ensures c[i] == b[i - |a|]
  {
  }

  /** Indexing before `|a|` in `a + b` indexes `a`. */
  lemma PrefixIndex<T>(c: seq<T>, a: seq<T>, b: seq<T>, i: nat)
    requires c == a + b && i < |a|
    ensures c[i] == a[i]
  {
  }

  /** Being a prefix is transitive. */
  lemma PrefixTrans<T>(a: seq<T>, b: seq<T>, c: seq<T>)
    requires |a| <= |b| <= |c| && b[..|a|] == a && c[..|b|] == b
    ensures c[..|a|] == a
  {
    assert c[..|a|] == c[..|b|][..|a|];
  }
}
