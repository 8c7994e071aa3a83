/**
 * Two facts about slices, stated once for every element type so that the
 * solver does not compare the elements themselves.
 */
module Seqs {
  lemma SliceSplit<T>(xs: seq<T>, i: nat, j: nat, k: nat)
    requires i <= j <= k <= |xs|
    ensures xs[i..k] == xs[i..j] + xs[j..k]
  {
  }

  lemma AppendParts<T>(a: seq<T>, b: seq<T>)
    ensures (a + b)[..|a|] == a && (a + b)[|a|..] == b
  {
  }

  lemma AppendAssoc<T>(a: seq<T>, b: seq<T>, c: seq<T>)
    ensures (a + b) + c == a + (b + c)
  {
  }

  /** A non-empty `b` is its front plus its last element, also behind `a`. */
  lemma Snoc<T>(a: seq<T>, b: seq<T>)
    requires b != []
    ensures b == b[..|b| - 1] + [b[|b| - 1]]
    ensures a + b == (a + b[..|b| - 1]) + [b[|b| - 1]]
    ensures (a + b)[..|a + b| - 1] == a + b[..|b| - 1] && (a + b)[|a + b| - 1] == b[|b| - 1]
  {
  }

  /** Two adjacent slices spell the concatenation of their contents. */
  lemma Cat<T>(xs: seq<T>, i: nat, j: nat, k: nat, u: seq<T>, v: seq<T>)
    requires i <= j <= k <= |xs| && xs[i..j] == u && xs[j..k] == v
    ensures xs[i..k] == u + v
  {
    SliceSplit(xs, i, j, k);
  }

  /** The first `n` elements of the suffix from `p` are the slice from `p`. */
  lemma PrefixAt<T>(xs: seq<T>, p: nat, n: nat)
    requires p + n <= |xs|
    ensures xs[p..][..n] == xs[p..p + n]
  {
    SliceOfSlice(xs, p, |xs|, 0, n);
  }

  lemma SliceOfSlice<T>(xs: seq<T>, p: nat, e: nat, i: nat, j: nat)
    requires p <= e <= |xs| && i <= j <= e - p
    ensures xs[p..e][i..j] == xs[p + i..p + j]
  {
    forall t | 0 <= t < j - i
      ensures xs[p..e][i..j][t] == xs[p + i..p + j][t]
    {
    }
  }

  /** A slice of `xs` that spells `u + v` holds each at its offset. */
  lemma TwoPartsAt<T>(xs: seq<T>, p: nat, u: seq<T>, v: seq<T>)
    requires p + |u| + |v| <= |xs| && xs[p..p + |u| + |v|] == u + v
    ensures xs[p..p + |u|] == u && xs[p + |u|..p + |u| + |v|] == v
  {
    AppendParts(u, v);
    SliceOfSlice(xs, p, p + |u| + |v|, 0, |u|);
    SliceOfSlice(xs, p, p + |u| + |v|, |u|, |u| + |v|);
  }

  /** A slice of `xs` that spells six parts holds each at its offset. */
  lemma SixPartsAt<T>(xs: seq<T>, p: nat, a: seq<T>, b: seq<T>, c: seq<T>, d: seq<T>, e: seq<T>, f: seq<T>)
    requires p + |a| + |b| + |c| + |d| + |e| + |f| <= |xs|
    requires xs[p..p + |a| + |b| + |c| + |d| + |e| + |f|] == a + b + c + d + e + f
    ensures var i := p + |a|; var j := i + |b|; var k := j + |c|; var l := k + |d|; var m := l + |e|;
      && xs[p..i] == a && xs[i..j] == b && xs[j..k] == c && xs[k..l] == d && xs[l..m] == e
      && xs[m..m + |f|] == f
  {
    TwoPartsAt(xs, p, a + b + c + d + e, f);
    TwoPartsAt(xs, p, a + b + c + d, e);
    TwoPartsAt(xs, p, a + b + c, d);
    TwoPartsAt(xs, p, a + b, c);
    TwoPartsAt(xs, p, a, b);
  }
}
