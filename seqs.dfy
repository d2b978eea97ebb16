/** Sequence helpers shared by the ring model: reversal, insertion at an index,
    and order-preserving embeddings (subsequences). */
module Seqs {

  /** The sequence read back to front. */
  function Reverse<T>(s: seq<T>): seq<T>
  {
    seq(|s|, i requires 0 <= i < |s| => s[|s| - 1 - i])
  }

  /** The swap loop `for i := len(s)/2 - 1; i >= 0; i--` that exchanges s[i]
      and s[len(s) - 1 - i]. */
  method ReverseInPlace<T>(a: array<T>)
    modifies a
    ensures a[..] == Reverse(old(a[..]))
  {
    ghost var s := a[..];
    var n := a.Length;
    var i := n / 2 - 1;
    while i >= 0
      invariant -1 <= i && 2 * i + 2 <= n
      invariant forall k :: 0 <= k <= i || n - 1 - i <= k < n ==> a[k] == s[k]
      invariant forall k :: i < k < n - 1 - i ==> a[k] == s[n - 1 - k]
      decreases i + 1
    {
      var opp := n - 1 - i;
      a[i], a[opp] := a[opp], a[i];
      i := i - 1;
    }
  }

  lemma ReverseReverse<T>(s: seq<T>)
    ensures Reverse(Reverse(s)) == s
  {
  }

  /** Go's `append(s[:x], append([]T{h}, s[x:]...)...)`: h lands at index x,
      immediately before the element that was at x. */
  function Insert<T>(s: seq<T>, x: nat, h: T): (r: seq<T>)
    requires x <= |s|
    ensures |r| == |s| + 1 && r[x] == h
    ensures r[..x] == s[..x] && r[x + 1..] == s[x..]
  {
    s[..x] + [h] + s[x..]
  }

  /** f maps each position of a to a position of b holding the same element,
      strictly increasing: a occurs in b in the same relative order. */
  ghost predicate Embedding<T>(a: seq<T>, b: seq<T>, f: seq<nat>)
  {
    && |f| == |a|
    && (forall k :: 0 <= k < |f| ==> f[k] < |b| && b[f[k]] == a[k])
    && (forall k, l :: 0 <= k < l < |f| ==> f[k] < f[l])
  }

  ghost predicate Subsequence<T>(a: seq<T>, b: seq<T>)
  {
    exists f :: Embedding(a, b, f)
  }

  lemma SubsequenceRefl<T>(s: seq<T>)
    ensures Subsequence(s, s)
  {
    var f: seq<nat> := seq(|s|, k requires 0 <= k < |s| => k);
    assert Embedding(s, s, f);
  }

  lemma SubsequenceInsert<T>(s: seq<T>, x: nat, h: T)
    requires x <= |s|
    ensures Subsequence(s, Insert(s, x, h))
  {
    var f: seq<nat> := seq(|s|, k requires 0 <= k < |s| => if k < x then k else k + 1);
    var r := Insert(s, x, h);
    forall k | 0 <= k < |f|
      ensures f[k] < |r| && r[f[k]] == s[k]
    {
      if k < x {
        assert r[..x][k] == s[..x][k];
      } else {
        assert r[x + 1..][k - x] == s[x..][k - x];
      }
    }
    assert Embedding(s, r, f);
  }

  lemma SubsequenceAppend<T>(s: seq<T>, t: seq<T>)
    ensures Subsequence(s, s + t)
  {
    var f: seq<nat> := seq(|s|, k requires 0 <= k < |s| => k);
    assert Embedding(s, s + t, f);
  }

  lemma SubsequenceTrans<T>(a: seq<T>, b: seq<T>, c: seq<T>)
    requires Subsequence(a, b) && Subsequence(b, c)
    ensures Subsequence(a, c)
  {
    var f :| Embedding(a, b, f);
    var g :| Embedding(b, c, g);
    var h: seq<nat> := seq(|f|, k requires 0 <= k < |f| => g[f[k]]);
    assert Embedding(a, c, h);
  }
}
