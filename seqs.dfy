/**
 * Small facts about sequences that the path and run proofs use, each stated once so that
 * a proof about paths or runs can cite the one it needs.
 */
module Seqs {
  predicate IsPrefix<T(==)>(p: seq<T>, s: seq<T>)
  {
    |p| <= |s| && s[..|p|] == p
  }

  lemma PrefixOfAppend<T>(p: seq<T>, s: seq<T>)
    ensures IsPrefix(p, p + s)
  {
    assert (p + s)[..|p|] == p;
  }

  lemma AppendAssoc<T>(a: seq<T>, b: seq<T>, c: seq<T>)
    ensures (a + b) + c == a + (b + c)
  {
  }

  /** The prefix one longer than `xs[..i]` ends in `xs[i]` and starts with `xs[..i]`. */
  lemma PrefixStep<T>(xs: seq<T>, i: nat)
    requires i < |xs|
    ensures |xs[..i + 1]| == i + 1 && xs[..i + 1][..i] == xs[..i] && xs[..i + 1][i] == xs[i]
  {
  }

  lemma AppendIndex<T>(a: seq<T>, b: seq<T>)
    ensures forall i :: 0 <= i < |a| ==> (a + b)[i] == a[i]
    ensures forall k :: |a| <= k < |a| + |b| ==> (a + b)[k] == b[k - |a|]
  {
  }

  /** Dropping the last element of `init + [x]` gives `init` back. */
  lemma AppendLast<T>(init: seq<T>, x: T)
    ensures (init + [x])[..|init|] == init && (init + [x])[|init|] == x
  {
  }
}
