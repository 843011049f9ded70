/** Generic facts about sequences and their multisets, used by the
    order-independence proofs of the summaries. */
module Seqs {

  /** No element occurs twice. */
  predicate Distinct<T(==)>(s: seq<T>)
  {
    forall i, j :: 0 <= i < j < |s| ==> s[i] != s[j]
  }

  /** A sequence is its prefix, element `k` and suffix. */
  lemma SplitAt<T>(ys: seq<T>, k: nat)
    requires k < |ys|
    ensures ys == ys[..k] + [ys[k]] + ys[k + 1..]
  {
  }

  /** As a multiset, a sequence is element `k` plus the rest. */
  lemma MultisetSplit<T>(ys: seq<T>, k: nat)
    requires k < |ys|
    ensures multiset(ys) == multiset(ys[..k] + ys[k + 1..]) + multiset{ys[k]}
  {
    assert ys == ys[..k] + [ys[k]] + ys[k + 1..];
    assert multiset(ys) == multiset(ys[..k]) + multiset{ys[k]} + multiset(ys[k + 1..]);
  }

  /** If the last element of `xs` is element `k` of `ys` and the two are
      permutations of each other, so are what remains of each. */
  lemma MultisetRemoveMatch<T>(xs: seq<T>, ys: seq<T>, k: nat)
    requires |xs| >= 1 && k < |ys| && multiset(xs) == multiset(ys) && ys[k] == xs[|xs| - 1]
    ensures multiset(xs[..|xs| - 1]) == multiset(ys[..k] + ys[k + 1..])
  {
    var x := xs[|xs| - 1];
    assert xs == xs[..|xs| - 1] + [x];
    assert multiset(xs) == multiset(xs[..|xs| - 1]) + multiset{x};
    MultisetSplit(ys, k);
    assert multiset(xs[..|xs| - 1]) == multiset(xs) - multiset{x};
    assert multiset(ys[..k] + ys[k + 1..]) == multiset(ys) - multiset{x};
  }

  /** An element of a permutation of `xs` sits somewhere in `xs`. */
  lemma FindIn<T>(x: T, ys: seq<T>) returns (k: nat)
    requires x in multiset(ys)
    ensures k < |ys| && ys[k] == x
  {
    k :| 0 <= k < |ys| && ys[k] == x;
  }

  /** The parts joined end to end, in order. */
  function Concat<T>(parts: seq<seq<T>>): seq<T>
  {
    if |parts| == 0 then [] else Concat(parts[..|parts| - 1]) + parts[|parts| - 1]
  }
}
