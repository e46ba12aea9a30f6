/**
 * Index permutations. The scripts get their shuffles from library randomness
 * (`np.random.shuffle`, `torch.randperm`); the model takes the shuffled index
 * array as an input and only asks that it is some permutation.
 */
module Permutations {

  /** `np.arange(n)` */
  function Range(n: nat): (r: seq<nat>)
    ensures |r| == n && forall i :: 0 <= i < n ==> r[i] == i
  {
    seq(n, i requires 0 <= i < n => i as nat)
  }

  /** `perm` is `np.arange(n)` in some order (so every entry indexes an array of length `n`). */
  predicate IsPermutationOf(perm: seq<nat>, n: nat)
  {
    (forall i :: 0 <= i < |perm| ==> perm[i] < n) && multiset(perm) == multiset(Range(n))
  }

  lemma PermutationLength(perm: seq<nat>, n: nat)
    requires multiset(perm) == multiset(Range(n))
    ensures |perm| == n
    ensures forall i :: 0 <= i < |perm| ==> perm[i] < n
  {
    assert |perm| == |multiset(perm)| == |multiset(Range(n))| == n;
    forall i | 0 <= i < |perm| ensures perm[i] < n {
      assert perm[i] in multiset(Range(n));
    }
  }

  /** Fancy indexing `s[idx]`: the elements of `s` at the positions `idx` lists. */
  function Gather<T>(s: seq<T>, idx: seq<nat>): (r: seq<T>)
    requires forall i :: 0 <= i < |idx| ==> idx[i] < |s|
    ensures |r| == |idx| && forall i :: 0 <= i < |idx| ==> r[i] == s[idx[i]]
  {
    seq(|idx|, i requires 0 <= i < |idx| => s[idx[i]])
  }

  /** Taking the largest index out of a permutation leaves a permutation of the rest. */
  lemma RemoveLargest(perm: seq<nat>, n: nat) returns (k: nat)
    requires IsPermutationOf(perm, n) && 0 < n
    ensures k < |perm| && perm[k] == n - 1
    ensures IsPermutationOf(perm[..k] + perm[k + 1..], n - 1)
  {
    assert Range(n) == Range(n - 1) + [n - 1];
    assert n - 1 in multiset(perm);
    k :| 0 <= k < |perm| && perm[k] == n - 1;
    assert perm == perm[..k] + [n - 1] + perm[k + 1..];
    assert multiset(perm[..k] + perm[k + 1..]) == multiset(perm) - multiset{(n - 1) as nat};
    PermutationLength(perm[..k] + perm[k + 1..], n - 1);
  }

  /** Gathering with the largest index taken out of the index array. */
  lemma GatherWithout<T>(s: seq<T>, perm: seq<nat>, k: nat, perm': seq<nat>)
    requires IsPermutationOf(perm, |s|) && 0 < |s| && k < |perm| && perm[k] == |s| - 1
    requires perm' == perm[..k] + perm[k + 1..] && IsPermutationOf(perm', |s| - 1)
    ensures Gather(s, perm)
         == Gather(s[..|s| - 1], perm')[..k] + [s[|s| - 1]] + Gather(s[..|s| - 1], perm')[k..]
  {
    assert forall i :: 0 <= i < |perm'| ==> perm'[i] == if i < k then perm[i] else perm[i + 1];
  }

  /** Reordering by a permutation neither loses, duplicates nor invents an element. */
  lemma {:induction false} GatherPermutation<T>(s: seq<T>, perm: seq<nat>)
    requires IsPermutationOf(perm, |s|)
    ensures multiset(Gather(s, perm)) == multiset(s)
    decreases |s|
  {
    PermutationLength(perm, |s|);
    var n := |s|;
    if n == 0 {
      assert Gather(s, perm) == [];
    } else {
      var k := RemoveLargest(perm, n);
      var perm' := perm[..k] + perm[k + 1..];
      GatherPermutation(s[..n - 1], perm');
      GatherPermutationStep(s, perm, k, perm');
    }
  }

  /** The step of the proof above: putting the last element back where `perm` lists it. */
  lemma GatherPermutationStep<T>(s: seq<T>, perm: seq<nat>, k: nat, perm': seq<nat>)
    requires IsPermutationOf(perm, |s|) && 0 < |s| && k < |perm| && perm[k] == |s| - 1
    requires perm' == perm[..k] + perm[k + 1..] && IsPermutationOf(perm', |s| - 1)
    requires multiset(Gather(s[..|s| - 1], perm')) == multiset(s[..|s| - 1])
    ensures multiset(Gather(s, perm)) == multiset(s)
  {
    var n := |s|;
    var s' := s[..n - 1];
    PermutationLength(perm', n - 1);
    GatherWithout(s, perm, k, perm');
    MultisetSplice(Gather(s', perm'), k, s[n - 1]);
    assert s == s' + [s[n - 1]];
  }

  /** Putting `x` back into a sequence adds one `x` to its multiset. */
  lemma MultisetSplice<T>(s: seq<T>, k: nat, x: T)
    requires k <= |s|
    ensures multiset(s[..k] + [x] + s[k..]) == multiset(s) + multiset{x}
  {
    assert s == s[..k] + s[k..];
  }
}
