/**
 * `np.random.shuffle(x)`: the random source is left to the caller, who supplies
 * the permutation the shuffle draws. Shuffling by `p` moves the element at index
 * `p[i]` to index `i`.
 */
module Shuffle {

  /** `p` lists each index `0 .. n-1` exactly once. */
  predicate IsPermutation(p: seq<nat>, n: nat)
  {
    |p| == n &&
    (forall i :: 0 <= i < n ==> p[i] < n) &&
    (forall i, j :: 0 <= i < j < n ==> p[i] != p[j])
  }

  /** The order of `s` after a shuffle that drew `p`. */
  function Permute<T>(s: seq<T>, p: seq<nat>): (r: seq<T>)
    requires |p| == |s|
    requires forall i :: 0 <= i < |p| ==> p[i] < |s|
    ensures |r| == |s|
    ensures forall i :: 0 <= i < |s| ==> r[i] == s[p[i]]
  {
    seq(|s|, i requires 0 <= i < |s| => s[p[i]])
  }

  /** A shuffle only reorders: the result holds the same elements, each as often as before. */
  lemma {:induction false} PermutePreservesMultiset<T>(s: seq<T>, p: seq<nat>)
    requires IsPermutation(p, |s|)
    ensures multiset(Permute(s, p)) == multiset(s)
    decreases |s|
  {
    if s != [] {
      var n := |s|;
      var m := p[n - 1];
      // Drop index m from s and renumber the remaining indices of p accordingly.
      var s' := s[..m] + s[m + 1..];
      var p': seq<nat> := seq(n - 1, i requires 0 <= i < n - 1 => if p[i] <= m then p[i] else p[i] - 1);
      forall i | 0 <= i < n - 1
        ensures p'[i] < n - 1 && s'[p'[i]] == s[p[i]]
      {
        assert p[i] != p[n - 1];
      }
      forall i, j | 0 <= i < j < n - 1
        ensures p'[i] != p'[j]
      {
        assert p[i] != p[j] && p[i] != m && p[j] != m;
      }
      PermutePreservesMultiset(s', p');
      var r := Permute(s, p);
      assert r == Permute(s', p') + [s[m]];
      assert s == s[..m] + [s[m]] + s[m + 1..];
      calc {
        multiset(r);
        multiset(Permute(s', p')) + multiset{s[m]};
        multiset(s') + multiset{s[m]};
        multiset(s[..m]) + multiset{s[m]} + multiset(s[m + 1..]);
        multiset(s);
      }
    }
  }

  /** Reorders `a` in place as the shuffle that drew `p` does. */
  method ApplyShuffle<T>(a: array<T>, p: seq<nat>)
    requires IsPermutation(p, a.Length)
    modifies a
    ensures a[..] == Permute(old(a[..]), p)
  {
    var before := a[..];
    for i := 0 to a.Length
      invariant forall k :: 0 <= k < i ==> a[k] == before[p[k]]
    {
      a[i] := before[p[i]];
    }
  }
}
