/** The application's `shuffle` reorders a list by a random comparator. The
    model abstracts the randomness away: the caller supplies the permutation,
    as a sequence of source positions, and the shuffle applies it. */
module Shuffle {

  /** No element occurs twice. */
  predicate NoDups<T(==)>(s: seq<T>) {
    forall i, j :: 0 <= i < j < |s| ==> s[i] != s[j]
  }

  /** `p` lists every position of a sequence of length `n` exactly once. */
  predicate IsPermutation(p: seq<nat>, n: nat) {
    |p| == n &&
    (forall i :: 0 <= i < n ==> p[i] < n) &&
    (forall i, j :: 0 <= i < j < n ==> p[i] != p[j])
  }

  /** The identity permutation (a shuffle that happens to keep the order). */
  function Identity(n: nat): (p: seq<nat>)
    ensures IsPermutation(p, n)
    ensures forall i :: 0 <= i < n ==> p[i] == i
  {
    seq(n, i requires 0 <= i < n => i)
  }

  /** `shuffle(s)`: element `i` of the result is element `p[i]` of `s`; the
      result holds the same elements as `s`, each as often. */
  function Permute<T>(s: seq<T>, p: seq<nat>): (r: seq<T>)
    requires IsPermutation(p, |s|)
    ensures |r| == |s|
    ensures forall i :: 0 <= i < |s| ==> r[i] == s[p[i]]
    ensures multiset(r) == multiset(s)
  {
    var r := seq(|s|, i requires 0 <= i < |s| => s[p[i]]);
    PermutedMultiset(s, p, r);
    r
  }

  /** Rearranging by a permutation of positions keeps the multiset of elements. */
  lemma {:induction false} PermutedMultiset<T>(s: seq<T>, p: seq<nat>, r: seq<T>)
    requires IsPermutation(p, |s|) && |r| == |s|
    requires forall i :: 0 <= i < |s| ==> r[i] == s[p[i]]
    ensures multiset(r) == multiset(s)
    decreases |s|
  {
    var n := |s|;
    if n > 0 {
      // Take out the position the last element of r comes from, and close the gap.
      var m := p[n - 1];
      var s' := s[..m] + s[m + 1..];
      var p' := seq(n - 1, i requires 0 <= i < n - 1 => if p[i] < m then p[i] else p[i] - 1);
      var r' := r[..n - 1];
      forall i | 0 <= i < n - 1 ensures p'[i] < n - 1 && r'[i] == s'[p'[i]] {
        assert p[i] != m;
      }
      forall i, j | 0 <= i < j < n - 1 ensures p'[i] != p'[j] {
        assert p[i] != p[j];
      }
      PermutedMultiset(s', p', r');
      assert r == r' + [s[m]];
      assert s == s[..m] + [s[m]] + s[m + 1..];
    }
  }

  /** Shuffling keeps the elements distinct when they were. */
  lemma PermuteKeepsDistinct<T>(s: seq<T>, p: seq<nat>)
    requires IsPermutation(p, |s|) && NoDups(s)
    ensures NoDups(Permute(s, p))
  {
  }
}
