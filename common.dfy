// Definitions shared by the game rules and the pretty-printer: an optional
// value, and shuffling driven by explicit random draws.

module Common {

  datatype Option<T> = None | Some(value: T)

  /** The random draws of a Fisher–Yates shuffle of n elements: at step i
      (from the back) the element at i is exchanged with the one at draws[i],
      which may be any position up to i. */
  predicate IsDraws(draws: seq<nat>, n: nat) {
    |draws| == n && forall i :: 0 <= i < n ==> draws[i] <= i
  }

  /** The shuffle the draws select. Every std::shuffle of the source is this
      function applied to draws supplied by the caller. */
  function Shuffle<T>(s: seq<T>, draws: seq<nat>): (r: seq<T>)
    requires IsDraws(draws, |s|)
    ensures |r| == |s| && multiset(r) == multiset(s)
    decreases |s|
  {
    if s == [] then []
    else
      var last := |s| - 1;
      var j := draws[last];
      var swapped := s[j := s[last]][last := s[j]];
      SwapKeepsMultiset(s, j, last);
      assert swapped == swapped[..last] + [swapped[last]];
      Shuffle(swapped[..last], draws[..last]) + [swapped[last]]
  }

  lemma SwapKeepsMultiset<T>(s: seq<T>, i: nat, j: nat)
    requires i < |s| && j < |s|
    ensures multiset(s[i := s[j]][j := s[i]]) == multiset(s)
  {
    var t := s[i := s[j]];
    assert multiset(t) == multiset(s) - multiset{s[i]} + multiset{s[j]};
    assert multiset(t[j := s[i]]) == multiset(t) - multiset{t[j]} + multiset{s[i]};
  }

  /** The identity draws (each element exchanged with itself) leave the order
      as it is. */
  lemma {:induction false} IdentityDraws<T>(s: seq<T>)
    ensures IsDraws(seq(|s|, i => i), |s|)
    ensures Shuffle(s, seq(|s|, i => i)) == s
  {
    var draws := seq(|s|, i => i);
    if s != [] {
      var last := |s| - 1;
      assert s[last := s[last]][last := s[last]] == s;
      assert draws[..last] == seq(last, i => i);
      IdentityDraws(s[..last]);
      assert s == s[..last] + [s[last]];
    }
  }
}
