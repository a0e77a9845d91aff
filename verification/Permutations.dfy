/** Removing one entry, the step of every induction over permutations. */
module Permutations {

  function Without(s: seq<int>, j: nat): (r: seq<int>)
    requires j < |s|
    ensures |r| == |s| - 1
    ensures forall i :: 0 <= i < |r| ==> r[i] == s[if i < j then i else i + 1]
    ensures multiset(s) == multiset(r) + multiset{s[j]}
  {
    assert s == s[..j] + ([s[j]] + s[j + 1..]);
    s[..j] + s[j + 1..]
  }

  /** The last entry of `r` stands somewhere in its permutation `s`; without the two, the
      rests are permutations of each other. */
  lemma Partner(r: seq<int>, s: seq<int>) returns (j: nat)
    requires multiset(r) == multiset(s) && r != []
    ensures |r| == |s| && j < |s| && s[j] == r[|r| - 1]
    ensures multiset(Without(r, |r| - 1)) == multiset(Without(s, j))
  {
    var m := |r| - 1;
    assert |r| == |multiset(r)| == |multiset(s)| == |s|;
    assert r[m] in multiset(r);
    assert r[m] in multiset(s);
    j :| 0 <= j < |s| && s[j] == r[m];
    assert multiset(Without(r, m)) == multiset(r) - multiset{r[m]};
    assert multiset(Without(s, j)) == multiset(s) - multiset{s[j]};
  }

  lemma SameLength(r: seq<int>, s: seq<int>)
    requires multiset(r) == multiset(s)
    ensures |r| == |s|
  {
    assert |r| == |multiset(r)| == |multiset(s)| == |s|;
  }
}
