/** Facts about finite sets of numbers that several components use. */
module FiniteSets {

  lemma NoneMeansEmpty(a: set<int>)
    ensures (forall x :: x !in a) ==> a == {}
  {
    if forall x :: x !in a { assert a == {}; }
  }

  lemma SubsetIsSmaller(a: set<int>, b: set<int>)
    requires a <= b
    ensures |a| <= |b| && (a != b ==> |a| < |b|)
  {
    var rest := b - a;
    assert b == a + rest && a !! rest;
    assert |b| == |a| + |rest|;
    if a != b { NoneMeansEmpty(rest); }
  }

  /** Different numbers below 'n' are at most 'n'. */
  lemma {:induction false} FewBelow(s: seq<int>, n: nat)
    requires forall i :: 0 <= i < |s| ==> 0 <= s[i] < n
    requires forall i, j :: 0 <= i < j < |s| ==> s[i] != s[j]
    ensures |s| <= n
    decreases n
  {
    var top := n - 1;
    if |s| > 0 { assert 0 <= s[0] < n; }
    if k :| 0 <= k < |s| && s[k] == top {
      var rest := s[..k] + s[k + 1..];
      assert forall i :: 0 <= i < |rest| ==> rest[i] == s[if i < k then i else i + 1];
      FewBelow(rest, n - 1);
    } else if |s| > 0 {
      FewBelow(s, n - 1);
    }
  }
}
