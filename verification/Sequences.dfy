/** Removing one entry of a sequence, and sequences without repetition. */
module Sequences {

  function Without<T>(s: seq<T>, k: nat): (r: seq<T>)
    requires k < |s|
    ensures |r| == |s| - 1 && multiset(r) + multiset{s[k]} == multiset(s)
  {
    assert s == s[..k] + [s[k]] + s[k + 1..];
    s[..k] + s[k + 1..]
  }

  lemma Member(ids: seq<nat>, issued: set<nat>, i: nat)
    requires multiset(ids) <= multiset(issued) && i < |ids|
    ensures ids[i] in issued
  {
    assert ids[i] in multiset(ids);
  }

  lemma Distinct(ids: seq<nat>, issued: set<nat>, i: nat, j: nat)
    requires multiset(ids) <= multiset(issued) && i < j < |ids|
    ensures ids[i] != ids[j]
  {
    var a, b := ids[..j], ids[j..];
    assert ids == a + b;
    assert a[i] in multiset(a) && b[0] in multiset(b);
    assert multiset(ids) == multiset(a) + multiset(b);
    assert multiset(ids)[ids[i]] <= multiset(issued)[ids[i]] <= 1;
  }
}
