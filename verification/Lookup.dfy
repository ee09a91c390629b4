/** Field lookup: the cyclic search of pb_field_iter_find does not depend on where it starts. */
module Lookup {
  import opened Bits
  import opened Pb
  import opened IterSpec

  /** Steps from pos forward to i in a table of n fields. */
  function Distance(pos: nat, i: nat, n: nat): nat
    requires pos < n && i < n
  {
    if i >= pos then i - pos else i + n - pos
  }

  predicate Matches(d: seq<Field>, i: nat, tag: nat)
    requires i < |d|
  {
    d[i].tag == tag && !d[i].ltype.LExtension?
  }

  lemma {:induction false} FindFromReaches(d: seq<Field>, pos: nat, tag: nat, left: nat, i: nat)
    requires pos < |d| && i < |d| && Matches(d, i, tag) && Distance(pos, i, |d|) < left
    requires forall j :: 0 <= j < |d| && j != i ==> !Matches(d, j, tag)
    ensures FindFrom(d, pos, tag, left) == Some(i)
    decreases left
  {
    if pos == i {
    } else {
      assert !Matches(d, pos, tag);
      FindFromReaches(d, if pos + 1 == |d| then 0 else pos + 1, tag, left - 1, i);
    }
  }

  lemma {:induction false} FindFromMisses(d: seq<Field>, pos: nat, tag: nat, left: nat)
    requires pos < |d|
    requires forall j :: 0 <= j < |d| ==> !Matches(d, j, tag)
    ensures FindFrom(d, pos, tag, left) == None
    decreases left
  {
    if left == 0 {
    } else {
      assert !Matches(d, pos, tag);
      FindFromMisses(d, if pos + 1 == |d| then 0 else pos + 1, tag, left - 1);
    }
  }

  lemma FindUnique(d: seq<Field>, pos: nat, i: nat)
    requires pos < |d| && i < |d| && UniqueTags(d) && !d[i].ltype.LExtension?
    ensures Find(d, pos, d[i].tag) == Some(i)
  {
    FindFromReaches(d, pos, d[i].tag, |d|, i);
  }

  /** Within one lap the search finds the field with the tag if there is one, wherever it starts. */
  lemma FindIndependent(d: seq<Field>, pos: nat, pos': nat, tag: nat)
    requires pos < |d| && pos' < |d| && UniqueTags(d)
    ensures Find(d, pos, tag) == Find(d, pos', tag)
    ensures Find(d, pos, tag).Some? <==> exists i :: 0 <= i < |d| && Matches(d, i, tag)
  {
    if i :| 0 <= i < |d| && Matches(d, i, tag) {
      FindUnique(d, pos, i);
      FindUnique(d, pos', i);
    } else {
      FindFromMisses(d, pos, tag, |d|);
      FindFromMisses(d, pos', tag, |d|);
    }
  }
}
