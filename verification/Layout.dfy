/** The incremental addresses of the field iterator are the real member addresses. */
module Layout {
  import opened Bits
  import opened Pb
  import opened IterSpec

  lemma UnionPlacement(ms: seq<Member>, i: nat)
    requires ValidStruct(ms) && i < |ms|
    ensures ContinuesUnion(Table(ms), i) <==> ms[i].placement.Union?
  {
    assert ValidMember(ms, i);
    if i > 0 {
      assert ValidMember(ms, i - 1);
    }
  }

  /** A step covers exactly the member it leaves. */
  lemma ExtentIsSize(ms: seq<Member>, i: nat)
    requires ValidStruct(ms) && i < |ms|
    ensures Extent(Table(ms)[i]) == ms[i].size
  {
    var m := ms[i];
    assert ValidMember(ms, i);
    if StaticArray(m) {
      assert m.size == m.entrySize * (m.size / m.entrySize);
    }
  }

  /** At every position pData is the address of the member, unions, static arrays and pointers included. */
  lemma {:induction false} DataIsMember(ms: seq<Member>, base: nat, i: nat)
    requires ValidStruct(ms) && i < |ms|
    ensures DataAt(Table(ms), base, i) == base + ms[i].offset
  {
    assert ValidMember(ms, i);
    UnionPlacement(ms, i);
    if i == 0 {
    } else {
      DataIsMember(ms, base, i - 1);
      ExtentIsSize(ms, i - 1);
    }
  }

  /** And pSize is the address of its has_, _count or which_ companion, or pData when it has none. */
  lemma {:induction false} SizeIsCompanion(ms: seq<Member>, base: nat, i: nat)
    requires ValidStruct(ms) && i < |ms|
    ensures SizeAt(Table(ms), base, i) == base + if HasCompanion(ms[i]) then ms[i].companion else ms[i].offset
  {
    assert ValidMember(ms, i);
    UnionPlacement(ms, i);
    DataIsMember(ms, base, i);
    if ms[i].placement.Union? {
      SizeIsCompanion(ms, base, i - 1);
      assert ValidMember(ms, i - 1);
    }
  }

  /** required_field_index counts the members declared required before this one. */
  lemma {:induction false} RequiredIsCount(ms: seq<Member>, i: nat)
    requires ValidStruct(ms) && i <= |ms|
    ensures RequiredBefore(Table(ms), i) == |set j | 0 <= j < i && ms[j].rule.RequiredRule?|
  {
    if i == 0 {
    } else {
      RequiredIsCount(ms, i - 1);
      var before := set j | 0 <= j < i - 1 && ms[j].rule.RequiredRule?;
      var upTo := set j | 0 <= j < i && ms[j].rule.RequiredRule?;
      if ms[i - 1].rule.RequiredRule? {
        assert upTo == before + {i - 1};
      } else {
        assert upTo == before;
      }
    }
  }
}
