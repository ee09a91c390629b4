/** The field iterator as functions of the table and the position: search, member addresses, and the table
    that the layout macros of pb.h build for a struct. */
module IterSpec {
  import opened Bits
  import opened Pb

  // ---------------------------------------------------------------- search

  /** pb_field_iter_find from a position: cyclic, so at most |d| fields are looked at. None is "not found". */
  function FindFrom(d: seq<Field>, pos: nat, tag: nat, left: nat): (r: Option<nat>)
    requires pos < |d|
    ensures r.Some? ==> r.value < |d| && d[r.value].tag == tag && !d[r.value].ltype.LExtension?
    decreases left
  {
    if left == 0 then None
    else if d[pos].tag == tag && !d[pos].ltype.LExtension? then Some(pos)
    else FindFrom(d, if pos + 1 == |d| then 0 else pos + 1, tag, left - 1)
  }

  function Find(d: seq<Field>, pos: nat, tag: nat): (r: Option<nat>)
    requires pos < |d|
    ensures r.Some? ==> r.value < |d| && d[r.value].tag == tag && !d[r.value].ltype.LExtension?
  {
    FindFrom(d, pos, tag, |d|)
  }

  // ---------------------------------------------------------------- addresses

  const SIZEOF_POINTER: nat := 8

  /** What the iterator steps over when it leaves field f. */
  function Extent(f: Field): nat
  {
    if f.atype.Static? && f.htype.Repeated? then f.dataSize * f.arraySize
    else if f.atype.Pointer? then SIZEOF_POINTER
    else f.dataSize
  }

  /** pData at field i: the sum of the steps taken so far, union members apart. */
  function DataAt(d: seq<Field>, base: nat, i: nat): nat
    requires i < |d|
  {
    if i == 0 then base + d[0].dataOffset
    else if ContinuesUnion(d, i) then DataAt(d, base, i - 1)
    else DataAt(d, base, i - 1) + Extent(d[i - 1]) + d[i].dataOffset
  }

  /** pSize at field i. */
  function SizeAt(d: seq<Field>, base: nat, i: nat): int
    requires i < |d|
  {
    if ContinuesUnion(d, i) then SizeAt(d, base, i - 1) else DataAt(d, base, i) + d[i].sizeOffset
  }

  // ---------------------------------------------------------------- the macros of pb.h

  datatype Rule = RequiredRule | OptionalRule | SingularRule | RepeatedRule | FixedCountRule | OneofRule

  datatype Placement = First | Other | Union

  /** What one field macro is given: offsetof and sizeof of the member, sizeof of one array entry (or of what a
      pointer points to), and offsetof of its has_, _count or which_ companion. */
  datatype Member = Member(
    tag: nat, ltype: LType, rule: Rule, atype: AType, placement: Placement,
    offset: nat, size: nat, entrySize: nat, companion: nat, ptr: Ptr)

  predicate HasCompanion(m: Member)
  {
    match m.atype
    case Static => m.rule.OptionalRule? || m.rule.RepeatedRule? || m.rule.OneofRule?
    case Pointer => m.rule.RepeatedRule? || m.rule.OneofRule?
    case Callback => false
  }

  predicate StaticArray(m: Member)
  {
    m.atype.Static? && (m.rule.RepeatedRule? || m.rule.FixedCountRule?)
  }

  function HTypeOf(r: Rule): HType
  {
    match r
    case RequiredRule => Required
    case OptionalRule | SingularRule => Optional
    case RepeatedRule | FixedCountRule => Repeated
    case OneofRule => Oneof
  }

  /** PB_DATAOFFSET_FIRST, PB_DATAOFFSET_OTHER and PB_DATAOFFSET_UNION */
  function DataOffset(ms: seq<Member>, i: nat): nat
    requires ValidStruct(ms) && i < |ms|
  {
    assert ValidMember(ms, i);
    match ms[i].placement
    case First => ms[i].offset
    case Other => ms[i].offset - ms[i - 1].offset - ms[i - 1].size
    case Union => PB_SIZE_MAX
  }

  /** The table entry of member i. */
  function Entry(ms: seq<Member>, i: nat): Field
    requires ValidStruct(ms) && i < |ms|
  {
    var m := ms[i];
    Field(m.tag, m.ltype, HTypeOf(m.rule), m.atype, DataOffset(ms, i),
          if HasCompanion(m) then m.companion - m.offset else 0,
          if StaticArray(m) || m.atype.Pointer? then m.entrySize else m.size,
          if StaticArray(m) && m.entrySize > 0 then m.size / m.entrySize else 0,
          m.ptr)
  }

  function Table(ms: seq<Member>): (d: seq<Field>)
    requires ValidStruct(ms)
    ensures |d| == |ms|
  {
    seq(|ms|, i requires 0 <= i < |ms| => Entry(ms, i))
  }

  /** The members follow one another in a C struct smaller than PB_SIZE_MAX; the members of a union share one
      address and one which_. */
  ghost predicate ValidStruct(ms: seq<Member>)
  {
    forall i :: 0 <= i < |ms| ==> ValidMember(ms, i)
  }

  ghost predicate ValidMember(ms: seq<Member>, i: nat)
    requires i < |ms|
  {
    var m := ms[i];
    && m.offset + m.size < PB_SIZE_MAX
    && (m.placement.First? <==> i == 0)
    && (m.placement.Other? ==> ms[i - 1].offset + ms[i - 1].size <= m.offset)
    && (m.placement.Union? ==>
          m.rule.OneofRule? && ms[i - 1].rule.OneofRule? && m.offset == ms[i - 1].offset &&
          m.companion == ms[i - 1].companion)
    && (StaticArray(m) ==> m.entrySize > 0 && m.size % m.entrySize == 0)
    && (m.rule.FixedCountRule? ==> m.atype.Static?)
    && (m.rule.OneofRule? ==> !m.atype.Callback?)
    && (m.atype.Pointer? ==> m.size == SIZEOF_POINTER)
  }
}
