/** Field descriptors (pb_field_t tables), the message structs they describe, and default values. */
module Pb {
  import opened Bits

  datatype LType =
    | LBool | LVarint | LUVarint | LSVarint | LFixed32 | LFixed64
    | LBytes | LString | LSubmessage | LExtension | LFixedLengthBytes

  datatype HType = Required | Optional | Repeated | Oneof

  datatype AType = Static | Pointer | Callback

  /** The `ptr` member: a default value, the table of a submessage, or NULL. */
  datatype Ptr = Null | Default(value: Value) | SubMsg(fields: seq<Field>)

  /** One entry of a pb_field_t table; the zero-tag terminator is left out of the tables here. */
  datatype Field = Field(
    tag: nat, ltype: LType, htype: HType, atype: AType,
    dataOffset: nat, sizeOffset: int, dataSize: nat, arraySize: nat, ptr: Ptr)

  /** Contents of one struct member. A string is its C string: the bytes before the first NUL. */
  datatype Value = Num(n: int) | Blob(bytes: seq<Byte>) | Msg(slots: seq<Slot>)

  /** A struct member with its companion: nothing, a has_ flag, a _count, or its share of a union and which_. */
  datatype Slot =
    | Plain(value: Value)
    | Opt(has: bool, value: Value)
    | Many(items: seq<Value>)
    | Chosen(value: Value)
    | NotChosen

  const PB_SIZE_MAX: nat := 0xFFFF_FFFF
  /** offsetof(pb_bytes_array_t, bytes) */
  const BYTES_HEADER: nat := 4
  const PB_MAX_REQUIRED_FIELDS: nat := 64

  const WT_VARINT: nat := 0
  const WT_64BIT: nat := 1
  const WT_STRING: nat := 2
  const WT_32BIT: nat := 5

  /** PB_LTYPE(type) <= PB_LTYPE_LAST_PACKABLE */
  predicate Packable(t: LType)
  {
    t.LBool? || t.LVarint? || t.LUVarint? || t.LSVarint? || t.LFixed32? || t.LFixed64?
  }

  /** Bytes of a fixed-width word. */
  function WordSize(t: LType): nat
  {
    if t.LFixed32? then 4 else 8
  }

  predicate FixedCount(f: Field)
  {
    f.htype.Repeated? && f.sizeOffset == 0
  }

  predicate Singular(f: Field)
  {
    f.htype.Optional? && f.sizeOffset == 0
  }

  // ---------------------------------------------------------------- unions

  /** Field i shares the storage of the field before it. */
  predicate ContinuesUnion(d: seq<Field>, i: nat)
    requires i < |d|
  {
    i > 0 && d[i - 1].htype.Oneof? && d[i].htype.Oneof? && d[i].dataOffset == PB_SIZE_MAX
  }

  /** Index of the first field in the union of field i. */
  function UnionStart(d: seq<Field>, i: nat): (r: nat)
    requires i < |d|
    ensures r <= i
  {
    if ContinuesUnion(d, i) then UnionStart(d, i - 1) else i
  }

  predicate SameUnion(d: seq<Field>, i: nat, j: nat)
    requires i < |d| && j < |d|
  {
    d[i].htype.Oneof? && d[j].htype.Oneof? && UnionStart(d, i) == UnionStart(d, j)
  }

  // ---------------------------------------------------------------- required fields

  /** Number of required fields among the first i. */
  function RequiredBefore(d: seq<Field>, i: nat): (r: nat)
    requires i <= |d|
    ensures r <= i
  {
    if i == 0 then 0 else RequiredBefore(d, i - 1) + if d[i - 1].htype.Required? then 1 else 0
  }

  // ---------------------------------------------------------------- defaults

  function ZeroValue(f: Field): Value
  {
    match f.ltype
    case LBytes => Blob([])
    case LString => Blob([])
    case LFixedLengthBytes => Blob(seq(f.dataSize, _ => 0))
    case _ => Num(0)
  }

  /** What pb_field_set_to_default stores in a member. */
  function DefaultValue(f: Field): Value
    decreases f, 0
  {
    if f.ltype.LSubmessage? then Msg(if f.ptr.SubMsg? then DefaultMsg(f.ptr.fields) else [])
    else if f.ptr.Default? then f.ptr.value
    else ZeroValue(f)
  }

  function DefaultSlot(f: Field): Slot
    decreases f, 1
  {
    match f.htype
    case Required => Plain(DefaultValue(f))
    case Optional => if f.sizeOffset != 0 then Opt(false, DefaultValue(f)) else Plain(DefaultValue(f))
    case Repeated => Many([])
    case Oneof => NotChosen
  }

  /** pb_message_set_to_defaults. The entries of a fixed-count array, which C leaves indeterminate, are absent. */
  function DefaultMsg(d: seq<Field>): (m: seq<Slot>)
    ensures |m| == |d|
    decreases d, 2
  {
    seq(|d|, i requires 0 <= i < |d| => DefaultSlot(d[i]))
  }

  // ---------------------------------------------------------------- well-formed descriptors and messages

  predicate ValidWidth(n: nat)
  {
    n == 1 || n == 2 || n == 4 || n == 8
  }

  /** The bytes before the first NUL. */
  function CString(b: seq<Byte>): (r: seq<Byte>)
    ensures |r| <= |b|
    ensures 0 !in r
    ensures r == b[..|r|] && (|r| < |b| ==> b[|r|] == 0)
  {
    if b == [] || b[0] == 0 then [] else [b[0]] + CString(b[1..])
  }

  predicate SignedFits(n: int, width: nat)
  {
    if width == 1 then -0x80 <= n < 0x80
    else if width == 2 then -0x8000 <= n < 0x8000
    else if width == 4 then -0x8000_0000 <= n < 0x8000_0000
    else -0x8000_0000_0000_0000 <= n < 0x8000_0000_0000_0000
  }

  predicate UnsignedFits(n: int, width: nat)
  {
    if width == 1 then 0 <= n < 0x100
    else if width == 2 then 0 <= n < 0x1_0000
    else if width == 4 then 0 <= n < U32
    else 0 <= n < U64
  }

  /** v is a value the C type of field f can hold. */
  ghost predicate Typed(f: Field, v: Value)
    decreases f, 0
  {
    match f.ltype
    case LBool => v.Num? && 0 <= v.n <= 1
    case LVarint => v.Num? && SignedFits(v.n, f.dataSize)
    case LUVarint => v.Num? && UnsignedFits(v.n, f.dataSize)
    case LSVarint => v.Num? && SignedFits(v.n, f.dataSize)
    case LFixed32 => v.Num? && 0 <= v.n < U32
    case LFixed64 => v.Num? && 0 <= v.n < U64
    case LBytes => v.Blob? && |v.bytes| < U32
    case LString => v.Blob? && |v.bytes| <= f.dataSize && 0 !in v.bytes
    case LSubmessage => v.Msg? && f.ptr.SubMsg? && TypedMsg(f.ptr.fields, v.slots)
    case LExtension => false
    case LFixedLengthBytes => v.Blob? && |v.bytes| == f.dataSize
  }

  ghost predicate TypedSlot(f: Field, s: Slot)
    decreases f, 1
  {
    match f.htype
    case Required => s.Plain? && Typed(f, s.value)
    case Optional =>
      if f.sizeOffset != 0 then s.Opt? && (s.has ==> Typed(f, s.value)) else s.Plain? && Typed(f, s.value)
    case Repeated =>
      && s.Many?
      && (forall k :: 0 <= k < |s.items| ==> Typed(f, s.items[k]))
      && (FixedCount(f) ==> |s.items| == f.arraySize)
    case Oneof => s.NotChosen? || (s.Chosen? && Typed(f, s.value))
  }

  /** m is a struct of the type d describes: every present member typed, at most one member of each union chosen. */
  ghost predicate TypedMsg(d: seq<Field>, m: seq<Slot>)
    decreases d, 2
  {
    && |m| == |d|
    && (forall i :: 0 <= i < |d| ==> TypedSlot(d[i], m[i]))
    && (forall i, j :: 0 <= i < j < |d| && SameUnion(d, i, j) ==> !(m[i].Chosen? && m[j].Chosen?))
  }

  /** Members in the ranges of pb_field_t, and no pointer, callback or extension fields, at any depth. */
  ghost predicate StaticTable(d: seq<Field>)
  {
    forall i :: 0 <= i < |d| ==> StaticField(d[i])
  }

  ghost predicate StaticField(f: Field)
  {
    && f.atype.Static?
    && !f.ltype.LExtension?
    && f.tag < U32
    && f.dataSize <= PB_SIZE_MAX
    && f.arraySize <= PB_SIZE_MAX
    && (f.ptr.SubMsg? ==> StaticTable(f.ptr.fields))
  }

  /** Tags in protobuf's range, sizes that fit pb_size_t, defaults of the right type; static fields only. */
  ghost predicate WellFormedField(f: Field)
    decreases f, 0
  {
    && 1 <= f.tag < 0x2000_0000
    && f.atype.Static?
    && f.dataSize <= PB_SIZE_MAX
    && f.arraySize <= PB_SIZE_MAX
    && !f.ltype.LExtension?
    && (if f.ltype.LSubmessage? then f.ptr.SubMsg? && WellFormed(f.ptr.fields)
        else !f.ptr.SubMsg? && (f.ptr.Default? ==> Typed(f, f.ptr.value)))
  }

  ghost predicate UniqueTags(d: seq<Field>)
  {
    forall i, j :: 0 <= i < j < |d| ==> d[i].tag != d[j].tag
  }

  ghost predicate WellFormed(d: seq<Field>)
    decreases d, 1
  {
    UniqueTags(d) && forall i :: 0 <= i < |d| ==> WellFormedField(d[i])
  }
}
