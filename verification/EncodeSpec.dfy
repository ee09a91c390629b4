/** What pb_encode writes, as a function of the descriptor and the message. None is an encoding error. */
module EncodeSpec {
  import opened Bits
  import opened Wire
  import opened Pb

  function Cat(a: Option<seq<Byte>>, b: Option<seq<Byte>>): Option<seq<Byte>>
  {
    if a.Some? && b.Some? then Some(a.value + b.value) else None
  }

  /** `(field_number << 3) | wiretype`: the low three bits are free. */
  function TagBytes(wireType: nat, tag: nat): seq<Byte>
  {
    Varint(8 * tag + wireType)
  }

  function WireTypeOf(t: LType): nat
  {
    match t
    case LFixed32 => WT_32BIT
    case LFixed64 => WT_64BIT
    case LBytes | LString | LSubmessage | LFixedLengthBytes => WT_STRING
    case _ => WT_VARINT
  }

  function WithLength(b: seq<Byte>): seq<Byte>
  {
    Varint(|b|) + b
  }

  /** A whole message behind its length. */
  function Delimited(b: Option<seq<Byte>>): Option<seq<Byte>>
  {
    match b
    case Some(bytes) => Some(WithLength(bytes))
    case None => None
  }

  function Min(a: nat, b: nat): nat
  {
    if a < b then a else b
  }

  /** The pb_enc_ functions. */
  function EncodeValue(f: Field, v: Value): Option<seq<Byte>>
    decreases f, 0
  {
    match (f.ltype, v)
    case (LBool, Num(n)) => Some(Varint(if n != 0 then 1 else 0))
    case (LVarint, Num(n)) => if ValidWidth(f.dataSize) then Some(Varint(ToU64(n))) else None
    case (LUVarint, Num(n)) => if ValidWidth(f.dataSize) then Some(Varint(ToU64(n))) else None
    case (LSVarint, Num(n)) => if ValidWidth(f.dataSize) then Some(Varint(ZigZag(n))) else None
    case (LFixed32, Num(n)) => Some(LittleEndian(n % U32, WordSize(f.ltype)))
    case (LFixed64, Num(n)) => Some(LittleEndian(n % U64, WordSize(f.ltype)))
    case (LBytes, Blob(b)) => if |b| + BYTES_HEADER > f.dataSize then None else Some(WithLength(b))
    case (LString, Blob(b)) => Some(WithLength(CString(b[..Min(|b|, f.dataSize)])))
    case (LFixedLengthBytes, Blob(b)) => Some(WithLength(b))
    case (LSubmessage, Msg(slots)) =>
      if f.ptr.SubMsg? && |slots| == |f.ptr.fields| then
        match EncodeFrom(f.ptr.fields, slots, 0)
        case Some(b) => Some(WithLength(b))
        case None => None
      else None
    case _ => None
  }

  /** A tag and a value. */
  function EncodeTagged(f: Field, v: Value): Option<seq<Byte>>
    decreases f, 1
  {
    Cat(Some(TagBytes(WireTypeOf(f.ltype), f.tag)), EncodeValue(f, v))
  }

  /** The values of a packed array, back to back. */
  function EncodeAll(f: Field, items: seq<Value>): Option<seq<Byte>>
    decreases f, 1, |items|
  {
    if items == [] then Some([]) else Cat(EncodeValue(f, items[0]), EncodeAll(f, items[1..]))
  }

  /** The values of an unpacked array, each with its tag. */
  function EncodeEach(f: Field, items: seq<Value>): Option<seq<Byte>>
    decreases f, 2, |items|
  {
    if items == [] then Some([]) else Cat(EncodeTagged(f, items[0]), EncodeEach(f, items[1..]))
  }

  /** encode_array */
  function EncodeArray(f: Field, items: seq<Value>): Option<seq<Byte>>
    decreases f, 3
  {
    if items == [] then Some([])
    else if |items| > f.arraySize then None
    else if Packable(f.ltype) then
      match EncodeAll(f, items)
      case Some(b) => Some(TagBytes(WT_STRING, f.tag) + WithLength(b))
      case None => None
    else EncodeEach(f, items)
  }

  /** pb_check_proto3_default_value on a value stored without has_ flag. */
  function IsZero(f: Field, v: Value): bool
    decreases f, 0
  {
    match v
    case Num(n) => n == 0
    case Blob(b) =>
      if f.ltype.LFixedLengthBytes? then f.dataSize == 0
      else if f.ltype.LString? then b == [] || b[0] == 0
      else b == []
    case Msg(slots) =>
      f.ptr.SubMsg? && |slots| == |f.ptr.fields| &&
      forall i :: 0 <= i < |slots| ==> IsZeroSlot(f.ptr.fields[i], slots[i])
  }

  /** pb_check_proto3_default_value */
  function IsZeroSlot(f: Field, s: Slot): bool
    decreases f, 1
  {
    match s
    case Plain(v) => !f.htype.Required? && IsZero(f, v)
    case Opt(has, _) => !has
    case Many(items) => f.sizeOffset != 0 && items == []
    case Chosen(_) => false
    case NotChosen => true
  }

  /** encode_basic_field */
  function EncodeField(f: Field, s: Slot): Option<seq<Byte>>
    decreases f, 4
  {
    match s
    case Plain(v) => if Singular(f) && IsZero(f, v) then Some([]) else EncodeTagged(f, v)
    case Opt(has, v) => if has then EncodeTagged(f, v) else Some([])
    case Many(items) => EncodeArray(f, items)
    case Chosen(v) => EncodeTagged(f, v)
    case NotChosen => Some([])
  }

  /** The fields from index i on, as the do-while loop of pb_encode writes them. */
  function EncodeFrom(d: seq<Field>, m: seq<Slot>, i: nat): Option<seq<Byte>>
    requires |m| == |d| && i <= |d|
    decreases d, |d| - i
  {
    if i == |d| then Some([]) else Cat(EncodeField(d[i], m[i]), EncodeFrom(d, m, i + 1))
  }

  /** pb_encode */
  function Encode(d: seq<Field>, m: seq<Slot>): Option<seq<Byte>>
    requires |m| == |d|
  {
    EncodeFrom(d, m, 0)
  }
}
