/** What pb_decode makes of a window of bytes, as a function of the descriptor and the struct it writes to. */
module DecodeSpec {
  import opened Bits
  import opened Wire
  import opened Pb
  import opened IterSpec

  // ---------------------------------------------------------------- tags and skipping

  datatype TagResult = Tag(tag: nat, wireType: nat, rest: seq<Byte>) | Eof(rest: seq<Byte>) | BadTag

  /** pb_decode_tag: end of input and a zero tag are both reported as end of message. */
  function DecodeTag(s: seq<Byte>): (r: TagResult)
    ensures r.Tag? ==> |r.rest| < |s| && r.tag < 0x2000_0000 && r.wireType < 8
  {
    if s == [] then Eof([])
    else
      match Varint32(s)
      case Err => BadTag
      case Ok(v, rest) => if v == 0 then Eof(rest) else Tag(v / 8, v % 8, rest)
  }

  /** pb_skip_varint: any number of continuation bytes. */
  function SkipVarint(s: seq<Byte>): (r: Parse<()>)
    ensures r.Ok? ==> |r.rest| < |s|
  {
    if s == [] then Err else if s[0] >= 128 then SkipVarint(s[1..]) else Ok((), s[1..])
  }

  function Skip(s: seq<Byte>, n: nat): (r: Parse<()>)
    ensures r.Ok? ==> |r.rest| <= |s|
  {
    if n <= |s| then Ok((), s[n..]) else Err
  }

  /** pb_skip_field */
  function SkipField(s: seq<Byte>, wireType: nat): (r: Parse<()>)
    ensures r.Ok? ==> |r.rest| <= |s|
  {
    if wireType == WT_VARINT then SkipVarint(s)
    else if wireType == WT_64BIT then Skip(s, 8)
    else if wireType == WT_STRING then
      match Varint32(s)
      case Ok(n, rest) => Skip(rest, n)
      case Err => Err
    else if wireType == WT_32BIT then Skip(s, 4)
    else Err
  }

  // ---------------------------------------------------------------- values

  /** (int_leastN_t)n for a field of the given width. */
  function ToSigned(n: int, width: nat): int
  {
    if width == 1 then (n + 0x80) % 0x100 - 0x80
    else if width == 2 then (n + 0x8000) % 0x1_0000 - 0x8000
    else if width == 4 then (n + 0x8000_0000) % U32 - 0x8000_0000
    else (n + 0x8000_0000_0000_0000) % U64 - 0x8000_0000_0000_0000
  }

  function ToUnsigned(n: nat, width: nat): nat
  {
    if width == 1 then n % 0x100 else if width == 2 then n % 0x1_0000 else if width == 4 then n % U32 else n % U64
  }

  /** The pb_dec_ functions, submessages excepted. */
  function DecodeScalar(f: Field, s: seq<Byte>): (r: Parse<Value>)
    ensures r.Ok? ==> |r.rest| < |s|
  {
    match f.ltype
    case LBool =>
      (match Varint32(s)
       case Ok(v, rest) => Ok(Num(if v != 0 then 1 else 0), rest)
       case Err => Err)
    case LVarint =>
      (match Varint64(s)
       case Ok(v, rest) =>
         var svalue := if f.dataSize == 8 then ToI64(v) else ToI32(v);
         if ValidWidth(f.dataSize) && ToSigned(svalue, f.dataSize) == svalue then Ok(Num(svalue), rest) else Err
       case Err => Err)
    case LUVarint =>
      (match Varint64(s)
       case Ok(v, rest) =>
         if ValidWidth(f.dataSize) && ToUnsigned(v, f.dataSize) == v then Ok(Num(v), rest) else Err
       case Err => Err)
    case LSVarint =>
      (match Varint64(s)
       case Ok(v, rest) =>
         var svalue := UnZigZag(v);
         if ValidWidth(f.dataSize) && ToSigned(svalue, f.dataSize) == svalue then Ok(Num(svalue), rest) else Err
       case Err => Err)
    case LFixed32 | LFixed64 =>
      (match Take(s, WordSize(f.ltype))
       case Ok(b, rest) => Ok(Num(FromLittleEndian(b)), rest)
       case Err => Err)
    case LBytes =>
      (match Varint32(s)
       case Ok(n, rest) => if n + BYTES_HEADER > f.dataSize then Err else AsBlob(Take(rest, n))
       case Err => Err)
    case LString =>
      (match Varint32(s)
       case Ok(n, rest) =>
         // the terminator is counted in 32 bits
         var allocSize := (n + 1) % U32;
         if allocSize < n || allocSize > f.dataSize then Err
         else
           (match Take(rest, n)
            case Ok(b, rest') => Ok(Blob(CString(b)), rest')
            case Err => Err)
       case Err => Err)
    case LFixedLengthBytes =>
      (match Varint32(s)
       case Ok(n, rest) =>
         if n == 0 then Ok(Blob(seq(f.dataSize, _ => 0)), rest)
         else if n != f.dataSize then Err
         else AsBlob(Take(rest, n))
       case Err => Err)
    case _ => Err
  }

  function AsBlob(p: Parse<seq<Byte>>): Parse<Value>
  {
    match p
    case Ok(b, rest) => Ok(Blob(b), rest)
    case Err => Err
  }

  /** The fields of the submessage already in place. */
  function SlotsOf(v: Value, d: seq<Field>): (m: seq<Slot>)
    ensures |m| == |d|
  {
    if v.Msg? && |v.slots| == |d| then v.slots else DefaultMsg(d)
  }

  /** A pb_dec_ function writing over the value `current`: a submessage that is not an array entry is merged. */
  function DecodeValue(f: Field, s: seq<Byte>, current: Value): (r: Parse<Value>)
    ensures r.Ok? ==> |r.rest| < |s|
    decreases |s|, 1
  {
    if f.ltype.LSubmessage? then
      match Block(s)
      case Err => Err
      case Ok(block, rest) =>
        if !f.ptr.SubMsg? then Err
        else
          var d := f.ptr.fields;
          match DecodeNoinit(d, block, if f.htype.Repeated? then DefaultMsg(d) else SlotsOf(current, d))
          case Some(m) => Ok(Msg(m), rest)
          case None => Err
    else DecodeScalar(f, s)
  }

  // ---------------------------------------------------------------- fields

  function ValueOf(f: Field, slot: Slot): Value
  {
    match slot
    case Plain(v) => v
    case Opt(_, v) => v
    case Chosen(v) => v
    case _ => DefaultValue(f)
  }

  function ItemsOf(slot: Slot): seq<Value>
  {
    if slot.Many? then slot.items else []
  }

  function Put(items: seq<Value>, k: nat, v: Value): seq<Value>
  {
    if k < |items| then items[k := v] else items + [v]
  }

  datatype Array = Array(items: seq<Value>, count: nat)

  /** The packed loop of decode_static_field; leftover bytes are "array overflow". */
  function DecodePacked(f: Field, block: seq<Byte>, a: Array): Option<Array>
    decreases |block|
  {
    if block == [] then Some(a)
    else if a.count >= f.arraySize then None
    else
      match DecodeScalar(f, block)
      case Ok(v, rest) => DecodePacked(f, rest, Array(Put(a.items, a.count, v), a.count + 1))
      case Err => None
  }

  /** The HTYPE_REPEATED branch of decode_static_field. */
  function DecodeRepeated(f: Field, wireType: nat, s: seq<Byte>, a: Array): (r: Parse<Array>)
    ensures r.Ok? ==> |r.rest| < |s|
    decreases |s|, 2
  {
    if wireType == WT_STRING && Packable(f.ltype) then
      match Block(s)
      case Err => Err
      case Ok(block, rest) =>
        match DecodePacked(f, block, a)
        case Some(a') => Ok(a', rest)
        case None => Err
    else if a.count >= f.arraySize then Err
    else
      match DecodeValue(f, s, DefaultValue(f))
      case Ok(v, rest) => Ok(Array(Put(a.items, a.count, v), a.count + 1), rest)
      case Err => Err
  }

  /** The other branches of decode_static_field. A oneof submessage is reset before it is read. */
  function DecodeSingle(f: Field, s: seq<Byte>, slot: Slot): (r: Parse<Slot>)
    ensures r.Ok? ==> |r.rest| < |s|
    decreases |s|, 2
  {
    match DecodeValue(f, s, if f.htype.Oneof? then DefaultValue(f) else ValueOf(f, slot))
    case Err => Err
    case Ok(v, rest) =>
      var slot' :=
        if f.htype.Oneof? then Chosen(v) else if Singular(f) || f.htype.Required? then Plain(v) else Opt(true, v);
      Ok(slot', rest)
  }

  // ---------------------------------------------------------------- messages

  /** Local state of pb_decode_noinit: the struct, the iterator position, the fixed-count tracking and fields_seen. */
  datatype State = State(m: seq<Slot>, pos: nat, fixedField: Option<nat>, fixedSize: nat, seen: set<nat>)

  function Start(m: seq<Slot>): State
  {
    State(m, 0, None, 0, {})
  }

  /** Storing into field i; the other members of its union are gone. */
  function Store(d: seq<Field>, m: seq<Slot>, i: nat, slot: Slot): (m': seq<Slot>)
    requires |m| == |d| && i < |d|
    ensures |m'| == |m|
  {
    seq(|m|, j requires 0 <= j < |m| => if j == i then slot else if SameUnion(d, i, j) then NotChosen else m[j])
  }

  datatype StepResult = Continue(state: State, rest: seq<Byte>) | Stop(rest: seq<Byte>) | Fail

  predicate InRange(d: seq<Field>, st: State)
  {
    && |st.m| == |d|
    && (st.pos < |d| || st.pos == |d| == 0)
    && (st.fixedField.Some? ==> st.fixedField.value < |d|)
  }

  /** Field i has been looked up: the fixed-count bookkeeping before its data is read. */
  function EnterFixed(d: seq<Field>, st: State, i: nat): (r: Option<State>)
    requires InRange(d, st) && i < |d|
    ensures r.Some? ==> InRange(d, r.value)
  {
    if !FixedCount(d[i]) || st.fixedField == Some(i) then Some(st)
    else if st.fixedField.Some? && st.fixedSize != d[st.fixedField.value].arraySize then None
    else Some(st.(fixedField := Some(i), fixedSize := 0))
  }

  function MarkSeen(d: seq<Field>, st: State, i: nat): (r: State)
    requires InRange(d, st) && i < |d|
    ensures InRange(d, r)
  {
    if d[i].htype.Required? && RequiredBefore(d, i) < PB_MAX_REQUIRED_FIELDS then
      st.(seen := st.seen + {RequiredBefore(d, i)})
    else st
  }

  /** decode_field on field i, at which the iterator stands. */
  function DecodeField(d: seq<Field>, st: State, i: nat, wireType: nat, s: seq<Byte>): (r: StepResult)
    requires InRange(d, st) && i < |d|
    ensures r.Continue? ==> |r.rest| < |s| && InRange(d, r.state)
    decreases |s|, 3
  {
    var f := d[i];
    if f.htype.Repeated? then
      var items := ItemsOf(st.m[i]);
      match DecodeRepeated(f, wireType, s, Array(items, if FixedCount(f) then st.fixedSize else |items|))
      case Err => Fail
      case Ok(a, rest) =>
        var m := Store(d, st.m, i, Many(a.items));
        Continue(st.(m := m, pos := i, fixedSize := if FixedCount(f) then a.count else st.fixedSize), rest)
    else
      match DecodeSingle(f, s, st.m[i])
      case Err => Fail
      case Ok(slot, rest) => Continue(st.(m := Store(d, st.m, i, slot), pos := i), rest)
  }

  /** One round of the while loop of pb_decode_noinit. */
  function Step(d: seq<Field>, st: State, s: seq<Byte>): (r: StepResult)
    requires InRange(d, st)
    ensures r.Continue? ==> |r.rest| < |s| && InRange(d, r.state)
    decreases |s|, 2
  {
    match DecodeTag(s)
    case BadTag => Fail
    case Eof(rest) => Stop(rest)
    case Tag(tag, wireType, rest) =>
      if d == [] then
        // the terminator itself matches a zero tag, and its type bits say "bool"
        if tag == 0 then
          match Varint32(rest)
          case Ok(_, rest') => Continue(st, rest')
          case Err => Fail
        else SkipStep(st, rest, wireType)
      else
        match Find(d, st.pos, tag)
        case None => SkipStep(st, rest, wireType)
        case Some(i) =>
          match EnterFixed(d, st, i)
          case None => Fail
          case Some(st') => DecodeField(d, MarkSeen(d, st', i), i, wireType, rest)
  }

  function SkipStep(st: State, s: seq<Byte>, wireType: nat): StepResult
  {
    match SkipField(s, wireType)
    case Ok(_, rest) => Continue(st, rest)
    case Err => Fail
  }

  /** How the while loop ends: with the input used up, at a zero tag, or with an error. */
  datatype LoopResult = Done(state: State, rest: seq<Byte>, terminated: bool) | LoopFail

  function Loop(d: seq<Field>, st: State, s: seq<Byte>): (r: LoopResult)
    requires InRange(d, st)
    ensures r.Done? ==> InRange(d, r.state)
    decreases |s|, 4
  {
    if s == [] then Done(st, [], false)
    else
      match Step(d, st, s)
      case Fail => LoopFail
      case Stop(rest) => Done(st, rest, true)
      case Continue(st', rest) => Loop(d, st', rest)
  }

  /** Every one of the first 64 required fields was seen. */
  predicate AllSeen(d: seq<Field>, seen: set<nat>)
  {
    forall k :: 0 <= k < RequiredBefore(d, |d|) && k < PB_MAX_REQUIRED_FIELDS ==> k in seen
  }

  predicate FixedComplete(d: seq<Field>, st: State)
    requires InRange(d, st)
  {
    st.fixedField.Some? ==> st.fixedSize == d[st.fixedField.value].arraySize
  }

  /** pb_decode_noinit: merge the bytes into m. */
  function DecodeNoinit(d: seq<Field>, s: seq<Byte>, m: seq<Slot>): (r: Option<seq<Slot>>)
    requires |m| == |d|
    ensures r.Some? ==> |r.value| == |d|
    decreases |s|, 5
  {
    match Loop(d, Start(m), s)
    case LoopFail => None
    case Done(st, _, _) => if FixedComplete(d, st) && AllSeen(d, st.seen) then Some(st.m) else None
  }

  /** pb_decode */
  function Decode(d: seq<Field>, s: seq<Byte>): (r: Option<seq<Slot>>)
    ensures r.Some? ==> |r.value| == |d|
  {
    DecodeNoinit(d, s, DefaultMsg(d))
  }
}
