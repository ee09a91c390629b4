/** pb_encode.c: arrays, submessages and whole messages. Every method writes what EncodeSpec says, in both passes. */
module PbEncode {
  import opened Bits
  import opened Wire
  import opened Pb
  import opened OStream
  import opened EncodeBasics
  import EncodeSpec
  import PbCommon

  // ---------------------------------------------------------------- lengths fit size_t

  ghost predicate Fits(b: Option<seq<Byte>>)
  {
    b.Some? ==> |b.value| < U64
  }

  /** Every submessage inside v encodes to fewer than 2^64 bytes. */
  ghost predicate SizedValue(f: Field, v: Value)
    decreases f, 0
  {
    f.ltype.LSubmessage? && v.Msg? && f.ptr.SubMsg? && |v.slots| == |f.ptr.fields| ==> SizedMsg(f.ptr.fields, v.slots)
  }

  ghost predicate SizedSlot(f: Field, s: Slot)
    decreases f, 1
  {
    match s
    case Plain(v) => SizedValue(f, v)
    case Opt(has, v) => has ==> SizedValue(f, v)
    case Chosen(v) => SizedValue(f, v)
    case Many(items) => forall k :: 0 <= k < |items| ==> SizedValue(f, items[k])
    case NotChosen => true
  }

  ghost predicate SizedMsg(d: seq<Field>, m: seq<Slot>)
    requires |m| == |d|
    decreases d, 2
  {
    Fits(EncodeSpec.Encode(d, m)) && SizedFields(d, m)
  }

  ghost predicate SizedFields(d: seq<Field>, m: seq<Slot>)
    requires |m| == |d|
    decreases d, 1
  {
    forall i :: 0 <= i < |d| ==> SizedSlot(d[i], m[i])
  }

  // ---------------------------------------------------------------- packed arrays

  lemma AllUnfolds(f: Field, items: seq<Value>, i: nat)
    requires i < |items|
    ensures EncodeSpec.EncodeAll(f, items[i..]) ==
            EncodeSpec.Cat(EncodeSpec.EncodeValue(f, items[i]), EncodeSpec.EncodeAll(f, items[i + 1..]))
  {
    assert items[i..][1..] == items[i + 1..];
  }

  lemma ScalarSize(f: Field, v: Value)
    requires Packable(f.ltype) && Typed(f, v)
    ensures var b := EncodeSpec.EncodeValue(f, v);
            b.Some? ==>
              && |b.value| <= MAX_VARINT
              && (f.ltype.LFixed32? || f.ltype.LFixed64? ==> |b.value| == WordSize(f.ltype))
  {
    if f.ltype.LVarint? || f.ltype.LUVarint? {
      VarintAtMostTen(ToU64(v.n));
    } else if f.ltype.LSVarint? {
      VarintAtMostTen(ZigZag(v.n));
    } else if f.ltype.LBool? {
      assert v.n == 0 || v.n == 1;
    }
  }

  /** A packed array takes at most ten bytes an entry, and exactly a word each when the entries are words. */
  lemma {:induction false} PackedSize(f: Field, items: seq<Value>)
    requires Packable(f.ltype) && forall k :: 0 <= k < |items| ==> Typed(f, items[k])
    ensures var b := EncodeSpec.EncodeAll(f, items);
            b.Some? ==>
              && |b.value| <= MAX_VARINT * |items|
              && (f.ltype.LFixed32? || f.ltype.LFixed64? ==> |b.value| == WordSize(f.ltype) * |items|)
    ensures f.ltype.LFixed32? || f.ltype.LFixed64? ==> EncodeSpec.EncodeAll(f, items).Some?
    decreases |items|
  {
    if items == [] {
    } else {
      ScalarSize(f, items[0]);
      PackedSize(f, items[1..]);
    }
  }

  /** The loop `for (i = 0; i < count; i++) func(stream, field, p)` over scalars. */
  method EncodeItems(stream: OutStream, f: Field, items: seq<Value>) returns (ok: bool)
    requires stream.Valid() && f.dataSize <= PB_SIZE_MAX && Packable(f.ltype)
    requires forall k :: 0 <= k < |items| ==> Typed(f, items[k])
    modifies stream, stream.buf
    ensures stream.Emitted(old(stream.Now()), EncodeSpec.EncodeAll(f, items), ok)
  {
    ghost var before, whole := stream.Now(), EncodeSpec.EncodeAll(f, items);
    ghost var written: seq<Byte> := [];
    stream.Begins(whole);
    assert items[0..] == items;
    for i := 0 to |items|
      invariant stream.Midway(before, written, EncodeSpec.EncodeAll(f, items[i..]), whole)
    {
      ghost var mid, item := stream.Now(), EncodeSpec.EncodeValue(f, items[i]);
      AllUnfolds(f, items, i);
      ok := EncodeScalar(stream, f, items[i]);
      stream.Grows(before, mid, written, item, EncodeSpec.EncodeAll(f, items[i + 1..]), whole, ok);
      if !ok {
        return;
      }
      written := written + item.value;
    }
    stream.Finishes(before, written, whole);
    ok := true;
  }

  /** The size of the packed data, by arithmetic or with a sizing stream. */
  method SizeOfItems(f: Field, items: seq<Value>) returns (ok: bool, size: nat)
    requires f.dataSize <= PB_SIZE_MAX && Packable(f.ltype)
    requires forall k :: 0 <= k < |items| ==> Typed(f, items[k])
    ensures ok == EncodeSpec.EncodeAll(f, items).Some?
    ensures ok ==> size == |EncodeSpec.EncodeAll(f, items).value|
  {
    PackedSize(f, items);
    if f.ltype.LFixed32? {
      return true, 4 * |items|;
    } else if f.ltype.LFixed64? {
      return true, 8 * |items|;
    }
    var sizeStream := new OutStream.Sizing();
    ok := EncodeItems(sizeStream, f, items);
    size := sizeStream.bytesWritten;
  }

  /** The packed branch of encode_array. */
  method EncodePacked(stream: OutStream, f: Field, items: seq<Value>) returns (ok: bool)
    requires stream.Valid() && StaticField(f) && Packable(f.ltype) && 0 < |items| <= f.arraySize
    requires forall k :: 0 <= k < |items| ==> Typed(f, items[k])
    modifies stream, stream.buf
    ensures stream.Emitted(old(stream.Now()), EncodeSpec.EncodeArray(f, items), ok)
  {
    ghost var before := stream.Now();
    ghost var tag := EncodeSpec.TagBytes(WT_STRING, f.tag);
    ghost var data := EncodeSpec.EncodeAll(f, items);
    PackedSize(f, items);
    ok := EncodeTag(stream, WT_STRING, f.tag);
    if !ok {
      stream.ChainStops(before, Some(tag), EncodeSpec.Delimited(data));
      return;
    }
    ghost var mid := stream.Now();
    var size: nat;
    ok, size := SizeOfItems(f, items);
    if !ok {
      stream.Chain(before, mid, tag, None, false);
      return;
    }
    ok := EncodeSized(stream, f, items, size);
    stream.Chain(before, mid, tag, EncodeSpec.Delimited(data), ok);
  }

  /** The length of the packed data, then the data or, on a sizing stream, just its size. */
  method EncodeSized(stream: OutStream, f: Field, items: seq<Value>, size: nat) returns (ok: bool)
    requires stream.Valid() && StaticField(f) && Packable(f.ltype) && |items| <= f.arraySize
    requires forall k :: 0 <= k < |items| ==> Typed(f, items[k])
    requires EncodeSpec.EncodeAll(f, items).Some? && size == |EncodeSpec.EncodeAll(f, items).value|
    modifies stream, stream.buf
    ensures stream.Emitted(old(stream.Now()), EncodeSpec.Delimited(EncodeSpec.EncodeAll(f, items)), ok)
  {
    ghost var before := stream.Now();
    ghost var data := EncodeSpec.EncodeAll(f, items);
    PackedSize(f, items);
    ok := EncodeVarint(stream, size);
    if !ok {
      stream.ChainStops(before, Some(Varint(size)), data);
      return;
    }
    ghost var mid := stream.Now();
    if stream.sizing {
      stream.Count(size);
      ok := true;
    } else {
      ok := EncodeItems(stream, f, items);
    }
    stream.Chain(before, mid, Varint(size), data, ok);
  }

  // ---------------------------------------------------------------- proto3 presence

  /** Field i counts as zero; a oneof field does when which_ is 0, that is, when no member of its union is chosen. */
  predicate FieldIsZero(d: seq<Field>, m: seq<Slot>, i: nat)
    requires |m| == |d| && i < |d|
  {
    if d[i].htype.Oneof? then forall j | 0 <= j < |d| && SameUnion(d, i, j) :: m[j].NotChosen?
    else EncodeSpec.IsZeroSlot(d[i], m[i])
  }

  /** Asking which_ once per member of a union comes to asking each member. */
  lemma UnionsAgree(d: seq<Field>, m: seq<Slot>)
    requires TypedMsg(d, m)
    ensures (forall i :: 0 <= i < |d| ==> FieldIsZero(d, m, i)) <==>
            forall i :: 0 <= i < |d| ==> EncodeSpec.IsZeroSlot(d[i], m[i])
  {
    forall i | 0 <= i < |d| && FieldIsZero(d, m, i) ensures EncodeSpec.IsZeroSlot(d[i], m[i]) {
      assert d[i].htype.Oneof? ==> SameUnion(d, i, i);
    }
    if forall i :: 0 <= i < |d| ==> EncodeSpec.IsZeroSlot(d[i], m[i]) {
      forall i | 0 <= i < |d| ensures FieldIsZero(d, m, i) {
        forall j | 0 <= j < |d| && SameUnion(d, i, j) ensures m[j].NotChosen? {
          assert EncodeSpec.IsZeroSlot(d[j], m[j]) && TypedSlot(d[j], m[j]);
        }
      }
    }
  }

  /** pb_check_proto3_default_value */
  method CheckProto3Default(d: seq<Field>, m: seq<Slot>, i: nat) returns (zero: bool)
    requires |m| == |d| && i < |d| && StaticField(d[i]) && TypedSlot(d[i], m[i])
    ensures zero == FieldIsZero(d, m, i)
    decreases d[i], 1
  {
    var f := d[i];
    if f.htype.Required? {
      return false;
    } else if f.htype.Repeated? {
      return f.sizeOffset != 0 && |m[i].items| == 0;
    } else if f.htype.Oneof? {
      return forall j | 0 <= j < |d| && SameUnion(d, i, j) :: m[j].NotChosen?;
    } else if f.sizeOffset != 0 {
      return !m[i].has;
    }
    var v := m[i].value;
    assert FieldIsZero(d, m, i) == EncodeSpec.IsZero(f, v);
    if f.ltype.LBytes? {
      return |v.bytes| == 0;
    } else if f.ltype.LString? {
      return |v.bytes| == 0 || v.bytes[0] == 0;
    } else if f.ltype.LFixedLengthBytes? {
      return f.dataSize == 0;
    } else if f.ltype.LSubmessage? {
      zero := CheckSubmessageDefault(f.ptr.fields, v.slots);
    } else {
      return v.n == 0;
    }
  }

  /** The submessage branch of pb_check_proto3_default_value. */
  method CheckSubmessageDefault(d: seq<Field>, m: seq<Slot>) returns (zero: bool)
    requires TypedMsg(d, m) && StaticTable(d)
    ensures zero == forall i :: 0 <= i < |d| ==> EncodeSpec.IsZeroSlot(d[i], m[i])
    decreases d, 0
  {
    UnionsAgree(d, m);
    var iter := new PbCommon.FieldIter.Begin(d, 0);
    if d == [] {
      return true;
    }
    var more := true;
    ghost var i := 0;
    while more
      invariant iter.Valid() && iter.start == d
      invariant i <= |d| && more == (i < |d|) && (more ==> iter.pos == i)
      invariant forall k :: 0 <= k < i ==> FieldIsZero(d, m, k)
      decreases |d| - i
    {
      var isZero := CheckProto3Default(d, m, iter.pos);
      if !isZero {
        return false;
      }
      more := iter.Next();
      i := i + 1;
    }
    zero := true;
  }

  // ---------------------------------------------------------------- fields and messages

  lemma EachUnfolds(f: Field, items: seq<Value>, i: nat)
    requires i < |items|
    ensures EncodeSpec.EncodeEach(f, items[i..]) ==
            EncodeSpec.Cat(EncodeSpec.EncodeTagged(f, items[i]), EncodeSpec.EncodeEach(f, items[i + 1..]))
  {
    assert items[i..][1..] == items[i + 1..];
  }

  /** The function from PB_ENCODERS. */
  method EncodeData(stream: OutStream, f: Field, v: Value) returns (ok: bool)
    requires stream.Valid() && StaticField(f) && Typed(f, v) && SizedValue(f, v)
    modifies stream, stream.buf
    ensures stream.Emitted(old(stream.Now()), EncodeSpec.EncodeValue(f, v), ok)
    decreases f, 0
  {
    if f.ltype.LSubmessage? {
      ok := EncodeSubmessage(stream, f.ptr.fields, v.slots);
    } else {
      ok := EncodeScalar(stream, f, v);
    }
  }

  /** A tag and the data. */
  method EncodeTagged(stream: OutStream, f: Field, v: Value) returns (ok: bool)
    requires stream.Valid() && StaticField(f) && Typed(f, v) && SizedValue(f, v)
    modifies stream, stream.buf
    ensures stream.Emitted(old(stream.Now()), EncodeSpec.EncodeTagged(f, v), ok)
    decreases f, 1
  {
    ghost var before := stream.Now();
    ghost var tag := EncodeSpec.TagBytes(EncodeSpec.WireTypeOf(f.ltype), f.tag);
    ghost var data := EncodeSpec.EncodeValue(f, v);
    ok := EncodeTagForField(stream, f);
    if !ok {
      stream.ChainStops(before, Some(tag), data);
      return;
    }
    ghost var mid := stream.Now();
    ok := EncodeData(stream, f, v);
    stream.Chain(before, mid, tag, data, ok);
  }

  /** The unpacked branch of encode_array. */
  method EncodeEach(stream: OutStream, f: Field, items: seq<Value>) returns (ok: bool)
    requires stream.Valid() && StaticField(f)
    requires forall k :: 0 <= k < |items| ==> Typed(f, items[k]) && SizedValue(f, items[k])
    modifies stream, stream.buf
    ensures stream.Emitted(old(stream.Now()), EncodeSpec.EncodeEach(f, items), ok)
    decreases f, 2
  {
    ghost var before, whole := stream.Now(), EncodeSpec.EncodeEach(f, items);
    ghost var written: seq<Byte> := [];
    stream.Begins(whole);
    assert items[0..] == items;
    for i := 0 to |items|
      invariant stream.Midway(before, written, EncodeSpec.EncodeEach(f, items[i..]), whole)
    {
      ghost var mid, item := stream.Now(), EncodeSpec.EncodeTagged(f, items[i]);
      EachUnfolds(f, items, i);
      ok := EncodeTagged(stream, f, items[i]);
      stream.Grows(before, mid, written, item, EncodeSpec.EncodeEach(f, items[i + 1..]), whole, ok);
      if !ok {
        return;
      }
      written := written + item.value;
    }
    stream.Finishes(before, written, whole);
    ok := true;
  }

  /** encode_array */
  method EncodeArray(stream: OutStream, f: Field, items: seq<Value>) returns (ok: bool)
    requires stream.Valid() && StaticField(f)
    requires forall k :: 0 <= k < |items| ==> Typed(f, items[k]) && SizedValue(f, items[k])
    modifies stream, stream.buf
    ensures stream.Emitted(old(stream.Now()), EncodeSpec.EncodeArray(f, items), ok)
    decreases f, 3
  {
    if |items| == 0 {
      stream.Nothing();
      return true;
    }
    if |items| > f.arraySize {
      return false;
    }
    if Packable(f.ltype) {
      ok := EncodePacked(stream, f, items);
    } else {
      ok := EncodeEach(stream, f, items);
    }
  }

  /** encode_basic_field */
  method EncodeBasicField(stream: OutStream, d: seq<Field>, m: seq<Slot>, i: nat) returns (ok: bool)
    requires |m| == |d| && i < |d|
    requires stream.Valid() && StaticField(d[i]) && TypedSlot(d[i], m[i]) && SizedSlot(d[i], m[i])
    modifies stream, stream.buf
    ensures stream.Emitted(old(stream.Now()), EncodeSpec.EncodeField(d[i], m[i]), ok)
    decreases d[i], 4
  {
    var f := d[i];
    var has := true;
    if f.htype.Optional? {
      if f.sizeOffset != 0 {
        has := m[i].has;
      } else {
        var zero := CheckProto3Default(d, m, i);
        has := !zero;
      }
    } else if f.htype.Oneof? {
      // which_ == tag
      has := m[i].Chosen?;
    }
    if !has {
      stream.Nothing();
      return true;
    }
    if f.htype.Repeated? {
      ok := EncodeArray(stream, f, m[i].items);
    } else {
      ok := EncodeTagged(stream, f, m[i].value);
    }
  }

  /** One round of the loop of pb_encode, after `written`. */
  method EncodeNext(stream: OutStream, d: seq<Field>, m: seq<Slot>, i: nat, ghost before: Snapshot,
                    ghost written: seq<Byte>, ghost whole: Option<seq<Byte>>)
      returns (ok: bool, ghost written': seq<Byte>)
    requires |m| == |d| && i < |d| && stream.Midway(before, written, EncodeSpec.EncodeFrom(d, m, i), whole)
    requires StaticField(d[i]) && TypedSlot(d[i], m[i]) && SizedSlot(d[i], m[i])
    modifies stream, stream.buf
    ensures if ok then stream.Midway(before, written', EncodeSpec.EncodeFrom(d, m, i + 1), whole)
            else stream.Emitted(before, whole, false)
    decreases d, 4
  {
    ghost var mid, field := stream.Now(), EncodeSpec.EncodeField(d[i], m[i]);
    ok := EncodeBasicField(stream, d, m, i);
    stream.Grows(before, mid, written, field, EncodeSpec.EncodeFrom(d, m, i + 1), whole, ok);
    written' := if ok then written + field.value else written;
  }

  /** pb_encode */
  method Encode(stream: OutStream, d: seq<Field>, m: seq<Slot>) returns (ok: bool)
    requires stream.Valid() && StaticTable(d) && TypedMsg(d, m) && SizedFields(d, m)
    modifies stream, stream.buf
    ensures stream.Emitted(old(stream.Now()), EncodeSpec.Encode(d, m), ok)
    decreases d, 5
  {
    ghost var before, whole := stream.Now(), EncodeSpec.Encode(d, m);
    ghost var written: seq<Byte> := [];
    stream.Begins(whole);
    var iter := new PbCommon.FieldIter.Begin(d, 0);
    if d == [] {
      stream.Finishes(before, written, whole);
      return true;
    }
    var more := true;
    ghost var i := 0;
    while more
      invariant iter.Valid() && iter.start == d && fresh(iter)
      invariant i <= |d| && more == (i < |d|) && (more ==> iter.pos == i)
      invariant stream.Midway(before, written, EncodeSpec.EncodeFrom(d, m, i), whole)
      decreases |d| - i
    {
      ok, written := EncodeNext(stream, d, m, iter.pos, before, written, whole);
      if !ok {
        return;
      }
      more := iter.Next();
      i := i + 1;
    }
    stream.Finishes(before, written, whole);
    ok := true;
  }

  /** pb_get_encoded_size: the sizing pass predicts the encoding, and fails exactly when it would. */
  method GetEncodedSize(d: seq<Field>, m: seq<Slot>) returns (ok: bool, size: nat)
    requires StaticTable(d) && TypedMsg(d, m) && SizedFields(d, m)
    ensures ok == EncodeSpec.Encode(d, m).Some?
    ensures ok ==> size == |EncodeSpec.Encode(d, m).value|
    decreases d, 6
  {
    var stream := new OutStream.Sizing();
    ok := Encode(stream, d, m);
    size := stream.bytesWritten;
  }

  /** pb_encode_submessage, also pb_encode_delimited. The second pass writes what the first one counted. */
  method EncodeSubmessage(stream: OutStream, d: seq<Field>, m: seq<Slot>) returns (ok: bool)
    requires stream.Valid() && StaticTable(d) && TypedMsg(d, m) && SizedMsg(d, m)
    modifies stream, stream.buf
    ensures stream.Emitted(old(stream.Now()), EncodeSpec.Delimited(EncodeSpec.Encode(d, m)), ok)
    decreases d, 7
  {
    ghost var before := stream.Now();
    ghost var data := EncodeSpec.Encode(d, m);
    var size: nat;
    ok, size := GetEncodedSize(d, m);
    if !ok {
      return;
    }
    ok := EncodeVarint(stream, size);
    if !ok {
      stream.ChainStops(before, Some(Varint(size)), data);
      return;
    }
    ghost var mid := stream.Now();
    ok := EncodeWindow(stream, d, m, size);
    stream.Chain(before, mid, Varint(size), data, ok);
  }

  /** The second pass of pb_encode_submessage, on a substream with max_size bytes. */
  method EncodeWindow(stream: OutStream, d: seq<Field>, m: seq<Slot>, size: nat) returns (ok: bool)
    requires stream.Valid() && StaticTable(d) && TypedMsg(d, m) && SizedFields(d, m)
    requires EncodeSpec.Encode(d, m).Some? && size == |EncodeSpec.Encode(d, m).value|
    modifies stream, stream.buf
    ensures stream.Emitted(old(stream.Now()), EncodeSpec.Encode(d, m), ok)
    decreases d, 6
  {
    if stream.sizing {
      stream.Count(size);
      return true;
    }
    if stream.bytesWritten + size > stream.maxSize {
      return false;
    }
    var substream := new OutStream.FromBuffer(stream.buf, stream.state, size);
    ok := Encode(substream, d, m);
    stream.bytesWritten := stream.bytesWritten + substream.bytesWritten;
    stream.state := substream.state;
    if substream.bytesWritten != size {
      // "submsg size changed"
      assert false;
    }
  }

  /** pb_encode_nullterminated */
  method EncodeNullTerminated(stream: OutStream, d: seq<Field>, m: seq<Slot>) returns (ok: bool)
    requires stream.Valid() && StaticTable(d) && TypedMsg(d, m) && SizedFields(d, m)
    modifies stream, stream.buf
    ensures stream.Emitted(old(stream.Now()), EncodeSpec.Cat(EncodeSpec.Encode(d, m), Some([0])), ok)
  {
    ghost var before := stream.Now();
    ghost var data := EncodeSpec.Encode(d, m);
    ok := Encode(stream, d, m);
    if !ok {
      stream.ChainStops(before, data, Some([0]));
      return;
    }
    ghost var mid := stream.Now();
    ok := stream.Write([0]);
    stream.Chain(before, mid, data.value, Some([0]), ok);
  }
}
