/** The message a caller expects back from a round trip, and exactly when it does come back: a proto3-style member is
    not written when it is zero, so a default other than zero takes its place. */
module KeptMessages {
  import opened Bits
  import opened Wire
  import opened Pb
  import opened EncodeSpec
  import opened DecodeSpec
  import opened ScalarLaws
  import opened RoundTrip

  // ---------------------------------------------------------------- the expected message

  /** Only absent optional members are reset. */
  function KeepValue(f: Field, v: Value): Value
    decreases f, 0
  {
    if f.ltype.LSubmessage? && v.Msg? && f.ptr.SubMsg? && |v.slots| == |f.ptr.fields|
    then Msg(KeepMsg(f.ptr.fields, v.slots)) else v
  }

  function KeepItems(f: Field, items: seq<Value>): (r: seq<Value>)
    ensures |r| == |items|
    decreases f, 1
  {
    seq(|items|, k requires 0 <= k < |items| => KeepValue(f, items[k]))
  }

  function KeepSlot(f: Field, s: Slot): Slot
    decreases f, 2
  {
    match s
    case Plain(v) => Plain(KeepValue(f, v))
    case Opt(has, v) => Opt(has, if has then KeepValue(f, v) else DefaultValue(f))
    case Many(items) => Many(KeepItems(f, items))
    case Chosen(v) => Chosen(KeepValue(f, v))
    case NotChosen => NotChosen
  }

  function KeepMsg(d: seq<Field>, m: seq<Slot>): (r: seq<Slot>)
    requires |m| == |d|
    ensures |r| == |d|
    decreases d, 3
  {
    seq(|d|, i requires 0 <= i < |d| => KeepSlot(d[i], m[i]))
  }

  // ---------------------------------------------------------------- when it comes back

  /** No zero that is left out of v has a default other than zero. */
  ghost predicate KeepsValue(f: Field, v: Value)
    decreases f, 0
  {
    f.ltype.LSubmessage? && v.Msg? && f.ptr.SubMsg? && |v.slots| == |f.ptr.fields| ==> KeepsMsg(f.ptr.fields, v.slots)
  }

  ghost predicate KeepsSlot(f: Field, s: Slot)
    decreases f, 1
  {
    match s
    case Plain(v) =>
      && (Dropped(f, s) && f.ptr.Default? && !f.ltype.LSubmessage? ==> f.ptr.value == ZeroValue(f))
      && KeepsValue(f, v)
    case Opt(has, v) => has ==> KeepsValue(f, v)
    case Many(items) => forall k :: 0 <= k < |items| ==> KeepsValue(f, items[k])
    case Chosen(v) => KeepsValue(f, v)
    case NotChosen => true
  }

  ghost predicate KeepsMsg(d: seq<Field>, m: seq<Slot>)
    requires |m| == |d|
    decreases d, 2
  {
    forall i :: 0 <= i < |d| ==> KeepsSlot(d[i], m[i])
  }

  // ---------------------------------------------------------------- zeros

  /** A zero is what the decoder puts in place of a member that never arrives. */
  lemma {:induction false} ZeroIsNorm(f: Field, v: Value)
    requires Typed(f, v) && IsZero(f, v) && f.ltype.LSubmessage?
    ensures NormValue(f, v) == DefaultValue(f)
    decreases f, 0
  {
    var d := f.ptr.fields;
    forall i | 0 <= i < |d| ensures NormSlot(d[i], v.slots[i]) == DefaultSlot(d[i]) {
      ZeroSlotIsNorm(d[i], v.slots[i]);
    }
    assert NormMsg(d, v.slots) == DefaultMsg(d);
  }

  /** A member the proto3 zero check drops is decoded to its default. */
  lemma {:induction false} ZeroSlotIsNorm(f: Field, s: Slot)
    requires TypedSlot(f, s) && IsZeroSlot(f, s)
    ensures NormSlot(f, s) == DefaultSlot(f)
    decreases f, 1
  {
  }

  /** A scalar counts as zero exactly when it is what a member without a default starts from; bytes of fixed length only
      when that length is zero. */
  lemma ScalarIsZero(f: Field, v: Value)
    requires Typed(f, v) && !f.ltype.LSubmessage?
    ensures IsZero(f, v) <==> v == ZeroValue(f) && (f.ltype.LFixedLengthBytes? ==> f.dataSize == 0)
  {
    if IsZero(f, v) {
      ZeroScalar(f, v);
    }
  }

  lemma ZeroSlotIsEmpty(f: Field, s: Slot)
    requires TypedSlot(f, s)
    ensures IsZeroSlot(f, s) <==> EncodeField(f, s) == Some([]) && !FixedCount(f)
  {
    match s
    case Many(items) => ArrayNonEmpty(f, items);
    case _ =>
  }

  lemma BothEmpty(a: Option<seq<Byte>>, b: Option<seq<Byte>>)
    ensures Cat(a, b) == Some([]) <==> a == Some([]) && b == Some([])
  {
    if a.Some? && b.Some? {
      assert |a.value + b.value| == |a.value| + |b.value|;
    }
  }

  lemma {:induction false} EmptyFrom(d: seq<Field>, m: seq<Slot>, i: nat)
    requires |m| == |d| && i <= |d|
    ensures EncodeFrom(d, m, i) == Some([]) <==> forall j :: i <= j < |d| ==> EncodeField(d[j], m[j]) == Some([])
    decreases |d| - i
  {
    if i == |d| {
    } else {
      EmptyFrom(d, m, i + 1);
      BothEmpty(EncodeField(d[i], m[i]), EncodeFrom(d, m, i + 1));
      assert EncodeFrom(d, m, i) == Cat(EncodeField(d[i], m[i]), EncodeFrom(d, m, i + 1));
    }
  }

  /** A submessage counts as zero exactly when nothing would be written for it and it has no array of fixed count: the
      comparison member by member is the same as looking at the encoding. */
  lemma SubmessageIsZero(f: Field, slots: seq<Slot>)
    requires f.ltype.LSubmessage? && Typed(f, Msg(slots)) && f.ptr.SubMsg? && |slots| == |f.ptr.fields|
    ensures IsZero(f, Msg(slots)) <==>
            && EncodeFrom(f.ptr.fields, slots, 0) == Some([])
            && forall i :: 0 <= i < |f.ptr.fields| ==> !FixedCount(f.ptr.fields[i])
  {
    var d := f.ptr.fields;
    EmptyFrom(d, slots, 0);
    forall i | 0 <= i < |d|
      ensures IsZeroSlot(d[i], slots[i]) <==> EncodeField(d[i], slots[i]) == Some([]) && !FixedCount(d[i])
    {
      ZeroSlotIsEmpty(d[i], slots[i]);
    }
  }

  lemma ZeroScalar(f: Field, v: Value)
    requires Typed(f, v) && IsZero(f, v) && !f.ltype.LSubmessage?
    ensures v == ZeroValue(f)
  {
    if f.ltype.LFixedLengthBytes? {
      assert v.bytes == seq(f.dataSize, _ => 0);
    }
  }

  // ---------------------------------------------------------------- norm and expectation

  lemma {:induction false} ValueKept(f: Field, v: Value)
    requires WellFormedField(f) && Typed(f, v)
    ensures NormValue(f, v) == KeepValue(f, v) <==> KeepsValue(f, v)
    decreases f, 0
  {
    if f.ltype.LSubmessage? {
      MsgKept(f.ptr.fields, v.slots);
    }
  }

  lemma {:induction false} ItemsKept(f: Field, items: seq<Value>)
    requires WellFormedField(f) && forall k :: 0 <= k < |items| ==> Typed(f, items[k])
    ensures NormItems(f, items) == KeepItems(f, items) <==> forall k :: 0 <= k < |items| ==> KeepsValue(f, items[k])
    decreases f, 1
  {
    forall k | 0 <= k < |items|
      ensures NormItems(f, items)[k] == KeepItems(f, items)[k] <==> KeepsValue(f, items[k])
    {
      ValueKept(f, items[k]);
    }
  }

  lemma {:induction false} SlotKept(f: Field, s: Slot)
    requires WellFormedField(f) && TypedSlot(f, s)
    ensures NormSlot(f, s) == KeepSlot(f, s) <==> KeepsSlot(f, s)
    decreases f, 2
  {
    match s
    case Plain(v) =>
      ValueKept(f, v);
      if Dropped(f, s) {
        if f.ltype.LSubmessage? {
          ZeroIsNorm(f, v);
        } else {
          ZeroScalar(f, v);
        }
      }
    case Opt(has, v) =>
      if has {
        ValueKept(f, v);
      }
    case Many(items) => ItemsKept(f, items);
    case Chosen(v) => ValueKept(f, v);
    case NotChosen =>
  }

  /** The two readings of a message agree exactly when no zero that is left out has a default other than zero. */
  lemma {:induction false} MsgKept(d: seq<Field>, m: seq<Slot>)
    requires WellFormed(d) && TypedMsg(d, m)
    ensures NormMsg(d, m) == KeepMsg(d, m) <==> KeepsMsg(d, m)
    decreases d, 3
  {
    forall i | 0 <= i < |d| ensures NormMsg(d, m)[i] == KeepMsg(d, m)[i] <==> KeepsSlot(d[i], m[i]) {
      SlotKept(d[i], m[i]);
    }
  }

  /** The message the caller encoded comes back if and only if it is readable and no zero member that is left out,
      at any written depth, has a default other than zero. */
  lemma MessageComesBack(d: seq<Field>, m: seq<Slot>, b: seq<Byte>)
    requires Encodable(d, m) && Encode(d, m) == Some(b) && |b| < POW_63
    ensures Decode(d, b) == Some(KeepMsg(d, m)) <==> ReadableMsg(d, m) && KeepsMsg(d, m)
  {
    MessageRestores(d, m, b);
    MsgKept(d, m);
  }

  /** A message that does not: the default of field 1 is 7, its zero is left out, and 7 comes back. */
  lemma ZeroIsLost()
    ensures var f := Field(1, LUVarint, Optional, Static, 0, 0, 4, 0, Default(Num(7)));
            && Encodable([f], [Plain(Num(0))]) && ReadableMsg([f], [Plain(Num(0))])
            && Encode([f], [Plain(Num(0))]) == Some([]) && Decode([f], []) == Some([Plain(Num(7))])
  {
    var f := Field(1, LUVarint, Optional, Static, 0, 0, 4, 0, Default(Num(7)));
    var d, m := [f], [Plain(Num(0))];
    assert TypedSlot(f, m[0]) && WellFormedField(f) && ReadableSlot(f, m[0]);
    assert !SameUnion(d, 0, 0);
    assert TypedMsg(d, m) && ReadableMsg(d, m);
    var none: seq<Byte> := [];
    assert EncodeField(f, m[0]) == Some(none) && EncodeFrom(d, m, 1) == Some(none);
    assert EncodeFrom(d, m, 0) == Some(none + none) && none + none == none;
    MessageRestores(d, m, none);
    assert NormMsg(d, m) == [Plain(Num(7))];
  }

  /** And one that is refused: a string of three bytes fills its array of three, so there is no room for the
      terminator. */
  lemma FullStringIsRefused()
    ensures var f := Field(1, LString, Required, Static, 0, 0, 3, 0, Null);
            var b := Encode([f], [Plain(Blob([97, 98, 99]))]);
            Encodable([f], [Plain(Blob([97, 98, 99]))]) && b.Some? && Decode([f], b.value) == None
  {
    var f := Field(1, LString, Required, Static, 0, 0, 3, 0, Null);
    var text: seq<Byte> := [97, 98, 99];
    var d, m := [f], [Plain(Blob(text))];
    assert TypedSlot(f, m[0]) && WellFormedField(f) && !SameUnion(d, 0, 0) && !ReadableSlot(f, m[0]);
    assert TypedMsg(d, m) && !ReadableMsg(d, m);
    var b := TextBytes(f, text);
    assert EncodeFrom(d, m, 1) == Some([]) && b + [] == b;
    assert EncodeFrom(d, m, 0) == Some(b);
    MessageRestores(d, m, b);
  }

  lemma TextBytes(f: Field, text: seq<Byte>) returns (b: seq<Byte>)
    requires f.ltype.LString? && f.htype.Required? && f.tag == 1 && f.dataSize == |text| == 3 && 0 !in text
    ensures EncodeField(f, Plain(Blob(text))) == Some(b) && |b| < POW_63
  {
    CStringWhole(text);
    assert text[..Min(|text|, f.dataSize)] == text;
    assert EncodeValue(f, Blob(text)) == Some(WithLength(text));
    VarintAtMostTen(|text|);
    VarintAtMostTen(8 * f.tag + WT_STRING);
    b := EncodeTagged(f, Blob(text)).value;
  }
}
