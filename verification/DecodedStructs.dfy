/** Whatever the bytes, a struct pb_decode accepts is a valid one: every member within its type and its storage. */
module DecodedStructs {
  import opened Bits
  import opened Wire
  import opened Pb
  import opened IterSpec
  import opened DecodeSpec

  // ---------------------------------------------------------------- tables and structs

  /** Storage as generated code declares it: integers of a C width, room for a terminator or a bytes header, and default
      values that fit. */
  ghost predicate SoundField(f: Field)
    decreases f, 0
  {
    && (f.ltype.LVarint? || f.ltype.LUVarint? || f.ltype.LSVarint? ==> ValidWidth(f.dataSize))
    && (f.ltype.LString? ==>
          f.dataSize > 0 && (f.ptr.Default? && f.ptr.value.Blob? ==> |f.ptr.value.bytes| < f.dataSize))
    && (f.ltype.LBytes? ==>
          && BYTES_HEADER <= f.dataSize
          && (f.ptr.Default? && f.ptr.value.Blob? ==> |f.ptr.value.bytes| + BYTES_HEADER <= f.dataSize))
    && (f.ptr.SubMsg? ==> SoundTable(f.ptr.fields))
  }

  ghost predicate SoundTable(d: seq<Field>)
    decreases d, 1
  {
    WellFormed(d) && forall i :: 0 <= i < |d| ==> SoundField(d[i])
  }

  /** A value within its storage; a submessage filled in turn. */
  ghost predicate Filled(f: Field, v: Value)
    decreases f, 0
  {
    if f.ltype.LSubmessage? then v.Msg? && f.ptr.SubMsg? && FilledMsg(f.ptr.fields, v.slots)
    else
      && Typed(f, v)
      && (f.ltype.LString? ==> |v.bytes| < f.dataSize)
      && (f.ltype.LBytes? ==> |v.bytes| + BYTES_HEADER <= f.dataSize)
  }

  ghost predicate FilledItems(f: Field, items: seq<Value>)
    decreases f, 1
  {
    |items| <= f.arraySize && forall k :: 0 <= k < |items| ==> Filled(f, items[k])
  }

  /** Counts within the array, absent members at their default, a fixed-count array complete or never met. */
  ghost predicate FilledSlot(f: Field, s: Slot)
    decreases f, 2
  {
    match f.htype
    case Required => s.Plain? && Filled(f, s.value)
    case Optional =>
      if f.sizeOffset != 0 then s.Opt? && Filled(f, s.value) && (!s.has ==> s.value == DefaultValue(f))
      else s.Plain? && Filled(f, s.value)
    case Repeated =>
      s.Many? && FilledItems(f, s.items) && (FixedCount(f) ==> |s.items| == f.arraySize || s.items == [])
    case Oneof => s.NotChosen? || (s.Chosen? && Filled(f, s.value))
  }

  /** At most one member of each union is chosen. */
  ghost predicate UnionsApart(d: seq<Field>, m: seq<Slot>)
    requires |m| == |d|
  {
    forall i, j :: 0 <= i < j < |d| && SameUnion(d, i, j) ==> !(m[i].Chosen? && m[j].Chosen?)
  }

  ghost predicate FilledMsg(d: seq<Field>, m: seq<Slot>)
    decreases d, 3
  {
    |m| == |d| && UnionsApart(d, m) && forall i :: 0 <= i < |d| ==> FilledSlot(d[i], m[i])
  }

  // ---------------------------------------------------------------- defaults and scalars

  lemma {:induction false} DefaultFilled(f: Field)
    requires WellFormedField(f) && SoundField(f)
    ensures Filled(f, DefaultValue(f)) && FilledSlot(f, DefaultSlot(f))
    decreases f, 0
  {
    if f.ltype.LSubmessage? {
      DefaultMsgFilled(f.ptr.fields);
    }
  }

  lemma {:induction false} DefaultMsgFilled(d: seq<Field>)
    requires SoundTable(d)
    ensures FilledMsg(d, DefaultMsg(d))
    decreases d, 1
  {
    forall i | 0 <= i < |d| ensures FilledSlot(d[i], DefaultMsg(d)[i]) {
      assert WellFormedField(d[i]);
      DefaultFilled(d[i]);
    }
  }

  lemma {:induction false} WordBound(b: seq<Byte>)
    ensures |b| == 4 ==> FromLittleEndian(b) < U32
    ensures |b| == 8 ==> FromLittleEndian(b) < U64
  {
    BytesBound(b);
    Pow2Values();
  }

  lemma {:induction false} BytesBound(b: seq<Byte>)
    ensures FromLittleEndian(b) < Pow2(8 * |b|)
  {
    if b == [] {
    } else {
      BytesBound(b[1..]);
      var n := 8 * |b[1..]|;
      Pow2Step7(n);
      assert Pow2(n + 8) == 2 * Pow2(n + 7);
    }
  }

  /** What a scalar reader accepts fits the member. */
  lemma ScalarFilled(f: Field, s: seq<Byte>)
    requires WellFormedField(f) && SoundField(f) && !f.ltype.LSubmessage? && DecodeScalar(f, s).Ok?
    ensures Filled(f, DecodeScalar(f, s).value)
  {
    match f.ltype
    case LFixed32 => WordBound(Take(s, WordSize(f.ltype)).value);
    case LFixed64 => WordBound(Take(s, WordSize(f.ltype)).value);
    case _ =>
  }

  // ---------------------------------------------------------------- arrays

  /** An array while it is written from entry `count` on: what stands is in place, and either all of it was written
      before or nothing lies past the entries written. */
  ghost predicate ArrayFilled(f: Field, a: Array)
  {
    FilledItems(f, a.items) && a.count <= f.arraySize && (|a.items| == f.arraySize || |a.items| == a.count)
  }

  lemma PutKeepsFilled(f: Field, a: Array, v: Value)
    requires ArrayFilled(f, a) && a.count < f.arraySize && Filled(f, v)
    ensures ArrayFilled(f, Array(Put(a.items, a.count, v), a.count + 1))
  {
  }

  lemma {:induction false} PackedKeepsFilled(f: Field, block: seq<Byte>, a: Array)
    requires WellFormedField(f) && SoundField(f) && !f.ltype.LSubmessage? && ArrayFilled(f, a)
    ensures var r := DecodePacked(f, block, a); r.Some? ==> ArrayFilled(f, r.value)
    decreases |block|
  {
    if block == [] || a.count >= f.arraySize || DecodeScalar(f, block).Err? {
    } else {
      var r := DecodeScalar(f, block);
      ScalarFilled(f, block);
      PutKeepsFilled(f, a, r.value);
      PackedKeepsFilled(f, r.rest, Array(Put(a.items, a.count, r.value), a.count + 1));
    }
  }

  // ---------------------------------------------------------------- the struct while it is decoded

  /** A member while decoding is under way: only the fixed-count array being read may be incomplete. */
  ghost predicate SlotFilling(d: seq<Field>, st: State, i: nat)
    requires InRange(d, st) && i < |d|
  {
    if FixedCount(d[i]) && st.fixedField == Some(i)
    then st.m[i].Many? && ArrayFilled(d[i], Array(st.m[i].items, st.fixedSize))
    else FilledSlot(d[i], st.m[i])
  }

  ghost predicate Filling(d: seq<Field>, st: State)
  {
    InRange(d, st) && UnionsApart(d, st.m) && forall i :: 0 <= i < |d| ==> SlotFilling(d, st, i)
  }

  lemma StartFills(d: seq<Field>, m: seq<Slot>)
    requires FilledMsg(d, m)
    ensures Filling(d, Start(m))
  {
    forall i | 0 <= i < |d| ensures SlotFilling(d, Start(m), i) {
      assert FilledSlot(d[i], m[i]);
    }
  }

  /** Once the last fixed-count array is complete the struct is a valid one. */
  lemma CompleteFills(d: seq<Field>, st: State)
    requires Filling(d, st) && FixedComplete(d, st)
    ensures FilledMsg(d, st.m)
  {
    forall i | 0 <= i < |d| ensures FilledSlot(d[i], st.m[i]) {
      assert SlotFilling(d, st, i);
    }
  }

  lemma EnterKeepsFilling(d: seq<Field>, st: State, i: nat)
    requires Filling(d, st) && i < |d| && EnterFixed(d, st, i).Some?
    ensures Filling(d, EnterFixed(d, st, i).value)
    ensures var st' := EnterFixed(d, st, i).value; st'.m == st.m && (FixedCount(d[i]) ==> st'.fixedField == Some(i))
  {
    var st' := EnterFixed(d, st, i).value;
    forall j | 0 <= j < |d| ensures SlotFilling(d, st', j) {
      assert SlotFilling(d, st, j);
    }
  }

  /** Storing a member: the rest of its union is gone, everything else stays. */
  lemma StoreKeepsApart(d: seq<Field>, m: seq<Slot>, i: nat, slot: Slot)
    requires |m| == |d| && i < |d| && UnionsApart(d, m)
    ensures UnionsApart(d, Store(d, m, i, slot))
  {
    var m' := Store(d, m, i, slot);
    forall j, k | 0 <= j < k < |d| && SameUnion(d, j, k) ensures !(m'[j].Chosen? && m'[k].Chosen?) {
      assert SameUnion(d, k, j);
    }
  }

  lemma StoreKeepsFilling(d: seq<Field>, st: State, i: nat, slot: Slot, st': State)
    requires Filling(d, st) && i < |d| && InRange(d, st') && st'.m == Store(d, st.m, i, slot)
    requires st'.fixedField == st.fixedField && (st.fixedField != Some(i) ==> st'.fixedSize == st.fixedSize)
    requires FixedCount(d[i]) ==> st.fixedField == Some(i)
    requires SlotFilling(d, st', i)
    ensures Filling(d, st')
  {
    StoreKeepsApart(d, st.m, i, slot);
    forall j | 0 <= j < |d| ensures SlotFilling(d, st', j) {
      assert SlotFilling(d, st, j);
    }
  }

  // ---------------------------------------------------------------- the decoder

  lemma CurrentFilled(f: Field, slot: Slot)
    requires WellFormedField(f) && SoundField(f) && FilledSlot(f, slot) && !f.htype.Oneof? && !f.htype.Repeated?
    ensures Filled(f, ValueOf(f, slot))
  {
  }

  lemma {:induction false} ValueFilled(f: Field, s: seq<Byte>, current: Value)
    requires WellFormedField(f) && SoundField(f) && Filled(f, current)
    ensures var r := DecodeValue(f, s, current); r.Ok? ==> Filled(f, r.value)
    decreases |s|, 1
  {
    if f.ltype.LSubmessage? {
      var d := f.ptr.fields;
      if Block(s).Ok? {
        DefaultMsgFilled(d);
        NoinitFilled(d, Block(s).value, if f.htype.Repeated? then DefaultMsg(d) else SlotsOf(current, d));
      }
    } else if DecodeScalar(f, s).Ok? {
      ScalarFilled(f, s);
    }
  }

  lemma {:induction false} RepeatedFilled(f: Field, wireType: nat, s: seq<Byte>, a: Array)
    requires WellFormedField(f) && SoundField(f) && ArrayFilled(f, a)
    ensures var r := DecodeRepeated(f, wireType, s, a); r.Ok? ==> ArrayFilled(f, r.value)
    decreases |s|, 2
  {
    if wireType == WT_STRING && Packable(f.ltype) {
      if Block(s).Ok? {
        PackedKeepsFilled(f, Block(s).value, a);
      }
    } else {
      DefaultFilled(f);
      ValueFilled(f, s, DefaultValue(f));
      var r := DecodeValue(f, s, DefaultValue(f));
      if a.count < f.arraySize && r.Ok? {
        PutKeepsFilled(f, a, r.value);
      }
    }
  }

  lemma {:induction false} SingleFilled(f: Field, s: seq<Byte>, slot: Slot)
    requires WellFormedField(f) && SoundField(f) && FilledSlot(f, slot) && !f.htype.Repeated?
    ensures var r := DecodeSingle(f, s, slot); r.Ok? ==> FilledSlot(f, r.value)
    decreases |s|, 2
  {
    DefaultFilled(f);
    var current := if f.htype.Oneof? then DefaultValue(f) else ValueOf(f, slot);
    if !f.htype.Oneof? {
      CurrentFilled(f, slot);
    }
    ValueFilled(f, s, current);
  }

  lemma {:induction false} FieldKeepsFilling(d: seq<Field>, st: State, i: nat, wireType: nat, s: seq<Byte>)
    requires SoundTable(d) && Filling(d, st) && i < |d| && (FixedCount(d[i]) ==> st.fixedField == Some(i))
    ensures var r := DecodeField(d, st, i, wireType, s); r.Continue? ==> Filling(d, r.state)
    decreases |s|, 3
  {
    var f, slot := d[i], st.m[i];
    assert SlotFilling(d, st, i) && WellFormedField(f);
    var r := DecodeField(d, st, i, wireType, s);
    if f.htype.Repeated? {
      var a := Array(ItemsOf(slot), if FixedCount(f) then st.fixedSize else |ItemsOf(slot)|);
      RepeatedFilled(f, wireType, s, a);
      if r.Continue? {
        StoreKeepsFilling(d, st, i, Many(DecodeRepeated(f, wireType, s, a).value.items), r.state);
      }
    } else {
      SingleFilled(f, s, slot);
      if r.Continue? {
        StoreKeepsFilling(d, st, i, DecodeSingle(f, s, slot).value, r.state);
      }
    }
  }

  lemma MarkKeepsFilling(d: seq<Field>, st: State, i: nat)
    requires Filling(d, st) && i < |d|
    ensures Filling(d, MarkSeen(d, st, i)) && MarkSeen(d, st, i).fixedField == st.fixedField
  {
    forall j | 0 <= j < |d| ensures SlotFilling(d, MarkSeen(d, st, i), j) {
      assert SlotFilling(d, st, j);
    }
  }

  lemma {:induction false} StepKeepsFilling(d: seq<Field>, st: State, s: seq<Byte>)
    requires SoundTable(d) && Filling(d, st)
    ensures var r := Step(d, st, s); r.Continue? ==> Filling(d, r.state)
    decreases |s|, 2
  {
    var tag := DecodeTag(s);
    if tag.Tag? && d != [] {
      var at := Find(d, st.pos, tag.tag);
      if at.Some? && EnterFixed(d, st, at.value).Some? {
        EnterKeepsFilling(d, st, at.value);
        var st' := EnterFixed(d, st, at.value).value;
        MarkKeepsFilling(d, st', at.value);
        FieldKeepsFilling(d, MarkSeen(d, st', at.value), at.value, tag.wireType, tag.rest);
      }
    }
  }

  lemma {:induction false} LoopKeepsFilling(d: seq<Field>, st: State, s: seq<Byte>)
    requires SoundTable(d) && Filling(d, st)
    ensures var r := Loop(d, st, s); r.Done? ==> Filling(d, r.state)
    decreases |s|, 4
  {
    if s == [] {
    } else {
      StepKeepsFilling(d, st, s);
      var r := Step(d, st, s);
      if r.Continue? {
        LoopKeepsFilling(d, r.state, r.rest);
      }
    }
  }

  lemma {:induction false} NoinitFilled(d: seq<Field>, s: seq<Byte>, m: seq<Slot>)
    requires SoundTable(d) && FilledMsg(d, m)
    ensures var r := DecodeNoinit(d, s, m); r.Some? ==> FilledMsg(d, r.value)
    decreases |s|, 5
  {
    StartFills(d, m);
    LoopKeepsFilling(d, Start(m), s);
    if DecodeNoinit(d, s, m).Some? {
      CompleteFills(d, Loop(d, Start(m), s).state);
    }
  }

  /** Whatever bytes arrive, what pb_decode accepts is a valid struct. */
  lemma DecodedIsFilled(d: seq<Field>, s: seq<Byte>)
    requires SoundTable(d)
    ensures var r := Decode(d, s); r.Some? ==> FilledMsg(d, r.value)
  {
    DefaultMsgFilled(d);
    NoinitFilled(d, s, DefaultMsg(d));
  }
}
