/** Encoding a struct that was decoded from arbitrary bytes: unless a fixed-count array never arrived it succeeds, and
    decoding the result gives the struct back. */
module DecodedEncodes {
  import opened Bits
  import opened Wire
  import opened Pb
  import opened EncodeSpec
  import opened DecodeSpec
  import opened RoundTrip
  import opened KeptMessages
  import opened DecodedStructs

  // ---------------------------------------------------------------- arrays that never arrived

  /** No fixed-count array that would be written was left unread. */
  ghost predicate ReadValue(f: Field, v: Value)
    decreases f, 0
  {
    f.ltype.LSubmessage? && v.Msg? && f.ptr.SubMsg? && |v.slots| == |f.ptr.fields| ==> ReadMsg(f.ptr.fields, v.slots)
  }

  ghost predicate ReadSlot(f: Field, s: Slot)
    decreases f, 1
  {
    match s
    case Plain(v) => ReadValue(f, v)
    case Opt(has, v) => has ==> ReadValue(f, v)
    case Many(items) =>
      && (FixedCount(f) && items == [] ==> f.arraySize == 0)
      && forall k :: 0 <= k < |items| ==> ReadValue(f, items[k])
    case Chosen(v) => ReadValue(f, v)
    case NotChosen => true
  }

  ghost predicate ReadMsg(d: seq<Field>, m: seq<Slot>)
    requires |m| == |d|
    decreases d, 2
  {
    forall i :: 0 <= i < |d| ==> ReadSlot(d[i], m[i])
  }

  // ---------------------------------------------------------------- types

  lemma {:induction false} FilledIsTyped(f: Field, v: Value)
    requires Filled(f, v)
    ensures Typed(f, v) <==> ReadValue(f, v)
    decreases f, 0
  {
    if f.ltype.LSubmessage? {
      FilledMsgIsTyped(f.ptr.fields, v.slots);
    }
  }

  lemma {:induction false} FilledSlotIsTyped(f: Field, s: Slot)
    requires FilledSlot(f, s)
    ensures TypedSlot(f, s) <==> ReadSlot(f, s)
    decreases f, 1
  {
    match s
    case Plain(v) => FilledIsTyped(f, v);
    case Opt(has, v) => FilledIsTyped(f, v);
    case Many(items) =>
      forall k | 0 <= k < |items| ensures Typed(f, items[k]) <==> ReadValue(f, items[k]) {
        FilledIsTyped(f, items[k]);
      }
    case Chosen(v) => FilledIsTyped(f, v);
    case NotChosen =>
  }

  /** A decoded struct is a value of its C type exactly when it leaves no written fixed-count array unread. */
  lemma {:induction false} FilledMsgIsTyped(d: seq<Field>, m: seq<Slot>)
    requires FilledMsg(d, m)
    ensures TypedMsg(d, m) <==> ReadMsg(d, m)
    decreases d, 2
  {
    forall i | 0 <= i < |d| ensures TypedSlot(d[i], m[i]) <==> ReadSlot(d[i], m[i]) {
      FilledSlotIsTyped(d[i], m[i]);
    }
  }

  // ---------------------------------------------------------------- encoding

  lemma {:induction false} FilledEncodes(f: Field, v: Value)
    requires WellFormedField(f) && SoundField(f) && Filled(f, v) && ReadValue(f, v)
    ensures EncodeValue(f, v).Some? && EncodeTagged(f, v).Some?
    decreases f, 0
  {
    if f.ltype.LSubmessage? {
      FilledMsgEncodes(f.ptr.fields, v.slots, 0);
    }
  }

  lemma {:induction false} FilledItemsEncode(f: Field, items: seq<Value>)
    requires WellFormedField(f) && SoundField(f) && FilledItems(f, items)
    requires forall k :: 0 <= k < |items| ==> ReadValue(f, items[k])
    ensures EncodeAll(f, items).Some? && EncodeEach(f, items).Some?
    decreases f, 1, |items|
  {
    if items == [] {
    } else {
      FilledEncodes(f, items[0]);
      FilledItemsEncode(f, items[1..]);
    }
  }

  lemma {:induction false} FilledSlotEncodes(f: Field, s: Slot)
    requires WellFormedField(f) && SoundField(f) && FilledSlot(f, s) && ReadSlot(f, s)
    ensures EncodeField(f, s).Some?
    decreases f, 2
  {
    match s
    case Plain(v) => FilledEncodes(f, v);
    case Opt(has, v) =>
      if has {
        FilledEncodes(f, v);
      }
    case Many(items) => FilledItemsEncode(f, items);
    case Chosen(v) => FilledEncodes(f, v);
    case NotChosen =>
  }

  /** pb_encode accepts a valid struct in which every fixed-count array it writes has been read. */
  lemma {:induction false} FilledMsgEncodes(d: seq<Field>, m: seq<Slot>, i: nat)
    requires SoundTable(d) && FilledMsg(d, m) && ReadMsg(d, m) && i <= |d|
    ensures EncodeFrom(d, m, i).Some?
    decreases d, |d| - i
  {
    if i == |d| {
    } else {
      assert WellFormedField(d[i]) && FilledSlot(d[i], m[i]) && ReadSlot(d[i], m[i]);
      FilledSlotEncodes(d[i], m[i]);
      FilledMsgEncodes(d, m, i + 1);
    }
  }

  // ---------------------------------------------------------------- reading it again

  /** A block inside an encoding shorter than 2^32 is shorter too. */
  lemma {:induction false} ShortIsReadable(f: Field, v: Value, b: seq<Byte>)
    requires Filled(f, v) && ReadValue(f, v) && EncodeValue(f, v) == Some(b) && |b| < U32
    ensures ReadableValue(f, v)
    decreases f, 0
  {
    if f.ltype.LSubmessage? {
      ShortMsgIsReadable(f.ptr.fields, v.slots, 0, EncodeFrom(f.ptr.fields, v.slots, 0).value);
    }
  }

  lemma {:induction false} ShortEachIsReadable(f: Field, items: seq<Value>, b: seq<Byte>)
    requires FilledItems(f, items) && forall k :: 0 <= k < |items| ==> ReadValue(f, items[k])
    requires EncodeEach(f, items) == Some(b) && |b| < U32
    ensures forall k :: 0 <= k < |items| ==> ReadableValue(f, items[k])
    decreases f, 1, |items|
  {
    if items == [] {
    } else {
      var first, rest := EachSplits(f, items, 0, b);
      ShortIsReadable(f, items[0], EncodeValue(f, items[0]).value);
      ShortEachIsReadable(f, items[1..], rest);
      forall k | 0 < k < |items| ensures ReadableValue(f, items[k]) {
        assert items[k] == items[1..][k - 1];
      }
    }
  }

  lemma {:induction false} ShortSlotIsReadable(f: Field, s: Slot, b: seq<Byte>)
    requires FilledSlot(f, s) && ReadSlot(f, s) && EncodeField(f, s) == Some(b) && |b| < U32
    ensures ReadableSlot(f, s)
    decreases f, 2
  {
    match s
    case Many(items) =>
      if items != [] && Packable(f.ltype) {
        forall k | 0 <= k < |items| ensures Typed(f, items[k]) {
          assert Filled(f, items[k]);
        }
        ScalarsReadable(f, items);
      } else {
        ShortEachIsReadable(f, items, b);
      }
    case Plain(v) =>
      if !Dropped(f, s) {
        ShortIsReadable(f, v, EncodeValue(f, v).value);
      }
    case Opt(has, v) =>
      if has {
        ShortIsReadable(f, v, EncodeValue(f, v).value);
      }
    case Chosen(v) => ShortIsReadable(f, v, EncodeValue(f, v).value);
    case NotChosen =>
  }

  lemma {:induction false} ShortMsgIsReadable(d: seq<Field>, m: seq<Slot>, i: nat, b: seq<Byte>)
    requires FilledMsg(d, m) && ReadMsg(d, m) && i <= |d| && EncodeFrom(d, m, i) == Some(b) && |b| < U32
    ensures ReadableAfter(d, m, i)
    ensures i == 0 ==> ReadableMsg(d, m)
    decreases d, |d| - i
  {
    if i == |d| {
    } else {
      var first, rest := FromSplits(d, m, i, b);
      assert FilledSlot(d[i], m[i]) && ReadSlot(d[i], m[i]);
      ShortSlotIsReadable(d[i], m[i], first);
      ShortMsgIsReadable(d, m, i + 1, rest);
    }
  }

  // ---------------------------------------------------------------- what a caller expects is the struct itself

  lemma {:induction false} FilledStays(f: Field, v: Value)
    requires Filled(f, v)
    ensures KeepValue(f, v) == v
    decreases f, 0
  {
    if f.ltype.LSubmessage? {
      FilledMsgStays(f.ptr.fields, v.slots);
    }
  }

  lemma {:induction false} FilledSlotStays(f: Field, s: Slot)
    requires FilledSlot(f, s)
    ensures KeepSlot(f, s) == s
    decreases f, 1
  {
    match s
    case Plain(v) => FilledStays(f, v);
    case Opt(has, v) => FilledStays(f, v);
    case Many(items) =>
      forall k | 0 <= k < |items| ensures KeepItems(f, items)[k] == items[k] {
        FilledStays(f, items[k]);
      }
      assert KeepItems(f, items) == items;
    case Chosen(v) => FilledStays(f, v);
    case NotChosen =>
  }

  lemma {:induction false} FilledMsgStays(d: seq<Field>, m: seq<Slot>)
    requires FilledMsg(d, m)
    ensures KeepMsg(d, m) == m
    decreases d, 2
  {
    forall i | 0 <= i < |d| ensures KeepMsg(d, m)[i] == m[i] {
      FilledSlotStays(d[i], m[i]);
    }
  }

  // ---------------------------------------------------------------- decode, encode, decode

  /** Whatever bytes pb_decode accepted, the struct it made is a value of its C type exactly when no fixed-count array
      that would be written was left unread, and then pb_encode can write it. */
  lemma DecodedEncodes(d: seq<Field>, s: seq<Byte>, m: seq<Slot>)
    requires SoundTable(d) && Decode(d, s) == Some(m)
    ensures ReadMsg(d, m) ==> Encode(d, m).Some?
    ensures TypedMsg(d, m) <==> ReadMsg(d, m)
  {
    DecodedIsFilled(d, s);
    if ReadMsg(d, m) {
      FilledMsgEncodes(d, m, 0);
    }
    FilledMsgIsTyped(d, m);
  }

  // ---------------------------------------------------------------- an array that never arrived

  /** The entries of a fixed-count array, as pb_encode finds them in memory. */
  ghost predicate InMemory(f: Field, items: seq<Value>)
  {
    |items| == f.arraySize && forall k :: 0 <= k < |items| ==> Typed(f, items[k])
  }

  /** The size a bytes entry claims to have is within its storage. */
  predicate EntryFits(f: Field, v: Value)
  {
    v.Blob? && |v.bytes| + BYTES_HEADER <= f.dataSize
  }

  predicate EntriesFit(f: Field, items: seq<Value>)
  {
    forall k :: 0 <= k < |items| ==> EntryFits(f, items[k])
  }

  lemma {:induction false} BytesEncode(f: Field, items: seq<Value>)
    requires f.ltype.LBytes? && forall k :: 0 <= k < |items| ==> Typed(f, items[k])
    ensures EncodeEach(f, items).Some? <==> EntriesFit(f, items)
    decreases |items|
  {
    if items == [] {
    } else {
      BytesEncode(f, items[1..]);
      assert EntriesFit(f, items) <==> EntryFits(f, items[0]) && EntriesFit(f, items[1..]) by {
        assert forall k :: 0 < k < |items| ==> items[k] == items[1..][k - 1];
      }
      assert EncodeValue(f, items[0]).Some? <==> EntryFits(f, items[0]);
    }
  }

  /** The empty input leaves a fixed-count bytes array unread. Whatever its entries then happen to hold is what
      pb_encode writes, and it refuses the struct exactly when one of their sizes exceeds the entry. */
  lemma {:induction false} UnreadBytes(f: Field, items: seq<Value>)
    requires WellFormedField(f) && SoundField(f) && FixedCount(f) && f.ltype.LBytes? && f.arraySize > 0
    requires InMemory(f, items)
    ensures Decode([f], []) == Some([Many([])]) && !ReadMsg([f], [Many([])])
    ensures Encode([f], [Many(items)]).Some? <==> EntriesFit(f, items)
  {
    var d, m := [f], [Many([])];
    assert DefaultMsg(d) == m;
    assert !ReadSlot(d[0], m[0]);
    BytesEncode(f, items);
    assert EncodeFrom(d, [Many(items)], 1) == Some([]);
    assert EncodeField(f, Many(items)) == EncodeEach(f, items);
  }

  /** Two entries of eight bytes: decoding the empty input succeeds, and encoding fails when memory holds a size of nine
      in the second. */
  lemma UnreadIsRefused()
    ensures var f := Field(1, LBytes, Repeated, Static, 0, 0, 12, 2, Null);
            && Decode([f], []) == Some([Many([])])
            && Encode([f], [Many([Blob([]), Blob([0, 0, 0, 0, 0, 0, 0, 0, 0])])]) == None
  {
    var f := Field(1, LBytes, Repeated, Static, 0, 0, 12, 2, Null);
    var items := [Blob([]), Blob([0, 0, 0, 0, 0, 0, 0, 0, 0])];
    UnreadBytes(f, items);
    assert !EntryFits(f, items[1]);
  }

  /** What is written then decodes to the same struct if and only if no zero that is left out has a default other than
      zero, and each block inside is shorter than 2^32 bytes, as it is when the whole is. */
  lemma DecodedComesBack(d: seq<Field>, s: seq<Byte>, m: seq<Slot>, b: seq<Byte>)
    requires SoundTable(d) && Decode(d, s) == Some(m) && ReadMsg(d, m)
    requires Encode(d, m) == Some(b) && |b| < POW_63
    ensures Decode(d, b) == Some(m) <==> ReadableMsg(d, m) && KeepsMsg(d, m)
    ensures |b| < U32 ==> ReadableMsg(d, m)
  {
    DecodedIsFilled(d, s);
    FilledMsgIsTyped(d, m);
    if |b| < U32 {
      ShortMsgIsReadable(d, m, 0, b);
    }
    FilledMsgStays(d, m);
    MessageComesBack(d, m, b);
  }
}
