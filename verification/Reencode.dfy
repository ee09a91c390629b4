/** Encoding a decoded message again: exactly when it gives the bytes the message came from. */
module Reencode {
  import opened Bits
  import opened Pb
  import opened EncodeSpec
  import opened RoundTrip
  import opened KeptMessages
  import opened DecodeSpec
  import opened Wire

  lemma {:induction false} SameZero(f: Field, v: Value)
    ensures IsZero(f, KeepValue(f, v)) == IsZero(f, v)
    decreases f, 0
  {
    if f.ltype.LSubmessage? && v.Msg? && f.ptr.SubMsg? && |v.slots| == |f.ptr.fields| {
      var d := f.ptr.fields;
      forall i | 0 <= i < |d| ensures IsZeroSlot(d[i], KeepMsg(d, v.slots)[i]) == IsZeroSlot(d[i], v.slots[i]) {
        SameZeroSlot(d[i], v.slots[i]);
      }
    }
  }

  lemma {:induction false} SameZeroSlot(f: Field, s: Slot)
    ensures IsZeroSlot(f, KeepSlot(f, s)) == IsZeroSlot(f, s)
    decreases f, 1
  {
    match s
    case Plain(v) => SameZero(f, v);
    case Many(items) => assert KeepItems(f, items) == [] <==> items == [];
    case _ =>
  }

  lemma {:induction false} SameValue(f: Field, v: Value)
    ensures EncodeValue(f, KeepValue(f, v)) == EncodeValue(f, v)
    decreases f, 2
  {
    if f.ltype.LSubmessage? && v.Msg? && f.ptr.SubMsg? && |v.slots| == |f.ptr.fields| {
      SameFrom(f.ptr.fields, v.slots, 0);
    }
  }

  lemma TailKept(f: Field, items: seq<Value>)
    requires items != []
    ensures KeepItems(f, items)[0] == KeepValue(f, items[0]) && KeepItems(f, items)[1..] == KeepItems(f, items[1..])
  {
  }

  lemma {:induction false} SameAll(f: Field, items: seq<Value>)
    ensures EncodeAll(f, KeepItems(f, items)) == EncodeAll(f, items)
    decreases f, 3, |items|
  {
    if items == [] {
    } else {
      TailKept(f, items);
      SameValue(f, items[0]);
      SameAll(f, items[1..]);
    }
  }

  lemma {:induction false} SameEach(f: Field, items: seq<Value>)
    ensures EncodeEach(f, KeepItems(f, items)) == EncodeEach(f, items)
    decreases f, 3, |items|
  {
    if items == [] {
    } else {
      TailKept(f, items);
      SameValue(f, items[0]);
      SameEach(f, items[1..]);
    }
  }

  lemma {:induction false} SameField(f: Field, s: Slot)
    ensures EncodeField(f, KeepSlot(f, s)) == EncodeField(f, s)
    decreases f, 4
  {
    match s
    case Plain(v) =>
      SameZero(f, v);
      SameValue(f, v);
    case Opt(has, v) => SameValue(f, v);
    case Many(items) =>
      SameAll(f, items);
      SameEach(f, items);
    case Chosen(v) => SameValue(f, v);
    case NotChosen =>
  }

  lemma {:induction false} SameFrom(d: seq<Field>, m: seq<Slot>, i: nat)
    requires |m| == |d| && i <= |d|
    ensures EncodeFrom(d, KeepMsg(d, m), i) == EncodeFrom(d, m, i)
    decreases d, |d| - i
  {
    if i == |d| {
    } else {
      SameField(d[i], m[i]);
      SameFrom(d, m, i + 1);
    }
  }

  // ---------------------------------------------------------------- a default in place of a zero makes it longer

  /** After decoding, a value is zero exactly when it was and no default has taken the place of a zero. */
  lemma {:induction false} NormZero(f: Field, v: Value)
    requires WellFormedField(f) && Typed(f, v)
    ensures IsZero(f, NormValue(f, v)) <==> IsZero(f, v) && KeepsValue(f, v)
    decreases f, 0
  {
    if f.ltype.LSubmessage? {
      var d := f.ptr.fields;
      forall i | 0 <= i < |d|
        ensures IsZeroSlot(d[i], NormMsg(d, v.slots)[i]) <==>
                IsZeroSlot(d[i], v.slots[i]) && KeepsSlot(d[i], v.slots[i])
      {
        NormZeroSlot(d[i], v.slots[i]);
      }
    }
  }

  lemma {:induction false} NormZeroSlot(f: Field, s: Slot)
    requires WellFormedField(f) && TypedSlot(f, s)
    ensures IsZeroSlot(f, NormSlot(f, s)) <==> IsZeroSlot(f, s) && KeepsSlot(f, s)
    decreases f, 1
  {
    match s
    case Plain(v) =>
      NormZero(f, v);
      if Dropped(f, s) {
        DroppedZero(f, v);
      }
    case Many(items) => assert NormItems(f, items) == [] <==> items == [];
    case _ =>
  }

  /** The default put in place of a zero is zero exactly when nothing surprising happens below it. */
  lemma DroppedZero(f: Field, v: Value)
    requires WellFormedField(f) && Typed(f, v) && Singular(f) && IsZero(f, v)
    requires IsZero(f, NormValue(f, v)) <==> IsZero(f, v) && KeepsValue(f, v)
    ensures IsZero(f, DefaultValue(f)) <==> KeepsSlot(f, Plain(v))
  {
    if f.ltype.LSubmessage? {
      ZeroIsNorm(f, v);
    } else {
      ZeroScalar(f, v);
      if f.ptr.Default? && IsZero(f, f.ptr.value) {
        ZeroScalar(f, f.ptr.value);
      }
    }
  }

  /** No encoding at all, or one of at least n bytes. */
  predicate AtLeast(e: Option<seq<Byte>>, n: nat)
  {
    e.Some? ==> |e.value| >= n
  }

  function Extra(kept: bool): nat
  {
    if kept then 0 else 1
  }

  lemma {:induction false} VarintGrows(a: nat, b: nat)
    requires a <= b
    ensures |Varint(a)| <= |Varint(b)|
    decreases b
  {
    if a <= 0x7F {
    } else {
      VarintGrows(a / 128, b / 128);
    }
  }

  lemma {:induction false} ValueGrows(f: Field, v: Value, b: seq<Byte>)
    requires WellFormedField(f) && Typed(f, v) && EncodeValue(f, v) == Some(b)
    ensures AtLeast(EncodeValue(f, NormValue(f, v)), |b| + Extra(KeepsValue(f, v)))
    decreases f, 2
  {
    if f.ltype.LSubmessage? {
      var d := f.ptr.fields;
      var e, e' := EncodeFrom(d, v.slots, 0), EncodeFrom(d, NormMsg(d, v.slots), 0);
      FromGrows(d, v.slots, 0, e.value);
      assert KeepsAfter(d, v.slots, 0) <==> KeepsMsg(d, v.slots);
      if e'.Some? {
        VarintGrows(|e.value|, |e'.value|);
      }
    }
  }

  lemma TaggedGrows(f: Field, v: Value, v': Value, b: seq<Byte>, kept: bool)
    requires EncodeTagged(f, v) == Some(b)
    requires AtLeast(EncodeValue(f, v'), |EncodeValue(f, v).value| + Extra(kept))
    ensures AtLeast(EncodeTagged(f, v'), |b| + Extra(kept))
  {
  }

  ghost predicate AllKept(f: Field, items: seq<Value>)
  {
    forall k :: 0 <= k < |items| ==> KeepsValue(f, items[k])
  }

  lemma NormTail(f: Field, items: seq<Value>)
    requires items != []
    ensures NormItems(f, items)[0] == NormValue(f, items[0]) && NormItems(f, items)[1..] == NormItems(f, items[1..])
    ensures AllKept(f, items) <==> KeepsValue(f, items[0]) && AllKept(f, items[1..])
  {
    assert forall k :: 0 <= k < |items| - 1 ==> items[1..][k] == items[k + 1];
    if KeepsValue(f, items[0]) && AllKept(f, items[1..]) {
      forall k | 0 <= k < |items| ensures KeepsValue(f, items[k]) {
        assert k > 0 ==> items[k] == items[1..][k - 1];
      }
    }
  }

  lemma {:induction false} EachGrows(f: Field, items: seq<Value>, b: seq<Byte>)
    requires WellFormedField(f) && forall k :: 0 <= k < |items| ==> Typed(f, items[k])
    requires EncodeEach(f, items) == Some(b)
    ensures AtLeast(EncodeEach(f, NormItems(f, items)), |b| + Extra(AllKept(f, items)))
    decreases f, 3, |items|
  {
    if items == [] {
    } else {
      var first, rest := EncodeTagged(f, items[0]).value, EncodeEach(f, items[1..]).value;
      NormTail(f, items);
      ValueGrows(f, items[0], EncodeValue(f, items[0]).value);
      TaggedGrows(f, items[0], NormValue(f, items[0]), first, KeepsValue(f, items[0]));
      EachGrows(f, items[1..], rest);
      CatGrows(EncodeTagged(f, NormValue(f, items[0])), EncodeEach(f, NormItems(f, items[1..])), first, rest,
               KeepsValue(f, items[0]), AllKept(f, items[1..]));
    }
  }

  lemma CatGrows(e: Option<seq<Byte>>, e': Option<seq<Byte>>, b: seq<Byte>, b': seq<Byte>, kept: bool, kept': bool)
    requires AtLeast(e, |b| + Extra(kept)) && AtLeast(e', |b'| + Extra(kept'))
    ensures AtLeast(Cat(e, e'), |b + b'| + Extra(kept && kept'))
  {
  }

  lemma {:induction false} FieldGrows(f: Field, s: Slot, b: seq<Byte>)
    requires WellFormedField(f) && TypedSlot(f, s) && EncodeField(f, s) == Some(b)
    ensures AtLeast(EncodeField(f, NormSlot(f, s)), |b| + Extra(KeepsSlot(f, s)))
    decreases f, 4
  {
    match s
    case Plain(v) => PlainGrows(f, v, b);
    case Opt(has, v) =>
      if has {
        WrittenGrows(f, v, b);
      }
    case Many(items) =>
      if Packable(f.ltype) {
        NormScalars(f, items);
      } else if items != [] && |items| <= f.arraySize {
        EachGrows(f, items, b);
      }
    case Chosen(v) => WrittenGrows(f, v, b);
    case NotChosen =>
  }

  lemma {:induction false} WrittenGrows(f: Field, v: Value, b: seq<Byte>)
    requires WellFormedField(f) && Typed(f, v) && EncodeTagged(f, v) == Some(b)
    ensures AtLeast(EncodeTagged(f, NormValue(f, v)), |b| + Extra(KeepsValue(f, v)))
    decreases f, 3, 0
  {
    ValueGrows(f, v, EncodeValue(f, v).value);
    TaggedGrows(f, v, NormValue(f, v), b, KeepsValue(f, v));
  }

  lemma {:induction false} PlainGrows(f: Field, v: Value, b: seq<Byte>)
    requires WellFormedField(f) && TypedSlot(f, Plain(v)) && EncodeField(f, Plain(v)) == Some(b)
    ensures AtLeast(EncodeField(f, NormSlot(f, Plain(v))), |b| + Extra(KeepsSlot(f, Plain(v))))
    decreases f, 3, 1
  {
    NormZero(f, v);
    if Dropped(f, Plain(v)) {
      DroppedZero(f, v);
    } else {
      WrittenGrows(f, v, b);
    }
  }

  ghost predicate KeepsAfter(d: seq<Field>, m: seq<Slot>, i: nat)
    requires |m| == |d|
  {
    forall j :: i <= j < |d| ==> KeepsSlot(d[j], m[j])
  }

  lemma {:induction false} FromGrows(d: seq<Field>, m: seq<Slot>, i: nat, b: seq<Byte>)
    requires WellFormed(d) && TypedMsg(d, m) && i <= |d| && EncodeFrom(d, m, i) == Some(b)
    ensures AtLeast(EncodeFrom(d, NormMsg(d, m), i), |b| + Extra(KeepsAfter(d, m, i)))
    decreases d, |d| - i
  {
    if i == |d| {
    } else {
      var first, rest := EncodeField(d[i], m[i]).value, EncodeFrom(d, m, i + 1).value;
      FieldGrows(d[i], m[i], first);
      FromGrows(d, m, i + 1, rest);
      CatGrows(EncodeField(d[i], NormSlot(d[i], m[i])), EncodeFrom(d, NormMsg(d, m), i + 1), first, rest,
               KeepsSlot(d[i], m[i]), KeepsAfter(d, m, i + 1));
      assert KeepsAfter(d, m, i) <==> KeepsSlot(d[i], m[i]) && KeepsAfter(d, m, i + 1);
    }
  }

  /** The other way round: what pb_encode wrote and pb_decode accepts is written again byte for byte if and only if no
      zero member that was left out has a default other than zero. */
  lemma BytesRestore(d: seq<Field>, m: seq<Slot>, b: seq<Byte>)
    requires Encodable(d, m) && Encode(d, m) == Some(b) && |b| < POW_63 && Decode(d, b).Some?
    ensures Encode(d, Decode(d, b).value) == Some(b) <==> KeepsMsg(d, m)
  {
    MessageRestores(d, m, b);
    if KeepsMsg(d, m) {
      MsgKept(d, m);
      SameFrom(d, m, 0);
    } else {
      FromGrows(d, m, 0, b);
    }
  }
}
