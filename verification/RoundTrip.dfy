/** Decoding what was encoded. */
module RoundTrip {
  import opened Bits
  import opened Wire
  import opened Pb
  import opened EncodeSpec
  import opened IterSpec
  import opened DecodeSpec
  import opened ScalarLaws
  import opened Lookup

  // ---------------------------------------------------------------- what comes back

  /** Members that are not written, absent optionals and zeros of proto3-style members, come back as their default;
      everything else stays. */
  function NormValue(f: Field, v: Value): Value
    decreases f, 0
  {
    if f.ltype.LSubmessage? && v.Msg? && f.ptr.SubMsg? && |v.slots| == |f.ptr.fields|
    then Msg(NormMsg(f.ptr.fields, v.slots)) else v
  }

  function NormItems(f: Field, items: seq<Value>): (r: seq<Value>)
    ensures |r| == |items|
    decreases f, 1
  {
    seq(|items|, k requires 0 <= k < |items| => NormValue(f, items[k]))
  }

  function NormSlot(f: Field, s: Slot): Slot
    decreases f, 2
  {
    match s
    case Plain(v) => Plain(if Singular(f) && IsZero(f, v) then DefaultValue(f) else NormValue(f, v))
    case Opt(has, v) => Opt(has, if has then NormValue(f, v) else DefaultValue(f))
    case Many(items) => Many(NormItems(f, items))
    case Chosen(v) => Chosen(NormValue(f, v))
    case NotChosen => NotChosen
  }

  function NormMsg(d: seq<Field>, m: seq<Slot>): (r: seq<Slot>)
    requires |m| == |d|
    ensures |r| == |d|
    decreases d, 3
  {
    seq(|d|, i requires 0 <= i < |d| => NormSlot(d[i], m[i]))
  }

  // ---------------------------------------------------------------- when it comes back

  /** Strings that are written leave room for their terminator; length-prefixed blocks are below 2^32 bytes. */
  ghost predicate ReadableValue(f: Field, v: Value)
    decreases f, 0
  {
    match v
    case Num(_) => true
    case Blob(b) => !(f.ltype.LString? && |b| == f.dataSize)
    case Msg(slots) =>
      f.ptr.SubMsg? && |slots| == |f.ptr.fields| ==>
        ReadableMsg(f.ptr.fields, slots) && Short(EncodeFrom(f.ptr.fields, slots, 0))
  }

  ghost predicate Short(b: Option<seq<Byte>>)
  {
    b.Some? ==> |b.value| < U32
  }

  ghost predicate ReadableSlot(f: Field, s: Slot)
    decreases f, 1
  {
    match s
    case Plain(v) => (Singular(f) && IsZero(f, v)) || ReadableValue(f, v)
    case Opt(has, v) => has ==> ReadableValue(f, v)
    case Many(items) =>
      && (Packable(f.ltype) ==> Short(EncodeAll(f, items)))
      && forall k :: 0 <= k < |items| ==> ReadableValue(f, items[k])
    case Chosen(v) => ReadableValue(f, v)
    case NotChosen => true
  }

  ghost predicate ReadableMsg(d: seq<Field>, m: seq<Slot>)
    requires |m| == |d|
    decreases d, 2
  {
    forall i :: 0 <= i < |d| ==> ReadableSlot(d[i], m[i])
  }

  // ---------------------------------------------------------------- one round of the loop

  lemma TagRestores(wireType: nat, tag: nat, s: seq<Byte>, p: seq<Byte>)
    requires wireType < 8 && 1 <= tag < 0x2000_0000 && s == TagBytes(wireType, tag) + p
    ensures DecodeTag(s) == Tag(tag, wireType, p)
  {
    var v := TagParts(wireType, tag);
    LengthRestores(v, s, p);
    TagOf(s, v, p);
  }

  lemma TagParts(wireType: nat, tag: nat) returns (v: nat)
    requires wireType < 8 && 1 <= tag < 0x2000_0000
    ensures v == 8 * tag + wireType && 0 < v < U32 && v / 8 == tag && v % 8 == wireType
  {
    v := 8 * tag + wireType;
  }

  lemma TagOf(s: seq<Byte>, v: nat, p: seq<Byte>)
    requires s != [] && Varint32(s) == Ok(v, p) && v > 0
    ensures DecodeTag(s) == Tag(v / 8, v % 8, p)
  {
  }

  /** A round that meets the tag of field i reads field i, wherever the iterator stood. */
  lemma LoopEnters(d: seq<Field>, st: State, i: nat, wireType: nat, s: seq<Byte>, p: seq<Byte>)
    requires InRange(d, st) && WellFormed(d) && i < |d| && wireType < 8
    requires s == TagBytes(wireType, d[i].tag) + p
    ensures Loop(d, st, s) ==
            match EnterFixed(d, st, i)
            case None => LoopFail
            case Some(st') => AfterField(d, DecodeField(d, MarkSeen(d, st', i), i, wireType, p))
  {
    assert WellFormedField(d[i]);
    TagRestores(wireType, d[i].tag, s, p);
    FindUnique(d, st.pos, i);
  }

  function AfterField(d: seq<Field>, r: StepResult): LoopResult
    requires r.Continue? ==> InRange(d, r.state)
  {
    match r
    case Fail => LoopFail
    case Stop(rest) => LoopFail
    case Continue(st, rest) => Loop(d, st, rest)
  }

  lemma StoreAlone(d: seq<Field>, m: seq<Slot>, i: nat, slot: Slot)
    requires |m| == |d| && i < |d|
    requires forall j :: 0 <= j < |d| && j != i && SameUnion(d, i, j) ==> m[j].NotChosen?
    ensures Store(d, m, i, slot) == m[i := slot]
  {
  }

  // ---------------------------------------------------------------- progress of the decoder

  /** The struct after the first i fields: those are restored, the others still have their defaults. */
  ghost predicate Restored(d: seq<Field>, m: seq<Slot>, i: nat, got: seq<Slot>)
    requires |m| == |d|
  {
    |got| == |d| && forall j :: 0 <= j < |d| ==> got[j] == if j < i then NormSlot(d[j], m[j]) else DefaultSlot(d[j])
  }

  ghost predicate SeenAll(d: seq<Field>, i: nat, seen: set<nat>)
    requires i <= |d|
  {
    forall k :: 0 <= k < RequiredBefore(d, i) && k < PB_MAX_REQUIRED_FIELDS ==> k in seen
  }

  ghost predicate At(d: seq<Field>, m: seq<Slot>, i: nat, st: State)
    requires |m| == |d| && i <= |d|
  {
    && InRange(d, st)
    && Restored(d, m, i, st.m)
    && SeenAll(d, i, st.seen)
    && FixedComplete(d, st)
    && (st.fixedField.Some? ==> st.fixedField.value < i)
  }

  /** The hypotheses on one struct type and one message of it. */
  ghost predicate Encodable(d: seq<Field>, m: seq<Slot>)
  {
    WellFormed(d) && TypedMsg(d, m)
  }

  lemma UnionAlone(d: seq<Field>, m: seq<Slot>, i: nat, got: seq<Slot>)
    requires Encodable(d, m) && i < |d| && Restored(d, m, i, got) && (d[i].htype.Oneof? ==> m[i].Chosen?)
    ensures forall j :: 0 <= j < |d| && j != i && SameUnion(d, i, j) ==> got[j].NotChosen?
  {
    forall j | 0 <= j < |d| && j != i && SameUnion(d, i, j) ensures got[j].NotChosen? {
      assert TypedSlot(d[j], m[j]);
      if j < i {
        assert SameUnion(d, j, i);
      }
    }
  }

  /** Storing what field i decodes to moves the restored part one field on. */
  lemma StoreRestores(d: seq<Field>, m: seq<Slot>, i: nat, got: seq<Slot>)
    requires Encodable(d, m) && i < |d| && Restored(d, m, i, got) && (d[i].htype.Oneof? ==> m[i].Chosen?)
    ensures Restored(d, m, i + 1, Store(d, got, i, NormSlot(d[i], m[i])))
  {
    UnionAlone(d, m, i, got);
    StoreAlone(d, got, i, NormSlot(d[i], m[i]));
  }

  lemma MarkSeenCounts(d: seq<Field>, i: nat, st: State)
    requires InRange(d, st) && i < |d| && SeenAll(d, i, st.seen)
    ensures SeenAll(d, i + 1, MarkSeen(d, st, i).seen)
  {
  }

  // ---------------------------------------------------------------- values and single members

  lemma {:induction false} ValueRestores(f: Field, v: Value, b: seq<Byte>, t: seq<Byte>)
    requires WellFormedField(f) && Typed(f, v)
    requires EncodeValue(f, v) == Some(b) && |b| < POW_63
    ensures DecodeValue(f, b + t, DefaultValue(f)) ==
            if ReadableValue(f, v) then Ok(NormValue(f, v), t) else Err
    decreases f, 0
  {
    if f.ltype.LSubmessage? {
      var d := f.ptr.fields;
      var e := EncodeFrom(d, v.slots, 0).value;
      BlockRestores(e, b + t, t);
      MessageRestores(d, v.slots, e);
    } else {
      ScalarRestores(f, v, b, t);
    }
  }

  /** The value a member holds when it is written out. */
  function Written(s: Slot): Option<Value>
  {
    match s
    case Plain(v) => Some(v)
    case Opt(has, v) => if has then Some(v) else None
    case Chosen(v) => Some(v)
    case _ => None
  }

  /** A proto3-style member at zero is left out. */
  predicate Dropped(f: Field, s: Slot)
  {
    s.Plain? && Singular(f) && IsZero(f, s.value)
  }

  /** Field i is read from s: it is in and t is left, or the decoder has rejected it. */
  ghost predicate FieldComes(
      d: seq<Field>, m: seq<Slot>, i: nat, st: State, s: seq<Byte>, st': State, t: seq<Byte>, readable: bool)
    requires |m| == |d| && i < |d|
  {
    && InRange(d, st) && InRange(d, st')
    && if readable then At(d, m, i + 1, st') && Loop(d, st, s) == Loop(d, st', t) else Loop(d, st, s) == LoopFail
  }

  lemma {:induction false} SingleRestores(
      d: seq<Field>, m: seq<Slot>, i: nat, st: State, v: Value, b: seq<Byte>, t: seq<Byte>) returns (st': State)
    requires Encodable(d, m) && i < |d| && At(d, m, i, st)
    requires Written(m[i]) == Some(v) && !Dropped(d[i], m[i]) && EncodeTagged(d[i], v) == Some(b) && |b| < POW_63
    ensures FieldComes(d, m, i, st, b + t, st', t, ReadableValue(d[i], v))
    decreases d[i], 2
  {
    var f := d[i];
    assert WellFormedField(f) && TypedSlot(f, m[i]);
    var p := EncodeValue(f, v).value;
    var s := p + t;
    assert b + t == TagBytes(WireTypeOf(f.ltype), f.tag) + s;
    LoopEnters(d, st, i, WireTypeOf(f.ltype), b + t, s);
    ValueRestores(f, v, p, t);
    var st1 := MarkSeen(d, st, i);
    MarkSeenCounts(d, i, st);
    SingleDecodes(f, v, m[i], s, t);
    StoreRestores(d, m, i, st.m);
    st' := st1.(m := Store(d, st.m, i, NormSlot(f, m[i])), pos := i);
  }

  lemma SingleDecodes(f: Field, v: Value, s: Slot, p: seq<Byte>, t: seq<Byte>)
    requires TypedSlot(f, s) && Written(s) == Some(v) && !Dropped(f, s)
    requires DecodeValue(f, p, DefaultValue(f)) == if ReadableValue(f, v) then Ok(NormValue(f, v), t) else Err
    ensures DecodeSingle(f, p, DefaultSlot(f)) == if ReadableValue(f, v) then Ok(NormSlot(f, s), t) else Err
  {
  }

  // ---------------------------------------------------------------- arrays

  /** A packed block holding the encodings of `items` appends them, or overflows the array. */
  lemma {:induction false} PackedRestores(f: Field, items: seq<Value>, b: seq<Byte>, a: Array)
    requires Packable(f.ltype) && f.dataSize <= PB_SIZE_MAX && a.count == |a.items|
    requires forall k :: 0 <= k < |items| ==> Typed(f, items[k])
    requires EncodeAll(f, items) == Some(b)
    ensures DecodePacked(f, b, a) ==
            if items == [] || a.count + |items| <= f.arraySize
            then Some(Array(a.items + items, a.count + |items|)) else None
    decreases |items|
  {
    if items == [] {
      assert a.items + items == a.items;
    } else {
      var v := EncodeValue(f, items[0]).value;
      var rest := EncodeAll(f, items[1..]).value;
      ScalarRestores(f, items[0], v, rest);
      ScalarNonEmpty(f, items[0], v);
      var a' := Array(a.items + [items[0]], a.count + 1);
      PackedRestores(f, items[1..], rest, a');
      MovesOver(a.items, items);
    }
  }

  /** What is read first, and the rest in front of t. */
  lemma Regroup(first: seq<Byte>, rest: seq<Byte>, t: seq<Byte>) returns (s: seq<Byte>)
    ensures s == rest + t && first + rest + t == first + s
  {
    s := rest + t;
  }

  lemma MovesOver(done: seq<Value>, items: seq<Value>)
    requires items != []
    ensures done + [items[0]] + items[1..] == done + items
  {
  }

  lemma ScalarNonEmpty(f: Field, v: Value, b: seq<Byte>)
    requires Packable(f.ltype) && f.dataSize <= PB_SIZE_MAX && Typed(f, v) && EncodeValue(f, v) == Some(b)
    ensures b != []
  {
    ScalarRestores(f, v, b, []);
    assert b + [] == b;
  }

  /** The first k entries of array i are in, everything before is restored. */
  ghost predicate AtItem(d: seq<Field>, m: seq<Slot>, i: nat, k: nat, st: State)
    requires |m| == |d| && i < |d| && m[i].Many? && k <= |m[i].items|
  {
    && InRange(d, st)
    && Restored(d, m, i, st.m[i := DefaultSlot(d[i])])
    && st.m[i] == Many(NormItems(d[i], m[i].items)[..k])
    && SeenAll(d, i, st.seen)
    && (if FixedCount(d[i]) && k > 0 then st.fixedField == Some(i) && st.fixedSize == k
        else FixedComplete(d, st) && (st.fixedField.Some? ==> st.fixedField.value < i))
  }

  lemma AtFirstItem(d: seq<Field>, m: seq<Slot>, i: nat, st: State)
    requires Encodable(d, m) && i < |d| && m[i].Many? && At(d, m, i, st)
    ensures AtItem(d, m, i, 0, st)
  {
    assert TypedSlot(d[i], m[i]);
    assert st.m[i := DefaultSlot(d[i])] == st.m;
  }

  lemma AtLastItem(d: seq<Field>, m: seq<Slot>, i: nat, st: State)
    requires Encodable(d, m) && i < |d| && m[i].Many? && m[i].items != [] && AtItem(d, m, i, |m[i].items|, st)
    ensures At(d, m, i + 1, st)
  {
    assert TypedSlot(d[i], m[i]);
    var items := NormItems(d[i], m[i].items);
    assert items[..|items|] == items;
    forall j | 0 <= j < |d| && j != i ensures st.m[j] == st.m[i := DefaultSlot(d[i])][j] {}
  }

  /** The bookkeeping on entering array i with k entries in. */
  lemma EnterItem(d: seq<Field>, m: seq<Slot>, i: nat, k: nat, st: State) returns (st': State)
    requires i < |d| == |m| && m[i].Many? && k <= |m[i].items| && AtItem(d, m, i, k, st) && d[i].htype.Repeated?
    ensures EnterFixed(d, st, i) == Some(st') && MarkSeen(d, st', i) == st'
    ensures st'.m == st.m && st'.seen == st.seen && st'.pos == st.pos
    ensures if FixedCount(d[i]) then st'.fixedField == Some(i) && st'.fixedSize == k
            else st'.fixedField == st.fixedField && st'.fixedSize == st.fixedSize
  {
    st' := EnterFixed(d, st, i).value;
  }

  /** Storing an array leaves the other members alone. */
  lemma StoreArray(d: seq<Field>, m: seq<Slot>, i: nat, slot: Slot)
    requires |m| == |d| && i < |d| && d[i].htype.Repeated?
    ensures Store(d, m, i, slot) == m[i := slot]
  {
  }

  /** Everything but the data of the array stays as AtItem wants it. */
  lemma AtItemMoves(d: seq<Field>, m: seq<Slot>, i: nat, k: nat, st: State, k': nat, st': State)
    requires i < |d| == |m| && m[i].Many? && k <= |m[i].items| && 0 < k' <= |m[i].items|
    requires d[i].htype.Repeated? && AtItem(d, m, i, k, st) && InRange(d, st') && st'.seen == st.seen
    requires st'.m == st.m[i := Many(NormItems(d[i], m[i].items)[..k'])]
    requires if FixedCount(d[i]) then st'.fixedField == Some(i) && st'.fixedSize == k'
             else st'.fixedField == st.fixedField && st'.fixedSize == st.fixedSize
    ensures AtItem(d, m, i, k', st')
  {
    assert st'.m[i := DefaultSlot(d[i])] == st.m[i := DefaultSlot(d[i])];
  }

  /** Entries are read from s: the first k are in and t is left, or the decoder has rejected one. */
  ghost predicate ItemsCome(
      d: seq<Field>, m: seq<Slot>, i: nat, k: nat, st: State, s: seq<Byte>, st': State, t: seq<Byte>, readable: bool)
    requires |m| == |d| && i < |d| && m[i].Many? && k <= |m[i].items|
  {
    && InRange(d, st) && InRange(d, st')
    && if readable then AtItem(d, m, i, k, st') && Loop(d, st, s) == Loop(d, st', t) else Loop(d, st, s) == LoopFail
  }

  lemma {:induction false} EachRestores(
      d: seq<Field>, m: seq<Slot>, i: nat, k: nat, st: State, b: seq<Byte>, t: seq<Byte>) returns (st': State)
    requires Encodable(d, m) && i < |d| && m[i].Many? && k <= |m[i].items| <= d[i].arraySize
    requires !Packable(d[i].ltype) && d[i].htype.Repeated? && AtItem(d, m, i, k, st)
    requires EncodeEach(d[i], m[i].items[k..]) == Some(b) && |b| < POW_63
    ensures ItemsCome(d, m, i, |m[i].items|, st, b + t, st', t, ReadableFrom(d[i], m[i].items, k))
    decreases d[i], 2, |m[i].items| - k
  {
    var f, items := d[i], m[i].items;
    st' := st;
    if k == |items| {
      assert b + t == t;
    } else {
      var first, rest := EachSplits(f, items, k, b);
      var s := Regroup(first, rest, t);
      var st1 := ItemRestores(d, m, i, k, st, first, s);
      if ReadableValue(f, items[k]) {
        st' := EachRestores(d, m, i, k + 1, st1, rest, t);
      }
    }
  }

  ghost predicate ReadableFrom(f: Field, items: seq<Value>, k: nat)
  {
    forall j :: k <= j < |items| ==> ReadableValue(f, items[j])
  }

  lemma EachSplits(f: Field, items: seq<Value>, k: nat, b: seq<Byte>) returns (first: seq<Byte>, rest: seq<Byte>)
    requires k < |items| && EncodeEach(f, items[k..]) == Some(b)
    ensures EncodeTagged(f, items[k]) == Some(first) && EncodeEach(f, items[k + 1..]) == Some(rest) && b == first + rest
    ensures ReadableFrom(f, items, k) <==> ReadableValue(f, items[k]) && ReadableFrom(f, items, k + 1)
  {
    assert items[k..][1..] == items[k + 1..];
    first, rest := EncodeTagged(f, items[k]).value, EncodeEach(f, items[k + 1..]).value;
  }

  /** One tagged entry of an array is appended. */
  lemma ItemDecodes(d: seq<Field>, i: nat, st: State, wireType: nat, s: seq<Byte>)
    requires InRange(d, st) && i < |d| && d[i].htype.Repeated? && !Packable(d[i].ltype) && st.m[i].Many?
    requires |st.m[i].items| < d[i].arraySize && (FixedCount(d[i]) ==> st.fixedSize == |st.m[i].items|)
    ensures DecodeField(d, st, i, wireType, s) ==
            match DecodeValue(d[i], s, DefaultValue(d[i]))
            case Err => Fail
            case Ok(v, rest) =>
              var items := st.m[i].items + [v];
              Continue(st.(m := st.m[i := Many(items)], pos := i,
                           fixedSize := if FixedCount(d[i]) then |items| else st.fixedSize), rest)
  {
    forall slot: Slot ensures Store(d, st.m, i, slot) == st.m[i := slot] {
      StoreArray(d, st.m, i, slot);
    }
  }

  lemma {:induction false} ItemRestores(
      d: seq<Field>, m: seq<Slot>, i: nat, k: nat, st: State, b: seq<Byte>, t: seq<Byte>) returns (st': State)
    requires Encodable(d, m) && i < |d| && m[i].Many? && k < |m[i].items| <= d[i].arraySize
    requires !Packable(d[i].ltype) && d[i].htype.Repeated? && AtItem(d, m, i, k, st)
    requires EncodeTagged(d[i], m[i].items[k]) == Some(b) && |b| < POW_63
    ensures ItemsCome(d, m, i, k + 1, st, b + t, st', t, ReadableValue(d[i], m[i].items[k]))
    decreases d[i], 1
  {
    var f, v := d[i], m[i].items[k];
    assert WellFormedField(f) && TypedSlot(f, m[i]);
    var p := EncodeValue(f, v).value;
    var s := p + t;
    assert b + t == TagBytes(WireTypeOf(f.ltype), f.tag) + s;
    LoopEnters(d, st, i, WireTypeOf(f.ltype), b + t, s);
    ValueRestores(f, v, p, t);
    var st1 := EnterItem(d, m, i, k, st);
    ItemDecodes(d, i, st1, WireTypeOf(f.ltype), s);
    st' := ItemMoves(d, m, i, k, st, st1);
  }

  /** Where the decoder stands once entry k is in. */
  lemma ItemMoves(d: seq<Field>, m: seq<Slot>, i: nat, k: nat, st: State, st1: State) returns (st': State)
    requires i < |d| == |m| && m[i].Many? && k < |m[i].items| && AtItem(d, m, i, k, st) && d[i].htype.Repeated?
    requires InRange(d, st1) && st1.m == st.m && st1.seen == st.seen
    requires if FixedCount(d[i]) then st1.fixedField == Some(i) && st1.fixedSize == k
             else st1.fixedField == st.fixedField && st1.fixedSize == st.fixedSize
    ensures st1.m[i] == Many(NormItems(d[i], m[i].items)[..k])
    ensures var items := st1.m[i].items + [NormValue(d[i], m[i].items[k])];
            st' == st1.(m := st1.m[i := Many(items)], pos := i,
                        fixedSize := if FixedCount(d[i]) then |items| else st1.fixedSize)
    ensures InRange(d, st') && AtItem(d, m, i, k + 1, st')
  {
    var norm := NormItems(d[i], m[i].items);
    assert norm[..k] + [norm[k]] == norm[..k + 1];
    st' := st1.(m := st.m[i := Many(norm[..k + 1])], pos := i,
                fixedSize := if FixedCount(d[i]) then k + 1 else st1.fixedSize);
    AtItemMoves(d, m, i, k, st, k + 1, st');
  }

  lemma PackedFills(f: Field, items: seq<Value>, b: seq<Byte>)
    requires Packable(f.ltype) && f.dataSize <= PB_SIZE_MAX && |items| <= f.arraySize
    requires forall k :: 0 <= k < |items| ==> Typed(f, items[k])
    requires EncodeAll(f, items) == Some(b)
    ensures DecodePacked(f, b, Array([], 0)) == Some(Array(items, |items|))
  {
    PackedRestores(f, items, b, Array([], 0));
    assert [] + items == items;
  }

  /** The loop reads a packed field as one append of all its items. */
  lemma PackedDecodes(d: seq<Field>, i: nat, st: State, items: seq<Value>, all: seq<Byte>, s: seq<Byte>, t: seq<Byte>)
    requires InRange(d, st) && i < |d| && d[i].htype.Repeated? && Packable(d[i].ltype) && WellFormedField(d[i])
    requires st.m[i] == Many([]) && (FixedCount(d[i]) ==> st.fixedSize == 0)
    requires |items| <= d[i].arraySize && (forall k :: 0 <= k < |items| ==> Typed(d[i], items[k]))
    requires EncodeAll(d[i], items) == Some(all) && |all| < POW_63 && s == WithLength(all) + t
    ensures DecodeField(d, st, i, WT_STRING, s) ==
            if |all| < U32 then Continue(st.(m := st.m[i := Many(items)], pos := i,
                                             fixedSize := if FixedCount(d[i]) then |items| else st.fixedSize), t)
            else Fail
  {
    BlockRestores(all, s, t);
    PackedFills(d[i], items, all);
    StoreArray(d, st.m, i, Many(items));
  }

  /** The decoder at the length of a packed field. */
  lemma PackedEnters(d: seq<Field>, m: seq<Slot>, i: nat, st: State, s: seq<Byte>, p: seq<Byte>) returns (st1: State)
    requires Encodable(d, m) && i < |d| && At(d, m, i, st) && m[i].Many? && d[i].htype.Repeated?
    requires s == TagBytes(WT_STRING, d[i].tag) + p
    ensures AtItem(d, m, i, 0, st) && InRange(d, st1) && st1.m == st.m && st1.seen == st.seen
    ensures if FixedCount(d[i]) then st1.fixedField == Some(i) && st1.fixedSize == 0
            else st1.fixedField == st.fixedField && st1.fixedSize == st.fixedSize
    ensures Loop(d, st, s) == AfterField(d, DecodeField(d, st1, i, WT_STRING, p))
  {
    LoopEnters(d, st, i, WT_STRING, s, p);
    AtFirstItem(d, m, i, st);
    st1 := EnterItem(d, m, i, 0, st);
  }

  lemma {:induction false} PackedFieldRestores(
      d: seq<Field>, m: seq<Slot>, i: nat, st: State, b: seq<Byte>, t: seq<Byte>) returns (st': State)
    requires Encodable(d, m) && i < |d| && At(d, m, i, st) && m[i].Many? && m[i].items != []
    requires Packable(d[i].ltype) && d[i].htype.Repeated? && EncodeArray(d[i], m[i].items) == Some(b) && |b| < POW_63
    ensures FieldComes(d, m, i, st, b + t, st', t, ReadableSlot(d[i], m[i]))
  {
    var f, items := d[i], m[i].items;
    assert WellFormedField(f) && TypedSlot(f, m[i]);
    var all := EncodeAll(f, items).value;
    var s := WithLength(all) + t;
    assert b + t == TagBytes(WT_STRING, f.tag) + s;
    var st1 := PackedEnters(d, m, i, st, b + t, s);
    PackedDecodes(d, i, st1, items, all, s, t);
    ScalarsReadable(f, items);
    st' := PackedMoves(d, m, i, st, st1);
  }

  /** Where the decoder stands once a packed field is in. */
  lemma PackedMoves(d: seq<Field>, m: seq<Slot>, i: nat, st: State, st1: State) returns (st': State)
    requires Encodable(d, m) && i < |d| && m[i].Many? && m[i].items != [] && AtItem(d, m, i, 0, st)
    requires d[i].htype.Repeated? && Packable(d[i].ltype) && InRange(d, st1) && st1.m == st.m && st1.seen == st.seen
    requires if FixedCount(d[i]) then st1.fixedField == Some(i) && st1.fixedSize == 0
             else st1.fixedField == st.fixedField && st1.fixedSize == st.fixedSize
    ensures st' == st1.(m := st1.m[i := m[i]], pos := i,
                        fixedSize := if FixedCount(d[i]) then |m[i].items| else st1.fixedSize)
    ensures InRange(d, st') && At(d, m, i + 1, st')
  {
    var items := m[i].items;
    NormScalars(d[i], items);
    assert NormItems(d[i], items)[..|items|] == items;
    st' := st1.(m := st.m[i := m[i]], pos := i, fixedSize := if FixedCount(d[i]) then |items| else st1.fixedSize);
    AtItemMoves(d, m, i, 0, st, |items|, st');
    AtLastItem(d, m, i, st');
  }

  lemma NormScalars(f: Field, items: seq<Value>)
    requires Packable(f.ltype)
    ensures NormItems(f, items) == items
  {
  }

  lemma ScalarsReadable(f: Field, items: seq<Value>)
    requires Packable(f.ltype) && forall k :: 0 <= k < |items| ==> Typed(f, items[k])
    ensures forall k :: 0 <= k < |items| ==> ReadableValue(f, items[k])
  {
  }

  lemma {:induction false} ArrayRestores(
      d: seq<Field>, m: seq<Slot>, i: nat, st: State, b: seq<Byte>, t: seq<Byte>) returns (st': State)
    requires Encodable(d, m) && i < |d| && At(d, m, i, st) && m[i].Many? && m[i].items != []
    requires EncodeField(d[i], m[i]) == Some(b) && |b| < POW_63
    ensures FieldComes(d, m, i, st, b + t, st', t, ReadableSlot(d[i], m[i]))
    decreases d[i], 3
  {
    var f, items := d[i], m[i].items;
    assert TypedSlot(f, m[i]);
    if Packable(f.ltype) {
      st' := PackedFieldRestores(d, m, i, st, b, t);
    } else {
      AtFirstItem(d, m, i, st);
      assert items[0..] == items;
      st' := EachRestores(d, m, i, 0, st, b, t);
      if ReadableSlot(f, m[i]) {
        AtLastItem(d, m, i, st');
      }
    }
  }

  // ---------------------------------------------------------------- fields and messages

  lemma ArrayNonEmpty(f: Field, items: seq<Value>)
    ensures items != [] ==> EncodeArray(f, items) != Some([])
  {
    if items != [] && EncodeEach(f, items).Some? {
      assert EncodeTagged(f, items[0]).value != [];
    }
  }

  /** A member that is not written is at its default already. */
  lemma UnwrittenIsDefault(f: Field, s: Slot)
    requires WellFormedField(f) && TypedSlot(f, s) && EncodeField(f, s) == Some([])
    ensures NormSlot(f, s) == DefaultSlot(f) && ReadableSlot(f, s)
  {
    match s
    case Many(items) => ArrayNonEmpty(f, items);
    case _ =>
  }

  lemma AtSkips(d: seq<Field>, m: seq<Slot>, i: nat, st: State)
    requires Encodable(d, m) && i < |d| && At(d, m, i, st) && EncodeField(d[i], m[i]) == Some([])
    ensures At(d, m, i + 1, st) && ReadableSlot(d[i], m[i])
  {
    assert WellFormedField(d[i]) && TypedSlot(d[i], m[i]);
    UnwrittenIsDefault(d[i], m[i]);
  }

  lemma {:induction false} FieldRestores(
      d: seq<Field>, m: seq<Slot>, i: nat, st: State, b: seq<Byte>, t: seq<Byte>) returns (st': State)
    requires Encodable(d, m) && i < |d| && At(d, m, i, st)
    requires EncodeField(d[i], m[i]) == Some(b) && |b| < POW_63
    ensures FieldComes(d, m, i, st, b + t, st', t, ReadableSlot(d[i], m[i]))
    decreases d[i], 4
  {
    var f := d[i];
    assert TypedSlot(f, m[i]);
    if b == [] {
      st' := st;
      AtSkips(d, m, i, st);
      assert b + t == t;
    } else if m[i].Many? {
      st' := ArrayRestores(d, m, i, st, b, t);
    } else {
      st' := SingleRestores(d, m, i, st, Written(m[i]).value, b, t);
    }
  }

  ghost predicate ReadableAfter(d: seq<Field>, m: seq<Slot>, i: nat)
    requires |m| == |d|
  {
    forall j :: i <= j < |d| ==> ReadableSlot(d[j], m[j])
  }

  lemma FromSplits(d: seq<Field>, m: seq<Slot>, i: nat, b: seq<Byte>) returns (first: seq<Byte>, rest: seq<Byte>)
    requires |m| == |d| && i < |d| && EncodeFrom(d, m, i) == Some(b)
    ensures EncodeField(d[i], m[i]) == Some(first) && EncodeFrom(d, m, i + 1) == Some(rest) && b == first + rest
    ensures ReadableAfter(d, m, i) <==> ReadableSlot(d[i], m[i]) && ReadableAfter(d, m, i + 1)
  {
    first, rest := EncodeField(d[i], m[i]).value, EncodeFrom(d, m, i + 1).value;
  }

  /** The whole encoding, with t behind it. */
  lemma {:induction false} LoopRestores(
      d: seq<Field>, m: seq<Slot>, i: nat, st: State, b: seq<Byte>, t: seq<Byte>) returns (st': State)
    requires Encodable(d, m) && i <= |d| && At(d, m, i, st)
    requires EncodeFrom(d, m, i) == Some(b) && |b| < POW_63
    ensures InRange(d, st')
    ensures ReadableAfter(d, m, i) ==> At(d, m, |d|, st') && Loop(d, st, b + t) == Loop(d, st', t)
    ensures !ReadableAfter(d, m, i) ==> Loop(d, st, b + t) == LoopFail
    decreases d, |d| - i
  {
    st' := st;
    if i == |d| {
      assert b + t == t;
    } else {
      var first, rest := FromSplits(d, m, i, b);
      var s := Regroup(first, rest, t);
      var st1 := FieldRestores(d, m, i, st, first, s);
      if ReadableSlot(d[i], m[i]) {
        st' := LoopRestores(d, m, i + 1, st1, rest, t);
      }
    }
  }

  /** The round trip, and exactly when it holds: what pb_encode wrote decodes to the message with absent
      members reset, if every string written is terminated inside its array and every length-prefixed block
      is below 2^32 bytes; otherwise pb_decode reports an error. */
  lemma {:induction false} MessageRestores(d: seq<Field>, m: seq<Slot>, b: seq<Byte>)
    requires Encodable(d, m) && EncodeFrom(d, m, 0) == Some(b) && |b| < POW_63
    ensures Decode(d, b) == if ReadableMsg(d, m) then Some(NormMsg(d, m)) else None
    decreases d, |d| + 1
  {
    assert b + [] == b;
    MessageStops(d, m, b, [], []);
  }

  /** The same when something follows that stops the loop: the end of the input, or a zero tag. */
  lemma {:induction false} MessageStops(d: seq<Field>, m: seq<Slot>, b: seq<Byte>, t: seq<Byte>, rest: seq<Byte>)
    requires Encodable(d, m) && EncodeFrom(d, m, 0) == Some(b) && |b| < POW_63
    requires t == [] || DecodeTag(t) == Eof(rest)
    ensures Decode(d, b + t) == if ReadableMsg(d, m) then Some(NormMsg(d, m)) else None
    decreases d, |d| + 1, 0
  {
    var st := Start(DefaultMsg(d));
    assert At(d, m, 0, st);
    var st' := LoopRestores(d, m, 0, st, b, t);
    if ReadableMsg(d, m) {
      assert st'.m == NormMsg(d, m);
    }
  }

  /** What pb_encode_delimited wrote is cut out and decoded, and what follows is left, exactly when the message is
      readable and shorter than 2^32 bytes. */
  lemma DelimitedRestores(d: seq<Field>, m: seq<Slot>, e: seq<Byte>, t: seq<Byte>)
    requires Encodable(d, m) && EncodeFrom(d, m, 0) == Some(e) && |e| < POW_63
    ensures var block := Block(Delimited(Some(e)).value + t);
            if |e| < U32
            then block == Ok(e, t) && Decode(d, e) == if ReadableMsg(d, m) then Some(NormMsg(d, m)) else None
            else block == Err
  {
    BlockRestores(e, WithLength(e) + t, t);
    MessageRestores(d, m, e);
  }

  /** What pb_encode_nullterminated wrote is decoded up to its zero byte, whatever follows. */
  lemma NullTerminatedRestores(d: seq<Field>, m: seq<Slot>, b: seq<Byte>, t: seq<Byte>)
    requires Encodable(d, m) && EncodeFrom(d, m, 0) == Some(b) && |b| < POW_63
    ensures Decode(d, b + [0] + t) == if ReadableMsg(d, m) then Some(NormMsg(d, m)) else None
  {
    assert b + [0] + t == b + ([0] + t);
    MessageStops(d, m, b, [0] + t, t);
  }
}
