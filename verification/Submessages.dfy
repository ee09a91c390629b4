/** What a second occurrence of a submessage does: it is merged into the struct in place, an array gets another entry,
    and a union keeps only the last one. */
module Submessages {
  import opened Bits
  import opened Wire
  import opened WireLaws
  import opened Pb
  import opened EncodeSpec
  import opened IterSpec
  import opened DecodeSpec
  import opened ScalarLaws
  import opened RoundTrip
  import opened Merge

  /** One occurrence of the field on the wire. */
  function Occurrence(f: Field, block: seq<Byte>): seq<Byte>
  {
    TagBytes(WT_STRING, f.tag) + WithLength(block)
  }

  ghost predicate SubmessageField(d: seq<Field>, i: nat)
  {
    WellFormed(d) && i < |d| && d[i].ltype.LSubmessage? && d[i].ptr.SubMsg?
  }

  lemma {:induction false} FieldIsStatic(f: Field)
    requires WellFormedField(f)
    ensures StaticField(f)
    decreases f, 0
  {
    if f.ptr.SubMsg? {
      WellFormedIsStatic(f.ptr.fields);
    }
  }

  lemma {:induction false} WellFormedIsStatic(d: seq<Field>)
    requires WellFormed(d)
    ensures StaticTable(d)
    decreases d, 1
  {
    forall i | 0 <= i < |d| ensures StaticField(d[i]) {
      FieldIsStatic(d[i]);
    }
  }

  /** The value of an occurrence is its block, decoded over what is in place. */
  lemma BlockDecodes(f: Field, block: seq<Byte>, t: seq<Byte>, current: Value)
    requires f.ltype.LSubmessage? && f.ptr.SubMsg? && |block| < U32
    ensures var e := f.ptr.fields;
            var r := DecodeNoinit(e, block, if f.htype.Repeated? then DefaultMsg(e) else SlotsOf(current, e));
            DecodeValue(f, WithLength(block) + t, current) == if r.Some? then Ok(Msg(r.value), t) else Err
  {
    BlockRestores(block, WithLength(block) + t, t);
  }

  lemma OccurrenceEnters(d: seq<Field>, st: State, i: nat, block: seq<Byte>, t: seq<Byte>)
    requires InRange(d, st) && SubmessageField(d, i)
    ensures var entered := EnterFixed(d, st, i);
            Loop(d, st, Occurrence(d[i], block) + t) ==
            if entered.None? then LoopFail
            else AfterField(d, DecodeField(d, MarkSeen(d, entered.value, i), i, WT_STRING, WithLength(block) + t))
  {
    assert Occurrence(d[i], block) + t == TagBytes(WT_STRING, d[i].tag) + (WithLength(block) + t);
    LoopEnters(d, st, i, WT_STRING, Occurrence(d[i], block) + t, WithLength(block) + t);
  }

  // ---------------------------------------------------------------- single members

  /** The member holds the struct m0; its has_ flag may be either. */
  predicate InPlace(f: Field, s: Slot, m0: seq<Slot>)
  {
    if f.htype.Required? || Singular(f) then s == Plain(Msg(m0)) else s.Opt? && s.value == Msg(m0)
  }

  /** The member once the submessage is there. */
  function Present(f: Field, m0: seq<Slot>): Slot
  {
    if f.htype.Required? || Singular(f) then Plain(Msg(m0)) else Opt(true, Msg(m0))
  }

  function Filled(d: seq<Field>, st: State, i: nat, slot: Slot): (r: State)
    requires InRange(d, st) && i < |d|
    ensures InRange(d, r)
  {
    MarkSeen(d, st, i).(m := Store(d, st.m, i, slot), pos := i)
  }

  /** One occurrence decodes its block over the struct in place. */
  lemma SingleReads(d: seq<Field>, st: State, i: nat, m0: seq<Slot>, block: seq<Byte>, t: seq<Byte>)
    requires InRange(d, st) && SubmessageField(d, i) && (d[i].htype.Required? || d[i].htype.Optional?)
    requires |m0| == |d[i].ptr.fields| && InPlace(d[i], st.m[i], m0) && |block| < U32
    ensures var r := DecodeNoinit(d[i].ptr.fields, block, m0);
            Loop(d, st, Occurrence(d[i], block) + t) ==
            if r.Some? then Loop(d, Filled(d, st, i, Present(d[i], r.value)), t) else LoopFail
  {
    OccurrenceEnters(d, st, i, block, t);
    BlockDecodes(d[i], block, t, Msg(m0));
  }

  lemma FilledAgain(d: seq<Field>, st: State, i: nat, slot: Slot, slot': Slot)
    requires InRange(d, st) && i < |d|
    ensures Filled(d, Filled(d, st, i, slot), i, slot') == Filled(d, st, i, slot')
    ensures Filled(d, st, i, slot).m[i] == slot
  {
    assert Store(d, Store(d, st.m, i, slot), i, slot') == Store(d, st.m, i, slot');
  }

  /** Two occurrences, with blocks a and b, are one with the block a + b, for a submessage whose table tracks nothing
      across its fields; a has to end on a field boundary. */
  lemma OccurrencesMerge(d: seq<Field>, st: State, i: nat, m0: seq<Slot>, a: seq<Byte>, b: seq<Byte>, t: seq<Byte>)
    requires InRange(d, st) && SubmessageField(d, i) && (d[i].htype.Required? || d[i].htype.Optional?)
    requires |m0| == |d[i].ptr.fields| && InPlace(d[i], st.m[i], m0) && |a + b| < U32
    requires NothingTracked(d[i].ptr.fields) && EndsAtBoundary(d[i].ptr.fields, Start(m0), a)
    ensures Loop(d, st, Occurrence(d[i], a) + (Occurrence(d[i], b) + t)) == Loop(d, st, Occurrence(d[i], a + b) + t)
  {
    var e := d[i].ptr.fields;
    assert WellFormedField(d[i]);
    WellFormedIsStatic(e);
    ConcatenationMerges(e, m0, a, b);
    var m1 := DecodeNoinit(e, a, m0).value;
    SingleReads(d, st, i, m0, a, Occurrence(d[i], b) + t);
    var st1 := Filled(d, st, i, Present(d[i], m1));
    FilledAgain(d, st, i, Present(d[i], m1), Present(d[i], m1));
    SingleReads(d, st1, i, m1, b, t);
    SingleReads(d, st, i, m0, a + b, t);
    var r := DecodeNoinit(e, b, m1);
    if r.Some? {
      FilledAgain(d, st, i, Present(d[i], m1), Present(d[i], r.value));
    }
  }

  /** So anywhere in a message, whatever its own table tracks. */
  lemma SubmessagesMerge(d: seq<Field>, m: seq<Slot>, p: seq<Byte>, i: nat, m0: seq<Slot>, a: seq<Byte>, b: seq<Byte>,
                         t: seq<Byte>)
    requires |m| == |d| && SubmessageField(d, i) && (d[i].htype.Required? || d[i].htype.Optional?)
    requires StaticTable(d) && EndsAtBoundary(d, Start(m), p)
    requires |m0| == |d[i].ptr.fields| && InPlace(d[i], Loop(d, Start(m), p).state.m[i], m0) && |a + b| < U32
    requires NothingTracked(d[i].ptr.fields) && EndsAtBoundary(d[i].ptr.fields, Start(m0), a)
    ensures DecodeNoinit(d, p + (Occurrence(d[i], a) + (Occurrence(d[i], b) + t)), m) ==
            DecodeNoinit(d, p + (Occurrence(d[i], a + b) + t), m)
  {
    var two, one := Occurrence(d[i], a) + (Occurrence(d[i], b) + t), Occurrence(d[i], a + b) + t;
    LoopSplits(d, Start(m), p, two);
    LoopSplits(d, Start(m), p, one);
    OccurrencesMerge(d, Loop(d, Start(m), p).state, i, m0, a, b, t);
  }

  // ---------------------------------------------------------------- an example

  function Inner(): Field
  {
    Field(1, LUVarint, Optional, Static, 0, -1, 4, 0, Null)
  }

  /** A table of one optional submessage of tag 1, which has one optional uint32 of tag 1. */
  function Outer(): Field
  {
    Field(1, LSubmessage, Optional, Static, 0, -1, 8, 0, SubMsg([Inner()]))
  }

  lemma {:induction false} OneWritten(f: Field, v: Value, p: seq<Byte>, b: seq<Byte>)
    requires f.htype.Optional? && f.sizeOffset != 0 && EncodeValue(f, v) == Some(p)
    requires b == TagBytes(WireTypeOf(f.ltype), f.tag) + p
    ensures EncodeFrom([f], [Opt(true, v)], 0) == Some(b)
  {
    var none: seq<Byte> := [];
    var d, m := [f], [Opt(true, v)];
    assert EncodeFrom(d, m, 1) == Some(none) && b + none == b;
    assert EncodeTagged(f, v) == Some(b) && EncodeField(d[0], m[0]) == Some(b);
  }

  lemma {:induction false} OneReadable(f: Field, v: Value)
    requires WellFormedField(f) && Typed(f, v) && ReadableValue(f, v) && f.htype.Optional? && f.sizeOffset != 0
    ensures Encodable([f], [Opt(true, v)]) && ReadableMsg([f], [Opt(true, v)])
  {
    assert TypedSlot(f, Opt(true, v)) && ReadableSlot(f, Opt(true, v));
  }

  lemma InnerFive()
    ensures EncodeFrom([Inner()], [Opt(true, Num(5))], 0) == Some([0x08, 5])
    ensures Encodable([Inner()], [Opt(true, Num(5))]) && ReadableMsg([Inner()], [Opt(true, Num(5))])
  {
    assert Varint(5) == [5] && ToU64(5) == 5;
    assert TagBytes(WT_VARINT, 1) == [0x08];
    OneWritten(Inner(), Num(5), [5], [0x08, 5]);
    OneReadable(Inner(), Num(5));
  }

  lemma InnerEnds()
    ensures DefaultMsg([Inner()]) == [Opt(false, Num(0))]
    ensures EndsAtBoundary([Inner()], Start([Opt(false, Num(0))]), [0x08, 5])
  {
    var e, m0, m1 := [Inner()], [Opt(false, Num(0))], [Opt(true, Num(5))];
    InnerFive();
    assert DefaultMsg(e) == m0 && At(e, m1, 0, Start(m0));
    var end := LoopRestores(e, m1, 0, Start(m0), [0x08, 5], []);
    assert [0x08, 5] + [] == [0x08, 5];
  }

  lemma OuterFive()
    ensures var m := [Opt(true, Msg([Opt(true, Num(5))]))];
            Decode([Outer()], [0x0A, 2, 0x08, 5]) == Some(m)
  {
    var m1 := [Opt(true, Num(5))];
    InnerFive();
    assert Varint(2) == [2] && TagBytes(WT_STRING, 1) == [0x0A];
    assert WithLength([0x08, 5]) == [2, 0x08, 5];
    OneWritten(Outer(), Msg(m1), [2, 0x08, 5], [0x0A, 2, 0x08, 5]);
    OneReadable(Outer(), Msg(m1));
    MessageRestores([Outer()], [Opt(true, Msg(m1))], [0x0A, 2, 0x08, 5]);
    assert NormMsg([Inner()], m1) == m1;
    assert NormMsg([Outer()], [Opt(true, Msg(m1))]) == [Opt(true, Msg(m1))];
  }

  lemma OuterOccurrences()
    ensures Occurrence(Outer(), [0x08, 5]) + (Occurrence(Outer(), []) + []) == [0x0A, 2, 0x08, 5, 0x0A, 0]
    ensures Occurrence(Outer(), [0x08, 5] + []) + [] == [0x0A, 2, 0x08, 5]
  {
    assert Varint(2) == [2] && Varint(0) == [0] && TagBytes(WT_STRING, 1) == [0x0A];
    assert [0x08, 5] + [] == [0x08, 5];
    assert Occurrence(Outer(), [0x08, 5]) == [0x0A, 2, 0x08, 5] && Occurrence(Outer(), []) == [0x0A, 0];
  }

  lemma OuterStarts()
    ensures SubmessageField([Outer()], 0) && NothingTracked([Inner()])
    ensures DefaultMsg([Outer()]) == [Opt(false, Msg([Opt(false, Num(0))]))]
  {
    assert WellFormed([Outer()]);
    InnerEnds();
    assert DefaultSlot(Outer()) == Opt(false, Msg([Opt(false, Num(0))]));
  }

  /** For example an empty second occurrence leaves the 5 of the first one in place. */
  lemma EmptyIsMerged()
    ensures Decode([Outer()], [0x0A, 2, 0x08, 5, 0x0A, 0]) == Some([Opt(true, Msg([Opt(true, Num(5))]))])
  {
    var d, m0 := [Outer()], [Opt(false, Num(0))];
    InnerEnds();
    OuterFive();
    OuterOccurrences();
    OuterStarts();
    OccurrencesMerge(d, Start(DefaultMsg(d)), 0, m0, [0x08, 5], [], []);
  }

  // ---------------------------------------------------------------- unions

  lemma ChosenReads(d: seq<Field>, st: State, i: nat, block: seq<Byte>, t: seq<Byte>)
    requires InRange(d, st) && SubmessageField(d, i) && d[i].htype.Oneof? && |block| < U32
    ensures var r := DecodeNoinit(d[i].ptr.fields, block, DefaultMsg(d[i].ptr.fields));
            Loop(d, st, Occurrence(d[i], block) + t) ==
            if r.Some? then Loop(d, Filled(d, st, i, Chosen(Msg(r.value))), t) else LoopFail
  {
    OccurrenceEnters(d, st, i, block, t);
    BlockDecodes(d[i], block, t, DefaultValue(d[i]));
  }

  /** A member of a union is reset first: of two occurrences only the second counts, if the first can be decoded. */
  lemma LastOccurrenceWins(d: seq<Field>, st: State, i: nat, a: seq<Byte>, b: seq<Byte>, t: seq<Byte>)
    requires InRange(d, st) && SubmessageField(d, i) && d[i].htype.Oneof? && |a| < U32 && |b| < U32
    ensures Loop(d, st, Occurrence(d[i], a) + (Occurrence(d[i], b) + t)) ==
            if DecodeNoinit(d[i].ptr.fields, a, DefaultMsg(d[i].ptr.fields)).Some?
            then Loop(d, st, Occurrence(d[i], b) + t) else LoopFail
  {
    var e := d[i].ptr.fields;
    var r, r' := DecodeNoinit(e, a, DefaultMsg(e)), DecodeNoinit(e, b, DefaultMsg(e));
    ChosenReads(d, st, i, a, Occurrence(d[i], b) + t);
    ChosenReads(d, st, i, b, t);
    if r.Some? {
      ChosenReads(d, Filled(d, st, i, Chosen(Msg(r.value))), i, b, t);
      if r'.Some? {
        FilledAgain(d, st, i, Chosen(Msg(r.value)), Chosen(Msg(r'.value)));
      }
    }
  }

  // ---------------------------------------------------------------- arrays

  /** The loop has entered the array, of which n entries have arrived. */
  ghost predicate InArray(d: seq<Field>, st: State, i: nat, n: nat)
    requires InRange(d, st) && i < |d|
  {
    && d[i].htype.Repeated? && st.m[i].Many?
    && if FixedCount(d[i]) then st.fixedField == Some(i) && st.fixedSize == n else n == |st.m[i].items|
  }

  /** The array with one more entry, at its place. */
  function WithEntry(d: seq<Field>, st: State, i: nat, n: nat, v: Value): (r: State)
    requires InRange(d, st) && i < |d| && st.m[i].Many?
    ensures InRange(d, r)
  {
    st.(m := st.m[i := Many(Put(st.m[i].items, n, v))], pos := i,
        fixedSize := if FixedCount(d[i]) then n + 1 else st.fixedSize)
  }

  lemma EntryEnters(d: seq<Field>, st: State, i: nat, n: nat)
    requires InRange(d, st) && i < |d| && InArray(d, st, i, n)
    ensures EnterFixed(d, st, i) == Some(st) && MarkSeen(d, st, i) == st
    ensures (if FixedCount(d[i]) then st.fixedSize else |ItemsOf(st.m[i])|) == n && ItemsOf(st.m[i]) == st.m[i].items
  {
  }

  lemma EntryDecodes(d: seq<Field>, st: State, i: nat, n: nat, s: seq<Byte>)
    requires InRange(d, st) && SubmessageField(d, i) && InArray(d, st, i, n)
    ensures var r := DecodeValue(d[i], s, DefaultValue(d[i]));
            DecodeField(d, st, i, WT_STRING, s) ==
            if n < d[i].arraySize && r.Ok? then Continue(WithEntry(d, st, i, n, r.value), r.rest) else Fail
  {
    EntryEnters(d, st, i, n);
    var r := DecodeRepeated(d[i], WT_STRING, s, Array(st.m[i].items, n));
    if r.Ok? {
      StoreArray(d, st.m, i, Many(r.value.items));
    }
  }

  /** Each occurrence is one entry, read from the defaults whatever the array held there. */
  lemma EntryReads(d: seq<Field>, st: State, i: nat, n: nat, block: seq<Byte>, t: seq<Byte>)
    requires InRange(d, st) && SubmessageField(d, i) && InArray(d, st, i, n) && |block| < U32
    ensures var r := DecodeNoinit(d[i].ptr.fields, block, DefaultMsg(d[i].ptr.fields));
            Loop(d, st, Occurrence(d[i], block) + t) ==
            if n < d[i].arraySize && r.Some? then Loop(d, WithEntry(d, st, i, n, Msg(r.value)), t) else LoopFail
  {
    OccurrenceEnters(d, st, i, block, t);
    EntryEnters(d, st, i, n);
    BlockDecodes(d[i], block, t, DefaultValue(d[i]));
    EntryDecodes(d, st, i, n, WithLength(block) + t);
  }

  /** Two occurrences of a counted array append two entries, each read from the defaults, if there is room. */
  lemma OccurrencesAppend(d: seq<Field>, st: State, i: nat, a: seq<Byte>, b: seq<Byte>, t: seq<Byte>)
    requires InRange(d, st) && SubmessageField(d, i) && d[i].htype.Repeated? && !FixedCount(d[i]) && st.m[i].Many?
    requires |a| < U32 && |b| < U32
    ensures var e, items := d[i].ptr.fields, st.m[i].items;
            var x, y := DecodeNoinit(e, a, DefaultMsg(e)), DecodeNoinit(e, b, DefaultMsg(e));
            Loop(d, st, Occurrence(d[i], a) + (Occurrence(d[i], b) + t)) ==
            if |items| + 2 <= d[i].arraySize && x.Some? && y.Some?
            then Loop(d, st.(m := st.m[i := Many(items + [Msg(x.value), Msg(y.value)])], pos := i), t) else LoopFail
  {
    var e, items := d[i].ptr.fields, st.m[i].items;
    var x, y := DecodeNoinit(e, a, DefaultMsg(e)), DecodeNoinit(e, b, DefaultMsg(e));
    EntryReads(d, st, i, |items|, a, Occurrence(d[i], b) + t);
    if |items| < d[i].arraySize && x.Some? {
      var st1 := WithEntry(d, st, i, |items|, Msg(x.value));
      EntryReads(d, st1, i, |items| + 1, b, t);
      if y.Some? {
        var st2 := WithEntry(d, st1, i, |items| + 1, Msg(y.value));
        assert items + [Msg(x.value)] + [Msg(y.value)] == items + [Msg(x.value), Msg(y.value)];
        assert st2 == st.(m := st.m[i := Many(items + [Msg(x.value), Msg(y.value)])], pos := i);
      }
    }
  }
}
