/** Decoding a concatenation, and decoding around unknown fields. */
module Merge {
  import opened Bits
  import opened Wire
  import opened WireLaws
  import opened Pb
  import opened IterSpec
  import opened DecodeSpec
  import opened Lookup
  import opened WireValues

  // ---------------------------------------------------------------- readers ignore what follows

  lemma ScalarExtends(f: Field, s: seq<Byte>, t: seq<Byte>)
    requires DecodeScalar(f, s).Ok?
    ensures DecodeScalar(f, s + t) == DecodeScalar(f, s).(rest := DecodeScalar(f, s).rest + t)
  {
    match f.ltype
    case LVarint | LUVarint | LSVarint => Varint64Extends(s, t);
    case LFixed32 | LFixed64 => TakeExtends(s, WordSize(f.ltype), t);
    case LBool => Varint32Extends(s, t);
    case LBytes | LString | LFixedLengthBytes => PrefixedExtends(f, s, t);
  }

  lemma PrefixedExtends(f: Field, s: seq<Byte>, t: seq<Byte>)
    requires DecodeScalar(f, s).Ok? && (f.ltype.LBytes? || f.ltype.LString? || f.ltype.LFixedLengthBytes?)
    ensures DecodeScalar(f, s + t) == DecodeScalar(f, s).(rest := DecodeScalar(f, s).rest + t)
  {
    Varint32Extends(s, t);
    var n, rest := Varint32(s).value, Varint32(s).rest;
    if n <= |rest| {
      TakeExtends(rest, n, t);
    }
  }

  lemma ValueExtends(f: Field, s: seq<Byte>, current: Value, t: seq<Byte>)
    requires DecodeValue(f, s, current).Ok?
    ensures DecodeValue(f, s + t, current) == DecodeValue(f, s, current).(rest := DecodeValue(f, s, current).rest + t)
  {
    if f.ltype.LSubmessage? {
      BlockExtends(s, t);
    } else {
      ScalarExtends(f, s, t);
    }
  }

  lemma RepeatedExtends(f: Field, wireType: nat, s: seq<Byte>, a: Array, t: seq<Byte>)
    requires DecodeRepeated(f, wireType, s, a).Ok?
    ensures DecodeRepeated(f, wireType, s + t, a) ==
            DecodeRepeated(f, wireType, s, a).(rest := DecodeRepeated(f, wireType, s, a).rest + t)
  {
    if wireType == WT_STRING && Packable(f.ltype) {
      BlockExtends(s, t);
    } else {
      ValueExtends(f, s, DefaultValue(f), t);
    }
  }

  lemma FieldExtends(d: seq<Field>, st: State, i: nat, wireType: nat, s: seq<Byte>, t: seq<Byte>)
    requires InRange(d, st) && i < |d| && DecodeField(d, st, i, wireType, s).Continue?
    ensures DecodeField(d, st, i, wireType, s + t) ==
            DecodeField(d, st, i, wireType, s).(rest := DecodeField(d, st, i, wireType, s).rest + t)
  {
    var f := d[i];
    if f.htype.Repeated? {
      var items := ItemsOf(st.m[i]);
      RepeatedExtends(f, wireType, s, Array(items, if FixedCount(f) then st.fixedSize else |items|), t);
    } else {
      ValueExtends(f, s, if f.htype.Oneof? then DefaultValue(f) else ValueOf(f, st.m[i]), t);
    }
  }

  lemma StepExtends(d: seq<Field>, st: State, s: seq<Byte>, t: seq<Byte>)
    requires InRange(d, st) && Step(d, st, s).Continue?
    ensures Step(d, st, s + t) == Step(d, st, s).(rest := Step(d, st, s).rest + t)
  {
    TagExtends(s, t);
    var Tag(tag, wireType, rest) := DecodeTag(s);
    if d == [] && tag == 0 {
      Varint32Extends(rest, t);
    } else if d == [] || Find(d, st.pos, tag).None? {
      SkipFieldExtends(rest, wireType, t);
    } else {
      var i := Find(d, st.pos, tag).value;
      FieldExtends(d, MarkSeen(d, EnterFixed(d, st, i).value, i), i, wireType, rest, t);
    }
  }

  // ---------------------------------------------------------------- concatenation

  /** a ends on a field boundary: the loop uses it up without meeting a zero tag. */
  ghost predicate EndsAtBoundary(d: seq<Field>, st: State, a: seq<Byte>)
    requires InRange(d, st)
  {
    Loop(d, st, a).Done? && !Loop(d, st, a).terminated
  }

  /** Up to a field boundary the loop does not look at what follows: it can be cut in two there. */
  lemma {:induction false} LoopSplits(d: seq<Field>, st: State, a: seq<Byte>, b: seq<Byte>)
    requires StaticTable(d) && InRange(d, st) && EndsAtBoundary(d, st, a)
    ensures Loop(d, st, a + b) == Loop(d, Loop(d, st, a).state, b)
    decreases |a|
  {
    if a == [] {
      assert a + b == b;
    } else {
      StepExtends(d, st, a, b);
      var Continue(st', rest) := Step(d, st, a);
      LoopSplits(d, st', rest, b);
    }
  }

  ghost predicate NothingTracked(d: seq<Field>)
  {
    forall i :: 0 <= i < |d| ==> !d[i].htype.Required? && !FixedCount(d[i])
  }

  lemma {:induction false} NoneRequired(d: seq<Field>, i: nat)
    requires NothingTracked(d) && i <= |d|
    ensures RequiredBefore(d, i) == 0
  {
    if i == 0 {
    } else {
      NoneRequired(d, i - 1);
    }
  }

  /** With no required and no fixed-count field, only the struct and the position change. */
  lemma {:induction false} LoopTracksNothing(d: seq<Field>, st: State, s: seq<Byte>)
    requires InRange(d, st) && NothingTracked(d) && Loop(d, st, s).Done?
    ensures var st' := Loop(d, st, s).state; st' == st.(m := st'.m, pos := st'.pos)
    decreases |s|
  {
    if s == [] || !Step(d, st, s).Continue? {
    } else {
      StepTracksNothing(d, st, s);
      var Continue(st', rest) := Step(d, st, s);
      LoopTracksNothing(d, st', rest);
    }
  }

  lemma StepTracksNothing(d: seq<Field>, st: State, s: seq<Byte>)
    requires InRange(d, st) && NothingTracked(d) && Step(d, st, s).Continue?
    ensures var st' := Step(d, st, s).state; st' == st.(m := st'.m, pos := st'.pos)
  {
    var Tag(tag, wireType, rest) := DecodeTag(s);
    if d != [] && Find(d, st.pos, tag).Some? {
      var i := Find(d, st.pos, tag).value;
      assert EnterFixed(d, st, i) == Some(st) && MarkSeen(d, st, i) == st;
    }
  }

  /** The results of two runs that differ at most in where the iterator stands. */
  ghost predicate SameOutcome(r: LoopResult, r': LoopResult)
  {
    if r.LoopFail? then r'.LoopFail?
    else r'.Done? && r.state == r'.state.(pos := r.state.pos) && r.rest == r'.rest && r.terminated == r'.terminated
  }

  lemma LoopContinues(d: seq<Field>, st: State, s: seq<Byte>)
    requires InRange(d, st) && s != [] && Step(d, st, s).Continue?
    ensures Loop(d, st, s) == Loop(d, Step(d, st, s).state, Step(d, st, s).rest)
  {
  }

  /** Lookup is independent of the iterator's position, so the whole loop is. */
  lemma {:induction false} LoopIgnoresPosition(d: seq<Field>, st: State, pos: nat, s: seq<Byte>)
    requires StaticTable(d) && InRange(d, st) && InRange(d, st.(pos := pos)) && UniqueTags(d)
    ensures SameOutcome(Loop(d, st, s), Loop(d, st.(pos := pos), s))
    decreases |s|
  {
    var st2 := st.(pos := pos);
    assert st == st2.(pos := st.pos);
    if s == [] {
    } else {
      if DecodeTag(s).Tag? {
        if d != [] {
          FindIndependent(d, st.pos, pos, DecodeTag(s).tag);
        }
        PositionStep(d, st, pos, s);
      }
      var r, r2 := Step(d, st, s), Step(d, st2, s);
      if r.Continue? {
        LoopContinues(d, st, s);
        LoopContinues(d, st2, s);
        LoopIgnoresPosition(d, r.state, r2.state.pos, r.rest);
      } else {
        LoopEnds(d, st, s);
        LoopEnds(d, st2, s);
      }
    }
  }

  lemma LoopEnds(d: seq<Field>, st: State, s: seq<Byte>)
    requires InRange(d, st) && s != [] && !Step(d, st, s).Continue?
    ensures Loop(d, st, s) == if Step(d, st, s).Stop? then Done(st, Step(d, st, s).rest, true) else LoopFail
  {
  }

  lemma PositionStep(d: seq<Field>, st: State, pos: nat, s: seq<Byte>)
    requires InRange(d, st) && InRange(d, st.(pos := pos)) && DecodeTag(s).Tag?
    requires d != [] ==> Find(d, st.pos, DecodeTag(s).tag) == Find(d, pos, DecodeTag(s).tag)
    ensures var r, r2 := Step(d, st, s), Step(d, st.(pos := pos), s);
            if r.Continue? then r2.Continue? && r2.rest == r.rest && r2.state == r.state.(pos := r2.state.pos)
            else r2 == r
  {
    var st2 := st.(pos := pos);
    var Tag(tag, wireType, rest) := DecodeTag(s);
    if d != [] && Find(d, pos, tag).Some? {
      var i := Find(d, pos, tag).value;
      FieldIgnoresPosition(d, st, pos, i, wireType, rest);
    }
  }

  lemma FieldIgnoresPosition(d: seq<Field>, st: State, pos: nat, i: nat, wireType: nat, s: seq<Byte>)
    requires InRange(d, st) && InRange(d, st.(pos := pos)) && i < |d|
    ensures EnterFixed(d, st, i).Some? <==> EnterFixed(d, st.(pos := pos), i).Some?
    ensures EnterFixed(d, st, i).Some? ==>
              DecodeField(d, MarkSeen(d, EnterFixed(d, st, i).value, i), i, wireType, s) ==
              DecodeField(d, MarkSeen(d, EnterFixed(d, st.(pos := pos), i).value, i), i, wireType, s)
  {
  }

  /** Decoding a then b into m is decoding the concatenation into m, errors included, for descriptors that
      track nothing across fields; a has to end on a field boundary. */
  lemma ConcatenationMerges(d: seq<Field>, m: seq<Slot>, a: seq<Byte>, b: seq<Byte>)
    requires StaticTable(d) && |m| == |d| && UniqueTags(d) && NothingTracked(d) && EndsAtBoundary(d, Start(m), a)
    ensures DecodeNoinit(d, a, m).Some?
    ensures DecodeNoinit(d, a + b, m) == DecodeNoinit(d, b, DecodeNoinit(d, a, m).value)
  {
    var st := Loop(d, Start(m), a).state;
    LoopTracksNothing(d, Start(m), a);
    NoneRequired(d, |d|);
    LoopSplits(d, Start(m), a, b);
    LoopIgnoresPosition(d, st, 0, b);
  }

  // ---------------------------------------------------------------- the zero tag

  /** A zero tag at a field boundary ends the message, whatever follows it. */
  lemma ZeroTagEnds(d: seq<Field>, m: seq<Slot>, b: seq<Byte>, t: seq<Byte>)
    requires StaticTable(d) && |m| == |d| && EndsAtBoundary(d, Start(m), b)
    ensures DecodeNoinit(d, b + [0] + t, m) == DecodeNoinit(d, b, m)
  {
    assert b + [0] + t == b + ([0] + t);
    LoopSplits(d, Start(m), b, [0] + t);
    assert DecodeTag([0] + t) == Eof(t);
  }

  // ---------------------------------------------------------------- unknown fields

  /** u is one complete field, a tag and a value of its wire type, and the tag is not in the descriptor. */
  ghost predicate UnknownField(d: seq<Field>, u: seq<Byte>)
  {
    && DecodeTag(u).Tag?
    && DecodeTag(u).tag != 0
    && WireValue(DecodeTag(u).wireType, DecodeTag(u).rest)
    && forall i :: 0 <= i < |d| ==> d[i].tag != DecodeTag(u).tag
  }

  lemma UnknownSkipped(d: seq<Field>, st: State, u: seq<Byte>, b: seq<Byte>)
    requires InRange(d, st) && UnknownField(d, u)
    ensures Loop(d, st, u + b) == Loop(d, st, b)
  {
    var Tag(tag, wireType, rest) := DecodeTag(u);
    TagExtends(u, b);
    ValueSkipped(wireType, rest, b);
    if d != [] {
      FindFromMisses(d, st.pos, tag, |d|);
    }
  }

  /** Inserting a field with an undeclared tag at any field boundary changes nothing, whatever the descriptor
      tracks: required fields, or a fixed-count array cut in two by the insertion. */
  lemma UnknownTransparent(d: seq<Field>, m: seq<Slot>, a: seq<Byte>, u: seq<Byte>, b: seq<Byte>)
    requires StaticTable(d) && |m| == |d| && EndsAtBoundary(d, Start(m), a) && UnknownField(d, u)
    ensures DecodeNoinit(d, a + u + b, m) == DecodeNoinit(d, a + b, m)
  {
    var st := Loop(d, Start(m), a).state;
    assert a + u + b == a + (u + b);
    LoopSplits(d, Start(m), a, u + b);
    LoopSplits(d, Start(m), a, b);
    UnknownSkipped(d, st, u, b);
  }
}
