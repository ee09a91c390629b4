/** pb_decode.c: fields, arrays, submessages and whole messages. Every method agrees with DecodeSpec. */
module PbDecode {
  import opened Bits
  import opened Wire
  import opened Pb
  import opened IStream
  import opened DecodeBasics
  import opened DecodeScalars
  import DecodeSpec
  import IterSpec
  import Bitmap
  import PbCommon

  /** The struct a message is decoded into. */
  class Struct {
    var slots: seq<Slot>

    constructor (m: seq<Slot>)
      ensures slots == m
    {
      slots := m;
    }
  }

  // ---------------------------------------------------------------- defaults

  /** pb_field_set_to_default on a static field. */
  method FieldSetToDefault(f: Field) returns (slot: Slot)
    requires StaticField(f)
    ensures slot == DefaultSlot(f)
    decreases f, 1
  {
    if f.htype.Repeated? {
      return Many([]);
    } else if f.htype.Oneof? {
      return NotChosen;
    }
    var v: Value;
    if f.ltype.LSubmessage? {
      var sub := new Struct(if f.ptr.SubMsg? then seq(|f.ptr.fields|, _ => NotChosen) else []);
      if f.ptr.SubMsg? {
        MessageSetToDefaults(f.ptr.fields, sub);
      }
      v := Msg(sub.slots);
    } else if f.ptr.Default? {
      v := f.ptr.value;
    } else {
      v := ZeroValue(f);
    }
    slot := if f.htype.Optional? && f.sizeOffset != 0 then Opt(false, v) else Plain(v);
  }

  /** pb_message_set_to_defaults: whatever the struct held before. */
  method MessageSetToDefaults(d: seq<Field>, dest: Struct)
    requires StaticTable(d) && |dest.slots| == |d|
    modifies dest
    ensures dest.slots == DefaultMsg(d)
    decreases d, 2
  {
    var iter := new PbCommon.FieldIter.Begin(d, 0);
    if d == [] {
      return;
    }
    var more := true;
    ghost var i := 0;
    while more
      invariant iter.Valid() && iter.start == d && fresh(iter)
      invariant i <= |d| && more == (i < |d|) && (more ==> iter.pos == i)
      invariant |dest.slots| == |d|
      invariant forall k :: 0 <= k < i ==> dest.slots[k] == DefaultSlot(d[k])
      decreases |d| - i
    {
      var slot := FieldSetToDefault(d[iter.pos]);
      dest.slots := dest.slots[iter.pos := slot];
      more := iter.Next();
      i := i + 1;
    }
  }

  // ---------------------------------------------------------------- values

  /** The function from PB_DECODERS. */
  method DecodeValue(stream: InStream, f: Field, current: Value) returns (ok: bool, v: Value)
    requires stream.Valid() && StaticField(f)
    modifies stream
    ensures stream.Parsed(old(stream.End()), DecodeSpec.DecodeValue(f, old(stream.Rest()), current), ok, v)
    decreases stream.bytesLeft, 1
  {
    if f.ltype.LSubmessage? {
      ok, v := DecodeSubmessage(stream, f, current);
    } else {
      ok, v := DecodeScalar(stream, f);
    }
  }

  /** pb_dec_submessage */
  method DecodeSubmessage(stream: InStream, f: Field, current: Value) returns (ok: bool, v: Value)
    requires stream.Valid() && StaticField(f) && f.ltype.LSubmessage?
    modifies stream
    ensures stream.Parsed(old(stream.End()), DecodeSpec.DecodeValue(f, old(stream.Rest()), current), ok, v)
    decreases stream.bytesLeft, 0
  {
    ghost var s := stream.Rest();
    var substream;
    v := current;
    ok, substream := MakeSubstream(stream);
    ValueOfBlock(f, s, current);
    if !ok {
      return;
    }
    if !f.ptr.SubMsg? {
      // "invalid field descriptor"
      return false, current;
    }
    ok, v := DecodeBlock(stream, substream, f, current, Block(s));
  }

  lemma ValueOfBlock(f: Field, s: seq<Byte>, current: Value)
    requires f.ltype.LSubmessage?
    ensures DecodeSpec.DecodeValue(f, s, current) == OfBlock(f, Block(s), current)
  {
  }

  /** The value of a submessage field, given its block. */
  function OfBlock(f: Field, block: Parse<seq<Byte>>, current: Value): Parse<Value>
  {
    if block.Err? || !f.ptr.SubMsg? then Err
    else
      match Merged(f, block.value, DecodeSpec.SlotsOf(current, f.ptr.fields))
      case Some(m) => Ok(Msg(m), block.rest)
      case None => Err
  }

  function Merged(f: Field, block: seq<Byte>, current: seq<Slot>): Option<seq<Slot>>
    requires f.ptr.SubMsg? && |current| == |f.ptr.fields|
  {
    DecodeSpec.DecodeNoinit(f.ptr.fields, block, if f.htype.Repeated? then DefaultMsg(f.ptr.fields) else current)
  }

  /** The rest of pb_dec_submessage, inside the substream: new array entries are initialized, other submessages already
      are. */
  method DecodeBlock(stream: InStream, substream: InStream, f: Field, current: Value, ghost block: Parse<seq<Byte>>)
      returns (ok: bool, v: Value)
    requires StaticField(f) && f.ptr.SubMsg? && stream != substream
    requires block.Ok? && Separated(stream, substream, substream.End() + stream.bytesLeft, block)
    modifies stream, substream
    ensures stream.Parsed(old(substream.End() + stream.bytesLeft), OfBlock(f, block, current), ok, v)
    decreases substream.bytesLeft, 8
  {
    var d := f.ptr.fields;
    var dest := new Struct(DecodeSpec.SlotsOf(current, d));
    var status;
    if f.htype.Repeated? {
      status := Decode(substream, d, dest);
    } else {
      status := DecodeNoinit(substream, d, dest);
    }
    ok := CloseSubstream(stream, substream);
    ok := status;
    v := Msg(dest.slots);
  }

  // ---------------------------------------------------------------- fields

  /** The packed loop of decode_static_field. */
  method DecodePacked(substream: InStream, f: Field, items: seq<Value>, count: nat)
      returns (status: bool, items': seq<Value>, count': nat)
    requires substream.Valid() && StaticField(f) && Packable(f.ltype)
    modifies substream
    ensures substream.Valid() && substream.End() <= old(substream.End())
    ensures match DecodeSpec.DecodePacked(f, old(substream.Rest()), DecodeSpec.Array(items, count))
            case Some(a) => status && substream.bytesLeft == 0 && substream.End() == old(substream.End()) &&
              a == DecodeSpec.Array(items', count')
            case None => !status || substream.bytesLeft != 0
  {
    ghost var block, end := substream.Rest(), substream.End();
    ghost var a := DecodeSpec.Array(items, count);
    status, items', count' := true, items, count;
    while substream.bytesLeft > 0 && count' < f.arraySize
      invariant substream.Valid() && substream.End() == end
      invariant DecodeSpec.DecodePacked(f, block, a) ==
                DecodeSpec.DecodePacked(f, substream.Rest(), DecodeSpec.Array(items', count'))
      decreases substream.bytesLeft
    {
      var ok, v := DecodeScalar(substream, f);
      if !ok {
        status := false;
        break;
      }
      items' := DecodeSpec.Put(items', count', v);
      count' := count' + 1;
    }
  }

  /** The HTYPE_REPEATED branch of decode_static_field; `count` is what pSize points to. */
  method DecodeRepeated(stream: InStream, f: Field, wireType: nat, items: seq<Value>, count: nat)
      returns (ok: bool, items': seq<Value>, count': nat)
    requires stream.Valid() && StaticField(f) && f.htype.Repeated?
    modifies stream
    ensures stream.Parsed(old(stream.End()),
                          DecodeSpec.DecodeRepeated(f, wireType, old(stream.Rest()), DecodeSpec.Array(items, count)),
                          ok, DecodeSpec.Array(items', count'))
    decreases stream.bytesLeft, 2
  {
    items', count' := items, count;
    if wireType == WT_STRING && Packable(f.ltype) {
      var substream, status;
      ok, substream := MakeSubstream(stream);
      if !ok {
        return;
      }
      status, items', count' := DecodePacked(substream, f, items, count);
      if substream.bytesLeft != 0 {
        // "array overflow"
        ok := false;
        return;
      }
      ok := CloseSubstream(stream, substream);
      ok := status;
    } else {
      if count >= f.arraySize {
        return false, items, count;
      }
      count' := count + 1;
      var v;
      ok, v := DecodeValue(stream, f, DefaultValue(f));
      items' := DecodeSpec.Put(items, count, v);
    }
  }

  /** The other branches of decode_static_field. */
  method DecodeSingle(stream: InStream, f: Field, slot: Slot) returns (ok: bool, slot': Slot)
    requires stream.Valid() && StaticField(f) && !f.htype.Repeated?
    modifies stream
    ensures stream.Parsed(old(stream.End()), DecodeSpec.DecodeSingle(f, old(stream.Rest()), slot), ok, slot')
    decreases stream.bytesLeft, 2
  {
    var v;
    match f.htype {
      case Required =>
        ok, v := DecodeValue(stream, f, DecodeSpec.ValueOf(f, slot));
        slot' := Plain(v);
      case Optional =>
        ok, v := DecodeValue(stream, f, DecodeSpec.ValueOf(f, slot));
        slot' := if f.sizeOffset != 0 then Opt(true, v) else Plain(v);
      case Oneof =>
        // a submessage is reset before it is read
        ok, v := DecodeValue(stream, f, DefaultValue(f));
        slot' := Chosen(v);
    }
  }

  // ---------------------------------------------------------------- messages

  ghost predicate SeenAmong(d: seq<Field>, seen: set<nat>)
  {
    forall k :: k in seen ==> k < RequiredBefore(d, |d|)
  }

  lemma {:induction false} RequiredGrows(d: seq<Field>, i: nat, j: nat)
    requires i < j <= |d| && d[i].htype.Required?
    ensures RequiredBefore(d, i) < RequiredBefore(d, j)
    decreases j
  {
    if i + 1 == j {
    } else {
      RequiredGrows(d, i, j - 1);
    }
  }

  /** A declared tag: the position before the search plays no further part. */
  lemma StepFinds(d: seq<Field>, st: DecodeSpec.State, s: seq<Byte>, i: nat, st1: DecodeSpec.State)
    requires DecodeSpec.InRange(d, st) && DecodeSpec.DecodeTag(s).Tag? && d != []
    requires IterSpec.Find(d, st.pos, DecodeSpec.DecodeTag(s).tag) == Some(i) && st1 == st.(pos := i)
    ensures var t := DecodeSpec.DecodeTag(s);
            DecodeSpec.Step(d, st, s) ==
            match DecodeSpec.EnterFixed(d, st1, i)
            case None => DecodeSpec.Fail
            case Some(st') => DecodeSpec.DecodeField(d, DecodeSpec.MarkSeen(d, st', i), i, t.wireType, t.rest)
  {
    var t := DecodeSpec.DecodeTag(s);
    var entered := DecodeSpec.EnterFixed(d, st, i);
    if entered.Some? {
      FieldIgnoresPosition(d, DecodeSpec.MarkSeen(d, entered.value, i), i, i, t.wireType, t.rest);
    }
  }

  lemma FieldIgnoresPosition(d: seq<Field>, st: DecodeSpec.State, pos: nat, i: nat, wireType: nat, s: seq<Byte>)
    requires DecodeSpec.InRange(d, st) && i < |d| && pos < |d|
    ensures DecodeSpec.DecodeField(d, st, i, wireType, s) == DecodeSpec.DecodeField(d, st.(pos := pos), i, wireType, s)
  {
  }

  /** An undeclared tag. */
  lemma StepSkips(d: seq<Field>, st: DecodeSpec.State, s: seq<Byte>)
    requires DecodeSpec.InRange(d, st) && DecodeSpec.DecodeTag(s).Tag?
    requires var tag := DecodeSpec.DecodeTag(s).tag; if d == [] then tag != 0 else IterSpec.Find(d, st.pos, tag) == None
    ensures var t := DecodeSpec.DecodeTag(s);
            DecodeSpec.Step(d, st, s) == DecodeSpec.SkipStep(st, t.rest, t.wireType)
  {
  }

  /** The local variables of pb_decode_noinit. */
  class Decoder {
    const fields: seq<Field>
    const dest: Struct
    const iter: PbCommon.FieldIter
    const fieldsSeen: array<nat>
    var fixedCountField: Option<nat>
    var fixedCountSize: nat

    /** They hold the state st of the specification. */
    ghost predicate Is(st: DecodeSpec.State)
      reads this, dest, iter, fieldsSeen
    {
      && DecodeSpec.InRange(fields, st)
      && dest.slots == st.m
      && iter.Valid() && iter.start == fields
      && fieldsSeen.Length == 2
      && fixedCountField == st.fixedField && fixedCountSize == st.fixedSize
      && (fields != [] ==>
            && iter.pos == st.pos
            && (FixedCount(fields[st.pos]) && !iter.InPlace() ==> fixedCountField == Some(st.pos))
            && Bitmap.Represents(fieldsSeen[..], st.seen)
            && SeenAmong(fields, st.seen))
    }

    constructor (d: seq<Field>, struct: Struct)
      requires |struct.slots| == |d|
      ensures Is(DecodeSpec.Start(struct.slots)) && fields == d && dest == struct && fresh(iter) && fresh(fieldsSeen)
    {
      fields := d;
      dest := struct;
      iter := new PbCommon.FieldIter.Begin(d, 0);
      fieldsSeen := new nat[2](_ => 0);
      fixedCountField := None;
      fixedCountSize := 0;
      new;
      forall k | 0 <= k < 32 ensures !Bitmap.Bit(0, k) {
        Bitmap.NoBits(k);
      }
    }

    /** The fixed-count bookkeeping of pb_decode_noinit, for the field the iterator stands at. */
    method EnterFixedCount(ghost st: DecodeSpec.State) returns (ok: bool)
      requires Is(st) && fields != []
      modifies this, iter
      ensures ok == DecodeSpec.EnterFixed(fields, st, st.pos).Some?
      ensures ok ==> Is(DecodeSpec.EnterFixed(fields, st, st.pos).value)
      ensures ok && FixedCount(fields[st.pos]) ==> fixedCountField == Some(st.pos)
    {
      if fields[iter.pos].htype.Repeated? && iter.pSize == iter.pData {
        if fixedCountField != Some(iter.pos) {
          if fixedCountField.Some? && fixedCountSize != fields[fixedCountField.value].arraySize {
            // "wrong size for fixed count field"
            return false;
          }
          fixedCountField := Some(iter.pos);
          fixedCountSize := 0;
        }
        iter.pSize := PbCommon.LOCAL_COUNTER;
      }
      ok := true;
    }

    /** Sets the bit of the required field the iterator stands at. */
    method MarkRequired(ghost st: DecodeSpec.State)
      requires Is(st) && fields != []
      modifies fieldsSeen
      ensures Is(DecodeSpec.MarkSeen(fields, st, st.pos))
    {
      var index := iter.requiredFieldIndex;
      if fields[iter.pos].htype.Required? && index < PB_MAX_REQUIRED_FIELDS {
        Bitmap.Marks(fieldsSeen[..], st.seen, index);
        RequiredGrows(fields, iter.pos, |fields|);
        ghost var words := fieldsSeen[..];
        fieldsSeen[index / 32] := BitOr(fieldsSeen[index / 32], Pow2(index % 32));
        assert fieldsSeen[..] == words[index / 32 := BitOr(words[index / 32], Pow2(index % 32))];
      }
    }

    /** decode_static_field */
    method DecodeStaticField(stream: InStream, wireType: nat, ghost st: DecodeSpec.State) returns (ok: bool)
      requires stream.Valid() && StaticTable(fields) && Is(st) && fields != []
      modifies stream, this, dest
      ensures stream.Valid() && stream.End() <= old(stream.End())
      ensures var r := DecodeSpec.DecodeField(fields, st, st.pos, wireType, old(stream.Rest()));
              if r.Continue? then ok && Is(r.state) && stream.At(old(stream.End()), r.rest) else !ok
      decreases stream.bytesLeft, 3
    {
      var i := iter.pos;
      var f := fields[i];
      if f.htype.Repeated? {
        var items := DecodeSpec.ItemsOf(dest.slots[i]);
        var count := if FixedCount(f) then fixedCountSize else |items|;
        ok, items, count := DecodeRepeated(stream, f, wireType, items, count);
        dest.slots := DecodeSpec.Store(fields, dest.slots, i, Many(items));
        if FixedCount(f) {
          fixedCountSize := count;
        }
      } else {
        var slot;
        ok, slot := DecodeSingle(stream, f, dest.slots[i]);
        dest.slots := DecodeSpec.Store(fields, dest.slots, i, slot);
      }
    }

    /** One round of the while loop of pb_decode_noinit: what is left of the specification's loop afterwards. */
    method DecodeOne(stream: InStream, ghost st: DecodeSpec.State)
      returns (ok: bool, eof: bool, ghost st': DecodeSpec.State)
      requires stream.Valid() && stream.bytesLeft > 0 && StaticTable(fields) && Is(st)
      modifies stream, this, dest, iter, fieldsSeen
      ensures stream.Valid() && stream.End() <= old(stream.End())
      ensures ok ==> stream.End() == old(stream.End()) && Is(st') && stream.bytesLeft < old(stream.bytesLeft)
      ensures var r := DecodeSpec.Loop(fields, st, old(stream.Rest()));
              if !ok then r == DecodeSpec.LoopFail
              else if eof then r == DecodeSpec.Done(st', stream.Rest(), true)
              else r == DecodeSpec.Loop(fields, st', stream.Rest())
      decreases stream.bytesLeft, 5
    {
      ghost var s := stream.Rest();
      ghost var step := DecodeSpec.Step(fields, st, s);
      LoopUnfolds(fields, st, s);
      st' := st;
      var wireType, tag;
      ok, wireType, tag, eof := DecodeTag(stream);
      if !ok {
        ok := eof;
        return;
      }
      eof := false;
      ok := DecodeTagged(stream, tag, wireType, st, s);
      if ok {
        st' := step.state;
      }
    }

    /** What follows a tag. */
    method DecodeTagged(stream: InStream, tag: nat, wireType: nat, ghost st: DecodeSpec.State, ghost s: seq<Byte>)
      returns (ok: bool)
      requires stream.Valid() && StaticTable(fields) && Is(st)
      requires DecodeSpec.DecodeTag(s) == DecodeSpec.Tag(tag, wireType, stream.Rest())
      modifies stream, this, dest, iter, fieldsSeen
      ensures stream.Valid() && stream.End() <= old(stream.End())
      ensures var r := DecodeSpec.Step(fields, st, s);
              if r.Continue? then ok && Is(r.state) && stream.At(old(stream.End()), r.rest) else r.Fail? && !ok
      decreases stream.bytesLeft, 5
    {
      var known := iter.FindTag(tag);
      if !known {
        StepSkips(fields, st, s);
        ok := SkipField(stream, wireType);
      } else if fields == [] {
        // the terminator matched a zero tag, and its type says "required bool"
        fieldsSeen[0] := BitOr(fieldsSeen[0], 1);
        var value;
        ok, value := DecodeVarint32(stream);
      } else {
        ghost var found := st.(pos := iter.pos);
        StepFinds(fields, st, s, iter.pos, found);
        ok := DecodeFound(stream, wireType, found);
      }
    }

    /** A declared field: the bookkeeping, then its data. */
    method DecodeFound(stream: InStream, wireType: nat, ghost st: DecodeSpec.State) returns (ok: bool)
      requires stream.Valid() && StaticTable(fields) && Is(st) && fields != []
      modifies stream, this, dest, iter, fieldsSeen
      ensures stream.Valid() && stream.End() <= old(stream.End())
      ensures match DecodeSpec.EnterFixed(fields, st, st.pos)
              case None => !ok
              case Some(st') =>
                var r := DecodeSpec.DecodeField(fields, DecodeSpec.MarkSeen(fields, st', st.pos), st.pos, wireType,
                                                old(stream.Rest()));
                if r.Continue? then ok && Is(r.state) && stream.At(old(stream.End()), r.rest) else !ok
      decreases stream.bytesLeft, 4
    {
      ok := EnterFixedCount(st);
      if !ok {
        return;
      }
      ghost var entered := DecodeSpec.EnterFixed(fields, st, st.pos).value;
      MarkRequired(entered);
      ok := DecodeStaticField(stream, wireType, DecodeSpec.MarkSeen(fields, entered, st.pos));
    }

    /** The checks after the loop: the last fixed-count array is full and every required field was present. */
    method Complete(ghost st: DecodeSpec.State) returns (ok: bool)
      requires Is(st)
      modifies iter
      ensures ok == (DecodeSpec.FixedComplete(fields, st) && DecodeSpec.AllSeen(fields, st.seen))
    {
      if fixedCountField.Some? && fixedCountSize != fields[fixedCountField.value].arraySize {
        return false;
      }
      var requiredCount := CountRequired();
      if fields == [] {
        return true;
      }
      ok := Bitmap.RequiredPresent(fieldsSeen, requiredCount, st.seen);
    }

    /** The required fields of the table, counted by running the iterator to its end. */
    method CountRequired() returns (count: nat)
      requires iter.Valid() && iter.start == fields
      modifies iter
      ensures count == RequiredBefore(fields, |fields|)
    {
      if fields == [] {
        // required_field_index is 0, and the tag is 0
        return 0;
      }
      var lastRequired := false;
      count := 0;
      var more := true;
      ghost var i := iter.pos;
      while more
        invariant iter.Valid() && iter.start == fields
        invariant i <= |fields| && more == (i < |fields|) && (more ==> iter.pos == i)
        invariant !more ==>
                  count == RequiredBefore(fields, |fields| - 1) && lastRequired == fields[|fields| - 1].htype.Required?
        decreases |fields| - i
      {
        count := iter.requiredFieldIndex;
        lastRequired := fields[iter.pos].htype.Required?;
        more := iter.Next();
        i := i + 1;
      }
      if lastRequired {
        count := count + 1;
      }
    }
  }

  /** pb_decode_noinit */
  method DecodeNoinit(stream: InStream, d: seq<Field>, dest: Struct) returns (ok: bool)
    requires stream.Valid() && StaticTable(d) && |dest.slots| == |d|
    modifies stream, dest
    ensures stream.Valid() && stream.End() <= old(stream.End())
    ensures ok == DecodeSpec.DecodeNoinit(d, old(stream.Rest()), old(dest.slots)).Some?
    ensures ok ==> dest.slots == DecodeSpec.DecodeNoinit(d, old(stream.Rest()), old(dest.slots)).value
    ensures ok ==> stream.At(old(stream.End()),
                             DecodeSpec.Loop(d, DecodeSpec.Start(old(dest.slots)), old(stream.Rest())).rest)
    decreases stream.bytesLeft, 6
  {
    ghost var s, end, st := stream.Rest(), stream.End(), DecodeSpec.Start(dest.slots);
    ghost var whole := DecodeSpec.Loop(d, st, s);
    var decoder := new Decoder(d, dest);
    var eof := false;
    while stream.bytesLeft > 0 && !eof
      invariant decoder.Is(st) && decoder.fields == d && decoder.dest == dest
      invariant fresh(decoder) && fresh(decoder.iter) && fresh(decoder.fieldsSeen)
      invariant stream.Valid() && stream.End() == end && stream.bytesLeft <= |s|
      invariant whole == if eof then DecodeSpec.Done(st, stream.Rest(), true) else DecodeSpec.Loop(d, st, stream.Rest())
      decreases !eof, stream.bytesLeft
    {
      ok, eof, st := decoder.DecodeOne(stream, st);
      if !ok {
        return;
      }
    }
    ok := decoder.Complete(st);
  }

  lemma LoopUnfolds(d: seq<Field>, st: DecodeSpec.State, s: seq<Byte>)
    requires DecodeSpec.InRange(d, st) && s != []
    ensures DecodeSpec.Loop(d, st, s) ==
            match DecodeSpec.Step(d, st, s)
            case Fail => DecodeSpec.LoopFail
            case Stop(rest) => DecodeSpec.Done(st, rest, true)
            case Continue(st', rest) => DecodeSpec.Loop(d, st', rest)
  {
  }

  /** pb_decode */
  method Decode(stream: InStream, d: seq<Field>, dest: Struct) returns (ok: bool)
    requires stream.Valid() && StaticTable(d) && |dest.slots| == |d|
    modifies stream, dest
    ensures stream.Valid() && stream.End() <= old(stream.End())
    ensures ok == DecodeSpec.Decode(d, old(stream.Rest())).Some?
    ensures ok ==> dest.slots == DecodeSpec.Decode(d, old(stream.Rest())).value
    ensures ok ==> stream.At(old(stream.End()),
                             DecodeSpec.Loop(d, DecodeSpec.Start(DefaultMsg(d)), old(stream.Rest())).rest)
    decreases stream.bytesLeft, 7
  {
    MessageSetToDefaults(d, dest);
    ok := DecodeNoinit(stream, d, dest);
  }

  /** pb_decode_delimited: afterwards the parent stands right behind the block. */
  method DecodeDelimited(stream: InStream, d: seq<Field>, dest: Struct) returns (ok: bool)
    requires stream.Valid() && StaticTable(d) && |dest.slots| == |d|
    modifies stream, dest
    ensures stream.Valid()
    ensures var block := Block(old(stream.Rest()));
            if block.Ok? && DecodeSpec.Decode(d, block.value).Some?
            then ok && dest.slots == DecodeSpec.Decode(d, block.value).value && stream.At(old(stream.End()), block.rest)
            else !ok
  {
    var substream, status;
    ok, substream := MakeSubstream(stream);
    if !ok {
      return;
    }
    status := Decode(substream, d, dest);
    ok := CloseSubstream(stream, substream);
    ok := status;
  }
}
