/** pb_ostream_t over a memory buffer, and its sizing form that only counts. */
module OStream {
  import opened Bits
  import opened EncodeSpec

  /** The observable state of a stream: the whole buffer, the cursor and bytes_written. */
  datatype Snapshot = Snapshot(bytes: seq<Byte>, state: nat, written: nat)

  /** The snapshot after b has been written at the cursor. */
  function Append(s: Snapshot, b: seq<Byte>, sizing: bool): Snapshot
    requires sizing || s.state + |b| <= |s.bytes|
  {
    if sizing then s.(written := s.written + |b|)
    else Snapshot(s.bytes[..s.state] + b + s.bytes[s.state + |b|..], s.state + |b|, s.written + |b|)
  }

  lemma AppendAppend(s: Snapshot, a: seq<Byte>, b: seq<Byte>, sizing: bool)
    requires sizing || s.state + |a| + |b| <= |s.bytes|
    ensures Append(Append(s, a, sizing), b, sizing) == Append(s, a + b, sizing)
  {
    if !sizing {
      var bytes := s.bytes[..s.state] + a + s.bytes[s.state + |a|..];
      assert bytes[..s.state + |a|] == s.bytes[..s.state] + a;
      assert bytes[s.state + |a| + |b|..] == s.bytes[s.state + |a| + |b|..];
    }
  }

  lemma AppendNothing(s: Snapshot, sizing: bool)
    requires sizing || s.state <= |s.bytes|
    ensures Append(s, [], sizing) == s
  {
    if !sizing {
      assert s.bytes[..s.state] + [] + s.bytes[s.state..] == s.bytes;
    }
  }

  lemma CatAssociates(a: Option<seq<Byte>>, b: Option<seq<Byte>>, c: Option<seq<Byte>>)
    ensures Cat(Cat(a, b), c) == Cat(a, Cat(b, c))
  {
    if a.Some? && b.Some? && c.Some? {
      assert a.value + b.value + c.value == a.value + (b.value + c.value);
    }
  }

  lemma CatNothing(b: Option<seq<Byte>>)
    ensures Cat(Some([]), b) == b
  {
    if b.Some? {
      assert [] + b.value == b.value;
    }
  }

  class OutStream {
    /** callback == NULL */
    const sizing: bool
    const buf: array<Byte>
    const maxSize: nat
    var state: nat
    var bytesWritten: nat

    /** The room left by max_size lies inside the buffer. */
    ghost predicate Valid()
      reads this
    {
      !sizing ==> bytesWritten <= maxSize && state + (maxSize - bytesWritten) <= buf.Length
    }

    ghost function Now(): Snapshot
      reads this, buf
    {
      Snapshot(buf[..], state, bytesWritten)
    }

    /** b fits into what max_size leaves after `before`. */
    predicate Room(before: Snapshot, b: seq<Byte>)
    {
      sizing || before.written + |b| <= maxSize
    }

    /** Outside the room that was left, the buffer is as it was. */
    ghost predicate Confined(before: Snapshot)
      reads this, buf
    {
      && |before.bytes| == buf.Length
      && (sizing ==> buf[..] == before.bytes && state == before.state)
      && (forall k :: 0 <= k < buf.Length && (k < before.state || k >= before.state + (maxSize - before.written)) ==>
            buf[k] == before.bytes[k])
    }

    /** The outcome of writing what `spec` says, from the snapshot `before`: it succeeds if and only if there is
        something to write and room for it, writes exactly that, and never touches a byte outside the room. */
    ghost predicate Emitted(before: Snapshot, spec: Option<seq<Byte>>, ok: bool)
      reads this, buf
    {
      && Valid()
      && |before.bytes| == buf.Length
      && (sizing || (before.written <= maxSize && before.state + (maxSize - before.written) <= buf.Length))
      && (ok <==> spec.Some? && Room(before, spec.value))
      && (ok ==> Now() == Append(before, spec.value, sizing))
      && Confined(before)
    }

    /** pb_ostream_from_buffer, or a window of max bytes inside the buffer. */
    constructor FromBuffer(buffer: array<Byte>, cursor: nat, max: nat)
      requires cursor + max <= buffer.Length
      ensures Valid() && !sizing && buf == buffer && state == cursor && maxSize == max && bytesWritten == 0
    {
      sizing := false;
      buf := buffer;
      state := cursor;
      maxSize := max;
      bytesWritten := 0;
    }

    /** PB_OSTREAM_SIZING */
    constructor Sizing()
      ensures Valid() && sizing && fresh(buf) && bytesWritten == 0
    {
      sizing := true;
      buf := new Byte[0];
      state := 0;
      maxSize := 0;
      bytesWritten := 0;
    }

    /** pb_write with a buffer. */
    method Write(b: seq<Byte>) returns (ok: bool)
      requires Valid()
      modifies this, buf
      ensures Emitted(old(Now()), Some(b), ok)
    {
      if |b| > 0 && !sizing {
        if bytesWritten + |b| > maxSize {
          return false;
        }
        BufWrite(b);
      } else {
        AppendNothing(Now(), sizing);
      }
      bytesWritten := bytesWritten + |b|;
      ok := true;
    }

    /** buf_write */
    method BufWrite(b: seq<Byte>)
      requires state + |b| <= buf.Length
      modifies this`state, buf
      ensures state == old(state) + |b|
      ensures buf[..] == old(buf[..state]) + b + old(buf[state + |b|..])
    {
      var dest := state;
      state := dest + |b|;
      for i := 0 to |b|
        invariant state == dest + |b|
        invariant forall k :: 0 <= k < i ==> buf[dest + k] == b[k]
        invariant forall k :: 0 <= k < buf.Length && (k < dest || k >= dest + i) ==> buf[k] == old(buf[k])
      {
        buf[dest + i] := b[i];
      }
    }

    /** pb_write with a NULL buffer, which the encoder calls only while sizing. */
    method Count(size: nat)
      requires Valid() && sizing
      modifies this
      ensures Valid() && state == old(state) && bytesWritten == old(bytesWritten) + size
    {
      bytesWritten := bytesWritten + size;
    }

    /** Two writes in a row, the second only after the first succeeded, are one write of both. */
    lemma Chain(before: Snapshot, mid: Snapshot, a: seq<Byte>, b: Option<seq<Byte>>, ok: bool)
      requires Room(before, a) && |before.bytes| == buf.Length
      requires sizing || (before.written <= maxSize && before.state + (maxSize - before.written) <= buf.Length)
      requires mid == Append(before, a, sizing) && Emitted(mid, b, ok)
      ensures Emitted(before, Cat(Some(a), b), ok)
    {
      if ok {
        AppendAppend(before, a, b.value, sizing);
      }
      assert sizing ||
             forall k :: 0 <= k < buf.Length && (k < before.state || k >= before.state + (maxSize - before.written)) ==>
               mid.bytes[k] == before.bytes[k];
    }

    /** `mid` is `before` after `written`, which there was room for. */
    predicate Reached(before: Snapshot, mid: Snapshot, written: seq<Byte>)
    {
      && |before.bytes| == buf.Length
      && (sizing || (before.written <= maxSize && before.state + (maxSize - before.written) <= buf.Length))
      && Room(before, written)
      && mid == Append(before, written, sizing)
    }

    /** Part of the way through `whole`: `written` is out, `left` is still to come. */
    ghost predicate Midway(before: Snapshot, written: seq<Byte>, left: Option<seq<Byte>>, whole: Option<seq<Byte>>)
      reads this, buf
    {
      Emitted(before, Some(written), true) && Reached(before, Now(), written) && whole == Cat(Some(written), left)
    }

    lemma Begins(whole: Option<seq<Byte>>)
      requires Valid()
      ensures Midway(Now(), [], whole, whole)
    {
      Nothing();
      CatNothing(whole);
    }

    /** One round of a loop that writes `part` next, with `rest` to follow. */
    lemma Grows(before: Snapshot, mid: Snapshot, written: seq<Byte>, part: Option<seq<Byte>>, rest: Option<seq<Byte>>,
                whole: Option<seq<Byte>>, ok: bool)
      requires Reached(before, mid, written) && Emitted(mid, part, ok)
      requires whole == Cat(Some(written), Cat(part, rest))
      ensures ok ==> part.Some? && Midway(before, written + part.value, rest, whole)
      ensures !ok ==> Emitted(before, whole, false)
    {
      Chain(before, mid, written, part, ok);
      CatAssociates(Some(written), part, rest);
      if !ok {
        ChainStops(before, Cat(Some(written), part), rest);
      }
    }

    lemma Finishes(before: Snapshot, written: seq<Byte>, whole: Option<seq<Byte>>)
      requires Midway(before, written, Some([]), whole)
      ensures Emitted(before, whole, true)
    {
      assert written + [] == written;
    }

    lemma Nothing()
      requires Valid()
      ensures Emitted(Now(), Some([]), true)
    {
      AppendNothing(Now(), sizing);
    }

    /** When a first write fails, so would the write of it and more. */
    lemma ChainStops(before: Snapshot, a: Option<seq<Byte>>, b: Option<seq<Byte>>)
      requires Emitted(before, a, false)
      ensures Emitted(before, Cat(a, b), false)
    {
    }
  }
}
