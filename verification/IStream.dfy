/** pb_istream_t over a memory buffer, with the substreams that bound nested data. */
module IStream {
  import opened Bits
  import opened Wire

  class InStream {
    const buf: array<Byte>
    var state: nat
    var bytesLeft: nat

    ghost predicate Valid()
      reads this
    {
      state + bytesLeft <= buf.Length
    }

    /** First position past the window. */
    ghost function End(): nat
      reads this
    {
      state + bytesLeft
    }

    /** The window: the bytes still to be read. */
    ghost function Rest(): seq<Byte>
      reads this, buf
      requires Valid()
    {
      buf[state..state + bytesLeft]
    }

    /** `rest` is left, and the window ends where it ended. */
    ghost predicate At(end: nat, rest: seq<Byte>)
      reads this, buf
    {
      Valid() && End() == end && Rest() == rest
    }

    /** The outcome of a reader that follows `spec`: the same verdict, and on success the same value, the same bytes
        left over and the window's end in place. Even a failed read never moves the end outwards. */
    ghost predicate Parsed<T>(end: nat, spec: Parse<T>, ok: bool, value: T)
      reads this, buf
    {
      && Valid() && End() <= end
      && (ok <==> spec.Ok?)
      && (ok ==> value == spec.value && At(end, spec.rest))
    }

    lemma Splits(size: nat)
      requires Valid() && size <= bytesLeft
      ensures buf[state..state + size] == Rest()[..size] && buf[state + size..End()] == Rest()[size..]
    {
    }

    /** Taking a block off the window, in terms of the buffer. */
    lemma Cuts(size: nat)
      requires Valid()
      ensures Take(Rest(), size) ==
              if size <= bytesLeft then Ok(buf[state..state + size], buf[state + size..End()]) else Err
    {
      if size <= bytesLeft {
        Splits(size);
      }
    }

    /** pb_istream_from_buffer, or a window of `size` bytes inside the buffer. */
    constructor FromBuffer(buffer: array<Byte>, cursor: nat, size: nat)
      requires cursor + size <= buffer.Length
      ensures Valid() && buf == buffer && state == cursor && bytesLeft == size
    {
      buf := buffer;
      state := cursor;
      bytesLeft := size;
    }

    /** pb_readbyte */
    method ReadByte() returns (ok: bool, byte: Byte)
      requires Valid()
      modifies this
      ensures Valid() && End() == old(End()) && ok == (old(bytesLeft) > 0)
      ensures ok ==> old(Rest()) == [byte] + Rest() && bytesLeft < old(bytesLeft)
      ensures !ok ==> state == old(state) && bytesLeft == old(bytesLeft)
    {
      if bytesLeft == 0 {
        return false, 0;
      }
      byte := buf[state];
      state := state + 1;
      bytesLeft := bytesLeft - 1;
      ok := true;
    }

    /** pb_read into a buffer. */
    method Read(count: nat) returns (ok: bool, bytes: seq<Byte>)
      requires Valid()
      modifies this
      ensures Parsed(old(End()), Take(old(Rest()), count), ok, bytes)
    {
      bytes := [];
      if count == 0 {
        assert Rest()[..0] == [] && Rest()[0..] == Rest();
        return true, [];
      }
      if bytesLeft < count {
        return false, [];
      }
      Splits(count);
      bytes := BufRead(count);
      bytesLeft := bytesLeft - count;
      assert bytes == old(Rest())[..count];
      assert Rest() == old(Rest())[count..];
      ok := true;
    }

    /** buf_read */
    method BufRead(count: nat) returns (bytes: seq<Byte>)
      requires state + count <= buf.Length
      modifies this`state
      ensures state == old(state) + count && bytes == buf[old(state)..state]
    {
      var source := state;
      state := state + count;
      bytes := [];
      for i := 0 to count
        invariant state == source + count
        invariant bytes == buf[source..source + i]
      {
        bytes := bytes + [buf[source + i]];
      }
    }

    /** pb_read with a NULL buffer. */
    method Discard(count: nat) returns (ok: bool)
      requires Valid()
      modifies this
      ensures Valid() && End() <= old(End()) && ok == (count <= old(bytesLeft))
      ensures ok ==> state == old(state) + count && At(old(End()), old(Rest())[count..])
    {
      if count == 0 {
        return true;
      }
      if bytesLeft < count {
        return false;
      }
      state := state + count;
      bytesLeft := bytesLeft - count;
      ok := true;
    }
  }
}
