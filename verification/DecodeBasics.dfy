/** pb_decode.c: reading varints, tags, scalars and length-delimited blocks from a stream. */
module DecodeBasics {
  import opened Bits
  import opened Wire
  import opened Pb
  import opened IStream
  import DecodeSpec
  import opened WireLaws

  // ---------------------------------------------------------------- varints

  /** The bits past the 32nd are neither zero nor the sign of a negative number. */
  predicate Overflows(byte: Byte, bitpos: nat, result: nat)
  {
    var signExtension := if bitpos < 63 then 0xFF else 0x01;
    bitpos >= 32 && byte % 128 != 0 && (result / POW_31 == 0 || byte != signExtension)
  }

  /** One round of the loop of pb_decode_varint32_eof. */
  lemma TailReads(s: seq<Byte>, bitpos: nat, result: nat, byte: Byte, rest: seq<Byte>)
    requires s == [byte] + rest && result < U32
    ensures var result' := TailResult(result, byte % 128, bitpos);
            var bitpos' := (bitpos + 7) % 256;
            Varint32Tail(s, bitpos, result) ==
            if Overflows(byte, bitpos, result) then Err
            else if byte >= 128 then Varint32Tail(rest, bitpos', result')
            else if bitpos' == 35 && byte / 16 % 8 != 0 then Err
            else Ok(result', rest)
  {
    assert s[0] == byte && s[1..] == rest;
  }

  /** pb_decode_varint32_eof */
  method Varint32Eof(stream: InStream) returns (ok: bool, value: nat, eof: bool)
    requires stream.Valid()
    modifies stream
    ensures stream.Parsed(old(stream.End()), Varint32(old(stream.Rest())), ok, value)
    ensures eof == (old(stream.bytesLeft) == 0)
    ensures eof ==> stream.At(old(stream.End()), [])
  {
    ghost var s, end := stream.Rest(), stream.End();
    var byte;
    value, eof := 0, false;
    ok, byte := stream.ReadByte();
    if !ok {
      eof := stream.bytesLeft == 0;
      return;
    }
    Varint32Starts(s, byte, stream.Rest());
    if byte < 128 {
      return true, byte, false;
    }
    ok, value := Varint32More(stream, byte % 128);
  }

  lemma Varint32Starts(s: seq<Byte>, byte: Byte, rest: seq<Byte>)
    requires s == [byte] + rest
    ensures Varint32(s) == if byte < 128 then Ok(byte, rest) else Varint32Tail(rest, 7, byte - 128)
    ensures byte >= 128 ==> byte % 128 == byte - 128
  {
    assert s[0] == byte && s[1..] == rest;
  }

  /** The multibyte case of pb_decode_varint32_eof. */
  method Varint32More(stream: InStream, first: nat) returns (ok: bool, value: nat)
    requires stream.Valid() && first < 128
    modifies stream
    ensures stream.Parsed(old(stream.End()), Varint32Tail(old(stream.Rest()), 7, first), ok, value)
  {
    ghost var s, end := stream.Rest(), stream.End();
    var byte: Byte;
    var bitpos: nat, result: nat := 7, first;
    value := 0;
    while true
      invariant stream.Valid() && stream.End() == end && result < U32
      invariant Varint32Tail(s, 7, first) == Varint32Tail(stream.Rest(), bitpos, result)
      decreases stream.bytesLeft
    {
      ghost var before := stream.Rest();
      ok, byte := stream.ReadByte();
      if !ok {
        return;
      }
      TailReads(before, bitpos, result, byte, stream.Rest());
      if bitpos >= 32 {
        var signExtension := if bitpos < 63 then 0xFF else 0x01;
        if byte % 128 != 0 && (result / POW_31 == 0 || byte != signExtension) {
          ok := false;
          return;
        }
      } else {
        result := OrShift32(result, byte % 128, bitpos);
      }
      bitpos := (bitpos + 7) % 256;
      if byte < 128 {
        break;
      }
    }
    ok := !(bitpos == 35 && byte / 16 % 8 != 0);
    value := result;
  }

  /** `low` with the group x on top of n groups. */
  function WithGroup(low: nat, x: nat, n: nat): nat
  {
    low + x * Pow128(n)
  }

  /** What `tail` is worth once n groups adding up to `low` have been read. */
  function Lift(tail: Parse<nat>, low: nat, n: nat): Parse<nat>
  {
    match tail
    case Ok(high, rest) => Ok(WithGroup(low, high, n), rest)
    case Err => Err
  }

  /** One round of the loop of pb_decode_varint, on unbounded numbers. */
  lemma RawReads(s: seq<Byte>, n: nat, low: nat, byte: Byte, rest: seq<Byte>)
    requires s == [byte] + rest && n < MAX_VARINT && low < Pow128(n)
    ensures WithGroup(low, byte % 128, n) < Pow128(n + 1)
    ensures Lift(RawVarint(s, MAX_VARINT - n), low, n) ==
            if byte < 128 then Ok(WithGroup(low, byte % 128, n), rest)
            else Lift(RawVarint(rest, MAX_VARINT - n - 1), WithGroup(low, byte % 128, n), n + 1)
  {
    assert s[0] == byte && s[1..] == rest;
    var left := MAX_VARINT - n;
    RawUnfolds(s, left);
    GroupBound(low, byte % 128, Pow128(n));
    if byte >= 128 && RawVarint(rest, left - 1).Ok? {
      Split128(byte % 128, RawVarint(rest, left - 1).value, Pow128(n));
    }
  }

  lemma GroupBound(low: nat, x: nat, p: nat)
    requires low < p && x < 128
    ensures low + x * p < 128 * p
  {
  }

  lemma RawUnfolds(s: seq<Byte>, n: nat)
    requires n > 0 && s != []
    ensures RawVarint(s, n) ==
            if s[0] < 128 then Ok(s[0], s[1..])
            else
              match RawVarint(s[1..], n - 1)
              case Ok(high, rest) => Ok(s[0] - 128 + 128 * high, rest)
              case Err => Err
  {
  }

  /** `result | (uint64_t)x << bitpos` */
  function OrShift64(result: nat, x: nat, bitpos: nat): nat
  {
    BitOr(result, x * Pow2(bitpos) % U64)
  }

  lemma OrShift64IsSum(low: nat, x: nat, n: nat)
    requires n < MAX_VARINT && low < Pow128(n) && x < 128
    ensures OrShift64(low, x, 7 * n) == WithGroup(low, x, n) % U64
  {
    if n < 9 {
      var y := Group(low, x, n);
      OrShift64Low(low, x, 7 * n, y);
    } else {
      OrShift64Ninth(low, x, n);
    }
  }

  lemma OrShift64Ninth(low: nat, x: nat, n: nat)
    requires n == 9 && low < Pow128(n) && x < 128
    ensures OrShift64(low, x, 7 * n) == WithGroup(low, x, n) % U64
  {
    Pow128IsPow2(n);
    Pow2Values();
    OrShift64Top(low, x);
  }

  /** A group below the tenth, shifted to its place. */
  lemma Group(low: nat, x: nat, n: nat) returns (y: nat)
    requires n < 9 && low < Pow128(n) && x < 128
    ensures low < Pow2(7 * n) && y == x * Pow2(7 * n)
    ensures low + y < U64 && WithGroup(low, x, n) == low + y
  {
    Pow128IsPow2(n);
    var p := Pow2(7 * n);
    y := x * p;
    GroupFits(n, x);
    GroupBound(low, x, p);
  }

  lemma OrShift64Low(low: nat, x: nat, bitpos: nat, y: nat)
    requires low < Pow2(bitpos) && y == x * Pow2(bitpos) && low + y < U64
    ensures OrShift64(low, x, bitpos) == (low + y) % U64
  {
    OrAbove(low, x, bitpos, y);
    KeepsAll(y);
    KeepsAll(low + y);
  }

  lemma KeepsAll(v: nat)
    requires v < U64
    ensures v % U64 == v
  {
  }

  lemma GroupFits(n: nat, x: nat)
    requires n < 9 && x < 128
    ensures 128 * Pow128(n) <= U64
  {
    Pow128Monotone(n, 8);
    Pow128Values();
  }

  lemma {:induction false} Pow128Monotone(a: nat, b: nat)
    requires a <= b
    ensures Pow128(a) <= Pow128(b)
    decreases b
  {
    if a == b {
    } else {
      Pow128Monotone(a, b - 1);
    }
  }

  /** Of the tenth group only the lowest bit is kept. */
  lemma OrShift64Top(low: nat, x: nat)
    requires low < POW_63 && x < 128
    ensures OrShift64(low, x, 63) == (low + x * POW_63) % U64
  {
    Pow2Values();
    TopBit(low, x);
    OrDisjoint(low, x % 2, 63);
  }

  lemma TopBit(low: nat, x: nat)
    requires low < POW_63
    ensures x * POW_63 % U64 == x % 2 * POW_63
    ensures (low + x * POW_63) % U64 == low + x % 2 * POW_63
  {
    assert x * POW_63 == x / 2 * U64 + x % 2 * POW_63;
  }

  /** n groups adding up to `low` have been read from s, and `rest` is left. */
  ghost predicate Gathered(s: seq<Byte>, rest: seq<Byte>, n: nat, low: nat, result: nat)
  {
    && n <= MAX_VARINT
    && low < Pow128(n)
    && (n < MAX_VARINT ==> result == low)
    && RawVarint(s, MAX_VARINT) == Lift(RawVarint(rest, MAX_VARINT - n), low, n)
  }

  lemma GathersNothing(s: seq<Byte>)
    ensures Gathered(s, s, 0, 0, 0)
  {
  }

  /** One round of the loop of pb_decode_varint. */
  lemma GathersOne(s: seq<Byte>, before: seq<Byte>, n: nat, low: nat, bitpos: nat, result: nat, byte: Byte,
                   rest: seq<Byte>)
    requires Gathered(s, before, n, low, result) && n < MAX_VARINT && bitpos == 7 * n && before == [byte] + rest
    ensures (bitpos + 7) % 256 == 7 * (n + 1)
    ensures var low' := WithGroup(low, byte % 128, n);
            var result' := OrShift64(result, byte % 128, bitpos);
            if byte < 128 then RawVarint(s, MAX_VARINT) == Ok(low', rest) && result' == low' % U64
            else Gathered(s, rest, n + 1, low', result')
  {
    var low' := WithGroup(low, byte % 128, n);
    NextPosition(bitpos);
    RawReads(before, n, low, byte, rest);
    OrShift64IsSum(low, byte % 128, n);
    BelowTen(low', n + 1);
  }

  lemma BelowTen(low: nat, n: nat)
    requires low < Pow128(n) && n <= MAX_VARINT
    ensures n < MAX_VARINT ==> low < U64 && low % U64 == low
  {
    if n < MAX_VARINT {
      Pow128Monotone(n, 9);
      Pow128Values();
      assert Pow128(9) == 128 * Pow128(8);
    }
  }

  lemma GatheredTen(s: seq<Byte>, rest: seq<Byte>, n: nat, low: nat, result: nat)
    requires Gathered(s, rest, n, low, result) && (rest == [] || n == MAX_VARINT)
    ensures RawVarint(s, MAX_VARINT) == Err
  {
  }

  /** pb_decode_varint */
  method DecodeVarint(stream: InStream) returns (ok: bool, value: nat)
    requires stream.Valid()
    modifies stream
    ensures stream.Parsed(old(stream.End()), Varint64(old(stream.Rest())), ok, value)
    ensures ok ==> value < U64
  {
    ghost var s, end := stream.Rest(), stream.End();
    ghost var n: nat, low: nat := 0, 0;
    var byte: Byte;
    var bitpos: nat, result: nat := 0, 0;
    value := 0;
    GathersNothing(s);
    while true
      invariant stream.Valid() && stream.End() == end
      invariant n <= MAX_VARINT && bitpos == 7 * n && Gathered(s, stream.Rest(), n, low, result)
      decreases stream.bytesLeft
    {
      ghost var before := stream.Rest();
      if bitpos >= 64 {
        GatheredTen(s, before, n, low, result);
        return false, 0;
      }
      ok, byte := stream.ReadByte();
      if !ok {
        GatheredTen(s, before, n, low, result);
        return;
      }
      GathersOne(s, before, n, low, bitpos, result, byte, stream.Rest());
      result := OrShift64(result, byte % 128, bitpos);
      bitpos := (bitpos + 7) % 256;
      low := WithGroup(low, byte % 128, n);
      n := n + 1;
      if byte < 128 {
        break;
      }
    }
    value := result;
  }

  /** pb_decode_varint32 */
  method DecodeVarint32(stream: InStream) returns (ok: bool, value: nat)
    requires stream.Valid()
    modifies stream
    ensures stream.Parsed(old(stream.End()), Varint32(old(stream.Rest())), ok, value)
  {
    var eof;
    ok, value, eof := Varint32Eof(stream);
  }

  /** pb_decode_svarint */
  method DecodeSvarint(stream: InStream) returns (ok: bool, value: int)
    requires stream.Valid()
    modifies stream
    ensures stream.Valid() && stream.End() <= old(stream.End()) && ok == Varint64(old(stream.Rest())).Ok?
    ensures ok ==> value == UnZigZag(Varint64(old(stream.Rest())).value) &&
                   stream.At(old(stream.End()), Varint64(old(stream.Rest())).rest)
  {
    var raw;
    value := 0;
    ok, raw := DecodeVarint(stream);
    if ok {
      // (int64_t)~(value >> 1)
      value := if raw % 2 == 1 then ToI64(U64 - 1 - raw / 2) else ToI64(raw / 2);
    }
  }

  // ---------------------------------------------------------------- tags and skipping

  /** pb_decode_tag's answer, as DecodeSpec.DecodeTag gives it. */
  ghost predicate TagRead(stream: InStream, end: nat, r: DecodeSpec.TagResult, ok: bool, wireType: nat, tag: nat,
                          eof: bool)
    reads stream, stream.buf
  {
    && stream.Valid() && stream.End() <= end
    && match r
       case Tag(t, w, rest) => ok && tag == t && wireType == w && stream.At(end, rest)
       case Eof(rest) => !ok && eof && stream.At(end, rest)
       case BadTag => !ok && !eof
  }

  /** pb_decode_tag */
  method DecodeTag(stream: InStream) returns (ok: bool, wireType: nat, tag: nat, eof: bool)
    requires stream.Valid()
    modifies stream
    ensures TagRead(stream, old(stream.End()), DecodeSpec.DecodeTag(old(stream.Rest())), ok, wireType, tag, eof)
  {
    var temp;
    wireType, tag := 0, 0;
    ok, temp, eof := Varint32Eof(stream);
    if !ok {
      return;
    }
    if temp == 0 {
      eof := true;
      ok := false;
      return;
    }
    tag := temp / 8;
    wireType := temp % 8;
  }

  /** pb_skip_varint */
  method SkipVarint(stream: InStream) returns (ok: bool)
    requires stream.Valid()
    modifies stream
    ensures stream.Parsed(old(stream.End()), DecodeSpec.SkipVarint(old(stream.Rest())), ok, ())
  {
    ghost var s, end := stream.Rest(), stream.End();
    while true
      invariant stream.Valid() && stream.End() == end
      invariant DecodeSpec.SkipVarint(s) == DecodeSpec.SkipVarint(stream.Rest())
      decreases stream.bytesLeft
    {
      ghost var before := stream.Rest();
      var byte;
      ok, byte := stream.ReadByte();
      if !ok {
        return;
      }
      assert before[0] == byte && before[1..] == stream.Rest();
      if byte < 128 {
        return;
      }
    }
  }

  /** pb_skip_string */
  method SkipString(stream: InStream) returns (ok: bool)
    requires stream.Valid()
    modifies stream
    ensures stream.Parsed(old(stream.End()), DecodeSpec.SkipField(old(stream.Rest()), WT_STRING), ok, ())
  {
    var length;
    ok, length := DecodeVarint32(stream);
    if ok {
      ok := stream.Discard(length);
    }
  }

  /** pb_skip_field */
  method SkipField(stream: InStream, wireType: nat) returns (ok: bool)
    requires stream.Valid()
    modifies stream
    ensures stream.Parsed(old(stream.End()), DecodeSpec.SkipField(old(stream.Rest()), wireType), ok, ())
  {
    if wireType == WT_VARINT {
      ok := SkipVarint(stream);
    } else if wireType == WT_64BIT {
      ok := stream.Discard(8);
    } else if wireType == WT_STRING {
      ok := SkipString(stream);
    } else if wireType == WT_32BIT {
      ok := stream.Discard(4);
    } else {
      // "invalid wire_type"
      ok := false;
    }
  }

  // ---------------------------------------------------------------- substreams

  /** pb_make_string_substream: `substream` gets the block, and the parent keeps what follows but not yet its place. */
  method MakeSubstream(stream: InStream) returns (ok: bool, substream: InStream)
    requires stream.Valid()
    modifies stream
    ensures stream.Valid() && stream.End() <= old(stream.End())
    ensures substream.Valid() && fresh(substream) && substream.buf == stream.buf
    ensures ok == Block(old(stream.Rest())).Ok?
    ensures ok ==> Separated(stream, substream, old(stream.End()), Block(old(stream.Rest())))
    ensures ok ==> substream.bytesLeft < old(stream.bytesLeft)
  {
    ghost var s := stream.Rest();
    var size;
    ok, size := DecodeVarint32(stream);
    if ok {
      BlockOfLength(s, size, stream.Rest());
      ok, substream := Separate(stream, size);
    } else {
      substream := new InStream.FromBuffer(stream.buf, stream.state, stream.bytesLeft);
    }
  }

  lemma BlockOfLength(s: seq<Byte>, size: nat, rest: seq<Byte>)
    requires Varint32(s) == Ok(size, rest)
    ensures Block(s) == Take(rest, size) && |rest| < |s|
  {
  }

  /** The second half of pb_make_string_substream: a copy of the stream limited to `size` bytes. */
  method Separate(stream: InStream, size: nat) returns (ok: bool, substream: InStream)
    requires stream.Valid()
    modifies stream
    ensures stream.Valid() && stream.End() <= old(stream.End())
    ensures substream.Valid() && fresh(substream) && substream.buf == stream.buf
    ensures ok == Take(old(stream.Rest()), size).Ok?
    ensures ok ==> Separated(stream, substream, old(stream.End()), Take(old(stream.Rest()), size))
    ensures ok ==> substream.bytesLeft <= old(stream.bytesLeft)
  {
    stream.Cuts(size);
    substream := new InStream.FromBuffer(stream.buf, stream.state, stream.bytesLeft);
    if substream.bytesLeft < size {
      // "parent stream too short"
      return false, substream;
    }
    substream.bytesLeft := size;
    stream.bytesLeft := stream.bytesLeft - size;
    ok := true;
  }

  /** The substream holds the block, and the parent, at the same position, has room for what follows it. */
  ghost predicate Separated(stream: InStream, substream: InStream, end: nat, block: Parse<seq<Byte>>)
    reads stream, substream, stream.buf
  {
    && stream.Valid() && substream.Valid() && substream.buf == stream.buf
    && substream.state == stream.state && substream.End() + stream.bytesLeft == end && end <= stream.buf.Length
    && block == Ok(substream.Rest(), stream.buf[substream.End()..end])
  }

  /** pb_close_string_substream: however little of the block was read, the parent continues right after it. */
  method CloseSubstream(stream: InStream, substream: InStream) returns (ok: bool)
    requires substream.Valid() && substream.buf == stream.buf && stream != substream
    requires substream.End() + stream.bytesLeft <= stream.buf.Length
    modifies stream, substream
    ensures ok && stream.Valid()
    ensures stream.state == old(substream.End()) && stream.bytesLeft == old(stream.bytesLeft)
  {
    if substream.bytesLeft > 0 {
      ok := substream.Discard(substream.bytesLeft);
      if !ok {
        assert false;
      }
    }
    stream.state := substream.state;
    ok := true;
  }
}
