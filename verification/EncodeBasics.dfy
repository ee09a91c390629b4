/** pb_encode.c: writing integers, tags and strings to a stream. */
module EncodeBasics {
  import opened Bits
  import opened Wire
  import opened Pb
  import opened OStream
  import EncodeSpec
  import WireLaws

  // ---------------------------------------------------------------- integers

  /** The buffer while the varint of `whole` is being filled in: i bytes so far, `left` still to come. */
  ghost predicate Filling(whole: nat, buffer: seq<Byte>, i: nat, left: nat)
  {
    && i <= |buffer|
    && if left > 0 then Varint(whole) == buffer[..i] + Varint(left)
       else i > 0 && buffer[i - 1] >= 128 && Varint(whole) == buffer[..i - 1] + [buffer[i - 1] - 128]
  }

  lemma RoomForOne(whole: nat, buffer: seq<Byte>, i: nat, left: nat)
    requires Filling(whole, buffer, i, left) && left > 0 && whole < U64
    ensures i < MAX_VARINT
  {
    VarintAtMostTen(whole);
  }

  /** `buffer[i] = (value & 0x7F) | 0x80; value >>= 7; i++` */
  lemma FillsOne(whole: nat, buffer: seq<Byte>, i: nat, left: nat, buffer': seq<Byte>)
    requires Filling(whole, buffer, i, left) && left > 0
    requires i < |buffer| && buffer' == buffer[i := left % 128 + 128]
    ensures Filling(whole, buffer', i + 1, left / 128)
  {
    assert buffer'[..i + 1] == buffer[..i] + [left % 128 + 128];
    if left < 128 {
      assert buffer'[..i] == buffer[..i];
    }
  }

  /** `buffer[i-1] &= 0x7F` */
  lemma FillsLast(whole: nat, buffer: seq<Byte>, i: nat, buffer': seq<Byte>)
    requires Filling(whole, buffer, i, 0) && buffer' == buffer[i - 1 := buffer[i - 1] % 128]
    ensures buffer'[..i] == Varint(whole)
  {
  }

  /** pb_encode_varint */
  method EncodeVarint(stream: OutStream, value: nat) returns (ok: bool)
    requires stream.Valid() && value < U64
    modifies stream, stream.buf
    ensures stream.Emitted(old(stream.Now()), Some(Varint(value)), ok)
  {
    if value <= 0x7F {
      ok := stream.Write([value]);
      return;
    }
    var buffer := new Byte[MAX_VARINT];
    var i, v := 0, value;
    while v != 0
      invariant Filling(value, buffer[..], i, v)
      invariant stream.Valid() && stream.Now() == old(stream.Now())
      decreases v
    {
      ghost var before := buffer[..];
      RoomForOne(value, before, i, v);
      buffer[i] := v % 128 + 128;
      FillsOne(value, before, i, v, buffer[..]);
      v := v / 128;
      i := i + 1;
    }
    ghost var filled := buffer[..];
    buffer[i - 1] := buffer[i - 1] % 128;
    FillsLast(value, filled, i, buffer[..]);
    ok := stream.Write(buffer[..i]);
  }

  /** A negative int32, sign-extended to 64 bits. */
  function SignExtended(value: nat): nat
    requires POW_31 <= value < U32
  {
    U64 - U32 + value
  }

  /** The 32-bit window `value` shows the low word of t; the `compensation` bits above it are all set. */
  ghost predicate Window(t: nat, value: nat, compensation: nat)
  {
    && value < U32
    && compensation <= 32
    && (compensation % 7 == 4 || compensation == 0)
    && t == (Pow2(compensation) - 1) * U32 + value
    && (compensation > 0 ==> value > 0)
  }

  const BIT_25: nat := 0x200_0000

  /** `(0xFFu >> (8 - bits)) << 25` */
  function Mask(bits: nat): nat
    requires bits <= 8
  {
    0xFF / Pow2(8 - bits) * BIT_25
  }

  lemma MaskSeven()
    ensures Mask(7) == 127 * BIT_25 && Pow2(7) == 128
  {
    assert Pow2(1) == 2;
    Pow2Values();
  }

  lemma MaskFour()
    ensures Mask(4) == 15 * BIT_25 && Pow2(4) == 16
  {
    assert Pow2(4) == 16;
  }

  lemma XorAbove25(a: nat, x: nat)
    requires a < BIT_25
    ensures BitXor(a, x * BIT_25) == a + x * BIT_25
  {
    Pow2Values();
    Pow2Step7(18);
    Pow2Step7(11);
    Pow2Step7(4);
    MaskFour();
    XorDisjoint(a, x, 25);
  }

  lemma WindowArithmetic(high: nat, ones: nat, value: nat)
    ensures (128 * high + ones) * U32 / 128 == high * U32 + ones * BIT_25
    ensures ((128 * high + ones) * U32 + value) / 128 == high * U32 + ones * BIT_25 + value / 128
    ensures ((128 * high + ones) * U32 + value) % 128 == value % 128
  {
  }

  function Taken(compensation: nat): nat
  {
    if compensation > 7 then 7 else compensation
  }

  /** The value after the shift, with the compensation bits set again. */
  function Shifted(value: nat, compensation: nat): nat
  {
    if compensation > 0 then BitXor(value / 128, Mask(Taken(compensation))) else value / 128
  }

  lemma WindowShiftsSeven(t: nat, value: nat, compensation: nat)
    requires Window(t, value, compensation) && compensation > 7
    ensures t % 128 == value % 128
    ensures Window(t / 128, Shifted(value, compensation), compensation - 7)
  {
    var high := Pow2(compensation - 7) - 1;
    HighOnes(t, value, compensation, high);
    WindowArithmetic(high, 127, value);
    ShiftedSeven(value, compensation);
  }

  lemma HighOnes(t: nat, value: nat, compensation: nat, high: nat)
    requires Window(t, value, compensation) && compensation > 7 && high == Pow2(compensation - 7) - 1
    ensures t == (128 * high + 127) * U32 + value
  {
    Pow2Step7(compensation - 7);
  }

  lemma ShiftedSeven(value: nat, compensation: nat)
    requires value < U32 && compensation > 7
    ensures Shifted(value, compensation) == value / 128 + 127 * BIT_25
  {
    MaskSeven();
    XorAbove25(value / 128, 127);
  }

  lemma WindowShiftsFour(t: nat, value: nat, compensation: nat)
    requires Window(t, value, compensation) && 0 < compensation <= 7
    ensures t % 128 == value % 128
    ensures Window(t / 128, Shifted(value, compensation), 0)
  {
    MaskFour();
    WindowArithmetic(0, 15, value);
    XorAbove25(value / 128, 15);
  }

  lemma WindowOpens(value: nat)
    requires POW_31 <= value < U32
    ensures Window(SignExtended(value), value, 32)
  {
    Pow2Values();
  }

  lemma WindowPositive(t: nat, value: nat, compensation: nat)
    requires Window(t, value, compensation) && value != 0
    ensures t / 128 < t
  {
    WindowBelow(Pow2(compensation), value);
  }

  lemma WindowBelow(p: nat, value: nat)
    requires p >= 1
    ensures (p - 1) * U32 + value >= value
  {
  }

  lemma WindowCloses(t: nat, compensation: nat)
    requires Window(t, 0, compensation)
    ensures t == 0
  {
  }

  /** One round of the loop of pb_encode_negative_varint keeps the window in place. */
  lemma WindowShifts(t: nat, value: nat, compensation: nat)
    requires Window(t, value, compensation)
    ensures t % 128 == value % 128
    ensures Window(t / 128, Shifted(value, compensation), compensation - Taken(compensation))
  {
    if compensation > 7 {
      WindowShiftsSeven(t, value, compensation);
    } else if compensation > 0 {
      WindowShiftsFour(t, value, compensation);
    }
  }

  /** pb_encode_negative_varint with a 32-bit pb_uint64_t: byte for byte the varint of the sign-extended value. */
  method EncodeNegativeVarint(stream: OutStream, value: nat) returns (ok: bool)
    requires stream.Valid() && POW_31 <= value < U32
    modifies stream, stream.buf
    ensures stream.Emitted(old(stream.Now()), Some(Varint(SignExtended(value))), ok)
  {
    var buffer := new Byte[MAX_VARINT];
    var i: nat, v: nat, compensation: nat := 0, value, 32;
    ghost var whole := SignExtended(value);
    ghost var t := whole;
    WindowOpens(value);
    while v != 0
      invariant Window(t, v, compensation)
      invariant Filling(whole, buffer[..], i, t)
      invariant stream.Valid() && stream.Now() == old(stream.Now())
      decreases t
    {
      ghost var before := buffer[..];
      WindowPositive(t, v, compensation);
      RoomForOne(whole, before, i, t);
      WindowShifts(t, v, compensation);
      buffer[i] := v % 128 + 128;
      FillsOne(whole, before, i, t, buffer[..]);
      v := Shifted(v, compensation);
      compensation := compensation - Taken(compensation);
      t := t / 128;
      i := i + 1;
    }
    WindowCloses(t, compensation);
    ghost var filled := buffer[..];
    buffer[i - 1] := buffer[i - 1] % 128;
    FillsLast(whole, filled, i, buffer[..]);
    ok := stream.Write(buffer[..i]);
  }

  /** So for every negative int32 the 32-bit encoder and the 64-bit one write the same ten bytes. */
  lemma NegativeVarintAgrees(n: int)
    requires -0x8000_0000 <= n < 0
    ensures POW_31 <= n % U32 < U32 && SignExtended(n % U32) == ToU64(n)
    ensures |Varint(ToU64(n))| == MAX_VARINT
  {
    assert n % U32 == n + U32 && n % U64 == n + U64;
    VarintAtMostTen(ToU64(n));
    assert Pow128(9) == 128 * Pow128(8);
    Pow128Values();
    WireLaws.VarintAtLeast(ToU64(n), 9);
  }

  /** pb_encode_svarint */
  method EncodeSvarint(stream: OutStream, value: int) returns (ok: bool)
    requires stream.Valid() && SignedFits(value, 8)
    modifies stream, stream.buf
    ensures stream.Emitted(old(stream.Now()), Some(Varint(ZigZag(value))), ok)
  {
    // ~((uint64_t)value << 1)
    var zigzagged := if value < 0 then U64 - 1 - ToU64(value) * 2 % U64 else ToU64(value) * 2 % U64;
    ok := EncodeVarint(stream, zigzagged);
  }

  /** pb_encode_fixed32 */
  method EncodeFixed32(stream: OutStream, value: nat) returns (ok: bool)
    requires stream.Valid() && value < U32
    modifies stream, stream.buf
    ensures stream.Emitted(old(stream.Now()), Some(LittleEndian(value, WordSize(LFixed32))), ok)
  {
    var bytes: seq<Byte> := [value % 256, value / 0x100 % 256, value / 0x1_0000 % 256, value / 0x100_0000 % 256];
    FourBytes(value, bytes);
    ok := stream.Write(bytes);
  }

  /** pb_encode_fixed64 */
  method EncodeFixed64(stream: OutStream, value: nat) returns (ok: bool)
    requires stream.Valid() && value < U64
    modifies stream, stream.buf
    ensures stream.Emitted(old(stream.Now()), Some(LittleEndian(value, WordSize(LFixed64))), ok)
  {
    var low: seq<Byte> := [value % 256, value / 0x100 % 256, value / 0x1_0000 % 256, value / 0x100_0000 % 256];
    var high: seq<Byte> := [value / U32 % 256, value / 0x100_0000_0000 % 256,
                            value / 0x1_0000_0000_0000 % 256, value / 0x100_0000_0000_0000 % 256];
    EightBytes(value, low, high);
    ok := stream.Write(low + high);
  }

  lemma FourBytes(value: nat, bytes: seq<int>)
    requires bytes == [value % 256, value / 0x100 % 256, value / 0x1_0000 % 256, value / 0x100_0000 % 256]
    ensures LittleEndian(value, 4) == bytes
  {
    var a := value / 256;
    var b := a / 256;
    var c := b / 256;
    assert b == value / 0x1_0000 && c == value / 0x100_0000;
    assert LittleEndian(c, 1) == [c % 256];
    assert LittleEndian(b, 2) == [b % 256, c % 256];
    assert LittleEndian(a, 3) == [a % 256, b % 256, c % 256];
  }

  lemma EightBytes(value: nat, low: seq<Byte>, high: seq<Byte>)
    requires low == [value % 256, value / 0x100 % 256, value / 0x1_0000 % 256, value / 0x100_0000 % 256]
    requires high == [value / U32 % 256, value / 0x100_0000_0000 % 256,
                      value / 0x1_0000_0000_0000 % 256, value / 0x100_0000_0000_0000 % 256]
    ensures LittleEndian(value, 8) == low + high
  {
    var top := value / U32;
    Quotients(value, top);
    FourBytes(value, low);
    FourBytes(top, high);
    LittleEndianSplits(value, top, 4);
  }

  lemma Quotients(value: nat, top: nat)
    requires top == value / U32
    ensures top / 0x100 == value / 0x100_0000_0000 && top / 0x1_0000 == value / 0x1_0000_0000_0000
    ensures top / 0x100_0000 == value / 0x100_0000_0000_0000
    ensures value / 256 / 256 / 256 / 256 == top
  {
  }

  lemma LittleEndianSplits(value: nat, top: nat, k: nat)
    requires value / 256 / 256 / 256 / 256 == top
    ensures LittleEndian(value, k + 4) == LittleEndian(value, 4) + LittleEndian(top, k)
  {
    var a := value / 256;
    var b := a / 256;
    var c := b / 256;
    assert LittleEndian(c, k + 1) == LittleEndian(c, 1) + LittleEndian(top, k);
    assert LittleEndian(b, k + 2) == LittleEndian(b, 2) + LittleEndian(top, k);
    assert LittleEndian(a, k + 3) == LittleEndian(a, 3) + LittleEndian(top, k);
  }

  /** pb_encode_tag: `(field_number << 3) | wiretype` */
  method EncodeTag(stream: OutStream, wireType: nat, fieldNumber: nat) returns (ok: bool)
    requires stream.Valid() && wireType < 8 && fieldNumber < U32
    modifies stream, stream.buf
    ensures stream.Emitted(old(stream.Now()), Some(EncodeSpec.TagBytes(wireType, fieldNumber)), ok)
  {
    assert Pow2(3) == 8;
    OrDisjoint(wireType, fieldNumber, 3);
    ok := EncodeVarint(stream, BitOr(wireType, fieldNumber * 8));
  }

  /** pb_encode_tag_for_field */
  method EncodeTagForField(stream: OutStream, f: Field) returns (ok: bool)
    requires stream.Valid() && f.tag < U32
    modifies stream, stream.buf
    ensures var tag := EncodeSpec.TagBytes(EncodeSpec.WireTypeOf(f.ltype), f.tag);
            stream.Emitted(old(stream.Now()), if f.ltype.LExtension? then None else Some(tag), ok)
  {
    var wireType: nat;
    match f.ltype {
      case LBool | LVarint | LUVarint | LSVarint => wireType := WT_VARINT;
      case LFixed32 => wireType := WT_32BIT;
      case LFixed64 => wireType := WT_64BIT;
      case LBytes | LString | LSubmessage | LFixedLengthBytes => wireType := WT_STRING;
      case LExtension =>
        // "invalid field type"
        return false;
    }
    ok := EncodeTag(stream, wireType, f.tag);
  }

  /** pb_encode_string: a length and the bytes. */
  method EncodeString(stream: OutStream, bytes: seq<Byte>) returns (ok: bool)
    requires stream.Valid() && |bytes| < U64
    modifies stream, stream.buf
    ensures stream.Emitted(old(stream.Now()), Some(EncodeSpec.WithLength(bytes)), ok)
  {
    ghost var before := stream.Now();
    var length := |bytes|;
    ok := EncodeVarint(stream, length);
    if !ok {
      stream.ChainStops(before, Some(Varint(length)), Some(bytes));
      return;
    }
    ghost var mid := stream.Now();
    ok := stream.Write(bytes);
    stream.Chain(before, mid, Varint(length), Some(bytes), ok);
  }

  /** pb_enc_string counts the bytes up to the terminator or the end of the member. */
  method StringLength(bytes: seq<Byte>) returns (size: nat)
    ensures size <= |bytes| && bytes[..size] == CString(bytes)
  {
    size := 0;
    while size < |bytes| && bytes[size] != 0
      invariant size <= |bytes| && CString(bytes) == bytes[..size] + CString(bytes[size..])
    {
      CStringGoesOn(bytes, size);
      size := size + 1;
    }
  }

  lemma CStringGoesOn(bytes: seq<Byte>, size: nat)
    requires size < |bytes| && bytes[size] != 0
    ensures bytes[..size] + CString(bytes[size..]) == bytes[..size + 1] + CString(bytes[size + 1..])
  {
    var tail := bytes[size..];
    assert tail[0] == bytes[size] && tail[1..] == bytes[size + 1..];
    assert bytes[..size + 1] == bytes[..size] + [bytes[size]];
  }

  /** pb_enc_varint, pb_enc_uvarint and pb_enc_svarint */
  method EncodeInteger(stream: OutStream, f: Field, v: Value) returns (ok: bool)
    requires stream.Valid() && Typed(f, v) && (f.ltype.LVarint? || f.ltype.LUVarint? || f.ltype.LSVarint?)
    modifies stream, stream.buf
    ensures stream.Emitted(old(stream.Now()), EncodeSpec.EncodeValue(f, v), ok)
  {
    if !ValidWidth(f.dataSize) {
      return false;
    }
    if f.ltype.LSVarint? {
      ok := EncodeSvarint(stream, v.n);
    } else {
      ok := EncodeVarint(stream, ToU64(v.n));
    }
  }

  /** pb_enc_bytes, pb_enc_string and pb_enc_fixed_length_bytes */
  method EncodeBlob(stream: OutStream, f: Field, v: Value) returns (ok: bool)
    requires stream.Valid() && f.dataSize <= PB_SIZE_MAX
    requires Typed(f, v) && (f.ltype.LBytes? || f.ltype.LString? || f.ltype.LFixedLengthBytes?)
    modifies stream, stream.buf
    ensures stream.Emitted(old(stream.Now()), EncodeSpec.EncodeValue(f, v), ok)
  {
    if f.ltype.LBytes? && |v.bytes| + BYTES_HEADER > f.dataSize {
      return false;
    }
    if f.ltype.LString? {
      var size := StringLength(v.bytes);
      assert v.bytes[..EncodeSpec.Min(|v.bytes|, f.dataSize)] == v.bytes;
      ok := EncodeString(stream, v.bytes[..size]);
    } else {
      ok := EncodeString(stream, v.bytes);
    }
  }

  /** The pb_enc_ functions, submessages excepted. */
  method EncodeScalar(stream: OutStream, f: Field, v: Value) returns (ok: bool)
    requires stream.Valid() && f.dataSize <= PB_SIZE_MAX && Typed(f, v) && !f.ltype.LSubmessage?
    modifies stream, stream.buf
    ensures stream.Emitted(old(stream.Now()), EncodeSpec.EncodeValue(f, v), ok)
  {
    match f.ltype {
      case LBool =>
        ok := EncodeVarint(stream, if v.n != 0 then 1 else 0);
      case LVarint | LUVarint | LSVarint =>
        ok := EncodeInteger(stream, f, v);
      case LFixed32 =>
        assert v.n % U32 == v.n;
        ok := EncodeFixed32(stream, v.n);
      case LFixed64 =>
        assert v.n % U64 == v.n;
        ok := EncodeFixed64(stream, v.n);
      case LBytes | LString | LFixedLengthBytes =>
        ok := EncodeBlob(stream, f, v);
    }
  }
}
