/** pb_decode.c: the pb_dec_ functions for scalars, strings and bytes. */
module DecodeScalars {
  import opened Bits
  import opened Wire
  import opened Pb
  import opened IStream
  import opened DecodeBasics
  import DecodeSpec

  /** Four bytes from index k on, `(uint32_t)b[k] | b[k+1] << 8 | ...`; the shifted bytes do not overlap. */
  function Word(b: seq<Byte>, k: nat): nat
    requires k + 4 <= |b|
  {
    (b[k] as nat) + 0x100 * (b[k + 1] as nat) + 0x1_0000 * (b[k + 2] as nat) + 0x100_0000 * (b[k + 3] as nat)
  }

  lemma FourBytes(b: seq<Byte>)
    requires |b| >= 4
    ensures FromLittleEndian(b) == Word(b, 0) + U32 * FromLittleEndian(b[4..])
  {
    assert b[1..][1..] == b[2..] && b[2..][1..] == b[3..] && b[3..][1..] == b[4..];
    assert FromLittleEndian(b[3..]) == b[3] + 256 * FromLittleEndian(b[4..]);
    assert FromLittleEndian(b[2..]) == b[2] + 256 * FromLittleEndian(b[3..]);
    assert FromLittleEndian(b[1..]) == b[1] + 256 * FromLittleEndian(b[2..]);
  }

  /** pb_dec_fixed32 and pb_dec_fixed64 */
  method DecodeFixed(stream: InStream, f: Field) returns (ok: bool, v: Value)
    requires stream.Valid() && (f.ltype.LFixed32? || f.ltype.LFixed64?)
    modifies stream
    ensures stream.Parsed(old(stream.End()), DecodeSpec.DecodeScalar(f, old(stream.Rest())), ok, v)
  {
    var bytes;
    v := Num(0);
    ok, bytes := stream.Read(WordSize(f.ltype));
    if !ok {
      return;
    }
    FourBytes(bytes);
    v := Num(Word(bytes, 0));
    if f.ltype.LFixed64? {
      FourBytes(bytes[4..]);
      v := Num(Word(bytes, 0) + U32 * Word(bytes, 4));
    }
  }

  /** pb_dec_varint and pb_dec_svarint: cast to the width of the field, which must not change the value. */
  method DecodeSigned(stream: InStream, f: Field) returns (ok: bool, v: Value)
    requires stream.Valid() && (f.ltype.LVarint? || f.ltype.LSVarint?)
    modifies stream
    ensures stream.Parsed(old(stream.End()), DecodeSpec.DecodeScalar(f, old(stream.Rest())), ok, v)
  {
    var svalue: int;
    v := Num(0);
    if f.ltype.LSVarint? {
      ok, svalue := DecodeSvarint(stream);
    } else {
      var value;
      ok, value := DecodeVarint(stream);
      svalue := if f.dataSize == 8 then ToI64(value) else ToI32(value);
    }
    if !ok {
      return;
    }
    if !ValidWidth(f.dataSize) {
      // "invalid data_size"
      return false, Num(0);
    }
    var clamped := DecodeSpec.ToSigned(svalue, f.dataSize);
    ok := clamped == svalue;
    v := Num(clamped);
  }

  /** pb_dec_uvarint */
  method DecodeUnsigned(stream: InStream, f: Field) returns (ok: bool, v: Value)
    requires stream.Valid() && f.ltype.LUVarint?
    modifies stream
    ensures stream.Parsed(old(stream.End()), DecodeSpec.DecodeScalar(f, old(stream.Rest())), ok, v)
  {
    var value;
    v := Num(0);
    ok, value := DecodeVarint(stream);
    if !ok {
      return;
    }
    if !ValidWidth(f.dataSize) {
      return false, Num(0);
    }
    var clamped := DecodeSpec.ToUnsigned(value, f.dataSize);
    ok := clamped == value;
    v := Num(clamped);
  }

  /** pb_dec_bytes */
  method DecodeBytes(stream: InStream, f: Field) returns (ok: bool, v: Value)
    requires stream.Valid() && f.ltype.LBytes?
    modifies stream
    ensures stream.Parsed(old(stream.End()), DecodeSpec.DecodeScalar(f, old(stream.Rest())), ok, v)
  {
    var size, bytes;
    v := Blob([]);
    ok, size := DecodeVarint32(stream);
    if !ok {
      return;
    }
    if size + BYTES_HEADER > f.dataSize {
      // "bytes overflow"
      return false, v;
    }
    ok, bytes := stream.Read(size);
    v := Blob(bytes);
  }

  /** pb_dec_string */
  method DecodeString(stream: InStream, f: Field) returns (ok: bool, v: Value)
    requires stream.Valid() && f.ltype.LString?
    modifies stream
    ensures stream.Parsed(old(stream.End()), DecodeSpec.DecodeScalar(f, old(stream.Rest())), ok, v)
  {
    var size, bytes;
    v := Blob([]);
    ok, size := DecodeVarint32(stream);
    if !ok {
      return;
    }
    // space for the terminator, in 32 bits
    var allocSize := (size + 1) % U32;
    if allocSize < size || allocSize > f.dataSize {
      return false, v;
    }
    ok, bytes := stream.Read(size);
    // the terminator is stored behind the bytes
    v := Blob(CString(bytes));
  }

  /** pb_dec_fixed_length_bytes */
  method DecodeFixedLengthBytes(stream: InStream, f: Field) returns (ok: bool, v: Value)
    requires stream.Valid() && f.ltype.LFixedLengthBytes?
    modifies stream
    ensures stream.Parsed(old(stream.End()), DecodeSpec.DecodeScalar(f, old(stream.Rest())), ok, v)
  {
    var size, bytes;
    v := Blob([]);
    ok, size := DecodeVarint32(stream);
    if !ok {
      return;
    }
    if size == 0 {
      return true, Blob(seq(f.dataSize, _ => 0));
    }
    if size != f.dataSize {
      return false, v;
    }
    ok, bytes := stream.Read(size);
    v := Blob(bytes);
  }

  /** The pb_dec_ functions, submessages excepted. */
  method DecodeScalar(stream: InStream, f: Field) returns (ok: bool, v: Value)
    requires stream.Valid() && !f.ltype.LExtension? && !f.ltype.LSubmessage?
    modifies stream
    ensures stream.Parsed(old(stream.End()), DecodeSpec.DecodeScalar(f, old(stream.Rest())), ok, v)
  {
    match f.ltype {
      case LBool =>
        var value;
        ok, value := DecodeVarint32(stream);
        v := Num(if value != 0 then 1 else 0);
      case LVarint | LSVarint =>
        ok, v := DecodeSigned(stream, f);
      case LUVarint =>
        ok, v := DecodeUnsigned(stream, f);
      case LFixed32 | LFixed64 =>
        ok, v := DecodeFixed(stream, f);
      case LBytes =>
        ok, v := DecodeBytes(stream, f);
      case LString =>
        ok, v := DecodeString(stream, f);
      case LFixedLengthBytes =>
        ok, v := DecodeFixedLengthBytes(stream, f);
    }
  }
}
