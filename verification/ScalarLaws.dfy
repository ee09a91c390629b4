/** The scalar field codecs: each pb_dec_ function undoes the matching pb_enc_ function, width by width. */
module ScalarLaws {
  import opened Bits
  import opened Wire
  import opened WireLaws
  import opened Pb
  import opened EncodeSpec
  import opened DecodeSpec

  lemma WidthRestores(n: int, width: nat)
    requires ValidWidth(width) && SignedFits(n, width)
    ensures ToSigned(n, width) == n
    ensures (if width == 8 then ToI64(ToU64(n)) else ToI32(ToU64(n))) == n
  {
    if n >= 0 {
      assert ToU64(n) == n;
    } else {
      assert ToU64(n) == U64 + n;
      if width != 8 {
        assert U64 + n == (U32 + n) + (U32 - 1) * U32;
        DropMultiple(U32 + n, U32 - 1);
      }
    }
  }

  lemma VarintRestores(f: Field, n: int, s: seq<Byte>, t: seq<Byte>)
    requires f.ltype.LVarint? && ValidWidth(f.dataSize) && SignedFits(n, f.dataSize)
    requires s == Varint(ToU64(n)) + t
    ensures DecodeScalar(f, s) == Ok(Num(n), t)
  {
    Varint64Of(s, ToU64(n), t);
    WidthRestores(n, f.dataSize);
  }

  lemma UVarintRestores(f: Field, n: nat, s: seq<Byte>, t: seq<Byte>)
    requires f.ltype.LUVarint? && ValidWidth(f.dataSize) && UnsignedFits(n, f.dataSize)
    requires s == Varint(ToU64(n)) + t
    ensures DecodeScalar(f, s) == Ok(Num(n), t)
  {
    UnsignedRestores(n, f.dataSize);
    Varint64Of(s, n, t);
  }

  lemma UnsignedRestores(n: nat, width: nat)
    requires ValidWidth(width) && UnsignedFits(n, width)
    ensures n < U64 && ToU64(n) == n && ToUnsigned(n, width) == n
  {
  }

  lemma SVarintRestores(f: Field, n: int, s: seq<Byte>, t: seq<Byte>)
    requires f.ltype.LSVarint? && ValidWidth(f.dataSize) && SignedFits(n, f.dataSize)
    requires s == Varint(ZigZag(n)) + t
    ensures DecodeScalar(f, s) == Ok(Num(n), t)
  {
    Varint64Of(s, ZigZag(n), t);
    ZigZagInverts(n);
    WidthRestores(n, f.dataSize);
  }

  lemma FixedRestores(n: nat, width: nat, s: seq<Byte>, t: seq<Byte>)
    requires n < Pow2(8 * width) && s == LittleEndian(n, width) + t
    ensures Take(s, width) == Ok(LittleEndian(n, width), t)
    ensures FromLittleEndian(LittleEndian(n, width)) == n
  {
    LittleEndianInverts(n, width);
    assert s[..width] == LittleEndian(n, width) && s[width..] == t;
  }

  lemma WordRestores(f: Field, n: nat, s: seq<Byte>, t: seq<Byte>)
    requires f.ltype.LFixed32? || f.ltype.LFixed64?
    requires Typed(f, Num(n)) && s == LittleEndian(n, WordSize(f.ltype)) + t
    ensures DecodeScalar(f, s) == Ok(Num(n), t)
  {
    Pow2Values();
    FixedRestores(n, WordSize(f.ltype), s, t);
  }

  /** A length below 2^32 is read back by the 32-bit reader; one from there to 2^63 is refused. */
  lemma LengthRestores(n: nat, s: seq<Byte>, t: seq<Byte>)
    requires n < POW_63 && s == Varint(n) + t
    ensures Varint32(s) == if n < U32 then Ok(n, t) else Err
  {
    Varint32Of(s, n, t);
    var a := n / U32;
    NarrowSplit(n, n % U32, a, t);
    assert Pow128(4) == 0x1000_0000;
    NotSignExtended(a / 8, 4);
  }

  lemma {:induction false} NotSignExtended(h: nat, k: nat)
    requires h < Pow128(k)
    ensures !SignGroups(h, k)
  {
    if k == 0 {
    } else {
      NotSignExtended(h / 128, k - 1);
    }
  }

  // ---------------------------------------------------------------- length-prefixed values

  lemma {:induction false} CStringWhole(b: seq<Byte>)
    requires 0 !in b
    ensures CString(b) == b
  {
    var r := CString(b);
    assert |r| == |b|;
  }

  lemma TakeExact(b: seq<Byte>, t: seq<Byte>)
    ensures Take(b + t, |b|) == Ok(b, t)
  {
    assert (b + t)[..|b|] == b && (b + t)[|b|..] == t;
  }

  /** A string comes back exactly when its terminator fits; a longer one is "string overflow". */
  lemma StringRestores(f: Field, b: seq<Byte>, s: seq<Byte>, t: seq<Byte>)
    requires f.ltype.LString? && f.dataSize <= PB_SIZE_MAX && |b| <= f.dataSize && 0 !in b
    requires s == WithLength(b) + t
    ensures DecodeScalar(f, s) == if |b| < f.dataSize then Ok(Blob(b), t) else Err
  {
    var rest := b + t;
    assert s == Varint(|b|) + rest;
    LengthRestores(|b|, s, rest);
    TakeExact(b, t);
    CStringWhole(b);
    StringReads(f, s, |b|, rest);
  }

  /** pb_dec_string once the length has been read. */
  lemma StringReads(f: Field, s: seq<Byte>, n: nat, rest: seq<Byte>)
    requires f.ltype.LString? && f.dataSize <= PB_SIZE_MAX && Varint32(s) == Ok(n, rest)
    ensures DecodeScalar(f, s) ==
            if n >= f.dataSize then Err
            else match Take(rest, n) case Ok(b, rest') => Ok(Blob(CString(b)), rest') case Err => Err
  {
    StringRoom(n, f.dataSize);
  }

  lemma StringRoom(n: nat, size: nat)
    requires n < U32 && size <= PB_SIZE_MAX
    ensures (n + 1) % U32 < n || (n + 1) % U32 > size <==> n >= size
  {
    assert n + 1 < U32 ==> (n + 1) % U32 == n + 1;
  }

  lemma BytesRestores(f: Field, b: seq<Byte>, s: seq<Byte>, t: seq<Byte>)
    requires f.ltype.LBytes? && f.dataSize <= PB_SIZE_MAX && |b| + BYTES_HEADER <= f.dataSize
    requires s == WithLength(b) + t
    ensures DecodeScalar(f, s) == Ok(Blob(b), t)
  {
    assert s == Varint(|b|) + (b + t);
    LengthRestores(|b|, s, b + t);
    TakeExact(b, t);
  }

  lemma FixedLengthBytesRestores(f: Field, b: seq<Byte>, s: seq<Byte>, t: seq<Byte>)
    requires f.ltype.LFixedLengthBytes? && f.dataSize <= PB_SIZE_MAX && |b| == f.dataSize
    requires s == WithLength(b) + t
    ensures DecodeScalar(f, s) == Ok(Blob(b), t)
  {
    assert s == Varint(|b|) + (b + t);
    LengthRestores(|b|, s, b + t);
    TakeExact(b, t);
    if b == [] {
      assert seq(f.dataSize, _ => 0) == b;
    }
  }

  lemma EncodedString(f: Field, b: seq<Byte>)
    requires f.ltype.LString? && |b| <= f.dataSize && 0 !in b
    ensures EncodeValue(f, Blob(b)) == Some(WithLength(b))
  {
    assert b[..Min(|b|, f.dataSize)] == b;
    CStringWhole(b);
  }

  lemma BlockRestores(b: seq<Byte>, s: seq<Byte>, t: seq<Byte>)
    requires |b| < POW_63 && s == WithLength(b) + t
    ensures Block(s) == if |b| < U32 then Ok(b, t) else Err
  {
    assert s == Varint(|b|) + (b + t);
    LengthRestores(|b|, s, b + t);
    TakeExact(b, t);
  }

  lemma BoolRestores(f: Field, n: nat, s: seq<Byte>, t: seq<Byte>)
    requires f.ltype.LBool? && n <= 1 && s == Varint(n) + t
    ensures DecodeScalar(f, s) == Ok(Num(n), t)
  {
    LengthRestores(n, s, t);
  }

  lemma NumberRestores(f: Field, n: int, b: seq<Byte>, s: seq<Byte>, t: seq<Byte>)
    requires Packable(f.ltype) && Typed(f, Num(n)) && EncodeValue(f, Num(n)) == Some(b) && s == b + t
    ensures DecodeScalar(f, s) == Ok(Num(n), t)
  {
    match f.ltype
    case LBool => BoolRestores(f, n, s, t);
    case LVarint => VarintRestores(f, n, s, t);
    case LUVarint => UVarintRestores(f, n, s, t);
    case LSVarint => SVarintRestores(f, n, s, t);
    case LFixed32 | LFixed64 => WordRestores(f, n, s, t);
  }

  lemma BlobRestores(f: Field, v: seq<Byte>, b: seq<Byte>, t: seq<Byte>)
    requires !Packable(f.ltype) && !f.ltype.LSubmessage? && f.dataSize <= PB_SIZE_MAX
    requires Typed(f, Blob(v)) && EncodeValue(f, Blob(v)) == Some(b)
    ensures DecodeScalar(f, b + t) == if f.ltype.LString? && |v| == f.dataSize then Err else Ok(Blob(v), t)
  {
    var s := b + t;
    match f.ltype
    case LBytes => BytesRestores(f, v, s, t);
    case LString =>
      EncodedString(f, v);
      StringRestores(f, v, s, t);
    case LFixedLengthBytes => FixedLengthBytesRestores(f, v, s, t);
  }

  /** Every scalar value the C type can hold is restored; only an unterminated string is not. */
  lemma ScalarRestores(f: Field, v: Value, b: seq<Byte>, t: seq<Byte>)
    requires !f.ltype.LSubmessage? && f.dataSize <= PB_SIZE_MAX
    requires Typed(f, v) && EncodeValue(f, v) == Some(b)
    ensures DecodeScalar(f, b + t) ==
            if f.ltype.LString? && |v.bytes| == f.dataSize then Err else Ok(v, t)
  {
    if Packable(f.ltype) {
      NumberRestores(f, v.n, b, b + t, t);
    } else {
      BlobRestores(f, v.bytes, b, t);
    }
  }

  // ---------------------------------------------------------------- which integers a field accepts

  lemma CastFits(n: int, width: nat)
    requires ValidWidth(width)
    ensures ToSigned(n, width) == n <==> SignedFits(n, width)
  {
  }

  lemma UnsignedCastFits(n: nat, width: nat)
    requires ValidWidth(width) && n < U64
    ensures ToUnsigned(n, width) == n <==> UnsignedFits(n, width)
  {
  }

  /** pb_dec_uvarint accepts a value if and only if it fits the field. */
  lemma UVarintAccepts(f: Field, s: seq<Byte>, v: nat, rest: seq<Byte>)
    requires f.ltype.LUVarint? && ValidWidth(f.dataSize) && Varint64(s) == Ok(v, rest)
    ensures DecodeScalar(f, s) == if UnsignedFits(v, f.dataSize) then Ok(Num(v), rest) else Err
  {
    UnsignedCastFits(v, f.dataSize);
  }

  /** pb_dec_svarint accepts a value if and only if it fits the field. */
  lemma SVarintAccepts(f: Field, s: seq<Byte>, n: int, rest: seq<Byte>)
    requires f.ltype.LSVarint? && ValidWidth(f.dataSize)
    requires -0x8000_0000_0000_0000 <= n < 0x8000_0000_0000_0000 && Varint64(s) == Ok(ZigZag(n), rest)
    ensures DecodeScalar(f, s) == if SignedFits(n, f.dataSize) then Ok(Num(n), rest) else Err
  {
    ZigZagInverts(n);
    CastFits(n, f.dataSize);
  }

  /** pb_dec_varint does not: a field of 32 bits takes the low word of any varint, a narrower one checks that
      word only, and a 64-bit one takes everything. */
  lemma VarintAccepts(f: Field, s: seq<Byte>, v: nat, rest: seq<Byte>)
    requires f.ltype.LVarint? && ValidWidth(f.dataSize) && Varint64(s) == Ok(v, rest)
    ensures f.dataSize == 8 ==> DecodeScalar(f, s) == Ok(Num(ToI64(v)), rest)
    ensures f.dataSize == 4 ==> DecodeScalar(f, s) == Ok(Num(ToI32(v)), rest)
    ensures f.dataSize < 4 ==>
              DecodeScalar(f, s) == if SignedFits(ToI32(v), f.dataSize) then Ok(Num(ToI32(v)), rest) else Err
  {
    CastFits(ToI64(v), f.dataSize);
    CastFits(ToI32(v), f.dataSize);
  }

  /** pb_dec_bool takes any value the 32-bit reader takes, and every one but zero is true. */
  lemma BoolAccepts(f: Field, s: seq<Byte>)
    requires f.ltype.LBool?
    ensures DecodeScalar(f, s).Ok? <==> Varint32(s).Ok?
    ensures Varint32(s).Ok? ==>
              DecodeScalar(f, s).rest == Varint32(s).rest &&
              (DecodeScalar(f, s).value == Num(0) <==> Varint32(s).value == 0) &&
              (DecodeScalar(f, s).value == Num(1) <==> Varint32(s).value != 0)
  {
  }

  /** A block behind its length, as the readers of length-prefixed values meet it. */
  lemma BlockReads(b: seq<Byte>, t: seq<Byte>)
    requires |b| < U32
    ensures Varint32(WithLength(b) + t) == Ok(|b|, b + t) && Take(b + t, |b|) == Ok(b, t)
  {
    assert WithLength(b) + t == Varint(|b|) + (b + t);
    LengthRestores(|b|, WithLength(b) + t, b + t);
    TakeExact(b, t);
  }

  /** Whatever block a sender wrote, bytes are taken exactly if they fit behind the size. */
  lemma BytesAccepts(f: Field, b: seq<Byte>, t: seq<Byte>)
    requires f.ltype.LBytes? && |b| < U32
    ensures DecodeScalar(f, WithLength(b) + t) == if |b| + BYTES_HEADER <= f.dataSize then Ok(Blob(b), t) else Err
  {
    BlockReads(b, t);
  }

  /** A string is taken exactly if its terminator fits, and then up to its first NUL. */
  lemma StringAccepts(f: Field, b: seq<Byte>, t: seq<Byte>)
    requires f.ltype.LString? && f.dataSize <= PB_SIZE_MAX && |b| < U32
    ensures DecodeScalar(f, WithLength(b) + t) == if |b| < f.dataSize then Ok(Blob(CString(b)), t) else Err
  {
    BlockReads(b, t);
    StringReads(f, WithLength(b) + t, |b|, b + t);
  }

  /** Bytes of fixed length are taken exactly if the length is right; an empty block stands for all zeros. */
  lemma FixedLengthAccepts(f: Field, b: seq<Byte>, t: seq<Byte>)
    requires f.ltype.LFixedLengthBytes? && |b| < U32
    ensures DecodeScalar(f, WithLength(b) + t) ==
            if b == [] then Ok(Blob(seq(f.dataSize, _ => 0)), t)
            else if |b| == f.dataSize then Ok(Blob(b), t) else Err
  {
    BlockReads(b, t);
    if b == [] {
      assert b + t == t;
    }
  }

  /** So an int32 field reads the varint of 2^32 + 5 as 5. */
  lemma WideVarintIsCut()
    ensures var f := Field(1, LVarint, Required, Static, 0, 0, 4, 0, Null);
            DecodeScalar(f, Varint(U32 + 5)) == Ok(Num(5), [])
  {
    var f := Field(1, LVarint, Required, Static, 0, 0, 4, 0, Null);
    assert Varint(U32 + 5) + [] == Varint(U32 + 5);
    Varint64Inverts(U32 + 5, []);
    VarintAccepts(f, Varint(U32 + 5), U32 + 5, []);
  }
}
