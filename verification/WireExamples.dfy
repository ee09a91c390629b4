/** A few encodings byte by byte, as the Protocol Buffers Encoding specification and the headers of nanopb fix them. */
module WireExamples {
  import opened Bits
  import opened Wire
  import opened Pb
  import opened EncodeSpec
  import opened DecodeSpec
  import opened ScalarLaws

  /** A required member of tag 1 without default. */
  function Member(ltype: LType, dataSize: nat): Field
  {
    Field(1, ltype, Required, Static, 0, 0, dataSize, 0, Null)
  }

  lemma Groups()
    ensures Varint(150) == [0x96, 0x01] && Varint(270) == [0x8E, 0x02] && Varint(86942) == [0x9E, 0xA7, 0x05]
  {
    assert Varint(679) == [0xA7, 0x05];
    assert Varint(86942) == [0x9E] + Varint(679);
  }

  lemma Tags()
    ensures TagBytes(WT_VARINT, 1) == [0x08] && TagBytes(WT_64BIT, 1) == [0x09]
    ensures TagBytes(WT_STRING, 1) == [0x0A] && TagBytes(WT_32BIT, 1) == [0x0D]
    ensures TagBytes(WT_STRING, 3) == [0x1A] && TagBytes(WT_STRING, 6) == [0x32]
  {
  }

  lemma Tagged(f: Field, v: Value, tag: seq<Byte>, value: seq<Byte>, b: seq<Byte>)
    requires TagBytes(WireTypeOf(f.ltype), f.tag) == tag && EncodeValue(f, v) == Some(value) && b == tag + value
    ensures EncodeTagged(f, v) == Some(b)
  {
  }

  /** Varints: one tag byte, 8 * tag + wire type, and the groups of seven bits; zigzag folds the sign in. */
  lemma Varints()
    ensures EncodeTagged(Member(LUVarint, 4), Num(150)) == Some([0x08, 0x96, 0x01])
    ensures EncodeTagged(Member(LBool, 1), Num(1)) == Some([0x08, 0x01])
    ensures EncodeTagged(Member(LSVarint, 4), Num(-2)) == Some([0x08, 0x03])
  {
    Tags();
    Groups();
    assert ToU64(150) == 150 && ZigZag(-2) == 3;
    assert Varint(1) == [1] && Varint(3) == [3];
    Tagged(Member(LUVarint, 4), Num(150), [0x08], [0x96, 0x01], [0x08, 0x96, 0x01]);
    Tagged(Member(LBool, 1), Num(1), [0x08], [0x01], [0x08, 0x01]);
    Tagged(Member(LSVarint, 4), Num(-2), [0x08], [0x03], [0x08, 0x03]);
  }

  lemma Shifts(v: nat, n: nat, rest: seq<Byte>)
    requires n > 0 && LittleEndian(v / 256, n - 1) == rest
    ensures LittleEndian(v, n) == [v % 256] + rest
  {
  }

  lemma Word4()
    ensures LittleEndian(0x0403_0201, 4) == [1, 2, 3, 4]
  {
    Shifts(0x04, 1, []);
    Shifts(0x0403, 2, [4]);
    Shifts(0x04_0302, 3, [3, 4]);
    Shifts(0x0403_0201, 4, [2, 3, 4]);
  }

  lemma Word8()
    ensures LittleEndian(0x0807_0605_0403_0201, 8) == [1, 2, 3, 4, 5, 6, 7, 8]
  {
    Shifts(0x08, 1, []);
    Shifts(0x0807, 2, [8]);
    Shifts(0x08_0706, 3, [7, 8]);
    Shifts(0x0807_0605, 4, [6, 7, 8]);
    Shifts(0x08_0706_0504, 5, [5, 6, 7, 8]);
    Shifts(0x0807_0605_0403, 6, [4, 5, 6, 7, 8]);
    Shifts(0x08_0706_0504_0302, 7, [3, 4, 5, 6, 7, 8]);
    Shifts(0x0807_0605_0403_0201, 8, [2, 3, 4, 5, 6, 7, 8]);
  }

  /** Words: least significant byte first. */
  lemma Words()
    ensures EncodeTagged(Member(LFixed32, 4), Num(0x0403_0201)) == Some([0x0D, 1, 2, 3, 4])
    ensures EncodeTagged(Member(LFixed64, 8), Num(0x0807_0605_0403_0201)) == Some([0x09, 1, 2, 3, 4, 5, 6, 7, 8])
  {
    TaggedWord4();
    TaggedWord8();
  }

  lemma TaggedWord4()
    ensures EncodeTagged(Member(LFixed32, 4), Num(0x0403_0201)) == Some([0x0D, 1, 2, 3, 4])
  {
    Tags();
    Word4();
    Tagged(Member(LFixed32, 4), Num(0x0403_0201), [0x0D], [1, 2, 3, 4], [0x0D, 1, 2, 3, 4]);
  }

  lemma ValueWord8()
    ensures EncodeValue(Member(LFixed64, 8), Num(0x0807_0605_0403_0201)) == Some([1, 2, 3, 4, 5, 6, 7, 8])
  {
    Word8();
    assert 0x0807_0605_0403_0201 % U64 == 0x0807_0605_0403_0201;
  }

  lemma TaggedWord8()
    ensures EncodeTagged(Member(LFixed64, 8), Num(0x0807_0605_0403_0201)) == Some([0x09, 1, 2, 3, 4, 5, 6, 7, 8])
  {
    Tags();
    ValueWord8();
    var value: seq<Byte> := [1, 2, 3, 4, 5, 6, 7, 8];
    Tagged(Member(LFixed64, 8), Num(0x0807_0605_0403_0201), [0x09], value, [0x09] + value);
    assert [0x09] + value == [0x09, 1, 2, 3, 4, 5, 6, 7, 8];
  }

  /** "hi" as a string and as bytes. */
  lemma Strings()
    ensures EncodeTagged(Member(LString, 8), Blob([0x68, 0x69])) == Some([0x0A, 2, 0x68, 0x69])
    ensures EncodeTagged(Member(LBytes, 8), Blob([0x68, 0x69])) == Some([0x0A, 2, 0x68, 0x69])
    ensures EncodeTagged(Member(LFixedLengthBytes, 2), Blob([0x68, 0x69])) == Some([0x0A, 2, 0x68, 0x69])
  {
    var hi: seq<Byte> := [0x68, 0x69];
    Tags();
    assert Varint(2) == [2];
    assert WithLength(hi) == [2, 0x68, 0x69];
    EncodedString(Member(LString, 8), hi);
    Tagged(Member(LString, 8), Blob(hi), [0x0A], [2, 0x68, 0x69], [0x0A, 2, 0x68, 0x69]);
    Tagged(Member(LBytes, 8), Blob(hi), [0x0A], [2, 0x68, 0x69], [0x0A, 2, 0x68, 0x69]);
    Tagged(Member(LFixedLengthBytes, 2), Blob(hi), [0x0A], [2, 0x68, 0x69], [0x0A, 2, 0x68, 0x69]);
  }

  lemma OneMember(f: Field, s: Slot, b: seq<Byte>)
    requires EncodeField(f, s) == Some(b)
    ensures EncodeFrom([f], [s], 0) == Some(b)
  {
    assert EncodeFrom([f], [s], 1) == Some([]) && b + [] == b;
  }

  /** A submessage of tag 3 that holds the varint 150. */
  lemma Submessage()
    ensures var f := Member(LSubmessage, 4).(tag := 3, ptr := SubMsg([Member(LUVarint, 4)]));
            EncodeTagged(f, Msg([Plain(Num(150))])) == Some([0x1A, 3, 0x08, 0x96, 0x01])
  {
    var f := Member(LSubmessage, 4).(tag := 3, ptr := SubMsg([Member(LUVarint, 4)]));
    Tags();
    Varints();
    OneMember(Member(LUVarint, 4), Plain(Num(150)), [0x08, 0x96, 0x01]);
    assert Varint(3) == [3];
    assert WithLength([0x08, 0x96, 0x01]) == [3, 0x08, 0x96, 0x01];
    Tagged(f, Msg([Plain(Num(150))]), [0x1A], [3, 0x08, 0x96, 0x01], [0x1A, 3, 0x08, 0x96, 0x01]);
  }

  lemma PackedItem(f: Field, n: nat, items: seq<Value>, rest: seq<Byte>, all: seq<Value>, b: seq<Byte>)
    requires f.ltype.LUVarint? && f.dataSize == 4 && n < U64 && EncodeAll(f, items) == Some(rest)
    requires all == [Num(n)] + items && b == Varint(n) + rest
    ensures EncodeAll(f, all) == Some(b)
  {
    assert ToU64(n) == n && all[1..] == items;
  }

  /** The array 3, 270, 86942 of tag 6, packed. */
  lemma Packed()
    ensures var f := Field(6, LUVarint, Repeated, Static, 0, -4, 4, 8, Null);
            EncodeArray(f, [Num(3), Num(270), Num(86942)]) ==
            Some([0x32, 6, 0x03, 0x8E, 0x02, 0x9E, 0xA7, 0x05])
  {
    var f := Field(6, LUVarint, Repeated, Static, 0, -4, 4, 8, Null);
    Tags();
    Groups();
    assert Varint(3) == [3] && Varint(6) == [6];
    PackedItem(f, 86942, [], [], [Num(86942)], [0x9E, 0xA7, 0x05]);
    PackedItem(f, 270, [Num(86942)], [0x9E, 0xA7, 0x05], [Num(270), Num(86942)], [0x8E, 0x02, 0x9E, 0xA7, 0x05]);
    var b: seq<Byte> := [0x03, 0x8E, 0x02, 0x9E, 0xA7, 0x05];
    PackedItem(f, 3, [Num(270), Num(86942)], [0x8E, 0x02, 0x9E, 0xA7, 0x05], [Num(3), Num(270), Num(86942)], b);
    assert [0x32] + WithLength(b) == [0x32, 6, 0x03, 0x8E, 0x02, 0x9E, 0xA7, 0x05];
  }
}
