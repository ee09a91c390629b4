/** What one value of each wire type is, byte by byte, and that pb_skip_field takes exactly one. */
module WireValues {
  import opened Bits
  import opened Wire
  import opened WireLaws
  import opened Pb
  import opened DecodeSpec

  // ---------------------------------------------------------------- readers ignore what follows

  lemma TagExtends(s: seq<Byte>, t: seq<Byte>)
    requires DecodeTag(s).Tag?
    ensures DecodeTag(s + t) == DecodeTag(s).(rest := DecodeTag(s).rest + t)
  {
    Varint32Extends(s, t);
  }

  lemma {:induction false} SkipVarintExtends(s: seq<Byte>, t: seq<Byte>)
    requires SkipVarint(s).Ok?
    ensures SkipVarint(s + t) == SkipVarint(s).(rest := SkipVarint(s).rest + t)
  {
    assert (s + t)[1..] == s[1..] + t;
    if s[0] < 128 {
    } else {
      SkipVarintExtends(s[1..], t);
    }
  }

  lemma SkipExtends(s: seq<Byte>, n: nat, t: seq<Byte>)
    requires Skip(s, n).Ok?
    ensures Skip(s + t, n) == Skip(s, n).(rest := Skip(s, n).rest + t)
  {
    assert (s + t)[n..] == s[n..] + t;
  }

  lemma SkipFieldExtends(s: seq<Byte>, wireType: nat, t: seq<Byte>)
    requires SkipField(s, wireType).Ok?
    ensures SkipField(s + t, wireType) == SkipField(s, wireType).(rest := SkipField(s, wireType).rest + t)
  {
    if wireType == WT_VARINT {
      SkipVarintExtends(s, t);
    } else if wireType == WT_64BIT {
      SkipExtends(s, 8, t);
    } else if wireType == WT_STRING {
      Varint32Extends(s, t);
      SkipExtends(Varint32(s).rest, Varint32(s).value, t);
    } else {
      SkipExtends(s, 4, t);
    }
  }

  // ---------------------------------------------------------------- one value

  /** A length and that many bytes, the length being the first n bytes. */
  ghost predicate LengthThenBytes(b: seq<Byte>, n: nat)
  {
    n <= |b| && Varint32(b[..n]) == Ok(|b| - n, [])
  }

  /** b is one value of the wire type: bytes with the continuation bit and a last one without, four or eight bytes, or a
      length and that many bytes. The other wire types have no values. */
  ghost predicate WireValue(wireType: nat, b: seq<Byte>)
  {
    if wireType == WT_VARINT then
      b != [] && b[|b| - 1] < 128 && forall k :: 0 <= k < |b| - 1 ==> b[k] >= 128
    else if wireType == WT_64BIT then |b| == 8
    else if wireType == WT_STRING then exists n: nat :: LengthThenBytes(b, n)
    else wireType == WT_32BIT && |b| == 4
  }

  lemma {:induction false} VarintSkipped(b: seq<Byte>, t: seq<Byte>)
    requires WireValue(WT_VARINT, b)
    ensures SkipVarint(b + t) == Ok((), t)
  {
    assert (b + t)[1..] == b[1..] + t;
    if |b| == 1 {
      assert b[1..] + t == t;
    } else {
      VarintSkipped(b[1..], t);
    }
  }

  lemma BytesSkipped(b: seq<Byte>, t: seq<Byte>)
    ensures Skip(b + t, |b|) == Ok((), t)
  {
    assert (b + t)[|b|..] == t;
  }

  /** A value of the wire type is skipped, and nothing more. */
  lemma ValueSkipped(wireType: nat, b: seq<Byte>, t: seq<Byte>)
    requires WireValue(wireType, b)
    ensures SkipField(b + t, wireType) == Ok((), t)
  {
    if wireType == WT_VARINT {
      VarintSkipped(b, t);
    } else if wireType == WT_STRING {
      var n: nat :| LengthThenBytes(b, n);
      assert b + t == b[..n] + (b[n..] + t);
      Varint32Extends(b[..n], b[n..] + t);
      assert [] + (b[n..] + t) == b[n..] + t;
      BytesSkipped(b[n..], t);
    } else {
      BytesSkipped(b, t);
    }
  }

  // ---------------------------------------------------------------- nothing else is skipped

  lemma {:induction false} SkippedVarint(s: seq<Byte>) returns (k: nat)
    requires SkipVarint(s).Ok?
    ensures k <= |s| && WireValue(WT_VARINT, s[..k]) && SkipVarint(s).rest == s[k..]
  {
    if s[0] < 128 {
      k := 1;
    } else {
      var k' := SkippedVarint(s[1..]);
      k := k' + 1;
      assert s[1..][..k'] == s[..k][1..] && s[1..][k'..] == s[k..];
      forall j | 0 <= j < k - 1 ensures s[..k][j] >= 128 {
        if j > 0 {
          assert s[..k][j] == s[1..][..k'][j - 1];
        }
      }
      assert s[..k][k - 1] == s[1..][..k'][k' - 1];
    }
  }

  /** The tail of a 32-bit varint is read from the bytes it takes alone. */
  lemma {:induction false} TailTakes(s: seq<Byte>, bitpos: nat, result: nat) returns (k: nat)
    requires result < U32 && Varint32Tail(s, bitpos, result).Ok?
    ensures var r := Varint32Tail(s, bitpos, result);
            k <= |s| && r.rest == s[k..] && Varint32Tail(s[..k], bitpos, result) == r.(rest := [])
  {
    if s[0] < 128 {
      k := 1;
      assert s[..1][1..] == [];
    } else {
      var result' := if bitpos >= 32 then result else OrShift32(result, s[0] % 128, bitpos);
      var k' := TailTakes(s[1..], (bitpos + 7) % 256, result');
      k := k' + 1;
      assert s[1..][..k'] == s[..k][1..] && s[1..][k'..] == s[k..];
    }
  }

  lemma Varint32Takes(s: seq<Byte>) returns (k: nat)
    requires Varint32(s).Ok?
    ensures k <= |s| && Varint32(s).rest == s[k..] && Varint32(s[..k]) == Varint32(s).(rest := [])
  {
    if s[0] < 128 {
      k := 1;
      assert s[..1][1..] == [];
    } else {
      var k' := TailTakes(s[1..], 7, s[0] - 128);
      k := k' + 1;
      assert s[1..][..k'] == s[..k][1..] && s[1..][k'..] == s[k..];
    }
  }

  /** What pb_skip_field skips is a value of the wire type; it fails where the input starts with none. */
  lemma SkippedIsValue(wireType: nat, s: seq<Byte>) returns (k: nat)
    requires SkipField(s, wireType).Ok?
    ensures k <= |s| && WireValue(wireType, s[..k]) && SkipField(s, wireType).rest == s[k..]
  {
    if wireType == WT_VARINT {
      k := SkippedVarint(s);
    } else if wireType == WT_64BIT {
      k := 8;
    } else if wireType == WT_STRING {
      var n := Varint32Takes(s);
      k := n + Varint32(s).value;
      assert s[..k][..n] == s[..n] && s[n..][Varint32(s).value..] == s[k..];
      assert LengthThenBytes(s[..k], n);
    } else {
      k := 4;
    }
  }

  /** pb_skip_field succeeds if and only if the input starts with a value of the wire type, and then takes just that. */
  lemma SkipsOneValue(wireType: nat, s: seq<Byte>)
    ensures SkipField(s, wireType).Ok? <==> exists k: nat :: k <= |s| && WireValue(wireType, s[..k])
    ensures forall k: nat :: k <= |s| && WireValue(wireType, s[..k]) ==> SkipField(s, wireType) == Ok((), s[k..])
  {
    forall k: nat | k <= |s| && WireValue(wireType, s[..k]) ensures SkipField(s, wireType) == Ok((), s[k..]) {
      assert s[..k] + s[k..] == s;
      ValueSkipped(wireType, s[..k], s[k..]);
    }
    if SkipField(s, wireType).Ok? {
      var k := SkippedIsValue(wireType, s);
    }
  }
}
