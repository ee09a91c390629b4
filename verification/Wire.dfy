/** The base-128 varints and fixed-width words of the wire format: reference functions and their laws. */
module Wire {
  import opened Bits

  /** Outcome of reading from the front of a window of bytes: a value and the bytes left, or failure. */
  datatype Parse<+T> = Ok(value: T, rest: seq<Byte>) | Err

  // ---------------------------------------------------------------- encoders

  /** Seven bits a byte, least significant group first, top bit set on all bytes but the last. */
  function Varint(v: nat): (bs: seq<Byte>)
    ensures |bs| >= 1
  {
    if v <= 0x7F then [v] else [v % 128 + 128] + Varint(v / 128)
  }

  /** A signed value as its 64-bit two's complement. */
  function ToU64(n: int): (u: nat)
    ensures u < U64
  {
    n % U64
  }

  function ToI64(u: nat): int
  {
    if u % U64 < POW_63 then u % U64 else u % U64 - U64
  }

  const POW_63: nat := 0x8000_0000_0000_0000
  const POW_31: nat := 0x8000_0000

  /** (int32_t)u */
  function ToI32(u: nat): int
  {
    if u % U32 < POW_31 then u % U32 else u % U32 - U32
  }

  /** `value < 0 ? ~((uint64_t)value << 1) : (uint64_t)value << 1` */
  function ZigZag(n: int): (u: nat)
    ensures u < U64
  {
    if n < 0 then U64 - 1 - ToU64(n) * 2 % U64 else ToU64(n) * 2 % U64
  }

  /** `value & 1 ? (int64_t)~(value >> 1) : (int64_t)(value >> 1)` */
  function UnZigZag(u: nat): int
    requires u < U64
  {
    if u % 2 == 1 then ToI64(U64 - 1 - u / 2) else ToI64(u / 2)
  }

  /** Little-endian bytes of a word of n bytes. */
  function LittleEndian(v: nat, n: nat): (bs: seq<Byte>)
    ensures |bs| == n
  {
    if n == 0 then [] else [v % 256] + LittleEndian(v / 256, n - 1)
  }

  function FromLittleEndian(bs: seq<Byte>): nat
  {
    if bs == [] then 0 else bs[0] + 256 * FromLittleEndian(bs[1..])
  }

  // ---------------------------------------------------------------- decoders

  /** A varint of at most n bytes as an unbounded number. */
  function RawVarint(s: seq<Byte>, n: nat): (r: Parse<nat>)
    ensures r.Ok? ==> |r.rest| < |s|
  {
    if n == 0 || s == [] then Err
    else if s[0] < 128 then Ok(s[0], s[1..])
    else
      match RawVarint(s[1..], n - 1)
      case Ok(high, rest) => Ok(s[0] - 128 + 128 * high, rest)
      case Err => Err
  }

  const MAX_VARINT: nat := 10

  /** pb_decode_varint: at most ten bytes, low 64 bits kept. */
  function Varint64(s: seq<Byte>): (r: Parse<nat>)
    ensures r.Ok? ==> |r.rest| < |s| && r.value < U64
  {
    match RawVarint(s, MAX_VARINT)
    case Ok(v, rest) => Ok(v % U64, rest)
    case Err => Err
  }

  /** The do-while loop of pb_decode_varint32_eof, with its 8-bit bit position. */
  function Varint32Tail(s: seq<Byte>, bitpos: nat, result: nat): (r: Parse<nat>)
    requires result < U32
    ensures r.Ok? ==> |r.rest| < |s| && r.value < U32
  {
    if s == [] then Err
    else
      var byte := s[0];
      var signExtension := if bitpos < 63 then 0xFF else 0x01;
      if bitpos >= 32 && byte % 128 != 0 && (result / POW_31 == 0 || byte != signExtension) then Err
      else
        var result' := if bitpos >= 32 then result else OrShift32(result, byte % 128, bitpos);
        var bitpos' := (bitpos + 7) % 256;
        if byte >= 128 then Varint32Tail(s[1..], bitpos', result')
        else if bitpos' == 35 && byte / 16 % 8 != 0 then Err
        else Ok(result', s[1..])
  }

  /** `result | (uint32_t)x << bitpos` */
  function OrShift32(result: nat, x: nat, bitpos: nat): (r: nat)
    requires result < U32
    ensures r < U32
  {
    OrBound32(result, Shl32(x, bitpos));
    BitOr(result, Shl32(x, bitpos))
  }

  /** `(uint32_t)x << bitpos` */
  function Shl32(x: nat, bitpos: nat): (r: nat)
    ensures r < U32
  {
    (x * Pow2(bitpos)) % U32
  }

  lemma OrBound32(a: nat, b: nat)
    requires a < U32 && b < U32
    ensures BitOr(a, b) < U32
  {
    Pow2Values();
    BitOrBound(a, b, 32);
  }

  lemma {:induction false} BitOrBound(a: nat, b: nat, n: nat)
    requires a < Pow2(n) && b < Pow2(n)
    ensures BitOr(a, b) < Pow2(n)
  {
    if a == 0 {
    } else {
      BitOrBound(a / 2, b / 2, n - 1);
    }
  }

  /** pb_decode_varint32 */
  function Varint32(s: seq<Byte>): (r: Parse<nat>)
    ensures r.Ok? ==> |r.rest| < |s| && r.value < U32
  {
    if s == [] then Err
    else if s[0] < 128 then Ok(s[0], s[1..])
    else Varint32Tail(s[1..], 7, s[0] - 128)
  }

  /** pb_read into a buffer of n bytes. */
  function Take(s: seq<Byte>, n: nat): (r: Parse<seq<Byte>>)
    ensures r.Ok? ==> |r.value| == n && s == r.value + r.rest
  {
    if n <= |s| then Ok(s[..n], s[n..]) else Err
  }

  /** A length prefix and that many bytes, as pb_make_string_substream cuts them out. */
  function Block(s: seq<Byte>): (r: Parse<seq<Byte>>)
    ensures r.Ok? ==> |r.value| + |r.rest| < |s|
  {
    match Varint32(s)
    case Ok(n, rest) => Take(rest, n)
    case Err => Err
  }

  // ---------------------------------------------------------------- laws

  lemma {:induction false} VarintLength(v: nat, n: nat)
    requires n >= 1 && v < Pow128(n)
    ensures |Varint(v)| <= n
  {
    assert Pow128(1) == 128;
    if v <= 0x7F {
    } else {
      VarintLength(v / 128, n - 1);
    }
  }

  /** No 64-bit value takes more than ten bytes. */
  lemma VarintAtMostTen(v: nat)
    requires v < U64
    ensures 1 <= |Varint(v)| <= MAX_VARINT
  {
    Pow128Values();
    VarintLength(v, MAX_VARINT);
  }

  lemma {:induction false} RawVarintInverts(v: nat, t: seq<Byte>, n: nat)
    requires |Varint(v)| <= n
    ensures RawVarint(Varint(v) + t, n) == Ok(v, t)
  {
    if v <= 0x7F {
      assert (Varint(v) + t)[1..] == t;
    } else {
      assert (Varint(v) + t)[1..] == Varint(v / 128) + t;
      RawVarintInverts(v / 128, t, n - 1);
    }
  }

  /** pb_decode_varint undoes pb_encode_varint on every 64-bit value and leaves what follows. */
  lemma Varint64Inverts(v: nat, t: seq<Byte>)
    requires v < U64
    ensures Varint64(Varint(v) + t) == Ok(v, t)
  {
    Varint64Of(Varint(v) + t, v, t);
  }

  lemma Varint64Of(s: seq<Byte>, v: nat, t: seq<Byte>)
    requires v < U64 && s == Varint(v) + t
    ensures Varint64(s) == Ok(v, t)
  {
    VarintAtMostTen(v);
    RawVarintInverts(v, t, MAX_VARINT);
    FitsWord(v);
  }

  lemma FitsWord(v: nat)
    requires v < U64
    ensures v % U64 == v
  {
  }

  /** Groups 5 to 8 of a sign extension are all zero or all one, and the tenth byte is 1. */
  predicate SignGroups(h: nat, n: nat)
  {
    if n == 0 then h == 1 else (h % 128 == 0 || h % 128 == 127) && SignGroups(h / 128, n - 1)
  }

  /** The last byte of a canonical varint past bit 35. */
  lemma TailHighEnds(s: seq<Byte>, bitpos: nat, result: nat)
    requires s != [] && 1 <= s[0] < 128 && 35 <= bitpos <= 63 && result < U32
    ensures Varint32Tail(s, bitpos, result) ==
            if result >= POW_31 && bitpos == 63 && s[0] == 1 then Ok(result, s[1..]) else Err
  {
  }

  /** A byte before it: seven zeros, or seven sign bits. */
  lemma TailHighContinues(s: seq<Byte>, bitpos: nat, result: nat)
    requires s != [] && s[0] >= 128 && 35 <= bitpos < 63 && result < U32
    ensures Varint32Tail(s, bitpos, result) ==
            if s[0] == 128 || (result >= POW_31 && s[0] == 255) then Varint32Tail(s[1..], bitpos + 7, result) else Err
  {
  }

  /** What the 32-bit reader should make of the groups h past bit 35, with n more to come at most. */
  function SignRead(h: nat, n: nat, result: nat, t: seq<Byte>): Parse<nat>
  {
    if result >= POW_31 && SignGroups(h, n) then Ok(result, t) else Err
  }

  /** The 32-bit reader on the bytes past bit 35 of a canonical varint. */
  lemma {:induction false} Varint32High(h: nat, n: nat, result: nat, s: seq<Byte>, t: seq<Byte>)
    requires 1 <= h < 2 * Pow128(n) && n <= 4 && result < U32 && s == Varint(h) + t
    ensures Varint32Tail(s, 63 - 7 * n, result) == SignRead(h, n, result, t)
    decreases n
  {
    if h <= 0x7F {
      assert s[0] == h && s[1..] == t;
      TailHighEnds(s, 63 - 7 * n, result);
      LastGroupIsSign(h, n);
    } else {
      var rest := Varint(h / 128) + t;
      assert s[0] == h % 128 + 128 && s[1..] == rest;
      Varint32High(h / 128, n - 1, result, rest, t);
      HighStep(h, n, result, s, rest, t);
    }
  }

  lemma HighStep(h: nat, n: nat, result: nat, s: seq<Byte>, rest: seq<Byte>, t: seq<Byte>)
    requires h >= 128 && 1 <= n <= 4 && result < U32
    requires s != [] && s[0] == h % 128 + 128 && s[1..] == rest
    requires Varint32Tail(rest, 63 - 7 * (n - 1), result) == SignRead(h / 128, n - 1, result, t)
    ensures Varint32Tail(s, 63 - 7 * n, result) == SignRead(h, n, result, t)
  {
    TailHighContinues(s, 63 - 7 * n, result);
  }

  lemma LastGroupIsSign(h: nat, n: nat)
    requires 1 <= h < 128
    ensures SignGroups(h, n) <==> n == 0 && h == 1
  {
    if n > 0 {
      SmallNotSign(n - 1);
    }
  }

  lemma {:induction false} SmallNotSign(n: nat)
    ensures !SignGroups(0, n)
  {
    if n == 0 {
    } else {
      SmallNotSign(n - 1);
    }
  }

  lemma TailContinues(s: seq<Byte>, bitpos: nat, result: nat)
    requires s != [] && s[0] >= 128 && bitpos < 32 && result < U32
    ensures Varint32Tail(s, bitpos, result) == Varint32Tail(s[1..], bitpos + 7, OrShift32(result, s[0] - 128, bitpos))
  {
    NextPosition(bitpos);
    DataBits(s[0]);
  }

  /** The 8-bit bit position does not wrap within a varint. */
  lemma NextPosition(bitpos: nat)
    requires bitpos <= 100
    ensures (bitpos + 7) % 256 == bitpos + 7
  {
  }

  lemma DataBits(byte: Byte)
    requires byte >= 128
    ensures byte % 128 == byte - 128
  {
  }

  lemma TailEnds(s: seq<Byte>, bitpos: nat, result: nat)
    requires s != [] && s[0] < 128 && bitpos < 32 && result < U32
    ensures Varint32Tail(s, bitpos, result) ==
            if bitpos == 28 && s[0] >= 16 then Err else Ok(OrShift32(result, s[0], bitpos), s[1..])
  {
    LastByte(s[0]);
  }

  lemma LastByte(x: nat)
    requires x < 128
    ensures x % 128 == x && (x / 16 % 8 != 0 <==> x >= 16)
  {
  }

  /** What pb_decode_varint32 should make of the 64-bit value v. */
  function Narrow32(v: nat, t: seq<Byte>): Parse<nat>
  {
    if v < U32 || (v / POW_31 % 2 == 1 && SignGroups(v / (8 * U32), 4)) then Ok(v % U32, t) else Err
  }

  lemma NarrowSplit(v: nat, low: nat, a: nat, t: seq<Byte>)
    requires low < U32 && v == low + a * U32
    ensures Narrow32(v, t) == if a == 0 || (low >= POW_31 && SignGroups(a / 8, 4)) then Ok(low, t) else Err
  {
    SplitHalf(low, a);
    SplitHigh(low, a);
    SplitLow(low, a);
  }

  lemma SplitHalf(low: nat, a: nat)
    requires low < U32
    ensures (low + a * U32) / POW_31 % 2 == low / POW_31
  {
    assert (low + a * U32) / POW_31 == low / POW_31 + 2 * a;
  }

  lemma SplitHigh(low: nat, a: nat)
    requires low < U32
    ensures (low + a * U32) / (8 * U32) == a / 8
  {
    assert a == 8 * (a / 8) + a % 8;
  }

  lemma SplitLow(low: nat, a: nat)
    requires low < U32
    ensures (low + a * U32) % U32 == low
  {
  }

  /** The fifth byte: only its low four bits fit. */
  lemma Varint32Fifth(h: nat, result: nat, v: nat, s: seq<Byte>, t: seq<Byte>)
    requires 1 <= h < 2 * Pow128(5) && result < POW_28 && s == Varint(h) + t && v == result + h * POW_28
    ensures Varint32Tail(s, 28, result) == Narrow32(v, t)
  {
    if h <= 0x7F {
      assert s[0] == h && s[1..] == t;
      FifthEnds(h, result, v, s);
    } else {
      assert s[0] == h % 128 + 128 && s[1..] == Varint(h / 128) + t;
      FifthContinues(h % 128, h / 128, result, v, s, t);
    }
  }

  lemma FifthEnds(h: nat, result: nat, v: nat, s: seq<Byte>)
    requires h < 128 && result < POW_28 && s != [] && s[0] == h && v == result + h * POW_28
    ensures Varint32Tail(s, 28, result) == Narrow32(v, s[1..])
  {
    FifthShift(h, result);
    TailEnds(s, 28, result);
    SmallNotSign(4);
    NarrowSplit(v, result + (h % 16) * POW_28, h / 16, s[1..]);
  }

  lemma FifthContinues(x: nat, g: nat, result: nat, v: nat, s: seq<Byte>, t: seq<Byte>)
    requires x < 128 && 1 <= g < 2 * Pow128(4) && result < POW_28 && v == result + (x + 128 * g) * POW_28
    requires s != [] && s[0] == x + 128 && s[1..] == Varint(g) + t
    ensures Varint32Tail(s, 28, result) == Narrow32(v, t)
  {
    var low, a := FifthSplit(x, g, result, v);
    FifthShift(x, result);
    TailContinues(s, 28, result);
    Varint32High(g, 4, low, s[1..], t);
    NarrowSplit(v, low, a, t);
  }

  /** Four bits of the fifth group complete the low word; the other three and g lie above it. */
  lemma FifthSplit(x: nat, g: nat, result: nat, v: nat) returns (low: nat, a: nat)
    requires x < 128 && result < POW_28 && v == result + (x + 128 * g) * POW_28
    ensures low == result + (x % 16) * POW_28 && low < U32 && a / 8 == g && v == low + a * U32 && (g > 0 ==> a > 0)
  {
    low, a := result + (x % 16) * POW_28, x / 16 + 8 * g;
    assert x == x % 16 + 16 * (x / 16);
  }

  lemma FifthShift(x: nat, result: nat)
    requires x < 128 && result < POW_28
    ensures OrShift32(result, x, 28) == result + (x % 16) * POW_28
  {
    Pow2Values();
    OrDisjoint(result, x % 16, 28);
    ShlNibble(x);
  }

  lemma ShlNibble(x: nat)
    requires x < 128
    ensures Shl32(x, 28) == (x % 16) * POW_28
  {
    Pow2Values();
    assert x == x % 16 + 16 * (x / 16);
    assert (x * POW_28) % U32 == (x % 16) * POW_28;
  }

  const POW_28: nat := 0x1000_0000

  lemma ShlFits(x: nat, bitpos: nat, y: nat)
    requires y == x * Pow2(bitpos) && y < U32
    ensures Shl32(x, bitpos) == y
  {
  }

  lemma MulBound(x: nat, p: nat)
    requires x < 128
    ensures 0 <= x * p <= 127 * p
  {
  }

  lemma OrShiftLow(result: nat, x: nat, k: nat)
    requires k <= 3 && result < Pow128(k) && x < 128
    ensures Pow128(k) <= POW_28
    ensures OrShift32(result, x, 7 * k) == result + x * Pow128(k) < Pow128(k + 1) <= POW_28
  {
    Pow128Small(k);
    Pow128IsPow2(k);
    MulBound(x, Pow128(k));
    OrDisjoint(result, x, 7 * k);
    ShlFits(x, 7 * k, x * Pow128(k));
  }

  lemma Pow128Small(k: nat)
    requires k <= 3
    ensures Pow128(k) <= 0x20_0000 && Pow128(k + 1) == 128 * Pow128(k)
  {
    assert Pow128(1) == 128 && Pow128(2) == 0x4000 && Pow128(3) == 0x20_0000;
  }

  /** The bytes before the fifth: the loop accumulates result + h * 128^k. */
  lemma {:induction false} Varint32Low(h: nat, k: nat, result: nat, v: nat, s: seq<Byte>, t: seq<Byte>)
    requires 1 <= k <= 4 && 1 <= h < 2 * Pow128(9 - k) && result < Pow128(k) && s == Varint(h) + t && result < U32
    requires v == result + h * Pow128(k)
    ensures Varint32Tail(s, 7 * k, result) == Narrow32(v, t)
    decreases 4 - k
  {
    if k == 4 {
      Pow128Values();
      Varint32Fifth(h, result, v, s, t);
    } else if h <= 0x7F {
      assert s[0] == h && s[1..] == t;
      LowEnds(h, k, result, v, s);
    } else {
      var x, g := h % 128, h / 128;
      var result' := LowContinues(x, g, k, result, v, s, t);
      Varint32Low(g, k + 1, result', v, s[1..], t);
    }
  }

  lemma LowEnds(h: nat, k: nat, result: nat, v: nat, s: seq<Byte>)
    requires 1 <= k <= 3 && h <= 0x7F && result < Pow128(k) && s != [] && s[0] == h && result < U32
    requires v == result + h * Pow128(k)
    ensures Varint32Tail(s, 7 * k, result) == Narrow32(v, s[1..])
  {
    OrShiftLow(result, h, k);
    TailEnds(s, 7 * k, result);
    NarrowSplit(v, v, 0, s[1..]);
  }

  lemma LowContinues(x: nat, g: nat, k: nat, result: nat, v: nat, s: seq<Byte>, t: seq<Byte>) returns (result': nat)
    requires 1 <= k <= 3 && x < 128 && 1 <= g && 128 * g + x < 2 * Pow128(9 - k) && result < Pow128(k) && result < U32
    requires s == Varint(128 * g + x) + t && v == result + (128 * g + x) * Pow128(k)
    ensures s != [] && s[1..] == Varint(g) + t && g < 2 * Pow128(8 - k) && result' < Pow128(k + 1) && result' < U32
    ensures v == result' + g * Pow128(k + 1)
    ensures Varint32Tail(s, 7 * k, result) == Varint32Tail(s[1..], 7 * (k + 1), result')
  {
    VarintUnfolds(x, g, t);
    OrShiftLow(result, x, k);
    TailContinues(s, 7 * k, result);
    Split128(x, g, Pow128(k));
    result' := result + x * Pow128(k);
  }

  lemma VarintUnfolds(x: nat, g: nat, t: seq<Byte>)
    requires x < 128 && 1 <= g
    ensures Varint(128 * g + x) == [x + 128] + Varint(g)
    ensures (Varint(128 * g + x) + t)[0] == x + 128 && (Varint(128 * g + x) + t)[1..] == Varint(g) + t
  {
    assert (128 * g + x) / 128 == g && (128 * g + x) % 128 == x;
  }

  lemma Split128(x: nat, g: nat, p: nat)
    ensures (x + 128 * g) * p == x * p + g * (128 * p)
  {
  }

  /** Exactly which canonical 64-bit varints pb_decode_varint32 reads, and what it returns. */
  lemma Varint32Canonical(v: nat, t: seq<Byte>)
    requires v < U64
    ensures Varint32(Varint(v) + t) == Narrow32(v, t)
  {
    Varint32Of(Varint(v) + t, v, t);
  }

  lemma Varint32Of(s: seq<Byte>, v: nat, t: seq<Byte>)
    requires v < U64 && s == Varint(v) + t
    ensures Varint32(s) == Narrow32(v, t)
  {
    if v <= 0x7F {
      assert s[0] == v && s[1..] == t;
    } else {
      assert s[0] == v % 128 + 128 && s[1..] == Varint(v / 128) + t;
      assert Pow128(1) == 128;
      Pow128Values();
      Varint32Low(v / 128, 1, v % 128, v, s[1..], t);
    }
  }
}
