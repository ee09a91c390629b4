/** Laws that relate the readers of Wire to one another, and to reading with more bytes behind. */
module WireLaws {
  import opened Bits
  import opened Wire

  // ---------------------------------------------------------------- more bytes behind

  lemma {:induction false} RawVarintExtends(s: seq<Byte>, n: nat, t: seq<Byte>)
    requires RawVarint(s, n).Ok?
    ensures RawVarint(s + t, n) == RawVarint(s, n).(rest := RawVarint(s, n).rest + t)
  {
    if s[0] < 128 {
      assert (s + t)[1..] == s[1..] + t;
    } else {
      assert (s + t)[1..] == s[1..] + t;
      RawVarintExtends(s[1..], n - 1, t);
    }
  }

  lemma {:induction false} Varint32TailExtends(s: seq<Byte>, bitpos: nat, result: nat, t: seq<Byte>)
    requires result < U32 && Varint32Tail(s, bitpos, result).Ok?
    ensures var r := Varint32Tail(s, bitpos, result);
            Varint32Tail(s + t, bitpos, result) == r.(rest := r.rest + t)
  {
    assert (s + t)[1..] == s[1..] + t;
    if s[0] < 128 {
    } else {
      var result' := if bitpos >= 32 then result else OrShift32(result, s[0] % 128, bitpos);
      Varint32TailExtends(s[1..], (bitpos + 7) % 256, result', t);
    }
  }

  lemma Varint64Extends(s: seq<Byte>, t: seq<Byte>)
    requires Varint64(s).Ok?
    ensures Varint64(s + t) == Varint64(s).(rest := Varint64(s).rest + t)
  {
    RawVarintExtends(s, MAX_VARINT, t);
  }

  lemma Varint32Extends(s: seq<Byte>, t: seq<Byte>)
    requires Varint32(s).Ok?
    ensures Varint32(s + t) == Varint32(s).(rest := Varint32(s).rest + t)
  {
    assert (s + t)[1..] == s[1..] + t;
    if s[0] >= 128 {
      Varint32TailExtends(s[1..], 7, s[0] - 128, t);
    }
  }

  lemma TakeExtends(s: seq<Byte>, n: nat, t: seq<Byte>)
    requires Take(s, n).Ok?
    ensures Take(s + t, n) == Take(s, n).(rest := Take(s, n).rest + t)
  {
    assert (s + t)[..n] == s[..n] && (s + t)[n..] == s[n..] + t;
  }

  lemma BlockExtends(s: seq<Byte>, t: seq<Byte>)
    requires Block(s).Ok?
    ensures Block(s + t) == Block(s).(rest := Block(s).rest + t)
  {
    Varint32Extends(s, t);
    TakeExtends(Varint32(s).rest, Varint32(s).value, t);
  }

  // ---------------------------------------------------------------- the two varint readers agree

  function TailResult(result: nat, x: nat, bitpos: nat): (r: nat)
    requires result < U32
    ensures r < U32
  {
    if bitpos >= 32 then result else OrShift32(result, x, bitpos)
  }

  lemma TailUnfolds(s: seq<Byte>, bitpos: nat, result: nat, r: Parse<nat>) returns (result': nat)
    requires result < U32 && bitpos <= 100 && Varint32Tail(s, bitpos, result) == r && r.Ok?
    ensures s != [] && result' == TailResult(result, s[0] % 128, bitpos)
    ensures if s[0] >= 128 then Varint32Tail(s[1..], bitpos + 7, result') == r else r == Ok(result', s[1..])
  {
    NextPosition(bitpos);
    result' := TailResult(result, s[0] % 128, bitpos);
  }

  lemma {:induction false} TailWidens(s: seq<Byte>, k: nat, n: nat, result: nat, r: Parse<nat>) returns (high: nat)
    requires k >= 1 && k + n == 10 && result < U32 && (k <= 4 ==> result < Pow128(k))
    requires Varint32Tail(s, 7 * k, result) == r && r.Ok? && |s| - |r.rest| <= n
    ensures RawVarint(s, n) == Ok(high, r.rest)
    ensures r.value == (result + Pow128(k) * high) % U32
    decreases n
  {
    var result' := TailUnfolds(s, 7 * k, result, r);
    TailStep(k, result, s[0] % 128);
    if s[0] >= 128 {
      var rest := TailWidens(s[1..], k + 1, n - 1, result', r);
      high := TailJoins(s, k, n, result, result', rest, r);
    } else {
      high := TailLast(s, k, n, result, result', r);
    }
  }

  lemma TailLast(s: seq<Byte>, k: nat, n: nat, result: nat, result': nat, r: Parse<nat>) returns (high: nat)
    requires n > 0 && s != [] && s[0] < 128 && result' < U32 && r == Ok(result', s[1..])
    requires result' % U32 == (result + Pow128(k) * (s[0] % 128)) % U32
    ensures RawVarint(s, n) == Ok(high, r.rest)
    ensures r.value == (result + Pow128(k) * high) % U32
  {
    high := s[0];
    RawVarintShort(s, n);
    assert s[0] % 128 == high;
    LastGroup(result', (result + Pow128(k) * high) % U32);
  }

  lemma LastGroup(a: nat, b: nat)
    requires a < U32 && a % U32 == b
    ensures a == b
  {
  }

  lemma TailJoins(s: seq<Byte>, k: nat, n: nat, result: nat, result': nat, rest: nat, r: Parse<nat>) returns (high: nat)
    requires n > 0 && s != [] && s[0] >= 128 && r.Ok?
    requires result' % U32 == (result + Pow128(k) * (s[0] % 128)) % U32
    requires RawVarint(s[1..], n - 1) == Ok(rest, r.rest) && r.value == (result' + Pow128(k + 1) * rest) % U32
    ensures RawVarint(s, n) == Ok(high, r.rest)
    ensures r.value == (result + Pow128(k) * high) % U32
  {
    RawVarintLong(s, n);
    high := s[0] - 128 + 128 * rest;
    TailSum(Pow128(k), Pow128(k + 1), result, result', s[0] % 128, rest, high);
  }

  /** One byte of the 32-bit loop adds its group, modulo 2^32. */
  lemma TailStep(k: nat, result: nat, x: nat)
    requires k >= 1 && result < U32 && x < 128 && (k <= 4 ==> result < Pow128(k))
    ensures var result' := TailResult(result, x, 7 * k);
            result' % U32 == (result + Pow128(k) * x) % U32 && (k <= 3 ==> result' < Pow128(k + 1))
  {
    if k <= 3 {
      TailStepLow(k, result, x);
    } else if k == 4 {
      TailStepFifth(result, x);
    } else {
      TailStepHigh(k, result, x);
    }
  }

  lemma TailStepLow(k: nat, result: nat, x: nat)
    requires 1 <= k <= 3 && x < 128 && result < Pow128(k)
    ensures Pow128(k) <= U32
    ensures TailResult(result, x, 7 * k) == result + Pow128(k) * x < Pow128(k + 1)
  {
    OrShiftLow(result, x, k);
  }

  lemma TailStepHigh(k: nat, result: nat, x: nat)
    requires k >= 5 && result < U32
    ensures TailResult(result, x, 7 * k) % U32 == (result + Pow128(k) * x) % U32
  {
    WordMultiple(k);
    AddMultiple(result, Pow128(k) / U32, x);
  }

  lemma TailStepFifth(result: nat, x: nat)
    requires x < 128 && result < Pow128(4)
    ensures Pow128(4) == POW_28
    ensures TailResult(result, x, 28) % U32 == (result + Pow128(4) * x) % U32
  {
    Pow128Values();
    FifthShift(x, result);
    NibbleOverflow(x, result);
  }

  lemma NibbleOverflow(x: nat, result: nat)
    requires x < 128 && result < POW_28
    ensures (result + (x % 16) * POW_28) % U32 == (result + POW_28 * x) % U32
  {
    assert result + POW_28 * x == result + (x % 16) * POW_28 + (x / 16) * U32;
  }

  lemma {:induction false} WordMultiple(k: nat)
    requires 5 <= k
    ensures Pow128(k) == Pow128(k) / U32 * U32
  {
    if k == 5 {
      Pow128Values();
    } else {
      WordMultiple(k - 1);
    }
  }

  lemma AddMultiple(a: nat, q: nat, x: nat)
    ensures (a + (q * U32) * x) % U32 == a % U32
  {
    assert a + (q * U32) * x == a + (q * x) * U32;
    DropMultiple(a, q * x);
  }

  lemma DropMultiple(a: nat, m: nat)
    ensures (a + m * U32) % U32 == a % U32
  {
  }

  /** Adding the next group first, or the whole rest at once, is the same modulo 2^32. */
  lemma TailSum(p: nat, p': nat, result: nat, result': nat, x: nat, high: nat, y: nat)
    requires result' % U32 == (result + p * x) % U32 && p' == 128 * p && y == x + 128 * high
    ensures (result' + p' * high) % U32 == (result + p * y) % U32
  {
    var c := 128 * p * high;
    assert p * y == p * x + c;
    ModAdd(result', result + p * x, c);
  }

  lemma ModAdd(a: nat, b: nat, c: nat)
    requires a % U32 == b % U32
    ensures (a + c) % U32 == (b + c) % U32
  {
    assert a == a / U32 * U32 + a % U32 && b == b / U32 * U32 + b % U32;
    DropMultiple(a % U32 + c, a / U32);
    DropMultiple(b % U32 + c, b / U32);
  }

  /** Whatever varint of at most ten bytes pb_decode_varint32 accepts, pb_decode_varint accepts too: same
      bytes consumed, same low 32 bits. */
  lemma Varint32Widens(s: seq<Byte>)
    requires Varint32(s).Ok? && |s| - |Varint32(s).rest| <= 10
    ensures Varint64(s).Ok? && Varint64(s).rest == Varint32(s).rest
    ensures Varint64(s).value % U32 == Varint32(s).value
  {
    if s[0] < 128 {
      RawVarintShort(s, MAX_VARINT);
    } else {
      assert Pow128(1) == 128;
      var high := TailWidens(s[1..], 1, 9, s[0] - 128, Varint32(s));
      RawVarintLong(s, MAX_VARINT);
      assert Varint32(s).value == (s[0] - 128 + 128 * high) % U32;
      LowWord(s[0] - 128 + 128 * high);
    }
  }

  lemma LowWord(v: nat)
    ensures v % U64 % U32 == v % U32
  {
    assert v == v / U64 * U64 + v % U64;
    DropMultiple(v % U64, v / U64 * U32);
  }

  lemma RawVarintShort(s: seq<Byte>, n: nat)
    requires n > 0 && s != [] && s[0] < 128
    ensures RawVarint(s, n) == Ok(s[0], s[1..])
  {
  }

  lemma RawVarintLong(s: seq<Byte>, n: nat)
    requires n > 0 && s != [] && s[0] >= 128 && RawVarint(s[1..], n - 1).Ok?
    ensures RawVarint(s, n) == Ok(s[0] - 128 + 128 * RawVarint(s[1..], n - 1).value, RawVarint(s[1..], n - 1).rest)
  {
  }

  /** A negative int32 in its ten-byte encoding is read back by the 32-bit reader, as two's complement. */
  lemma Varint32SignExtended(n: int, t: seq<Byte>)
    requires -0x8000_0000 <= n < 0
    ensures Varint32(Varint(ToU64(n)) + t) == Ok(U32 + n, t)
    ensures |Varint(ToU64(n))| == MAX_VARINT
  {
    var u := U64 + n;
    assert ToU64(n) == u;
    Varint32Canonical(u, t);
    NarrowSplit(u, U32 + n, U32 - 1, t);
    SignRun();
    VarintAtMostTen(u);
    Pow128Values();
    VarintAtLeast(u, 9);
  }

  lemma SignRun()
    ensures SignGroups((U32 - 1) / 8, 4)
  {
    var h := (U32 - 1) / 8;
    assert h / 128 / 128 / 128 / 128 == 1;
    assert SignGroups(1, 0);
    assert SignGroups(h / 128 / 128 / 128, 1);
    assert SignGroups(h / 128 / 128, 2);
    assert SignGroups(h / 128, 3);
  }

  lemma {:induction false} VarintAtLeast(v: nat, n: nat)
    requires n >= 1 && v >= Pow128(n)
    ensures |Varint(v)| > n
  {
    if n == 1 {
    } else {
      VarintAtLeast(v / 128, n - 1);
    }
  }

  // ---------------------------------------------------------------- zigzag and fixed width words

  /** The zigzag pair restores every 64-bit signed value, and small magnitudes get small codes. */
  lemma ZigZagInverts(n: int)
    requires -0x8000_0000_0000_0000 <= n < POW_63
    ensures UnZigZag(ZigZag(n)) == n
    ensures ZigZag(n) == if n < 0 then -2 * n - 1 else 2 * n
  {
    if n < 0 {
      DoubledNegative(n);
      UnZigZagOdd(-1 - n);
    } else {
      UnZigZagEven(n);
    }
  }

  lemma DoubledNegative(n: int)
    requires -0x8000_0000_0000_0000 <= n < 0
    ensures ToU64(n) == U64 + n && ToU64(n) * 2 % U64 == U64 + 2 * n
  {
    assert (U64 + n) * 2 == U64 + (U64 + 2 * n);
  }

  lemma UnZigZagOdd(k: nat)
    requires k < POW_63
    ensures UnZigZag(2 * k + 1) == -1 - k
  {
    assert (2 * k + 1) / 2 == k && (2 * k + 1) % 2 == 1;
  }

  lemma UnZigZagEven(k: nat)
    requires k < POW_63
    ensures UnZigZag(2 * k) == k
  {
    assert 2 * k / 2 == k && 2 * k % 2 == 0;
  }

  /** Every 64-bit code is the zigzag of exactly the value it decodes to. */
  lemma UnZigZagInverts(u: nat)
    requires u < U64
    ensures -0x8000_0000_0000_0000 <= UnZigZag(u) < POW_63 && ZigZag(UnZigZag(u)) == u
  {
    if u % 2 == 1 {
      var w := U64 - 1 - u / 2;
      assert POW_63 <= w < U64;
      assert UnZigZag(u) == w - U64 == -1 - u / 2;
      ZigZagInverts(-1 - u / 2);
    } else {
      assert UnZigZag(u) == u / 2;
      ZigZagInverts(u / 2);
    }
  }

  lemma {:induction false} LittleEndianInverts(v: nat, n: nat)
    requires v < Pow2(8 * n)
    ensures FromLittleEndian(LittleEndian(v, n)) == v
  {
    if n == 0 {
    } else {
      Pow2Step7(8 * (n - 1));
      assert Pow2(8 * n) == 2 * Pow2(8 * n - 1) == 256 * Pow2(8 * (n - 1));
      LittleEndianInverts(v / 256, n - 1);
      assert LittleEndian(v, n)[1..] == LittleEndian(v / 256, n - 1);
    }
  }

  /** Reading a word of n bytes gives a value of that width whose bytes are the ones read. */
  lemma {:induction false} FromLittleEndianInverts(bs: seq<Byte>)
    ensures FromLittleEndian(bs) < Pow2(8 * |bs|)
    ensures LittleEndian(FromLittleEndian(bs), |bs|) == bs
  {
    if bs == [] {
    } else {
      var n := |bs|;
      Pow2Step7(8 * (n - 1));
      assert Pow2(8 * n) == 2 * Pow2(8 * n - 1) == 256 * Pow2(8 * (n - 1));
      FromLittleEndianInverts(bs[1..]);
      var rest := FromLittleEndian(bs[1..]);
      assert FromLittleEndian(bs) % 256 == bs[0] && FromLittleEndian(bs) / 256 == rest;
      assert bs == [bs[0]] + bs[1..];
    }
  }
}
