/** Bytes, and unsigned machine arithmetic on naturals: powers of two and the bitwise "or" of the C code. */
module Bits {

  const U32: nat := 0x1_0000_0000
  const U64: nat := 0x1_0000_0000_0000_0000

  datatype Option<+T> = None | Some(value: T)

  type Byte = x: int | 0 <= x < 256

  function Pow2(n: nat): (p: nat)
    ensures p >= 1
  {
    if n == 0 then 1 else 2 * Pow2(n - 1)
  }

  /** The bitwise `|` of two unsigned integers. */
  function BitOr(a: nat, b: nat): nat
  {
    if a == 0 then b else (if a % 2 == 1 || b % 2 == 1 then 1 else 0) + 2 * BitOr(a / 2, b / 2)
  }

  /** The bitwise `^` of two unsigned integers. */
  function BitXor(a: nat, b: nat): nat
  {
    if a == 0 then b else (if a % 2 != b % 2 then 1 else 0) + 2 * BitXor(a / 2, b / 2)
  }

  lemma Pow2Step7(n: nat)
    ensures Pow2(n + 7) == 128 * Pow2(n)
  {
    assert Pow2(n + 7) == 2 * Pow2(n + 6);
    assert Pow2(n + 5) == 2 * Pow2(n + 4);
    assert Pow2(n + 3) == 2 * Pow2(n + 2);
    assert Pow2(n + 2) == 2 * Pow2(n + 1);
  }

  lemma {:induction false} Pow2Monotone(a: nat, b: nat)
    requires a <= b
    ensures Pow2(a) <= Pow2(b)
    decreases b
  {
    if a == b {
    } else {
      Pow2Monotone(a, b - 1);
    }
  }

  /** The weight of the n-th group of seven bits. */
  function Pow128(n: nat): (p: nat)
    ensures p >= 1
  {
    if n == 0 then 1 else 128 * Pow128(n - 1)
  }

  lemma {:induction false} Pow128IsPow2(n: nat)
    ensures Pow128(n) == Pow2(7 * n)
  {
    if n == 0 {
    } else {
      Pow128IsPow2(n - 1);
      Pow2Step7(7 * (n - 1));
    }
  }

  lemma Pow128Values()
    ensures Pow128(4) == 0x1000_0000 && Pow128(5) == 0x8_0000_0000 && Pow128(8) == 0x100_0000_0000_0000 &&
            Pow128(10) == 64 * U64
  {
    assert Pow128(2) == 0x4000;
    assert Pow128(4) == 0x1000_0000;
    assert Pow128(6) == 0x400_0000_0000;
    assert Pow128(8) == 0x100_0000_0000_0000;
  }

  lemma Pow2Small()
    ensures Pow2(7) == 128 && Pow2(14) == 0x4000 && Pow2(21) == 0x20_0000 && Pow2(28) == 0x1000_0000
  {
    assert Pow2(0) == 1;
    Pow2Step7(0);
    Pow2Step7(7);
    Pow2Step7(14);
    Pow2Step7(21);
  }

  /** Pow2 at the widths the codec uses. */
  lemma Pow2Values()
    ensures Pow2(7) == 128 && Pow2(14) == 0x4000 && Pow2(21) == 0x20_0000 && Pow2(28) == 0x1000_0000
    ensures Pow2(31) == 0x8000_0000 && Pow2(32) == U32
    ensures Pow2(35) == 0x8_0000_0000 && Pow2(63) == 0x8000_0000_0000_0000 && Pow2(64) == U64
  {
    Pow2Small();
    Pow2Step7(28);
    Pow2Step7(35);
    Pow2Step7(42);
    Pow2Step7(49);
    Pow2Step7(56);
  }

  /** One position less: both numbers are halved. */
  lemma ShiftHalves(a: nat, x: nat, p: nat, y: nat) returns (half: nat)
    requires 0 < a < Pow2(p) && y == x * Pow2(p)
    ensures p > 0 && a / 2 < Pow2(p - 1) && half == x * Pow2(p - 1) && y == 2 * half
  {
    var q := Pow2(p - 1);
    half := x * q;
    Doubled(x, q);
  }

  lemma Doubled(x: nat, q: nat)
    ensures x * (2 * q) == 2 * (x * q)
  {
  }

  lemma OrHalves(a: nat, y: nat)
    requires a != 0 && BitOr(a / 2, y) == a / 2 + y
    ensures BitOr(a, 2 * y) == a + 2 * y
  {
    assert 2 * y / 2 == y && 2 * y % 2 == 0;
  }

  lemma XorHalves(a: nat, y: nat)
    requires a != 0 && BitXor(a / 2, y) == a / 2 + y
    ensures BitXor(a, 2 * y) == a + 2 * y
  {
    assert 2 * y / 2 == y && 2 * y % 2 == 0;
  }

  /** Shifting a value past the bits already present turns `|` into `+`. */
  lemma OrDisjoint(a: nat, x: nat, p: nat)
    requires a < Pow2(p)
    ensures BitOr(a, x * Pow2(p)) == a + x * Pow2(p)
  {
    OrAbove(a, x, p, x * Pow2(p));
  }

  lemma {:induction false} OrAbove(a: nat, x: nat, p: nat, y: nat)
    requires a < Pow2(p) && y == x * Pow2(p)
    ensures BitOr(a, y) == a + y
  {
    if a == 0 {
    } else {
      var half := ShiftHalves(a, x, p, y);
      OrAbove(a / 2, x, p - 1, half);
      OrHalves(a, half);
    }
  }

  /** And `^` as well. */
  lemma XorDisjoint(a: nat, x: nat, p: nat)
    requires a < Pow2(p)
    ensures BitXor(a, x * Pow2(p)) == a + x * Pow2(p)
  {
    XorAbove(a, x, p, x * Pow2(p));
  }

  lemma {:induction false} XorAbove(a: nat, x: nat, p: nat, y: nat)
    requires a < Pow2(p) && y == x * Pow2(p)
    ensures BitXor(a, y) == a + y
  {
    if a == 0 {
    } else {
      var half := ShiftHalves(a, x, p, y);
      XorAbove(a / 2, x, p - 1, half);
      XorHalves(a, half);
    }
  }
}
