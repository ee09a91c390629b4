/** The fields_seen bitmap of pb_decode_noinit: two 32-bit words that stand for the set of required fields seen. */
module Bitmap {
  import opened Bits
  import opened Pb
  import Wire

  predicate Bit(w: nat, k: nat)
  {
    if k == 0 then w % 2 == 1 else Bit(w / 2, k - 1)
  }

  lemma {:induction false} NoBits(k: nat)
    ensures !Bit(0, k)
  {
    if k == 0 {
    } else {
      NoBits(k - 1);
    }
  }

  lemma {:induction false} BitOfOr(a: nat, b: nat, k: nat)
    ensures Bit(BitOr(a, b), k) <==> Bit(a, k) || Bit(b, k)
  {
    if a == 0 {
      NoBits(k);
    } else if k > 0 {
      BitOfOr(a / 2, b / 2, k - 1);
    }
  }

  lemma {:induction false} BitOfPow2(j: nat, k: nat)
    ensures Bit(Pow2(j), k) <==> j == k
  {
    if j == 0 && k > 0 {
      NoBits(k - 1);
    } else if j > 0 && k > 0 {
      BitOfPow2(j - 1, k - 1);
    }
  }

  lemma {:induction false} BitOfOnes(n: nat, k: nat)
    ensures Bit(Pow2(n) - 1, k) <==> k < n
  {
    if n == 0 {
      NoBits(k);
    } else {
      assert (Pow2(n) - 1) / 2 == Pow2(n - 1) - 1;
      if k > 0 {
        BitOfOnes(n - 1, k - 1);
      }
    }
  }

  lemma {:induction false} BitsDetermine(a: nat, b: nat, m: nat)
    requires a < Pow2(m) && b < Pow2(m)
    requires forall k :: 0 <= k < m ==> (Bit(a, k) <==> Bit(b, k))
    ensures a == b
  {
    if m == 0 {
    } else {
      assert Bit(a, 0) <==> Bit(b, 0);
      forall k | 0 <= k < m - 1 ensures Bit(a / 2, k) <==> Bit(b / 2, k) {
        assert Bit(a, k + 1) <==> Bit(b, k + 1);
      }
      BitsDetermine(a / 2, b / 2, m - 1);
    }
  }

  const ALL_BITS: nat := U32 - 1

  /** `w >> n` */
  function Shr(w: nat, n: nat): nat
  {
    if n == 0 then w else Shr(w / 2, n - 1)
  }

  lemma {:induction false} ShiftedOnes(n: nat, k: nat)
    requires k <= n
    ensures Shr(Pow2(n) - 1, k) == Pow2(n - k) - 1
  {
    if k == 0 {
    } else {
      assert (Pow2(n) - 1) / 2 == Pow2(n - 1) - 1;
      ShiftedOnes(n - 1, k - 1);
    }
  }

  /** `allbits >> (32 - r)` is r ones. */
  lemma LowOnes(r: nat)
    requires r <= 32
    ensures Shr(ALL_BITS, 32 - r) == Pow2(r) - 1
  {
    Pow2Values();
    ShiftedOnes(32, 32 - r);
  }

  /** The word holds the members of `seen` among the 32 from `base` on. */
  ghost predicate Holds(word: nat, base: nat, seen: set<nat>)
  {
    word < U32 && forall k :: 0 <= k < 32 ==> (Bit(word, k) <==> base + k in seen)
  }

  /** The words hold exactly the set `seen`. */
  ghost predicate Represents(words: seq<nat>, seen: set<nat>)
  {
    && |words| == 2
    && (forall k :: k in seen ==> k < PB_MAX_REQUIRED_FIELDS)
    && Holds(words[0], 0, seen)
    && Holds(words[1], 32, seen)
  }

  lemma StaysInWord(word: nat, j: nat)
    requires word < U32 && j < 32
    ensures BitOr(word, Pow2(j)) < U32
  {
    Pow2Values();
    Pow2Monotone(j + 1, 32);
    Wire.BitOrBound(word, Pow2(j), 32);
  }

  lemma WordMarks(word: nat, base: nat, seen: set<nat>, j: nat)
    requires Holds(word, base, seen) && j < 32
    ensures Holds(BitOr(word, Pow2(j)), base, seen + {base + j})
  {
    StaysInWord(word, j);
    forall k | 0 <= k < 32 ensures Bit(BitOr(word, Pow2(j)), k) <==> base + k in seen + {base + j} {
      BitOfOr(word, Pow2(j), k);
      BitOfPow2(j, k);
    }
  }

  lemma WordKeeps(word: nat, base: nat, seen: set<nat>, index: nat)
    requires Holds(word, base, seen) && (index < base || index >= base + 32)
    ensures Holds(word, base, seen + {index})
  {
  }

  /** `fields_seen[index >> 5] |= 1 << (index & 31)` adds the index. */
  lemma Marks(words: seq<nat>, seen: set<nat>, index: nat)
    requires Represents(words, seen) && index < PB_MAX_REQUIRED_FIELDS
    ensures Represents(words[index / 32 := BitOr(words[index / 32], Pow2(index % 32))], seen + {index})
  {
    if index < 32 {
      WordMarks(words[0], 0, seen, index);
      WordKeeps(words[1], 32, seen, index);
    } else {
      WordMarks(words[1], 32, seen, index - 32);
      WordKeeps(words[0], 0, seen, index);
    }
  }

  /** Of the 32 bits of the word, the first r are set and no others. */
  ghost predicate Run(word: nat, r: nat)
  {
    forall k :: 0 <= k < 32 ==> (Bit(word, k) <==> k < r)
  }

  lemma WordIsOnes(word: nat, ones: nat, r: nat)
    requires word < U32 && r <= 32 && ones == Pow2(r) - 1
    ensures word == ones <==> Run(word, r)
  {
    forall k | 0 <= k < 32 ensures Bit(ones, k) <==> k < r {
      BitOfOnes(r, k);
    }
    if Run(word, r) {
      Pow2Monotone(r, 32);
      Pow2Values();
      BitsDetermine(word, ones, 32);
    } else {
      assert Run(ones, r);
    }
  }

  /** A word tests equal to r ones exactly when the first r of its fields have all been seen. */
  lemma WordTest(word: nat, base: nat, seen: set<nat>, r: nat, ones: nat)
    requires Holds(word, base, seen) && r <= 32 && ones == Pow2(r) - 1
    requires forall k :: k in seen ==> k < base + r || k >= base + 32
    ensures word == ones <==> forall k :: base <= k < base + r ==> k in seen
  {
    WordIsOnes(word, ones, r);
    if forall k :: base <= k < base + r ==> k in seen {
      forall j | 0 <= j < 32 ensures Bit(word, j) <==> j < r {
        assert Bit(word, j) <==> base + j in seen;
      }
      assert Run(word, r);
    }
    if word == ones {
      forall k | base <= k < base + r ensures k in seen {
        assert Bit(word, k - base) <==> base + (k - base) in seen;
      }
    }
  }

  /** The final checks of pb_decode_noinit pass exactly when every required field, up to the first 64, was seen. */
  method RequiredPresent(fieldsSeen: array<nat>, requiredCount: nat, ghost seen: set<nat>) returns (ok: bool)
    requires Represents(fieldsSeen[..], seen)
    requires forall k :: k in seen ==> k < requiredCount
    ensures ok == forall k :: 0 <= k < requiredCount && k < PB_MAX_REQUIRED_FIELDS ==> k in seen
  {
    var reqFieldCount := if requiredCount > PB_MAX_REQUIRED_FIELDS then PB_MAX_REQUIRED_FIELDS else requiredCount;
    LowOnes(32);
    if reqFieldCount > 0 {
      var words := reqFieldCount / 32;
      for i := 0 to words
        invariant forall k :: 0 <= k < 32 * i ==> k in seen
      {
        WordTest(fieldsSeen[i], 32 * i, seen, 32, ALL_BITS);
        if fieldsSeen[i] != ALL_BITS {
          return false;
        }
      }
      var left := reqFieldCount % 32;
      if left != 0 {
        LowOnes(left);
        WordTest(fieldsSeen[words], 32 * words, seen, left, Shr(ALL_BITS, 32 - left));
        if fieldsSeen[words] != Shr(ALL_BITS, 32 - left) {
          return false;
        }
      }
    }
    ok := true;
  }
}
