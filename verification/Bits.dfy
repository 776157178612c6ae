/** Single bits of a machine word, the word being a natural number.
    `GetBit(w, i)` is `w & (1 << i) != 0`, `SetBit` is `w | (1 << i)`,
    `ClearBit` is `w & !(1 << i)`, `Ones` is the population count and `Xor` is `^`. */
module Bits {
  import opened Arith

  predicate GetBit(w: nat, i: nat)
    decreases i
  {
    if i == 0 then w % 2 == 1 else GetBit(w / 2, i - 1)
  }

  function SetBit(w: nat, i: nat): nat
    decreases i
  {
    if i == 0 then w / 2 * 2 + 1 else SetBit(w / 2, i - 1) * 2 + w % 2
  }

  function ClearBit(w: nat, i: nat): nat
    decreases i
  {
    if i == 0 then w / 2 * 2 else ClearBit(w / 2, i - 1) * 2 + w % 2
  }

  function Ones(w: nat): nat {
    if w == 0 then 0 else w % 2 + Ones(w / 2)
  }

  /** A word of `k` bits. */
  predicate Fits(w: nat, k: nat)
    decreases k
  {
    if k == 0 then w == 0 else Fits(w / 2, k - 1)
  }

  lemma {:induction false} SetBitGet(w: nat, i: nat, j: nat)
    ensures GetBit(SetBit(w, i), j) <==> i == j || GetBit(w, j)
    decreases i
  {
    if i > 0 {
      assert SetBit(w, i) / 2 == SetBit(w / 2, i - 1) && SetBit(w, i) % 2 == w % 2;
      if j > 0 {
        SetBitGet(w / 2, i - 1, j - 1);
      }
    } else if j > 0 {
      assert SetBit(w, 0) / 2 == w / 2;
    }
  }

  lemma {:induction false} ClearBitGet(w: nat, i: nat, j: nat)
    ensures GetBit(ClearBit(w, i), j) <==> i != j && GetBit(w, j)
    decreases i
  {
    if i > 0 {
      assert ClearBit(w, i) / 2 == ClearBit(w / 2, i - 1) && ClearBit(w, i) % 2 == w % 2;
      if j > 0 {
        ClearBitGet(w / 2, i - 1, j - 1);
      }
    } else if j > 0 {
      assert ClearBit(w, 0) / 2 == w / 2;
    }
  }

  lemma {:induction false} BitsFit(w: nat, i: nat, k: nat)
    requires Fits(w, k) && i < k
    ensures Fits(SetBit(w, i), k) && Fits(ClearBit(w, i), k)
    decreases k
  {
    if i > 0 {
      assert SetBit(w, i) / 2 == SetBit(w / 2, i - 1);
      assert ClearBit(w, i) / 2 == ClearBit(w / 2, i - 1);
      BitsFit(w / 2, i - 1, k - 1);
    } else {
      assert SetBit(w, 0) / 2 == w / 2 && ClearBit(w, 0) / 2 == w / 2;
    }
  }

  lemma {:induction false} ZeroHasNoBits(i: nat)
    ensures !GetBit(0, i)
  {
    if i > 0 {
      ZeroHasNoBits(i - 1);
    }
  }

  lemma {:induction false} ZeroFits(k: nat)
    ensures Fits(0, k)
  {
    if k > 0 {
      ZeroFits(k - 1);
    }
  }

  /** A word that is not zero has some bit, below any width it fits. */
  lemma {:induction false} NonZeroHasABit(w: nat, k: nat) returns (i: nat)
    requires Fits(w, k) && w != 0
    ensures i < k && GetBit(w, i)
    decreases k
  {
    if w % 2 == 1 {
      i := 0;
    } else {
      i := NonZeroHasABit(w / 2, k - 1);
      i := i + 1;
    }
  }

  /** How many of the bits below `k` are set. */
  function CountBits(w: nat, k: nat): nat {
    if k == 0 then 0 else CountBits(w, k - 1) + (if GetBit(w, k - 1) then 1 else 0)
  }

  lemma {:induction false} CountShift(w: nat, k: nat)
    ensures CountBits(w, k + 1) == w % 2 + CountBits(w / 2, k)
  {
    if k > 0 {
      CountShift(w, k - 1);
    }
  }

  lemma {:induction false} OnesCountsBits(w: nat, k: nat)
    requires Fits(w, k)
    ensures Ones(w) == CountBits(w, k)
    decreases k
  {
    if k > 0 {
      CountShift(w, k - 1);
      OnesCountsBits(w / 2, k - 1);
    }
  }

  /** `x >> k`. */
  function Shr(x: nat, k: nat): nat
    decreases k
  {
    if k == 0 then x else Shr(x / 2, k - 1)
  }

  /** `x << k`, in a word that is wide enough. */
  function Shl(x: nat, k: nat): nat { if k == 0 then x else 2 * Shl(x, k - 1) }

  /** `x & ((1 << k) - 1)`. */
  function Low(x: nat, k: nat): nat
    decreases k
  {
    if k == 0 then 0 else 2 * Low(x / 2, k - 1) + x % 2
  }

  function Xor(a: nat, b: nat): nat {
    if a == 0 then b else if b == 0 then a else 2 * Xor(a / 2, b / 2) + (if a % 2 != b % 2 then 1 else 0)
  }

  lemma XorHalf(a: nat, b: nat)
    ensures Xor(a, b) / 2 == Xor(a / 2, b / 2)
    ensures Xor(a, b) % 2 == if a % 2 != b % 2 then 1 else 0
  {
  }

  lemma SameHalves(x: nat, y: nat)
    requires x / 2 == y / 2 && x % 2 == y % 2
    ensures x == y
  {
  }

  lemma {:induction false} XorCommutes(a: nat, b: nat)
    ensures Xor(a, b) == Xor(b, a)
  {
    if a > 0 && b > 0 {
      XorCommutes(a / 2, b / 2);
    }
  }

  lemma {:induction false} XorAssociates(a: nat, b: nat, c: nat)
    ensures Xor(Xor(a, b), c) == Xor(a, Xor(b, c))
  {
    if a > 0 && b > 0 && c > 0 {
      XorAssociates(a / 2, b / 2, c / 2);
      XorHalf(a, b);
      XorHalf(b, c);
      XorHalf(Xor(a, b), c);
      XorHalf(a, Xor(b, c));
      SameHalves(Xor(Xor(a, b), c), Xor(a, Xor(b, c)));
    } else {
      XorZero(a);
      XorZero(Xor(a, b));
    }
  }

  lemma XorZero(a: nat)
    ensures Xor(a, 0) == a && Xor(0, a) == a
  {
  }

  lemma {:induction false} XorSelf(a: nat)
    ensures Xor(a, a) == 0
  {
    if a > 0 {
      XorSelf(a / 2);
    }
  }

  lemma XorCancels(x: nat, y: nat, z: nat)
    requires Xor(x, z) == Xor(y, z)
    ensures x == y
  {
    XorAssociates(x, z, z);
    XorAssociates(y, z, z);
    XorSelf(z);
    XorZero(x);
    XorZero(y);
  }

  lemma {:induction false} XorShifts(a: nat, b: nat, k: nat)
    ensures Shr(Xor(a, b), k) == Xor(Shr(a, k), Shr(b, k))
    decreases k
  {
    if k > 0 {
      XorHalf(a, b);
      XorShifts(a / 2, b / 2, k - 1);
    }
  }

  /** Words that share no bits are joined. */
  lemma {:induction false} XorJoins(low: nat, high: nat, k: nat)
    requires Shr(low, k) == 0
    ensures Xor(low, Shl(high, k)) == Shl(high, k) + low
    decreases k
  {
    if k > 0 {
      XorJoins(low / 2, high, k - 1);
      XorHalf(low, Shl(high, k));
      SameHalves(Xor(low, Shl(high, k)), Shl(high, k) + low);
    } else {
      XorZero(high);
    }
  }

  /** A word is its low bits and the others. */
  lemma {:induction false} SplitWord(x: nat, k: nat)
    ensures Shl(Shr(x, k), k) + Low(x, k) == x && Shr(Low(x, k), k) == 0
    decreases k
  {
    if k > 0 {
      SplitWord(x / 2, k - 1);
      assert Low(x, k) / 2 == Low(x / 2, k - 1);
    }
  }

  lemma {:induction false} ShrMore(x: nat, j: nat, k: nat)
    ensures Shr(x, j + k) == Shr(Shr(x, j), k)
    decreases j
  {
    if j > 0 {
      ShrMore(x / 2, j - 1, k);
    }
  }

  lemma {:induction false} ShrOfZero(k: nat)
    ensures Shr(0, k) == 0
  {
    if k > 0 {
      ShrOfZero(k - 1);
    }
  }

  lemma ShrNibble(x: nat)
    ensures Shr(x, 4) == x / 16
  {
    var x1 := x / 2;
    var x2 := x1 / 2;
    var x3 := x2 / 2;
    assert Shr(x, 4) == Shr(x1, 3) && Shr(x1, 3) == Shr(x2, 2);
    assert Shr(x2, 2) == Shr(x3, 1) && Shr(x3, 1) == x3 / 2;
  }

  lemma ShlByte(x: nat)
    ensures Shl(x, 8) == 256 * x
  {
    assert Shl(x, 1) == 2 * x;
    assert Shl(x, 2) == 4 * x;
    assert Shl(x, 3) == 8 * x;
    assert Shl(x, 4) == 16 * x;
    assert Shl(x, 5) == 32 * x;
    assert Shl(x, 6) == 64 * x;
    assert Shl(x, 7) == 128 * x;
  }

  lemma ShrByte(x: nat)
    ensures Shr(x, 8) == x / 256 && Low(x, 8) == x % 256 && Shl(x, 8) == 256 * x
  {
    ShrMore(x, 4, 4);
    ShrNibble(x);
    ShrNibble(x / 16);
    SplitWord(x, 8);
    ShlByte(x / 256);
    ShlByte(x);
  }

  /** Bit `i` is the one whose power of two is `2^i`. */
  lemma BitOfByte(x: nat, i: nat)
    requires i < 8
    ensures GetBit(x, i) <==> x / [1, 2, 4, 8, 16, 32, 64, 128][i] % 2 == 1
  {
    if i < 4 {
      BitOfNibble(x, i);
    } else {
      ShrGet(x, 4, i - 4);
      ShrNibble(x);
      BitOfNibble(x / 16, i - 4);
      HighNibble(x, i - 4);
    }
  }

  lemma BitOfNibble(x: nat, i: nat)
    requires i < 4
    ensures GetBit(x, i) <==> x / [1, 2, 4, 8][i] % 2 == 1
  {
    var x1 := x / 2;
    var x2 := x1 / 2;
    var x3 := x2 / 2;
    if i == 1 {
      assert GetBit(x, 1) == GetBit(x1, 0);
    } else if i == 2 {
      assert GetBit(x, 2) == GetBit(x1, 1) && GetBit(x1, 1) == GetBit(x2, 0);
    } else if i == 3 {
      assert GetBit(x, 3) == GetBit(x1, 2) && GetBit(x1, 2) == GetBit(x2, 1) && GetBit(x2, 1) == GetBit(x3, 0);
    }
  }

  lemma HighNibble(x: nat, i: nat)
    requires i < 4
    ensures x / 16 / [1, 2, 4, 8][i] == x / [16, 32, 64, 128][i]
  {
  }

  // ------------------------------------------------------------- bits of a difference

  lemma {:induction false} XorGet(a: nat, b: nat, i: nat)
    ensures GetBit(Xor(a, b), i) <==> GetBit(a, i) != GetBit(b, i)
    decreases i
  {
    XorHalf(a, b);
    if i > 0 {
      XorGet(a / 2, b / 2, i - 1);
    }
  }

  lemma {:induction false} ShrGet(x: nat, k: nat, i: nat)
    ensures GetBit(Shr(x, k), i) <==> GetBit(x, k + i)
    decreases k
  {
    if k > 0 {
      ShrGet(x / 2, k - 1, i);
    }
  }

  /** A number without bits below `k` is a multiple. */
  lemma {:induction false} LowBitsClear(x: nat, k: nat)
    requires forall i: nat | i < k :: !GetBit(x, i)
    ensures x == Shl(Shr(x, k), k)
    decreases k
  {
    if k > 0 {
      assert !GetBit(x, 0);
      forall i: nat | i < k - 1 ensures !GetBit(x / 2, i) {
        assert !GetBit(x, i + 1);
      }
      LowBitsClear(x / 2, k - 1);
    }
  }

  lemma {:induction false} NoBitsIsZero(x: nat, k: nat)
    requires Shr(x, k) == 0 && forall i: nat | i < k :: !GetBit(x, i)
    ensures x == 0
  {
    LowBitsClear(x, k);
    ShlOfZero(k);
  }

  lemma {:induction false} ShlOfZero(k: nat)
    ensures Shl(0, k) == 0
  {
    if k > 0 {
      ShlOfZero(k - 1);
    }
  }

  lemma {:induction false} ShrShl(x: nat, j: nat, k: nat)
    requires j <= k
    ensures Shr(Shl(x, k), j) == Shl(x, k - j)
    decreases j
  {
    if j > 0 {
      ShrShl(x, j - 1, k - 1);
    }
  }

  lemma {:induction false} JoinedBits(low: nat, high: nat, k: nat, j: nat)
    requires Shr(low, k) == 0
    ensures GetBit(Shl(high, k) + low, j) <==> if j < k then GetBit(low, j) else GetBit(high, j - k)
    decreases k
  {
    if k > 0 {
      assert (Shl(high, k) + low) / 2 == Shl(high, k - 1) + low / 2;
      if j > 0 {
        JoinedBits(low / 2, high, k - 1, j - 1);
      }
    }
  }
}
