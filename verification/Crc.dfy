/** The two CRC-32 routines, one driven by a table and one bit by bit
    (crates/reclaim-carve/src/crc.rs:5-41, crates/reclaim-part/src/crc.rs:6-16). */
module Crc {
  import opened Bytes
  import opened Bits

  const POLY: nat := 0xEDB8_8320
  const ALL_ONES: nat := 0xFFFF_FFFF
  const BYTE_BITS: nat := 8
  const WORD_BITS: nat := 32

  /** One bit is shifted out. */
  function Step(c: nat): nat { if c % 2 == 1 then Xor(POLY, c / 2) else c / 2 }

  function Steps(c: nat, k: nat): nat { if k == 0 then c else Step(Steps(c, k - 1)) }

  function Feed(c: nat, data: seq<Byte>): nat {
    if data == [] then c else Steps(Xor(Feed(c, data[..|data| - 1]), data[|data| - 1]), BYTE_BITS)
  }

  /** The checksum, in terms of single bits. */
  function Crc32(data: seq<Byte>): nat { Xor(Feed(ALL_ONES, data), ALL_ONES) }

  // --------------------------------------------------------------------- linearity

  lemma StepIsLinear(x: nat, y: nat)
    ensures Step(Xor(x, y)) == Xor(Step(x), Step(y))
  {
    XorHalf(x, y);
    var a, b := x / 2, y / 2;
    XorAssociates(POLY, a, b);
    if x % 2 == 1 && y % 2 == 1 {
      XorCommutes(POLY, a);
      XorAssociates(a, POLY, Xor(POLY, b));
      XorAssociates(POLY, POLY, b);
      XorSelf(POLY);
      XorZero(b);
    } else if y % 2 == 1 {
      XorCommutes(POLY, a);
      XorAssociates(a, POLY, b);
    }
  }

  lemma {:induction false} StepsAreLinear(x: nat, y: nat, k: nat)
    ensures Steps(Xor(x, y), k) == Xor(Steps(x, k), Steps(y, k))
  {
    if k > 0 {
      StepsAreLinear(x, y, k - 1);
      StepIsLinear(Steps(x, k - 1), Steps(y, k - 1));
    }
  }

  /** Zero bits are shifted out without a trace. */
  lemma {:induction false} StepsOfShifted(q: nat, j: nat, k: nat)
    requires j <= k
    ensures Steps(Shl(q, k), j) == Shl(q, k - j)
  {
    if j > 0 {
      StepsOfShifted(q, j - 1, k);
    }
  }

  /** What makes a table of the values of one byte enough. */
  lemma StepsByTable(x: nat, k: nat)
    ensures Steps(x, k) == Xor(Steps(Low(x, k), k), Shr(x, k))
  {
    SplitWord(x, k);
    XorJoins(Low(x, k), Shr(x, k), k);
    StepsAreLinear(Low(x, k), Shl(Shr(x, k), k), k);
    StepsOfShifted(Shr(x, k), k, k);
  }

  /** One turn of the table-driven loop. */
  lemma TurnByTable(c: nat, b: Byte)
    ensures Steps(Xor(c, b), BYTE_BITS) == Xor(Steps(Xor(c, b) % 256, BYTE_BITS), c / 256)
  {
    ShrByte(Xor(c, b));
    ShrByte(c);
    ShrByte(b);
    XorShifts(c, b, BYTE_BITS);
    XorZero(c / 256);
    StepsByTable(Xor(c, b), BYTE_BITS);
  }

  // ------------------------------------------------------------------ the routines

  /** `table`: an entry for every value of a byte. */
  method Table() returns (t: array<nat>)
    ensures fresh(t) && t.Length == 256
    ensures forall n | 0 <= n < 256 :: t[n] == Steps(n, BYTE_BITS)
  {
    t := new nat[256](_ => 0);
    var n: nat := 0;
    while n < 256
      invariant n <= 256 && t.Length == 256
      invariant forall m | 0 <= m < n :: t[m] == Steps(m, BYTE_BITS)
    {
      var c := n;
      var k: nat := 0;
      while k < BYTE_BITS
        invariant k <= BYTE_BITS && c == Steps(n, k)
      {
        c := if c % 2 != 0 then Xor(POLY, c / 2) else c / 2;
        k := k + 1;
      }
      t[n] := c;
      n := n + 1;
    }
  }

  lemma FeedNext(c: nat, data: seq<Byte>, i: nat)
    requires i < |data|
    ensures Feed(c, data[..i + 1]) == Steps(Xor(Feed(c, data[..i]), data[i]), BYTE_BITS)
  {
    assert data[..i + 1][..i] == data[..i];
  }

  /** Table-driven. */
  method Crc32ByTable(data: seq<Byte>) returns (r: nat)
    ensures r == Crc32(data)
  {
    var t := Table();
    var c: nat := ALL_ONES;
    for i := 0 to |data|
      invariant t.Length == 256 && forall n | 0 <= n < 256 :: t[n] == Steps(n, BYTE_BITS)
      invariant c == Feed(ALL_ONES, data[..i])
    {
      FeedNext(ALL_ONES, data, i);
      TurnByTable(c, data[i]);
      var idx := Xor(c, data[i]) % 256;
      assert t[idx] == Steps(idx, BYTE_BITS);
      c := Xor(t[idx], c / 256);
    }
    assert data[..|data|] == data;
    r := Xor(c, ALL_ONES);
  }

  /** Bit by bit, the polynomial under a mask in place of a branch. */
  method Crc32ByBits(data: seq<Byte>) returns (r: nat)
    ensures r == Crc32(data)
  {
    var crc: nat := ALL_ONES;
    for i := 0 to |data|
      invariant crc == Feed(ALL_ONES, data[..i])
    {
      assert data[..i + 1][..i] == data[..i];
      crc := Xor(crc, data[i]);
      ghost var before := crc;
      for k := 0 to BYTE_BITS
        invariant crc == Steps(before, k)
      {
        var masked: nat := if crc % 2 == 1 then POLY else 0;
        XorCommutes(crc / 2, masked);
        crc := Xor(crc / 2, masked);
      }
    }
    assert data[..|data|] == data;
    r := Xor(crc, ALL_ONES);
  }

  // --------------------------------------------------------------------- detection

  predicate IsWord(x: nat) { Shr(x, WORD_BITS) == 0 }

  lemma Down(x: nat, k: nat)
    ensures Shr(x, 8 + k) == Shr(x / 256, k)
  {
    ShrMore(x, 8, k);
    ShrByte(x);
  }

  /** A number of four bytes, from its top byte. */
  lemma TopByte(x: nat, k: nat)
    ensures Shr(x, 24 + k) == Shr(x / 256 / 256 / 256, k)
  {
    Down(x, 16 + k);
    Down(x / 256, 8 + k);
    Down(x / 256 / 256, k);
  }

  lemma Words()
    ensures IsWord(ALL_ONES) && IsWord(POLY) && Shr(POLY, 31) == 1
  {
    TopByte(ALL_ONES, 8);
    TopByte(POLY, 8);
    TopByte(POLY, 7);
    ShrByte(0xFF);
    ShrByte(0xED);
    assert Shr(0xED, 7) == Shr(118, 6) && Shr(118, 6) == Shr(59, 5) && Shr(59, 5) == Shr(29, 4);
    ShrNibble(29);
  }

  lemma XorIsWord(x: nat, y: nat)
    requires IsWord(x) && IsWord(y)
    ensures IsWord(Xor(x, y))
  {
    XorShifts(x, y, WORD_BITS);
  }

  /** The top bit tells which way a step went. */
  lemma StepTop(x: nat)
    requires IsWord(x)
    ensures IsWord(Step(x)) && Shr(Step(x), 31) == x % 2
  {
    Words();
    assert Shr(x / 2, 31) == Shr(x, 32);
    ShrMore(x / 2, 31, 1);
    XorShifts(POLY, x / 2, 31);
    XorIsWord(POLY, x / 2);
  }

  lemma StepIsInjective(x: nat, y: nat)
    requires IsWord(x) && IsWord(y) && Step(x) == Step(y)
    ensures x == y
  {
    StepTop(x);
    StepTop(y);
    if x % 2 == 1 {
      XorCommutes(POLY, x / 2);
      XorCommutes(POLY, y / 2);
      XorCancels(x / 2, y / 2, POLY);
    }
    SameHalves(x, y);
  }

  lemma {:induction false} StepsAreWords(x: nat, k: nat)
    requires IsWord(x)
    ensures IsWord(Steps(x, k))
  {
    if k > 0 {
      StepsAreWords(x, k - 1);
      StepTop(Steps(x, k - 1));
    }
  }

  lemma {:induction false} StepsAreInjective(x: nat, y: nat, k: nat)
    requires IsWord(x) && IsWord(y) && Steps(x, k) == Steps(y, k)
    ensures x == y
  {
    if k > 0 {
      StepsAreWords(x, k - 1);
      StepsAreWords(y, k - 1);
      StepIsInjective(Steps(x, k - 1), Steps(y, k - 1));
      StepsAreInjective(x, y, k - 1);
    }
  }

  lemma Wider(x: nat, j: nat, k: nat)
    requires Shr(x, j) == 0
    ensures Shr(x, j + k) == 0
  {
    ShrMore(x, j, k);
    ShrOfZero(k);
  }

  lemma {:induction false} FeedConcat(c: nat, a: seq<Byte>, b: seq<Byte>)
    ensures Feed(c, a + b) == Feed(Feed(c, a), b)
    decreases |b|
  {
    if b == [] {
      assert a + b == a;
    } else {
      assert (a + b)[..|a + b| - 1] == a + b[..|b| - 1];
      FeedConcat(c, a, b[..|b| - 1]);
    }
  }

  /** The bytes as one little-endian number. */
  function Number(a: seq<Byte>): nat { if a == [] then 0 else 256 * Number(a[1..]) + a[0] as int }

  lemma {:induction false} NumberFits(a: seq<Byte>)
    ensures Shr(Number(a), BYTE_BITS * |a|) == 0
  {
    if a != [] {
      NumberFits(a[1..]);
      ShrByte(Number(a));
      ShrMore(Number(a), 8, BYTE_BITS * (|a| - 1));
    }
  }

  lemma {:induction false} NumberIsInjective(a: seq<Byte>, b: seq<Byte>)
    requires |a| == |b| && Number(a) == Number(b)
    ensures a == b
  {
    if a != [] {
      NumberIsInjective(a[1..], b[1..]);
      assert a == [a[0]] + a[1..] && b == [b[0]] + b[1..];
    }
  }

  lemma {:induction false} StepsCompose(x: nat, j: nat, k: nat)
    ensures Steps(Steps(x, j), k) == Steps(x, j + k)
  {
    if k > 0 {
      StepsCompose(x, j, k - 1);
    }
  }

  /** A number that is met after a byte is a byte further up before it. */
  lemma MeetLater(x: nat, w: nat)
    ensures Xor(Steps(x, BYTE_BITS), w) == Steps(Xor(x, 256 * w), BYTE_BITS)
  {
    ShrByte(w);
    StepsAreLinear(x, Shl(w, BYTE_BITS), BYTE_BITS);
    StepsOfShifted(w, BYTE_BITS, BYTE_BITS);
  }

  /** Some bytes at once: the state meets them as one number. */
  lemma {:induction false} FeedIsOneNumber(c: nat, a: seq<Byte>)
    ensures Feed(c, a) == Steps(Xor(c, Number(a)), BYTE_BITS * |a|)
    decreases |a|
  {
    if a == [] {
      XorZero(c);
    } else {
      var rest := a[1..];
      assert a == [a[0]] + rest;
      FeedConcat(c, [a[0]], rest);
      FeedOne(c, a[0]);
      FeedIsOneNumber(Steps(Xor(c, a[0]), BYTE_BITS), rest);
      OneMoreByte(c, a[0], Number(rest), BYTE_BITS * |rest|);
    }
  }

  /** A byte and then a number of `n` bits, or both at once. */
  lemma OneMoreByte(c: nat, b: Byte, w: nat, n: nat)
    ensures Steps(Xor(Steps(Xor(c, b), BYTE_BITS), w), n) == Steps(Xor(c, 256 * w + b), BYTE_BITS + n)
  {
    MeetLater(Xor(c, b), w);
    StepsCompose(Xor(Xor(c, b), 256 * w), BYTE_BITS, n);
    JoinFirst(c, b, w);
  }

  lemma FeedOne(c: nat, b: Byte)
    ensures Feed(c, [b]) == Steps(Xor(c, b), BYTE_BITS)
  {
    assert [b][..0] == [];
  }

  lemma JoinFirst(c: nat, b: Byte, w: nat)
    ensures Xor(Xor(c, b), 256 * w) == Xor(c, 256 * w + b)
  {
    ShrByte(w);
    ShrByte(b);
    XorAssociates(c, b, 256 * w);
    XorJoins(b, w, BYTE_BITS);
  }

  // -------------------------------------------------------------------------- bursts

  /** Bit `j` of a message, in the order in which the checksum takes them. */
  predicate BitAt(x: seq<Byte>, j: nat)
    requires j < BYTE_BITS * |x|
  {
    GetBit(x[j / BYTE_BITS], j % BYTE_BITS)
  }

  lemma {:induction false} BitOfNumber(x: seq<Byte>, j: nat)
    requires j < BYTE_BITS * |x|
    ensures GetBit(Number(x), j) <==> BitAt(x, j)
    decreases |x|
  {
    BitOfJoin(x[0], Number(x[1..]), j);
    if j >= BYTE_BITS {
      BitOfNumber(x[1..], j - BYTE_BITS);
      assert x[1..][(j - BYTE_BITS) / BYTE_BITS] == x[j / BYTE_BITS];
    }
  }

  lemma BitOfJoin(low: Byte, high: nat, j: nat)
    ensures GetBit(256 * high + low, j) <==> if j < BYTE_BITS then GetBit(low, j) else GetBit(high, j - BYTE_BITS)
  {
    ShrByte(high);
    ShrByte(low);
    JoinedBits(low, high, BYTE_BITS, j);
  }

  /** The messages differ at most in 32 neighbouring bits, from bit `s` on. */
  ghost predicate DifferInBurst(x: seq<Byte>, y: seq<Byte>, s: nat)
    requires |x| == |y|
  {
    forall j: nat | j < BYTE_BITS * |x| && !(s <= j < s + WORD_BITS) :: BitAt(x, j) == BitAt(y, j)
  }

  function Difference(x: seq<Byte>, y: seq<Byte>): nat { Xor(Number(x), Number(y)) }

  lemma DifferenceFits(x: seq<Byte>, y: seq<Byte>)
    requires |x| == |y|
    ensures Shr(Difference(x, y), BYTE_BITS * |x|) == 0
  {
    NumberFits(x);
    NumberFits(y);
    XorShifts(Number(x), Number(y), BYTE_BITS * |x|);
  }

  lemma DifferenceBit(x: seq<Byte>, y: seq<Byte>, s: nat, j: nat)
    requires |x| == |y| && DifferInBurst(x, y, s) && !(s <= j < s + WORD_BITS)
    ensures !GetBit(Difference(x, y), j)
  {
    var n := BYTE_BITS * |x|;
    if j < n {
      BitOfNumber(x, j);
      BitOfNumber(y, j);
      XorGet(Number(x), Number(y), j);
    } else {
      DifferenceFits(x, y);
      ShrGet(Difference(x, y), n, j - n);
      ZeroHasNoBits(j - n);
    }
  }

  /** The difference is one word, moved up. */
  lemma BurstIsAWord(x: seq<Byte>, y: seq<Byte>, s: nat)
    requires |x| == |y| && DifferInBurst(x, y, s)
    ensures Difference(x, y) == Shl(Shr(Difference(x, y), s), s) && IsWord(Shr(Difference(x, y), s))
  {
    var d, n := Difference(x, y), BYTE_BITS * |x|;
    forall j: nat | j < s ensures !GetBit(d, j) {
      DifferenceBit(x, y, s, j);
    }
    LowBitsClear(d, s);
    var top := Shr(d, s + WORD_BITS);
    DifferenceFits(x, y);
    Wider(d, n, s + WORD_BITS);
    ShrMore(d, s + WORD_BITS, n);
    forall j: nat | j < n ensures !GetBit(top, j) {
      ShrGet(d, s + WORD_BITS, j);
      DifferenceBit(x, y, s, s + WORD_BITS + j);
    }
    NoBitsIsZero(top, n);
    ShrMore(d, s, WORD_BITS);
  }

  /** Equal checksums: the difference leaves nothing behind. */
  lemma SameChecksum(x: seq<Byte>, y: seq<Byte>)
    requires |x| == |y| && Crc32(x) == Crc32(y)
    ensures Steps(Difference(x, y), BYTE_BITS * |x|) == 0
  {
    var n, c := BYTE_BITS * |x|, ALL_ONES;
    XorCancels(Feed(c, x), Feed(c, y), c);
    FeedIsOneNumber(c, x);
    FeedIsOneNumber(c, y);
    StepsAreLinear(Xor(c, Number(x)), Xor(c, Number(y)), n);
    XorSelf(Feed(c, x));
    XorOfBoth(c, Number(x), Number(y));
  }

  lemma XorOfBoth(c: nat, x: nat, y: nat)
    ensures Xor(Xor(c, x), Xor(c, y)) == Xor(x, y)
  {
    XorCommutes(c, x);
    XorAssociates(x, c, Xor(c, y));
    XorAssociates(c, c, y);
    XorSelf(c);
    XorZero(y);
  }

  lemma {:induction false} StepsOfZero(k: nat)
    ensures Steps(0, k) == 0
  {
    if k > 0 {
      StepsOfZero(k - 1);
    }
  }

  /** A word that is moved up and shifted out leaves something, unless it is 0. */
  lemma MovedWordIsSeen(v: nat, s: nat, n: nat)
    requires IsWord(v) && Shr(Shl(v, s), n) == 0 && Steps(Shl(v, s), n) == 0
    ensures Shl(v, s) == 0
  {
    if s <= n {
      StepsOfShifted(v, s, s);
      StepsCompose(Shl(v, s), s, n - s);
      StepsOfZero(n - s);
      ShrOfZero(WORD_BITS);
      StepsAreInjective(v, 0, n - s);
      ShlOfZero(s);
    } else {
      ShrShl(v, n, s);
      ShlIsPositive(v, s - n);
      ShlOfZero(s);
    }
  }

  lemma {:induction false} ShlIsPositive(v: nat, k: nat)
    ensures Shl(v, k) == 0 ==> v == 0
  {
    if k > 0 {
      ShlIsPositive(v, k - 1);
    }
  }

  /** Any change inside 32 neighbouring bits, wherever they begin, changes the
      checksum; so does any change inside four neighbouring bytes. */
  lemma BurstIsDetected(x: seq<Byte>, y: seq<Byte>, s: nat)
    requires |x| == |y| && DifferInBurst(x, y, s)
    ensures Crc32(x) == Crc32(y) <==> x == y
  {
    if Crc32(x) == Crc32(y) {
      var d := Difference(x, y);
      BurstIsAWord(x, y, s);
      SameChecksum(x, y);
      DifferenceFits(x, y);
      MovedWordIsSeen(Shr(d, s), s, BYTE_BITS * |x|);
      XorSelf(Number(y));
      XorCancels(Number(x), Number(y), Number(y));
      NumberIsInjective(x, y);
    }
  }

  // ------------------------------------------------------- the standard's checksum

  lemma HigherBit(x: nat, i: nat)
    ensures GetBit(x, 8 + i) <==> GetBit(x / 256, i)
  {
    ShrGet(x, 8, i);
    ShrByte(x);
  }

  /** Bit `8 * n + i` of a word of four bytes. */
  lemma BitOfWord(x: nat, n: nat, i: nat)
    requires n < 4 && i < 8
    ensures GetBit(x, 8 * n + i) <==> GetBit([x, x / 256, x / 256 / 256, x / 256 / 256 / 256][n], i)
  {
    var y := x / 256;
    var z := y / 256;
    if n == 1 {
      HigherBit(x, i);
    } else if n == 2 {
      HigherBit(x, 8 + i);
      HigherBit(y, i);
    } else if n == 3 {
      HigherBit(x, 16 + i);
      HigherBit(y, 8 + i);
      HigherBit(z, i);
    }
  }

  /** The polynomial of the standard, its highest power in the lowest bit. */
  lemma PolynomialOfTheStandard(n: nat, i: nat)
    requires n < 4 && i < 8
    ensures GetBit(POLY, 8 * n + i) <==> i in [{5}, {0, 1, 7}, {3, 4, 5, 7}, {0, 2, 3, 5, 6, 7}][n]
  {
    BitOfWord(POLY, n, i);
    BitOfByte([0xEDB8_8320, 0xED_B883, 0xEDB8, 0xED][n], i);
  }

  /** A checksum begins with all 32 bits set. */
  lemma BeginsWithOnes(n: nat, i: nat)
    requires n < 4 && i < 8
    ensures GetBit(Feed(ALL_ONES, []), 8 * n + i)
  {
    BitOfWord(ALL_ONES, n, i);
    BitOfByte([0xFFFF_FFFF, 0xFF_FFFF, 0xFFFF, 0xFF][n], i);
  }

  lemma OfNothing()
    ensures Crc32([]) == 0
  {
    XorSelf(ALL_ONES);
  }
}
