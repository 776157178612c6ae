/** The Fletcher-64 checksum of an APFS object (crates/fs-apfs/src/obj.rs:77-109). */
module Fletcher {
  import opened Arith
  import opened Bytes

  const MOD: nat := 0xFFFF_FFFF

  datatype Sums = Sums(sum1: nat, sum2: nat)

  predicate Reduced(s: Sums) { s.sum1 < MOD && s.sum2 < MOD }

  function Add(s: Sums, w: nat): (r: Sums)
    ensures Reduced(r)
  {
    var sum1 := (s.sum1 + w) % MOD;
    Sums(sum1, (s.sum2 + sum1) % MOD)
  }

  function Fold(s: Sums, words: seq<nat>): Sums {
    if words == [] then s else Add(Fold(s, words[..|words| - 1]), words[|words| - 1])
  }

  const ZERO: Sums := Sums(0, 0)

  /** The two check words, low and high. */
  function Check1(s: Sums): (c: nat)
    ensures 0 < c <= MOD
  {
    MOD - (s.sum1 + s.sum2) % MOD
  }

  function Check2(s: Sums): (c: nat)
    ensures 0 < c <= MOD
  {
    MOD - (s.sum1 + Check1(s)) % MOD
  }

  /** The whole words after the eight bytes of the checksum. */
  function Words(block: seq<Byte>): (ws: seq<nat>)
    ensures |ws| == WordCount(block)
  {
    seq<nat>(WordCount(block), i requires 0 <= i < WordCount(block) => WordAt(block, i))
  }

  function WordCount(block: seq<Byte>): nat { if |block| < 8 then 0 else (|block| - 8) / 4 }

  function WordAt(block: seq<Byte>, i: nat): nat { LeU32(block, 8 + 4 * i) }

  function Check(block: seq<Byte>): nat {
    var s := Fold(ZERO, Words(block));
    Check2(s) * 0x1_0000_0000 + Check1(s)
  }

  predicate Valid(block: seq<Byte>) { |block| >= 8 && LeU64(block, 0) == Check(block) }

  /** The sums over the first `n` words of a block. */
  function SumsTo(block: seq<Byte>, n: nat): Sums {
    if n == 0 then ZERO else Add(SumsTo(block, n - 1), WordAt(block, n - 1))
  }

  lemma {:induction false} SumsToIsFold(block: seq<Byte>, n: nat)
    requires n <= WordCount(block)
    ensures SumsTo(block, n) == Fold(ZERO, Words(block)[..n])
  {
    if n > 0 {
      SumsToIsFold(block, n - 1);
      assert Words(block)[..n][..n - 1] == Words(block)[..n - 1];
    }
  }

  lemma WordOfBody(block: seq<Byte>, body: seq<Byte>, i: nat)
    requires |block| >= 8 && body == block[8..] && i < WordCount(block)
    ensures LeU32(body, i * 4) == WordAt(block, i)
  {
  }

  /** The loop over the words of the body. */
  method SumWords(ghost block: seq<Byte>, body: seq<Byte>, words: nat) returns (sum1: nat, sum2: nat)
    requires words == WordCount(block) && body == (if |block| < 8 then [] else block[8..])
    ensures Sums(sum1, sum2) == SumsTo(block, words)
  {
    sum1, sum2 := 0, 0;
    for i := 0 to words
      invariant Sums(sum1, sum2) == SumsTo(block, i)
    {
      WordOfBody(block, body, i);
      var w := LeU32(body, i * 4);
      sum1 := (sum1 + w) % MOD;
      sum2 := (sum2 + sum1) % MOD;
    }
  }

  method Fletcher64Check(block: seq<Byte>) returns (r: nat)
    ensures r == Check(block)
  {
    var body := if |block| < 8 then [] else block[8..];
    var words := |body| / 4;
    var sum1, sum2 := SumWords(block, body, words);
    SumsToIsFold(block, words);
    assert Words(block)[..words] == Words(block);
    var c1: nat := MOD - ((sum1 + sum2) % MOD);
    var c2: nat := MOD - ((sum1 + c1) % MOD);
    r := c2 * 0x1_0000_0000 + c1;
  }

  method Fletcher64Valid(block: seq<Byte>) returns (ok: bool)
    ensures ok <==> Valid(block)
  {
    if |block| < 8 {
      return false;
    }
    var check := Fletcher64Check(block);
    return LeU64(block, 0) == check;
  }

  // ------------------------------------------------------------------- closed sums

  function Sum(ws: seq<nat>): nat { if ws == [] then 0 else ws[0] + Sum(ws[1..]) }

  /** Each word as often as there are words from it on. */
  function Weighted(ws: seq<nat>): nat { if ws == [] then 0 else |ws| * ws[0] + Weighted(ws[1..]) }

  lemma {:induction false} SumSnoc(ws: seq<nat>, w: nat)
    ensures Sum(ws + [w]) == Sum(ws) + w && Weighted(ws + [w]) == Weighted(ws) + Sum(ws) + w
  {
    if ws != [] {
      assert (ws + [w])[1..] == ws[1..] + [w];
      SumSnoc(ws[1..], w);
      Distrib(|ws|, 1, ws[0]);
    }
  }

  lemma ModAdd(a: nat, b: nat)
    ensures (a % MOD + b) % MOD == (a + b) % MOD
  {
  }

  lemma ModAddTwice(a: nat, b: nat)
    ensures (a % MOD + b % MOD) % MOD == (a + b) % MOD
  {
    ModAdd(a, b % MOD);
    ModAdd(b, a);
  }

  /** The loop computes the plain and the weighted sum modulo 2^32 - 1. */
  lemma {:induction false} FoldIsSums(ws: seq<nat>)
    ensures Fold(ZERO, ws) == Sums(Sum(ws) % MOD, Weighted(ws) % MOD)
  {
    if ws != [] {
      var before, w := ws[..|ws| - 1], ws[|ws| - 1];
      FoldIsSums(before);
      assert ws == before + [w];
      SumSnoc(before, w);
      AddIsSums(Sum(before), Weighted(before), w);
    }
  }

  lemma AddIsSums(sum: nat, weighted: nat, w: nat)
    ensures Add(Sums(sum % MOD, weighted % MOD), w) == Sums((sum + w) % MOD, (weighted + sum + w) % MOD)
  {
    ModAdd(sum, w);
    ModAddTwice(weighted, sum + w);
  }

  // ----------------------------------------------------------- what the check fixes

  lemma {:induction false} FoldIsReduced(s: Sums, ws: seq<nat>)
    requires Reduced(s)
    ensures Reduced(Fold(s, ws))
  {
  }

  lemma ZeroFrom(s: nat)
    ensures (s + (MOD - s % MOD)) % MOD == 0
  {
  }

  lemma FoldTwo(s: Sums, ws: seq<nat>, x: nat, y: nat)
    ensures Fold(s, ws + [x, y]) == Add(Add(Fold(s, ws), x), y)
  {
    assert (ws + [x, y])[..|ws| + 1] == ws + [x];
    assert (ws + [x])[..|ws|] == ws;
  }

  /** Followed by its own two check words, a body sums to nothing. */
  lemma CheckWordsCancel(ws: seq<nat>)
    ensures Fold(ZERO, ws + [Check1(Fold(ZERO, ws)), Check2(Fold(ZERO, ws))]) == ZERO
  {
    var s := Fold(ZERO, ws);
    var c1, c2 := Check1(s), Check2(s);
    FoldTwo(ZERO, ws, c1, c2);
    FoldIsReduced(ZERO, ws);
    SumsCancel(s, c1, c2);
  }

  lemma SumsCancel(s: Sums, c1: nat, c2: nat)
    requires Reduced(s) && c1 == Check1(s) && c2 == Check2(s)
    ensures Add(Add(s, c1), c2) == ZERO
  {
    ZeroFrom(s.sum1 + s.sum2);
    ZeroFrom(s.sum1 + c1);
    ModAdd(s.sum1 + c1, s.sum2);
    ModAdd(s.sum1 + c1, c2);
  }

  lemma SameRemainder(x: nat, y: nat, c: nat)
    requires x < MOD && y < MOD && (x + c) % MOD == (y + c) % MOD
    ensures x == y
  {
  }

  /** The check words determine both sums. */
  lemma CheckDetermines(s: Sums, t: Sums)
    requires Reduced(s) && Reduced(t)
    ensures Check1(s) == Check1(t) && Check2(s) == Check2(t) <==> s == t
  {
    if Check1(s) == Check1(t) && Check2(s) == Check2(t) {
      SameRemainder(s.sum1, t.sum1, Check1(s));
      SameRemainder(s.sum2, t.sum2, s.sum1);
    }
  }

  lemma AddIsInjective(s: Sums, t: Sums, w: nat)
    requires Reduced(s) && Reduced(t) && Add(s, w) == Add(t, w)
    ensures s == t
  {
    SameRemainder(s.sum1, t.sum1, w);
    SameRemainder(s.sum2, t.sum2, (s.sum1 + w) % MOD);
  }

  /** Different sums stay different over the same words. */
  lemma {:induction false} FoldIsInjective(s: Sums, t: Sums, ws: seq<nat>)
    requires Reduced(s) && Reduced(t) && Fold(s, ws) == Fold(t, ws)
    ensures s == t
  {
    if ws != [] {
      var before := ws[..|ws| - 1];
      FoldIsReduced(s, before);
      FoldIsReduced(t, before);
      AddIsInjective(Fold(s, before), Fold(t, before), ws[|ws| - 1]);
      FoldIsInjective(s, t, before);
    }
  }

  lemma {:induction false} FoldConcat(s: Sums, a: seq<nat>, b: seq<nat>)
    ensures Fold(s, a + b) == Fold(Fold(s, a), b)
    decreases |b|
  {
    if b == [] {
      assert a + b == a;
    } else {
      assert (a + b)[..|a + b| - 1] == a + b[..|b| - 1];
      FoldConcat(s, a, b[..|b| - 1]);
    }
  }

  lemma RemaindersTell(c: nat, x: nat, y: nat)
    ensures (c + x) % MOD == (c + y) % MOD <==> x % MOD == y % MOD
  {
    ModAdd(x, c);
    ModAdd(y, c);
    if (c + x) % MOD == (c + y) % MOD {
      SameRemainder(x % MOD, y % MOD, c);
    }
  }

  lemma AddTells(s: Sums, x: nat, y: nat)
    ensures Add(s, x) == Add(s, y) <==> x % MOD == y % MOD
  {
    RemaindersTell(s.sum1, x, y);
  }

  /** A changed word is noticed unless it is the same modulo 2^32 - 1. */
  lemma ChangeIsSeenIff(a: seq<nat>, x: nat, y: nat, b: seq<nat>)
    ensures Fold(ZERO, a + [x] + b) == Fold(ZERO, a + [y] + b) <==> x % MOD == y % MOD
  {
    FoldConcat(ZERO, a + [x], b);
    FoldConcat(ZERO, a + [y], b);
    assert (a + [x])[..|a|] == a && (a + [y])[..|a|] == a;
    var s := Fold(ZERO, a);
    AddTells(s, x, y);
    if Fold(ZERO, a + [x] + b) == Fold(ZERO, a + [y] + b) {
      FoldIsInjective(Add(s, x), Add(s, y), b);
    }
  }

  lemma TwoAdds(s: Sums, x: nat, y: nat)
    ensures Add(Add(s, x), y)
         == Sums((s.sum1 + x + y) % MOD, ((s.sum1 + x) % MOD + (s.sum2 + (s.sum1 + x + y) % MOD)) % MOD)
  {
    ModAdd(s.sum1 + x, y);
    ModAdd(s.sum2 + (s.sum1 + x) % MOD, (s.sum1 + x + y) % MOD);
  }

  lemma SwapTells(s: Sums, x: nat, y: nat)
    ensures Add(Add(s, x), y) == Add(Add(s, y), x) <==> x % MOD == y % MOD
  {
    TwoAdds(s, x, y);
    TwoAdds(s, y, x);
    RemaindersTell(s.sum1, x, y);
    var p, q, c := (s.sum1 + x) % MOD, (s.sum1 + y) % MOD, s.sum2 + (s.sum1 + x + y) % MOD;
    if (p + c) % MOD == (q + c) % MOD {
      SameRemainder(p, q, c);
    }
  }

  /** Two neighbouring words that change places are noticed unless they are the
      same modulo 2^32 - 1. */
  lemma SwapIsSeenIff(a: seq<nat>, x: nat, y: nat, b: seq<nat>)
    ensures Fold(ZERO, a + [x, y] + b) == Fold(ZERO, a + [y, x] + b) <==> x % MOD == y % MOD
  {
    FoldConcat(ZERO, a + [x, y], b);
    FoldConcat(ZERO, a + [y, x], b);
    FoldTwo(ZERO, a, x, y);
    FoldTwo(ZERO, a, y, x);
    FoldIsReduced(ZERO, a);
    var s := Fold(ZERO, a);
    SwapTells(s, x, y);
    if Fold(ZERO, a + [x, y] + b) == Fold(ZERO, a + [y, x] + b) {
      FoldIsInjective(Add(Add(s, x), y), Add(Add(s, y), x), b);
    }
  }

  /** Of two words, only 0 and 2^32 - 1 are the same modulo 2^32 - 1. */
  lemma SameWordIff(x: nat, y: nat)
    requires x < 0x1_0000_0000 && y < 0x1_0000_0000
    ensures x % MOD == y % MOD <==> x == y || (x == 0 && y == MOD) || (x == MOD && y == 0)
  {
  }

  // ------------------------------------------------------------------------- blocks

  lemma CheckIffSums(a: seq<Byte>, b: seq<Byte>)
    ensures Check(a) == Check(b) <==> Fold(ZERO, Words(a)) == Fold(ZERO, Words(b))
  {
    var s, t := Fold(ZERO, Words(a)), Fold(ZERO, Words(b));
    FoldIsReduced(ZERO, Words(a));
    FoldIsReduced(ZERO, Words(b));
    CheckDetermines(s, t);
    if Check(a) == Check(b) {
      HalvesAreEqual(Check2(s), Check1(s), Check2(t), Check1(t));
    }
  }

  lemma HalvesAreEqual(h: nat, l: nat, h': nat, l': nat)
    requires l < 0x1_0000_0000 && l' < 0x1_0000_0000 && h * 0x1_0000_0000 + l == h' * 0x1_0000_0000 + l'
    ensures h == h' && l == l'
  {
  }

  /** One byte of a word: the word changes, and never from 0 to 2^32 - 1 or back. */
  lemma ByteChangesWord(block: seq<Byte>, i: nat, x: Byte, k: nat)
    requires i < |block| && 8 + 4 * k <= i < 12 + 4 * k <= |block| && x != block[i]
    ensures WordAt(block[i := x], k) % MOD != WordAt(block, k) % MOD
  {
    var v: int, w: int := WordAt(block, k), WordAt(block[i := x], k);
    var at := 8 + 4 * k;
    var scale := [1, 0x100, 0x1_0000, 0x100_0000][i - at];
    assert w - v == (x as int - block[i] as int) * scale;
    SameWordIff(v, w);
  }

  lemma OtherWords(block: seq<Byte>, i: nat, x: Byte, k: nat)
    requires i < |block| && k < WordCount(block) && !(8 + 4 * k <= i < 12 + 4 * k)
    ensures WordAt(block[i := x], k) == WordAt(block, k)
  {
  }

  lemma WordChange(block: seq<Byte>, i: nat, x: Byte, k: nat)
    requires i < |block| && k < WordCount(block) && 8 + 4 * k <= i < 12 + 4 * k && x != block[i]
    ensures Fold(ZERO, Words(block[i := x])) != Fold(ZERO, Words(block))
  {
    var ws, ws' := Words(block), Words(block[i := x]);
    forall j | 0 <= j < |ws| && j != k ensures ws'[j] == ws[j] {
      OtherWords(block, i, x, j);
    }
    assert ws == ws[..k] + [ws[k]] + ws[k + 1..];
    assert ws' == ws[..k] + [ws'[k]] + ws[k + 1..];
    ByteChangesWord(block, i, x, k);
    ChangeIsSeenIff(ws[..k], ws'[k], ws[k], ws[k + 1..]);
  }

  lemma StoredChange(block: seq<Byte>, i: nat, x: Byte)
    requires i < 8 <= |block| && x != block[i]
    ensures LeU64(block[i := x], 0) != LeU64(block, 0)
  {
    var b := block[i := x];
    if i < 4 {
      assert LeU32(b, 0) != LeU32(block, 0);
    } else {
      assert LeU32(b, 4) != LeU32(block, 4);
    }
    HalvesDiffer(LeU32(b, 4), LeU32(b, 0), LeU32(block, 4), LeU32(block, 0));
  }

  lemma HalvesDiffer(h: nat, l: nat, h': nat, l': nat)
    requires l < 0x1_0000_0000 && l' < 0x1_0000_0000 && (h != h' || l != l')
    ensures l + 0x1_0000_0000 * h != l' + 0x1_0000_0000 * h'
  {
  }

  /** A block that is accepted is refused after any one byte has changed, except
      for the bytes after its last whole word, which nothing covers. */
  lemma OneByteIsSeenIff(block: seq<Byte>, i: nat, x: Byte)
    requires Valid(block) && i < |block| && x != block[i]
    ensures Valid(block[i := x]) <==> i >= 8 + 4 * WordCount(block)
  {
    var b := block[i := x];
    CheckIffSums(block, b);
    if 8 <= i < 8 + 4 * WordCount(block) {
      WordChange(block, i, x, (i - 8) / 4);
    } else {
      forall k | 0 <= k < WordCount(block) ensures Words(b)[k] == Words(block)[k] {
        OtherWords(block, i, x, k);
      }
      assert Words(b) == Words(block);
      if i < 8 {
        StoredChange(block, i, x);
      }
    }
  }

  // ---------------------------------------------------------------------- on disk

  /** Words as bytes, one after the other. */
  function BytesOf(ws: seq<nat>): (b: seq<Byte>)
    requires forall i | 0 <= i < |ws| :: ws[i] < 0x1_0000_0000
    ensures |b| == 4 * |ws|
  {
    if ws == [] then [] else BytesOf(ws[..|ws| - 1]) + ToLe32(ws[|ws| - 1])
  }

  lemma {:induction false} WordInBytes(b: seq<Byte>, at: nat, ws: seq<nat>, i: nat)
    requires i < |ws| && forall j | 0 <= j < |ws| :: ws[j] < 0x1_0000_0000
    requires At(b, at, BytesOf(ws))
    ensures LeU32(b, at + 4 * i) == ws[i]
    decreases |ws|
  {
    var last := |ws| - 1;
    AtSplit(b, at, BytesOf(ws[..last]), ToLe32(ws[last]));
    if i < last {
      WordInBytes(b, at, ws[..last], i);
    } else {
      Reads32(b, at + 4 * last, ws[last]);
    }
  }

  lemma WordsOfBytes(block: seq<Byte>, ws: seq<nat>)
    requires forall i | 0 <= i < |ws| :: ws[i] < 0x1_0000_0000
    requires At(block, 8, BytesOf(ws)) && |block| < 12 + 4 * |ws|
    ensures Words(block) == ws
  {
    HowManyWords(block, |ws|);
    forall i | 0 <= i < |ws| ensures Words(block)[i] == ws[i] {
      BodyWord(block, ws, i);
    }
  }

  lemma HowManyWords(block: seq<Byte>, n: nat)
    requires 8 + 4 * n <= |block| < 12 + 4 * n
    ensures WordCount(block) == n && |Words(block)| == n
  {
  }

  lemma BodyWord(block: seq<Byte>, ws: seq<nat>, i: nat)
    requires forall i | 0 <= i < |ws| :: ws[i] < 0x1_0000_0000
    requires At(block, 8, BytesOf(ws)) && i < |ws| && WordCount(block) == |ws|
    ensures Words(block)[i] == ws[i]
  {
    WordInBytes(block, 8, ws, i);
    assert Words(block)[i] == WordAt(block, i);
  }

  lemma StoredHalves(block: seq<Byte>, h: nat, l: nat)
    requires |block| >= 8 && h < 0x1_0000_0000 && l < 0x1_0000_0000
    ensures LeU64(block, 0) == h * 0x1_0000_0000 + l <==> LeU32(block, 0) == l && LeU32(block, 4) == h
  {
    var h', l' := LeU32(block, 4), LeU32(block, 0);
    if LeU64(block, 0) == h * 0x1_0000_0000 + l {
      HalvesAreEqual(h, l, h', l');
    }
  }

  /** A block of two stored words, a body of words and up to three bytes more has
      these words to check, and is accepted exactly if the stored ones are the two
      check words, the first one first. */
  lemma BlockOfWords(block: seq<Byte>, c1: nat, c2: nat, ws: seq<nat>)
    requires c1 < 0x1_0000_0000 && c2 < 0x1_0000_0000
    requires forall i | 0 <= i < |ws| :: ws[i] < 0x1_0000_0000
    requires At(block, 0, ToLe32(c1)) && At(block, 4, ToLe32(c2)) && At(block, 8, BytesOf(ws))
    requires |block| < 12 + 4 * |ws|
    ensures Words(block) == ws
    ensures Valid(block) <==> c1 == Check1(Fold(ZERO, ws)) && c2 == Check2(Fold(ZERO, ws))
  {
    Reads32(block, 0, c1);
    Reads32(block, 4, c2);
    WordsOfBytes(block, ws);
    var s := Fold(ZERO, ws);
    StoredHalves(block, Check2(s), Check1(s));
  }

  /** In an accepted block the body followed by the two stored words sums to nothing. */
  lemma StoredWordsCancel(block: seq<Byte>)
    requires Valid(block)
    ensures Fold(ZERO, Words(block) + [LeU32(block, 0), LeU32(block, 4)]) == ZERO
  {
    CheckWordsCancel(Words(block));
  }
}
