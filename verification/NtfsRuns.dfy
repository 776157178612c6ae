/** NTFS mapping pairs, the extents they give, and MFT record addresses
    (crates/fs-ntfs/src/record.rs:306-370, crates/fs-ntfs/src/lib.rs:173-184, 593-614). */
module NtfsRuns {
  import opened Arith
  import opened Bytes
  import opened Wrappers
  import opened Extents

  const MAX_STEPS: nat := 100_000
  const MAX_RUNS: nat := 65_536

  datatype Run = Run(lcn: nat, length: nat, sparse: bool)

  // ------------------------------------------------- little-endian quantities

  function Pow256(n: nat): (p: nat)
    ensures p > 0 && (n > 0 ==> p % 2 == 0 && p >= 256)
  {
    if n == 0 then 1 else 256 * Pow256(n - 1)
  }

  /** The value of `n` bytes from `off` on. */
  function Unsigned(b: seq<Byte>, off: nat, n: nat): (v: nat)
    ensures v < Pow256(n)
  {
    if n == 0 then 0 else Unsigned(b, off, n - 1) + Scaled(ByteOrZero(b, off + n - 1), Pow256(n - 1))
  }

  function Scaled(x: Byte, p: nat): (v: nat)
    ensures v <= 255 * p
  {
    assert (255 - x) * p >= 0;
    assert (255 - x) * p == 255 * p - x * p;
    x * p
  }

  /** The same bits read as two's complement. */
  function AsSigned(v: nat, n: nat): int
  {
    if n > 0 && v >= Pow256(n) / 2 then v - Pow256(n) else v
  }

  function TwosComplement(d: int, n: nat): (v: nat)
    requires n > 0 && -(Pow256(n) / 2) <= d < Pow256(n) / 2
    ensures v < Pow256(n) && AsSigned(v, n) == d
  {
    if d < 0 then d + Pow256(n) else d
  }

  method ReadLeUnsigned(b: seq<Byte>, off: nat, size: nat) returns (v: nat)
    ensures v == Unsigned(b, off, Min(size, 8))
  {
    v := 0;
    for i := 0 to Min(size, 8)
      invariant v == Unsigned(b, off, i)
    {
      v := v + Scaled(ByteOrZero(b, off + i), Pow256(i));
    }
  }

  /** Sign extension of fewer than eight bytes; eight are an `i64` as they are. */
  method ReadLeSigned(b: seq<Byte>, off: nat, size: nat) returns (d: int)
    ensures d == AsSigned(Unsigned(b, off, Min(size, 8)), Min(size, 8))
  {
    var v := ReadLeUnsigned(b, off, size);
    if 0 < size < 8 {
      var signBit := Pow256(size) / 2;
      if v >= signBit {
        d := v - Pow256(size);
        return;
      }
      return v;
    }
    d := if size > 0 && v >= Pow256(8) / 2 then v - Pow256(8) else v;
  }

  const HALF_2_64: int := 0x8000_0000_0000_0000

  /** `i64::wrapping_add`. */
  function WrapI64(x: int): int { (x + HALF_2_64) % (2 * HALF_2_64) - HALF_2_64 }

  lemma WrapInRange(x: int)
    requires -HALF_2_64 <= x < HALF_2_64
    ensures WrapI64(x) == x
  {
  }

  // ------------------------------------------------------------ what these numbers are

  /** The sum wraps around in 64 bits: it stays in their range and moves by whole
      turns. */
  lemma WrapsAround(x: int)
    ensures -0x8000_0000_0000_0000 <= WrapI64(x) < 0x8000_0000_0000_0000
    ensures (WrapI64(x) - x) % 0x1_0000_0000_0000_0000 == 0
  {
    var turns := (x + HALF_2_64) / 0x1_0000_0000_0000_0000;
    assert WrapI64(x) - x == -turns * 0x1_0000_0000_0000_0000;
  }

  lemma PowersOf256()
    ensures Pow256(1) == 0x100 && Pow256(2) == 0x1_0000 && Pow256(4) == 0x1_0000_0000
    ensures Pow256(8) == 0x1_0000_0000_0000_0000
  {
    assert Pow256(2) == 256 * Pow256(1) && Pow256(3) == 256 * Pow256(2) && Pow256(4) == 256 * Pow256(3);
    assert Pow256(5) == 256 * Pow256(4) && Pow256(6) == 256 * Pow256(5) && Pow256(7) == 256 * Pow256(6);
    assert Pow256(8) == 256 * Pow256(7);
  }

  /** So does a signed field in its own width. */
  lemma SignedIsNear(v: nat, n: nat)
    requires n > 0 && v < Pow256(n)
    ensures 0 <= 2 * AsSigned(v, n) + Pow256(n) < 2 * Pow256(n)
    ensures AsSigned(v, n) == v || AsSigned(v, n) == v - Pow256(n)
  {
  }

  /** A field is the little-endian number in its first four bytes and what follows. */
  lemma FourBytes(b: seq<Byte>, off: nat, k: nat)
    requires off + 4 <= |b|
    ensures Unsigned(b, off, 4 + k) == LeU32(b, off) + 0x1_0000_0000 * Unsigned(b, off + 4, k)
  {
    UnsignedCons(b, off, 3 + k);
    UnsignedCons(b, off + 1, 2 + k);
    UnsignedCons(b, off + 2, 1 + k);
    UnsignedCons(b, off + 3, k);
  }

  /** A field of eight bytes or more is the little-endian number in the first eight. */
  lemma LongFieldIsCut(b: seq<Byte>, off: nat, size: nat)
    requires size >= 8 && off + 8 <= |b|
    ensures FieldAt(b, off, size) == LeU64(b, off)
    ensures SignedAt(b, off, size) == if LeU64(b, off) < 0x8000_0000_0000_0000 then LeU64(b, off)
                                      else LeU64(b, off) - 0x1_0000_0000_0000_0000
  {
    FourBytes(b, off, 4);
    FourBytes(b, off + 4, 0);
    PowersOf256();
  }

  // ------------------------------------------------------------------ decoding

  /** One mapping pair: a length, and unless it is a hole, a distance. */
  datatype Pair = Pair(length: nat, offSize: nat, delta: int, next: nat)

  /** The pair at `pos`; none at the terminator, the end, or a malformed header. */
  function PairAt(b: seq<Byte>, pos: nat): Option<Pair> {
    if pos >= |b| || b[pos] == 0 then None
    else
      var lenSize, offSize := b[pos] as int % 16, b[pos] as int / 16;
      if lenSize == 0 || pos + 1 + lenSize + offSize > |b| then None
      else Some(Pair(FieldAt(b, pos + 1, lenSize), offSize, SignedAt(b, pos + 1 + lenSize, offSize),
                     pos + 1 + lenSize + offSize))
  }

  function FieldAt(b: seq<Byte>, off: nat, size: nat): nat { Unsigned(b, off, Min(size, 8)) }

  function SignedAt(b: seq<Byte>, off: nat, size: nat): int { AsSigned(FieldAt(b, off, size), Min(size, 8)) }

  /** A pair begins with the widths of its two fields, and is there if they are. */
  lemma PairIff(b: seq<Byte>, pos: nat, lenSize: nat, offSize: nat)
    requires pos < |b| && lenSize < 16 && offSize < 16 && b[pos] == offSize * 16 + lenSize
    ensures PairAt(b, pos)
         == if lenSize == 0 || pos + 1 + lenSize + offSize > |b| then None
            else Some(Pair(FieldAt(b, pos + 1, lenSize), offSize, SignedAt(b, pos + 1 + lenSize, offSize),
                           pos + 1 + lenSize + offSize))
  {
    HeaderByte(lenSize, offSize);
  }

  /** The run a pair adds; none when the cluster number would be negative. */
  function RunOf(p: Pair, lcn: int): Option<Run> {
    if p.offSize == 0 then Some(Run(0, p.length, true))
    else if WrapI64(lcn + p.delta) < 0 then None
    else Some(Run(WrapI64(lcn + p.delta), p.length, false))
  }

  function LcnAfter(r: Run, lcn: int): int { if r.sparse then lcn else r.lcn }

  function PairsFrom(b: seq<Byte>, pos: nat): seq<Pair>
    decreases |b| - pos
  {
    match PairAt(b, pos)
    case None => []
    case Some(p) => [p] + PairsFrom(b, p.next)
  }

  /** The list is cut once it is too long, but only after a run that is not sparse. */
  predicate TooLong(out: seq<Run>) {
    |out| > MAX_RUNS && !out[|out| - 1].sparse
  }

  /** `out` and the runs of further pairs, until one of the limits. */
  function Interpret(pairs: seq<Pair>, lcn: int, out: seq<Run>): seq<Run>
    decreases |pairs|
  {
    if pairs == [] || |out| >= MAX_STEPS then out
    else
      match RunOf(pairs[0], lcn)
      case None => out
      case Some(r) =>
        if TooLong(out + [r]) then out + [r] else Interpret(pairs[1..], LcnAfter(r, lcn), out + [r])
  }

  function Decode(b: seq<Byte>): seq<Run> { Interpret(PairsFrom(b, 0), 0, []) }

  /** The part of the loop's body that reads a pair. */
  method ReadPair(b: seq<Byte>, start: nat) returns (p: Option<Pair>)
    requires start < |b|
    ensures p == PairAt(b, start)
  {
    var pos := start;
    var header := b[pos] as int;
    if header == 0 {
      return None;
    }
    pos := pos + 1;
    var lenSize, offSize := header % 16, header / 16;
    if lenSize == 0 || pos + lenSize + offSize > |b| {
      return None;
    }
    var length := ReadLeUnsigned(b, pos, lenSize);
    pos := pos + lenSize;
    var delta := ReadLeSigned(b, pos, offSize);
    return Some(Pair(length, offSize, delta, pos + offSize));
  }

  method DecodeRuns(b: seq<Byte>) returns (out: seq<Run>)
    ensures out == Decode(b)
  {
    out := [];
    var pos: nat, lcn: int, guard: nat := 0, 0, 0;
    while pos < |b| && guard < MAX_STEPS
      invariant pos <= |b| && guard == |out| <= MAX_STEPS && Interpret(PairsFrom(b, pos), lcn, out) == Decode(b)
      decreases |b| - pos
    {
      var pair := ReadPair(b, pos);
      if pair == None {
        return;
      }
      assert PairsFrom(b, pos)[1..] == PairsFrom(b, pair.value.next);
      guard := guard + 1;
      pos := pair.value.next;
      if pair.value.offSize == 0 {
        out := out + [Run(0, pair.value.length, true)];
        continue;
      }
      lcn := WrapI64(lcn + pair.value.delta);
      if lcn < 0 {
        return;
      }
      out := out + [Run(lcn, pair.value.length, false)];
      if |out| > MAX_RUNS {
        return;
      }
    }
  }

  // ------------------------------------------------------------------ encoding

  /** A run with the widths it is stored in; width 0 for a hole's offset. */
  datatype Piece = Piece(run: Run, lenSize: nat, offSize: nat)

  /** The piece can be stored after a run that began at `lcn`. */
  predicate Storable(p: Piece, lcn: nat) {
    && 0 < p.lenSize <= 8 && p.offSize <= 8 && p.run.length < Pow256(p.lenSize)
    && (p.run.sparse <==> p.offSize == 0)
    && (if p.run.sparse then p.run.lcn == 0
        else
          && p.run.lcn < HALF_2_64
          && -(Pow256(p.offSize) / 2) <= p.run.lcn - lcn < Pow256(p.offSize) / 2)
  }

  function NextLcn(p: Piece, lcn: nat): nat { if p.run.sparse then lcn else p.run.lcn }

  predicate AllStorable(ps: seq<Piece>, lcn: nat) {
    ps == [] || (Storable(ps[0], lcn) && AllStorable(ps[1..], NextLcn(ps[0], lcn)))
  }

  function LeBytes(v: nat, n: nat): (r: seq<Byte>)
    ensures |r| == n
  {
    if n == 0 then [] else [v % 256] + LeBytes(v / 256, n - 1)
  }

  /** One mapping pair. */
  function Stored(p: Piece, lcn: nat): seq<Byte>
    requires Storable(p, lcn)
  {
    [HeaderOf(p)] + LeBytes(p.run.length, p.lenSize) + OffsetBytes(p, lcn)
  }

  function AllStored(ps: seq<Piece>, lcn: nat): seq<Byte>
    requires AllStorable(ps, lcn)
  {
    if ps == [] then [] else Stored(ps[0], lcn) + AllStored(ps[1..], NextLcn(ps[0], lcn))
  }

  function RunsOf(ps: seq<Piece>): (r: seq<Run>)
    ensures |r| == |ps|
  {
    if ps == [] then [] else [ps[0].run] + RunsOf(ps[1..])
  }

  lemma ScaledUp(x: Byte, p: nat)
    ensures Scaled(x, 256 * p) == 256 * Scaled(x, p)
  {
  }

  /** Reading a shifted value from its second byte on. */
  lemma {:induction false} UnsignedCons(b: seq<Byte>, off: nat, n: nat)
    ensures Unsigned(b, off, n + 1) == ByteOrZero(b, off) + 256 * Unsigned(b, off + 1, n)
  {
    if n > 0 {
      UnsignedCons(b, off, n - 1);
      ScaledUp(ByteOrZero(b, off + n), Pow256(n - 1));
    }
  }

  /** Little-endian bytes read back as the value they were made from. */
  lemma {:induction false} UnsignedOfLe(b: seq<Byte>, pos: nat, v: nat, n: nat)
    requires v < Pow256(n) && At(b, pos, LeBytes(v, n))
    ensures Unsigned(b, pos, n) == v
    decreases n
  {
    if n > 0 {
      AtSplit(b, pos, [v % 256], LeBytes(v / 256, n - 1));
      UnsignedOfLe(b, pos + 1, v / 256, n - 1);
      UnsignedCons(b, pos, n - 1);
      assert b[pos + 0] == [v % 256][0];
    }
  }

  function OffsetBytes(p: Piece, lcn: nat): (r: seq<Byte>)
    requires Storable(p, lcn)
    ensures |r| == p.offSize
  {
    if p.run.sparse then [] else LeBytes(TwosComplement(p.run.lcn - lcn, p.offSize), p.offSize)
  }

  function HeaderOf(p: Piece): Byte
    requires 0 < p.lenSize <= 8 && p.offSize <= 8
  {
    p.offSize * 16 + p.lenSize
  }

  /** Where the decoder looks for the fields of one stored pair. */
  lemma StoredParts(b: seq<Byte>, pos: nat, p: Piece, lcn: nat)
    requires Storable(p, lcn) && At(b, pos, Stored(p, lcn))
    ensures |Stored(p, lcn)| == 1 + p.lenSize + p.offSize && b[pos] == p.offSize * 16 + p.lenSize
    ensures At(b, pos + 1, LeBytes(p.run.length, p.lenSize)) && At(b, pos + 1 + p.lenSize, OffsetBytes(p, lcn))
  {
    var head := [HeaderOf(p)];
    var lens, offs := LeBytes(p.run.length, p.lenSize), OffsetBytes(p, lcn);
    assert Stored(p, lcn) == head + lens + offs;
    AtSplit(b, pos, head + lens, offs);
    AtSplit(b, pos, head, lens);
    assert b[pos + 0] == head[0];
  }

  function Width(p: Piece): nat { 1 + p.lenSize + p.offSize }

  function DeltaOf(p: Piece, lcn: nat): int { if p.run.sparse then 0 else p.run.lcn - lcn }

  lemma OffsetReadsBack(b: seq<Byte>, at: nat, p: Piece, lcn: nat)
    requires Storable(p, lcn) && At(b, at, OffsetBytes(p, lcn))
    ensures AsSigned(Unsigned(b, at, p.offSize), p.offSize) == DeltaOf(p, lcn)
  {
    if !p.run.sparse {
      UnsignedOfLe(b, at, TwosComplement(p.run.lcn - lcn, p.offSize), p.offSize);
    }
  }

  lemma StoredFields(b: seq<Byte>, pos: nat, p: Piece, lcn: nat)
    requires Storable(p, lcn) && At(b, pos, Stored(p, lcn))
    ensures pos + Width(p) <= |b| && b[pos] == p.offSize * 16 + p.lenSize
    ensures Unsigned(b, pos + 1, p.lenSize) == p.run.length
    ensures AsSigned(Unsigned(b, pos + 1 + p.lenSize, p.offSize), p.offSize) == DeltaOf(p, lcn)
  {
    StoredParts(b, pos, p, lcn);
    UnsignedOfLe(b, pos + 1, p.run.length, p.lenSize);
    OffsetReadsBack(b, pos + 1 + p.lenSize, p, lcn);
  }

  lemma HeaderByte(lenSize: nat, offSize: nat)
    requires lenSize < 16
    ensures (offSize * 16 + lenSize) % 16 == lenSize && (offSize * 16 + lenSize) / 16 == offSize
  {
  }

  /** What is read after a header with these two widths. */
  lemma PairWithHeader(b: seq<Byte>, pos: nat, lenSize: nat, offSize: nat)
    requires 0 < lenSize <= 8 && offSize <= 8 && pos + 1 + lenSize + offSize <= |b|
    requires b[pos] == offSize * 16 + lenSize
    ensures PairAt(b, pos) == Some(Pair(Unsigned(b, pos + 1, lenSize), offSize,
                                        AsSigned(Unsigned(b, pos + 1 + lenSize, offSize), offSize),
                                        pos + 1 + lenSize + offSize))
  {
    HeaderByte(lenSize, offSize);
  }

  predicate ReadsBack(pair: Option<Pair>, p: Piece, lcn: nat, pos: nat) {
    pair == Some(Pair(p.run.length, p.offSize, DeltaOf(p, lcn), pos + Width(p)))
  }

  /** One stored pair is read back. */
  lemma PairOfStored(b: seq<Byte>, pos: nat, p: Piece, lcn: nat)
    requires Storable(p, lcn) && At(b, pos, Stored(p, lcn))
    ensures ReadsBack(PairAt(b, pos), p, lcn, pos)
  {
    StoredFields(b, pos, p, lcn);
    assert 0 < p.lenSize <= 8 && p.offSize <= 8;
    PairWithHeader(b, pos, p.lenSize, p.offSize);
  }

  /** And it means its run. */
  lemma RunOfStored(p: Piece, lcn: nat, next: nat)
    requires Storable(p, lcn)
    ensures RunOf(Pair(p.run.length, p.offSize, DeltaOf(p, lcn), next), lcn) == Some(p.run)
    ensures LcnAfter(p.run, lcn) == NextLcn(p, lcn)
  {
    if !p.run.sparse {
      WrapInRange(p.run.lcn);
    }
  }

  /** `out` and the runs of a list that the decoder's two limits let through. */
  function Through(ps: seq<Piece>, out: seq<Run>): (r: seq<Run>)
    decreases |ps|
  {
    if ps == [] || |out| >= MAX_STEPS then out
    else if TooLong(out + [ps[0].run]) then out + [ps[0].run]
    else Through(ps[1..], out + [ps[0].run])
  }

  /** A stored list: its first pair, then the rest. */
  lemma FirstStands(b: seq<Byte>, pos: nat, ps: seq<Piece>, lcn: nat)
    requires ps != [] && AllStorable(ps, lcn) && At(b, pos, AllStored(ps, lcn) + [0])
    ensures At(b, pos, Stored(ps[0], lcn)) && ReadsBack(PairAt(b, pos), ps[0], lcn, pos)
    ensures At(b, pos + Width(ps[0]), AllStored(ps[1..], NextLcn(ps[0], lcn)) + [0])
  {
    var here, rest := Stored(ps[0], lcn), AllStored(ps[1..], NextLcn(ps[0], lcn));
    assert AllStored(ps, lcn) + [0] == here + (rest + [0]);
    AtSplit(b, pos, here, rest + [0]);
    PairOfStored(b, pos, ps[0], lcn);
  }

  /** The pairs that stand for a list of runs. */
  predicate StandFor(pairs: seq<Pair>, ps: seq<Piece>, lcn: nat)
    decreases |ps|
  {
    && |pairs| == |ps|
    && (ps != [] ==>
         && RunOf(pairs[0], lcn) == Some(ps[0].run) && LcnAfter(ps[0].run, lcn) == NextLcn(ps[0], lcn)
         && StandFor(pairs[1..], ps[1..], NextLcn(ps[0], lcn)))
  }

  lemma StandForMore(first: Pair, rest: seq<Pair>, ps: seq<Piece>, lcn: nat, pos: nat)
    requires ps != [] && Storable(ps[0], lcn) && ReadsBack(Some(first), ps[0], lcn, pos)
    requires StandFor(rest, ps[1..], NextLcn(ps[0], lcn))
    ensures StandFor([first] + rest, ps, lcn)
  {
    RunOfStored(ps[0], lcn, first.next);
    assert ([first] + rest)[1..] == rest;
  }

  lemma {:induction false} PairsOfStored(b: seq<Byte>, pos: nat, ps: seq<Piece>, lcn: nat)
    requires AllStorable(ps, lcn) && At(b, pos, AllStored(ps, lcn) + [0])
    ensures StandFor(PairsFrom(b, pos), ps, lcn)
    decreases |ps|
  {
    if ps == [] {
      var end: seq<Byte> := [0];
      assert AllStored(ps, lcn) + end == end && b[pos + 0] == end[0];
    } else {
      FirstStands(b, pos, ps, lcn);
      var next := pos + Width(ps[0]);
      PairsOfStored(b, next, ps[1..], NextLcn(ps[0], lcn));
      StandForMore(PairAt(b, pos).value, PairsFrom(b, next), ps, lcn, pos);
    }
  }

  lemma {:induction false} InterpretOfPairs(pairs: seq<Pair>, ps: seq<Piece>, lcn: nat, out: seq<Run>)
    requires StandFor(pairs, ps, lcn)
    ensures Interpret(pairs, lcn, out) == Through(ps, out)
    decreases |ps|
  {
    if ps != [] && |out| < MAX_STEPS && !TooLong(out + [ps[0].run]) {
      InterpretOfPairs(pairs[1..], ps[1..], NextLcn(ps[0], lcn), out + [ps[0].run]);
    }
  }

  /** Decoding inverts encoding, up to the two limits. */
  lemma DecodeOfStored(ps: seq<Piece>, after: seq<Byte>)
    requires AllStorable(ps, 0)
    ensures Decode(AllStored(ps, 0) + [0] + after) == Through(ps, [])
  {
    var b := AllStored(ps, 0) + [0] + after;
    PairsOfStored(b, 0, ps, 0);
    InterpretOfPairs(PairsFrom(b, 0), ps, 0, []);
  }

  /** No run comes after the decoder's limits. */
  predicate WithinLimits(ps: seq<Piece>, k: nat) {
    ps == [] || (k < MAX_STEPS && (k + 1 > MAX_RUNS && !ps[0].run.sparse ==> |ps| == 1) && WithinLimits(ps[1..], k + 1))
  }

  lemma {:induction false} ThroughLength(ps: seq<Piece>, out: seq<Run>)
    ensures |Through(ps, out)| <= |out| + |ps|
    ensures |Through(ps, out)| == |out| + |ps| <==> WithinLimits(ps, |out|)
    decreases |ps|
  {
    if ps != [] {
      ThroughLength(ps[1..], out + [ps[0].run]);
    }
  }

  lemma {:induction false} ThroughWhole(ps: seq<Piece>, out: seq<Run>)
    requires WithinLimits(ps, |out|)
    ensures Through(ps, out) == out + RunsOf(ps)
    decreases |ps|
  {
    if ps == [] {
      assert out + [] == out;
    } else {
      var out' := out + [ps[0].run];
      ThroughWhole(ps[1..], out');
      assert out + RunsOf(ps) == out' + RunsOf(ps[1..]);
    }
  }

  /** So a stored list comes back whole exactly when it is within the limits,
      and every list of up to 65,537 runs is. */
  lemma DecodeInvertsIff(ps: seq<Piece>, after: seq<Byte>)
    requires AllStorable(ps, 0)
    ensures Decode(AllStored(ps, 0) + [0] + after) == RunsOf(ps)
       <==> (|ps| <= 100_000 && forall i | 65_536 <= i < |ps| - 1 :: ps[i].run.sparse)
    ensures |ps| <= 65_537 ==> WithinLimits(ps, 0)
  {
    WholeWithinLimits(ps, after);
    LimitsIff(ps, 0);
  }

  lemma WholeWithinLimits(ps: seq<Piece>, after: seq<Byte>)
    requires AllStorable(ps, 0)
    ensures Decode(AllStored(ps, 0) + [0] + after) == RunsOf(ps) <==> WithinLimits(ps, 0)
  {
    DecodeOfStored(ps, after);
    ThroughLength(ps, []);
    if WithinLimits(ps, 0) {
      ThroughWhole(ps, []);
      assert [] + RunsOf(ps) == RunsOf(ps);
    }
  }

  /** The limits: 100,000 runs, and past 65,536 only holes before the last one. */
  lemma {:induction false} LimitsIff(ps: seq<Piece>, k: nat)
    ensures WithinLimits(ps, k)
       <==> ((ps != [] ==> k + |ps| <= 100_000) && forall i | 0 <= i < |ps| - 1 && k + i >= 65_536 :: ps[i].run.sparse)
    decreases |ps|
  {
    if ps != [] {
      LimitsIff(ps[1..], k + 1);
      if WithinLimits(ps, k) {
        forall i | 0 <= i < |ps| - 1 && k + i >= 65_536 ensures ps[i].run.sparse {
          if i > 0 {
            assert ps[1..][i - 1] == ps[i];
          }
        }
      }
    }
  }

  // ------------------------------------------------------------------- extents

  /** What one run says about the file's bytes: an address each, or a hole. */
  ghost function RunBytes(r: Run, cs: nat): (s: seq<Option<nat>>)
    ensures |s| == r.length * cs
  {
    seq(r.length * cs, i => if r.sparse then None else Some(r.lcn * cs + i))
  }

  /** Where every byte of the file is, by its runs. */
  ghost function FileBytes(runs: seq<Run>, cs: nat): seq<Option<nat>> {
    if runs == [] then [] else FileBytes(runs[..|runs| - 1], cs) + RunBytes(runs[|runs| - 1], cs)
  }

  /** The addresses that exist, in order. */
  ghost function Present(s: seq<Option<nat>>): (r: seq<nat>)
    ensures |r| <= |s|
  {
    if s == [] then []
    else if s[|s| - 1].Some? then Present(s[..|s| - 1]) + [s[|s| - 1].value]
    else Present(s[..|s| - 1])
  }

  lemma {:induction false} PresentConcat(a: seq<Option<nat>>, b: seq<Option<nat>>)
    ensures Present(a + b) == Present(a) + Present(b)
    decreases |b|
  {
    if b == [] {
      assert a + b == a;
    } else {
      assert (a + b)[..|a + b| - 1] == a + b[..|b| - 1];
      PresentConcat(a, b[..|b| - 1]);
    }
  }

  /** The first `n` bytes of a run: a range, or nothing. */
  lemma {:induction false} PresentOfRun(r: Run, cs: nat, n: nat)
    requires n <= r.length * cs
    ensures Present(RunBytes(r, cs)[..n]) == if r.sparse then [] else Range(r.lcn * cs, n)
  {
    if n > 0 {
      var s := RunBytes(r, cs)[..n];
      assert s[..n - 1] == RunBytes(r, cs)[..n - 1];
      PresentOfRun(r, cs, n - 1);
    }
  }

  lemma {:induction false} FileBytesPrefix(runs: seq<Run>, cs: nat, i: nat)
    requires i <= |runs|
    ensures FileBytes(runs[..i], cs) <= FileBytes(runs, cs)
    decreases |runs|
  {
    if i < |runs| {
      assert runs[..|runs| - 1][..i] == runs[..i];
      FileBytesPrefix(runs[..|runs| - 1], cs, i);
    } else {
      assert runs[..i] == runs;
    }
  }

  /** The bytes of the first `i + 1` runs. */
  lemma NextRun(runs: seq<Run>, cs: nat, i: nat)
    requires i < |runs|
    ensures FileBytes(runs[..i], cs) + RunBytes(runs[i], cs) == FileBytes(runs[..i + 1], cs) <= FileBytes(runs, cs)
  {
    assert runs[..i + 1][..i] == runs[..i] && runs[..i + 1][i] == runs[i];
    FileBytesPrefix(runs, cs, i + 1);
  }

  /** Taking `n` bytes of the next run. */
  lemma TakeRun(runs: seq<Run>, cs: nat, i: nat, done: nat, n: nat, span: nat, at: nat)
    requires i < |runs| && done == |FileBytes(runs[..i], cs)| && n <= span
    requires span == runs[i].length * cs && at == runs[i].lcn * cs
    ensures done + n <= |FileBytes(runs, cs)|
    ensures Present(FileBytes(runs, cs)[..done + n]) == Present(FileBytes(runs, cs)[..done])
              + (if runs[i].sparse then [] else Range(at, n))
    ensures n == span ==> done + n == |FileBytes(runs[..i + 1], cs)|
  {
    var all := FileBytes(runs, cs);
    var before, here := FileBytes(runs[..i], cs), RunBytes(runs[i], cs);
    NextRun(runs, cs, i);
    assert before + here <= all;
    assert all[..done] == before;
    assert all[..done + n] == before + here[..n];
    PresentConcat(before, here[..n]);
    PresentOfRun(runs[i], cs, n);
  }

  /** Where the loop below stands: `done` bytes taken, from the first `i` runs. */
  ghost predicate Taken(runs: seq<Run>, cs: nat, i: nat, size: nat, remaining: nat, out: seq<Extent>) {
    && i <= |runs| && remaining <= size && size - remaining <= |FileBytes(runs, cs)|
    && Flatten(out) == Present(FileBytes(runs, cs)[..size - remaining])
    && (remaining > 0 ==> size - remaining == |FileBytes(runs[..i], cs)|)
  }

  /** Taking as much of a run of `span` bytes as is still wanted. */
  lemma TakenStep(runs: seq<Run>, cs: nat, i: nat, size: nat, remaining: nat, out: seq<Extent>, take: nat,
                  span: nat, at: nat)
    requires Taken(runs, cs, i, size, remaining, out) && i < |runs| && remaining > 0
    requires span == runs[i].length * cs && at == runs[i].lcn * cs && take == Min(span, remaining)
    ensures Taken(runs, cs, i + 1, size, remaining - take, if runs[i].sparse then out else out + [Extent(at, take)])
  {
    TakeRun(runs, cs, i, size - remaining, take, span, at);
    TakenOn(runs, cs, i, size, remaining, out, take, at);
  }

  lemma TakenOn(runs: seq<Run>, cs: nat, i: nat, size: nat, remaining: nat, out: seq<Extent>, take: nat, at: nat)
    requires Taken(runs, cs, i, size, remaining, out) && i < |runs| && take <= remaining
    requires size - remaining + take <= |FileBytes(runs, cs)|
    requires Present(FileBytes(runs, cs)[..size - remaining + take])
          == Present(FileBytes(runs, cs)[..size - remaining]) + (if runs[i].sparse then [] else Range(at, take))
    requires take < remaining ==> size - remaining + take == |FileBytes(runs[..i + 1], cs)|
    ensures Taken(runs, cs, i + 1, size, remaining - take, if runs[i].sparse then out else out + [Extent(at, take)])
  {
    Added(out, runs[i].sparse, at, take);
    assert size - (remaining - take) == size - remaining + take;
  }

  lemma Added(out: seq<Extent>, sparse: bool, at: nat, take: nat)
    ensures Flatten(if sparse then out else out + [Extent(at, take)])
         == Flatten(out) + (if sparse then [] else Range(at, take))
  {
    if !sparse {
      FlattenSnoc(out, Extent(at, take));
    }
  }

  lemma TakenAll(runs: seq<Run>, cs: nat, i: nat, size: nat, remaining: nat, out: seq<Extent>)
    requires Taken(runs, cs, i, size, remaining, out) && (remaining == 0 || i == |runs|)
    ensures Flatten(out) == Present(FileBytes(runs, cs)[..Min(size, |FileBytes(runs, cs)|)])
  {
    assert runs[..|runs|] == runs;
  }

  /** `runs_to_extents`: the extents flatten to the addresses that exist among
      the file's first `realSize` bytes; a hole is skipped but uses up size. */
  method RunsToExtents(runs: seq<Run>, cs: nat, realSize: nat) returns (out: seq<Extent>)
    ensures Flatten(out) == Present(FileBytes(runs, cs)[..Min(realSize, |FileBytes(runs, cs)|)])
  {
    out := [];
    var remaining: nat := realSize;
    for i := 0 to |runs|
      invariant Taken(runs, cs, i, realSize, remaining, out)
    {
      if remaining == 0 {
        TakenAll(runs, cs, i, realSize, remaining, out);
        return;
      }
      var r := runs[i];
      var take := Min(r.length * cs, remaining);
      TakenStep(runs, cs, i, realSize, remaining, out, take, r.length * cs, r.lcn * cs);
      if r.sparse {
        remaining := remaining - take;
        continue;
      }
      out := out + [Extent(r.lcn * cs, take)];
      remaining := remaining - take;
    }
    TakenAll(runs, cs, |runs|, realSize, remaining, out);
  }

  /** No byte below the size is in a hole. */
  ghost predicate NoHole(s: seq<Option<nat>>) { forall i | 0 <= i < |s| :: s[i].Some? }

  /** The extents have an address for every byte, in its place, exactly when no
      byte is in a hole. */
  lemma {:induction false} PresentAllIff(s: seq<Option<nat>>)
    ensures |Present(s)| == |s| <==> NoHole(s)
    ensures NoHole(s) ==> forall i | 0 <= i < |s| :: Present(s)[i] == s[i].value
  {
    if s != [] {
      PresentAllIff(s[..|s| - 1]);
      assert NoHole(s) ==> NoHole(s[..|s| - 1]) && s[|s| - 1].Some?;
      if NoHole(s[..|s| - 1]) && s[|s| - 1].Some? {
        assert forall i | 0 <= i < |s| - 1 :: s[i] == s[..|s| - 1][i];
      }
    }
  }

  /** Three runs of one byte, the middle one sparse: two addresses come out, and
      the third byte's own is in the second place. */
  lemma HoleMovesTheRest()
    ensures var bytes := FileBytes([Run(5, 1, false), Run(0, 1, true), Run(7, 1, false)], 1);
            bytes == [Some(5), None, Some(7)] && Present(bytes) == [5, 7]
  {
    var runs := [Run(5, 1, false), Run(0, 1, true), Run(7, 1, false)];
    assert runs[..2][..1] == runs[..1] && runs[..1][..0] == [];
    assert FileBytes(runs[..1], 1) == [Some(5)] && FileBytes(runs[..2], 1) == [Some(5), None];
    var bytes: seq<Option<nat>> := [Some(5), None, Some(7)];
    assert FileBytes(runs, 1) == bytes;
    assert bytes[..2][..1] == bytes[..1] && bytes[..1][..0] == [];
    assert Present(bytes[..1]) == [5] && Present(bytes[..2]) == [5];
  }

  /** `record_offset`: the address of the first byte of MFT record `n`. */
  method RecordOffset(extents: seq<Extent>, recordSize: nat, n: nat) returns (r: Option<nat>)
    ensures r == if n * recordSize < |Flatten(extents)| then Some(Flatten(extents)[n * recordSize]) else None
  {
    var logical := n * recordSize;
    var acc := 0;
    for i := 0 to |extents|
      invariant 0 <= acc && acc == |Flatten(extents[..i])| <= logical
    {
      var e := extents[i];
      assert extents[..i + 1] == extents[..i] + [e];
      FlattenSnoc(extents[..i], e);
      FlattenPrefix(extents, i + 1);
      if logical < acc + e.len {
        assert Flatten(extents[..i + 1])[logical] == Range(e.offset, e.len)[logical - acc];
        return Some(e.offset + (logical - acc));
      }
      acc := acc + e.len;
    }
    assert extents[..|extents|] == extents;
    return None;
  }

  /** Byte `j` of run `k`, where the file has it. */
  lemma ByteOfRun(runs: seq<Run>, cs: nat, k: nat, j: nat)
    requires k < |runs| && j < runs[k].length * cs
    ensures |FileBytes(runs[..k], cs)| + j < |FileBytes(runs, cs)|
    ensures FileBytes(runs, cs)[|FileBytes(runs[..k], cs)| + j]
         == if runs[k].sparse then None else Some(runs[k].lcn * cs + j)
  {
    NextRun(runs, cs, k);
  }

  /** What a file's bytes are, from its mapping pairs as they are stored. */
  ghost function StoredFile(ps: seq<Piece>, cs: nat, size: nat): seq<Option<nat>> {
    FileBytes(RunsOf(ps), cs)[..Min(size, |FileBytes(RunsOf(ps), cs)|)]
  }

  /** From the stored pairs of a fragmented MFT to its records: decoding and
      turning runs into extents gives every byte of the file its own address,
      so that `record_offset` finds every record, exactly when the MFT has no hole. */
  lemma MftIsByteExactIff(ps: seq<Piece>, after: seq<Byte>, cs: nat, size: nat, extents: seq<Extent>)
    requires AllStorable(ps, 0) && |ps| <= 100_000 && forall i | 65_536 <= i < |ps| - 1 :: ps[i].run.sparse
    requires var runs := Decode(AllStored(ps, 0) + [0] + after);
             Flatten(extents) == Present(FileBytes(runs, cs)[..Min(size, |FileBytes(runs, cs)|)])
    ensures (forall p: nat | p < |StoredFile(ps, cs, size)| ::
               p < |Flatten(extents)| && Some(Flatten(extents)[p]) == StoredFile(ps, cs, size)[p])
       <==> NoHole(StoredFile(ps, cs, size))
  {
    LimitsIff(ps, 0);
    WholeWithinLimits(ps, after);
    AllPresentIff(StoredFile(ps, cs, size));
  }

  lemma AllPresentIff(s: seq<Option<nat>>)
    ensures (forall p: nat | p < |s| :: p < |Present(s)| && Some(Present(s)[p]) == s[p]) <==> NoHole(s)
  {
    PresentAllIff(s);
    if !NoHole(s) {
      assert |s| > 0 && |s| - 1 >= |Present(s)|;
    }
  }

  /** A record lies in one piece when every extent holds whole records. */
  lemma {:induction false} RecordInOnePiece(extents: seq<Extent>, recordSize: nat, p: nat, j: nat)
    requires recordSize > 0 && p % recordSize == 0 && j < recordSize && p < |Flatten(extents)|
    requires forall i | 0 <= i < |extents| :: extents[i].len % recordSize == 0
    ensures p + j < |Flatten(extents)| && Flatten(extents)[p + j] == Flatten(extents)[p] + j
    ensures |Flatten(extents)| % recordSize == 0
    decreases |extents|
  {
    var k := |extents| - 1;
    var before := Flatten(extents[..k]);
    if p < |before| {
      RecordInOnePiece(extents[..k], recordSize, p, j);
      AlignedSum(|before|, extents[k].len, recordSize);
    } else {
      WholeRecords(extents[..k], recordSize);
      AlignedSum(|before|, extents[k].len, recordSize);
      AlignedDiff(p, |before|, recordSize);
      RoomFor(p - |before|, extents[k].len, j, recordSize);
    }
  }

  lemma {:induction false} WholeRecords(extents: seq<Extent>, recordSize: nat)
    requires recordSize > 0 && forall i | 0 <= i < |extents| :: extents[i].len % recordSize == 0
    ensures |Flatten(extents)| % recordSize == 0
  {
    if extents == [] {
      MultipleOf(0, recordSize);
    } else {
      WholeRecords(extents[..|extents| - 1], recordSize);
      AlignedSum(|Flatten(extents[..|extents| - 1])|, extents[|extents| - 1].len, recordSize);
    }
  }

  lemma RoomFor(a: nat, len: nat, j: nat, d: nat)
    requires d > 0 && a < len && j < d && a % d == 0 && len % d == 0
    ensures a + j < len
  {
    AlignedDiff(len, a, d);
    Aligned(len - a, d);
    MulMono(1, (len - a) / d, d);
  }
}
