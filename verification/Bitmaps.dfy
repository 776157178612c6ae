/** Allocation bitmaps over bytes of packed bits (crates/reclaim-fs-core/src/bitmap.rs:14-72, 106-126). */
module Bitmaps {
  import opened Arith
  import opened Bits

  // ------------------------------------------------------------------ packed bits

  predicate PackedBit(bits: seq<nat>, k: nat)
    requires k / 8 < |bits|
  {
    GetBit(bits[k / 8], k % 8)
  }

  function SetPacked(bits: seq<nat>, k: nat, on: bool): (r: seq<nat>)
    requires k / 8 < |bits|
    ensures |r| == |bits|
  {
    bits[k / 8 := if on then SetBit(bits[k / 8], k % 8) else ClearBit(bits[k / 8], k % 8)]
  }

  const WIDTH: nat := 8

  predicate AllBytes(bits: seq<nat>) { forall i | 0 <= i < |bits| :: Fits(bits[i], WIDTH) }

  /** Only the bit that is set changes. */
  lemma PackedGetSet(bits: seq<nat>, k: nat, on: bool, j: nat)
    requires k / 8 < |bits| && j / 8 < |bits|
    ensures PackedBit(SetPacked(bits, k, on), j) <==> if j == k then on else PackedBit(bits, j)
  {
    assert j == k <==> j / 8 == k / 8 && j % 8 == k % 8;
    if j / 8 == k / 8 {
      SetBitGet(bits[k / 8], k % 8, j % 8);
      ClearBitGet(bits[k / 8], k % 8, j % 8);
    }
  }

  lemma PackedFits(bits: seq<nat>, k: nat, on: bool)
    requires k / 8 < |bits| && AllBytes(bits)
    ensures AllBytes(SetPacked(bits, k, on))
  {
    BitsFit(bits[k / 8], k % 8, WIDTH);
  }

  // ----------------------------------------------------------------------- bitmap

  datatype Bitmap = Bitmap(blockSize: nat, base: nat, blockCount: nat, bits: seq<nat>)
  {
    /** `is_block_allocated`: what is not described counts as allocated. */
    predicate BlockAllocated(index: nat) {
      index < blockCount ==> index / 8 < |bits| ==> PackedBit(bits, index)
    }

    /** `is_offset_allocated`. */
    predicate OffsetAllocated(offset: nat)
      requires blockSize > 0
    {
      offset >= base ==> BlockAllocated((offset - base) / blockSize)
    }
  }

  /** `Bitmap::new` keeps the block size positive. */
  function NewBitmap(blockSize: nat, base: nat, blockCount: nat, bits: seq<nat>): (b: Bitmap)
    ensures b.blockSize > 0
  {
    Bitmap(if blockSize == 0 then 1 else blockSize, base, blockCount, bits)
  }

  // --------------------------------------------------------------------- counting

  /** How many of the first `n` blocks are allocated. */
  function Allocated(b: Bitmap, n: nat): nat {
    if n == 0 then 0 else Allocated(b, n - 1) + (if b.BlockAllocated(n - 1) then 1 else 0)
  }

  /** That many blocks, each counted once. */
  lemma {:induction false} AllocatedIsSize(b: Bitmap, n: nat)
    ensures Allocated(b, n) == |set i: nat | i < n && b.BlockAllocated(i)|
  {
    if n > 0 {
      AllocatedIsSize(b, n - 1);
      var before, now := set i: nat | i < n - 1 && b.BlockAllocated(i), set i: nat | i < n && b.BlockAllocated(i);
      assert now == if b.BlockAllocated(n - 1) then before + {n - 1} else before;
    } else {
      assert (set i: nat | i < 0 && b.BlockAllocated(i)) == {};
    }
  }

  lemma {:induction false} CountOfPart(b: Bitmap, i: nat, k: nat)
    requires i < |b.bits| && k <= 8 && 8 * i + k <= b.blockCount
    ensures Allocated(b, 8 * i + k) == Allocated(b, 8 * i) + CountBits(b.bits[i], k)
  {
    if k > 0 {
      CountOfPart(b, i, k - 1);
      assert (8 * i + (k - 1)) / 8 == i && (8 * i + (k - 1)) % 8 == k - 1;
    }
  }

  lemma CountOfByte(b: Bitmap, i: nat)
    requires i < |b.bits| && 8 * i + 8 <= b.blockCount && Fits(b.bits[i], WIDTH)
    ensures Allocated(b, 8 * (i + 1)) == Allocated(b, 8 * i) + Ones(b.bits[i])
  {
    var k := WIDTH;
    CountOfPart(b, i, k);
    OnesCountsBits(b.bits[i], k);
    assert 8 * (i + 1) == 8 * i + k;
  }

  lemma WholeByte(b: Bitmap, i: nat)
    requires i < Stored(b) / 8 && AllBytes(b.bits)
    ensures i < |b.bits| && 8 * i + 8 <= b.blockCount && Fits(b.bits[i], WIDTH)
  {
  }

  lemma CountOfRest(b: Bitmap, i: nat, rem: nat)
    requires i == Stored(b) / 8 && rem == Stored(b) % 8 && rem > 0
    ensures i < |b.bits| && Allocated(b, Stored(b)) == Allocated(b, 8 * i) + Ones(Low(b.bits[i], rem))
  {
    CountOfPart(b, i, rem);
    MaskKeepsLow(b.bits[i], rem);
    OnesCountsBits(Low(b.bits[i], rem), rem);
  }

  /** A mask of `k` ones keeps the first `k` bits. */
  lemma {:induction false} MaskKeepsLow(w: nat, k: nat)
    ensures Fits(Low(w, k), k) && CountBits(Low(w, k), k) == CountBits(w, k)
    decreases k
  {
    if k > 0 {
      assert Low(w, k) / 2 == Low(w / 2, k - 1);
      MaskKeepsLow(w / 2, k - 1);
      CountShift(w, k - 1);
      CountShift(Low(w, k), k - 1);
    }
  }

  /** Blocks that are described and have a stored bit. */
  function Stored(b: Bitmap): nat { if b.blockCount < 8 * |b.bits| then b.blockCount else 8 * |b.bits| }

  /** The count is that of the described blocks with a bit that are allocated. */
  lemma StoredSize(b: Bitmap)
    ensures Allocated(b, Stored(b)) == |set i: nat | i < b.blockCount && i < 8 * |b.bits| && b.BlockAllocated(i)|
  {
    AllocatedIsSize(b, Stored(b));
    assert (set i: nat | i < b.blockCount && i < 8 * |b.bits| && b.BlockAllocated(i))
        == (set i: nat | i < Stored(b) && b.BlockAllocated(i));
  }

  /** `allocated_count`: whole bytes by population count, then the rest under a
      mask, is the block-by-block count over the bits that are stored. */
  method AllocatedCount(b: Bitmap) returns (count: nat)
    requires AllBytes(b.bits)
    ensures count == Allocated(b, Stored(b))
  {
    var n := Stored(b);
    var full: nat, rem: nat := n / 8, n % 8;
    count := 0;
    for i := 0 to full
      invariant count == Allocated(b, 8 * i)
    {
      WholeByte(b, i);
      CountOfByte(b, i);
      count := count + Ones(b.bits[i]);
    }
    if rem > 0 {
      CountOfRest(b, full, rem);
      count := count + Ones(Low(b.bits[full], rem));
    }
  }
}
