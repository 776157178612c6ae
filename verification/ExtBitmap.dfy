/** The block bitmap of an ext volume, put together from its groups'
    (crates/fs-ext/src/lib.rs:133-182). */
module ExtBitmap {
  import opened Arith
  import opened Bytes
  import opened Wrappers
  import opened Bits
  import opened Bitmaps

  const MAX_BITMAP_BLOCKS: nat := 64 * 1024 * 1024

  /** `bitmaps[g]` is the block that holds group `g`'s bitmap. */
  datatype Volume = Volume(disk: seq<Byte>, blockSize: nat, blocksCount: nat, firstDataBlock: nat,
                           blocksPerGroup: nat, bitmaps: seq<nat>)

  function GroupBits(v: Volume, g: nat): (bits: seq<nat>)
    requires g < |v.bitmaps|
    ensures |bits| == v.blockSize
  {
    var bm := ReadPadded(v.disk, v.bitmaps[g] * v.blockSize, v.blockSize);
    seq<nat>(|bm|, i requires 0 <= i < |bm| => bm[i])
  }

  /** Blocks past the end of the source are not described. */
  function BlockCount(v: Volume): nat {
    var addressable := |v.disk| / (if v.blockSize == 0 then 1 else v.blockSize) + 1;
    if v.blocksCount < addressable then v.blocksCount else addressable
  }

  predicate InGroups(v: Volume, block: nat) {
    v.blocksPerGroup > 0 && v.firstDataBlock <= block && (block - v.firstDataBlock) / v.blocksPerGroup < |v.bitmaps|
  }

  predicate GroupBit(bits: seq<nat>, i: nat) { i / 8 < |bits| ==> PackedBit(bits, i) }

  /** What a block's own group says of it; a block of no group is allocated. */
  predicate SaidAllocated(v: Volume, block: nat) {
    InGroups(v, block) ==>
      GroupBit(GroupBits(v, (block - v.firstDataBlock) / v.blocksPerGroup),
               (block - v.firstDataBlock) % v.blocksPerGroup)
  }

  /** The bits below `done` say what the groups say; the others are still set. */
  ghost predicate Assembled(v: Volume, count: nat, done: nat, bits: seq<nat>) {
    && |bits| == (count + 7) / 8 && AllBytes(bits)
    && forall k: nat | k < count :: PackedBit(bits, k) <==> (k < done ==> SaidAllocated(v, k))
  }

  lemma SaidByGroup(v: Volume, g: nat, i: nat)
    requires g < |v.bitmaps| && i < v.blocksPerGroup
    ensures SaidAllocated(v, v.firstDataBlock + g * v.blocksPerGroup + i) <==> GroupBit(GroupBits(v, g), i)
  {
    Quotient(g * v.blocksPerGroup + i, v.blocksPerGroup, g);
  }

  lemma AssembleOne(v: Volume, count: nat, done: nat, bits: seq<nat>, on: bool)
    requires Assembled(v, count, done, bits) && done < count && (on <==> SaidAllocated(v, done))
    ensures Assembled(v, count, done + 1, SetPacked(bits, done, on))
  {
    PackedFits(bits, done, on);
    forall k: nat | k < count
      ensures PackedBit(SetPacked(bits, done, on), k) <==> (k < done + 1 ==> SaidAllocated(v, k))
    {
      PackedGetSet(bits, done, on, k);
    }
  }

  lemma AllSet(k: nat)
    requires k < WIDTH
    ensures GetBit(0xFF, k) && Fits(0xFF, WIDTH)
  {
  }

  lemma AssembledAtFirst(v: Volume, count: nat, bits: seq<nat>)
    requires |bits| == (count + 7) / 8 && forall i | 0 <= i < |bits| :: bits[i] == 0xFF
    ensures Assembled(v, count, v.firstDataBlock, bits)
  {
    AllSet(0);
    forall k: nat | k < count ensures PackedBit(bits, k) {
      AllSet(k % 8);
    }
  }

  lemma AssembledAtLast(v: Volume, count: nat, bits: seq<nat>)
    requires Assembled(v, count, v.firstDataBlock + |v.bitmaps| * v.blocksPerGroup, bits)
    ensures Assembled(v, count, count, bits)
  {
    forall k: nat | k < count && k >= v.firstDataBlock + |v.bitmaps| * v.blocksPerGroup ensures SaidAllocated(v, k) {
      if v.blocksPerGroup > 0 {
        NotInGroups(k - v.firstDataBlock, |v.bitmaps|, v.blocksPerGroup);
      }
    }
  }

  lemma NotInGroups(x: nat, n: nat, d: nat)
    requires d > 0 && x >= n * d
    ensures x / d >= n
  {
    DivBounds(x, d);
    if x / d < n {
      MulMono(x / d + 1, n, d);
    }
  }

  /** Past the last block there is nothing to do. */
  lemma AssembledPast(v: Volume, count: nat, done: nat, more: nat, bits: seq<nat>)
    requires Assembled(v, count, done, bits) && count <= done && count <= more
    ensures Assembled(v, count, more, bits)
  {
  }

  lemma AssembleAt(v: Volume, count: nat, g: nat, i: nat, block: nat, bits: seq<nat>)
    requires g < |v.bitmaps| && i < v.blocksPerGroup && block == v.firstDataBlock + g * v.blocksPerGroup + i < count
    requires Assembled(v, count, block, bits)
    ensures Assembled(v, count, block + 1, SetPacked(bits, block, GroupBit(GroupBits(v, g), i)))
  {
    SaidByGroup(v, g, i);
    AssembleOne(v, count, block, bits, GroupBit(GroupBits(v, g), i));
  }

  /** One group's bits, as far as there are blocks. */
  method AssembleGroup(v: Volume, count: nat, g: nat, first: nat, was: seq<nat>) returns (bits: seq<nat>)
    requires g < |v.bitmaps| && first == v.firstDataBlock + g * v.blocksPerGroup && Assembled(v, count, first, was)
    ensures Assembled(v, count, first + v.blocksPerGroup, bits)
  {
    bits := was;
    var bm := GroupBits(v, g);
    for i := 0 to v.blocksPerGroup
      invariant Assembled(v, count, first + i, bits)
    {
      var block := first + i;
      if block >= count {
        AssembledPast(v, count, block, first + v.blocksPerGroup, bits);
        return;
      }
      AssembleAt(v, count, g, i, block, bits);
      bits := SetPacked(bits, block, GroupBit(bm, i));
    }
  }

  /** `build_bitmap`: every block answers as its group's bitmap says; blocks of
      no group, and blocks past the end of the source, are allocated. */
  method BuildBitmap(v: Volume) returns (r: Option<Bitmap>)
    ensures r == None <==> BlockCount(v) == 0 || BlockCount(v) > 67_108_864
    ensures r.Some? ==> r.value.blockSize == (if v.blockSize == 0 then 1 else v.blockSize)
    ensures r.Some? ==> r.value.base == 0 && AllBytes(r.value.bits)
    ensures r.Some? ==> forall block: nat ::
              r.value.BlockAllocated(block) <==> (block < BlockCount(v) ==> SaidAllocated(v, block))
  {
    var count := BlockCount(v);
    if count == 0 || count > MAX_BITMAP_BLOCKS {
      return None;
    }
    var bits := seq((count + 7) / 8, i => 0xFF);
    AssembledAtFirst(v, count, bits);
    for g := 0 to |v.bitmaps|
      invariant Assembled(v, count, v.firstDataBlock + g * v.blocksPerGroup, bits)
    {
      Distrib(g, 1, v.blocksPerGroup);
      bits := AssembleGroup(v, count, g, v.firstDataBlock + g * v.blocksPerGroup, bits);
    }
    AssembledAtLast(v, count, bits);
    r := Some(NewBitmap(v.blockSize, 0, count, bits));
    AnswersAsAssembled(v, r.value);
  }

  lemma AnswersAsAssembled(v: Volume, b: Bitmap)
    requires Assembled(v, b.blockCount, b.blockCount, b.bits)
    ensures forall block: nat :: b.BlockAllocated(block) <==> (block < b.blockCount ==> SaidAllocated(v, block))
  {
  }

  // ---------------------------------------------------------------------- on disk

  /** What group `g` says of its block `i` stands in bit `i` of the block that holds
      the group's bitmap; blocks past that block's bits are allocated. */
  lemma SaidOnDisk(v: Volume, g: nat, i: nat)
    requires g < |v.bitmaps| && i < v.blocksPerGroup
    ensures SaidAllocated(v, v.firstDataBlock + g * v.blocksPerGroup + i)
       <==> (i < 8 * v.blockSize ==> GetBit(ByteOrZero(v.disk, v.bitmaps[g] * v.blockSize + i / 8), i % 8))
  {
    SaidByGroup(v, g, i);
  }

  /** Outside the groups everything is allocated. */
  lemma SaidOfNoGroup(v: Volume, block: nat)
    requires block < v.firstDataBlock || block >= v.firstDataBlock + |v.bitmaps| * v.blocksPerGroup
    ensures SaidAllocated(v, block)
  {
    if block >= v.firstDataBlock && v.blocksPerGroup > 0 {
      NotInGroups(block - v.firstDataBlock, |v.bitmaps|, v.blocksPerGroup);
    }
  }

  /** Blocks are described as far as the volume and the source go. */
  lemma DescribedIff(v: Volume, block: nat)
    requires v.blockSize > 0
    ensures block < BlockCount(v) <==> block < v.blocksCount && block * v.blockSize <= |v.disk|
  {
    DivBounds(|v.disk|, v.blockSize);
    if block <= |v.disk| / v.blockSize {
      MulMono(block, |v.disk| / v.blockSize, v.blockSize);
    } else {
      MulMono(|v.disk| / v.blockSize + 1, block, v.blockSize);
    }
  }
}
