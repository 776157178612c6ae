/** The allocation bitmap of a FAT volume (crates/fs-fat/src/lib.rs:368-409). */
module FatBitmap {
  import opened Arith
  import opened Bytes
  import opened Wrappers
  import opened Bits
  import opened Bitmaps
  import opened ClusterChains
  import opened FatTable
  import opened Extents
  import opened FatFiles

  const MAX_CLUSTERS: nat := 0x800_0000
  const MAX_BITMAP_BYTES: nat := 16 * 1024 * 1024

  function EntryBytes(k: Kind): nat
    ensures EntryBytes(k) > 0
  {
    match k
    case Fat32 => 4
    case Fat16 => 2
    case Fat12 => 1
  }

  /** How many clusters the bitmap describes. */
  function Described(v: Volume): (n: nat)
    requires Parsed(v)
    ensures n <= v.Count() && n <= MAX_CLUSTERS
  {
    Min(Min(v.Count(), Minus(v.FatSize() / EntryBytes(v.FatKind()), 2)), MAX_CLUSTERS)
  }

  predicate InUse(v: Volume, c: nat)
    requires Parsed(v)
  {
    Entry(FatOf(v), c) != 0
  }

  /** The bits of clusters below `done` are set for those in use. */
  ghost predicate Marked(v: Volume, bits: seq<nat>, done: nat)
    requires Parsed(v)
  {
    AllBytes(bits)
    && forall c: nat | c / 8 < |bits| :: PackedBit(bits, c) <==> (2 <= c < done && InUse(v, c))
  }

  lemma MarkOne(v: Volume, bits: seq<nat>, c: nat)
    requires Parsed(v) && Marked(v, bits, c) && c >= 2
    ensures InUse(v, c) && c / 8 < |bits| ==> Marked(v, SetPacked(bits, c, true), c + 1)
    ensures !(InUse(v, c) && c / 8 < |bits|) ==> Marked(v, bits, c + 1)
  {
    if InUse(v, c) && c / 8 < |bits| {
      PackedFits(bits, c, true);
      forall d: nat | d / 8 < |bits|
        ensures PackedBit(SetPacked(bits, c, true), d) <==> (2 <= d < c + 1 && InUse(v, d))
      {
        PackedGetSet(bits, c, true, d);
      }
    }
  }

  lemma NothingMarked(v: Volume, bits: seq<nat>)
    requires Parsed(v) && forall i | 0 <= i < |bits| :: bits[i] == 0
    ensures Marked(v, bits, 2)
  {
    ZeroFits(WIDTH);
    forall c: nat | c / 8 < |bits| ensures !PackedBit(bits, c) {
      ZeroHasNoBits(c % 8);
    }
  }

  /** Where cluster 0 would be, if the data area began two clusters earlier. */
  function Base(v: Volume): nat
    requires Parsed(v)
  {
    match OffsetOf(v, 2)
    case None => 0
    case Some(o) => Minus(o, 2 * v.ClusterSize())
  }

  /** What a bitmap of the volume says, for every number. The bytes are capped,
      so clusters from 2^27 on have no bit and count as allocated. */
  ghost predicate Describes(v: Volume, b: Bitmap)
    requires Parsed(v)
  {
    && b.blockSize == v.ClusterSize() && b.base == Base(v)
    && forall c: nat ::
         b.BlockAllocated(c) <==> (c < Described(v) + 2 && c < 0x800_0000 ==> c >= 2 && Entry(FatOf(v), c) != 0)
  }

  method BuildBitmap(v: Volume) returns (r: Option<Bitmap>)
    requires Parsed(v)
    ensures r == None <==> Described(v) == 0
    ensures r.Some? ==> Describes(v, r.value)
  {
    var n := Described(v);
    if n == 0 {
      return None;
    }
    var bits := seq(Min((n + 2 + 7) / 8, MAX_BITMAP_BYTES), i => 0);
    NothingMarked(v, bits);
    for c := 2 to n + 2
      invariant |bits| == Min((n + 2 + 7) / 8, MAX_BITMAP_BYTES) && Marked(v, bits, c)
    {
      MarkOne(v, bits, c);
      if Entry(FatOf(v), c) != 0 && c / 8 < |bits| {
        bits := SetPacked(bits, c, true);
      }
    }
    r := Some(NewBitmap(v.ClusterSize(), Base(v), n + 2, bits));
    HeapOfIsPositive(v);
    MarkedDescribes(v, r.value);
  }

  lemma HeapOfIsPositive(v: Volume)
    requires Parsed(v)
    ensures v.ClusterSize() > 0
  {
    MulMono(1, v.sectorsPerCluster, v.bytesPerSector);
  }

  lemma MarkedDescribes(v: Volume, b: Bitmap)
    requires Parsed(v) && b.blockSize == v.ClusterSize() && b.base == Base(v) && b.blockCount == Described(v) + 2
    requires |b.bits| == Min((Described(v) + 2 + 7) / 8, MAX_BITMAP_BYTES) && Marked(v, b.bits, Described(v) + 2)
    ensures Describes(v, b)
  {
  }

  // --------------------------------------------------------- byte offsets and clusters

  /** The block number that byte `j` of cluster `c` falls into. */
  function BlockOf(start: nat, cs: nat, c: nat, j: nat): nat
    requires c >= 2 && cs > 0
  {
    Minus(start + (c - 2) * cs + j, Minus(start, 2 * cs)) / cs
  }

  lemma BlockWhenRoom(start: nat, cs: nat, c: nat, j: nat)
    requires cs > 0 && c >= 2 && j < cs && start >= 2 * cs
    ensures BlockOf(start, cs, c, j) == c
  {
    Distrib(c - 2, 2, cs);
    assert start + (c - 2) * cs + j - (start - 2 * cs) == c * cs + j;
    Quotient(c * cs + j, cs, c);
  }

  lemma BlockWhenTight(start: nat, cs: nat, c: nat)
    requires cs > 0 && c >= 2 && start < 2 * cs
    ensures BlockOf(start, cs, c, 0) < c
  {
    Distrib(c - 2, 2, cs);
    DivBelow(start + (c - 2) * cs, c, cs);
  }

  /** Every byte of every cluster falls into its own cluster's block exactly when
      the data area begins at least two clusters into the volume. */
  lemma OffsetsMatchIff(v: Volume, c: nat)
    requires Parsed(v) && v.ClusterSize() > 0 && InRange(c, v.Count() + 2)
    ensures (forall j: nat | j < v.ClusterSize() :: BlockOf(HeapOf(v).start, v.ClusterSize(), c, j) == c)
       <==> HeapOf(v).start >= 2 * v.ClusterSize()
  {
    var start, cs := HeapOf(v).start, v.ClusterSize();
    if start >= 2 * cs {
      forall j: nat | j < cs ensures BlockOf(start, cs, c, j) == c {
        BlockWhenRoom(start, cs, c, j);
      }
    } else {
      BlockWhenTight(start, cs, c);
    }
  }

  lemma BaseIs(v: Volume)
    requires Parsed(v) && v.Count() > 0
    ensures Base(v) == Minus(HeapOf(v).start, 2 * v.ClusterSize())
  {
    OffsetIsLinear(v, 2);
  }

  /** Then a byte offset answers for its cluster. */
  lemma OffsetAnswers(v: Volume, b: Bitmap, c: nat, j: nat)
    requires Parsed(v) && Describes(v, b) && v.ClusterSize() > 0 && InRange(c, Described(v) + 2)
    requires j < v.ClusterSize() && HeapOf(v).start >= 2 * v.ClusterSize()
    ensures b.OffsetAllocated(StartOf(HeapOf(v), c) + j) <==> InUse(v, c) || c >= MAX_CLUSTERS
  {
    BaseIs(v);
    AnswersForBlock(b, HeapOf(v).start, c, j);
  }

  lemma AnswersForBlock(b: Bitmap, start: nat, c: nat, j: nat)
    requires b.blockSize > 0 && start >= 2 * b.blockSize && b.base == start - 2 * b.blockSize
    requires c >= 2 && j < b.blockSize
    ensures b.OffsetAllocated(start + (c - 2) * b.blockSize + j) <==> b.BlockAllocated(c)
  {
    BlockWhenRoom(start, b.blockSize, c, j);
  }

  lemma FirstTwo(b: Bitmap, start: nat, offset: nat)
    requires b.blockSize > 0 && b.base == Minus(start, 2 * b.blockSize) && offset < start
    requires !b.BlockAllocated(0) && !b.BlockAllocated(1)
    ensures b.OffsetAllocated(offset) <==> offset < b.base
  {
    if offset >= b.base {
      DivBelow(offset - b.base, 2, b.blockSize);
    }
  }

  /** The last two clusters' room before the data area is not data, yet reads as
      free; if the area begins earlier than that, so does everything before it. */
  lemma BeforeTheData(v: Volume, b: Bitmap, offset: nat)
    requires Parsed(v) && Describes(v, b) && v.ClusterSize() > 0 && Described(v) > 0
    requires offset < HeapOf(v).start
    ensures b.OffsetAllocated(offset) <==> offset < Minus(HeapOf(v).start, 2 * v.ClusterSize())
  {
    BaseIs(v);
    FirstTwo(b, HeapOf(v).start, offset);
  }

  lemma SameAfterDeletion(v: Volume, chain: seq<nat>, c: nat)
    requires Parsed(v) && AllHeld(FatOf(v), chain)
    ensures HeapOf(Deleted(v, chain)) == HeapOf(v) && Described(Deleted(v, chain)) == Described(v)
    ensures Deleted(v, chain).ClusterSize() == v.ClusterSize()
    ensures InUse(Deleted(v, chain), c) <==> (c !in chain && InUse(v, c))
  {
    SameLayout(v, Deleted(v, chain));
    EntryAfterFree(FatOf(v), chain, c);
  }

  /** Once a file is deleted its bytes read as free, and no other cluster's answer changes. */
  lemma DeletedReadsFree(v: Volume, chain: seq<nat>, before: Bitmap, after: Bitmap, c: nat, j: nat)
    requires Parsed(v) && AllHeld(FatOf(v), chain) && v.ClusterSize() > 0
    requires Describes(v, before) && Describes(Deleted(v, chain), after)
    requires InRange(c, Described(v) + 2) && j < v.ClusterSize() && HeapOf(v).start >= 2 * v.ClusterSize()
    ensures after.OffsetAllocated(StartOf(HeapOf(v), c) + j)
       <==> (if c in chain then c >= MAX_CLUSTERS else before.OffsetAllocated(StartOf(HeapOf(v), c) + j))
  {
    OffsetAnswers(v, before, c, j);
    AnswersAfterDeletion(v, chain, after, c, j);
  }

  lemma AnswersAfterDeletion(v: Volume, chain: seq<nat>, after: Bitmap, c: nat, j: nat)
    requires Parsed(v) && AllHeld(FatOf(v), chain) && v.ClusterSize() > 0 && Describes(Deleted(v, chain), after)
    requires InRange(c, Described(v) + 2) && j < v.ClusterSize() && HeapOf(v).start >= 2 * v.ClusterSize()
    ensures after.OffsetAllocated(StartOf(HeapOf(v), c) + j) <==> (c !in chain && InUse(v, c)) || c >= MAX_CLUSTERS
  {
    SameAfterDeletion(v, chain, c);
    AnswersAfter(v, Deleted(v, chain), after, c, j);
  }

  lemma AnswersAfter(v: Volume, w: Volume, after: Bitmap, c: nat, j: nat)
    requires Parsed(v) && Parsed(w) && HeapOf(w) == HeapOf(v) && Described(w) == Described(v)
    requires w.ClusterSize() == v.ClusterSize() > 0 && Describes(w, after) && InRange(c, Described(v) + 2)
    requires j < v.ClusterSize() && HeapOf(v).start >= 2 * v.ClusterSize()
    ensures after.OffsetAllocated(StartOf(HeapOf(v), c) + j) <==> InUse(w, c) || c >= MAX_CLUSTERS
  {
    OffsetAnswers(w, after, c, j);
  }
}
