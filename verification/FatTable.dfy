/** A FAT volume's geometry and its allocation table, entry by entry
    (crates/fs-fat/src/lib.rs:62-74, 205-282, 295-343). Masks and shifts are
    written as remainders and quotients. */
module FatTable {
  import opened Arith
  import opened Bytes
  import opened Wrappers
  import opened Extents
  import opened ClusterChains

  const MAX_FAT_CACHE: nat := 64 * 1024 * 1024

  datatype Kind = Fat12 | Fat16 | Fat32

  function Eoc(k: Kind): nat {
    match k
    case Fat12 => 0x0FF8
    case Fat16 => 0xFFF8
    case Fat32 => 0x0FFF_FFF8
  }

  /** A source and the boot sector fields that lay a volume out on it. */
  datatype Volume = Volume(disk: seq<Byte>, bytesPerSector: nat, sectorsPerCluster: nat, reserved: nat,
                           numFats: nat, fatSectors: nat, rootEntries: nat, totalSectors: nat)
  {
    function RootDirSectors(): nat
      requires bytesPerSector > 0
    {
      (rootEntries * 32 + bytesPerSector - 1) / bytesPerSector
    }

    function FirstDataSector(): nat
      requires bytesPerSector > 0
    {
      reserved + numFats * fatSectors + RootDirSectors()
    }

    function Count(): nat
      requires bytesPerSector > 0 && sectorsPerCluster > 0
    {
      Minus(totalSectors, FirstDataSector()) / sectorsPerCluster
    }

    function FatKind(): Kind
      requires bytesPerSector > 0 && sectorsPerCluster > 0
    {
      if Count() < 4085 then Fat12 else if Count() < 65525 then Fat16 else Fat32
    }

    function ClusterSize(): nat { bytesPerSector * sectorsPerCluster }
    function FatOffset(): nat { reserved * bytesPerSector }
    function FatSize(): nat { fatSectors * bytesPerSector }
    function TotalBytes(): nat { totalSectors * bytesPerSector }
  }

  /** What `parse_bpb` lets through. */
  predicate Parsed(v: Volume) {
    && v.bytesPerSector in {512, 1024, 2048, 4096}
    && v.sectorsPerCluster in {1, 2, 4, 8, 16, 32, 64, 128}
    && 0 < v.reserved < 0x1_0000 && 0 < v.numFats <= 2 && 0 < v.fatSectors < 0x1_0000_0000
    && 0 < v.totalSectors < 0x1_0000_0000 && v.rootEntries < 0x1_0000
  }

  /** `cluster_offset` works in sectors. */
  function OffsetOf(v: Volume, c: nat): Option<nat>
    requires Parsed(v)
  {
    if c < 2 || c >= v.Count() + 2 then None
    else Some((v.FirstDataSector() + (c - 2) * (v.ClusterSize() / v.bytesPerSector)) * v.bytesPerSector)
  }

  function HeapOf(v: Volume): (h: Heap)
    requires Parsed(v)
    ensures h.clusterSize > 0
  {
    MulMono(1, v.sectorsPerCluster, v.bytesPerSector);
    Heap(v.FirstDataSector() * v.bytesPerSector, v.ClusterSize(), v.Count() + 2)
  }

  /** A multiple of a multiple, in sectors and in bytes. */
  lemma InBytes(first: nat, k: nat, spc: nat, bps: nat)
    requires bps > 0
    ensures bps * spc / bps == spc
    ensures (first + k * spc) * bps == first * bps + k * (bps * spc)
  {
    assert bps * spc == spc * bps;
    DivUnique(spc * bps, bps, spc);
    Distrib(first, k * spc, bps);
    assert k * spc * bps == k * (spc * bps);
  }

  /** `n` clusters of a data area fit into it. */
  lemma ClustersFit(total: nat, first: nat, spc: nat, bps: nat, n: nat)
    requires spc > 0 && 0 < n <= Minus(total, first) / spc
    ensures first * bps + n * (bps * spc) <= total * bps
  {
    DivBounds(Minus(total, first), spc);
    MulMono(n, Minus(total, first) / spc, spc);
    MulMono(1, n, spc);
    MulMono(first + n * spc, total, bps);
    Distrib(first, n * spc, bps);
    assert n * spc * bps == n * (bps * spc);
  }

  /** Clusters lie one after the other from the data area on, inside the volume. */
  lemma OffsetIsLinear(v: Volume, c: nat)
    requires Parsed(v)
    ensures OffsetOf(v, c) == ClusterOffset(HeapOf(v), c)
    ensures InRange(c, v.Count() + 2) ==> StartOf(HeapOf(v), c) + v.ClusterSize() <= v.TotalBytes()
  {
    if InRange(c, v.Count() + 2) {
      InBytes(v.FirstDataSector(), c - 2, v.sectorsPerCluster, v.bytesPerSector);
      ClustersFit(v.totalSectors, v.FirstDataSector(), v.sectorsPerCluster, v.bytesPerSector, c - 1);
      Distrib(c - 2, 1, v.ClusterSize());
    }
  }

  // ---------------------------------------------------------------------- entries

  /** The first FAT: a region of the source. */
  datatype Fat = Fat(disk: seq<Byte>, kind: Kind, offset: nat, size: nat)

  function FatOf(v: Volume): Fat
    requires Parsed(v)
  {
    Fat(v.disk, v.FatKind(), v.FatOffset(), v.FatSize())
  }

  /** The first FAT as it is cached when the volume is opened. */
  function Fat0(f: Fat): seq<Byte> { ReadPadded(f.disk, f.offset, Min(f.size, MAX_FAT_CACHE)) }

  function FatBytes(f: Fat, idx: nat, n: nat): (r: seq<Byte>)
    ensures |r| == n
  {
    if idx + n <= |Fat0(f)| then Fat0(f)[idx..idx + n]
    else if idx < f.size then ReadPadded(f.disk, f.offset + idx, n)
    else seq(n, i => 0)
  }

  /** What the FAT says, cached or not. */
  function Plain(f: Fat, idx: nat, n: nat): (r: seq<Byte>)
    ensures |r| == n
  {
    if idx < f.size then ReadPadded(f.disk, f.offset + idx, n) else seq(n, i => 0)
  }

  /** The cache cannot be told from the disk. */
  lemma CacheIsTransparent(f: Fat, idx: nat, n: nat)
    requires n > 0
    ensures FatBytes(f, idx, n) == Plain(f, idx, n)
  {
  }

  function IndexOf(k: Kind, c: nat): nat {
    match k
    case Fat32 => c * 4
    case Fat16 => c * 2
    case Fat12 => c + c / 2
  }

  function WidthOf(k: Kind): nat { if k == Fat32 then 4 else 2 }

  /** An entry from its bytes; in FAT12, an odd one has the upper 12 of 16 bits. */
  function FromBytes(k: Kind, c: nat, b: seq<Byte>): nat {
    match k
    case Fat32 => LeU32(b, 0) % 0x1000_0000
    case Fat16 => LeU16(b, 0)
    case Fat12 => if c % 2 == 0 then LeU16(b, 0) % 0x1000 else LeU16(b, 0) / 16
  }

  /** `fat_entry`. */
  function Entry(f: Fat, c: nat): (e: nat)
    ensures e < 0x1000_0000
  {
    FromBytes(f.kind, c, FatBytes(f, IndexOf(f.kind, c), WidthOf(f.kind)))
  }

  // -------------------------------------------------------------- writing an entry

  function EntryLimit(k: Kind): nat {
    match k
    case Fat12 => 0x1000
    case Fat16 => 0x1_0000
    case Fat32 => 0x1000_0000
  }

  /** The bytes of an entry with the value `x`, other bits as they were. */
  function PutBytes(k: Kind, c: nat, was: seq<Byte>, x: nat): (r: seq<Byte>)
    requires |was| == WidthOf(k) && x < EntryLimit(k)
    ensures |r| == WidthOf(k)
  {
    match k
    case Fat32 => ToLe32(LeU32(was, 0) / 0x1000_0000 * 0x1000_0000 + x)
    case Fat16 => ToLe16(x)
    case Fat12 =>
      if c % 2 == 0 then ToLe16(LeU16(was, 0) / 0x1000 * 0x1000 + x) else ToLe16(x * 16 + LeU16(was, 0) % 16)
  }

  /** The entry is stored inside the first FAT, and the source holds it. */
  predicate Held(f: Fat, c: nat) {
    && IndexOf(f.kind, c) + WidthOf(f.kind) <= f.size
    && f.offset + IndexOf(f.kind, c) + WidthOf(f.kind) <= |f.disk|
  }

  /** The FAT after entry `c` is set to `x`, as a driver does. */
  function Put(f: Fat, c: nat, x: nat): (g: Fat)
    requires Held(f, c) && x < EntryLimit(f.kind)
    ensures g == f.(disk := g.disk) && |g.disk| == |f.disk|
  {
    var idx := IndexOf(f.kind, c);
    f.(disk := Write(f.disk, f.offset + idx, PutBytes(f.kind, c, FatBytes(f, idx, WidthOf(f.kind)), x)))
  }

  lemma PackedEven(w: nat, x: nat)
    requires w < 0x1_0000 && x < 0x1000
    ensures w / 0x1000 * 0x1000 + x < 0x1_0000 && (w / 0x1000 * 0x1000 + x) % 0x1000 == x
  {
  }

  lemma PackedOdd(w: nat, x: nat)
    requires w < 0x1_0000 && x < 0x1000
    ensures x * 16 + w % 16 < 0x1_0000 && (x * 16 + w % 16) / 16 == x
  {
  }

  lemma PackedLow(w: nat, x: nat)
    requires w < 0x1_0000_0000 && x < 0x1000_0000
    ensures w / 0x1000_0000 * 0x1000_0000 + x < 0x1_0000_0000
    ensures (w / 0x1000_0000 * 0x1000_0000 + x) % 0x1000_0000 == x
  {
  }

  lemma FromPut(k: Kind, c: nat, was: seq<Byte>, x: nat)
    requires |was| == WidthOf(k) && x < EntryLimit(k)
    ensures FromBytes(k, c, PutBytes(k, c, was, x)) == x
  {
    match k
    case Fat32 => PackedLow(LeU32(was, 0), x);
    case Fat16 =>
    case Fat12 =>
      PackedEven(LeU16(was, 0), x);
      PackedOdd(LeU16(was, 0), x);
  }

  /** Two neighbours in FAT12 share a byte; each keeps its half of it. */
  lemma SharedByte(c: nat, was: seq<Byte>, x: nat)
    requires |was| == 2 && x < 0x1000
    ensures c % 2 == 0 ==> PutBytes(Fat12, c, was, x)[1] as int / 16 == was[1] as int / 16
    ensures c % 2 == 1 ==> PutBytes(Fat12, c, was, x)[0] as int % 16 == was[0] as int % 16
  {
    var w := LeU16(was, 0);
    if c % 2 == 0 {
      assert w / 0x1000 == was[1] as int / 16;
      assert PutBytes(Fat12, c, was, x)[1] == (w / 0x1000 * 0x1000 + x) / 0x100;
    } else {
      assert w % 16 == was[0] as int % 16;
      assert PutBytes(Fat12, c, was, x)[0] == (x * 16 + w % 16) % 0x100;
    }
  }

  lemma HalfByte(b: seq<Byte>, b': seq<Byte>, c: nat)
    requires |b| == |b'| == 2
    requires if c % 2 == 0 then b[0] == b'[0] && b[1] as int % 16 == b'[1] as int % 16
             else b[0] as int / 16 == b'[0] as int / 16 && b[1] == b'[1]
    ensures FromBytes(Fat12, c, b) == FromBytes(Fat12, c, b')
  {
    Halves(b, c);
    Halves(b', c);
  }

  lemma Halves(b: seq<Byte>, c: nat)
    requires |b| == 2
    ensures FromBytes(Fat12, c, b) ==
            if c % 2 == 0 then b[0] as int + 0x100 * (b[1] as int % 16) else b[0] as int / 16 + 16 * b[1] as int
  {
  }

  /** Where two different entries' bytes overlap: only neighbours in FAT12. */
  lemma Overlap(k: Kind, c: nat, d: nat)
    requires c != d
    ensures IndexOf(k, c) + WidthOf(k) <= IndexOf(k, d) || IndexOf(k, d) + WidthOf(k) <= IndexOf(k, c)
         || (k == Fat12 && d % 2 == 1 && d == c + 1 && IndexOf(k, d) == IndexOf(k, c) + 1)
         || (k == Fat12 && d % 2 == 0 && c == d + 1 && IndexOf(k, c) == IndexOf(k, d) + 1)
  {
    if k == Fat12 {
      assert c == c / 2 * 2 + c % 2 && d == d / 2 * 2 + d % 2;
    }
  }

  /** The bytes read for entry `d` after entry `c` was written. */
  lemma BytesAfterPut(f: Fat, c: nat, x: nat, d: nat, j: nat)
    requires Held(f, c) && x < EntryLimit(f.kind) && j < WidthOf(f.kind)
    ensures FatBytes(Put(f, c, x), IndexOf(f.kind, d), WidthOf(f.kind))[j] ==
            var at, n, p := IndexOf(f.kind, c), WidthOf(f.kind), IndexOf(f.kind, d) + j;
            if IndexOf(f.kind, d) < f.size && at <= p < at + n
            then PutBytes(f.kind, c, FatBytes(f, at, n), x)[p - at]
            else FatBytes(f, IndexOf(f.kind, d), n)[j]
  {
    CacheIsTransparent(f, IndexOf(f.kind, d), WidthOf(f.kind));
    CacheIsTransparent(Put(f, c, x), IndexOf(f.kind, d), WidthOf(f.kind));
  }

  lemma EntryItself(f: Fat, c: nat, x: nat)
    requires Held(f, c) && x < EntryLimit(f.kind)
    ensures Entry(Put(f, c, x), c) == x
  {
    var at, n := IndexOf(f.kind, c), WidthOf(f.kind);
    var put := PutBytes(f.kind, c, FatBytes(f, at, n), x);
    forall j: nat | j < n ensures FatBytes(Put(f, c, x), at, n)[j] == put[j] {
      BytesAfterPut(f, c, x, c, j);
    }
    assert FatBytes(Put(f, c, x), at, n) == put;
    FromPut(f.kind, c, FatBytes(f, at, n), x);
  }

  lemma EntryApart(f: Fat, c: nat, x: nat, d: nat)
    requires Held(f, c) && x < EntryLimit(f.kind)
    requires IndexOf(f.kind, c) + WidthOf(f.kind) <= IndexOf(f.kind, d)
          || IndexOf(f.kind, d) + WidthOf(f.kind) <= IndexOf(f.kind, c)
    ensures Entry(Put(f, c, x), d) == Entry(f, d)
  {
    var at, n := IndexOf(f.kind, d), WidthOf(f.kind);
    forall j: nat | j < n ensures FatBytes(Put(f, c, x), at, n)[j] == FatBytes(f, at, n)[j] {
      BytesAfterPut(f, c, x, d, j);
    }
    assert FatBytes(Put(f, c, x), at, n) == FatBytes(f, at, n);
  }

  lemma EntryBeside(f: Fat, c: nat, x: nat, d: nat)
    requires Held(f, c) && x < EntryLimit(f.kind) && f.kind == Fat12
    requires (d % 2 == 1 && d == c + 1 && IndexOf(Fat12, d) == IndexOf(Fat12, c) + 1)
          || (d % 2 == 0 && c == d + 1 && IndexOf(Fat12, c) == IndexOf(Fat12, d) + 1)
    ensures Entry(Put(f, c, x), d) == Entry(f, d)
  {
    BytesAfterPut(f, c, x, d, 0);
    BytesAfterPut(f, c, x, d, 1);
    var here, there := IndexOf(Fat12, c), IndexOf(Fat12, d);
    SharedByte(c, FatBytes(f, here, 2), x);
    CacheIsTransparent(f, here, 2);
    CacheIsTransparent(f, there, 2);
    HalfByte(FatBytes(f, there, 2), FatBytes(Put(f, c, x), there, 2), d);
  }

  /** Setting one entry sets that entry and leaves every other as it was. */
  lemma EntryAfterPut(f: Fat, c: nat, x: nat, d: nat)
    requires Held(f, c) && x < EntryLimit(f.kind)
    ensures Entry(Put(f, c, x), d) == if d == c then x else Entry(f, d)
  {
    if d == c {
      EntryItself(f, c, x);
    } else {
      Overlap(f.kind, c, d);
      if IndexOf(f.kind, c) + WidthOf(f.kind) <= IndexOf(f.kind, d)
      || IndexOf(f.kind, d) + WidthOf(f.kind) <= IndexOf(f.kind, c) {
        EntryApart(f, c, x, d);
      } else {
        EntryBeside(f, c, x, d);
      }
    }
  }

  // ----------------------------------------------------------------- freeing a chain

  predicate AllHeld(f: Fat, clusters: seq<nat>) { forall i | 0 <= i < |clusters| :: Held(f, clusters[i]) }

  /** Deletion sets every entry of the chain to 0. */
  function FreeAll(f: Fat, clusters: seq<nat>): (g: Fat)
    requires AllHeld(f, clusters)
    ensures g == f.(disk := g.disk) && |g.disk| == |f.disk|
  {
    if clusters == [] then f else Put(FreeAll(f, clusters[..|clusters| - 1]), clusters[|clusters| - 1], 0)
  }

  lemma InSnoc<T>(s: seq<T>, x: T)
    requires s != []
    ensures x in s <==> x in s[..|s| - 1] || x == s[|s| - 1]
  {
    assert s == s[..|s| - 1] + [s[|s| - 1]];
  }

  /** Then those entries are free, and no other one has changed. */
  lemma {:induction false} EntryAfterFree(f: Fat, clusters: seq<nat>, d: nat)
    requires AllHeld(f, clusters)
    ensures Entry(FreeAll(f, clusters), d) == if d in clusters then 0 else Entry(f, d)
  {
    if clusters != [] {
      var before, c := clusters[..|clusters| - 1], clusters[|clusters| - 1];
      EntryAfterFree(f, before, d);
      InSnoc(clusters, d);
      EntryAfterPut(FreeAll(f, before), c, 0, d);
    }
  }
}
