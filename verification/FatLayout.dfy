/** What a FAT volume's geometry and table entries are in terms of its bytes
    (crates/fs-fat/src/lib.rs:205-223, 295-343, 369-381): the layout of the
    Microsoft FAT32 File System Specification 1.03, sections "FAT Data Structure"
    and "FAT Type Determination". */
module FatLayout {
  import opened Arith
  import opened Bytes
  import opened ClusterChains
  import opened FatTable
  import opened FatFiles
  import opened FatBitmap

  // --------------------------------------------------------------------- geometry

  lemma RoundedUp(x: nat, d: nat)
    requires d > 0
    ensures x <= (x + d - 1) / d * d < x + d
  {
    DivBounds(x + d - 1, d);
    Distrib((x + d - 1) / d, 1, d);
  }

  /** The data area begins at the first sector after the reserved sectors, the
      FATs and 32 bytes for every root entry. */
  lemma DataAreaBegins(v: Volume)
    requires Parsed(v)
    ensures HeapOf(v).start % v.bytesPerSector == 0
    ensures var meta := (v.reserved + v.numFats * v.fatSectors) * v.bytesPerSector + 32 * v.rootEntries;
            meta <= HeapOf(v).start < meta + v.bytesPerSector
  {
    var bps := v.bytesPerSector;
    RoundedUp(32 * v.rootEntries, bps);
    Distrib(v.reserved + v.numFats * v.fatSectors, v.RootDirSectors(), bps);
    MultipleOf(v.FirstDataSector(), bps);
  }

  /** The clusters are all that fit whole between there and the end. */
  lemma ClustersAreCounted(v: Volume)
    requires Parsed(v)
    ensures HeapOf(v).start <= v.TotalBytes() ==>
              HeapOf(v).start + v.Count() * HeapOf(v).clusterSize <= v.TotalBytes()
              < HeapOf(v).start + (v.Count() + 1) * HeapOf(v).clusterSize
    ensures HeapOf(v).start > v.TotalBytes() ==> v.Count() == 0
    ensures HeapOf(v).clusterSize == v.sectorsPerCluster * v.bytesPerSector && HeapOf(v).limit == v.Count() + 2
  {
    CountFits(v.totalSectors, v.FirstDataSector(), v.sectorsPerCluster, v.bytesPerSector);
  }

  lemma CountFits(total: nat, first: nat, spc: nat, bps: nat)
    requires spc > 0 && bps > 0
    ensures var n := Minus(total, first) / spc;
            && (first * bps <= total * bps ==>
                  first * bps + n * (bps * spc) <= total * bps < first * bps + (n + 1) * (bps * spc))
            && (first * bps > total * bps ==> n == 0)
  {
    var room := Minus(total, first);
    var n := room / spc;
    DivBounds(room, spc);
    if first <= total {
      SectorsToBytes(room, n, spc, bps);
      Distrib(first, room, bps);
    } else {
      DivUnique(0, spc, 0);
    }
    if first > total {
      MulMono(total + 1, first, bps);
      Distrib(total, 1, bps);
    } else {
      MulMono(first, total, bps);
    }
  }

  lemma SectorsToBytes(room: nat, n: nat, spc: nat, bps: nat)
    requires n * spc <= room < (n + 1) * spc && bps > 0
    ensures n * (bps * spc) <= room * bps < (n + 1) * (bps * spc)
  {
    MulMono(n * spc, room, bps);
    MulMono(room + 1, (n + 1) * spc, bps);
    Distrib(room, 1, bps);
    assert n * spc * bps == n * (bps * spc);
    assert (n + 1) * spc * bps == (n + 1) * (bps * spc);
  }

  /** The width of the entries follows from the number of clusters alone. */
  lemma KindByCount(v: Volume)
    requires Parsed(v)
    ensures v.FatKind() == Fat12 <==> v.Count() <= 4084
    ensures v.FatKind() == Fat16 <==> 4085 <= v.Count() <= 65_524
    ensures v.FatKind() == Fat32 <==> 65_525 <= v.Count()
  {
  }

  // ---------------------------------------------------------------------- entries

  /** A FAT32 entry is the lower 28 of the 32 bits at four times its number. */
  lemma Entry32(v: Volume, c: nat, x: nat)
    requires Parsed(v) && v.FatKind() == Fat32 && x < 0x1_0000_0000 && 4 * c + 4 <= v.fatSectors * v.bytesPerSector
    requires At(v.disk, v.reserved * v.bytesPerSector + 4 * c, ToLe32(x))
    ensures Entry(FatOf(v), c) == x % 0x1000_0000
  {
    var f, at := FatOf(v), v.reserved * v.bytesPerSector + 4 * c;
    CacheIsTransparent(f, 4 * c, 4);
    assert FatBytes(f, 4 * c, 4) == ToLe32(x) by {
      assert forall i | 0 <= i < 4 :: v.disk[at + i] == ToLe32(x)[i];
    }
  }

  /** A FAT16 entry is the 16 bits at twice its number. */
  lemma Entry16(v: Volume, c: nat, x: nat)
    requires Parsed(v) && v.FatKind() == Fat16 && x < 0x1_0000 && 2 * c + 2 <= v.fatSectors * v.bytesPerSector
    requires At(v.disk, v.reserved * v.bytesPerSector + 2 * c, ToLe16(x))
    ensures Entry(FatOf(v), c) == x
  {
    var f, at := FatOf(v), v.reserved * v.bytesPerSector + 2 * c;
    CacheIsTransparent(f, 2 * c, 2);
    assert FatBytes(f, 2 * c, 2) == ToLe16(x) by {
      assert forall i | 0 <= i < 2 :: v.disk[at + i] == ToLe16(x)[i];
    }
  }

  /** Two FAT12 entries are packed into three bytes. */
  function Packed12(x: nat, y: nat): (b: seq<Byte>)
    requires x < 0x1000 && y < 0x1000
    ensures |b| == 3
  {
    [x % 0x100, x / 0x100 + 0x10 * (y % 0x10), y / 0x10]
  }

  lemma Entry12(v: Volume, k: nat, x: nat, y: nat)
    requires Parsed(v) && v.FatKind() == Fat12 && x < 0x1000 && y < 0x1000
    requires 3 * k + 3 <= v.fatSectors * v.bytesPerSector
    requires At(v.disk, v.reserved * v.bytesPerSector + 3 * k, Packed12(x, y))
    ensures Entry(FatOf(v), 2 * k) == x && Entry(FatOf(v), 2 * k + 1) == y
  {
    var f, at, b := FatOf(v), v.reserved * v.bytesPerSector + 3 * k, Packed12(x, y);
    CacheIsTransparent(f, 3 * k, 2);
    CacheIsTransparent(f, 3 * k + 1, 2);
    assert v.disk[at] == b[0] && v.disk[at + 1] == b[1] && v.disk[at + 2] == b[2];
    assert FatBytes(f, 3 * k, 2) == [b[0], b[1]] && FatBytes(f, 3 * k + 1, 2) == [b[1], b[2]];
    assert IndexOf(Fat12, 2 * k) == 3 * k && IndexOf(Fat12, 2 * k + 1) == 3 * k + 1;
    Unpacked(x, y);
  }

  lemma Unpacked(x: nat, y: nat)
    requires x < 0x1000 && y < 0x1000
    ensures FromBytes(Fat12, 0, Packed12(x, y)[..2]) == x && FromBytes(Fat12, 1, Packed12(x, y)[1..]) == y
  {
    var b := Packed12(x, y);
    assert b[..2] == [b[0], b[1]] && b[1..] == [b[1], b[2]];
    assert LeU16(b[..2], 0) == x + 0x1000 * (y % 0x10);
    assert LeU16(b[1..], 0) == x / 0x100 + 0x10 * y;
  }

  /** Past the table an entry reads as 0. */
  lemma EntryPastTheTable(v: Volume, c: nat)
    requires Parsed(v) && v.FatKind() != Fat12 && 2 * c >= v.fatSectors * v.bytesPerSector
    ensures Entry(FatOf(v), c) == 0
  {
    var w := WidthOf(v.FatKind());
    CacheIsTransparent(FatOf(v), IndexOf(v.FatKind(), c), w);
  }

  /** A chain stops at an entry from the end mark of its width on, at one that is no
      cluster, and at a cluster that leads to itself. */
  lemma ChainStopsIff(v: Volume, c: nat)
    requires Parsed(v)
    ensures var next := Entry(FatOf(v), c);
            Ends(LinksOf(v), c)
            <==> (next < 2 || next >= v.Count() + 2 || next == c
                  || next >= (match v.FatKind()
                              case Fat12 => 0xFF8
                              case Fat16 => 0xFFF8
                              case Fat32 => 0x0FFF_FFF8))
  {
  }

  // ---------------------------------------------------------------------- the bitmap

  /** The bitmap describes a cluster exactly if the volume has it, the table has all
      of its entry, counting a FAT12 entry as one byte, and it is among the first 2^27. */
  lemma DescribedIff(v: Volume, c: nat)
    requires Parsed(v) && c >= 2
    ensures c < Described(v) + 2
       <==> (c < v.Count() + 2 && c < 134_217_730
             && (match v.FatKind()
                 case Fat32 => 4 * c + 4
                 case Fat16 => 2 * c + 2
                 case Fat12 => c + 1) <= v.fatSectors * v.bytesPerSector)
  {
    var k := v.FatKind();
    FitsIff(v.fatSectors * v.bytesPerSector, if k == Fat32 then 4 else if k == Fat16 then 2 else 1, c);
  }

  lemma FitsIff(size: nat, width: nat, c: nat)
    requires width > 0
    ensures c < size / width <==> width * c + width <= size
  {
    DivBounds(size, width);
    var q := size / width;
    Distrib(c, 1, width);
    if c < q {
      MulMono(c + 1, q, width);
    } else {
      MulMono(q + 1, c + 1, width);
    }
  }
}
