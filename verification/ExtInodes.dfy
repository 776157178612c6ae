/** Where an ext inode is, and which inode a slot of a journalled inode-table
    block is (crates/fs-ext/src/sb.rs:44-59, crates/fs-ext/src/journal.rs:32-39, 183-218). */
module ExtInodes {
  import opened Arith
  import opened Bytes
  import opened Wrappers

  /** `tables[g]` is the first block of group `g`'s inode table. */
  datatype Superblock = Superblock(blockSize: nat, inodeSize: nat, inodesPerGroup: nat, tables: seq<nat>)

  function AtLeast1(x: nat): nat { if x == 0 then 1 else x }

  /** `inode_location`: byte offset of inode `ino`, counted from 1. */
  function InodeLocation(sb: Superblock, ino: nat): Option<nat> {
    if ino == 0 || sb.inodesPerGroup == 0 then None
    else
      var group, index := (ino - 1) / sb.inodesPerGroup, (ino - 1) % sb.inodesPerGroup;
      if group >= |sb.tables| then None
      else Some(sb.tables[group] * sb.blockSize + index * sb.inodeSize)
  }

  function TableBlocks(sb: Superblock): nat {
    AtLeast1(sb.inodesPerGroup * sb.inodeSize / AtLeast1(sb.blockSize))
  }

  function PerBlock(sb: Superblock): nat { sb.blockSize / AtLeast1(sb.inodeSize) }

  predicate InTable(sb: Superblock, g: nat, b: nat)
    requires g < |sb.tables|
  {
    sb.tables[g] <= b < sb.tables[g] + TableBlocks(sb)
  }

  /** The index of a slot in its table. */
  function IndexOf(sb: Superblock, g: nat, b: nat, k: nat): nat
    requires g < |sb.tables| && InTable(sb, g, b)
  {
    var t: nat, per: nat := b - sb.tables[g], PerBlock(sb);
    t * per + k
  }

  /** The number given to slot `k` of block `b` of group `g`'s table. */
  function SlotNumber(sb: Superblock, g: nat, b: nat, k: nat): nat
    requires g < |sb.tables| && InTable(sb, g, b)
  {
    g * sb.inodesPerGroup + IndexOf(sb, g, b, k) + 1
  }

  /** The first group from `g` on whose table holds the block. */
  function GroupFrom(sb: Superblock, g: nat, b: nat): (r: Option<nat>)
    requires g <= |sb.tables|
    ensures r.Some? ==> g <= r.value < |sb.tables| && InTable(sb, r.value, b)
    ensures r == None <==> forall i | g <= i < |sb.tables| :: !InTable(sb, i, b)
    decreases |sb.tables| - g
  {
    if g == |sb.tables| then None else if InTable(sb, g, b) then Some(g) else GroupFrom(sb, g + 1, b)
  }

  // ------------------------------------------------------------------- harvesting

  /** `parse_inode_bytes`, with an inode that is empty or maps nothing left out. */
  type Parse<!T> = seq<Byte> -> Option<T>

  function SlotBytes(sb: Superblock, blk: seq<Byte>, k: nat): Option<seq<Byte>> {
    if k * sb.inodeSize + sb.inodeSize <= |blk| then Some(blk[k * sb.inodeSize..k * sb.inodeSize + sb.inodeSize])
    else None
  }

  /** What slot `k` yields. */
  function Found<T>(sb: Superblock, blk: seq<Byte>, parse: Parse<T>, k: nat): Option<T> {
    match SlotBytes(sb, blk, k)
    case None => None
    case Some(raw) => parse(raw)
  }

  /** Slots below `done` of block `b` are in the map, each under its own number,
      unless something was there before. */
  ghost predicate Harvested<T>(sb: Superblock, g: nat, b: nat, blk: seq<Byte>, parse: Parse<T>,
                               done: nat, was: map<nat, T>, now: map<nat, T>)
    requires g < |sb.tables| && InTable(sb, g, b)
  {
    && (forall n | n in was :: n in now && now[n] == was[n])
    && (forall k: nat | k < done && Found(sb, blk, parse, k).Some? && Numbered(sb, g, b, k) ::
          SlotNumber(sb, g, b, k) in now
          && (SlotNumber(sb, g, b, k) !in was
              ==> now[SlotNumber(sb, g, b, k)] == Found(sb, blk, parse, k).value))
    && (forall n | n in now && n !in was ::
          exists k: nat :: k < done && Found(sb, blk, parse, k).Some? && Numbered(sb, g, b, k)
                           && SlotNumber(sb, g, b, k) == n)
  }

  /** The number is one of 32 bits. */
  predicate Numbered(sb: Superblock, g: nat, b: nat, k: nat)
    requires g < |sb.tables| && InTable(sb, g, b)
  {
    SlotNumber(sb, g, b, k) < 0x1_0000_0000
  }

  lemma HarvestOne<T>(sb: Superblock, g: nat, b: nat, blk: seq<Byte>, parse: Parse<T>,
                      k: nat, was: map<nat, T>, now: map<nat, T>)
    requires g < |sb.tables| && InTable(sb, g, b) && Harvested(sb, g, b, blk, parse, k, was, now)
    ensures var n := SlotNumber(sb, g, b, k);
            var found := Found(sb, blk, parse, k);
            Harvested(sb, g, b, blk, parse, k + 1, was,
                      if found.Some? && Numbered(sb, g, b, k) && n !in now then now[n := found.value] else now)
  {
    var n := SlotNumber(sb, g, b, k);
    assert forall j: nat | j < k :: SlotNumber(sb, g, b, j) < n;
    if n in now && n !in was {
      assert false;
    }
  }

  /** `harvest_inode_block`. */
  method HarvestInodeBlock<T>(sb: Superblock, b: nat, blk: seq<Byte>, parse: Parse<T>, was: map<nat, T>)
    returns (now: map<nat, T>)
    ensures GroupFrom(sb, 0, b) == None ==> now == was
    ensures GroupFrom(sb, 0, b).Some? ==>
              Harvested(sb, GroupFrom(sb, 0, b).value, b, blk, parse, PerBlock(sb), was, now)
    ensures forall n | n in was :: n in now && now[n] == was[n]
    ensures GroupFrom(sb, 0, b).Some? ==>
              var g := GroupFrom(sb, 0, b).value;
              && (forall k: nat | k < PerBlock(sb) && Found(sb, blk, parse, k).Some?
                                  && SlotNumber(sb, g, b, k) < 0x1_0000_0000 ::
                    SlotNumber(sb, g, b, k) in now
                    && (SlotNumber(sb, g, b, k) !in was
                        ==> now[SlotNumber(sb, g, b, k)] == Found(sb, blk, parse, k).value))
              && (forall n | n in now && n !in was ::
                    n < 0x1_0000_0000
                    && exists k: nat ::
                         k < PerBlock(sb) && Found(sb, blk, parse, k).Some? && SlotNumber(sb, g, b, k) == n)
  {
    now := was;
    for g := 0 to |sb.tables|
      invariant now == was && GroupFrom(sb, g, b) == GroupFrom(sb, 0, b)
    {
      if InTable(sb, g, b) {
        for k := 0 to PerBlock(sb)
          invariant Harvested(sb, g, b, blk, parse, k, was, now)
        {
          HarvestOne(sb, g, b, blk, parse, k, was, now);
          var ino := g * sb.inodesPerGroup + ((b - sb.tables[g]) * PerBlock(sb) + k) + 1;
          var raw := SlotBytes(sb, blk, k);
          if ino >= 0x1_0000_0000 || raw == None {
            continue;
          }
          var inode := parse(raw.value);
          if inode.Some? && ino !in now {
            now := now[ino := inode.value];
          }
        }
        return;
      }
    }
  }

  // ------------------------------------------------------------- numbers and places

  /** Slots tile blocks. */
  predicate Tiled(sb: Superblock) {
    sb.inodeSize > 0 && sb.blockSize > 0 && sb.blockSize % sb.inodeSize == 0 && sb.inodesPerGroup > 0
  }

  lemma TiledBlock(sb: Superblock)
    requires Tiled(sb)
    ensures PerBlock(sb) > 0 && PerBlock(sb) * sb.inodeSize == sb.blockSize
  {
    Aligned(sb.blockSize, sb.inodeSize);
  }

  /** Index times size is block and slot. */
  lemma PlaceOf(table: nat, t: nat, k: nat, per: nat, size: nat, bs: nat)
    requires per * size == bs
    ensures table * bs + (t * per + k) * size == (table + t) * bs + k * size
  {
    Distrib(t * per, k, size);
    assert t * per * size == t * (per * size);
    Distrib(table, t, bs);
  }

  /** A slot within its group is where its number says. */
  lemma SlotIsLocated(sb: Superblock, g: nat, b: nat, k: nat)
    requires Tiled(sb) && g < |sb.tables| && InTable(sb, g, b) && IndexOf(sb, g, b, k) < sb.inodesPerGroup
    ensures InodeLocation(sb, SlotNumber(sb, g, b, k)) == Some(b * sb.blockSize + k * sb.inodeSize)
  {
    TiledBlock(sb);
    Quotient(g * sb.inodesPerGroup + IndexOf(sb, g, b, k), sb.inodesPerGroup, g);
    PlaceOf(sb.tables[g], b - sb.tables[g], k, PerBlock(sb), sb.inodeSize, sb.blockSize);
  }

  lemma WholeTable(sb: Superblock)
    requires Tiled(sb)
    ensures TableBlocks(sb) == AtLeast1(sb.inodesPerGroup / PerBlock(sb))
  {
    TiledBlock(sb);
    var ipg, per, size := sb.inodesPerGroup, PerBlock(sb), sb.inodeSize;
    DivBounds(ipg, per);
    var q := ipg / per;
    assert q * per * size == q * (per * size);
    assert (q + 1) * per * size == (q + 1) * (per * size);
    MulMono(q * per, ipg, size);
    MulMono(ipg + 1, (q + 1) * per, size);
    Distrib(ipg, 1, size);
    DivUnique(ipg * size, per * size, q);
  }

  /** An inode that the journal's copies of table blocks can bring back. */
  ghost predicate Covered(sb: Superblock, ino: nat) {
    exists g: nat, b: nat, k: nat {:trigger SlotNumber(sb, g, b, k)} ::
      IsSlot(sb, g, b, k) && SlotNumber(sb, g, b, k) == ino && IndexOf(sb, g, b, k) < sb.inodesPerGroup
  }

  predicate IsSlot(sb: Superblock, g: nat, b: nat, k: nat) {
    g < |sb.tables| && InTable(sb, g, b) && k < PerBlock(sb)
  }

  lemma IndexFits(t: nat, k: nat, per: nat, blocks: nat)
    requires t < blocks && k < per
    ensures t * per + k < blocks * per
  {
    MulMono(t + 1, blocks, per);
    Distrib(t, 1, per);
  }

  /** Every inode that has a place has one slot, if its index is inside the
      blocks of the table, and none otherwise. */
  lemma CoveredIff(sb: Superblock, ino: nat)
    requires Tiled(sb) && InodeLocation(sb, ino).Some?
    ensures Covered(sb, ino) <==> (ino - 1) % sb.inodesPerGroup < TableBlocks(sb) * PerBlock(sb)
  {
    var ipg, per := sb.inodesPerGroup, PerBlock(sb);
    var g, index := Split(ino - 1, ipg);
    TiledBlock(sb);
    if index < TableBlocks(sb) * per {
      DivBelow(index, TableBlocks(sb), per);
      var t, k := Split(index, per);
      assert IsSlot(sb, g, sb.tables[g] + t, k);
      assert SlotNumber(sb, g, sb.tables[g] + t, k) == ino;
    }
    if Covered(sb, ino) {
      var h: nat, b: nat, k: nat :| IsSlot(sb, h, b, k) && SlotNumber(sb, h, b, k) == ino && IndexOf(sb, h, b, k) < ipg;
      Quotient(ino - 1, ipg, h);
      IndexFits(b - sb.tables[h], k, per, TableBlocks(sb));
    }
  }

  /** All of them are covered exactly when a table fills whole blocks, or is
      smaller than one. */
  lemma AllCoveredIff(sb: Superblock)
    requires Tiled(sb) && sb.tables != []
    ensures (forall ino | InodeLocation(sb, ino).Some? :: Covered(sb, ino))
       <==> (sb.inodesPerGroup % PerBlock(sb) == 0 || sb.inodesPerGroup < PerBlock(sb))
  {
    var ipg, per := sb.inodesPerGroup, PerBlock(sb);
    TiledBlock(sb);
    WholeTable(sb);
    TableHolds(ipg, per);
    if ipg % per == 0 || ipg < per {
      forall ino | InodeLocation(sb, ino).Some? ensures Covered(sb, ino) {
        CoveredIff(sb, ino);
      }
    } else {
      Quotient(ipg - 1, ipg, 0);
      CoveredIff(sb, ipg);
    }
  }

  lemma TableHolds(ipg: nat, per: nat)
    requires ipg > 0 && per > 0
    ensures ipg <= AtLeast1(ipg / per) * per <==> ipg % per == 0 || ipg < per
  {
    var q, r := Split(ipg, per);
    if q == 0 {
      assert ipg == r;
    }
  }

  /** Two slots with one number and both inside their groups are one slot. */
  lemma SlotIsUnique(sb: Superblock, g: nat, b: nat, k: nat, g': nat, b': nat, k': nat)
    requires Tiled(sb) && IsSlot(sb, g, b, k) && IsSlot(sb, g', b', k')
    requires IndexOf(sb, g, b, k) < sb.inodesPerGroup && IndexOf(sb, g', b', k') < sb.inodesPerGroup
    requires SlotNumber(sb, g, b, k) == SlotNumber(sb, g', b', k')
    ensures g == g' && b == b' && k == k'
  {
    var n := SlotNumber(sb, g, b, k) - 1;
    Quotient(n, sb.inodesPerGroup, g);
    Quotient(n, sb.inodesPerGroup, g');
    Quotient(IndexOf(sb, g, b, k), PerBlock(sb), b - sb.tables[g]);
    Quotient(IndexOf(sb, g', b', k'), PerBlock(sb), b' - sb.tables[g']);
  }

  /** Past the end of its group, which happens only when a table is smaller than
      a block, a slot is given the number of some other place, or of none. */
  lemma SlotIsLocatedIff(sb: Superblock, g: nat, b: nat, k: nat)
    requires Tiled(sb) && IsSlot(sb, g, b, k)
    ensures InodeLocation(sb, SlotNumber(sb, g, b, k)) == Some(b * sb.blockSize + k * sb.inodeSize)
       <==> IndexOf(sb, g, b, k) < sb.inodesPerGroup
  {
    var ipg, per, index := sb.inodesPerGroup, PerBlock(sb), IndexOf(sb, g, b, k);
    TiledBlock(sb);
    WholeTable(sb);
    if index < ipg {
      SlotIsLocated(sb, g, b, k);
    } else {
      OnlyBlock(ipg, per, b - sb.tables[g], k);
      var j, rest := Split(index, ipg);
      Distrib(g, j, ipg);
      Quotient(SlotNumber(sb, g, b, k) - 1, ipg, g + j);
      if g + j < |sb.tables| {
        NotABlock(sb.tables[g + j], sb.tables[g], j, ipg, k, rest, sb.inodeSize, sb.blockSize, per);
      }
    }
  }

  lemma OnlyBlock(ipg: nat, per: nat, t: nat, k: nat)
    requires ipg > 0 && per > 0 && t < AtLeast1(ipg / per) && k < per && t * per + k >= ipg
    ensures t == 0 && ipg < per
  {
    DivBounds(ipg, per);
    if ipg / per > 0 {
      IndexFits(t, k, per, ipg / per);
    }
  }

  lemma NotABlock(table': nat, table: nat, j: nat, ipg: nat, k: nat, rest: nat, size: nat, bs: nat, per: nat)
    requires size > 0 && per * size == bs && k < per && k == j * ipg + rest && j > 0 && ipg > 0
    ensures table' * bs + rest * size != table * bs + k * size
  {
    var d := j * ipg;
    Distrib(d, rest, size);
    MulMono(1, j, ipg);
    MulMono(1, d, size);
    MulMono(d + 1, per, size);
    Distrib(d, 1, size);
    if table' * bs + rest * size == table * bs + k * size {
      Quotient(table * bs + d * size, bs, table);
      MultipleOf(table', bs);
    }
  }

  /** No two tables share a block. */
  ghost predicate Disjoint(sb: Superblock) {
    forall g, h, b | 0 <= g < |sb.tables| && 0 <= h < |sb.tables| && InTable(sb, g, b) && InTable(sb, h, b) :: g == h
  }

  /** Then a block is numbered by the one group that has it: harvesting gives the
      inode at a place its own number. */
  lemma HarvestNumbersPlaces(sb: Superblock, g: nat, b: nat, k: nat)
    requires Tiled(sb) && Disjoint(sb) && IsSlot(sb, g, b, k)
    ensures GroupFrom(sb, 0, b) == Some(g)
    ensures sb.inodesPerGroup >= PerBlock(sb) ==>
              InodeLocation(sb, SlotNumber(sb, g, b, k)) == Some(b * sb.blockSize + k * sb.inodeSize)
  {
    var r := GroupFrom(sb, 0, b);
    SlotIsLocatedIff(sb, g, b, k);
    if sb.inodesPerGroup >= PerBlock(sb) && IndexOf(sb, g, b, k) >= sb.inodesPerGroup {
      TiledBlock(sb);
      WholeTable(sb);
      OnlyBlock(sb.inodesPerGroup, PerBlock(sb), b - sb.tables[g], k);
    }
  }

  // ---------------------------------------------------------------------- on disk

  /** Inode `i` of group `g`, counted from 0, is `i` inodes into the group's table. */
  lemma InodePlace(sb: Superblock, g: nat, i: nat)
    requires g < |sb.tables| && i < sb.inodesPerGroup
    ensures InodeLocation(sb, g * sb.inodesPerGroup + i + 1) == Some(sb.tables[g] * sb.blockSize + i * sb.inodeSize)
    ensures InodeLocation(sb, 0) == None
  {
    Quotient(g * sb.inodesPerGroup + i, sb.inodesPerGroup, g);
  }

  /** No inode has a place past the last group. */
  lemma NoPlacePastTheGroups(sb: Superblock, ino: nat)
    requires ino > |sb.tables| * sb.inodesPerGroup
    ensures InodeLocation(sb, ino) == None
  {
    if sb.inodesPerGroup > 0 && (ino - 1) / sb.inodesPerGroup < |sb.tables| {
      DivBounds(ino - 1, sb.inodesPerGroup);
      MulMono((ino - 1) / sb.inodesPerGroup + 1, |sb.tables|, sb.inodesPerGroup);
    }
  }

  /** What slot `k` of a block yields is what stands `k` inodes into the block. */
  lemma SlotIsCut<T>(sb: Superblock, blk: seq<Byte>, parse: Parse<T>, k: nat)
    ensures (k + 1) * sb.inodeSize <= |blk| ==>
              k * sb.inodeSize >= 0
              && Found(sb, blk, parse, k) == parse(blk[k * sb.inodeSize..(k + 1) * sb.inodeSize])
    ensures (k + 1) * sb.inodeSize > |blk| ==> Found(sb, blk, parse, k) == None
  {
    Distrib(k, 1, sb.inodeSize);
  }

  /** A journalled copy of a table block yields, under each number, what would be
      read from that inode's place on the disk. */
  lemma SlotIsTheInode<T>(sb: Superblock, disk: seq<Byte>, g: nat, b: nat, k: nat, start: nat, parse: Parse<T>)
    requires Tiled(sb) && g < |sb.tables| && InTable(sb, g, b) && k < PerBlock(sb)
    requires IndexOf(sb, g, b, k) < sb.inodesPerGroup
    requires start == b * sb.blockSize && start + sb.blockSize <= |disk|
    ensures InodeLocation(sb, SlotNumber(sb, g, b, k)).Some?
    ensures var p := InodeLocation(sb, SlotNumber(sb, g, b, k)).value;
            && p + sb.inodeSize <= |disk|
            && Found(sb, disk[start..start + sb.blockSize], parse, k) == parse(disk[p..p + sb.inodeSize])
  {
    SlotIsLocated(sb, g, b, k);
    SlotInBlock(sb, k);
    CutOfBlock(sb, disk, disk[start..start + sb.blockSize], start, k, parse);
  }

  lemma SlotInBlock(sb: Superblock, k: nat)
    requires Tiled(sb) && k < PerBlock(sb)
    ensures k * sb.inodeSize + sb.inodeSize <= sb.blockSize
  {
    TiledBlock(sb);
    MulMono(k + 1, PerBlock(sb), sb.inodeSize);
    Distrib(k, 1, sb.inodeSize);
  }

  lemma CutOfBlock<T>(sb: Superblock, disk: seq<Byte>, blk: seq<Byte>, start: nat, k: nat, parse: Parse<T>)
    requires start + |blk| <= |disk| && blk == disk[start..start + |blk|]
    requires k * sb.inodeSize + sb.inodeSize <= |blk|
    ensures var p := start + k * sb.inodeSize;
            Found(sb, blk, parse, k) == parse(disk[p..p + sb.inodeSize])
  {
    var at: nat, p: nat := k * sb.inodeSize, start + k * sb.inodeSize;
    SliceSlice(disk, start, start + |blk|, at, at + sb.inodeSize);
  }
}
