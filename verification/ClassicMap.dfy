/** The classic ext2/3 block map: 12 direct pointers, then single, double and
    triple indirect ones (crates/fs-ext/src/inode.rs:158-223). */
module ClassicMap {
  import opened Arith
  import opened Bytes
  import opened Extents
  import opened ExtBlocks

  // --------------------------------------------------- the classic indirect map

  /** Pointer `i` of a block of pointers. */
  function Pointer(data: seq<Byte>, i: nat): nat { LeU32(data, i * 4) }

  /** What the classic walk carries: also the next logical block. */
  datatype Classic = Classic(budget: nat, logical: nat, out: seq<Block>)

  function PushData(c: Classic, phys: nat): Classic {
    Classic(c.budget, c.logical + 1, if phys != 0 then c.out + [Block(c.logical, phys)] else c.out)
  }

  function WalkIndirect(disk: Disk, block: nat, level: nat, ppb: nat, c: Classic): Classic
    requires level > 0
    decreases level, 1, 0
  {
    if block == 0 || |c.out| > MAX_FILE_BLOCKS || c.budget == 0 then c
    else WalkPointers(disk, disk(block), level, ppb, ppb, c.(budget := c.budget - 1))
  }

  /** The first `n` pointers of an indirect block. */
  function WalkPointers(disk: Disk, data: seq<Byte>, level: nat, ppb: nat, n: nat, c: Classic): Classic
    requires level > 0
    decreases level, 0, n
  {
    if n == 0 then c
    else
      var c1 := WalkPointers(disk, data, level, ppb, n - 1, c);
      if |c1.out| > MAX_FILE_BLOCKS then c1
      else if level == 1 then PushData(c1, Pointer(data, n - 1))
      else WalkIndirect(disk, Pointer(data, n - 1), level - 1, ppb, c1)
  }

  function Directs(iblock: seq<Byte>, n: nat): Classic {
    if n == 0 then Classic(0, 0, []) else PushData(Directs(iblock, n - 1), Pointer(iblock, n - 1))
  }

  /** `collect_classic` over a budget. */
  function CollectClassic(disk: Disk, iblock: seq<Byte>, ppb: nat, budget: nat): Classic {
    var c0 := Directs(iblock, 12).(budget := budget);
    var c1 := WalkIndirect(disk, Pointer(iblock, 12), 1, ppb, c0);
    var c2 := WalkIndirect(disk, Pointer(iblock, 13), 2, ppb, c1);
    WalkIndirect(disk, Pointer(iblock, 14), 3, ppb, c2)
  }

  method Indirect(disk: Disk, block: nat, level: nat, ppb: nat, c: Classic) returns (c': Classic)
    requires level > 0
    ensures c' == WalkIndirect(disk, block, level, ppb, c)
    decreases level
  {
    var budget, logical, out := c.budget, c.logical, c.out;
    if block == 0 || |out| > MAX_FILE_BLOCKS || budget == 0 {
      return c;
    }
    budget := budget - 1;
    var data := disk(block);
    for i := 0 to ppb
      invariant Classic(budget, logical, out) == WalkPointers(disk, data, level, ppb, i, c.(budget := c.budget - 1))
      invariant |out| <= MAX_FILE_BLOCKS
    {
      var b := Pointer(data, i);
      if level == 1 {
        if b != 0 {
          out := out + [Block(logical, b)];
        }
        logical := logical + 1;
      } else {
        var r := Indirect(disk, b, level - 1, ppb, Classic(budget, logical, out));
        budget, logical, out := r.budget, r.logical, r.out;
      }
      if |out| > MAX_FILE_BLOCKS {
        PointersStop(disk, data, level, ppb, i + 1, ppb, c.(budget := c.budget - 1));
        return Classic(budget, logical, out);
      }
    }
    c' := Classic(budget, logical, out);
  }

  lemma {:induction false} PointersStop(disk: Disk, data: seq<Byte>, level: nat, ppb: nat, i: nat, n: nat, c: Classic)
    requires level > 0 && i <= n && |WalkPointers(disk, data, level, ppb, i, c).out| > MAX_FILE_BLOCKS
    ensures WalkPointers(disk, data, level, ppb, n, c) == WalkPointers(disk, data, level, ppb, i, c)
    decreases n
  {
    if i < n {
      PointersStop(disk, data, level, ppb, i, n - 1, c);
    }
  }

  /** `Inode::extents` for a file with a classic map. */
  method ClassicExtents(disk: Disk, bs: nat, iblock: seq<Byte>, size: nat) returns (extents: seq<Extent>)
    ensures var blocks := CollectClassic(disk, iblock, bs / 4, 4096).out;
            Flatten(extents) == Stream(Sort(blocks), bs)[..Min(size, |Stream(Sort(blocks), bs)|)]
  {
    var c := Classic(MAX_MAP_NODES, 0, []);
    for i := 0 to 12
      invariant c == Directs(iblock, i).(budget := MAX_MAP_NODES)
    {
      c := PushData(c, Pointer(iblock, i));
    }
    c := Indirect(disk, Pointer(iblock, 12), 1, bs / 4, c);
    c := Indirect(disk, Pointer(iblock, 13), 2, bs / 4, c);
    c := Indirect(disk, Pointer(iblock, 14), 3, bs / 4, c);
    extents := RunsToExtents(bs, c.out, size);
  }

  // ----------------------------------------- what the indirect pointers describe

  /** Data blocks under one pointer of a level. */
  function Span(level: nat, ppb: nat): nat {
    if level == 0 then 1 else ppb * Span(level - 1, ppb)
  }

  function Zeros(n: nat): (r: seq<nat>)
    ensures |r| == n && forall i | 0 <= i < n :: r[i] == 0
  {
    seq(n, _ => 0)
  }

  /** The map under one pointer; a zero pointer is a hole of its whole span. */
  function MapOf(disk: Disk, block: nat, level: nat, ppb: nat): FileMap
    requires level > 0
    decreases level, 1, 0
  {
    if block == 0 then Zeros(Span(level, ppb)) else MapOfPointers(disk, disk(block), level, ppb, ppb)
  }

  function MapOfPointers(disk: Disk, data: seq<Byte>, level: nat, ppb: nat, n: nat): FileMap
    requires level > 0
    decreases level, 0, n
  {
    if n == 0 then []
    else MapOfPointers(disk, data, level, ppb, n - 1) +
         (if level == 1 then [Pointer(data, n - 1)] else MapOf(disk, Pointer(data, n - 1), level - 1, ppb))
  }

  function DirectMap(iblock: seq<Byte>, n: nat): FileMap {
    seq(n, i requires 0 <= i => Pointer(iblock, i))
  }

  /** Twelve direct pointers, then the three indirect ones. */
  function ClassicMap(disk: Disk, iblock: seq<Byte>, ppb: nat): FileMap {
    DirectMap(iblock, 12) + MapOf(disk, Pointer(iblock, 12), 1, ppb)
    + MapOf(disk, Pointer(iblock, 13), 2, ppb) + MapOf(disk, Pointer(iblock, 14), 3, ppb)
  }

  /** A map gives every data block under a pointer its own place. */
  lemma {:induction false} MapLength(disk: Disk, block: nat, level: nat, ppb: nat)
    requires level > 0
    ensures |MapOf(disk, block, level, ppb)| == Span(level, ppb)
    decreases level, 1, 0
  {
    if block != 0 {
      MapPointersLength(disk, disk(block), level, ppb, ppb);
    }
  }

  lemma {:induction false} MapPointersLength(disk: Disk, data: seq<Byte>, level: nat, ppb: nat, n: nat)
    requires level > 0
    ensures |MapOfPointers(disk, data, level, ppb, n)| == n * Span(level - 1, ppb)
    decreases level, 0, n
  {
    if n > 0 {
      MapPointersLength(disk, data, level, ppb, n - 1);
      PartLength(disk, data, level, ppb, n);
      Distrib(n - 1, 1, Span(level - 1, ppb));
    }
  }

  lemma {:induction false} PartLength(disk: Disk, data: seq<Byte>, level: nat, ppb: nat, n: nat)
    requires level > 0 && n > 0
    ensures |MapOfPointers(disk, data, level, ppb, n)|
         == |MapOfPointers(disk, data, level, ppb, n - 1)| + Span(level - 1, ppb)
    decreases level, 0, n - 1
  {
    if level > 1 {
      MapLength(disk, Pointer(data, n - 1), level - 1, ppb);
    }
  }

  /** Indirect blocks the walk has to read. */
  function MapNodes(disk: Disk, block: nat, level: nat, ppb: nat): nat
    requires level > 0
    decreases level, 1, 0
  {
    if block == 0 then 0 else 1 + PointerNodes(disk, disk(block), level, ppb, ppb)
  }

  function PointerNodes(disk: Disk, data: seq<Byte>, level: nat, ppb: nat, n: nat): nat
    requires level > 0
    decreases level, 0, n
  {
    if n == 0 then 0
    else PointerNodes(disk, data, level, ppb, n - 1) +
         (if level == 1 then 0 else MapNodes(disk, Pointer(data, n - 1), level - 1, ppb))
  }

  function ClassicNodes(disk: Disk, iblock: seq<Byte>, ppb: nat): nat {
    MapNodes(disk, Pointer(iblock, 12), 1, ppb) + MapNodes(disk, Pointer(iblock, 13), 2, ppb)
    + MapNodes(disk, Pointer(iblock, 14), 3, ppb)
  }

  function NonZeros(m: seq<nat>): seq<nat> {
    if m == [] then []
    else if m[|m| - 1] != 0 then NonZeros(m[..|m| - 1]) + [m[|m| - 1]]
    else NonZeros(m[..|m| - 1])
  }

  function PhysOf(blocks: seq<Block>): (r: seq<nat>)
    ensures |r| == |blocks|
  {
    seq(|blocks|, i requires 0 <= i < |blocks| => blocks[i].phys)
  }

  lemma {:induction false} NonZerosConcat(a: seq<nat>, b: seq<nat>)
    ensures NonZeros(a + b) == NonZeros(a) + NonZeros(b)
    decreases |b|
  {
    if b == [] {
      assert a + b == a;
    } else {
      assert (a + b)[..|a + b| - 1] == a + b[..|b| - 1];
      NonZerosConcat(a, b[..|b| - 1]);
    }
  }

  lemma {:induction false} NonZerosOfZeros(n: nat)
    ensures NonZeros(Zeros(n)) == []
  {
    if n > 0 {
      assert Zeros(n)[..n - 1] == Zeros(n - 1);
      NonZerosOfZeros(n - 1);
    }
  }

  lemma {:induction false} MappedPhys(m: FileMap)
    ensures PhysOf(Mapped(m)) == NonZeros(m)
  {
    if m != [] {
      MappedPhys(m[..|m| - 1]);
    }
  }

  /** Streams depend on where the blocks are, not on their numbers. */
  lemma {:induction false} StreamOfPhys(a: seq<Block>, b: seq<Block>, bs: nat)
    requires PhysOf(a) == PhysOf(b)
    ensures Stream(a, bs) == Stream(b, bs)
    decreases |a|
  {
    assert |a| == |PhysOf(a)| == |b|;
    if a != [] {
      var k := |a| - 1;
      assert PhysOf(a)[k] == PhysOf(b)[k];
      assert PhysOf(a[..k]) == PhysOf(a)[..k] && PhysOf(b[..k]) == PhysOf(b)[..k];
      StreamOfPhys(a[..k], b[..k], bs);
    }
  }

  predicate Ordered(c: Classic) {
    Sorted(c.out) && forall i | 0 <= i < |c.out| :: c.out[i].logical < c.logical
  }

  /** `c'` continues `c` with the mapped blocks of `m`. */
  predicate Continues(c: Classic, m: FileMap, nodes: nat, c': Classic) {
    && PhysOf(c'.out) == PhysOf(c.out) + NonZeros(m)
    && c'.budget + nodes == c.budget
    && (Ordered(c) ==> Ordered(c') && c.logical <= c'.logical)
  }

  lemma ContinuesOn(c: Classic, m1: FileMap, n1: nat, c1: Classic, m2: FileMap, n2: nat, c2: Classic)
    requires Continues(c, m1, n1, c1) && Continues(c1, m2, n2, c2)
    ensures Continues(c, m1 + m2, n1 + n2, c2)
  {
    NonZerosConcat(m1, m2);
    assert PhysOf(c.out) + NonZeros(m1) + NonZeros(m2) == PhysOf(c.out) + (NonZeros(m1) + NonZeros(m2));
  }

  lemma PushContinues(c: Classic, phys: nat)
    ensures Continues(c, [phys], 0, PushData(c, phys))
  {
    assert [phys][..0] == [];
    if phys != 0 {
      assert PhysOf(c.out + [Block(c.logical, phys)]) == PhysOf(c.out) + [phys];
    }
  }

  /** With budget and room enough, the walk under a pointer collects what its
      map names, in order. */
  lemma {:induction false} WalkIsMap(disk: Disk, block: nat, level: nat, ppb: nat, c: Classic)
    requires level > 0 && c.budget >= MapNodes(disk, block, level, ppb)
    requires |c.out| + |NonZeros(MapOf(disk, block, level, ppb))| <= MAX_FILE_BLOCKS
    ensures Continues(c, MapOf(disk, block, level, ppb), MapNodes(disk, block, level, ppb),
                      WalkIndirect(disk, block, level, ppb, c))
    decreases level, 1, 0
  {
    if block == 0 {
      NonZerosOfZeros(Span(level, ppb));
    } else {
      WalkPointersIsMap(disk, disk(block), level, ppb, ppb, c.(budget := c.budget - 1));
    }
  }

  /** What one pointer's part of the map is, what it costs, and what it leaves. */
  function PointerMap(disk: Disk, ptr: nat, level: nat, ppb: nat): FileMap
    requires level > 0
  {
    if level == 1 then [ptr] else MapOf(disk, ptr, level - 1, ppb)
  }

  function PointerCost(disk: Disk, ptr: nat, level: nat, ppb: nat): nat
    requires level > 0
  {
    if level == 1 then 0 else MapNodes(disk, ptr, level - 1, ppb)
  }

  function WalkPointer(disk: Disk, ptr: nat, level: nat, ppb: nat, c: Classic): Classic
    requires level > 0
  {
    if level == 1 then PushData(c, ptr) else WalkIndirect(disk, ptr, level - 1, ppb, c)
  }

  lemma RoomLeft(c: Classic, m1: FileMap, n1: nat, c1: Classic, m2: FileMap)
    requires Continues(c, m1, n1, c1) && |c.out| + |NonZeros(m1 + m2)| <= MAX_FILE_BLOCKS
    ensures |c1.out| + |NonZeros(m2)| <= MAX_FILE_BLOCKS && |NonZeros(m1)| <= |NonZeros(m1 + m2)|
  {
    NonZerosConcat(m1, m2);
    assert |PhysOf(c1.out)| == |c1.out|;
  }

  lemma {:induction false} WalkPointersIsMap(disk: Disk, data: seq<Byte>, level: nat, ppb: nat, n: nat, c: Classic)
    requires level > 0 && c.budget >= PointerNodes(disk, data, level, ppb, n)
    requires |c.out| + |NonZeros(MapOfPointers(disk, data, level, ppb, n))| <= MAX_FILE_BLOCKS
    ensures Continues(c, MapOfPointers(disk, data, level, ppb, n), PointerNodes(disk, data, level, ppb, n),
                      WalkPointers(disk, data, level, ppb, n, c))
    decreases level, 0, n
  {
    if n == 0 {
      assert PhysOf(c.out) + [] == PhysOf(c.out);
    } else {
      var ptr := Pointer(data, n - 1);
      var m1, n1 := MapOfPointers(disk, data, level, ppb, n - 1), PointerNodes(disk, data, level, ppb, n - 1);
      var m2, n2 := PointerMap(disk, ptr, level, ppb), PointerCost(disk, ptr, level, ppb);
      NonZerosConcat(m1, m2);
      WalkPointersIsMap(disk, data, level, ppb, n - 1, c);
      var c1 := WalkPointers(disk, data, level, ppb, n - 1, c);
      RoomLeft(c, m1, n1, c1, m2);
      if level == 1 {
        PushContinues(c1, ptr);
      } else {
        WalkIsMap(disk, ptr, level - 1, ppb, c1);
      }
      ContinuesOn(c, m1, n1, c1, m2, n2, WalkPointer(disk, ptr, level, ppb, c1));
    }
  }

  lemma {:induction false} DirectsAreMap(iblock: seq<Byte>, n: nat)
    ensures Continues(Classic(0, 0, []), DirectMap(iblock, n), 0, Directs(iblock, n))
  {
    if n > 0 {
      DirectsAreMap(iblock, n - 1);
      NextDirect(Classic(0, 0, []), DirectMap(iblock, n - 1), Directs(iblock, n - 1), Pointer(iblock, n - 1));
      assert DirectMap(iblock, n) == DirectMap(iblock, n - 1) + [Pointer(iblock, n - 1)];
    }
  }

  lemma NextDirect(start: Classic, m: FileMap, c: Classic, phys: nat)
    requires Continues(start, m, 0, c)
    ensures Continues(start, m + [phys], 0, PushData(c, phys))
  {
    PushContinues(c, phys);
    ContinuesOn(start, m, 0, c, [phys], 0, PushData(c, phys));
  }

  lemma BudgetGiven(c: Classic, m: FileMap, budget: nat)
    requires Continues(Classic(0, 0, []), m, 0, c)
    ensures Continues(Classic(budget, 0, []), m, 0, c.(budget := budget))
  {
  }

  /** The whole walk collects the mapped blocks of the file in order. */
  lemma CollectIsMap(disk: Disk, iblock: seq<Byte>, ppb: nat, budget: nat)
    requires budget >= ClassicNodes(disk, iblock, ppb)
    requires |NonZeros(ClassicMap(disk, iblock, ppb))| <= MAX_FILE_BLOCKS
    ensures Continues(Classic(budget, 0, []), ClassicMap(disk, iblock, ppb), ClassicNodes(disk, iblock, ppb),
                      CollectClassic(disk, iblock, ppb, budget))
  {
    var start := Classic(budget, 0, []);
    var b1, b2, b3 := Pointer(iblock, 12), Pointer(iblock, 13), Pointer(iblock, 14);
    var m0, m1 := DirectMap(iblock, 12), MapOf(disk, b1, 1, ppb);
    var m2, m3 := MapOf(disk, b2, 2, ppb), MapOf(disk, b3, 3, ppb);
    NonZerosConcat(m0, m1);
    NonZerosConcat(m0 + m1, m2);
    NonZerosConcat(m0 + m1 + m2, m3);
    DirectsAreMap(iblock, 12);
    var c0 := Directs(iblock, 12).(budget := budget);
    BudgetGiven(Directs(iblock, 12), m0, budget);
    Counted(start, m0, 0, c0);
    WalkIsMap(disk, b1, 1, ppb, c0);
    var c1 := WalkIndirect(disk, b1, 1, ppb, c0);
    ContinuesOn(start, m0, 0, c0, m1, MapNodes(disk, b1, 1, ppb), c1);
    Counted(start, m0 + m1, MapNodes(disk, b1, 1, ppb), c1);
    WalkIsMap(disk, b2, 2, ppb, c1);
    var c2 := WalkIndirect(disk, b2, 2, ppb, c1);
    ContinuesOn(start, m0 + m1, MapNodes(disk, b1, 1, ppb), c1, m2, MapNodes(disk, b2, 2, ppb), c2);
    Counted(start, m0 + m1 + m2, MapNodes(disk, b1, 1, ppb) + MapNodes(disk, b2, 2, ppb), c2);
    WalkIsMap(disk, b3, 3, ppb, c2);
    ContinuesOn(start, m0 + m1 + m2, MapNodes(disk, b1, 1, ppb) + MapNodes(disk, b2, 2, ppb), c2, m3,
                MapNodes(disk, b3, 3, ppb), WalkIndirect(disk, b3, 3, ppb, c2));
  }

  lemma Counted(c: Classic, m: FileMap, nodes: nat, c': Classic)
    requires Continues(c, m, nodes, c')
    ensures |c'.out| == |c.out| + |NonZeros(m)|
  {
    assert |PhysOf(c'.out)| == |c'.out|;
  }

  /** The end of the chain: every byte below the file's size gets the address
      its pointers name exactly when there is no hole there. */
  lemma ClassicIsByteExactIff(disk: Disk, bs: nat, iblock: seq<Byte>, size: nat)
    requires bs > 0 && ClassicNodes(disk, iblock, bs / 4) <= 4096
    requires |NonZeros(ClassicMap(disk, iblock, bs / 4))| <= MAX_FILE_BLOCKS
    ensures var m, blocks := ClassicMap(disk, iblock, bs / 4), CollectClassic(disk, iblock, bs / 4, 4096).out;
            ByteExact(m, bs, size, Stream(Sort(blocks), bs)[..Min(size, |Stream(Sort(blocks), bs)|)])
            <==> HoleFree(m, bs, size)
  {
    var m, c := ClassicMap(disk, iblock, bs / 4), CollectClassic(disk, iblock, bs / 4, MAX_MAP_NODES);
    CollectIsMap(disk, iblock, bs / 4, MAX_MAP_NODES);
    SortOfSorted(c.out);
    MappedPhys(m);
    assert PhysOf(Classic(MAX_MAP_NODES, 0, []).out) + NonZeros(m) == NonZeros(m);
    StreamOfPhys(c.out, Mapped(m), bs);
    ByteExactIffHoleFree(m, bs, size);
  }

  // ------------------------------------------------------ running out of budget

  /** Two walks of the same map, the first with less budget: still together, or
      the first has stopped for good. */
  predicate Lags(c: Classic, d: Classic) {
    || (c.out == d.out && c.logical == d.logical && c.budget <= d.budget)
    || (c.budget == 0 && c.out <= d.out)
  }

  lemma {:induction false} WalkGrows(disk: Disk, block: nat, level: nat, ppb: nat, c: Classic)
    requires level > 0
    ensures c.out <= WalkIndirect(disk, block, level, ppb, c).out
    decreases level, 1, 0
  {
    if !(block == 0 || |c.out| > MAX_FILE_BLOCKS || c.budget == 0) {
      PointersGrow(disk, disk(block), level, ppb, ppb, c.(budget := c.budget - 1));
    }
  }

  lemma {:induction false} PointersGrow(disk: Disk, data: seq<Byte>, level: nat, ppb: nat, n: nat, c: Classic)
    requires level > 0
    ensures c.out <= WalkPointers(disk, data, level, ppb, n, c).out
    decreases level, 0, n
  {
    if n > 0 {
      PointersGrow(disk, data, level, ppb, n - 1, c);
      if level > 1 {
        WalkGrows(disk, Pointer(data, n - 1), level - 1, ppb, WalkPointers(disk, data, level, ppb, n - 1, c));
      }
    }
  }

  lemma {:induction false} WalkLags(disk: Disk, block: nat, level: nat, ppb: nat, c: Classic, d: Classic)
    requires level > 0 && Lags(c, d)
    ensures Lags(WalkIndirect(disk, block, level, ppb, c), WalkIndirect(disk, block, level, ppb, d))
    decreases level, 1, 0
  {
    WalkGrows(disk, block, level, ppb, d);
    if c.budget > 0 && block != 0 && |c.out| <= MAX_FILE_BLOCKS {
      PointersLag(disk, disk(block), level, ppb, ppb, c.(budget := c.budget - 1), d.(budget := d.budget - 1));
    }
  }

  lemma {:induction false} PointersLag(disk: Disk, data: seq<Byte>, level: nat, ppb: nat, n: nat, c: Classic,
                                       d: Classic)
    requires level > 0 && c.out == d.out && c.logical == d.logical && c.budget <= d.budget
    ensures var c', d' := WalkPointers(disk, data, level, ppb, n, c), WalkPointers(disk, data, level, ppb, n, d);
            Lags(c', d') && (level == 1 ==> c'.out == d'.out && c'.logical == d'.logical && c'.budget <= d'.budget)
    decreases level, 0, n
  {
    if n > 0 {
      PointersLag(disk, data, level, ppb, n - 1, c, d);
      var c1, d1 := WalkPointers(disk, data, level, ppb, n - 1, c), WalkPointers(disk, data, level, ppb, n - 1, d);
      if level > 1 {
        WalkLags(disk, Pointer(data, n - 1), level - 1, ppb, c1, d1);
        WalkGrows(disk, Pointer(data, n - 1), level - 1, ppb, d1);
      }
    }
  }

  /** Whatever the budget, what is collected is a prefix of what more budget
      would collect. */
  lemma LessBudgetIsPrefix(disk: Disk, iblock: seq<Byte>, ppb: nat, less: nat, more: nat)
    requires less <= more
    ensures CollectClassic(disk, iblock, ppb, less).out <= CollectClassic(disk, iblock, ppb, more).out
  {
    var c0, d0 := Directs(iblock, 12).(budget := less), Directs(iblock, 12).(budget := more);
    WalkLags(disk, Pointer(iblock, 12), 1, ppb, c0, d0);
    var b1, b2 := Pointer(iblock, 12), Pointer(iblock, 13);
    var c1, d1 := WalkIndirect(disk, b1, 1, ppb, c0), WalkIndirect(disk, b1, 1, ppb, d0);
    WalkLags(disk, Pointer(iblock, 13), 2, ppb, c1, d1);
    var c2, d2 := WalkIndirect(disk, b2, 2, ppb, c1), WalkIndirect(disk, b2, 2, ppb, d1);
    WalkLags(disk, Pointer(iblock, 14), 3, ppb, c2, d2);
  }

  // ------------------------------------------------------------ the map, block by block

  /** A pointer is the 32 bits at four times its index. */
  lemma PointerReads(data: seq<Byte>, i: nat, x: nat)
    requires x < 0x1_0000_0000 && At(data, 4 * i, ToLe32(x))
    ensures Pointer(data, i) == x
  {
    Reads32(data, 4 * i, x);
  }

  /** Nothing is read under a pointer of 0, once the file is too long, or without a
      budget, and no number is passed. */
  lemma RefusedOutright(disk: Disk, block: nat, level: nat, ppb: nat, c: Classic)
    requires level > 0 && (block == 0 || |c.out| > 8_388_608 || c.budget == 0)
    ensures WalkIndirect(disk, block, level, ppb, c) == c
  {
  }

  /** The direct pointers are numbered from 0, holes counted. */
  lemma {:induction false} DirectsIff(iblock: seq<Byte>, n: nat, b: Block)
    ensures Directs(iblock, n).logical == n
    ensures b in Directs(iblock, n).out <==> b.logical < n && b.phys != 0 && b.phys == LeU32(iblock, 4 * b.logical)
  {
    if n > 0 {
      DirectsIff(iblock, n - 1, b);
    }
  }

  /** So are the pointers of an indirect block, from the number reached. */
  lemma {:induction false} PointersIff(disk: Disk, data: seq<Byte>, ppb: nat, n: nat, c: Classic, b: Block)
    requires |c.out| + n <= 8_388_608
    ensures var c' := WalkPointers(disk, data, 1, ppb, n, c);
            && c'.logical == c.logical + n && c'.budget == c.budget && |c'.out| <= |c.out| + n
            && (b in c'.out
                <==> (b in c.out || (c.logical <= b.logical < c.logical + n && b.phys != 0
                                     && b.phys == LeU32(data, 4 * (b.logical - c.logical)))))
  {
    if n > 0 {
      PointersIff(disk, data, ppb, n - 1, c, b);
    }
  }

  /** The data block that indirect blocks of a level name in place `j`: each block of
      pointers divides its span evenly. */
  function Through(disk: Disk, block: nat, level: nat, ppb: nat, j: nat): nat
    requires level > 0 && ppb > 0
    decreases level
  {
    if block == 0 then 0
    else if level == 1 then LeU32(disk(block), 4 * j)
    else
      SpanPositive(level - 1, ppb);
      Through(disk, LeU32(disk(block), 4 * (j / Span(level - 1, ppb))), level - 1, ppb, j % Span(level - 1, ppb))
  }

  lemma {:induction false} SpanPositive(level: nat, ppb: nat)
    requires ppb > 0
    ensures Span(level, ppb) > 0
  {
    if level > 0 {
      SpanPositive(level - 1, ppb);
      MulMono(1, ppb, Span(level - 1, ppb));
    }
  }

  /** The data block of file block `i`, for twelve direct pointers at the beginning
      of the inode's map and three indirect ones behind them. */
  function BlockOfFile(disk: Disk, iblock: seq<Byte>, ppb: nat, i: nat): nat
    requires ppb > 0
  {
    if i < 12 then LeU32(iblock, 4 * i)
    else if i < 12 + ppb then Through(disk, LeU32(iblock, 48), 1, ppb, i - 12)
    else if i < 12 + ppb + ppb * ppb then Through(disk, LeU32(iblock, 52), 2, ppb, i - 12 - ppb)
    else Through(disk, LeU32(iblock, 56), 3, ppb, i - 12 - ppb - ppb * ppb)
  }

  lemma {:induction false} PartsGrow(disk: Disk, data: seq<Byte>, level: nat, ppb: nat, i: nat, n: nat)
    requires level > 0 && i <= n
    ensures MapOfPointers(disk, data, level, ppb, i) <= MapOfPointers(disk, data, level, ppb, n)
    decreases n
  {
    if i < n {
      PartsGrow(disk, data, level, ppb, i, n - 1);
    }
  }

  /** Part `k` of a block of pointers, place `r` in it. */
  lemma PartAt(disk: Disk, data: seq<Byte>, level: nat, ppb: nat, n: nat, k: nat, r: nat)
    requires level > 0 && k < n && r < Span(level - 1, ppb)
    ensures k * Span(level - 1, ppb) + r < |MapOfPointers(disk, data, level, ppb, n)|
    ensures level == 1 ==> MapOfPointers(disk, data, level, ppb, n)[k * Span(level - 1, ppb) + r] == Pointer(data, k)
    ensures level > 1 ==>
              |MapOf(disk, Pointer(data, k), level - 1, ppb)| == Span(level - 1, ppb)
              && MapOfPointers(disk, data, level, ppb, n)[k * Span(level - 1, ppb) + r]
                 == MapOf(disk, Pointer(data, k), level - 1, ppb)[r]
  {
    MapPointersLength(disk, data, level, ppb, k);
    PartLength(disk, data, level, ppb, k + 1);
    PartsGrow(disk, data, level, ppb, k + 1, n);
    if level > 1 {
      MapLength(disk, Pointer(data, k), level - 1, ppb);
    }
  }

  lemma {:induction false} MapAt(disk: Disk, block: nat, level: nat, ppb: nat, j: nat)
    requires level > 0 && ppb > 0 && j < Span(level, ppb)
    ensures |MapOf(disk, block, level, ppb)| == Span(level, ppb)
    ensures MapOf(disk, block, level, ppb)[j] == Through(disk, block, level, ppb, j)
    decreases level
  {
    MapLength(disk, block, level, ppb);
    if block != 0 {
      var s := Span(level - 1, ppb);
      SpanPositive(level - 1, ppb);
      var k, r := Split(j, s);
      DivBelow(j, ppb, s);
      PartAt(disk, disk(block), level, ppb, ppb, k, r);
      if level > 1 {
        MapAt(disk, Pointer(disk(block), k), level - 1, ppb, r);
      }
    }
  }

  /** The map names, for every block of the file, the block that its pointers lead to. */
  lemma ClassicMapAt(disk: Disk, iblock: seq<Byte>, ppb: nat, i: nat)
    requires ppb > 0 && i < 12 + ppb + ppb * ppb + ppb * ppb * ppb
    ensures i < |ClassicMap(disk, iblock, ppb)|
    ensures ClassicMap(disk, iblock, ppb)[i] == BlockOfFile(disk, iblock, ppb, i)
  {
    Spans(ppb);
    MapLength(disk, Pointer(iblock, 12), 1, ppb);
    MapLength(disk, Pointer(iblock, 13), 2, ppb);
    MapLength(disk, Pointer(iblock, 14), 3, ppb);
    var a, b := 12 + ppb, 12 + ppb + ppb * ppb;
    if 12 <= i < a {
      MapAt(disk, Pointer(iblock, 12), 1, ppb, i - 12);
    } else if a <= i < b {
      MapAt(disk, Pointer(iblock, 13), 2, ppb, i - a);
    } else if b <= i {
      MapAt(disk, Pointer(iblock, 14), 3, ppb, i - b);
    }
  }

  lemma Spans(ppb: nat)
    ensures Span(1, ppb) == ppb && Span(2, ppb) == ppb * ppb && Span(3, ppb) == ppb * ppb * ppb
  {
    assert Span(0, ppb) == 1;
    assert Span(1, ppb) == ppb * Span(0, ppb) && Span(2, ppb) == ppb * Span(1, ppb);
    assert Span(3, ppb) == ppb * Span(2, ppb);
    assert ppb * (ppb * ppb) == ppb * ppb * ppb;
  }
}
