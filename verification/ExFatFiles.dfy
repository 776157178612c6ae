/** The extents of an exFAT file: contiguous by its own flag, chained, or
    deleted (crates/fs-exfat/src/lib.rs:168-185, 209-262). */
module ExFatFiles {
  import opened Arith
  import opened Bytes
  import opened Wrappers
  import opened Extents
  import opened ClusterChains

  datatype Volume = Volume(disk: seq<Byte>, clusterSize: nat, fatOffset: nat, heapOffset: nat,
                           clusterCount: nat, volumeLength: nat)

  /** `cluster_count.saturating_add(2)`, in 32 bits. */
  function LimitOf(v: Volume): nat { Min(v.clusterCount + 2, 0xFFFF_FFFF) }

  function HeapOf(v: Volume): Heap { Heap(v.heapOffset, v.clusterSize, LimitOf(v)) }

  /** `fat_next`. */
  function Next(v: Volume, c: nat): nat { LeU32(ReadPadded(v.disk, v.fatOffset + c * 4, 4), 0) }

  function LinksOf(v: Volume): Links { Links((c: nat) => Next(v, c), 0xFFFF_FFFF, LimitOf(v)) }

  function ChainOf(v: Volume, first: nat, size: nat): seq<nat>
    requires v.clusterSize > 0
  {
    Orbit(LinksOf(v), first, Cap(LinksOf(v), Need(size, v.clusterSize) + 2))
  }

  function Resolve(v: Volume, first: nat, size: nat, noFatChain: bool, deleted: bool): Resolved
    requires v.clusterSize > 0
  {
    if size == 0 || first < 2 then Resolved([], false)
    else
      var need := Need(size, v.clusterSize);
      var ahead := Contiguous(HeapOf(v), v.volumeLength, first, size);
      var chain := ChainOf(v, first, size);
      if noFatChain then Resolved(ahead, false)
      else if chain == [] || (deleted && |chain| < need) || Coalesced(HeapOf(v), chain, size) == []
      then Resolved(ahead, need > 1)
      else Resolved(Coalesced(HeapOf(v), chain, size), false)
  }

  method ResolveExtents(v: Volume, first: nat, size: nat, noFatChain: bool, deleted: bool) returns (r: Resolved)
    requires v.clusterSize > 0
    ensures r == Resolve(v, first, size, noFatChain, deleted)
  {
    if size == 0 || first < 2 {
      return Resolved([], false);
    }
    var need := Need(size, v.clusterSize);
    if noFatChain {
      return Resolved(Contiguous(HeapOf(v), v.volumeLength, first, size), false);
    }
    var assumed := need > 1;
    var clusters := Chain(LinksOf(v), first, need + 2);
    if clusters == [] || (deleted && |clusters| < need) {
      return Resolved(Contiguous(HeapOf(v), v.volumeLength, first, size), assumed);
    }
    var extents := Coalesce(HeapOf(v), clusters, size);
    if extents == [] {
      return Resolved(Contiguous(HeapOf(v), v.volumeLength, first, size), assumed);
    }
    return Resolved(extents, false);
  }

  lemma ChainIsIn(v: Volume, first: nat, size: nat)
    requires v.clusterSize > 0
    ensures AllIn(HeapOf(v), ChainOf(v, first, size))
    ensures InRange(first, LimitOf(v)) <==> ChainOf(v, first, size) != []
    ensures ChainOf(v, first, size) != [] ==> ChainOf(v, first, size)[0] == first
  {
    OrbitIsChain(LinksOf(v), first, Cap(LinksOf(v), Need(size, v.clusterSize) + 2));
  }

  /** The FAT chain is long enough for the file. */
  predicate Whole(v: Volume, first: nat, size: nat)
    requires v.clusterSize > 0
  {
    first >= 2 && size > 0 && Need(size, v.clusterSize) <= |ChainOf(v, first, size)|
  }

  lemma WholeHolds(v: Volume, first: nat, size: nat)
    requires v.clusterSize > 0 && Whole(v, first, size)
    ensures Holds(HeapOf(v), ChainOf(v, first, size), first, size)
    ensures Coalesced(HeapOf(v), ChainOf(v, first, size), size) != []
  {
    ChainIsIn(v, first, size);
    ChainIsByteExact(HeapOf(v), ChainOf(v, first, size), first, size);
  }

  /** With its chain in place a file is byte exact, whether live or deleted. */
  lemma ChainedIsByteExact(v: Volume, first: nat, size: nat, deleted: bool)
    requires v.clusterSize > 0 && Whole(v, first, size)
    ensures AllIn(HeapOf(v), ChainOf(v, first, size)) && !Resolve(v, first, size, false, deleted).assumed
    ensures ByteExact(HeapOf(v), ChainOf(v, first, size), size,
                      Flatten(Resolve(v, first, size, false, deleted).extents))
  {
    WholeHolds(v, first, size);
    ChainIsByteExact(HeapOf(v), ChainOf(v, first, size), first, size);
  }

  // --------------------------------------------------------------------- deletion

  predicate Held(v: Volume, c: nat) { v.fatOffset + c * 4 + 4 <= |v.disk| }

  predicate AllHeld(v: Volume, clusters: seq<nat>) { forall i | 0 <= i < |clusters| :: Held(v, clusters[i]) }

  function Put(v: Volume, c: nat, x: nat): (w: Volume)
    requires Held(v, c) && x < 0x1_0000_0000
    ensures w == v.(disk := w.disk) && |w.disk| == |v.disk|
  {
    v.(disk := Write(v.disk, v.fatOffset + c * 4, ToLe32(x)))
  }

  lemma NextAfterPut(v: Volume, c: nat, x: nat, d: nat)
    requires Held(v, c) && x < 0x1_0000_0000
    ensures Next(Put(v, c, x), d) == if d == c then x else Next(v, d)
  {
    ReadAfterWrite(v.disk, v.fatOffset + c * 4, v.fatOffset + d * 4, ToLe32(x));
  }

  /** Four bytes that are written, read again or four others. */
  lemma ReadAfterWrite(disk: seq<Byte>, a: nat, b: nat, x: seq<Byte>)
    requires |x| == 4 && a + 4 <= |disk| && (a == b || a + 4 <= b || b + 4 <= a)
    ensures ReadPadded(Write(disk, a, x), b, 4) == if a == b then x else ReadPadded(disk, b, 4)
  {
    if a == b {
      assert ReadPadded(Write(disk, a, x), b, 4) == x;
    } else {
      assert ReadPadded(Write(disk, a, x), b, 4) == ReadPadded(disk, b, 4);
    }
  }

  /** The volume once the entries of the chain are zero. */
  function Zeroed(v: Volume, clusters: seq<nat>): (w: Volume)
    requires AllHeld(v, clusters)
    ensures w == v.(disk := w.disk) && |w.disk| == |v.disk|
  {
    if clusters == [] then v else Put(Zeroed(v, clusters[..|clusters| - 1]), clusters[|clusters| - 1], 0)
  }

  lemma {:induction false} NextAfterZero(v: Volume, clusters: seq<nat>, d: nat)
    requires AllHeld(v, clusters) && d in clusters
    ensures Next(Zeroed(v, clusters), d) == 0
  {
    var before, c := clusters[..|clusters| - 1], clusters[|clusters| - 1];
    assert clusters == before + [c];
    NextAfterPut(Zeroed(v, before), c, 0, d);
    if d in before {
      NextAfterZero(v, before, d);
    }
  }

  lemma ChainOfZeroed(v: Volume, first: nat, size: nat)
    requires v.clusterSize > 0 && Whole(v, first, size) && AllHeld(v, ChainOf(v, first, size))
    ensures ChainOf(Zeroed(v, ChainOf(v, first, size)), first, size) == [first]
  {
    var chain := ChainOf(v, first, size);
    var w := Zeroed(v, chain);
    ChainIsIn(v, first, size);
    assert chain[0] in chain;
    NextAfterZero(v, chain, first);
    OrbitLinks(LinksOf(w), first, Cap(LinksOf(w), Need(size, w.clusterSize) + 2));
  }

  /** What is found when only the first cluster of the chain is left. */
  lemma ResolveAlone(w: Volume, first: nat, size: nat)
    requires w.clusterSize > 0 && size > 0 && InRange(first, LimitOf(w)) && ChainOf(w, first, size) == [first]
    ensures Resolve(w, first, size, false, true).extents
         == if Need(size, w.clusterSize) == 1 then [Extent(StartOf(HeapOf(w), first), size)]
            else Contiguous(HeapOf(w), w.volumeLength, first, size)
  {
    if Need(size, w.clusterSize) == 1 {
      CoalescedConsecutive(HeapOf(w), [first], size, 1);
    }
  }

  lemma ResolveWhole(v: Volume, first: nat, size: nat)
    requires v.clusterSize > 0 && Whole(v, first, size)
    ensures Resolve(v, first, size, false, false).extents == Coalesced(HeapOf(v), ChainOf(v, first, size), size)
    ensures Need(size, v.clusterSize) == 1 ==>
              Resolve(v, first, size, false, false).extents == [Extent(StartOf(HeapOf(v), first), size)]
  {
    WholeHolds(v, first, size);
    if Need(size, v.clusterSize) == 1 {
      CoalescedConsecutive(HeapOf(v), ChainOf(v, first, size), size, 1);
    }
  }

  /** A chained file whose table entries were zeroed gets its old extents back
      exactly when its clusters were consecutive and the volume, if there was
      more than one cluster, is said to reach past them. */
  lemma ZeroingKeepsExtentsIff(v: Volume, first: nat, size: nat)
    requires v.clusterSize > 0 && Whole(v, first, size) && AllHeld(v, ChainOf(v, first, size))
    ensures Resolve(Zeroed(v, ChainOf(v, first, size)), first, size, false, true).extents
         == Resolve(v, first, size, false, false).extents
       <==> (Consecutive(ChainOf(v, first, size)[..Need(size, v.clusterSize)])
             && (Need(size, v.clusterSize) == 1 || StartOf(HeapOf(v), first) + size <= v.volumeLength))
  {
    var chain, need := ChainOf(v, first, size), Need(size, v.clusterSize);
    WholeHolds(v, first, size);
    ChainOfZeroed(v, first, size);
    var w := Zeroed(v, chain);
    assert HeapOf(w) == HeapOf(v);
    ResolveAlone(w, first, size);
    ResolveWhole(v, first, size);
    if need == 1 {
      assert Consecutive(chain[..1]);
    } else {
      ContiguousIff(HeapOf(v), chain, v.volumeLength, first, size);
    }
  }

  /** A file stored without a chain never depends on the table, and reads as the
      chained file with the same consecutive clusters would. */
  lemma NoFatChainIsTheChain(v: Volume, first: nat, size: nat, deleted: bool)
    requires v.clusterSize > 0 && Whole(v, first, size)
    ensures Resolve(v, first, size, true, deleted) == Resolve(v, first, size, false, false)
       <==> (Consecutive(ChainOf(v, first, size)[..Need(size, v.clusterSize)])
             && StartOf(HeapOf(v), first) + size <= v.volumeLength)
  {
    WholeHolds(v, first, size);
    ContiguousIff(HeapOf(v), ChainOf(v, first, size), v.volumeLength, first, size);
  }

  // -------------------------------------------------------------------- on disk

  /** A table entry is the 32 bits at four times its number. */
  lemma NextReads(v: Volume, c: nat, x: nat)
    requires x < 0x1_0000_0000 && At(v.disk, v.fatOffset + 4 * c, ToLe32(x))
    ensures Next(v, c) == x
  {
    assert forall i | 0 <= i < 4 :: v.disk[v.fatOffset + 4 * c + i] == ToLe32(x)[i];
    assert ReadPadded(v.disk, v.fatOffset + c * 4, 4) == ToLe32(x);
  }

  /** A chain stops at the end mark, at an entry that is no cluster, and at a cluster
      that leads to itself. */
  lemma ChainStopsIff(v: Volume, c: nat)
    ensures Ends(LinksOf(v), c)
       <==> Next(v, c) == 0xFFFF_FFFF || Next(v, c) < 2 || Next(v, c) >= v.clusterCount + 2 || Next(v, c) == c
  {
  }

  /** Cluster 2 is at the heap's beginning, and the others follow. */
  lemma ClusterPlace(v: Volume, c: nat)
    requires c < 0xFFFF_FFFF
    ensures ClusterOffset(HeapOf(v), c)
         == if 2 <= c && c < v.clusterCount + 2 then Some(v.heapOffset + (c - 2) * v.clusterSize) else None
  {
  }

  /** When extents are an assumption: never for a file of one cluster or one stored
      without a chain; else if the chain gives none, or after deletion too few. */
  lemma AssumedIff(v: Volume, first: nat, size: nat, noFatChain: bool, deleted: bool)
    requires v.clusterSize > 0
    ensures size == 0 || first < 2 ==> Resolve(v, first, size, noFatChain, deleted) == Resolved([], false)
    ensures size > 0 && first >= 2 ==>
              (Resolve(v, first, size, noFatChain, deleted).assumed
               <==> (!noFatChain && size > v.clusterSize
                     && (ChainOf(v, first, size) == [] || Coalesced(HeapOf(v), ChainOf(v, first, size), size) == []
                         || (deleted && |ChainOf(v, first, size)| * v.clusterSize < size))))
  {
    if size > 0 {
      NeedIff(size, v.clusterSize, 1);
      NeedIff(size, v.clusterSize, |ChainOf(v, first, size)|);
    }
  }
}
