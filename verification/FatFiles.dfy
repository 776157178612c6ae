/** The extents of a FAT file, live and deleted (crates/fs-fat/src/lib.rs:436-472). */
module FatFiles {
  import opened Arith
  import opened Bytes
  import opened Extents
  import opened ClusterChains
  import opened FatTable

  function LinksOf(v: Volume): Links
    requires Parsed(v)
  {
    var fat := FatOf(v);
    Links((c: nat) => Entry(fat, c), Eoc(v.FatKind()), v.Count() + 2)
  }

  /** The clusters that are followed for a file of this size. */
  function ChainOf(v: Volume, first: nat, size: nat): seq<nat>
    requires Parsed(v)
  {
    Orbit(LinksOf(v), first, Cap(LinksOf(v), Need(size, HeapOf(v).clusterSize) + 2))
  }

  function Resolve(v: Volume, first: nat, size: nat, deleted: bool): Resolved
    requires Parsed(v)
  {
    if size == 0 || first < 2 then Resolved([], false)
    else
      var ex := Coalesced(HeapOf(v), ChainOf(v, first, size), size);
      if !deleted && ChainOf(v, first, size) != [] && ex != [] then Resolved(ex, false)
      else Resolved(Contiguous(HeapOf(v), v.TotalBytes(), first, size), Need(size, HeapOf(v).clusterSize) > 1)
  }

  method ResolveExtents(v: Volume, first: nat, size: nat, deleted: bool) returns (r: Resolved)
    requires Parsed(v)
    ensures r == Resolve(v, first, size, deleted)
  {
    if size == 0 || first < 2 {
      return Resolved([], false);
    }
    var h := HeapOf(v);
    var need := Need(size, h.clusterSize);
    if !deleted {
      var clusters := Chain(LinksOf(v), first, need + 2);
      if clusters != [] {
        var ex := Coalesce(h, clusters, size);
        if ex != [] {
          return Resolved(ex, false);
        }
      }
    }
    return Resolved(Contiguous(h, v.TotalBytes(), first, size), need > 1);
  }

  lemma ChainIsIn(v: Volume, first: nat, size: nat)
    requires Parsed(v)
    ensures AllIn(HeapOf(v), ChainOf(v, first, size))
    ensures InRange(first, v.Count() + 2) <==> ChainOf(v, first, size) != []
    ensures ChainOf(v, first, size) != [] ==> ChainOf(v, first, size)[0] == first
  {
    OrbitIsChain(LinksOf(v), first, Cap(LinksOf(v), Need(size, HeapOf(v).clusterSize) + 2));
  }

  /** A live file's extents are the first bytes of its chain: all of the file
      exactly when the chain is long enough. */
  lemma LiveIsByteExact(v: Volume, first: nat, size: nat)
    requires Parsed(v) && InRange(first, v.Count() + 2) && size > 0
    ensures AllIn(HeapOf(v), ChainOf(v, first, size)) && !Resolve(v, first, size, false).assumed
    ensures Flatten(Resolve(v, first, size, false).extents)
         == Stream(HeapOf(v), ChainOf(v, first, size))[..Min(size, |Stream(HeapOf(v), ChainOf(v, first, size))|)]
    ensures |Flatten(Resolve(v, first, size, false).extents)| == size
       <==> |ChainOf(v, first, size)| >= Need(size, HeapOf(v).clusterSize)
  {
    var h, chain := HeapOf(v), ChainOf(v, first, size);
    ChainIsIn(v, first, size);
    CoalescedBytes(h, chain, size);
    StreamLength(h, chain);
    MulMono(1, |chain|, h.clusterSize);
    LongEnoughIff(size, h.clusterSize, |chain|);
  }

  lemma LongEnoughIff(size: nat, cs: nat, n: nat)
    requires cs > 0
    ensures n >= Need(size, cs) <==> n * cs >= size
  {
    var need := Need(size, cs);
    if n >= need {
      MulMono(need, n, cs);
    } else {
      MulMono(n + 1, need, cs);
      Distrib(n, 1, cs);
    }
  }

  /** The volume after the file is deleted: its chain's entries are zero. */
  function Deleted(v: Volume, chain: seq<nat>): (w: Volume)
    requires Parsed(v) && AllHeld(FatOf(v), chain)
    ensures w == v.(disk := w.disk)
  {
    v.(disk := FreeAll(FatOf(v), chain).disk)
  }

  lemma SameLayout(v: Volume, w: Volume)
    requires Parsed(v) && w == v.(disk := w.disk)
    ensures HeapOf(w) == HeapOf(v) && w.FatKind() == v.FatKind() && w.TotalBytes() == v.TotalBytes()
    ensures FatOf(w) == FatOf(v).(disk := w.disk)
  {
  }

  /** Nothing is left to follow: of the chain only the first cluster is found. */
  lemma ChainIsGone(v: Volume, first: nat, size: nat)
    requires Parsed(v) && InRange(first, v.Count() + 2) && AllHeld(FatOf(v), ChainOf(v, first, size))
    ensures ChainOf(Deleted(v, ChainOf(v, first, size)), first, size) == [first]
  {
    var chain := ChainOf(v, first, size);
    var w := Deleted(v, chain);
    ChainIsIn(v, first, size);
    SameLayout(v, w);
    EntryAfterFree(FatOf(v), chain, first);
    assert Entry(FatOf(w), first) == 0;
    OrbitLinks(LinksOf(w), first, Cap(LinksOf(w), Need(size, HeapOf(w).clusterSize) + 2));
  }

  /** Consecutive clusters of a file lie inside the volume. */
  lemma ConsecutiveFits(v: Volume, first: nat, size: nat, need: nat)
    requires Parsed(v) && first >= 2 && need > 0 && size <= need * v.ClusterSize()
    requires InRange(first + need - 1, v.Count() + 2)
    ensures StartOf(HeapOf(v), first) + size <= v.TotalBytes()
  {
    OffsetIsLinear(v, first + need - 1);
    Distrib(first - 2, need - 1, v.ClusterSize());
    Distrib(need - 1, 1, v.ClusterSize());
  }

  lemma WholeHolds(v: Volume, first: nat, size: nat)
    requires Parsed(v) && first >= 2 && size > 0
    requires Need(size, HeapOf(v).clusterSize) <= |ChainOf(v, first, size)|
    ensures Holds(HeapOf(v), ChainOf(v, first, size), first, size)
    ensures Resolve(v, first, size, false) == Resolved(Coalesced(HeapOf(v), ChainOf(v, first, size), size), false)
  {
    ChainIsIn(v, first, size);
    ChainIsByteExact(HeapOf(v), ChainOf(v, first, size), first, size);
  }

  /** Yet a deleted file gets the extents it had as a live file, exactly when
      its clusters were consecutive. */
  lemma DeletionKeepsExtentsIff(v: Volume, first: nat, size: nat)
    requires Parsed(v) && first >= 2 && size > 0 && AllHeld(FatOf(v), ChainOf(v, first, size))
    requires Need(size, HeapOf(v).clusterSize) <= |ChainOf(v, first, size)|
    ensures Resolve(Deleted(v, ChainOf(v, first, size)), first, size, true).extents
         == Resolve(v, first, size, false).extents
       <==> Consecutive(ChainOf(v, first, size)[..Need(size, HeapOf(v).clusterSize)])
  {
    var h, chain := HeapOf(v), ChainOf(v, first, size);
    var need := Need(size, h.clusterSize);
    SameLayout(v, Deleted(v, chain));
    WholeHolds(v, first, size);
    ContiguousIff(h, chain, v.TotalBytes(), first, size);
    if Consecutive(chain[..need]) {
      assert chain[need - 1] == chain[..need][need - 1] == first + need - 1;
      ConsecutiveFits(v, first, size, need);
    }
  }

  /** When extents are an assumption: never for a file of one cluster; else after a
      deletion, and if the chain gives none. */
  lemma AssumedIff(v: Volume, first: nat, size: nat, deleted: bool)
    requires Parsed(v)
    ensures size == 0 || first < 2 ==> Resolve(v, first, size, deleted) == Resolved([], false)
    ensures size > 0 && first >= 2 ==>
              (Resolve(v, first, size, deleted).assumed
               <==> (size > v.ClusterSize()
                     && (deleted || ChainOf(v, first, size) == []
                         || Coalesced(HeapOf(v), ChainOf(v, first, size), size) == [])))
  {
    NeedIff(size, HeapOf(v).clusterSize, 1);
  }
}
