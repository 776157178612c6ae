/** Cluster chains of FAT and exFAT and the extents they give
    (crates/fs-fat/src/lib.rs:346-366, 862-906; crates/fs-exfat/src/lib.rs:168-207, 482-528). */
module ClusterChains {
  import opened Arith
  import opened Wrappers
  import opened Extents

  // -------------------------------------------------------------- following links

  /** A file allocation table: what follows each cluster, the first value that
      ends a chain, and the first number past the last cluster. */
  datatype Links = Links(next: nat -> nat, eoc: nat, limit: nat)

  predicate InRange(c: nat, limit: nat) { 2 <= c < limit }

  /** The chain stops after `c`. A link to itself is the only loop that is noticed. */
  predicate Ends(l: Links, c: nat) {
    l.next(c) >= l.eoc || !InRange(l.next(c), l.limit) || l.next(c) == c
  }

  function Cap(l: Links, max: nat): (cap: nat)
    ensures cap >= 1
  {
    if Min(max, l.limit) < 1 then 1 else Min(max, l.limit)
  }

  /** The cap is what is asked for, but no more than there are numbers, and not 0. */
  lemma CapIff(l: Links, max: nat, n: nat)
    ensures n <= Cap(l, max) <==> n <= 1 || (n <= max && n <= l.limit)
  {
  }

  function Orbit(l: Links, first: nat, cap: nat): seq<nat>
    decreases cap
  {
    if cap == 0 || !InRange(first, l.limit) then []
    else [first] + (if Ends(l, first) then [] else Orbit(l, l.next(first), cap - 1))
  }

  method Chain(l: Links, first: nat, max: nat) returns (out: seq<nat>)
    ensures out == Orbit(l, first, Cap(l, max))
  {
    out := [];
    var cur: nat := first;
    var cap := Cap(l, max);
    var steps: nat := 0;
    while InRange(cur, l.limit) && steps < cap
      invariant steps <= cap && out + Orbit(l, cur, cap - steps) == Orbit(l, first, cap)
    {
      ghost var rest := if Ends(l, cur) then [] else Orbit(l, l.next(cur), cap - steps - 1);
      assert out + ([cur] + rest) == out + [cur] + rest;
      out := out + [cur];
      steps := steps + 1;
      var next := l.next(cur);
      if next >= l.eoc || next < 2 || next >= l.limit || next == cur {
        assert out + [] == out;
        return;
      }
      cur := next;
    }
    assert out + [] == out;
  }

  /** A chain in the terms of the table: each link is followed, none too many,
      and the last one ends the chain unless the cap does. */
  ghost predicate IsChain(l: Links, first: nat, cap: nat, s: seq<nat>) {
    && |s| <= cap
    && (s == [] <==> cap == 0 || !InRange(first, l.limit))
    && (s != [] ==> s[0] == first)
    && (forall i | 0 <= i < |s| :: InRange(s[i], l.limit))
    && (forall i | 0 <= i < |s| - 1 :: !Ends(l, s[i]) && s[i + 1] == l.next(s[i]))
    && (0 < |s| < cap ==> Ends(l, s[|s| - 1]))
  }

  lemma {:induction false} OrbitIsChain(l: Links, first: nat, cap: nat)
    ensures IsChain(l, first, cap, Orbit(l, first, cap))
    decreases cap
  {
    if cap > 0 && InRange(first, l.limit) && !Ends(l, first) {
      OrbitIsChain(l, l.next(first), cap - 1);
      var rest := Orbit(l, l.next(first), cap - 1);
      var s := [first] + rest;
      forall i | 0 <= i < |s| - 1 ensures !Ends(l, s[i]) && s[i + 1] == l.next(s[i]) {
        if i > 0 {
          assert s[i] == rest[i - 1] && s[i + 1] == rest[i];
        }
      }
    }
  }

  lemma {:induction false} ChainIsUnique(l: Links, first: nat, cap: nat, s: seq<nat>)
    requires IsChain(l, first, cap, s)
    ensures s == Orbit(l, first, cap)
    decreases cap
  {
    if s != [] {
      var rest := s[1..];
      if Ends(l, first) {
        assert |s| == 1;
      } else if cap > 1 {
        assert |s| > 1 && s[1] == l.next(first);
        forall i | 0 <= i < |rest| - 1 ensures !Ends(l, rest[i]) && rest[i + 1] == l.next(rest[i]) {
          assert rest[i] == s[i + 1] && rest[i + 1] == s[i + 2];
        }
        ChainIsUnique(l, l.next(first), cap - 1, rest);
      }
    }
  }

  lemma ChainIff(l: Links, first: nat, cap: nat, s: seq<nat>)
    ensures IsChain(l, first, cap, s) <==> s == Orbit(l, first, cap)
  {
    OrbitIsChain(l, first, cap);
    if IsChain(l, first, cap, s) {
      ChainIsUnique(l, first, cap, s);
    }
  }

  // ------------------------------------------------------------------------ loops

  ghost predicate NoRepeats(s: seq<nat>) { forall i, j | 0 <= i < j < |s| :: s[i] != s[j] }

  /** Equal clusters are followed by equal ones. */
  lemma {:induction false} RepeatsGoOn(l: Links, first: nat, cap: nat, s: seq<nat>, i: nat, j: nat, d: nat)
    requires IsChain(l, first, cap, s) && i < j && j + d < |s| && s[i] == s[j]
    ensures s[i + d] == s[j + d]
    decreases d
  {
    if d > 0 {
      RepeatsGoOn(l, first, cap, s, i, j, d - 1);
      assert s[i + d - 1 + 1] == l.next(s[i + d - 1]) && s[j + d - 1 + 1] == l.next(s[j + d - 1]);
    }
  }

  /** A chain that ends before the cap names no cluster twice. */
  lemma EndedHasNoRepeats(l: Links, first: nat, cap: nat)
    requires |Orbit(l, first, cap)| < cap
    ensures NoRepeats(Orbit(l, first, cap))
  {
    var s := Orbit(l, first, cap);
    OrbitIsChain(l, first, cap);
    forall i, j | 0 <= i < j < |s| ensures s[i] != s[j] {
      if s[i] == s[j] {
        var d := |s| - 1 - j;
        assert !Ends(l, s[i + d]);
        RepeatsGoOn(l, first, cap, s, i, j, d);
        assert false;
      }
    }
  }

  /** Different numbers below a bound are no more than the bound. */
  lemma {:induction false} DifferentAreFew(s: seq<nat>, limit: nat)
    requires NoRepeats(s) && limit >= 2 && forall i | 0 <= i < |s| :: InRange(s[i], limit)
    ensures |s| <= limit - 2
    decreases limit
  {
    if limit == 2 {
      assert |s| > 0 ==> InRange(s[0], limit);
    } else if k :| 0 <= k < |s| && s[k] == limit - 1 {
      DifferentAreFew(s[..k] + s[k + 1..], limit - 1);
    } else {
      DifferentAreFew(s, limit - 1);
    }
  }

  /** The loops that a chain would have to be guarded against: with a cap above
      the number of clusters a chain names a cluster twice exactly when it never
      ends, and then it goes round up to the cap. */
  lemma RepeatsIffNeverEnds(l: Links, first: nat, cap: nat)
    requires cap + 2 > l.limit >= 2
    ensures NoRepeats(Orbit(l, first, cap)) <==> |Orbit(l, first, cap)| < cap || cap == 0
  {
    var s := Orbit(l, first, cap);
    OrbitIsChain(l, first, cap);
    if |s| < cap {
      EndedHasNoRepeats(l, first, cap);
    } else if NoRepeats(s) {
      DifferentAreFew(s, l.limit);
    }
  }

  /** Two clusters that lead to each other are followed round and round. */
  lemma LoopIsFollowed()
    ensures Orbit(Links(c => if c == 2 then 3 else 2, 0xFFFF_FFFF, 4), 2, 4) == [2, 3, 2, 3]
  {
    var l := Links(c => if c == 2 then 3 else 2, 0xFFFF_FFFF, 4);
    assert !Ends(l, 2) && !Ends(l, 3);
    assert Orbit(l, 2, 0) == [] && Orbit(l, 3, 1) == [3];
  }

  // ------------------------------------------------------------ cluster addresses

  /** The data area: cluster 2 begins at `start`. */
  datatype Heap = Heap(start: nat, clusterSize: nat, limit: nat)

  function StartOf(h: Heap, c: nat): nat
    requires c >= 2
  {
    h.start + (c - 2) * h.clusterSize
  }

  function ClusterOffset(h: Heap, c: nat): Option<nat> {
    if !InRange(c, h.limit) then None else Some(StartOf(h, c))
  }

  predicate AllIn(h: Heap, clusters: seq<nat>) { forall i | 0 <= i < |clusters| :: InRange(clusters[i], h.limit) }

  /** The address of every byte of the clusters, cluster after cluster. */
  ghost function Stream(h: Heap, clusters: seq<nat>): seq<nat>
    requires AllIn(h, clusters)
  {
    if clusters == [] then []
    else Stream(h, clusters[..|clusters| - 1]) + Range(StartOf(h, clusters[|clusters| - 1]), h.clusterSize)
  }

  lemma {:induction false} StreamLength(h: Heap, clusters: seq<nat>)
    requires AllIn(h, clusters)
    ensures |Stream(h, clusters)| == |clusters| * h.clusterSize
  {
    if clusters != [] {
      var k := |clusters| - 1;
      StreamLength(h, clusters[..k]);
      Distrib(k, 1, h.clusterSize);
    }
  }

  /** Byte `j` of cluster number `k`. */
  lemma {:induction false} StreamPart(h: Heap, clusters: seq<nat>, k: nat, j: nat)
    requires AllIn(h, clusters) && k < |clusters| && j < h.clusterSize
    ensures k * h.clusterSize + j < |Stream(h, clusters)|
    ensures Stream(h, clusters)[k * h.clusterSize + j] == StartOf(h, clusters[k]) + j
    decreases |clusters|
  {
    var last := |clusters| - 1;
    if k < last {
      StreamPart(h, clusters[..last], k, j);
    } else {
      StreamLength(h, clusters[..last]);
    }
  }

  /** Byte `i` of a file is at `a`: in cluster number `i / size` of the chain, byte `i mod size`. */
  ghost predicate IsByte(h: Heap, chain: seq<nat>, i: nat, a: nat)
    requires h.clusterSize > 0 && AllIn(h, chain)
  {
    i / h.clusterSize < |chain| && a == StartOf(h, chain[i / h.clusterSize]) + i % h.clusterSize
  }

  lemma StreamAt(h: Heap, clusters: seq<nat>, i: nat)
    requires AllIn(h, clusters) && h.clusterSize > 0 && i < |Stream(h, clusters)|
    ensures IsByte(h, clusters, i, Stream(h, clusters)[i])
  {
    StreamLength(h, clusters);
    DivBelow(i, |clusters|, h.clusterSize);
    var k, j := Split(i, h.clusterSize);
    StreamPart(h, clusters, k, j);
  }

  lemma {:induction false} StreamPrefix(h: Heap, clusters: seq<nat>, n: nat)
    requires AllIn(h, clusters) && n <= |clusters|
    ensures Stream(h, clusters[..n]) <= Stream(h, clusters)
    decreases |clusters|
  {
    if n < |clusters| {
      assert clusters[..|clusters| - 1][..n] == clusters[..n];
      StreamPrefix(h, clusters[..|clusters| - 1], n);
    } else {
      assert clusters[..n] == clusters;
    }
  }

  // -------------------------------------------------------------------- coalescing

  /** How many clusters the loop uses before the size is met or one is out of range. */
  function Used(h: Heap, clusters: seq<nat>, size: nat): (n: nat)
    ensures n <= |clusters|
  {
    if clusters == [] || size == 0 || !InRange(clusters[0], h.limit) then 0
    else 1 + Used(h, clusters[1..], Minus(size, h.clusterSize))
  }

  lemma {:induction false} UsedAreIn(h: Heap, clusters: seq<nat>, size: nat)
    ensures AllIn(h, clusters[..Used(h, clusters, size)])
    decreases |clusters|
  {
    var n := Used(h, clusters, size);
    if n > 0 {
      UsedAreIn(h, clusters[1..], Minus(size, h.clusterSize));
      assert forall i | 1 <= i < n :: clusters[i] == clusters[1..][..n - 1][i - 1];
    }
  }

  predicate Follows(clusters: seq<nat>) {
    |clusters| >= 2 && clusters[|clusters| - 2] + 1 == clusters[|clusters| - 1]
  }

  /** One extent for each stretch of consecutive clusters. */
  function Merged(h: Heap, clusters: seq<nat>): (es: seq<Extent>)
    requires AllIn(h, clusters)
    ensures es == [] <==> clusters == []
  {
    if clusters == [] then []
    else
      var before := Merged(h, clusters[..|clusters| - 1]);
      if Follows(clusters) then
        before[|before| - 1 := Extent(before[|before| - 1].offset, before[|before| - 1].len + h.clusterSize)]
      else before + [Extent(StartOf(h, clusters[|clusters| - 1]), h.clusterSize)]
  }

  /** Cut the last extent so that the total is the size. */
  function TrimLast(es: seq<Extent>, size: nat): seq<Extent> {
    if Total(es) > size then
      es[|es| - 1 := Extent(es[|es| - 1].offset, Minus(es[|es| - 1].len, Total(es) - size))]
    else es
  }

  /** `retain(len > 0)`. */
  function NonEmpty(es: seq<Extent>): seq<Extent> {
    if es == [] then []
    else if es[|es| - 1].len > 0 then NonEmpty(es[..|es| - 1]) + [es[|es| - 1]]
    else NonEmpty(es[..|es| - 1])
  }

  function Coalesced(h: Heap, clusters: seq<nat>, size: nat): seq<Extent> {
    UsedAreIn(h, clusters, size);
    NonEmpty(TrimLast(Merged(h, clusters[..Used(h, clusters, size)]), size))
  }

  /** Where the loop of `coalesce` stands after `i` clusters. */
  ghost predicate Standing(h: Heap, clusters: seq<nat>, i: nat, extents: seq<Extent>, run: Option<Extent>) {
    && i <= |clusters| && AllIn(h, clusters[..i])
    && (run == None <==> i == 0) && (i == 0 ==> extents == [])
    && (i > 0 ==> extents + [run.value] == Merged(h, clusters[..i]))
  }

  lemma StandingOn(h: Heap, clusters: seq<nat>, i: nat, extents: seq<Extent>, run: Option<Extent>)
    requires Standing(h, clusters, i, extents, run) && i < |clusters| && InRange(clusters[i], h.limit)
    ensures i > 0 && clusters[i - 1] + 1 == clusters[i] ==>
              Standing(h, clusters, i + 1, extents, Some(Extent(run.value.offset, run.value.len + h.clusterSize)))
    ensures !(i > 0 && clusters[i - 1] + 1 == clusters[i]) ==>
              Standing(h, clusters, i + 1, if run.Some? then extents + [run.value] else extents,
                       Some(Extent(StartOf(h, clusters[i]), h.clusterSize)))
  {
    var s := clusters[..i + 1];
    assert s[..i] == clusters[..i];
  }

  lemma UsedNext(h: Heap, clusters: seq<nat>, i: nat, remaining: nat)
    requires i < |clusters|
    ensures Used(h, clusters[i..], remaining)
         == if remaining == 0 || !InRange(clusters[i], h.limit) then 0
            else 1 + Used(h, clusters[i + 1..], Minus(remaining, Min(remaining, h.clusterSize)))
  {
    assert clusters[i..][1..] == clusters[i + 1..];
  }

  method Coalesce(h: Heap, clusters: seq<nat>, size: nat) returns (extents: seq<Extent>)
    ensures extents == Coalesced(h, clusters, size)
  {
    extents := [];
    var remaining := size;
    var run: Option<Extent> := None;
    var prev: Option<nat> := None;
    var i := 0;
    while i < |clusters|
      invariant Standing(h, clusters, i, extents, run)
      invariant prev == if i > 0 then Some(clusters[i - 1]) else None
      invariant i + Used(h, clusters[i..], remaining) == Used(h, clusters, size)
    {
      UsedNext(h, clusters, i, remaining);
      var off := ClusterOffset(h, clusters[i]);
      if remaining == 0 || off == None {
        break;
      }
      StandingOn(h, clusters, i, extents, run);
      if prev.Some? && prev.value + 1 == clusters[i] {
        run := Some(Extent(run.value.offset, run.value.len + h.clusterSize));
      } else {
        if run.Some? {
          extents := extents + [run.value];
        }
        run := Some(Extent(off.value, h.clusterSize));
      }
      remaining := Minus(remaining, Min(remaining, h.clusterSize));
      prev := Some(clusters[i]);
      i := i + 1;
    }
    if run.Some? {
      extents := extents + [run.value];
    }
    extents := DropExcess(extents, size);
    extents := DropEmpty(extents);
  }

  method DropExcess(es: seq<Extent>, size: nat) returns (r: seq<Extent>)
    ensures r == TrimLast(es, size)
  {
    var total := 0;
    for i := 0 to |es|
      invariant total == Total(es[..i])
    {
      assert es[..i + 1][..i] == es[..i];
      total := total + es[i].len;
    }
    assert es[..|es|] == es;
    r := es;
    if total > size && |r| > 0 {
      var last := r[|r| - 1];
      r := r[|r| - 1 := Extent(last.offset, Minus(last.len, total - size))];
    }
  }

  method DropEmpty(es: seq<Extent>) returns (r: seq<Extent>)
    ensures r == NonEmpty(es)
  {
    r := [];
    for i := 0 to |es|
      invariant r == NonEmpty(es[..i])
    {
      assert es[..i + 1][..i] == es[..i];
      if es[i].len > 0 {
        r := r + [es[i]];
      }
    }
    assert es[..|es|] == es;
  }

  // ------------------------------------------------------- coalescing moves no byte

  lemma StartNext(h: Heap, c: nat)
    requires c >= 2
    ensures StartOf(h, c + 1) == StartOf(h, c) + h.clusterSize
  {
    Distrib(c - 2, 1, h.clusterSize);
  }

  /** The last extent holds the last cluster, at its end. */
  ghost predicate EndsWith(h: Heap, e: Extent, c: nat)
    requires c >= 2
  {
    e.len >= h.clusterSize && e.offset + e.len == StartOf(h, c) + h.clusterSize
  }

  lemma {:induction false} MergedEnd(h: Heap, clusters: seq<nat>)
    requires AllIn(h, clusters) && clusters != []
    ensures EndsWith(h, Merged(h, clusters)[|Merged(h, clusters)| - 1], clusters[|clusters| - 1])
  {
    var k := |clusters| - 1;
    if Follows(clusters) {
      MergedEnd(h, clusters[..k]);
      StartNext(h, clusters[k - 1]);
    }
  }

  lemma GrowBytes(h: Heap, es: seq<Extent>, c: nat)
    requires es != [] && c >= 2 && EndsWith(h, es[|es| - 1], c)
    ensures Flatten(es[|es| - 1 := Extent(es[|es| - 1].offset, es[|es| - 1].len + h.clusterSize)])
         == Flatten(es) + Range(StartOf(h, c + 1), h.clusterSize)
  {
    StartNext(h, c);
    FlattenGrow(es, h.clusterSize);
  }

  lemma {:induction false} MergedBytes(h: Heap, clusters: seq<nat>)
    requires AllIn(h, clusters)
    ensures Flatten(Merged(h, clusters)) == Stream(h, clusters)
  {
    if clusters != [] {
      var k := |clusters| - 1;
      MergedBytes(h, clusters[..k]);
      if Follows(clusters) {
        MergedEnd(h, clusters[..k]);
        assert clusters[..k][k - 1] == clusters[k - 1];
        GrowBytes(h, Merged(h, clusters[..k]), clusters[k - 1]);
      } else {
        FlattenSnoc(Merged(h, clusters[..k]), Extent(StartOf(h, clusters[k]), h.clusterSize));
      }
    }
  }

  lemma TrimLastBytes(es: seq<Extent>, size: nat)
    requires Total(es) > size ==> es[|es| - 1].len >= Total(es) - size
    ensures Flatten(TrimLast(es, size)) == Flatten(es)[..Min(size, |Flatten(es)|)]
  {
    FlattenLength(es);
    if Total(es) > size {
      var last := es[|es| - 1];
      FlattenLength(es[..|es| - 1]);
      var cut := TrimLast(es, size);
      assert cut[..|es| - 1] == es[..|es| - 1];
    }
  }

  lemma {:induction false} NonEmptyBytes(es: seq<Extent>)
    ensures Flatten(NonEmpty(es)) == Flatten(es)
  {
    if es != [] {
      var e := es[|es| - 1];
      NonEmptyBytes(es[..|es| - 1]);
      if e.len > 0 {
        FlattenSnoc(NonEmpty(es[..|es| - 1]), e);
      } else {
        assert Flatten(es[..|es| - 1]) + Range(e.offset, 0) == Flatten(es[..|es| - 1]);
      }
    }
  }

  /** Enough clusters are used, and not one too many. */
  lemma {:induction false} UsedIsEnough(h: Heap, clusters: seq<nat>, size: nat)
    requires h.clusterSize > 0 && AllIn(h, clusters)
    ensures Used(h, clusters, size) == |clusters| || Used(h, clusters, size) * h.clusterSize >= size
    ensures Used(h, clusters, size) > 0 ==> Used(h, clusters, size) * h.clusterSize < size + h.clusterSize
    decreases |clusters|
  {
    if clusters != [] && size > 0 {
      UsedIsEnough(h, clusters[1..], Minus(size, h.clusterSize));
      Distrib(Used(h, clusters[1..], Minus(size, h.clusterSize)), 1, h.clusterSize);
    }
  }

  lemma UsedBytes(h: Heap, used: seq<nat>, size: nat)
    requires AllIn(h, used) && (used != [] ==> |used| * h.clusterSize < size + h.clusterSize)
    ensures |Stream(h, used)| == |used| * h.clusterSize
    ensures Flatten(NonEmpty(TrimLast(Merged(h, used), size))) == Stream(h, used)[..Min(size, |used| * h.clusterSize)]
  {
    var es := Merged(h, used);
    MergedBytes(h, used);
    if used != [] {
      MergedEnd(h, used);
    }
    FlattenLength(es);
    StreamLength(h, used);
    TrimLastBytes(es, size);
    NonEmptyBytes(TrimLast(es, size));
  }

  /** The coalesced extents are the first `size` bytes of the clusters, or all
      the clusters when they are fewer. */
  lemma CoalescedBytes(h: Heap, clusters: seq<nat>, size: nat)
    requires h.clusterSize > 0 && AllIn(h, clusters)
    ensures Flatten(Coalesced(h, clusters, size))
         == Stream(h, clusters)[..Min(size, |Stream(h, clusters)|)]
  {
    var n := Used(h, clusters, size);
    UsedIsEnough(h, clusters, size);
    UsedBytes(h, clusters[..n], size);
    StreamPrefix(h, clusters, n);
    if n == |clusters| {
      assert clusters[..n] == clusters;
    }
    SameStart(Stream(h, clusters[..n]), Stream(h, clusters), size);
  }

  lemma SameStart(a: seq<nat>, b: seq<nat>, size: nat)
    requires a <= b && (a == b || |a| >= size)
    ensures a[..Min(size, |a|)] == b[..Min(size, |b|)]
  {
  }

  predicate Consecutive(clusters: seq<nat>) {
    forall i | 0 <= i < |clusters| :: clusters[i] == clusters[0] + i
  }

  lemma {:induction false} MergedConsecutive(h: Heap, clusters: seq<nat>)
    requires AllIn(h, clusters) && Consecutive(clusters) && clusters != []
    ensures Merged(h, clusters) == [Extent(StartOf(h, clusters[0]), |clusters| * h.clusterSize)]
  {
    if |clusters| > 1 {
      var k := |clusters| - 1;
      assert clusters[k - 1] == clusters[0] + k - 1;
      MergedConsecutive(h, clusters[..k]);
      Distrib(k, 1, h.clusterSize);
    }
  }

  lemma TrimOne(e: Extent, size: nat)
    requires 0 < size <= e.len
    ensures NonEmpty(TrimLast([e], size)) == [Extent(e.offset, size)]
  {
    assert [e][..0] == [] && Total([e]) == e.len;
    var cut := TrimLast([e], size);
    assert cut == [Extent(e.offset, size)] && cut[..0] == [] && NonEmpty(cut[..0]) == [];
  }

  /** Consecutive clusters that hold the size give one extent of that size. */
  lemma CoalescedConsecutive(h: Heap, clusters: seq<nat>, size: nat, need: nat)
    requires h.clusterSize > 0 && AllIn(h, clusters) && size > 0 && need <= |clusters|
    requires (need - 1) * h.clusterSize < size <= need * h.clusterSize && Consecutive(clusters[..need])
    ensures Coalesced(h, clusters, size) == [Extent(StartOf(h, clusters[0]), size)]
  {
    var n := Used(h, clusters, size);
    UsedIsEnough(h, clusters, size);
    if n < need {
      MulMono(n, need - 1, h.clusterSize);
    } else if n > need {
      MulMono(need + 1, n, h.clusterSize);
      Distrib(need, 1, h.clusterSize);
    }
    assert n == need;
    MergedConsecutive(h, clusters[..need]);
    TrimOne(Extent(StartOf(h, clusters[0]), need * h.clusterSize), size);
  }

  // ------------------------------------------------------- chains against contiguity

  /** `size.div_ceil(cluster_size)`. */
  function Need(size: nat, clusterSize: nat): (n: nat)
    requires clusterSize > 0
    ensures size <= n * clusterSize < size + clusterSize
    ensures size > 0 ==> n > 0
  {
    DivBounds(size + clusterSize - 1, clusterSize);
    Distrib((size + clusterSize - 1) / clusterSize, 1, clusterSize);
    (size + clusterSize - 1) / clusterSize
  }

  /** One extent from the first cluster on, cut at the end of the volume. */
  function Contiguous(h: Heap, total: nat, first: nat, size: nat): seq<Extent>
    requires h.clusterSize > 0
  {
    match ClusterOffset(h, first)
    case None => []
    case Some(start) =>
      [Extent(start, Min(Min(size, Need(size, h.clusterSize) * h.clusterSize), Minus(total, start)))]
  }

  /** A file's extents, and whether they are an assumption. */
  datatype Resolved = Resolved(extents: seq<Extent>, assumed: bool)

  /** A chain with enough clusters for the file. */
  predicate Holds(h: Heap, chain: seq<nat>, first: nat, size: nat)
    requires h.clusterSize > 0
  {
    AllIn(h, chain) && size > 0 && Need(size, h.clusterSize) <= |chain| && chain[0] == first
  }

  /** Every byte of the file. */
  ghost predicate ByteExact(h: Heap, chain: seq<nat>, size: nat, bytes: seq<nat>)
    requires h.clusterSize > 0 && AllIn(h, chain)
  {
    && |bytes| == size
    && forall i: nat | i < size :: IsByte(h, chain, i, bytes[i])
  }

  lemma ChainIsByteExact(h: Heap, chain: seq<nat>, first: nat, size: nat)
    requires h.clusterSize > 0 && Holds(h, chain, first, size)
    ensures ByteExact(h, chain, size, Flatten(Coalesced(h, chain, size)))
  {
    var need := Need(size, h.clusterSize);
    CoalescedBytes(h, chain, size);
    StreamLength(h, chain);
    MulMono(need, |chain|, h.clusterSize);
    StreamIsByteExact(h, chain, size);
  }

  lemma StreamIsByteExact(h: Heap, chain: seq<nat>, size: nat)
    requires h.clusterSize > 0 && AllIn(h, chain) && size <= |Stream(h, chain)|
    ensures ByteExact(h, chain, size, Stream(h, chain)[..size])
  {
    var bytes := Stream(h, chain)[..size];
    forall i: nat | i < size ensures IsByte(h, chain, i, bytes[i]) {
      StreamAt(h, chain, i);
    }
  }

  lemma FlattenOne(e: Extent)
    ensures Flatten([e]) == Range(e.offset, e.len)
  {
    assert [e][..0] == [] && Flatten([]) + Range(e.offset, e.len) == Range(e.offset, e.len);
  }

  lemma StartIsLinear(h: Heap, c: nat, first: nat, k: nat)
    requires h.clusterSize > 0 && c >= 2 && first >= 2 && StartOf(h, c) == StartOf(h, first) + k * h.clusterSize
    ensures c == first + k
  {
    var d := h.clusterSize;
    Distrib(first - 2, k, d);
    MultipleOf(c - 2, d);
    DivUnique((c - 2) * d, d, c - 2);
    DivUnique((c - 2) * d, d, first - 2 + k);
  }

  lemma RangeMeansConsecutive(h: Heap, chain: seq<nat>, first: nat, size: nat, n: nat, k: nat)
    requires h.clusterSize > 0 && first >= 2 && AllIn(h, chain) && k * h.clusterSize < size
    requires ByteExact(h, chain, size, Range(StartOf(h, first), n))
    ensures n == size && k < |chain| && chain[k] == first + k
  {
    var i := k * h.clusterSize;
    Quotient(i, h.clusterSize, k);
    assert IsByte(h, chain, i, Range(StartOf(h, first), n)[i]);
    assert Range(StartOf(h, first), n)[i] == StartOf(h, first) + i;
    StartIsLinear(h, chain[k], first, k);
  }

  lemma ContiguousIs(h: Heap, total: nat, first: nat, size: nat)
    requires h.clusterSize > 0 && InRange(first, h.limit)
    ensures Contiguous(h, total, first, size)
         == [Extent(StartOf(h, first), Min(size, Minus(total, StartOf(h, first))))]
  {
  }

  lemma BeforeNeed(size: nat, clusterSize: nat, k: nat)
    requires clusterSize > 0 && k < Need(size, clusterSize)
    ensures k * clusterSize < size
  {
    MulMono(k, Need(size, clusterSize) - 1, clusterSize);
    Distrib(Need(size, clusterSize) - 1, 1, clusterSize);
  }

  lemma EqualMeansConsecutive(h: Heap, chain: seq<nat>, total: nat, first: nat, size: nat)
    requires h.clusterSize > 0 && Holds(h, chain, first, size)
    requires Coalesced(h, chain, size) == Contiguous(h, total, first, size)
    ensures Consecutive(chain[..Need(size, h.clusterSize)]) && StartOf(h, first) + size <= total
  {
    var need, n := Need(size, h.clusterSize), Min(size, Minus(total, StartOf(h, first)));
    ContiguousIs(h, total, first, size);
    ChainIsByteExact(h, chain, first, size);
    FlattenOne(Extent(StartOf(h, first), n));
    forall k | 0 <= k < need ensures n == size && chain[k] == first + k {
      BeforeNeed(size, h.clusterSize, k);
      RangeMeansConsecutive(h, chain, first, size, n, k);
    }
    assert chain[0] == first + 0;
  }

  /** Reading on from the first cluster gives what following the chain gives
      exactly when the clusters that are needed are consecutive and the volume
      does not end before the file. */
  lemma ContiguousIff(h: Heap, chain: seq<nat>, total: nat, first: nat, size: nat)
    requires h.clusterSize > 0 && Holds(h, chain, first, size)
    ensures Coalesced(h, chain, size) == Contiguous(h, total, first, size)
       <==> (Consecutive(chain[..Need(size, h.clusterSize)]) && StartOf(h, first) + size <= total)
  {
    var need := Need(size, h.clusterSize);
    if Coalesced(h, chain, size) == Contiguous(h, total, first, size) {
      EqualMeansConsecutive(h, chain, total, first, size);
    }
    if Consecutive(chain[..need]) && StartOf(h, first) + size <= total {
      ConsecutiveMeansEqual(h, chain, total, first, size);
    }
  }

  lemma ConsecutiveMeansEqual(h: Heap, chain: seq<nat>, total: nat, first: nat, size: nat)
    requires h.clusterSize > 0 && Holds(h, chain, first, size)
    requires Consecutive(chain[..Need(size, h.clusterSize)]) && StartOf(h, first) + size <= total
    ensures Coalesced(h, chain, size) == Contiguous(h, total, first, size)
  {
    var need := Need(size, h.clusterSize);
    Distrib(need - 1, 1, h.clusterSize);
    CoalescedConsecutive(h, chain, size, need);
    ContiguousIs(h, total, first, size);
  }

  lemma OrbitLinks(l: Links, first: nat, cap: nat)
    requires cap > 0 && InRange(first, l.limit)
    ensures Orbit(l, first, cap) != [] && Orbit(l, first, cap)[0] == first
    ensures Ends(l, first) ==> Orbit(l, first, cap) == [first]
  {
  }

  /** A file needs more than `n` clusters exactly if `n` clusters do not hold it. */
  lemma NeedIff(size: nat, clusterSize: nat, n: nat)
    requires clusterSize > 0
    ensures Need(size, clusterSize) > n <==> n * clusterSize < size
  {
    var need := Need(size, clusterSize);
    Distrib(need, -1, clusterSize);
    if n < need {
      MulMono(n, need - 1, clusterSize);
    } else {
      MulMono(need, n, clusterSize);
    }
  }

  /** Reading on from a cluster gives the bytes from there, as many as the file has
      and the volume still holds. */
  lemma ContiguousBytes(h: Heap, total: nat, first: nat, size: nat)
    requires h.clusterSize > 0 && InRange(first, h.limit)
    ensures Flatten(Contiguous(h, total, first, size))
         == Range(StartOf(h, first), Min(size, Minus(total, StartOf(h, first))))
  {
    var es := Contiguous(h, total, first, size);
    FlattenSnoc([], es[0]);
    assert [] + es == es && Flatten([]) == [];
  }
}
