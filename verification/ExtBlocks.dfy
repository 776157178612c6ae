/** From collected blocks to byte extents, for both ext mapping schemes
    (crates/fs-ext/src/inode.rs:218-246), and which bytes end up right. */
module ExtBlocks {
  import opened Arith
  import opened Bytes
  import opened Extents

  const MAX_FILE_BLOCKS: nat := 8 * 1024 * 1024
  const MAX_MAP_NODES: nat := 4096

  /** Block contents by block number. */
  type Disk = nat -> seq<Byte>

  datatype Block = Block(logical: nat, phys: nat)

  // ---------------------------------------------------- blocks to byte extents

  /** The addresses of some blocks' bytes, block after block. */
  ghost function Stream(blocks: seq<Block>, bs: nat): seq<nat> {
    if blocks == [] then []
    else Stream(blocks[..|blocks| - 1], bs) + Range(blocks[|blocks| - 1].phys * bs, bs)
  }

  lemma {:induction false} StreamLength(blocks: seq<Block>, bs: nat)
    ensures |Stream(blocks, bs)| == |blocks| * bs
  {
    if blocks != [] {
      var k := |blocks| - 1;
      StreamLength(blocks[..k], bs);
      assert (k + 1) * bs == k * bs + bs;
    }
  }

  /** Byte `i` of the stream: block `i / bs`, byte `i mod bs`. */
  lemma {:induction false} StreamAt(blocks: seq<Block>, bs: nat, i: nat)
    requires bs > 0 && i < |Stream(blocks, bs)|
    ensures i / bs < |blocks| && Stream(blocks, bs)[i] == blocks[i / bs].phys * bs + i % bs
    decreases |blocks|
  {
    StreamLength(blocks, bs);
    var k := |blocks| - 1;
    var before := blocks[..k];
    StreamLength(before, bs);
    if i < |before| * bs {
      StreamAt(before, bs, i);
    } else {
      assert (k + 1) * bs == k * bs + bs;
      Quotient(i, bs, k);
    }
  }

  /** `sort_by_key`, stable: a block goes after all those with a key not above its own. */
  function Insert(sorted: seq<Block>, b: Block): seq<Block> {
    if sorted == [] || sorted[|sorted| - 1].logical <= b.logical then sorted + [b]
    else Insert(sorted[..|sorted| - 1], b) + [sorted[|sorted| - 1]]
  }

  function Sort(blocks: seq<Block>): seq<Block> {
    if blocks == [] then [] else Insert(Sort(blocks[..|blocks| - 1]), blocks[|blocks| - 1])
  }

  predicate Sorted(blocks: seq<Block>) {
    forall i, j | 0 <= i < j < |blocks| :: blocks[i].logical <= blocks[j].logical
  }

  lemma {:induction false} InsertElements(sorted: seq<Block>, b: Block)
    ensures multiset(Insert(sorted, b)) == multiset(sorted) + multiset{b}
    ensures forall x | x in Insert(sorted, b) :: x in sorted || x == b
  {
    if !(sorted == [] || sorted[|sorted| - 1].logical <= b.logical) {
      var k := |sorted| - 1;
      InsertElements(sorted[..k], b);
      assert sorted == sorted[..k] + [sorted[k]];
    }
  }

  lemma {:induction false} InsertSorts(sorted: seq<Block>, b: Block)
    requires Sorted(sorted)
    ensures Sorted(Insert(sorted, b))
  {
    if !(sorted == [] || sorted[|sorted| - 1].logical <= b.logical) {
      var k := |sorted| - 1;
      InsertSorts(sorted[..k], b);
      InsertElements(sorted[..k], b);
      var s := Insert(sorted[..k], b);
      forall i | 0 <= i < |s| ensures s[i].logical <= sorted[k].logical {
        assert s[i] in s;
      }
    }
  }

  lemma {:induction false} SortSorts(blocks: seq<Block>)
    ensures Sorted(Sort(blocks)) && multiset(Sort(blocks)) == multiset(blocks)
  {
    if blocks != [] {
      var k := |blocks| - 1;
      SortSorts(blocks[..k]);
      InsertSorts(Sort(blocks[..k]), blocks[k]);
      InsertElements(Sort(blocks[..k]), blocks[k]);
      assert blocks == blocks[..k] + [blocks[k]];
    }
  }

  lemma {:induction false} SortOfSorted(blocks: seq<Block>)
    requires Sorted(blocks)
    ensures Sort(blocks) == blocks
  {
    if blocks != [] {
      var k := |blocks| - 1;
      SortOfSorted(blocks[..k]);
      assert blocks == blocks[..k] + [blocks[k]];
    }
  }

  lemma StreamNext(blocks: seq<Block>, i: nat, bs: nat)
    requires i < |blocks|
    ensures Stream(blocks[..i + 1], bs) == Stream(blocks[..i], bs) + Range(blocks[i].phys * bs, bs)
  {
    assert blocks[..i + 1][..i] == blocks[..i];
  }

  /** `runs_to_extents`: sort, coalesce blocks that touch on disk, trim. */
  method RunsToExtents(bs: nat, blocks: seq<Block>, size: nat) returns (extents: seq<Extent>)
    ensures Flatten(extents) == Stream(Sort(blocks), bs)[..Min(size, |Stream(Sort(blocks), bs)|)]
  {
    var sorted := Sort(blocks);
    extents := [];
    for i := 0 to |sorted|
      invariant Flatten(extents) == Stream(sorted[..i], bs)
    {
      StreamNext(sorted, i, bs);
      var off := sorted[i].phys * bs;
      if |extents| > 0 && extents[|extents| - 1].offset + extents[|extents| - 1].len == off {
        FlattenGrow(extents, bs);
        var last := extents[|extents| - 1];
        extents := extents[|extents| - 1 := Extent(last.offset, last.len + bs)];
        continue;
      }
      FlattenSnoc(extents, Extent(off, bs));
      extents := extents + [Extent(off, bs)];
    }
    assert sorted[..|sorted|] == sorted;
    extents := TrimToSize(extents, size);
  }

  /** The file's block map says where each logical block is; 0 is a hole. */
  type FileMap = seq<nat>

  /** Where byte `i` of the file is, by the map. */
  function AddressOf(m: FileMap, bs: nat, i: nat): nat
    requires bs > 0 && i / bs < |m|
  {
    m[i / bs] * bs + i % bs
  }

  /** The mapped blocks, in file order. */
  function Mapped(m: FileMap): seq<Block> {
    if m == [] then []
    else if m[|m| - 1] != 0 then Mapped(m[..|m| - 1]) + [Block(|m| - 1, m[|m| - 1])]
    else Mapped(m[..|m| - 1])
  }

  /** Blocks that the map names. */
  predicate Named(m: FileMap, blocks: seq<Block>) {
    forall i | 0 <= i < |blocks| :: blocks[i].logical < |m| && blocks[i].phys == m[blocks[i].logical] != 0
  }

  lemma NamedByMore(m: FileMap, k: nat, blocks: seq<Block>)
    requires k <= |m| && Named(m[..k], blocks)
    ensures Named(m, blocks)
  {
  }

  lemma {:induction false} MappedSorted(m: FileMap)
    ensures Sorted(Mapped(m)) && Named(m, Mapped(m))
  {
    if m != [] {
      var k := |m| - 1;
      MappedSorted(m[..k]);
      NamedByMore(m, k, Mapped(m[..k]));
    }
  }

  lemma {:induction false} MappedPrefix(m: FileMap, k: nat)
    requires k <= |m|
    ensures Mapped(m[..k]) <= Mapped(m) && |Mapped(m[..k])| <= k
    decreases |m|
  {
    if k < |m| {
      assert m[..|m| - 1][..k] == m[..k];
      MappedPrefix(m[..|m| - 1], k);
    } else {
      assert m[..k] == m;
      if m != [] {
        assert m[..|m| - 1][..|m| - 1] == m[..|m| - 1];
        MappedPrefix(m[..|m| - 1], |m| - 1);
      }
    }
  }

  // ------------------------------------------------------ what the sort is for

  predicate StrictlySorted(blocks: seq<Block>) {
    forall i, j | 0 <= i < j < |blocks| :: blocks[i].logical < blocks[j].logical
  }

  lemma LastsAgree(a: seq<Block>, b: seq<Block>)
    requires Sorted(a) && StrictlySorted(b) && multiset(a) == multiset(b) && a != []
    ensures b != [] && a[|a| - 1] == b[|b| - 1]
  {
    var x := a[|a| - 1];
    assert x in multiset(a);
    assert x in b;
    var y := b[|b| - 1];
    assert y in multiset(b);
    assert y in a;
    var i :| 0 <= i < |b| && b[i] == x;
    var j :| 0 <= j < |a| && a[j] == y;
  }

  lemma SameBefore<T>(a: seq<T>, b: seq<T>)
    requires a != [] && b != [] && a[|a| - 1] == b[|b| - 1] && multiset(a) == multiset(b)
    ensures multiset(a[..|a| - 1]) == multiset(b[..|b| - 1])
  {
    var x := a[|a| - 1];
    assert a == a[..|a| - 1] + [x] && b == b[..|b| - 1] + [x];
    var ma, mb := multiset(a[..|a| - 1]), multiset(b[..|b| - 1]);
    assert ma + multiset{x} == mb + multiset{x};
    assert ma == ma + multiset{x} - multiset{x} && mb == mb + multiset{x} - multiset{x};
  }

  /** Blocks collected in any order sort to the map's own order. */
  lemma {:induction false} SortedIsUnique(a: seq<Block>, b: seq<Block>)
    requires Sorted(a) && StrictlySorted(b) && multiset(a) == multiset(b)
    ensures a == b
    decreases |a|
  {
    if a == [] {
      assert |multiset(b)| == 0;
    } else {
      LastsAgree(a, b);
      SameBefore(a, b);
      SortedIsUnique(a[..|a| - 1], b[..|b| - 1]);
      assert a == a[..|a| - 1] + [a[|a| - 1]] && b == b[..|b| - 1] + [b[|b| - 1]];
    }
  }

  lemma {:induction false} MappedStrict(m: FileMap)
    ensures StrictlySorted(Mapped(m))
  {
    if m != [] {
      var k := |m| - 1;
      MappedStrict(m[..k]);
      MappedSorted(m[..k]);
    }
  }

  // ------------------------------------------------------- which bytes are right

  /** The extents of a file whose collected blocks are those its map names. */
  ghost function FileBytes(m: FileMap, bs: nat, size: nat): seq<nat> {
    Stream(Mapped(m), bs)[..Min(size, |Stream(Mapped(m), bs)|)]
  }

  /** No block below the file's size is a hole or missing. */
  ghost predicate HoleFree(m: FileMap, bs: nat, size: nat) {
    forall k: nat {:trigger k * bs} | k * bs < size :: k < |m| && m[k] != 0
  }

  ghost predicate ByteExact(m: FileMap, bs: nat, size: nat, bytes: seq<nat>)
    requires bs > 0
  {
    |bytes| == size && forall i: nat | i < size :: i / bs < |m| && bytes[i] == AddressOf(m, bs, i)
  }

  lemma {:induction false} MappedOfFull(m: FileMap)
    requires forall k | 0 <= k < |m| :: m[k] != 0
    ensures |Mapped(m)| == |m| && forall k | 0 <= k < |m| :: Mapped(m)[k] == Block(k, m[k])
  {
    if m != [] {
      MappedOfFull(m[..|m| - 1]);
    }
  }

  lemma ByteOfHoleFree(m: FileMap, bs: nat, size: nat, i: nat)
    requires bs > 0 && HoleFree(m, bs, size) && i < size
    ensures i / bs < |m| && i < |FileBytes(m, bs, size)| && FileBytes(m, bs, size)[i] == AddressOf(m, bs, i)
  {
    var k := i / bs;
    DivBounds(i, bs);
    forall j: nat | j <= k ensures j < |m| && m[j] != 0 {
      MulMono(j, k, bs);
    }
    var upTo := m[..k + 1];
    MappedOfFull(upTo);
    MappedPrefix(m, k + 1);
    assert Mapped(m)[k] == Mapped(upTo)[k];
    StreamLength(Mapped(m), bs);
    MulMono(k + 1, |Mapped(m)|, bs);
    StreamAt(Mapped(m), bs, i);
  }

  /** Holes are dropped, not kept: every byte of the file is given its own
      address exactly when there is no hole below the file's size. */
  lemma ByteExactIffHoleFree(m: FileMap, bs: nat, size: nat)
    requires bs > 0
    ensures ByteExact(m, bs, size, FileBytes(m, bs, size)) <==> HoleFree(m, bs, size)
  {
    var bytes := FileBytes(m, bs, size);
    if HoleFree(m, bs, size) {
      forall i: nat | i < size ensures i / bs < |m| && i < |bytes| && bytes[i] == AddressOf(m, bs, i) {
        ByteOfHoleFree(m, bs, size, i);
      }
      if size > 0 {
        ByteOfHoleFree(m, bs, size, size - 1);
      }
    }
    if ByteExact(m, bs, size, bytes) {
      forall k: nat | k * bs < size ensures k < |m| && m[k] != 0 {
        Quotient(k * bs, bs, k);
        StreamAt(Mapped(m), bs, k * bs);
        MappedSorted(m);
        var b := Mapped(m)[k];
        MulMono(1, b.phys, bs);
        assert bytes[k * bs] == AddressOf(m, bs, k * bs);
      }
    }
  }

  /** Three blocks of one byte, the middle one a hole: two addresses come out, and
      the third byte's own is in the second place. */
  lemma HoleMovesTheRest()
    ensures FileBytes([5, 0, 7], 1, 3) == [5, 7] && AddressOf([5, 0, 7], 1, 2) == 7
    ensures !ByteExact([5, 0, 7], 1, 3, FileBytes([5, 0, 7], 1, 3))
  {
    var blocks := [Block(0, 5), Block(2, 7)];
    MappedExample();
    StreamLength(blocks, 1);
    StreamAt(blocks, 1, 0);
    StreamAt(blocks, 1, 1);
    assert Stream(blocks, 1) == [5, 7];
  }

  lemma MappedExample()
    ensures Mapped([5, 0, 7]) == [Block(0, 5), Block(2, 7)]
  {
    var m := [5, 0, 7];
    assert m[..2] == [5, 0] && m[..2][..1] == [5] && [5][..0] == [];
    assert Mapped([5]) == [Block(0, 5)];
    assert Mapped([5, 0]) == [Block(0, 5)];
  }
}
