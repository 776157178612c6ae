/** ext4 extent trees (crates/fs-ext/src/inode.rs:86-156). */
module ExtentTree {
  import opened Arith
  import opened Bytes
  import opened Extents
  import opened ExtBlocks

  const MAX_EXTENT_DEPTH: nat := 5
  const EXTENT_MAGIC: nat := 0xF30A

  // -------------------------------------------------------------- extent trees

  /** What a walk carries: nodes it may still read, and the blocks so far. */
  datatype Walk = Walk(budget: nat, out: seq<Block>)

  /** A node's header is taken at its word if this holds. */
  predicate HeaderOk(node: seq<Byte>) {
    && LeU16(node, 0) == EXTENT_MAGIC
    && LeU16(node, 2) <= LeU16(node, 4)
    && LeU16(node, 4) <= (if |node| < 12 then 0 else |node| - 12) / 12
  }

  function RunLength(node: seq<Byte>, i: nat): nat {
    var raw := LeU16(node, 12 + i * 12 + 4);
    if raw > 32768 then raw - 32768 else raw
  }

  function RunLogical(node: seq<Byte>, i: nat): nat { LeU32(node, 12 + i * 12) }

  function RunPhys(node: seq<Byte>, i: nat): nat {
    LeU16(node, 12 + i * 12 + 6) * 0x1_0000_0000 + LeU32(node, 12 + i * 12 + 8)
  }

  function ChildAt(node: seq<Byte>, i: nat): nat {
    LeU16(node, 12 + i * 12 + 8) * 0x1_0000_0000 + LeU32(node, 12 + i * 12 + 4)
  }

  /** The blocks of one run. */
  function RunBlocks(logical: nat, phys: nat, len: nat): (r: seq<Block>)
    ensures |r| == len
  {
    seq(len, (b: nat) => Block(logical + b, phys + b))
  }

  /** Push blocks until the file is too long. */
  function Capped(out: seq<Block>, more: seq<Block>): seq<Block> {
    if |out| > MAX_FILE_BLOCKS then out
    else out + more[..Min(|more|, MAX_FILE_BLOCKS + 1 - |out|)]
  }

  function CollectTree(disk: Disk, node: seq<Byte>, guard: nat, w: Walk): Walk
    decreases MAX_EXTENT_DEPTH + 1 - guard, 0, 0
  {
    if guard > MAX_EXTENT_DEPTH || |w.out| > MAX_FILE_BLOCKS || w.budget == 0 then w
    else if !HeaderOk(node) then w.(budget := w.budget - 1)
    else CollectEntries(disk, node, guard, LeU16(node, 2), w.(budget := w.budget - 1))
  }

  /** The first `n` entries of a node. */
  function CollectEntries(disk: Disk, node: seq<Byte>, guard: nat, n: nat, w: Walk): Walk
    requires guard <= MAX_EXTENT_DEPTH
    decreases MAX_EXTENT_DEPTH - guard, 1, n
  {
    if n == 0 then w
    else
      var w1 := CollectEntries(disk, node, guard, n - 1, w);
      if LeU16(node, 6) == 0
      then w1.(out := Capped(w1.out, RunBlocks(RunLogical(node, n - 1), RunPhys(node, n - 1), RunLength(node, n - 1))))
      else CollectTree(disk, disk(ChildAt(node, n - 1)), guard + 1, w1)
  }

  /** Once the file is too long nothing more is collected. */
  lemma {:induction false} FullStops(disk: Disk, node: seq<Byte>, guard: nat, i: nat, n: nat, w: Walk)
    requires guard <= MAX_EXTENT_DEPTH && i <= n && |CollectEntries(disk, node, guard, i, w).out| > MAX_FILE_BLOCKS
    ensures CollectEntries(disk, node, guard, n, w) == CollectEntries(disk, node, guard, i, w)
    decreases n
  {
    if i < n {
      FullStops(disk, node, guard, i, n - 1, w);
    }
  }

  /** A leaf entry's blocks; `full` if the file became too long on the way. */
  method PushRun(out: seq<Block>, logical: nat, phys: nat, len: nat) returns (out': seq<Block>, full: bool)
    ensures out' == Capped(out, RunBlocks(logical, phys, len))
    ensures full ==> |out'| > MAX_FILE_BLOCKS
  {
    ghost var blocks := RunBlocks(logical, phys, len);
    out' := out;
    for b := 0 to len
      invariant out' == Capped(out, blocks[..b])
    {
      assert blocks[..b + 1] == blocks[..b] + [blocks[b]];
      if |out'| > MAX_FILE_BLOCKS {
        return out', true;
      }
      out' := out' + [Block(logical + b, phys + b)];
    }
    assert blocks[..len] == blocks;
    full := false;
  }

  /** `collect_extent_tree`. */
  method CollectExtentTree(disk: Disk, node: seq<Byte>, guard: nat, budget: nat, out: seq<Block>)
    returns (budget': nat, out': seq<Block>)
    ensures Walk(budget', out') == CollectTree(disk, node, guard, Walk(budget, out))
    decreases MAX_EXTENT_DEPTH + 1 - guard, 0
  {
    budget', out' := budget, out;
    if guard > MAX_EXTENT_DEPTH || |out| > MAX_FILE_BLOCKS || budget == 0 {
      return;
    }
    budget' := budget - 1;
    if !HeaderOk(node) {
      return;
    }
    budget', out' := CollectEach(disk, node, guard, LeU16(node, 2), budget', out);
  }

  /** The loop over a node's entries. */
  method CollectEach(disk: Disk, node: seq<Byte>, guard: nat, entries: nat, budget: nat, out: seq<Block>)
    returns (budget': nat, out': seq<Block>)
    requires guard <= MAX_EXTENT_DEPTH
    ensures Walk(budget', out') == CollectEntries(disk, node, guard, entries, Walk(budget, out))
    decreases MAX_EXTENT_DEPTH - guard, 1
  {
    budget', out' := budget, out;
    ghost var w := Walk(budget, out);
    for i := 0 to entries
      invariant Walk(budget', out') == CollectEntries(disk, node, guard, i, w)
    {
      if LeU16(node, 6) == 0 {
        var full;
        out', full := PushRun(out', RunLogical(node, i), RunPhys(node, i), RunLength(node, i));
        if full {
          FullStops(disk, node, guard, i + 1, entries, w);
          return;
        }
      } else {
        budget', out' := CollectExtentTree(disk, disk(ChildAt(node, i)), guard + 1, budget', out');
      }
    }
  }

  // ----------------------------------------------- the tree the bytes describe

  /** One leaf entry; an uninitialised run is stored with 32768 added to its length. */
  datatype Run = Run(logical: nat, phys: nat, len: nat, initialised: bool)

  /** `blocks` are the blocks that hold the children's nodes. */
  datatype Tree = Leaf(runs: seq<Run>) | Index(depth: nat, blocks: seq<nat>, kids: seq<Tree>)

  predicate Storable(r: Run) {
    && r.logical < 0x1_0000_0000 && r.phys < 0x1_0000_0000_0000
    && (if r.initialised then r.len <= 32768 else 0 < r.len < 32768)
  }

  /** A leaf entry's twelve bytes: the logical block, the length, and the upper and
      lower part of the physical block. */
  function EntryBytes(r: Run): (b: seq<Byte>)
    requires Storable(r)
    ensures |b| == 12
  {
    ToLe32(r.logical) + ToLe16(if r.initialised then r.len else r.len + 32768)
    + (ToLe16(r.phys / 0x1_0000_0000) + ToLe32(r.phys % 0x1_0000_0000))
  }

  /** An index entry's block: six bytes after the logical block, the lower part first. */
  function LinkBytes(block: nat): (b: seq<Byte>)
    requires block < 0x1_0000_0000_0000
    ensures |b| == 6
  {
    ToLe32(block % 0x1_0000_0000) + ToLe16(block / 0x1_0000_0000)
  }

  predicate RunStored(node: seq<Byte>, i: nat, r: Run) { Storable(r) && At(node, 12 + 12 * i, EntryBytes(r)) }

  predicate LinkStored(node: seq<Byte>, i: nat, block: nat) {
    block < 0x1_0000_0000_0000 && At(node, 16 + 12 * i, LinkBytes(block))
  }

  /** A node's header: the magic number, how many entries there are and could be,
      and how far it is above the leaves. */
  ghost predicate HeaderStored(node: seq<Byte>, n: nat, depth: nat) {
    && n < 0x1_0000 && depth < 0x1_0000
    && |node| >= 12 && node[0] == 0x0A && node[1] == 0xF3
    && At(node, 2, ToLe16(n)) && At(node, 6, ToLe16(depth))
    && exists max: nat | max < 0x1_0000 :: At(node, 4, ToLe16(max)) && n <= max && 12 + 12 * max <= |node|
  }

  /** The node's bytes, and the blocks they lead to, describe the tree. */
  ghost predicate Represents(disk: Disk, node: seq<Byte>, t: Tree)
    decreases t
  {
    match t
    case Leaf(runs) => HeaderStored(node, |runs|, 0) && forall i | 0 <= i < |runs| :: RunStored(node, i, runs[i])
    case Index(depth, blocks, kids) =>
      && depth > 0 && |blocks| == |kids| && HeaderStored(node, |kids|, depth)
      && forall i | 0 <= i < |kids| :: LinkStored(node, i, blocks[i]) && Represents(disk, disk(blocks[i]), kids[i])
  }

  lemma HeaderReads(node: seq<Byte>, n: nat, depth: nat)
    requires HeaderStored(node, n, depth)
    ensures HeaderOk(node) && LeU16(node, 2) == n && LeU16(node, 6) == depth
  {
    var max: nat :| max < 0x1_0000 && At(node, 4, ToLe16(max)) && n <= max && 12 + 12 * max <= |node|;
    Reads16(node, 2, n);
    Reads16(node, 4, max);
    Reads16(node, 6, depth);
  }

  /** Nothing is read below the fifth level, once the file is too long, or without
      a budget. */
  lemma RefusedOutright(disk: Disk, node: seq<Byte>, guard: nat, w: Walk)
    requires guard > 5 || |w.out| > 8_388_608 || w.budget == 0
    ensures CollectTree(disk, node, guard, w) == w
  {
  }

  /** A node whose header is not taken at its word costs as much as any other. */
  lemma WrongHeaderCosts(disk: Disk, node: seq<Byte>, guard: nat, w: Walk)
    requires guard <= 5 && |w.out| <= 8_388_608 && w.budget > 0 && !HeaderOk(node)
    ensures CollectTree(disk, node, guard, w) == Walk(w.budget - 1, w.out)
  {
  }

  /** Of what a run gives all is kept, or as much as makes the file too long by one. */
  lemma KeptOfRun(out: seq<Block>, more: seq<Block>)
    requires |out| <= 8_388_608
    ensures out <= Capped(out, more) <= out + more
    ensures |Capped(out, more)| == Min(|out| + |more|, 8_388_609)
  {
  }

  /** No other header is taken at its word. */
  lemma HeaderIff(node: seq<Byte>, n: nat, max: nat)
    requires |node| >= 12 && n < 0x1_0000 && max < 0x1_0000
    requires At(node, 2, ToLe16(n)) && At(node, 4, ToLe16(max))
    ensures HeaderOk(node) <==> node[0] == 0x0A && node[1] == 0xF3 && n <= max && 12 + 12 * max <= |node|
  {
    Reads16(node, 2, n);
    Reads16(node, 4, max);
  }

  /** A run is read as it is stored. */
  lemma RunReads(node: seq<Byte>, i: nat, r: Run)
    requires RunStored(node, i, r)
    ensures RunLogical(node, i) == r.logical && RunLength(node, i) == r.len && RunPhys(node, i) == r.phys
  {
    var p, len := 12 + 12 * i, if r.initialised then r.len else r.len + 32768;
    var hi, lo := r.phys / 0x1_0000_0000, r.phys % 0x1_0000_0000;
    AtSplit(node, p, ToLe32(r.logical) + ToLe16(len), ToLe16(hi) + ToLe32(lo));
    AtSplit(node, p, ToLe32(r.logical), ToLe16(len));
    AtSplit(node, p + 6, ToLe16(hi), ToLe32(lo));
    Reads32(node, p, r.logical);
    Reads16(node, p + 4, len);
    Reads16(node, p + 6, hi);
    Reads32(node, p + 8, lo);
  }

  /** A child's block is read as it is stored. */
  lemma LinkReads(node: seq<Byte>, i: nat, block: nat)
    requires LinkStored(node, i, block)
    ensures ChildAt(node, i) == block
  {
    var hi, lo := block / 0x1_0000_0000, block % 0x1_0000_0000;
    AtSplit(node, 16 + 12 * i, ToLe32(lo), ToLe16(hi));
    Reads32(node, 16 + 12 * i, lo);
    Reads16(node, 20 + 12 * i, hi);
  }

  function BlocksOfRuns(runs: seq<Run>): seq<Block> {
    if runs == [] then []
    else
      var r := runs[|runs| - 1];
      BlocksOfRuns(runs[..|runs| - 1]) + RunBlocks(r.logical, r.phys, r.len)
  }

  /** A tree's blocks, in order. */
  function TreeBlocks(t: Tree): seq<Block>
    decreases t, 0
  {
    match t
    case Leaf(runs) => BlocksOfRuns(runs)
    case Index(_, _, kids) => KidsBlocks(t, |kids|)
  }

  function KidsBlocks(t: Tree, n: nat): seq<Block>
    requires t.Index? && n <= |t.kids|
    decreases t, 0, n
  {
    if n == 0 then [] else KidsBlocks(t, n - 1) + TreeBlocks(t.kids[n - 1])
  }

  function TreeNodes(t: Tree): nat
    decreases t, 0
  {
    match t
    case Leaf(_) => 1
    case Index(_, _, kids) => 1 + KidsNodes(t, |kids|)
  }

  function KidsNodes(t: Tree, n: nat): nat
    requires t.Index? && n <= |t.kids|
    decreases t, 0, n
  {
    if n == 0 then 0 else KidsNodes(t, n - 1) + TreeNodes(t.kids[n - 1])
  }

  /** No index node more than `h` levels above a leaf. */
  ghost predicate Shallow(t: Tree, h: nat)
    decreases t
  {
    match t
    case Leaf(_) => true
    case Index(_, _, kids) => h > 0 && forall i | 0 <= i < |kids| :: Shallow(kids[i], h - 1)
  }

  lemma {:induction false} KidsGrow(t: Tree, i: nat, n: nat)
    requires t.Index? && i <= n <= |t.kids|
    ensures KidsNodes(t, i) <= KidsNodes(t, n) && |KidsBlocks(t, i)| <= |KidsBlocks(t, n)|
    decreases n
  {
    if i < n {
      KidsGrow(t, i, n - 1);
    }
  }

  lemma {:induction false} RunsGrow(runs: seq<Run>, i: nat)
    requires i <= |runs|
    ensures |BlocksOfRuns(runs[..i])| <= |BlocksOfRuns(runs)|
    decreases |runs|
  {
    if i < |runs| {
      assert runs[..|runs| - 1][..i] == runs[..i];
      RunsGrow(runs[..|runs| - 1], i);
    } else {
      assert runs[..i] == runs;
    }
  }

  /** The tree has a run for this block of the file, and it is there on the disk. */
  ghost predicate Maps(t: Tree, logical: nat, phys: nat)
    decreases t
  {
    match t
    case Leaf(runs) => exists i | 0 <= i < |runs| :: RunMaps(runs[i], logical, phys)
    case Index(_, _, kids) => exists i | 0 <= i < |kids| :: Maps(kids[i], logical, phys)
  }

  predicate RunMaps(r: Run, logical: nat, phys: nat) {
    r.logical <= logical < r.logical + r.len && phys - r.phys == logical - r.logical
  }

  lemma RunBlocksIff(r: Run, b: Block)
    ensures b in RunBlocks(r.logical, r.phys, r.len) <==> RunMaps(r, b.logical, b.phys)
  {
    var blocks := RunBlocks(r.logical, r.phys, r.len);
    if RunMaps(r, b.logical, b.phys) {
      assert blocks[b.logical - r.logical] == b;
    }
  }

  lemma {:induction false} RunsIff(runs: seq<Run>, b: Block)
    ensures b in BlocksOfRuns(runs) <==> exists i | 0 <= i < |runs| :: RunMaps(runs[i], b.logical, b.phys)
  {
    if runs != [] {
      var before, r := runs[..|runs| - 1], runs[|runs| - 1];
      RunsIff(before, b);
      RunBlocksIff(r, b);
      assert forall i | 0 <= i < |before| :: before[i] == runs[i];
    }
  }

  /** The tree's blocks are what its runs map, no more and no less. */
  lemma {:induction false} TreeBlocksIff(t: Tree, b: Block)
    ensures b in TreeBlocks(t) <==> Maps(t, b.logical, b.phys)
    decreases t, 0
  {
    match t
    case Leaf(runs) => RunsIff(runs, b);
    case Index(_, _, kids) => KidsBlocksIff(t, |kids|, b);
  }

  lemma {:induction false} KidsBlocksIff(t: Tree, n: nat, b: Block)
    requires t.Index? && n <= |t.kids|
    ensures b in KidsBlocks(t, n) <==> exists i | 0 <= i < n :: Maps(t.kids[i], b.logical, b.phys)
    decreases t, 0, n
  {
    if n > 0 {
      KidsBlocksIff(t, n - 1, b);
      TreeBlocksIff(t.kids[n - 1], b);
    }
  }

  /** One entry of a leaf. */
  lemma CollectRun(disk: Disk, node: seq<Byte>, guard: nat, n: nat, r: Run, w: Walk, w1: Walk)
    requires guard <= MAX_EXTENT_DEPTH && n > 0 && LeU16(node, 6) == 0 && RunStored(node, n - 1, r)
    requires w1 == CollectEntries(disk, node, guard, n - 1, w) && |w1.out| + r.len <= MAX_FILE_BLOCKS
    ensures CollectEntries(disk, node, guard, n, w) == w1.(out := w1.out + RunBlocks(r.logical, r.phys, r.len))
  {
    RunReads(node, n - 1, r);
    CappedFits(w1.out, RunBlocks(r.logical, r.phys, r.len));
  }

  lemma NextRunBlocks(out: seq<Block>, runs: seq<Run>, n: nat)
    requires n < |runs|
    ensures out + BlocksOfRuns(runs[..n + 1])
         == out + BlocksOfRuns(runs[..n]) + RunBlocks(runs[n].logical, runs[n].phys, runs[n].len)
  {
    assert runs[..n + 1][..n] == runs[..n];
  }

  lemma {:induction false} CollectLeaf(disk: Disk, node: seq<Byte>, guard: nat, runs: seq<Run>, n: nat, w: Walk)
    requires guard <= MAX_EXTENT_DEPTH && Represents(disk, node, Leaf(runs)) && n <= |runs|
    requires |w.out| + |BlocksOfRuns(runs[..n])| <= MAX_FILE_BLOCKS
    ensures CollectEntries(disk, node, guard, n, w) == w.(out := w.out + BlocksOfRuns(runs[..n]))
    decreases n
  {
    if n > 0 {
      HeaderReads(node, |runs|, 0);
      NextRunBlocks(w.out, runs, n - 1);
      CollectLeaf(disk, node, guard, runs, n - 1, w);
      CollectRun(disk, node, guard, n, runs[n - 1], w, w.(out := w.out + BlocksOfRuns(runs[..n - 1])));
    }
  }

  lemma CappedFits(out: seq<Block>, more: seq<Block>)
    requires |out| + |more| <= MAX_FILE_BLOCKS
    ensures Capped(out, more) == out + more
  {
    assert more[..|more|] == more;
  }

  /** Where the walk stands before the last of `n` subtrees. */
  lemma NextKid(t: Tree, n: nat, w: Walk) returns (w1: Walk, w2: Walk)
    requires t.Index? && 0 < n <= |t.kids|
    requires w.budget >= KidsNodes(t, n) && |w.out| + |KidsBlocks(t, n)| <= MAX_FILE_BLOCKS
    ensures w.budget >= KidsNodes(t, n - 1) && |w.out| + |KidsBlocks(t, n - 1)| <= MAX_FILE_BLOCKS
    ensures w1 == Walk(w.budget - KidsNodes(t, n - 1), w.out + KidsBlocks(t, n - 1))
    ensures w1.budget >= TreeNodes(t.kids[n - 1]) && |w1.out| + |TreeBlocks(t.kids[n - 1])| <= MAX_FILE_BLOCKS
    ensures w2 == Walk(w1.budget - TreeNodes(t.kids[n - 1]), w1.out + TreeBlocks(t.kids[n - 1]))
    ensures w2 == Walk(w.budget - KidsNodes(t, n), w.out + KidsBlocks(t, n))
  {
    w2 := Walk(w.budget - KidsNodes(t, n), w.out + KidsBlocks(t, n));
    w1 := Walk(w.budget - KidsNodes(t, n - 1), w.out + KidsBlocks(t, n - 1));
  }

  /** The first `n` subtrees, by the blocks that the reader finds. */
  ghost predicate KidsRepresented(disk: Disk, node: seq<Byte>, guard: nat, kids: seq<Tree>, n: nat)
    requires n <= |kids|
  {
    n == 0 ||
      (KidsRepresented(disk, node, guard, kids, n - 1) && guard < MAX_EXTENT_DEPTH
       && Represents(disk, disk(ChildAt(node, n - 1)), kids[n - 1])
       && Shallow(kids[n - 1], MAX_EXTENT_DEPTH - guard - 1))
  }

  lemma {:induction false} KidsAreRepresented(disk: Disk, node: seq<Byte>, guard: nat, t: Tree, n: nat)
    requires t.Index? && guard <= MAX_EXTENT_DEPTH && n <= |t.kids|
    requires Shallow(t, MAX_EXTENT_DEPTH - guard) && Represents(disk, node, t)
    ensures KidsRepresented(disk, node, guard, t.kids, n)
  {
    if n > 0 {
      KidsAreRepresented(disk, node, guard, t, n - 1);
      LinkReads(node, n - 1, t.blocks[n - 1]);
    }
  }

  lemma IndexReads(disk: Disk, node: seq<Byte>, guard: nat, t: Tree)
    requires t.Index? && guard <= MAX_EXTENT_DEPTH
    requires Shallow(t, MAX_EXTENT_DEPTH - guard) && Represents(disk, node, t)
    ensures HeaderOk(node) && LeU16(node, 2) == |t.kids| && LeU16(node, 6) != 0
    ensures KidsRepresented(disk, node, guard, t.kids, |t.kids|)
  {
    HeaderReads(node, |t.kids|, t.depth);
    KidsAreRepresented(disk, node, guard, t, |t.kids|);
  }

  /** One entry of an index node. */
  lemma CollectKid(disk: Disk, node: seq<Byte>, guard: nat, n: nat, w: Walk, w1: Walk)
    requires guard <= MAX_EXTENT_DEPTH && n > 0 && LeU16(node, 6) != 0
    requires w1 == CollectEntries(disk, node, guard, n - 1, w)
    ensures CollectEntries(disk, node, guard, n, w) == CollectTree(disk, disk(ChildAt(node, n - 1)), guard + 1, w1)
  {
  }

  /** The walk of a well-formed tree reads each of its nodes once and collects
      its blocks in order. */
  lemma {:induction false} CollectIsTreeBlocks(disk: Disk, node: seq<Byte>, guard: nat, t: Tree, w: Walk)
    requires guard <= MAX_EXTENT_DEPTH && Shallow(t, MAX_EXTENT_DEPTH - guard) && Represents(disk, node, t)
    requires w.budget >= TreeNodes(t) && |w.out| + |TreeBlocks(t)| <= MAX_FILE_BLOCKS
    ensures CollectTree(disk, node, guard, w) == Walk(w.budget - TreeNodes(t), w.out + TreeBlocks(t))
    decreases t, 0
  {
    match t {
      case Leaf(runs) =>
        LeafCollected(disk, node, guard, runs, w);
      case Index(_, _, kids) =>
        IndexReads(disk, node, guard, t);
        CollectKids(disk, node, guard, t, |kids|, w.(budget := w.budget - 1));
        TreeIsEntries(disk, node, guard, |kids|, w);
    }
  }

  lemma LeafCollected(disk: Disk, node: seq<Byte>, guard: nat, runs: seq<Run>, w: Walk)
    requires guard <= MAX_EXTENT_DEPTH && Represents(disk, node, Leaf(runs))
    requires w.budget > 0 && |w.out| + |BlocksOfRuns(runs)| <= MAX_FILE_BLOCKS
    ensures CollectTree(disk, node, guard, w) == Walk(w.budget - 1, w.out + BlocksOfRuns(runs))
  {
    HeaderReads(node, |runs|, 0);
    var w1 := w.(budget := w.budget - 1);
    assert runs[..|runs|] == runs;
    CollectLeaf(disk, node, guard, runs, |runs|, w1);
    TreeIsEntries(disk, node, guard, |runs|, w);
  }

  lemma TreeIsEntries(disk: Disk, node: seq<Byte>, guard: nat, n: nat, w: Walk)
    requires guard <= MAX_EXTENT_DEPTH && |w.out| <= MAX_FILE_BLOCKS && w.budget > 0 && HeaderOk(node)
    requires LeU16(node, 2) == n
    ensures CollectTree(disk, node, guard, w) == CollectEntries(disk, node, guard, n, w.(budget := w.budget - 1))
  {
  }

  lemma {:induction false} CollectKids(disk: Disk, node: seq<Byte>, guard: nat, t: Tree, n: nat, w: Walk)
    requires t.Index? && n <= |t.kids|
    requires guard <= MAX_EXTENT_DEPTH && LeU16(node, 6) != 0 && KidsRepresented(disk, node, guard, t.kids, n)
    requires w.budget >= KidsNodes(t, n) && |w.out| + |KidsBlocks(t, n)| <= MAX_FILE_BLOCKS
    ensures CollectEntries(disk, node, guard, n, w) == Walk(w.budget - KidsNodes(t, n), w.out + KidsBlocks(t, n))
    decreases t, 0, n
  {
    if n > 0 {
      var w1, w2 := NextKid(t, n, w);
      CollectKids(disk, node, guard, t, n - 1, w);
      CollectKid(disk, node, guard, n, w, w1);
      NextKidCollected(disk, node, guard, t, n - 1, w1, w2);
    }
  }

  lemma {:induction false} NextKidCollected(disk: Disk, node: seq<Byte>, guard: nat, t: Tree, i: nat, w: Walk, w': Walk)
    requires t.Index? && i < |t.kids| && guard < MAX_EXTENT_DEPTH && Shallow(t.kids[i], MAX_EXTENT_DEPTH - guard - 1)
    requires Represents(disk, disk(ChildAt(node, i)), t.kids[i])
    requires w.budget >= TreeNodes(t.kids[i]) && |w.out| + |TreeBlocks(t.kids[i])| <= MAX_FILE_BLOCKS
    requires w' == Walk(w.budget - TreeNodes(t.kids[i]), w.out + TreeBlocks(t.kids[i]))
    ensures CollectTree(disk, disk(ChildAt(node, i)), guard + 1, w) == w'
    decreases t, 0, 0
  {
    CollectIsTreeBlocks(disk, disk(ChildAt(node, i)), guard + 1, t.kids[i], w);
  }

  /** `Inode::extents` for a file with an extent tree. */
  method TreeExtents(disk: Disk, bs: nat, iblock: seq<Byte>, size: nat) returns (extents: seq<Extent>)
    ensures var blocks := CollectTree(disk, iblock, 0, Walk(4096, [])).out;
            Flatten(extents) == Stream(Sort(blocks), bs)[..Min(size, |Stream(Sort(blocks), bs)|)]
  {
    var budget, blocks := CollectExtentTree(disk, iblock, 0, MAX_MAP_NODES, []);
    extents := RunsToExtents(bs, blocks, size);
  }

  /** The end of the chain: for a tree that holds each block of the file's map
      once, in whatever order, every byte below the file's size gets its own
      address exactly when the map has no hole there. */
  lemma TreeIsByteExactIff(disk: Disk, bs: nat, iblock: seq<Byte>, size: nat, t: Tree, m: FileMap)
    requires bs > 0 && Represents(disk, iblock, t) && Shallow(t, MAX_EXTENT_DEPTH)
    requires TreeNodes(t) <= 4096 && |TreeBlocks(t)| <= MAX_FILE_BLOCKS
    requires multiset(TreeBlocks(t)) == multiset(Mapped(m))
    ensures var blocks := CollectTree(disk, iblock, 0, Walk(4096, [])).out;
            ByteExact(m, bs, size, Stream(Sort(blocks), bs)[..Min(size, |Stream(Sort(blocks), bs)|)])
            <==> HoleFree(m, bs, size)
  {
    CollectIsTreeBlocks(disk, iblock, 0, t, Walk(MAX_MAP_NODES, []));
    assert [] + TreeBlocks(t) == TreeBlocks(t);
    SortSorts(TreeBlocks(t));
    MappedStrict(m);
    SortedIsUnique(Sort(TreeBlocks(t)), Mapped(m));
    ByteExactIffHoleFree(m, bs, size);
  }
}
