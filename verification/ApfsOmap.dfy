/** The object map as an index, and the work budget that all walks share
    (crates/fs-apfs/src/lib.rs:59-85, 532-580). */
module ApfsOmap {
  import opened Bytes
  import opened Wrappers
  import opened ApfsTree

  const NODE_BUDGET: nat := 64_000
  const TOTAL_WORK_BUDGET: nat := 500_000

  function OidOf(r: Record): nat { LeU64(r.key, 0) }
  function XidOf(r: Record): nat { LeU64(r.key, 8) }
  function PaddrOf(r: Record): nat { LeU64(r.val, 8) }

  // -------------------------------------------------------------------- the index

  datatype Mapping = Mapping(xid: nat, paddr: nat)

  function Enter(idx: map<nat, Mapping>, r: Record, at: nat): map<nat, Mapping> {
    if XidOf(r) > at then idx
    else
      var e := if OidOf(r) in idx then idx[OidOf(r)] else Mapping(0, 0);
      idx[OidOf(r) := if XidOf(r) >= e.xid then Mapping(XidOf(r), PaddrOf(r)) else e]
  }

  function Index(visits: seq<Record>, at: nat): map<nat, Mapping> {
    if visits == [] then map[]
    else Enter(Index(visits[..|visits| - 1], at), visits[|visits| - 1], at)
  }

  /** `r` is a newest record for the object at or before the transaction. */
  ghost predicate Newest(records: seq<Record>, at: nat, oid: nat, r: Record) {
    && r in records && OidOf(r) == oid && XidOf(r) <= at
    && forall q | q in records && OidOf(q) == oid && XidOf(q) <= at :: XidOf(q) <= XidOf(r)
  }

  /** The entry says what a newest record says. */
  ghost predicate Says(idx: map<nat, Mapping>, records: seq<Record>, at: nat, oid: nat) {
    && (oid in idx ==> exists r :: Newest(records, at, oid, r) && idx[oid] == Mapping(XidOf(r), PaddrOf(r)))
    && ((exists r :: Newest(records, at, oid, r)) ==> oid in idx)
  }

  lemma EnterSays(idx: map<nat, Mapping>, before: seq<Record>, x: Record, at: nat, oid: nat)
    requires Says(idx, before, at, oid)
    requires oid !in idx ==> forall q | q in before && OidOf(q) == oid :: XidOf(q) > at
    ensures Says(Enter(idx, x, at), before + [x], at, oid)
    ensures oid !in Enter(idx, x, at) ==> forall q | q in before + [x] && OidOf(q) == oid :: XidOf(q) > at
  {
    var all, idx' := before + [x], Enter(idx, x, at);
    if OidOf(x) == oid && XidOf(x) <= at {
      if oid in idx && XidOf(x) < idx[oid].xid {
        var r :| Newest(before, at, oid, r) && idx[oid] == Mapping(XidOf(r), PaddrOf(r));
        assert Newest(all, at, oid, r);
      } else {
        assert Newest(all, at, oid, x);
      }
    } else if oid in idx {
      var r :| Newest(before, at, oid, r) && idx[oid] == Mapping(XidOf(r), PaddrOf(r));
      assert Newest(all, at, oid, r);
    } else {
      assert forall q | q in all && OidOf(q) == oid :: XidOf(q) > at;
    }
  }

  lemma {:induction false} IndexSays(visits: seq<Record>, at: nat, oid: nat)
    ensures Says(Index(visits, at), visits, at, oid)
    ensures oid !in Index(visits, at) ==> forall q | q in visits && OidOf(q) == oid :: XidOf(q) > at
  {
    if visits != [] {
      var k := |visits| - 1;
      IndexSays(visits[..k], at, oid);
      EnterSays(Index(visits[..k], at), visits[..k], visits[k], at, oid);
      assert visits[..k] + [visits[k]] == visits;
    }
  }

  lemma NewestOfSame(a: seq<Record>, b: seq<Record>, at: nat, oid: nat, r: Record)
    requires multiset(a) == multiset(b) && Newest(a, at, oid, r)
    ensures Newest(b, at, oid, r)
  {
    assert forall q :: q in b <==> q in multiset(b);
    assert forall q :: q in multiset(a) <==> q in a;
  }

  /** On a tree that the budget covers, the index holds exactly the objects that
      have a record at or before the transaction, each with what a newest such
      record says, in whatever order the leaves are visited. */
  lemma IndexOfTree(fetch: Fetch, root: Node, budget: nat, at: nat, oid: nat)
    requires Fresh({}, Pointers(fetch, root)) && Size(fetch, root) <= budget
    ensures Says(Index(Walk(fetch, Start(root, budget)).visits, at), InOrder(fetch, root), at, oid)
  {
    var visits, all := Walk(fetch, Start(root, budget)).visits, InOrder(fetch, root);
    WalkOfTree(fetch, root, budget);
    IndexSays(visits, at, oid);
    if oid in Index(visits, at) {
      var r :| Newest(visits, at, oid, r) && Index(visits, at)[oid] == Mapping(XidOf(r), PaddrOf(r));
      NewestOfSame(visits, all, at, oid, r);
    }
    if exists r :: Newest(all, at, oid, r) {
      var r :| Newest(all, at, oid, r);
      NewestOfSame(all, visits, at, oid, r);
    }
  }

  /** Where an object has a record there is a newest one. */
  lemma AnyHasANewest(records: seq<Record>, at: nat, oid: nat, r: Record)
    requires r in records && OidOf(r) == oid && XidOf(r) <= at
    ensures exists q :: Newest(records, at, oid, q)
  {
    IndexSays(records, at, oid);
  }

  // ---------------------------------------------------------------- mappings on disk

  /** One mapping of the object map. */
  datatype Entry = Entry(oid: nat, xid: nat, flags: nat, size: nat, paddr: nat)

  predicate Storable(e: Entry) {
    && e.oid < 0x1_0000_0000_0000_0000 && e.xid < 0x1_0000_0000_0000_0000
    && e.flags < 0x1_0000_0000 && e.size < 0x1_0000_0000 && e.paddr < 0x1_0000_0000_0000_0000
  }

  /** The key is the object and the transaction; the value, flags, size and address. */
  function Encoded(e: Entry): Record
    requires Storable(e)
  {
    Record(ToLe64(e.oid) + ToLe64(e.xid), ToLe32(e.flags) + ToLe32(e.size) + ToLe64(e.paddr))
  }

  predicate AllStorable(es: seq<Entry>) { forall i | 0 <= i < |es| :: Storable(es[i]) }

  function EncodedAll(es: seq<Entry>): (rs: seq<Record>)
    requires AllStorable(es)
    ensures |rs| == |es| && forall i | 0 <= i < |es| :: rs[i] == Encoded(es[i])
  {
    seq(|es|, i requires 0 <= i < |es| => Encoded(es[i]))
  }

  lemma AtStart(x: seq<Byte>, y: seq<Byte>)
    ensures At(x + y, 0, x) && At(x + y, |x|, y)
  {
  }

  /** A record reads back as the mapping it was made of. */
  lemma EntryReads(e: Entry)
    requires Storable(e)
    ensures OidOf(Encoded(e)) == e.oid && XidOf(Encoded(e)) == e.xid && PaddrOf(Encoded(e)) == e.paddr
  {
    var r := Encoded(e);
    AtStart(ToLe64(e.oid), ToLe64(e.xid));
    Reads64(r.key, 0, e.oid);
    Reads64(r.key, 8, e.xid);
    AtStart(ToLe32(e.flags) + ToLe32(e.size), ToLe64(e.paddr));
    Reads64(r.val, 8, e.paddr);
  }

  /** A newest mapping of the object at or before the transaction. */
  ghost predicate NewestEntry(es: seq<Entry>, at: nat, oid: nat, e: Entry) {
    && e in es && e.oid == oid && e.xid <= at
    && forall x | x in es && x.oid == oid && x.xid <= at :: x.xid <= e.xid
  }

  /** An address is right if it is that of a newest mapping, and there is one
      exactly if the object has a mapping at or before the transaction. */
  ghost predicate Resolves(idx: map<nat, nat>, es: seq<Entry>, at: nat, oid: nat) {
    && (oid in idx <==> exists e :: e in es && e.oid == oid && e.xid <= at)
    && (oid in idx ==> exists e :: NewestEntry(es, at, oid, e) && idx[oid] == e.paddr)
  }

  lemma NewestIsEntry(es: seq<Entry>, at: nat, oid: nat, r: Record) returns (e: Entry)
    requires AllStorable(es) && Newest(EncodedAll(es), at, oid, r)
    ensures NewestEntry(es, at, oid, e) && XidOf(r) == e.xid && PaddrOf(r) == e.paddr
  {
    var rs := EncodedAll(es);
    var i :| 0 <= i < |rs| && rs[i] == r;
    e := es[i];
    EntryReads(e);
    forall x | x in es && x.oid == oid && x.xid <= at ensures x.xid <= e.xid {
      var j :| 0 <= j < |es| && es[j] == x;
      EntryReads(x);
      assert rs[j] in rs;
    }
  }

  /** The index of a map whose tree holds these mappings gives every object the
      address of its newest mapping at or before the transaction, and no other
      object any. */
  lemma IndexResolves(fetch: Fetch, root: Node, budget: nat, at: nat, es: seq<Entry>, oid: nat)
    requires Fresh({}, Pointers(fetch, root)) && Size(fetch, root) <= budget
    requires AllStorable(es) && InOrder(fetch, root) == EncodedAll(es)
    ensures Resolves(Addresses(Index(Walk(fetch, Start(root, budget)).visits, at)), es, at, oid)
  {
    var idx, rs := Index(Walk(fetch, Start(root, budget)).visits, at), EncodedAll(es);
    IndexOfTree(fetch, root, budget, at, oid);
    if oid in idx {
      var r :| Newest(rs, at, oid, r) && idx[oid] == Mapping(XidOf(r), PaddrOf(r));
      var e := NewestIsEntry(es, at, oid, r);
    }
    forall e | e in es && e.oid == oid && e.xid <= at ensures oid in idx {
      var i :| 0 <= i < |es| && es[i] == e;
      EntryReads(e);
      assert rs[i] in rs;
      AnyHasANewest(rs, at, oid, rs[i]);
    }
  }

  /** No two mappings have the same object and transaction. */
  ghost predicate OneEach(es: seq<Entry>) {
    forall x, y | x in es && y in es && x.oid == y.oid && x.xid == y.xid :: x == y
  }

  lemma NewestIsUnique(es: seq<Entry>, at: nat, oid: nat, e: Entry, f: Entry)
    requires OneEach(es) && NewestEntry(es, at, oid, e) && NewestEntry(es, at, oid, f)
    ensures e == f
  {
    assert e.xid == f.xid;
  }

  /** When a map holds at most one mapping for an object and transaction, the
      newest mapping at or before the transaction is what the index says. */
  lemma IndexIsTheNewest(fetch: Fetch, root: Node, budget: nat, at: nat, es: seq<Entry>, e: Entry)
    requires Fresh({}, Pointers(fetch, root)) && Size(fetch, root) <= budget
    requires AllStorable(es) && InOrder(fetch, root) == EncodedAll(es) && OneEach(es)
    requires NewestEntry(es, at, e.oid, e)
    ensures e.oid in Addresses(Index(Walk(fetch, Start(root, budget)).visits, at))
    ensures Addresses(Index(Walk(fetch, Start(root, budget)).visits, at))[e.oid] == e.paddr
  {
    var idx := Addresses(Index(Walk(fetch, Start(root, budget)).visits, at));
    IndexResolves(fetch, root, budget, at, es, e.oid);
    var f :| NewestEntry(es, at, e.oid, f) && idx[e.oid] == f.paddr;
    NewestIsUnique(es, at, e.oid, e, f);
  }

  /** Of two mappings with one object and transaction the one visited last counts. */
  lemma LastOfEqualCounts(visits: seq<Record>, r: Record, at: nat)
    requires XidOf(r) <= at && forall q | q in visits && OidOf(q) == OidOf(r) && XidOf(q) <= at :: XidOf(q) <= XidOf(r)
    ensures OidOf(r) in Index(visits + [r], at)
    ensures Index(visits + [r], at)[OidOf(r)] == Mapping(XidOf(r), PaddrOf(r))
  {
    assert (visits + [r])[..|visits|] == visits;
    IndexSays(visits, at, OidOf(r));
  }

  // ------------------------------------------------------------------ shared budget

  function Cap(work: nat): nat { if work < NODE_BUDGET then work else NODE_BUDGET }

  /** The walk that `budgeted_walk` makes when `work` is left. */
  function Capped(fetch: Fetch, root: Node, work: nat): Walker { Walk(fetch, Start(root, Cap(work))) }

  class Container {
    var work: nat
    /** The nodes that any walk has taken off its stack. */
    ghost var visited: seq<Node>

    /** Every node is paid for. */
    ghost predicate Valid()
      reads this
    {
      |visited| + work == TOTAL_WORK_BUDGET
    }

    constructor ()
      ensures Valid() && work == 500_000 && visited == []
    {
      work, visited := TOTAL_WORK_BUDGET, [];
    }

    /** `budgeted_walk`: what is spent is taken off, and nothing is visited when
        nothing is left. */
    method BudgetedWalk(root: Node, fetch: Fetch) returns (visits: seq<Record>)
      requires Valid()
      modifies this
      ensures Valid() && visits == Capped(fetch, root, old(work)).visits
      ensures visited == old(visited) + Capped(fetch, root, old(work)).taken
      ensures work == old(work) - |Capped(fetch, root, old(work)).taken|
      ensures |Capped(fetch, root, old(work)).taken| <= NODE_BUDGET
      ensures visits == Walk(fetch, Start(root, if old(work) < 64_000 then old(work) else 64_000)).visits
    {
      var start := work;
      if start == 0 {
        return [];
      }
      var cap := Cap(start);
      var local;
      ghost var fetched, taken;
      visits, local, fetched, taken := WalkLeaves(root, fetch, cap);
      WalkIsBounded(fetch, root, cap);
      work := start - (cap - local);
      visited := visited + taken;
    }

    /** `omap_index`. `read` reads and parses a block, `fetch` checks it as well;
        `tree` is the map's tree, 0 for none. */
    method OmapIndex(tree: nat, read: Fetch, fetch: Fetch, at: nat) returns (idx: map<nat, nat>)
      requires Valid()
      modifies this
      ensures Valid()
      ensures tree == 0 || read(tree) == None ==> idx == map[] && work == old(work) && visited == old(visited)
      ensures tree != 0 && read(tree).Some? ==>
                idx == Addresses(Index(Capped(fetch, read(tree).value, old(work)).visits, at))
                && visited == old(visited) + Capped(fetch, read(tree).value, old(work)).taken
    {
      if tree == 0 {
        return map[];
      }
      var root := read(tree);
      if root == None {
        return map[];
      }
      var visits := BudgetedWalk(root.value, fetch);
      var found := IndexVisits(visits, at);
      idx := Addresses(found);
    }
  }

  method IndexVisits(visits: seq<Record>, at: nat) returns (found: map<nat, Mapping>)
    ensures found == Index(visits, at)
  {
    found := map[];
    for i := 0 to |visits|
      invariant found == Index(visits[..i], at)
    {
      assert visits[..i + 1][..i] == visits[..i];
      found := Enter(found, visits[i], at);
    }
    assert visits[..|visits|] == visits;
  }

  function Addresses(idx: map<nat, Mapping>): (r: map<nat, nat>)
    ensures r.Keys == idx.Keys && forall oid | oid in idx :: r[oid] == idx[oid].paddr
  {
    map oid | oid in idx :: idx[oid].paddr
  }

  datatype Job = Job(fetch: Fetch, root: Node)

  /** What several walks leave of the budget: each hands back what its cap has
      left over. */
  function Left(jobs: seq<Job>, work: nat): (left: nat)
    ensures left <= work
  {
    if jobs == [] then work
    else
      var j, w := jobs[|jobs| - 1], Left(jobs[..|jobs| - 1], work);
      WalkIsBounded(j.fetch, j.root, Cap(w));
      w - (Cap(w) - Capped(j.fetch, j.root, w).budget)
  }

  /** The nodes they take off their stacks. */
  function Visited(jobs: seq<Job>, work: nat): seq<Node> {
    if jobs == [] then []
    else
      var j, before := jobs[|jobs| - 1], jobs[..|jobs| - 1];
      Visited(before, work) + Capped(j.fetch, j.root, Left(before, work)).taken
  }

  /** However many trees are walked, over whatever graphs, the nodes visited and
      the work left add up to the budget; so no more than the budget is visited,
      nor more than the cap by each walk. */
  lemma {:induction false} BudgetIsConserved(jobs: seq<Job>, work: nat)
    ensures |Visited(jobs, work)| + Left(jobs, work) == work
    ensures |Visited(jobs, work)| <= |jobs| * 64_000
  {
    if jobs != [] {
      var j, before := jobs[|jobs| - 1], jobs[..|jobs| - 1];
      BudgetIsConserved(before, work);
      WalkIsBounded(j.fetch, j.root, Cap(Left(before, work)));
      assert |jobs| * 64_000 == |before| * 64_000 + 64_000;
    }
  }
}
