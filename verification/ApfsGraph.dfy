/** What the walk over the leaves of an APFS B-tree visits on any graph of blocks,
    shared or cyclic (crates/fs-apfs/src/btree.rs:153-204). */
module ApfsGraph {
  import opened Wrappers
  import opened Bytes
  import opened ApfsTree

  /** How the walk came to a node: by a pointer, or not at all, to the root. */
  type Label = Option<nat>

  predicate Names(fetch: Fetch, root: Node, tag: Label, n: Node) {
    match tag
    case None => n == root
    case Some(p) => fetch(p) == Some(n)
  }

  predicate PointsTo(items: seq<Option<Record>>, p: nat) {
    exists i | 0 <= i < |items| :: items[i].Some? && PtrOf(items[i].value) == p
  }

  predicate HasChild(n: Node, p: nat) { !n.IsLeaf() && PointsTo(n.items, p) }

  /** A label that names `n` is `d` steps down from the root, each to a strictly
      lower level. */
  ghost predicate ReachIn(fetch: Fetch, root: Node, tag: Label, n: Node, d: nat)
    decreases d, 0
  {
    Names(fetch, root, tag, n) &&
    if d == 0 then tag.None?
    else tag.Some? && FromAbove(fetch, root, tag.value, n, d - 1)
  }

  ghost predicate FromAbove(fetch: Fetch, root: Node, p: nat, n: Node, d: nat)
    decreases d, 2
  {
    exists above: Label, m: Node :: ReachBy(fetch, root, above, m, p, n, d)
  }

  ghost predicate ReachBy(fetch: Fetch, root: Node, above: Label, m: Node, p: nat, n: Node, d: nat)
    decreases d, 1
  {
    ReachIn(fetch, root, above, m, d) && HasChild(m, p) && n.level < m.level
  }

  ghost predicate Reach(fetch: Fetch, root: Node, tag: Label, n: Node) {
    exists d: nat :: ReachIn(fetch, root, tag, n, d)
  }

  lemma ReachChild(fetch: Fetch, root: Node, above: Label, m: Node, p: nat, n: Node)
    requires Reach(fetch, root, above, m) && HasChild(m, p) && fetch(p) == Some(n) && n.level < m.level
    ensures Reach(fetch, root, Some(p), n)
  {
    var d: nat :| ReachIn(fetch, root, above, m, d);
    assert ReachBy(fetch, root, above, m, p, n, d);
    assert ReachIn(fetch, root, Some(p), n, d + 1);
  }

  predicate Different(labels: seq<Label>) { forall i, j | 0 <= i < j < |labels| :: labels[i] != labels[j] }

  // ------------------------------------------------------------------------ the stack

  /** Labels for some nodes: each names its node, is reachable and, if it is a
      pointer, was seen. */
  ghost predicate Labelled(fetch: Fetch, root: Node, nodes: seq<Node>, seen: set<nat>, labels: seq<Label>) {
    && |labels| == |nodes|
    && (forall i | 0 <= i < |nodes| :: Reach(fetch, root, labels[i], nodes[i]))
    && (forall i | 0 <= i < |nodes| && labels[i].Some? :: labels[i].value in seen)
  }

  /** A node's first items: their pointers are seen, and no others. */
  ghost predicate Shown(items: seq<Option<Record>>, p: Pushed, q: Pushed) {
    && p.seen <= q.seen
    && (forall ptr | PointsTo(items, ptr) :: ptr in q.seen)
    && (forall ptr | ptr in q.seen && ptr !in p.seen :: PointsTo(items, ptr))
  }

  /** A label for a block that was stacked. */
  predicate Stands(fetch: Fetch, level: nat, p: Pushed, q: Pushed, tag: Label, n: Node) {
    tag.Some? && tag.value in q.seen && tag.value !in p.seen && fetch(tag.value) == Some(n) && n.level < level
  }

  /** The pointers that lead to a lower level are stacked with new labels, and no others. */
  ghost predicate Stacked(fetch: Fetch, level: nat, p: Pushed, q: Pushed, more: seq<Label>) {
    && p.nodes <= q.nodes && |more| == |q.nodes| - |p.nodes| && Different(more)
    && (forall ptr | ptr in q.seen && ptr !in p.seen :: Some(ptr) in more <==> ChildAt(fetch, level, ptr).Some?)
    && forall i | 0 <= i < |more| :: Stands(fetch, level, p, q, more[i], q.nodes[|p.nodes| + i])
  }

  lemma PointsToMore(items: seq<Option<Record>>, ptr: nat)
    requires items != []
    ensures PointsTo(items, ptr)
       <==> (PointsTo(items[..|items| - 1], ptr)
             || (items[|items| - 1].Some? && PtrOf(items[|items| - 1].value) == ptr))
  {
    var k := |items| - 1;
    if PointsTo(items[..k], ptr) {
      var i :| 0 <= i < k && items[..k][i].Some? && PtrOf(items[..k][i].value) == ptr;
      assert items[i].Some?;
    }
    if PointsTo(items, ptr) {
      var i :| 0 <= i < |items| && items[i].Some? && PtrOf(items[i].value) == ptr;
      assert i < k ==> items[..k][i].Some?;
    }
  }

  lemma ShownMore(fetch: Fetch, level: nat, items: seq<Option<Record>>, p: Pushed, q: Pushed)
    requires items != [] && Shown(items[..|items| - 1], p, q)
    ensures Shown(items, p, PushOne(fetch, level, items[|items| - 1], q))
  {
    forall x: nat
      ensures PointsTo(items, x)
         <==> (PointsTo(items[..|items| - 1], x)
               || (items[|items| - 1].Some? && PtrOf(items[|items| - 1].value) == x))
    {
      PointsToMore(items, x);
    }
  }

  lemma StackedDeadEnd(fetch: Fetch, level: nat, p: Pushed, q: Pushed, more: seq<Label>, ptr: nat)
    requires Stacked(fetch, level, p, q, more) && ptr !in q.seen && ChildAt(fetch, level, ptr) == None
    ensures Stacked(fetch, level, p, Pushed(q.nodes, q.seen + {ptr}, q.fetched + [ptr]), more)
  {
    assert forall i | 0 <= i < |more| :: more[i] != Some(ptr);
  }

  lemma StackedChild(fetch: Fetch, level: nat, p: Pushed, q: Pushed, more: seq<Label>, ptr: nat, c: Node)
    requires Stacked(fetch, level, p, q, more) && p.seen <= q.seen && ptr !in q.seen
    requires ChildAt(fetch, level, ptr) == Some(c)
    ensures Stacked(fetch, level, p, Pushed(q.nodes + [c], q.seen + {ptr}, q.fetched + [ptr]), more + [Some(ptr)])
  {
    var q', more' := Pushed(q.nodes + [c], q.seen + {ptr}, q.fetched + [ptr]), more + [Some(ptr)];
    forall i | 0 <= i < |more'| ensures Stands(fetch, level, p, q', more'[i], q'.nodes[|p.nodes| + i]) {
      if i < |more| {
        assert Stands(fetch, level, p, q, more[i], q.nodes[|p.nodes| + i]);
      }
    }
    forall i | 0 <= i < |more| ensures more'[i] == more[i] && more[i] != Some(ptr) {
      assert Stands(fetch, level, p, q, more[i], q.nodes[|p.nodes| + i]);
    }
    forall x | x in q'.seen && x !in p.seen ensures Some(x) in more' <==> ChildAt(fetch, level, x).Some? {
      assert x != ptr ==> (Some(x) in more' <==> Some(x) in more);
      assert more'[|more|] == Some(ptr);
    }
  }

  lemma {:induction false} PushStacks(fetch: Fetch, level: nat, items: seq<Option<Record>>, p: Pushed)
    returns (more: seq<Label>)
    ensures Shown(items, p, Push(fetch, level, items, p))
    ensures Stacked(fetch, level, p, Push(fetch, level, items, p), more)
    decreases |items|
  {
    if items == [] {
      more := [];
    } else {
      var k := |items| - 1;
      more := PushStacks(fetch, level, items[..k], p);
      var q := Push(fetch, level, items[..k], p);
      ShownMore(fetch, level, items, p, q);
      if items[k].Some? && PtrOf(items[k].value) !in q.seen {
        var ptr := PtrOf(items[k].value);
        match ChildAt(fetch, level, ptr)
        case None =>
          StackedDeadEnd(fetch, level, p, q, more, ptr);
          assert q.nodes + [] == q.nodes;
        case Some(c) =>
          StackedChild(fetch, level, p, q, more, ptr, c);
          more := more + [Some(ptr)];
      }
    }
  }

  // ---------------------------------------------------------------------- the whole walk

  /** The records of the leaves among some nodes, node after node. */
  function LeafRecords(nodes: seq<Node>): seq<Record> {
    if nodes == [] then []
    else if nodes[|nodes| - 1].IsLeaf()
    then LeafRecords(nodes[..|nodes| - 1]) + Records(nodes[|nodes| - 1].items)
    else LeafRecords(nodes[..|nodes| - 1])
  }

  /** Whoever saw a pointer first decided whether it was followed. */
  ghost predicate Decided(fetch: Fetch, taken: seq<Node>, labels: seq<Label>, ptr: nat) {
    exists i | 0 <= i < |taken| ::
      HasChild(taken[i], ptr) && (Some(ptr) in labels <==> ChildAt(fetch, taken[i].level, ptr).Some?)
  }

  /** Labels for what the walk has taken and for what is on its stack. */
  ghost predicate Tracked(fetch: Fetch, root: Node, w: Walker, took: seq<Label>, held: seq<Label>) {
    && Labelled(fetch, root, w.taken, w.seen, took) && Labelled(fetch, root, w.stack, w.seen, held)
    && Different(took + held) && None in took + held
    && w.visits == LeafRecords(w.taken)
    && SeenBy(fetch, w.taken, w.seen, took + held)
  }

  /** Seen are all pointers of the nodes taken, and no others. */
  ghost predicate SeenBy(fetch: Fetch, taken: seq<Node>, seen: set<nat>, labels: seq<Label>) {
    && (forall i, ptr | 0 <= i < |taken| && HasChild(taken[i], ptr) :: ptr in seen)
    && (forall ptr | ptr in seen :: Decided(fetch, taken, labels, ptr))
  }

  lemma TakeVisits(taken: seq<Node>, n: Node)
    ensures LeafRecords(taken + [n])
         == if n.IsLeaf() then LeafRecords(taken) + Records(n.items) else LeafRecords(taken)
  {
    assert (taken + [n])[..|taken|] == taken;
  }

  lemma StillDecided(fetch: Fetch, taken: seq<Node>, labels: seq<Label>, n: Node, labels': seq<Label>, ptr: nat)
    requires Decided(fetch, taken, labels, ptr) && (Some(ptr) in labels <==> Some(ptr) in labels')
    ensures Decided(fetch, taken + [n], labels', ptr)
  {
    var i :| 0 <= i < |taken|
             && HasChild(taken[i], ptr) && (Some(ptr) in labels <==> ChildAt(fetch, taken[i].level, ptr).Some?);
    assert (taken + [n])[i] == taken[i];
  }

  lemma NewlyDecided(fetch: Fetch, taken: seq<Node>, n: Node, labels': seq<Label>, ptr: nat)
    requires HasChild(n, ptr) && (Some(ptr) in labels' <==> ChildAt(fetch, n.level, ptr).Some?)
    ensures Decided(fetch, taken + [n], labels', ptr)
  {
    assert (taken + [n])[|taken|] == n;
  }

  /** The last label is taken over, and new ones come in its place. */
  lemma Relabel(took: seq<Label>, held: seq<Label>, more: seq<Label>, seen: set<nat>)
    requires held != [] && Different(took + held) && Different(more)
    requires forall x | x in took + held && x.Some? :: x.value in seen
    requires forall x | x in more :: x.Some? && x.value !in seen
    ensures Different(took + [held[|held| - 1]] + (held[..|held| - 1] + more))
    ensures forall x :: x in took + [held[|held| - 1]] + (held[..|held| - 1] + more) <==> x in took + held || x in more
  {
    var k := |held| - 1;
    var was, all := took + held, took + [held[k]] + (held[..k] + more);
    assert held == held[..k] + [held[k]];
    forall i, j | 0 <= i < j < |all| ensures all[i] != all[j] {
      if j < |was| {
        assert all[i] == was[OldPlace(|took|, |was|, i)] && all[j] == was[OldPlace(|took|, |was|, j)];
      } else if i < |was| {
        assert all[i] == was[OldPlace(|took|, |was|, i)] && all[i] in was;
        assert all[j] == more[j - |was|] && all[j] in more;
      } else {
        assert all[i] == more[i - |was|] && all[j] == more[j - |was|];
      }
    }
  }

  /** The last of `n` comes to place `t`, those from there on move up. */
  function OldPlace(t: nat, n: nat, i: nat): (j: nat)
    requires t < n && i < n
    ensures j < n
  {
    if i < t then i else if i == t then n - 1 else i - 1
  }

  lemma RelabelLast(took: seq<Label>, held: seq<Label>, took': seq<Label>, held': seq<Label>)
    requires held != [] && Different(took + held)
    requires took' == took + [held[|held| - 1]] && held' == held[..|held| - 1]
    ensures Different(took' + held') && forall x :: x in took' + held' <==> x in took + held
  {
    var was, all := took + held, took' + held';
    assert held == held' + [held[|held| - 1]];
    forall i, j | 0 <= i < j < |all| ensures all[i] != all[j] {
      assert all[i] == was[OldPlace(|took|, |was|, i)] && all[j] == was[OldPlace(|took|, |was|, j)];
    }
  }

  lemma LabelledMore(fetch: Fetch, root: Node, above: Label, n: Node, p: Pushed, q: Pushed, held: seq<Label>,
                     more: seq<Label>)
    requires Labelled(fetch, root, p.nodes, p.seen, held) && Reach(fetch, root, above, n) && !n.IsLeaf()
    requires Shown(n.items, p, q) && Stacked(fetch, n.level, p, q, more)
    ensures Labelled(fetch, root, q.nodes, q.seen, held + more)
  {
    forall i | 0 <= i < |q.nodes| ensures Reach(fetch, root, (held + more)[i], q.nodes[i]) {
      if i >= |p.nodes| {
        var j := i - |p.nodes|;
        assert Stands(fetch, n.level, p, q, more[j], q.nodes[|p.nodes| + j]);
        assert PointsTo(n.items, more[j].value);
        ReachChild(fetch, root, above, n, more[j].value, q.nodes[i]);
      }
    }
  }

  lemma LabelledFirst(fetch: Fetch, root: Node, nodes: seq<Node>, seen: set<nat>, labels: seq<Label>, k: nat)
    requires Labelled(fetch, root, nodes, seen, labels) && k <= |nodes|
    ensures Labelled(fetch, root, nodes[..k], seen, labels[..k])
  {
  }

  lemma LabelledGrows(fetch: Fetch, root: Node, nodes: seq<Node>, seen: set<nat>, seen': set<nat>,
                      labels: seq<Label>, n: Node, x: Label)
    requires Labelled(fetch, root, nodes, seen, labels) && seen <= seen' && Reach(fetch, root, x, n)
    requires x.Some? ==> x.value in seen
    ensures Labelled(fetch, root, nodes + [n], seen', labels + [x])
  {
  }

  lemma SeenLabels(fetch: Fetch, root: Node, w: Walker, took: seq<Label>, held: seq<Label>)
    requires Tracked(fetch, root, w, took, held)
    ensures forall x | x in took + held && x.Some? :: x.value in w.seen
  {
  }

  lemma LeafShowsNothing(fetch: Fetch, taken: seq<Node>, seen: set<nat>, labels: seq<Label>, n: Node,
                         labels': seq<Label>)
    requires SeenBy(fetch, taken, seen, labels) && n.IsLeaf()
    requires forall x :: x in labels' <==> x in labels
    ensures SeenBy(fetch, taken + [n], seen, labels')
  {
    forall ptr | ptr in seen ensures Decided(fetch, taken + [n], labels', ptr) {
      StillDecided(fetch, taken, labels, n, labels', ptr);
    }
  }

  /** A leaf is taken. */
  lemma LeafTracked(fetch: Fetch, root: Node, w: Walker, took: seq<Label>, held: seq<Label>, took': seq<Label>,
                    held': seq<Label>)
    requires Tracked(fetch, root, w, took, held) && w.stack != [] && w.budget > 0 && w.stack[|w.stack| - 1].IsLeaf()
    requires took' == took + [held[|held| - 1]] && held' == held[..|held| - 1]
    ensures Tracked(fetch, root, Next(fetch, w), took', held')
  {
    var k := |held| - 1;
    var n := w.stack[k];
    RelabelLast(took, held, took', held');
    LabelledFirst(fetch, root, w.stack, w.seen, held, k);
    LabelledGrows(fetch, root, w.taken, w.seen, w.seen, took, n, held[k]);
    LeafShowsNothing(fetch, w.taken, w.seen, took + held, n, took' + held');
    TakeVisits(w.taken, n);
  }

  /** An internal node is taken, and children are stacked. */
  lemma InternalTracked(fetch: Fetch, root: Node, w: Walker, took: seq<Label>, held: seq<Label>, more: seq<Label>)
    requires Tracked(fetch, root, w, took, held) && w.stack != [] && w.budget > 0 && !w.stack[|w.stack| - 1].IsLeaf()
    requires var n, p := w.stack[|w.stack| - 1], Pushed(w.stack[..|w.stack| - 1], w.seen, w.fetched);
             && Shown(n.items, p, Push(fetch, n.level, n.items, p))
             && Stacked(fetch, n.level, p, Push(fetch, n.level, n.items, p), more)
    ensures Tracked(fetch, root, Next(fetch, w), took + [held[|held| - 1]], held[..|held| - 1] + more)
  {
    var k := |held| - 1;
    var n, p := w.stack[k], Pushed(w.stack[..k], w.seen, w.fetched);
    var q := Push(fetch, n.level, n.items, p);
    SeenLabels(fetch, root, w, took, held);
    Relabel(took, held, more, w.seen);
    LabelledMore(fetch, root, held[k], n, p, q, held[..k], more);
    LabelledGrows(fetch, root, w.taken, w.seen, q.seen, took, n, held[k]);
    TakeVisits(w.taken, n);
    var labels := took + [held[k]] + (held[..k] + more);
    forall ptr | ptr in q.seen ensures Decided(fetch, w.taken + [n], labels, ptr) {
      if ptr in w.seen {
        StillDecided(fetch, w.taken, took + held, n, labels, ptr);
      } else {
        NewlyDecided(fetch, w.taken, n, labels, ptr);
      }
    }
  }

  lemma {:induction false} WalkTracked(fetch: Fetch, root: Node, w: Walker, took: seq<Label>, held: seq<Label>)
    returns (took': seq<Label>, held': seq<Label>)
    requires Tracked(fetch, root, w, took, held)
    ensures Tracked(fetch, root, Walk(fetch, w), took', held')
    decreases w.budget
  {
    took', held' := took, held;
    if w.stack != [] && w.budget > 0 {
      var n := w.stack[|w.stack| - 1];
      if n.IsLeaf() {
        took', held' := took + [held[|held| - 1]], held[..|held| - 1];
        LeafTracked(fetch, root, w, took, held, took', held');
        took', held' := WalkTracked(fetch, root, Next(fetch, w), took', held');
      } else {
        var more := PushStacks(fetch, n.level, n.items, Pushed(w.stack[..|w.stack| - 1], w.seen, w.fetched));
        InternalTracked(fetch, root, w, took, held, more);
        took', held' := WalkTracked(fetch, root, Next(fetch, w), took + [held[|held| - 1]], held[..|held| - 1] + more);
      }
    }
  }

  lemma StartTracked(fetch: Fetch, root: Node, budget: nat)
    ensures Tracked(fetch, root, Start(root, budget), [], [None])
  {
    assert ReachIn(fetch, root, None, root, 0);
    var held: seq<Label> := [None];
    assert [] + held == held;
  }

  // ------------------------------------------------------------------------- what is visited

  /** On any graph: the walk visits the records of reachable leaves, and no node
      twice by the same pointer. */
  lemma VisitsAreReachable(fetch: Fetch, root: Node, budget: nat) returns (took: seq<Label>)
    ensures var w := Walk(fetch, Start(root, budget));
            && |took| == |w.taken| && Different(took)
            && (forall i | 0 <= i < |took| :: Reach(fetch, root, took[i], w.taken[i]))
            && w.visits == LeafRecords(w.taken)
  {
    StartTracked(fetch, root, budget);
    var held;
    took, held := WalkTracked(fetch, root, Start(root, budget), [], [None]);
    assert forall i | 0 <= i < |took| :: (took + held)[i] == took[i];
  }

  /** No pointer is met both from a node above its block and from one that is not. */
  ghost predicate Agreeing(fetch: Fetch, root: Node) {
    forall a: Label, m: Node, b: Label, n: Node, p: nat |
      Reach(fetch, root, a, m) && Reach(fetch, root, b, n) && HasChild(m, p) && HasChild(n, p) ::
      ChildAt(fetch, m.level, p).Some? <==> ChildAt(fetch, n.level, p).Some?
  }

  lemma {:induction false} TakenIfReached(fetch: Fetch, root: Node, w: Walker, took: seq<Label>, tag: Label, n: Node,
                                          d: nat)
    requires Agreeing(fetch, root) && Tracked(fetch, root, w, took, [])
    requires ReachIn(fetch, root, tag, n, d)
    ensures tag in took
    decreases d
  {
    if d > 0 {
      var above: Label, m: Node :| ReachBy(fetch, root, above, m, tag.value, n, d - 1);
      TakenIfReached(fetch, root, w, took, above, m, d - 1);
      var i :| 0 <= i < |took| && took[i] == above;
      assert w.taken[i] == m by {
        assert Reach(fetch, root, took[i], w.taken[i]);
      }
      assert took + [] == took && Decided(fetch, w.taken, took + [], tag.value);
      var j :| 0 <= j < |w.taken| && HasChild(w.taken[j], tag.value)
               && (Some(tag.value) in took <==> ChildAt(fetch, w.taken[j].level, tag.value).Some?);
      assert Reach(fetch, root, took[j], w.taken[j]) && Reach(fetch, root, above, m);
      assert ChildAt(fetch, m.level, tag.value).Some?;
    }
  }

  lemma {:induction false} DifferentAreFew(ptrs: seq<nat>, all: set<nat>)
    requires NoDuplicates(ptrs) && forall p | p in ptrs :: p in all
    ensures |ptrs| <= |all|
    decreases |ptrs|
  {
    if ptrs != [] {
      var k := |ptrs| - 1;
      forall p | p in ptrs[..k] ensures p in all - {ptrs[k]} {
      }
      DifferentAreFew(ptrs[..k], all - {ptrs[k]});
    }
  }

  /** `all` has every pointer of every node that can be reached. */
  ghost predicate HoldsPointers(fetch: Fetch, root: Node, all: set<nat>) {
    forall tag: Label, n: Node, p: nat | Reach(fetch, root, tag, n) && HasChild(n, p) :: p in all
  }

  /** A budget above the number of pointers lasts. */
  lemma BudgetLasts(fetch: Fetch, root: Node, budget: nat, all: set<nat>, took: seq<Label>, held: seq<Label>)
    requires Tracked(fetch, root, Walk(fetch, Start(root, budget)), took, held)
    requires HoldsPointers(fetch, root, all) && budget > |all|
    ensures Walk(fetch, Start(root, budget)).stack == []
  {
    var w := Walk(fetch, Start(root, budget));
    WalkKeepsSane(fetch, root, Start(root, budget));
    TakenWereFetched(fetch, Start(root, budget));
    TakenIsSpent(fetch, Start(root, budget));
    forall p | p in w.fetched ensures p in all {
      assert Decided(fetch, w.taken, took + held, p);
      var i :| 0 <= i < |w.taken|
               && HasChild(w.taken[i], p) && (Some(p) in took + held <==> ChildAt(fetch, w.taken[i].level, p).Some?);
      assert Reach(fetch, root, took[i], w.taken[i]);
    }
    DifferentAreFew(w.fetched, all);
  }

  /** If moreover each pointer is met only from above its block, or never, and the
      budget exceeds the number of pointers, every reachable node is taken exactly
      once: the visits are the records of all reachable leaves, shared ones once. */
  lemma EveryReachableIsVisited(fetch: Fetch, root: Node, budget: nat, all: set<nat>) returns (took: seq<Label>)
    requires Agreeing(fetch, root) && HoldsPointers(fetch, root, all) && budget > |all|
    ensures var w := Walk(fetch, Start(root, budget));
            && |took| == |w.taken| && Different(took) && w.visits == LeafRecords(w.taken)
            && (forall i | 0 <= i < |took| :: Reach(fetch, root, took[i], w.taken[i]))
            && (forall tag: Label, n: Node | Reach(fetch, root, tag, n) :: tag in took)
  {
    var w := Walk(fetch, Start(root, budget));
    StartTracked(fetch, root, budget);
    var held;
    took, held := WalkTracked(fetch, root, Start(root, budget), [], [None]);
    BudgetLasts(fetch, root, budget, all, took, held);
    assert held == [] && took + [] == took;
    forall tag: Label, n: Node | Reach(fetch, root, tag, n) ensures tag in took {
      var d: nat :| ReachIn(fetch, root, tag, n, d);
      TakenIfReached(fetch, root, w, took, tag, n, d);
    }
  }

  // ------------------------------------------------------------------- met too low first

  function Pointer(p: nat): Option<Record>
    requires p < 256
  {
    Some(Record([], [p, 0, 0, 0, 0, 0, 0, 0]))
  }

  const SHARED: Node := Node(true, 1, [Pointer(9)])
  const RIGHT: Node := Node(false, 2, [Pointer(7)])
  const LOW: Node := Node(false, 1, [Pointer(7)])
  const ROOT: Node := Node(false, 3, [Pointer(1), Pointer(2)])

  /** Two children share block 7, which is a leaf below the first and not below
      the second. */
  function SharedBlocks(p: nat): Option<Node> {
    if p == 1 then Some(RIGHT) else if p == 2 then Some(LOW) else if p == 7 then Some(SHARED) else None
  }

  lemma PushOnly(fetch: Fetch, level: nat, a: Option<Record>, p: Pushed)
    ensures Push(fetch, level, [a], p) == PushOne(fetch, level, a, p)
  {
    assert [a][..0] == [];
  }

  lemma PushTwo(fetch: Fetch, level: nat, a: Option<Record>, b: Option<Record>, p: Pushed)
    ensures Push(fetch, level, [a, b], p) == PushOne(fetch, level, b, PushOne(fetch, level, a, p))
  {
    assert [a, b][..1] == [a];
    PushOnly(fetch, level, a, p);
  }

  lemma TakeRoot()
    ensures Next(SharedBlocks, Start(ROOT, 10)) == Walker([RIGHT, LOW], {1, 2}, [1, 2], [ROOT], [], 9)
  {
    PushTwo(SharedBlocks, 3, Pointer(1), Pointer(2), Pushed([], {}, []));
    assert PushOne(SharedBlocks, 3, Pointer(1), Pushed([], {}, [])) == Pushed([RIGHT], {1}, [1]);
  }

  lemma TakeLow()
    ensures Next(SharedBlocks, Walker([RIGHT, LOW], {1, 2}, [1, 2], [ROOT], [], 9))
         == Walker([RIGHT], {1, 2, 7}, [1, 2, 7], [ROOT, LOW], [], 8)
  {
    assert [RIGHT, LOW][..1] == [RIGHT];
    PushOnly(SharedBlocks, 1, Pointer(7), Pushed([RIGHT], {1, 2}, [1, 2]));
    assert ChildAt(SharedBlocks, 1, 7) == None && [RIGHT] + [] == [RIGHT];
    assert [1, 2] + [7] == [1, 2, 7] && {1, 2} + {7} == {1, 2, 7} && [ROOT] + [LOW] == [ROOT, LOW];
  }

  lemma TakeRight()
    ensures Next(SharedBlocks, Walker([RIGHT], {1, 2, 7}, [1, 2, 7], [ROOT, LOW], [], 8))
         == Walker([], {1, 2, 7}, [1, 2, 7], [ROOT, LOW, RIGHT], [], 7)
  {
    PushOnly(SharedBlocks, 2, Pointer(7), Pushed([], {1, 2, 7}, [1, 2, 7]));
  }

  /** The last child is taken first and sees the shared pointer, too low to follow
      it; from the first child, where it belongs, it is no longer followed. */
  lemma MetTooLowIsMissed()
    ensures Reach(SharedBlocks, ROOT, Some(7), SHARED)
    ensures Walk(SharedBlocks, Start(ROOT, 10)).stack == [] && Walk(SharedBlocks, Start(ROOT, 10)).visits == []
  {
    SharedIsReachable();
    TakeRoot();
    TakeLow();
    TakeRight();
    WalkStep(SharedBlocks, Start(ROOT, 10));
    WalkStep(SharedBlocks, Next(SharedBlocks, Start(ROOT, 10)));
    WalkStep(SharedBlocks, Walker([RIGHT], {1, 2, 7}, [1, 2, 7], [ROOT, LOW], [], 8));
  }

  lemma WalkStep(fetch: Fetch, w: Walker)
    requires w.stack != [] && w.budget > 0
    ensures Walk(fetch, w) == Walk(fetch, Next(fetch, w))
  {
  }

  lemma SharedIsReachable()
    ensures Reach(SharedBlocks, ROOT, Some(7), SHARED)
  {
    assert ReachIn(SharedBlocks, ROOT, None, ROOT, 0);
    assert ROOT.items[0].Some? && PtrOf(ROOT.items[0].value) == 1 && HasChild(ROOT, 1);
    ReachChild(SharedBlocks, ROOT, None, ROOT, 1, RIGHT);
    assert RIGHT.items[0].Some? && PtrOf(RIGHT.items[0].value) == 7 && HasChild(RIGHT, 7);
    ReachChild(SharedBlocks, ROOT, Some(1), RIGHT, 7, SHARED);
  }
}
