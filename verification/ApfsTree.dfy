/** Walking the leaves of an APFS B-tree: what a walk over any graph of blocks
    keeps, and what it visits when the graph is a tree
    (crates/fs-apfs/src/btree.rs:72-75, 153-204). */
module ApfsTree {
  import opened Bytes
  import opened Wrappers

  datatype Record = Record(key: seq<Byte>, val: seq<Byte>)

  /** A parsed node. `items[i]` is what `record(i)` gives, for as many keys as
      the header and the table of contents allow. */
  datatype Node = Node(leafFlag: bool, level: nat, items: seq<Option<Record>>)
  {
    predicate IsLeaf() { leafFlag || level == 0 }
  }

  /** `fetch`, then `Node::parse`. */
  type Fetch = nat -> Option<Node>

  function PtrOf(r: Record): nat { LeU64(r.val, 0) }

  /** An internal node's record holds the child's address in eight bytes. */
  lemma PointerReads(r: Record, ptr: nat)
    requires ptr < 0x1_0000_0000_0000_0000 && r.val == ToLe64(ptr)
    ensures PtrOf(r) == ptr
  {
    Reads64(r.val, 0, ptr);
  }

  /** A node of level 0 is a leaf, and so is one that is marked as one; no other is. */
  lemma LeafIff(n: Node)
    ensures n.IsLeaf() <==> n.leafFlag || n.level == 0
  {
  }

  /** The records that are inside their block. */
  function Records(items: seq<Option<Record>>): seq<Record> {
    if items == [] then []
    else if items[|items| - 1].Some? then Records(items[..|items| - 1]) + [items[|items| - 1].value]
    else Records(items[..|items| - 1])
  }

  /** They are the records of any two parts, one after the other, and of a single
      item what it holds. */
  lemma {:induction false} RecordsInOrder(a: seq<Option<Record>>, b: seq<Option<Record>>)
    ensures Records(a + b) == Records(a) + Records(b)
    ensures |b| == 1 ==> Records(b) == if b[0].Some? then [b[0].value] else []
    decreases |b|
  {
    if b == [] {
      assert a + b == a;
    } else {
      var rest := b[..|b| - 1];
      assert (a + b)[..|a + b| - 1] == a + rest;
      RecordsInOrder(a, rest);
    }
  }

  // --------------------------------------------------------------------- the walk

  /** `taken` are the nodes taken off the stack so far. */
  datatype Walker = Walker(stack: seq<Node>, seen: set<nat>, fetched: seq<nat>, taken: seq<Node>,
                           visits: seq<Record>, budget: nat)

  datatype Pushed = Pushed(nodes: seq<Node>, seen: set<nat>, fetched: seq<nat>)

  /** A child is followed only to a strictly lower level. */
  function ChildAt(fetch: Fetch, level: nat, ptr: nat): Option<Node> {
    match fetch(ptr)
    case None => None
    case Some(child) => if child.level < level then Some(child) else None
  }

  function PushOne(fetch: Fetch, level: nat, item: Option<Record>, p: Pushed): Pushed {
    if item == None || PtrOf(item.value) in p.seen then p
    else
      var ptr := PtrOf(item.value);
      Pushed(p.nodes + (match ChildAt(fetch, level, ptr) case None => [] case Some(c) => [c]),
             p.seen + {ptr}, p.fetched + [ptr])
  }

  /** What an internal node's pointers add to the stack and to the pointers seen. */
  function Push(fetch: Fetch, level: nat, items: seq<Option<Record>>, p: Pushed): Pushed {
    if items == [] then p
    else PushOne(fetch, level, items[|items| - 1], Push(fetch, level, items[..|items| - 1], p))
  }

  /** One node is taken off the stack. */
  function Next(fetch: Fetch, w: Walker): Walker
    requires w.stack != [] && w.budget > 0
  {
    var node, rest := w.stack[|w.stack| - 1], w.stack[..|w.stack| - 1];
    if node.IsLeaf() then
      Walker(rest, w.seen, w.fetched, w.taken + [node], w.visits + Records(node.items), w.budget - 1)
    else
      var p := Push(fetch, node.level, node.items, Pushed(rest, w.seen, w.fetched));
      Walker(p.nodes, p.seen, p.fetched, w.taken + [node], w.visits, w.budget - 1)
  }

  function Walk(fetch: Fetch, w: Walker): Walker
    decreases w.budget
  {
    if w.stack == [] || w.budget == 0 then w else Walk(fetch, Next(fetch, w))
  }

  function Start(root: Node, budget: nat): Walker { Walker([root], {}, [], [], [], budget) }

  /** `walk_leaves`: the visits, and what is left of the budget. */
  method WalkLeaves(root: Node, fetch: Fetch, budget: nat)
    returns (visits: seq<Record>, left: nat, ghost fetched: seq<nat>, ghost taken: seq<Node>)
    ensures visits == Walk(fetch, Start(root, budget)).visits
    ensures left == Walk(fetch, Start(root, budget)).budget
    ensures fetched == Walk(fetch, Start(root, budget)).fetched && taken == Walk(fetch, Start(root, budget)).taken
  {
    var stack, seen: set<nat> := [root], {};
    fetched, taken, visits, left := [], [], [], budget;
    while stack != []
      invariant Walk(fetch, Walker(stack, seen, fetched, taken, visits, left)) == Walk(fetch, Start(root, budget))
      decreases left, |stack|
    {
      if left == 0 {
        return;
      }
      ghost var w := Walker(stack, seen, fetched, taken, visits, left);
      var node := stack[|stack| - 1];
      stack := stack[..|stack| - 1];
      left, taken := left - 1, taken + [node];
      if node.IsLeaf() {
        visits := VisitLeaf(node, visits);
      } else {
        stack, seen, fetched := PushChildren(fetch, node, stack, seen, fetched);
      }
      assert Walker(stack, seen, fetched, taken, visits, left) == Next(fetch, w);
    }
  }

  method VisitLeaf(node: Node, before: seq<Record>) returns (visits: seq<Record>)
    ensures visits == before + Records(node.items)
  {
    visits := before;
    for i := 0 to |node.items|
      invariant visits == before + Records(node.items[..i])
    {
      assert node.items[..i + 1][..i] == node.items[..i];
      if node.items[i].Some? {
        visits := visits + [node.items[i].value];
      }
    }
    assert node.items[..|node.items|] == node.items;
  }

  method PushChildren(fetch: Fetch, node: Node, stack0: seq<Node>, seen0: set<nat>, ghost fetched0: seq<nat>)
    returns (stack: seq<Node>, seen: set<nat>, ghost fetched: seq<nat>)
    ensures Pushed(stack, seen, fetched) == Push(fetch, node.level, node.items, Pushed(stack0, seen0, fetched0))
  {
    stack, seen, fetched := stack0, seen0, fetched0;
    for i := 0 to |node.items|
      invariant Pushed(stack, seen, fetched)
             == Push(fetch, node.level, node.items[..i], Pushed(stack0, seen0, fetched0))
    {
      assert node.items[..i + 1][..i] == node.items[..i];
      if node.items[i] == None {
        continue;
      }
      var ptr := PtrOf(node.items[i].value);
      if ptr in seen {
        continue;
      }
      seen := seen + {ptr};
      fetched := fetched + [ptr];
      var child := fetch(ptr);
      if child.Some? && child.value.level < node.level {
        stack := stack + [child.value];
      }
    }
    assert node.items[..|node.items|] == node.items;
  }

  // --------------------------------------------------------------------- any graph

  predicate NoDuplicates(s: seq<nat>) { forall i, j | 0 <= i < j < |s| :: s[i] != s[j] }

  /** No pointer is fetched twice, and only nodes below the root's level are stacked. */
  ghost predicate Sane(root: Node, stack: seq<Node>, seen: set<nat>, fetched: seq<nat>) {
    && NoDuplicates(fetched) && (forall p :: p in seen <==> p in fetched)
    && forall i | 0 <= i < |stack| :: stack[i] == root || stack[i].level < root.level
  }

  lemma {:induction false} PushKeepsSane(fetch: Fetch, root: Node, level: nat, items: seq<Option<Record>>, p: Pushed)
    requires Sane(root, p.nodes, p.seen, p.fetched) && level <= root.level
    ensures var q := Push(fetch, level, items, p);
            Sane(root, q.nodes, q.seen, q.fetched) && p.nodes <= q.nodes
            && forall i | |p.nodes| <= i < |q.nodes| :: q.nodes[i].level < level
  {
    if items != [] {
      PushKeepsSane(fetch, root, level, items[..|items| - 1], p);
    }
  }

  lemma NextKeepsSane(fetch: Fetch, root: Node, w: Walker)
    requires w.stack != [] && w.budget > 0 && Sane(root, w.stack, w.seen, w.fetched)
    ensures var x := Next(fetch, w); Sane(root, x.stack, x.seen, x.fetched)
  {
    var node, rest := w.stack[|w.stack| - 1], w.stack[..|w.stack| - 1];
    if !node.IsLeaf() {
      PushKeepsSane(fetch, root, node.level, node.items, Pushed(rest, w.seen, w.fetched));
    }
  }

  lemma {:induction false} WalkKeepsSane(fetch: Fetch, root: Node, w: Walker)
    requires Sane(root, w.stack, w.seen, w.fetched)
    ensures var x := Walk(fetch, w);
            Sane(root, x.stack, x.seen, x.fetched) && x.budget <= w.budget && (x.stack == [] || x.budget == 0)
    decreases w.budget
  {
    if w.stack != [] && w.budget > 0 {
      NextKeepsSane(fetch, root, w);
      WalkKeepsSane(fetch, root, Next(fetch, w));
    }
  }

  /** What is spent of the budget is the nodes taken off the stack, on any graph. */
  lemma {:induction false} TakenIsSpent(fetch: Fetch, w: Walker)
    ensures |Walk(fetch, w).taken| + Walk(fetch, w).budget == |w.taken| + w.budget
    decreases w.budget
  {
    if w.stack != [] && w.budget > 0 {
      TakenIsSpent(fetch, Next(fetch, w));
    }
  }

  lemma {:induction false} PushedWereFetched(fetch: Fetch, level: nat, items: seq<Option<Record>>, p: Pushed)
    ensures |Push(fetch, level, items, p).nodes| + |p.fetched| <= |p.nodes| + |Push(fetch, level, items, p).fetched|
  {
    if items != [] {
      PushedWereFetched(fetch, level, items[..|items| - 1], p);
    }
  }

  /** Every node but the root was stacked for a pointer of its own. */
  lemma {:induction false} TakenWereFetched(fetch: Fetch, w: Walker)
    requires |w.taken| + |w.stack| <= 1 + |w.fetched|
    ensures |Walk(fetch, w).taken| + |Walk(fetch, w).stack| <= 1 + |Walk(fetch, w).fetched|
    decreases w.budget
  {
    if w.stack != [] && w.budget > 0 {
      var node, rest := w.stack[|w.stack| - 1], w.stack[..|w.stack| - 1];
      PushedWereFetched(fetch, node.level, node.items, Pushed(rest, w.seen, w.fetched));
      TakenWereFetched(fetch, Next(fetch, w));
    }
  }

  /** On any graph of blocks, cyclic or shared: a walk fetches no pointer twice,
      takes at most one node for each and the root, spends one unit of its budget
      on each node taken, and stops early only with nothing left of it. */
  lemma WalkIsBounded(fetch: Fetch, root: Node, budget: nat)
    ensures NoDuplicates(Walk(fetch, Start(root, budget)).fetched)
    ensures |Walk(fetch, Start(root, budget)).taken| <= 1 + |Walk(fetch, Start(root, budget)).fetched|
    ensures |Walk(fetch, Start(root, budget)).taken| + Walk(fetch, Start(root, budget)).budget == budget
    ensures Walk(fetch, Start(root, budget)).stack != [] ==> Walk(fetch, Start(root, budget)).budget == 0
  {
    WalkKeepsSane(fetch, root, Start(root, budget));
    TakenIsSpent(fetch, Start(root, budget));
    TakenWereFetched(fetch, Start(root, budget));
  }

  // ------------------------------------------------------------------------- trees

  /** The child of one item, if it has one. */
  function Child(fetch: Fetch, level: nat, item: Option<Record>): Option<Node> {
    if item == None then None else ChildAt(fetch, level, PtrOf(item.value))
  }

  /** The nodes below a node, it included. */
  function Size(fetch: Fetch, n: Node): (k: nat)
    ensures k > 0
    decreases n.level, |n.items| + 1
  {
    1 + if n.IsLeaf() then 0 else SizeBelow(fetch, n.level, n.items)
  }

  function SizeBelow(fetch: Fetch, level: nat, items: seq<Option<Record>>): nat
    decreases level, |items|
  {
    if items == [] then 0
    else
      SizeBelow(fetch, level, items[..|items| - 1])
      + (match Child(fetch, level, items[|items| - 1]) case None => 0 case Some(c) => Size(fetch, c))
  }

  /** The leaf records in key order. */
  function InOrder(fetch: Fetch, n: Node): seq<Record>
    decreases n.level, |n.items| + 1
  {
    if n.IsLeaf() then Records(n.items) else InOrderBelow(fetch, n.level, n.items)
  }

  function InOrderBelow(fetch: Fetch, level: nat, items: seq<Option<Record>>): seq<Record>
    decreases level, |items|
  {
    if items == [] then []
    else
      InOrderBelow(fetch, level, items[..|items| - 1])
      + (match Child(fetch, level, items[|items| - 1]) case None => [] case Some(c) => InOrder(fetch, c))
  }

  /** The same leaves from the last to the first. */
  function Backwards(fetch: Fetch, n: Node): seq<Record>
    decreases n.level, |n.items| + 1
  {
    if n.IsLeaf() then Records(n.items) else BackwardsBelow(fetch, n.level, n.items)
  }

  function BackwardsBelow(fetch: Fetch, level: nat, items: seq<Option<Record>>): seq<Record>
    decreases level, |items|
  {
    if items == [] then []
    else
      (match Child(fetch, level, items[|items| - 1]) case None => [] case Some(c) => Backwards(fetch, c))
      + BackwardsBelow(fetch, level, items[..|items| - 1])
  }

  /** Every pointer below a node, as often as it occurs. */
  function Pointers(fetch: Fetch, n: Node): multiset<nat>
    decreases n.level, |n.items| + 1
  {
    if n.IsLeaf() then multiset{} else PointersBelow(fetch, n.level, n.items)
  }

  function PointersBelow(fetch: Fetch, level: nat, items: seq<Option<Record>>): multiset<nat>
    decreases level, |items|
  {
    if items == [] then multiset{}
    else
      var item := items[|items| - 1];
      PointersBelow(fetch, level, items[..|items| - 1])
      + (if item == None then multiset{} else multiset{PtrOf(item.value)})
      + (match Child(fetch, level, item) case None => multiset{} case Some(c) => Pointers(fetch, c))
  }

  lemma {:induction false} BackwardsIsInOrder(fetch: Fetch, n: Node)
    ensures multiset(Backwards(fetch, n)) == multiset(InOrder(fetch, n))
    decreases n.level, |n.items| + 1
  {
    if !n.IsLeaf() {
      BackwardsBelowIsInOrder(fetch, n.level, n.items);
    }
  }

  lemma {:induction false} BackwardsBelowIsInOrder(fetch: Fetch, level: nat, items: seq<Option<Record>>)
    ensures multiset(BackwardsBelow(fetch, level, items)) == multiset(InOrderBelow(fetch, level, items))
    decreases level, |items|
  {
    if items != [] {
      BackwardsBelowIsInOrder(fetch, level, items[..|items| - 1]);
      match Child(fetch, level, items[|items| - 1])
      case None =>
      case Some(c) => BackwardsIsInOrder(fetch, c);
    }
  }

  // ------------------------------------------------------------ a stack of subtrees

  function StackSize(fetch: Fetch, stack: seq<Node>): nat {
    if stack == [] then 0 else StackSize(fetch, stack[..|stack| - 1]) + Size(fetch, stack[|stack| - 1])
  }

  function StackVisits(fetch: Fetch, stack: seq<Node>): seq<Record> {
    if stack == [] then [] else Backwards(fetch, stack[|stack| - 1]) + StackVisits(fetch, stack[..|stack| - 1])
  }

  function StackPointers(fetch: Fetch, stack: seq<Node>): multiset<nat> {
    if stack == [] then multiset{}
    else StackPointers(fetch, stack[..|stack| - 1]) + Pointers(fetch, stack[|stack| - 1])
  }

  /** No pointer occurs twice, nor one that was seen before. */
  ghost predicate Fresh(seen: set<nat>, ptrs: multiset<nat>) {
    forall p {:trigger ptrs[p]} :: ptrs[p] <= 1 && (p in seen ==> ptrs[p] == 0)
  }

  /** What stacking the children of an internal node amounts to. */
  ghost predicate Stacked(fetch: Fetch, level: nat, items: seq<Option<Record>>, p: Pushed, q: Pushed) {
    && StackSize(fetch, q.nodes) == StackSize(fetch, p.nodes) + SizeBelow(fetch, level, items)
    && StackVisits(fetch, q.nodes) == BackwardsBelow(fetch, level, items) + StackVisits(fetch, p.nodes)
    && StackPointers(fetch, q.nodes) + multiset(q.seen - p.seen)
       == StackPointers(fetch, p.nodes) + PointersBelow(fetch, level, items)
    && p.seen <= q.seen
  }

  /** Stacking one more node. */
  lemma StackMore(fetch: Fetch, stack: seq<Node>, c: Node)
    ensures StackSize(fetch, stack + [c]) == StackSize(fetch, stack) + Size(fetch, c)
    ensures StackVisits(fetch, stack + [c]) == Backwards(fetch, c) + StackVisits(fetch, stack)
    ensures StackPointers(fetch, stack + [c]) == StackPointers(fetch, stack) + Pointers(fetch, c)
  {
    assert (stack + [c])[..|stack|] == stack;
  }

  lemma SeenMore(was: set<nat>, seen: set<nat>, ptr: nat)
    requires was <= seen && ptr !in seen
    ensures multiset(seen + {ptr} - was) == multiset(seen - was) + multiset{ptr}
  {
    assert seen + {ptr} - was == (seen - was) + {ptr};
  }

  lemma Shuffle(a: multiset<nat>, b: multiset<nat>, c: multiset<nat>, d: multiset<nat>, x: multiset<nat>,
                y: multiset<nat>)
    requires a + b == c + d
    ensures (a + y) + (b + x) == c + (d + x + y)
  {
    assert (a + y) + (b + x) == (a + b) + x + y;
  }

  lemma PointersMore(fetch: Fetch, level: nat, items: seq<Option<Record>>, p: Pushed, q: Pushed, ptr: nat,
                     y: multiset<nat>)
    requires items != [] && Stacked(fetch, level, items[..|items| - 1], p, q)
    requires items[|items| - 1].Some? && ptr == PtrOf(items[|items| - 1].value) && ptr !in q.seen
    requires y == match ChildAt(fetch, level, ptr) case None => multiset{} case Some(c) => Pointers(fetch, c)
    ensures (StackPointers(fetch, q.nodes) + y) + multiset(q.seen + {ptr} - p.seen)
         == StackPointers(fetch, p.nodes) + PointersBelow(fetch, level, items)
  {
    SeenMore(p.seen, q.seen, ptr);
    Shuffle(StackPointers(fetch, q.nodes), multiset(q.seen - p.seen), StackPointers(fetch, p.nodes),
            PointersBelow(fetch, level, items[..|items| - 1]), multiset{ptr}, y);
  }

  lemma StackedNone(fetch: Fetch, level: nat, items: seq<Option<Record>>, p: Pushed, q: Pushed)
    requires items != [] && Stacked(fetch, level, items[..|items| - 1], p, q) && items[|items| - 1] == None
    ensures Stacked(fetch, level, items, p, q)
  {
    var before := BackwardsBelow(fetch, level, items[..|items| - 1]);
    assert [] + before == before;
  }

  lemma StackedPointer(fetch: Fetch, level: nat, items: seq<Option<Record>>, p: Pushed, q: Pushed, ptr: nat)
    requires items != [] && Stacked(fetch, level, items[..|items| - 1], p, q)
    requires items[|items| - 1].Some? && ptr == PtrOf(items[|items| - 1].value) && ptr !in q.seen
    requires ChildAt(fetch, level, ptr) == None
    ensures Stacked(fetch, level, items, p, Pushed(q.nodes, q.seen + {ptr}, q.fetched + [ptr]))
  {
    PointersMore(fetch, level, items, p, q, ptr, multiset{});
    assert StackPointers(fetch, q.nodes) + multiset{} == StackPointers(fetch, q.nodes);
    var before := BackwardsBelow(fetch, level, items[..|items| - 1]);
    assert [] + before == before;
  }

  lemma StackedChild(fetch: Fetch, level: nat, items: seq<Option<Record>>, p: Pushed, q: Pushed, ptr: nat, c: Node)
    requires items != [] && Stacked(fetch, level, items[..|items| - 1], p, q)
    requires items[|items| - 1].Some? && ptr == PtrOf(items[|items| - 1].value) && ptr !in q.seen
    requires ChildAt(fetch, level, ptr) == Some(c)
    ensures Stacked(fetch, level, items, p, Pushed(q.nodes + [c], q.seen + {ptr}, q.fetched + [ptr]))
  {
    PointersMore(fetch, level, items, p, q, ptr, Pointers(fetch, c));
    StackMore(fetch, q.nodes, c);
    Regroup(Backwards(fetch, c), BackwardsBelow(fetch, level, items[..|items| - 1]), StackVisits(fetch, p.nodes));
  }

  lemma Regroup(a: seq<Record>, b: seq<Record>, c: seq<Record>)
    ensures a + (b + c) == (a + b) + c
  {
  }

  lemma StackedOne(fetch: Fetch, level: nat, items: seq<Option<Record>>, p: Pushed, q: Pushed)
    requires items != [] && Stacked(fetch, level, items[..|items| - 1], p, q)
    requires items[|items| - 1].Some? ==> PtrOf(items[|items| - 1].value) !in q.seen
    ensures Stacked(fetch, level, items, p, PushOne(fetch, level, items[|items| - 1], q))
  {
    if items[|items| - 1] == None {
      StackedNone(fetch, level, items, p, q);
    } else {
      var ptr := PtrOf(items[|items| - 1].value);
      match ChildAt(fetch, level, ptr)
      case None =>
        StackedPointer(fetch, level, items, p, q, ptr);
        assert q.nodes + [] == q.nodes;
      case Some(c) => StackedChild(fetch, level, items, p, q, ptr, c);
    }
  }

  lemma FreshPart(seen: set<nat>, a: multiset<nat>, b: multiset<nat>)
    requires Fresh(seen, b) && a <= b
    ensures Fresh(seen, a)
  {
  }

  lemma PointerIsNew(fetch: Fetch, level: nat, items: seq<Option<Record>>, p: Pushed, q: Pushed)
    requires items != [] && items[|items| - 1].Some?
    requires Fresh(p.seen, StackPointers(fetch, p.nodes) + PointersBelow(fetch, level, items))
    requires Stacked(fetch, level, items[..|items| - 1], p, q)
    ensures PtrOf(items[|items| - 1].value) !in q.seen
  {
    var ptr := PtrOf(items[|items| - 1].value);
    var below, before := PointersBelow(fetch, level, items), PointersBelow(fetch, level, items[..|items| - 1]);
    var under := StackPointers(fetch, p.nodes);
    assert before + multiset{ptr} <= below;
    assert (under + below)[ptr] <= 1 && (ptr in p.seen ==> (under + below)[ptr] == 0);
    assert (under + before)[ptr] == 0;
    assert (StackPointers(fetch, q.nodes) + multiset(q.seen - p.seen))[ptr] == 0;
  }

  lemma {:induction false} PushIsStacked(fetch: Fetch, level: nat, items: seq<Option<Record>>, p: Pushed)
    requires Fresh(p.seen, StackPointers(fetch, p.nodes) + PointersBelow(fetch, level, items))
    ensures Stacked(fetch, level, items, p, Push(fetch, level, items, p))
  {
    if items == [] {
      assert p.seen - p.seen == {};
      assert [] + StackVisits(fetch, p.nodes) == StackVisits(fetch, p.nodes);
    } else {
      var init := items[..|items| - 1];
      FreshPart(p.seen, StackPointers(fetch, p.nodes) + PointersBelow(fetch, level, init),
                StackPointers(fetch, p.nodes) + PointersBelow(fetch, level, items));
      PushIsStacked(fetch, level, init, p);
      if items[|items| - 1].Some? {
        PointerIsNew(fetch, level, items, p, Push(fetch, level, init, p));
      }
      StackedOne(fetch, level, items, p, Push(fetch, level, init, p));
    }
  }

  lemma StillFresh(seen: set<nat>, seen': set<nat>, ptrs: multiset<nat>, ptrs': multiset<nat>)
    requires seen <= seen' && Fresh(seen, ptrs) && ptrs' + multiset(seen' - seen) == ptrs
    ensures Fresh(seen', ptrs')
  {
    forall p ensures ptrs'[p] <= 1 && (p in seen' ==> ptrs'[p] == 0) {
      assert (ptrs' + multiset(seen' - seen))[p] == ptrs[p];
    }
  }

  /** The walker holds subtrees that share no pointer. */
  ghost predicate Separate(fetch: Fetch, w: Walker) { Fresh(w.seen, StackPointers(fetch, w.stack)) }

  /** What is still to be visited, and what it will cost, only moves. */
  lemma NextIsSeparate(fetch: Fetch, w: Walker)
    requires Separate(fetch, w) && w.stack != [] && w.budget > 0
    ensures Separate(fetch, Next(fetch, w))
    ensures Next(fetch, w).visits + StackVisits(fetch, Next(fetch, w).stack)
         == w.visits + StackVisits(fetch, w.stack)
    ensures StackSize(fetch, Next(fetch, w).stack) + 1 == StackSize(fetch, w.stack)
  {
    var node, rest := w.stack[|w.stack| - 1], w.stack[..|w.stack| - 1];
    if !node.IsLeaf() {
      var p := Pushed(rest, w.seen, w.fetched);
      PushIsStacked(fetch, node.level, node.items, p);
      var q := Push(fetch, node.level, node.items, p);
      StillFresh(p.seen, q.seen, StackPointers(fetch, w.stack), StackPointers(fetch, q.nodes));
    } else {
      FreshPart(w.seen, StackPointers(fetch, rest), StackPointers(fetch, w.stack));
    }
  }

  /** With too small a budget a prefix is visited, with enough everything. */
  lemma {:induction false} WalkOfSubtrees(fetch: Fetch, w: Walker)
    requires Separate(fetch, w)
    ensures Walk(fetch, w).visits <= w.visits + StackVisits(fetch, w.stack)
    ensures StackSize(fetch, w.stack) <= w.budget ==>
              Walk(fetch, w).visits == w.visits + StackVisits(fetch, w.stack)
              && Walk(fetch, w).budget == w.budget - StackSize(fetch, w.stack)
    ensures StackSize(fetch, w.stack) >= w.budget ==> Walk(fetch, w).budget == 0
    decreases w.budget
  {
    if w.stack == [] {
      assert w.visits + [] == w.visits;
    } else if w.budget > 0 {
      NextIsSeparate(fetch, w);
      WalkOfSubtrees(fetch, Next(fetch, w));
    }
  }

  lemma OnlyRoot(fetch: Fetch, root: Node)
    ensures StackPointers(fetch, [root]) == Pointers(fetch, root)
    ensures StackVisits(fetch, [root]) == Backwards(fetch, root)
    ensures StackSize(fetch, [root]) == Size(fetch, root)
  {
    assert [root][..0] == [];
  }

  /** A graph in which no pointer occurs twice below the root is walked leaf by
      leaf from the last to the first, each exactly once, when the budget covers
      its nodes; and it costs its nodes and no more. A smaller budget is used up
      on a prefix of that. */
  lemma WalkOfTree(fetch: Fetch, root: Node, budget: nat)
    requires Fresh({}, Pointers(fetch, root))
    ensures Size(fetch, root) <= budget ==>
              Walk(fetch, Start(root, budget)).visits == Backwards(fetch, root)
              && multiset(Walk(fetch, Start(root, budget)).visits) == multiset(InOrder(fetch, root))
              && Walk(fetch, Start(root, budget)).budget == budget - Size(fetch, root)
    ensures Size(fetch, root) > budget ==>
              Walk(fetch, Start(root, budget)).visits <= Backwards(fetch, root)
              && Walk(fetch, Start(root, budget)).budget == 0
  {
    OnlyRoot(fetch, root);
    WalkOfSubtrees(fetch, Start(root, budget));
    BackwardsIsInOrder(fetch, root);
    assert [] + Backwards(fetch, root) == Backwards(fetch, root);
  }
}
