/** What every reachable buddy pool satisfies: tiling, accounting, completeness of
    allocation, and freeing as the inverse of allocating. */
module BuddyTheorems {
  import opened Words
  import opened BuddyTree
  import opened BuddySpec

  // ---------------------------------------------------- traversal and accounting

  /** The leaves below `node` with a given mark, in the order src/debug.c:
      traverse_buddy_nodes visits them; stale marks are never looked at. */
  function Leaves(root: nat, tree: seq<Mark>, node: nat, mark: Mark): seq<nat>
    requires |tree| == NodeCount(root) && node < |tree| && mark != SPLIT
    decreases Order(root, node)
  {
    if tree[node] == mark then [node]
    else if tree[node] == SPLIT && Order(root, node) > 0 then
      ChildOrders(root, node);
      Leaves(root, tree, NodeLeft(node), mark) + Leaves(root, tree, NodeRight(node), mark)
    else []
  }

  function BlockPages(root: nat, node: nat): nat {
    if node < NodeCount(root) then Pow2(Order(root, node)) else 0
  }

  /** Pages in the blocks of a sequence of nodes. */
  function Pages(root: nat, nodes: seq<nat>): nat {
    if nodes == [] then 0 else BlockPages(root, nodes[0]) + Pages(root, nodes[1..])
  }

  ghost predicate Within(root: nat, node: nat, n: nat) {
    && node < NodeCount(root) && n < NodeCount(root)
    && Start(root, node) <= Start(root, n)
    && Start(root, n) + Pow2(Order(root, n)) <= Start(root, node) + Pow2(Order(root, node))
  }

  lemma {:induction false} LeavesAreLive(root: nat, tree: seq<Mark>, node: nat, mark: Mark)
    requires |tree| == NodeCount(root) && node < |tree| && mark != SPLIT && Live(tree, node)
    ensures forall n <- Leaves(root, tree, node, mark) :: LiveAs(tree, n, mark) && Within(root, node, n)
    ensures Distinct(Leaves(root, tree, node, mark))
    decreases Order(root, node)
  {
    if tree[node] == SPLIT && Order(root, node) > 0 {
      ChildOrders(root, node);
      ChildStarts(root, node);
      ParentOfChildren(node);
      var l, r := NodeLeft(node), NodeRight(node);
      LeavesAreLive(root, tree, l, mark);
      LeavesAreLive(root, tree, r, mark);
      var a, b := Leaves(root, tree, l, mark), Leaves(root, tree, r, mark);
      hide Live, Depth, Pow2, Start, Order, Leaves;
      forall i, j | 0 <= i < j < |a + b|
        ensures (a + b)[i] != (a + b)[j]
      {
        if i < |a| <= j {
          assert Within(root, l, a[i]) && Within(root, r, b[j - |a|]);
        }
      }
    }
  }

  /** The traversal from `node` reaches every live leaf inside its block. */
  lemma {:induction false} LeavesComplete(root: nat, tree: seq<Mark>, node: nat, n: nat, mark: Mark)
    requires |tree| == NodeCount(root) && node < |tree| && mark != SPLIT
    requires SplitsHaveChildren(root, tree) && Live(tree, node) && LiveAs(tree, n, mark)
    requires Covers(root, node, Start(root, n)) && Depth(node) <= Depth(n)
    ensures n in Leaves(root, tree, node, mark)
    decreases Order(root, node)
  {
    StartCovered(root, n);
    if Depth(node) == Depth(n) {
      RowUnique(root, node, n, Start(root, n));
    } else {
      AboveIsSplit(root, tree, n, node, Start(root, n));
      assert LiveAs(tree, node, SPLIT);
      ChildOrders(root, node);
      ChildStarts(root, node);
      ParentOfChildren(node);
      if Start(root, n) < Start(root, NodeRight(node)) {
        LeavesComplete(root, tree, NodeLeft(node), n, mark);
      } else {
        LeavesComplete(root, tree, NodeRight(node), n, mark);
      }
    }
  }

  /** Visiting the tree from the root meets each live leaf of a mark exactly once. */
  lemma TraversalExact(p: Pool, mark: Mark)
    requires Inv(p) && mark != SPLIT
    ensures Distinct(Leaves(p.root, p.tree, 0, mark))
    ensures forall n: nat :: n in Leaves(p.root, p.tree, 0, mark) <==> LiveAs(p.tree, n, mark)
  {
    LeavesAreLive(p.root, p.tree, 0, mark);
    forall n: nat | LiveAs(p.tree, n, mark)
      ensures n in Leaves(p.root, p.tree, 0, mark)
    {
      StartInPool(p.root, n);
      LeavesComplete(p.root, p.tree, 0, n, mark);
    }
  }

  lemma {:induction false} PagesAppend(root: nat, a: seq<nat>, b: seq<nat>)
    ensures Pages(root, a + b) == Pages(root, a) + Pages(root, b)
  {
    if a == [] {
      assert a + b == b;
    } else {
      assert (a + b)[1..] == a[1..] + b;
      PagesAppend(root, a[1..], b);
    }
  }

  lemma {:induction false} PagesBelow(root: nat, tree: seq<Mark>, node: nat)
    requires |tree| == NodeCount(root) && node < |tree|
    requires SplitsHaveChildren(root, tree) && Live(tree, node)
    ensures Pages(root, Leaves(root, tree, node, FREE)) + Pages(root, Leaves(root, tree, node, FULL))
            == Pow2(Order(root, node))
    decreases Order(root, node)
  {
    DepthInTree(root, node);
    if tree[node] == SPLIT {
      assert LiveAs(tree, node, SPLIT);
      ChildOrders(root, node);
      ParentOfChildren(node);
      var l, r := NodeLeft(node), NodeRight(node);
      hide Live, Depth, BlockPages, Order;
      PagesBelow(root, tree, l);
      PagesBelow(root, tree, r);
      PagesAppend(root, Leaves(root, tree, l, FREE), Leaves(root, tree, r, FREE));
      PagesAppend(root, Leaves(root, tree, l, FULL), Leaves(root, tree, r, FULL));
    }
  }

  /** Free plus allocated pages always equal the pool: the free lists hold exactly
      the FREE leaves and the outstanding blocks are exactly the FULL ones. */
  lemma PagesConserved(p: Pool)
    requires Inv(p)
    ensures Elems(Leaves(p.root, p.tree, 0, FULL)) == Fulls(p)
    ensures forall n: nat :: n in Leaves(p.root, p.tree, 0, FREE) <==> exists o :: 0 <= o <= p.root && n in p.lists[o]
    ensures Pages(p.root, Leaves(p.root, p.tree, 0, FREE)) + Pages(p.root, Leaves(p.root, p.tree, 0, FULL))
              == Pow2(p.root)
  {
    TraversalExact(p, FREE);
    TraversalExact(p, FULL);
    PagesBelow(p.root, p.tree, 0);
    FreeListsExact(p);
    hide Live, Depth, Pow2, Leaves, Pages, ListsSound, Coalesced;
    forall n: nat | n in Leaves(p.root, p.tree, 0, FREE)
      ensures exists o :: 0 <= o <= p.root && n in p.lists[o]
    {
      assert n in p.lists[Order(p.root, n)];
    }
  }

  // ---------------------------------------------------------- completeness

  predicate Overlap(root: nat, m: nat, n: nat)
    requires m < NodeCount(root) && n < NodeCount(root)
  {
    && Start(root, m) < Start(root, n) + Pow2(Order(root, n))
    && Start(root, n) < Start(root, m) + Pow2(Order(root, m))
  }

  /** Blocks of two different live leaves do not overlap. */
  lemma LeavesDisjoint(p: Pool, m: nat, n: nat)
    requires Shape(p) && LiveLeaf(p.tree, m) && LiveLeaf(p.tree, n) && m != n
    ensures !Overlap(p.root, m, n)
  {
    if Overlap(p.root, m, n) {
      LeafUnique(p.root, p.tree, m, n,
                 if Start(p.root, m) < Start(p.root, n) then Start(p.root, n) else Start(p.root, m));
    }
  }

  lemma OutstandingDisjoint(p: Pool, m: nat, n: nat)
    requires Inv(p) && m in Fulls(p) && n in Fulls(p) && m != n
    ensures !Overlap(p.root, m, n)
  {
    LeavesDisjoint(p, m, n);
  }

  lemma SelfOverlap(root: nat, n: nat)
    requires n < NodeCount(root)
    ensures Overlap(root, n, n)
  {
  }

  lemma SplitHasHalves(p: Pool, n: nat)
    requires Inv(p) && LiveAs(p.tree, n, SPLIT)
    ensures NodeRight(n) < |p.tree| && Live(p.tree, NodeLeft(n)) && Live(p.tree, NodeRight(n))
    ensures Order(p.root, NodeLeft(n)) == Order(p.root, NodeRight(n)) == Order(p.root, n) - 1
    ensures Start(p.root, NodeLeft(n)) == Start(p.root, n)
    ensures Start(p.root, NodeRight(n)) == Start(p.root, n) + Pow2(Order(p.root, n) - 1)
    ensures Pow2(Order(p.root, n)) == 2 * Pow2(Order(p.root, n) - 1)
  {
    ChildOrders(p.root, n);
    ChildStarts(p.root, n);
    ParentOfChildren(n);
  }

  /** A live block that meets no outstanding block is one FREE leaf. */
  lemma {:induction false} UntouchedIsFree(p: Pool, n: nat)
    requires Inv(p) && n < |p.tree| && Live(p.tree, n)
    requires forall f <- Fulls(p) :: !Overlap(p.root, n, f)
    ensures p.tree[n] == FREE
    decreases Order(p.root, n)
  {
    SelfOverlap(p.root, n);
    if p.tree[n] == SPLIT {
      SplitHasHalves(p, n);
      hide Live, Depth, Pow2, Order, Start, Fulls, ListsSound, NodeCount;
      UntouchedIsFree(p, NodeLeft(n));
      UntouchedIsFree(p, NodeRight(n));
    }
  }

  /** An in-range request is refused exactly when every naturally aligned block of
      its order overlaps an outstanding allocation. */
  lemma AllocFailsIff(p: Pool, target: nat)
    requires Inv(p) && target <= p.root
    ensures Alloc(p, target).1.None? <==>
            forall m: nat :: m < |p.tree| && Order(p.root, m) == target ==>
                               exists f <- Fulls(p) :: Overlap(p.root, m, f)
  {
    var (q, r) := Alloc(p, target);
    AllocSound(p, target);
    if r.Some? {
      forall f <- Fulls(p)
        ensures !Overlap(p.root, r.value, f)
      {
        OutstandingDisjoint(q, r.value, f);
      }
    } else {
      forall m: nat | m < |p.tree| && Order(p.root, m) == target
        ensures exists f <- Fulls(p) :: Overlap(p.root, m, f)
      {
        RefusedBlockIsTaken(p, target, m);
      }
    }
  }

  lemma RefusedBlockIsTaken(p: Pool, target: nat, m: nat)
    requires Inv(p) && target <= p.root && Alloc(p, target).1.None?
    requires m < |p.tree| && Order(p.root, m) == target
    ensures exists f <- Fulls(p) :: Overlap(p.root, m, f)
  {
    StartInPool(p.root, m);
    StartCovered(p.root, m);
    var leaf := LeafBelow(p.root, p.tree, 0, Start(p.root, m));
    if Depth(m) < Depth(leaf) {
      AboveIsSplit(p.root, p.tree, leaf, m, Start(p.root, m));
      if forall f <- Fulls(p) :: !Overlap(p.root, m, f) {
        UntouchedIsFree(p, m);
      }
    } else if p.tree[leaf] == FULL {
      assert leaf in Fulls(p) && Overlap(p.root, m, leaf);
    } else {
      DepthInTree(p.root, leaf);
      DepthInTree(p.root, m);
      FreeIsListed(p, leaf);
    }
  }

  lemma FreeIsListed(p: Pool, n: nat)
    requires Inv(p) && LiveAs(p.tree, n, FREE)
    ensures p.lists[Order(p.root, n)] != [] && n in p.lists[Order(p.root, n)]
  {
  }

  // ------------------------------------------------------ freeing undoes allocating

  /** With nothing outstanding the pool is one free root block, as created. */
  lemma NothingOutstanding(p: Pool)
    requires Inv(p) && Fulls(p) == {}
    ensures SameLive(p, Create(p.root))
  {
    UntouchedIsFree(p, 0);
    var c := Create(p.root);
    forall n: nat | n < |p.tree|
      ensures Live(p.tree, n) <==> n == 0
      ensures Live(c.tree, n) <==> n == 0
    {
      OnlyRootLive(p.tree, n);
      OnlyRootLive(c.tree, n);
    }
    hide Live, Pow2;
    forall o | 0 <= o <= p.root
      ensures p.lists[o] == c.lists[o]
    {
      if o == p.root {
        assert LiveAs(p.tree, 0, FREE);
        assert 0 in p.lists[Order(p.root, 0)];
        forall i | 0 <= i < |p.lists[o]|
          ensures p.lists[o][i] == 0
        {
          assert p.lists[o][i] in p.lists[o];
          Listed(p, o, p.lists[o][i]);
        }
        assert Order(p.root, 0) == o && p.lists[o] != [];
        AllEqualDistinct(p.lists[o], 0);
      } else if p.lists[o] != [] {
        assert p.lists[o][0] in p.lists[o];
        Listed(p, o, p.lists[o][0]);
      }
    }
  }

  lemma AllEqualDistinct(s: seq<nat>, x: nat)
    requires Distinct(s) && s != [] && forall i :: 0 <= i < |s| ==> s[i] == x
    ensures s == [x]
  {
    if |s| > 1 {
      DistinctAt(s, 0, 1);
    }
  }

  lemma DistinctAt(s: seq<nat>, i: nat, j: nat)
    requires Distinct(s) && i < j < |s|
    ensures s[i] != s[j]
  {
  }

  lemma {:induction false} OnlyRootLive(t: seq<Mark>, n: nat)
    requires n < |t| && t[0] != SPLIT
    ensures Live(t, n) <==> n == 0
  {
    if n > 0 {
      OnlyRootLive(t, NodeParent(n));
    }
  }

  /** `k` lies in the subtree of `n`. */
  predicate Below(n: nat, k: nat)
    decreases k
  {
    k == n || (k > n && Below(n, NodeParent(k)))
  }

  /** The pools agree except for marks strictly below `n`. */
  ghost predicate AgreeOutside(p: Pool, q: Pool, n: nat) {
    && p.root == q.root && p.lists == q.lists && |p.tree| == |q.tree|
    && forall k: nat :: k < |p.tree| && (k == n || !Below(n, k)) ==> p.tree[k] == q.tree[k]
  }

  lemma BelowChild(n: nat, c: nat, k: nat)
    requires c > 0 && NodeParent(c) == n && c > n
    ensures Below(c, k) ==> Below(n, k) && k != n && k != NodeBuddy(c)
    ensures Below(n, c) && c != n
    decreases k
  {
    if Below(c, k) && k != c {
      BelowChild(n, c, NodeParent(k));
    }
  }

  /** Coalescing after splitting climbs back to the block that was split. */
  lemma {:induction false} CoalesceUndoesSplit(p: Pool, n: nat, order: nat, target: nat) returns (back: Pool)
    requires OnRow(p, n, order) && target <= order && p.tree[n] == FREE
    ensures AgreeOutside(p, back, n)
    ensures var (q, m) := SplitDown(p, n, order, target);
            OnRow(back, n, order) && Coalesce(q, m, target) == Coalesce(back, n, order)
    decreases order
  {
    hide Live, Depth, Pow2, Order, Coalesce, AgreeOutside, NodeCount, SplitOnce, MergeOnce;
    if order == target {
      AgreesWithItself(p, n);
      return p;
    }
    ChildOrders(p.root, n);
    SplitFrees(p, n, order);
    var inner := CoalesceUndoesSplit(SplitOnce(p, n, order), NodeLeft(n), order - 1, target);
    MergeUndoesSplit(p, n, order, inner);
    back := MergeOnce(inner, NodeLeft(n), order - 1);
  }

  lemma AgreesWithItself(p: Pool, n: nat)
    ensures AgreeOutside(p, p, n)
  {
  }

  lemma SplitFrees(p: Pool, n: nat, order: nat)
    requires OnRow(p, n, order) && order > 0
    ensures NodeLeft(n) < |SplitOnce(p, n, order).tree| && SplitOnce(p, n, order).tree[NodeLeft(n)] == FREE
    ensures OnRow(SplitOnce(p, n, order), NodeLeft(n), order - 1)
  {
    ChildOrders(p.root, n);
  }

  /** One merge undoes one split, and coalescing goes on from there. */
  lemma MergeUndoesSplit(p: Pool, n: nat, order: nat, inner: Pool)
    requires OnRow(p, n, order) && order > 0 && p.tree[n] == FREE
    requires OnRow(inner, NodeLeft(n), order - 1) && AgreeOutside(SplitOnce(p, n, order), inner, NodeLeft(n))
    ensures var back := MergeOnce(inner, NodeLeft(n), order - 1);
            AgreeOutside(p, back, n) && OnRow(back, n, order)
              && Coalesce(inner, NodeLeft(n), order - 1) == Coalesce(back, n, order)
  {
    hide Live, Depth, Pow2, Order;
    ChildOrders(p.root, n);
    var s, l := SplitOnce(p, n, order), NodeLeft(n);
    ParentOfChildren(n);
    SiblingIsBuddy(n);
    RowZero(p.root, l);
    BelowChild(n, l, NodeRight(n));
    BelowChild(n, l, n);
    assert inner.tree[NodeRight(n)] == FREE;
    var back := MergeOnce(inner, l, order - 1);
    assert s.lists[order - 1] == [NodeRight(n)] + p.lists[order - 1];
    assert back.lists == p.lists;
    forall k: nat | k < |p.tree| && (k == n || !Below(n, k))
      ensures p.tree[k] == back.tree[k]
    {
      BelowChild(n, l, k);
      BelowChild(n, NodeRight(n), NodeRight(n));
    }
  }

  lemma {:induction false} StaleBelowLeaf(t: seq<Mark>, u: seq<Mark>, n: nat, k: nat)
    requires |t| == |u| && n < |t| && k < |t| && t[n] == u[n] != SPLIT
    requires forall j: nat :: j < |t| && !Below(n, j) ==> t[j] == u[j]
    ensures Live(t, k) == Live(u, k)
    ensures Live(t, k) && k != n ==> !Below(n, k)
  {
    if k > 0 {
      StaleBelowLeaf(t, u, n, NodeParent(k));
    }
  }

  /** Freeing the block just allocated restores the free lists exactly and every
      mark that means anything. */
  lemma FreeUndoesAlloc(p: Pool, target: nat)
    requires Inv(p)
    ensures var (q, r) := Alloc(p, target); r.Some? ==> r.value < |q.tree| && Shape(q) && SameLive(p, Free(q, r.value))
  {
    var (q, r) := Alloc(p, target);
    AllocSound(p, target);
    if r.Some? {
      var o := FirstNonEmpty(p.lists, target);
      var n := p.lists[o][0];
      Listed(p, o, n);
      var h := SetList(p, o, Without(p.lists[o], n));
      Take(p, n);
      assert SetMark(h, n, FULL) == SetList(SetMark(p, n, FULL), o, Without(p.lists[o], n));
      SplitDownSound(h, n, o, target);
      var (d, m) := SplitDown(h, n, o, target);
      assert SetMark(q, m, FREE).tree == d.tree;
      var back := CoalesceUndoesSplit(h, n, o, target);
      RestoredByPush(p, o, n, back);
      assert Free(q, m) == Coalesce(back, n, o);
    }
  }

  lemma RestoredByPush(p: Pool, o: nat, n: nat, back: Pool)
    requires Inv(p) && o <= p.root && p.lists[o] != [] && n == p.lists[o][0] && OnRow(back, n, o)
    requires AgreeOutside(SetList(p, o, Without(p.lists[o], n)), back, n)
    ensures SameLive(p, Coalesce(back, n, o))
  {
    Listed(p, o, n);
    RowZero(p.root, n);
    if n > 0 {
      FreeBuddyless(p, n);
      BuddyNotBelow(n);
    }
    hide Depth, Pow2, Order, NodeCount, ListsSound, Coalesced, NodeBuddy, NodeParent;
    var e := SetList(back, o, [n] + back.lists[o]);
    assert Coalesce(back, n, o) == e;
    assert [n] + p.lists[o][1..] == p.lists[o];
    assert e.lists == p.lists;
    forall k: nat | k < |p.tree|
      ensures Live(p.tree, k) == Live(e.tree, k) && (Live(p.tree, k) ==> p.tree[k] == e.tree[k])
    {
      StaleBelowLeaf(p.tree, e.tree, n, k);
    }
  }

  /** The buddy of a free block is in use: otherwise they would have been merged. */
  lemma FreeBuddyless(p: Pool, n: nat)
    requires Inv(p) && LiveAs(p.tree, n, FREE) && n > 0
    ensures NodeBuddy(n) < |p.tree| && p.tree[NodeBuddy(n)] != FREE
  {
    BuddyIsLive(p, n);
    BuddyInTree(p.root, n);
    var m := NodeParent(n);
    assert LiveAs(p.tree, m, SPLIT);
    assert NodeBuddy(n) in {NodeLeft(m), NodeRight(m)} && n in {NodeLeft(m), NodeRight(m)};
  }

  lemma BuddyNotBelow(n: nat)
    requires n > 0
    ensures !Below(n, NodeBuddy(n))
  {
    BelowParent(n, NodeParent(n));
  }

  lemma BelowParent(n: nat, k: nat)
    requires k < n
    ensures !Below(n, k)
  {
  }

  // ------------------------------------------------------------------ runs

  lemma FreeListsExact(p: Pool)
    requires Inv(p)
    ensures forall o: nat, n: nat :: o <= p.root ==>
              (n in p.lists[o] <==> LiveAs(p.tree, n, FREE) && Order(p.root, n) == o)
  {
    hide Live, Depth, Pow2;
    forall o: nat, n: nat | o <= p.root
      ensures n in p.lists[o] <==> LiveAs(p.tree, n, FREE) && Order(p.root, n) == o
    {
      if n in p.lists[o] {
        Listed(p, o, n);
      }
    }
  }

  datatype Op = Request(order: nat) | Return(node: nat)

  /** The pool and the set of outstanding blocks after a history of calls; returning
      a block that is not outstanding is outside the contract and is skipped. */
  function Run(root: nat, ops: seq<Op>): (r: (Pool, set<nat>))
    ensures Inv(r.0) && r.0.root == root && r.1 == Fulls(r.0)
  {
    if ops == [] then
      CreateSound(root);
      (Create(root), {})
    else
      var (p, out) := Run(root, ops[..|ops| - 1]);
      match ops[|ops| - 1]
      case Request(order) =>
        AllocSound(p, order);
        var (q, r) := Alloc(p, order);
        (q, if r.Some? then out + {r.value} else out)
      case Return(node) =>
        if node in out then
          FreeSound(p, node);
          (Free(p, node), out - {node})
        else (p, out)
  }

  /** The run invariant in full, for every number of orders and every history. */
  lemma RunSound(root: nat, ops: seq<Op>)
    ensures var (p, out) := Run(root, ops);
            && Inv(p)
            && (forall n: nat :: LiveAs(p.tree, n, FULL) <==> n in out)
            && (forall o: nat, n: nat :: o <= root ==>
                  (n in p.lists[o] <==> LiveAs(p.tree, n, FREE) && Order(root, n) == o))
            && (forall m: nat, n: nat | m in out && n in out && m != n :: !Overlap(root, m, n))
            && (out == {} ==> SameLive(p, Create(root)))
  {
    var (p, out) := Run(root, ops);
    hide Run, Live, Depth, Pow2;
    forall m: nat, n: nat | m in out && n in out && m != n
      ensures !Overlap(root, m, n)
    {
      OutstandingDisjoint(p, m, n);
    }
    if out == {} {
      NothingOutstanding(p);
    }
    FreeListsExact(p);
  }
}
