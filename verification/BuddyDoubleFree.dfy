/** What buddy_free does to a pool when the block it is given is not outstanding: its
    magic check lets the call through, so the coalescing loop runs from a node that is
    already free, split again, or below another block. */
module BuddyDoubleFree {
  import opened Words
  import opened BuddyTree
  import opened BuddySpec
  import opened BuddyTheorems

  lemma {:induction false} BelowTransitive(m: nat, n: nat, k: nat)
    requires Below(m, n) && Below(n, k)
    ensures Below(m, k)
    decreases k
  {
    if k != n {
      BelowTransitive(m, n, NodeParent(k));
    }
  }

  lemma {:induction false} BelowAtMost(m: nat, k: nat)
    requires Below(m, k)
    ensures m <= k
  {
  }

  /** The marks one merge touches are those of the parent and its two children. */
  lemma Merged(p: Pool, n: nat, order: nat)
    requires OnRow(p, n, order) && n > 0
    ensures var q, parent, buddy := MergeOnce(p, n, order), NodeParent(n), NodeBuddy(n);
            && parent < n && buddy < |p.tree| && NodeParent(buddy) == parent && parent < buddy
            && OnRow(q, parent, order + 1) && q.tree[parent] == FREE && q.tree[n] == FREE
            && q.root == p.root && |q.tree| == |p.tree| && |q.lists| == |p.lists|
            && (forall k: nat :: k < |p.tree| && k != n && k != buddy && k != parent ==> q.tree[k] == p.tree[k])
            && (forall o: nat :: o < |p.lists| && o != order ==> q.lists[o] == p.lists[o])
            && (order < p.root && p.tree[buddy] == FREE ==> Coalesce(p, n, order) == Coalesce(q, parent, order + 1))
  {
    BuddyInTree(p.root, n);
  }

  /** Where no merge is possible the loop ends at once. */
  lemma ClimbTop(p: Pool, n: nat, order: nat)
    requires OnRow(p, n, order)
    requires (order == p.root || (n > 0 && NodeBuddy(n) < |p.tree| && p.tree[NodeBuddy(n)] != FREE))
    ensures n < |p.tree| && order < |p.lists| && Order(p.root, n) == order <= p.root
    ensures var q := Coalesce(p, n, order);
            Shape(q) && q.root == p.root && q.tree == p.tree && q.lists == p.lists[order := [n] + p.lists[order]]
  {
    hide Live, Depth, Pow2, NodeCount;
    RowZero(p.root, n);
  }

  /** Where the coalescing loop ends: every node on the way there is marked FREE, the
      buddies it merged with were marked FREE, and nothing else outside changes. */
  lemma {:induction false} Climb(p: Pool, n: nat, order: nat) returns (m: nat)
    requires OnRow(p, n, order) && p.tree[n] == FREE
    ensures m < |p.tree| && Below(m, n) && order <= Order(p.root, m) <= p.root
    ensures var q := Coalesce(p, n, order);
            && Shape(q) && q.root == p.root
            && q.lists[Order(p.root, m)] == [m] + p.lists[Order(p.root, m)]
            && (forall o: nat :: o < order ==> q.lists[o] == p.lists[o])
            && (forall k: nat :: k < |p.tree| && Below(n, k) && k != n ==> q.tree[k] == p.tree[k])
            && (forall k: nat :: k < |p.tree| && !Below(m, k) ==> q.tree[k] == p.tree[k])
            && (forall a: nat :: Below(m, a) && Below(a, n) && a < |p.tree| ==> q.tree[a] == FREE)
    ensures forall a: nat :: Below(m, a) && Below(a, n) && a != m && a < |p.tree| ==>
              NodeBuddy(a) < |p.tree| && p.tree[NodeBuddy(a)] == FREE
    decreases n
  {
    hide Live, Depth, Pow2, Order, NodeCount, MergeOnce, Coalesce;
    RowZero(p.root, n);
    if order == p.root || p.tree[NodeBuddy(n)] != FREE {
      m := n;
      ClimbTop(p, n, order);
      ClimbEnds(p, n);
    } else {
      Merged(p, n, order);
      var parent, q := NodeParent(n), MergeOnce(p, n, order);
      m := Climb(q, parent, order + 1);
      ClimbStep(p, q, n, m);
      BelowTransitive(m, parent, n);
      forall k: nat | k < |p.tree| && Below(n, k) && k != n
        ensures Coalesce(p, n, order).tree[k] == p.tree[k]
      {
        BelowParentsChild(n, k);
      }
    }
  }

  lemma ClimbEnds(p: Pool, n: nat)
    requires n < |p.tree|
    ensures forall a: nat :: Below(n, a) && Below(a, n) ==> a == n
  {
    forall a: nat | Below(n, a) && Below(a, n)
      ensures a == n
    {
      BelowAtMost(n, a);
      BelowAtMost(a, n);
    }
  }

  /** What lies strictly below a child lies below the parent and is not its sibling. */
  lemma BelowParentsChild(n: nat, k: nat)
    requires n > 0 && Below(n, k) && k != n
    ensures Below(NodeParent(n), k) && k != NodeParent(n) && k != NodeBuddy(n)
  {
    ChildOfParent(n);
    BelowChild(NodeParent(n), n, k);
  }

  /** One step of the climb, seen from where it ends. */
  lemma ClimbStep(p: Pool, q: Pool, n: nat, m: nat)
    requires n > 0 && Below(m, NodeParent(n)) && NodeParent(NodeBuddy(n)) == NodeParent(n) < NodeBuddy(n)
    ensures Below(m, n) && Below(m, NodeBuddy(n)) && Below(NodeParent(n), n) && n != NodeParent(n)
    ensures forall a: nat :: Below(a, n) ==> a == n || Below(a, NodeParent(n))
    ensures forall a: nat :: Below(a, NodeParent(n)) && a > 0 ==>
              NodeBuddy(a) != n && NodeBuddy(a) != NodeBuddy(n) && NodeBuddy(a) != NodeParent(n)
  {
    forall a: nat | Below(a, NodeParent(n)) && a > 0
      ensures NodeBuddy(a) != n && NodeBuddy(a) != NodeBuddy(n) && NodeBuddy(a) != NodeParent(n)
    {
      AncestorBuddy(a, NodeParent(n), n);
    }
  }

  lemma AncestorBuddy(a: nat, parent: nat, n: nat)
    requires a > 0 && n > 0 && Below(a, parent) && NodeParent(n) == parent
    requires NodeParent(NodeBuddy(n)) == parent < NodeBuddy(n)
    ensures NodeBuddy(a) != n && NodeBuddy(a) != NodeBuddy(n) && NodeBuddy(a) != parent
  {
    BelowAtMost(a, parent);
    BuddyNotBelow(a);
    SameParent(a);
  }

  lemma SameParent(a: nat)
    requires a > 0
    ensures NodeBuddy(a) > 0 && NodeParent(NodeBuddy(a)) == NodeParent(a) && NodeParent(a) < a
  {
  }

  /** The lowest live node at or above `n`. */
  function LowestLive(tree: seq<Mark>, n: nat): (c: nat)
    requires n < |tree|
    ensures c <= n && Live(tree, c) && Below(c, n)
    ensures c != n ==> tree[c] != SPLIT
  {
    if Live(tree, n) then n
    else
      var c := LowestLive(tree, NodeParent(n));
      BelowOwnParent(n);
      BelowTransitive(c, NodeParent(n), n);
      c
  }

  lemma BelowOwnParent(n: nat)
    requires n > 0
    ensures Below(NodeParent(n), n)
  {
  }

  /** Every live node above `n` is at or above the lowest one. */
  lemma {:induction false} LowestIsBelow(tree: seq<Mark>, n: nat, m: nat)
    requires n < |tree| && m < |tree| && Below(m, n) && Live(tree, m)
    ensures Below(m, LowestLive(tree, n))
  {
    if !Live(tree, n) {
      LowestIsBelow(tree, NodeParent(n), m);
    }
  }

  /** Nothing below a leaf is live. */
  lemma {:induction false} DeadBelowLeaf(tree: seq<Mark>, n: nat, k: nat)
    requires n < |tree| && k < |tree| && tree[n] != SPLIT && Below(n, k) && k != n
    ensures !Live(tree, k)
    decreases k
  {
    if NodeParent(k) != n {
      DeadBelowLeaf(tree, n, NodeParent(k));
    }
  }

  /** Liveness of `m` depends on marks outside its subtree only. */
  lemma {:induction false} LiveFromOutside(t: seq<Mark>, u: seq<Mark>, m: nat, k: nat)
    requires |t| == |u| && m < |t| && k < |t| && Below(k, m)
    requires forall j: nat :: j < |t| && !Below(m, j) ==> t[j] == u[j]
    ensures Live(t, k) == Live(u, k)
    decreases k
  {
    if k > 0 {
      BelowOwnParent(k);
      BelowTransitive(NodeParent(k), k, m);
      BelowAtMost(k, m);
      BelowParent(m, NodeParent(k));
      LiveFromOutside(t, u, m, NodeParent(k));
    }
  }

  /** A split block has a live leaf of smaller order inside it. */
  lemma {:induction false} LeafUnder(p: Pool, n: nat) returns (leaf: nat)
    requires Inv(p) && n < |p.tree| && Live(p.tree, n)
    ensures LiveLeaf(p.tree, leaf) && Below(n, leaf) && Order(p.root, leaf) <= Order(p.root, n)
    ensures p.tree[n] == SPLIT ==> Order(p.root, leaf) < Order(p.root, n)
    decreases Order(p.root, n)
  {
    if p.tree[n] != SPLIT {
      return n;
    }
    assert LiveAs(p.tree, n, SPLIT);
    ChildOrders(p.root, n);
    ParentOfChildren(n);
    hide Inv, Order, NodeCount;
    leaf := LeafUnder(p, NodeLeft(n));
    BelowChild(n, NodeLeft(n), leaf);
  }

  // ------------------------------------------------------ how it goes wrong

  /** `q` keeps faith with `p` after a free of `n`: it is sound, and nothing that was
      outstanding but `n` has stopped being so. */
  ghost predicate Faithful(p: Pool, q: Pool, n: nat) {
    Inv(q) && Fulls(p) - {n} <= Fulls(q)
  }

  lemma ListedMustBeLive(q: Pool, o: nat, n: nat)
    requires Shape(q) && o <= q.root && n in q.lists[o] && !LiveAs(q.tree, n, FREE)
    ensures !Inv(q)
  {
  }

  lemma ListedOnce(q: Pool, o: nat, n: nat, rest: seq<nat>)
    requires Shape(q) && o <= q.root && q.lists[o] == [n] + rest && n in rest
    ensures !Inv(q)
  {
    hide Live, Depth, Pow2, Order;
    var i :| 0 <= i < |rest| && rest[i] == n;
    assert q.lists[o][0] == q.lists[o][i + 1];
  }

  lemma LostBlock(p: Pool, q: Pool, n: nat, c: nat)
    requires c in Fulls(p) && c != n && !LiveAs(q.tree, c, FULL)
    ensures !Faithful(p, q, n)
  {
    hide Inv;
    assert c in Fulls(p) - {n} && c !in Fulls(q);
  }

  /** The second free of a block that is free, or lies below another: the lowest live
      node above it decides. */
  lemma LeafAbove(p: Pool, q: Pool, n: nat, m: nat, c: nat)
    requires Inv(p) && n < |p.tree| && n !in Fulls(p) && Shape(q) && q.root == p.root && m < |p.tree|
    requires c < |p.tree| && Live(p.tree, c) && p.tree[c] != SPLIT && Below(m, c) && Below(c, n)
    requires q.lists[Order(p.root, m)] == [m] + p.lists[Order(p.root, m)] && q.tree[c] == FREE
    requires c != m ==> NodeBuddy(c) < |p.tree| && p.tree[NodeBuddy(c)] == FREE
    ensures !Faithful(p, q, n)
  {
    hide Live, Depth, Pow2, Order, NodeCount;
    if p.tree[c] == FULL {
      LostBlock(p, q, n, c);
    } else {
      if c > 0 {
        FreeBuddyless(p, c);
      } else {
        BelowAtMost(m, c);
      }
      assert c == m;
      FreeIsListed(p, m);
      OrderAtMost(p.root, m);
      ListedOnce(q, Order(p.root, m), m, p.lists[Order(p.root, m)]);
    }
  }

  lemma OrderAtMost(root: nat, n: nat)
    requires n < NodeCount(root)
    ensures Order(root, n) <= root
  {
  }

  /** The second free of a block that has been split again: its pieces are lost. */
  lemma SplitAgain(p: Pool, q: Pool, n: nat)
    requires Inv(p) && LiveAs(p.tree, n, SPLIT) && Shape(q) && q.root == p.root && q.tree[n] == FREE
    requires forall o: nat :: o < Order(p.root, n) ==> q.lists[o] == p.lists[o]
    ensures !Faithful(p, q, n)
  {
    hide Live, Depth, Pow2, Order, NodeCount;
    var leaf := LeafUnder(p, n);
    DeadBelowLeaf(q.tree, n, leaf);
    if p.tree[leaf] == FULL {
      LostBlock(p, q, n, leaf);
    } else {
      FreeIsListed(p, leaf);
      OrderAtMost(p.root, leaf);
      ListedMustBeLive(q, Order(p.root, leaf), leaf);
    }
  }

  /** Freeing what is not outstanding leaves a broken pool or drops a block that is. */
  lemma SecondFreeHarms(p: Pool, n: nat)
    requires Inv(p) && n < |p.tree| && n !in Fulls(p)
    ensures !Faithful(p, Free(p, n), n)
  {
    hide Inv, Live, Depth, Pow2, Order, NodeCount, Coalesce, Fulls;
    InvHasShape(p);
    var h := SetMark(p, n, FREE);
    var m := Climb(h, n, Order(p.root, n));
    var q := Free(p, n);
    EndsLiveOrBroken(p, h, q, n, m);
    if Live(p.tree, m) {
      var c := LowestLive(p.tree, n);
      LowestIsBelow(p.tree, n, m);
      if p.tree[c] == SPLIT {
        SplitAgain(p, q, n);
      } else {
        BuddyUntouched(p, h, n, c);
        LeafAbove(p, q, n, m, c);
      }
    }
  }

  lemma InvHasShape(p: Pool)
    requires Inv(p)
    ensures Shape(p)
  {
  }

  /** The node pushed last is listed, so it has to be live, in the old pool too. */
  lemma EndsLiveOrBroken(p: Pool, h: Pool, q: Pool, n: nat, m: nat)
    requires Inv(p) && n < |p.tree| && h == SetMark(p, n, FREE) && m < |p.tree| && Below(m, n)
    requires Shape(q) && q.root == p.root && Order(p.root, m) <= p.root
    requires q.lists[Order(p.root, m)] == [m] + p.lists[Order(p.root, m)]
    requires forall k: nat :: k < |p.tree| && !Below(m, k) ==> q.tree[k] == h.tree[k]
    ensures !Live(p.tree, m) ==> !Faithful(p, q, n)
  {
    hide Inv, Depth, Pow2, Order, NodeCount, Fulls;
    InvHasShape(p);
    LiveFromOutside(p.tree, q.tree, m, m);
    if !Live(p.tree, m) {
      assert m in q.lists[Order(p.root, m)];
      ListedMustBeLive(q, Order(p.root, m), m);
    }
  }

  /** Marking `n` does not change the mark of an ancestor's buddy. */
  lemma BuddyUntouched(p: Pool, h: Pool, n: nat, c: nat)
    requires n < |p.tree| && h == SetMark(p, n, FREE) && Below(c, n) && c <= n
    ensures c > 0 && NodeBuddy(c) < |p.tree| ==> h.tree[NodeBuddy(c)] == p.tree[NodeBuddy(c)]
  {
    if c > 0 && NodeBuddy(c) == n {
      BelowSibling(c);
    }
  }

  lemma BelowSibling(c: nat)
    requires c > 0
    ensures !Below(c, NodeBuddy(c))
  {
    BuddyNotBelow(c);
  }

  // ------------------------------------------------------- stale links

  /** Every buddy that the coalescing loop takes off a list is on it. Otherwise list_remove
      follows links in a block that is on no list, whatever that memory holds by then, and
      Coalesce, which takes nothing off, does not say what comes of it. */
  ghost predicate RemovesListed(p: Pool, n: nat, order: nat)
    requires OnRow(p, n, order)
    decreases n
  {
    RowZero(p.root, n);
    order == p.root
    || (BuddyInTree(p.root, n);
        p.tree[NodeBuddy(n)] == FREE ==>
          NodeBuddy(n) in p.lists[order] && RemovesListed(MergeOnce(p, n, order), NodeParent(n), order + 1))
  }

  /** buddy_free of node `n` follows links of listed blocks only. */
  ghost predicate LinksInUse(p: Pool, n: nat)
    requires Shape(p) && n < |p.tree|
  {
    RemovesListed(SetMark(p, n, FREE), n, Order(p.root, n))
  }

  lemma {:induction false} HoldingRemovesListed(p: Pool, n: nat, order: nat)
    requires Holding(p, n) && OnRow(p, n, order)
    ensures RemovesListed(p, n, order)
    decreases n
  {
    hide Live, Depth, Pow2, Inv, MergeOnce, Holding, Order, LiveAs, NodeCount;
    RowZero(p.root, n);
    if order != p.root && p.tree[NodeBuddy(n)] == FREE {
      FreeBuddyListed(p, n, order);
      MergeOnceHolds(p, n, order);
      HoldingRemovesListed(MergeOnce(p, n, order), NodeParent(n), order + 1);
    }
  }

  /** The buddy of a held block, if it is marked FREE, is live and hence listed. */
  lemma FreeBuddyListed(p: Pool, n: nat, order: nat)
    requires Holding(p, n) && OnRow(p, n, order) && n > 0
    requires NodeBuddy(n) < |p.tree| && p.tree[NodeBuddy(n)] == FREE
    ensures NodeBuddy(n) in p.lists[order]
  {
    var f := SetMark(p, n, FULL);
    LiveAgreeAt(p.tree, f.tree, n);
    BuddyIsLive(f, n);
    BuddyInTree(p.root, n);
  }

  /** A pool of two pages, both handed out. */
  function TwoPages(): Pool {
    Pool(1, [SPLIT, FULL, FULL], [[], []])
  }

  /** The tree over two pages: the root and its two children. */
  lemma SmallTree()
    ensures NodeCount(1) == 3
    ensures forall n: nat :: n < NodeCount(1) ==>
              && Order(1, n) == (if n == 0 then 1 else 0) && Depth(n) == (if n == 0 then 0 else 1)
              && (n > 0 ==> NodeParent(n) == 0 && NodeBuddy(n) == 3 - n)
  {
    SmallCount();
    hide Pow2, NodeCount, Order, Depth;
    forall n: nat | n < NodeCount(1)
      ensures Order(1, n) == (if n == 0 then 1 else 0) && Depth(n) == (if n == 0 then 0 else 1)
      ensures n > 0 ==> NodeParent(n) == 0 && NodeBuddy(n) == 3 - n
    {
      SmallNode(n);
    }
  }

  lemma SmallNode(n: nat)
    requires n < NodeCount(1)
    ensures Order(1, n) == (if n == 0 then 1 else 0) && Depth(n) == (if n == 0 then 0 else 1)
    ensures n > 0 ==> NodeParent(n) == 0 && NodeBuddy(n) == 3 - n
  {
    SmallCount();
    hide Pow2, NodeCount, Depth, Order, NodeParent, NodeBuddy;
    RootOrder(1, n);
    if n > 0 {
      SmallLinks(n);
    }
  }

  lemma RootOrder(root: nat, n: nat)
    requires n < NodeCount(root)
    ensures Order(root, n) <= root && (Order(root, n) == root <==> n == 0) && Order(root, n) == root - Depth(n)
  {
    RowZero(root, n);
  }

  lemma SmallLinks(n: nat)
    requires 0 < n < 3
    ensures NodeParent(n) == 0 && NodeBuddy(n) == 3 - n
  {
  }

  lemma SmallCount()
    ensures NodeCount(1) == 3
  {
    assert Pow2(1) == 2;
  }

  lemma TwoPagesSound()
    ensures Inv(TwoPages()) && 1 in Fulls(TwoPages()) && 2 in Fulls(TwoPages())
  {
    SmallTree();
    hide Depth, Order, NodeCount, Pow2;
    var t := TwoPages().tree;
    assert Live(t, 0) && Live(t, 1) && Live(t, 2);
  }

  lemma FirstPageBack()
    ensures Shape(TwoPages()) && Free(TwoPages(), 1) == Pool(1, [SPLIT, FREE, FULL], [[1], []])
  {
    SmallTree();
    hide Depth, Order, NodeCount, Pow2, Live, Inv;
    var h := SetMark(TwoPages(), 1, FREE);
    assert h == Pool(1, [SPLIT, FREE, FULL], [[], []]);
    assert Coalesce(h, 1, 0) == SetList(h, 0, [1] + h.lists[0]);
    assert [1] + h.lists[0] == [1];
  }

  lemma SecondPageBack()
    ensures var f := Pool(1, [SPLIT, FREE, FULL], [[1], []]);
            Shape(f) && Free(f, 2) == Pool(1, [FREE, FREE, FREE], [[], [0]])
  {
    SmallTree();
    hide Depth, Order, NodeCount, Pow2, Live, Inv;
    var f := Pool(1, [SPLIT, FREE, FULL], [[1], []]);
    var h := SetMark(f, 2, FREE);
    assert h == Pool(1, [SPLIT, FREE, FREE], [[1], []]);
    assert Without([1], 1) == [];
    var m := Pool(1, [FREE, FREE, FREE], [[], []]);
    assert MergeOnce(h, 2, 0) == m;
    assert Coalesce(h, 2, 0) == Coalesce(m, 0, 1);
    assert Coalesce(m, 0, 1) == SetList(m, 1, [0] + m.lists[1]);
    assert [0] + m.lists[1] == [0];
  }

  /** Stale links do get followed: two pages come back, the second of them merges both into
      the root, and the first is freed once more. Its buddy is still marked FREE but on no
      list. */
  lemma StaleLinksFollowed()
    ensures var p := TwoPages();
            && Inv(p) && 1 in Fulls(p) && 2 in Fulls(p)
            && var q := Free(Free(p, 1), 2);
               Inv(q) && 1 < |q.tree| && 1 !in Fulls(q) && !LinksInUse(q, 1)
  {
    hide Depth, Order, NodeCount, Pow2, Live, Inv, Free, Fulls, LinksInUse;
    TwoPagesSound();
    FreeSound(TwoPages(), 1);
    FirstPageBack();
    FreeSound(Free(TwoPages(), 1), 2);
    SecondPageBack();
    StaleBuddy();
  }

  lemma StaleBuddy()
    ensures var q := Pool(1, [FREE, FREE, FREE], [[], [0]]); Shape(q) && !LinksInUse(q, 1)
  {
    SmallTree();
    hide Depth, Order, NodeCount, Pow2, Live, Inv;
    var q := Pool(1, [FREE, FREE, FREE], [[], [0]]);
    assert SetMark(q, 1, FREE).tree == q.tree;
    assert !RemovesListed(q, 1, 0);
  }

  lemma OutstandingLinks(p: Pool, n: nat)
    requires Inv(p) && n in Fulls(p)
    ensures LinksInUse(p, n)
  {
    var h := SetMark(p, n, FREE);
    LiveAgreeAt(h.tree, p.tree, n);
    assert SetMark(h, n, FULL).tree == p.tree;
    HoldingRemovesListed(h, n, Order(p.root, n));
  }

  /** A free is sound for its pool if and only if its block is outstanding: otherwise it
      follows stale links or, if not, breaks the pool or drops a block that is. */
  lemma FreeIsFaithfulIff(p: Pool, n: nat)
    requires Inv(p) && n < |p.tree|
    ensures Faithful(p, Free(p, n), n) <==> n in Fulls(p)
    ensures LinksInUse(p, n) && Faithful(p, Free(p, n), n) <==> n in Fulls(p)
  {
    if n in Fulls(p) {
      FreeSound(p, n);
      OutstandingLinks(p, n);
    } else {
      SecondFreeHarms(p, n);
    }
  }
}
