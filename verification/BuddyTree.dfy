/** The implicit binary tree of src/buddy.c: node numbers, the blocks they stand
    for, and which marks mean anything. Offsets are in pages from the start of the
    usable memory of a pool whose root block has 2^root pages. */
module BuddyTree {
  import opened Words

  datatype Mark = FREE | SPLIT | FULL

  function NodeParent(node: nat): nat
    requires node > 0
  {
    (node - 1) / 2
  }

  function NodeLeft(node: nat): nat { node * 2 + 1 }

  function NodeRight(node: nat): nat { node * 2 + 2 }

  function NodeBuddy(node: nat): nat
    requires node > 0
  {
    if node % 2 == 1 then node + 1 else node - 1
  }

  lemma ParentOfChildren(node: nat)
    ensures NodeParent(NodeLeft(node)) == node == NodeParent(NodeRight(node))
    ensures NodeLeft(node) % 2 == 1 && NodeRight(node) % 2 == 0
  {
  }

  lemma ChildOfParent(node: nat)
    requires node > 0
    ensures node == if node % 2 == 1 then NodeLeft(NodeParent(node)) else NodeRight(NodeParent(node))
  {
  }

  function NodeCount(root: nat): nat { 2 * Pow2(root) - 1 }

  /** Distance from the root; row d holds the nodes 2^d - 1 .. 2^(d+1) - 2. */
  function Depth(node: nat): (d: nat)
    ensures Pow2(d) - 1 <= node < 2 * Pow2(d) - 1
  {
    if node == 0 then 0 else 1 + Depth(NodeParent(node))
  }

  lemma {:induction false} DepthInTree(root: nat, node: nat)
    ensures node < NodeCount(root) <==> Depth(node) <= root
  {
    if Depth(node) <= root {
      Pow2Monotone(Depth(node), root);
    } else {
      Pow2Monotone(root + 1, Depth(node));
    }
  }

  lemma DepthUnique(node: nat, d: nat)
    requires Pow2(d) - 1 <= node < 2 * Pow2(d) - 1
    ensures Depth(node) == d
  {
    if d < Depth(node) {
      Pow2Monotone(d + 1, Depth(node));
    } else if Depth(node) < d {
      Pow2Monotone(Depth(node) + 1, d);
    }
  }

  function Order(root: nat, node: nat): nat
    requires node < NodeCount(root)
  {
    DepthInTree(root, node);
    root - Depth(node)
  }

  lemma ChildOrders(root: nat, node: nat)
    requires node < NodeCount(root) && Order(root, node) > 0
    ensures NodeRight(node) < NodeCount(root)
    ensures Order(root, NodeLeft(node)) == Order(root, NodeRight(node)) == Order(root, node) - 1
  {
    DepthInTree(root, node);
    DepthInTree(root, NodeLeft(node));
    DepthInTree(root, NodeRight(node));
  }

  lemma BuddyInTree(root: nat, node: nat)
    requires 0 < node < NodeCount(root)
    ensures NodeBuddy(node) < NodeCount(root) && NodeBuddy(node) != 0 && NodeBuddy(node) != node
    ensures NodeParent(NodeBuddy(node)) == NodeParent(node)
    ensures Order(root, NodeBuddy(node)) == Order(root, node)
    ensures Order(root, NodeParent(node)) == Order(root, node) + 1
    ensures {node, NodeBuddy(node)} == {NodeLeft(NodeParent(node)), NodeRight(NodeParent(node))}
  {
    ChildOfParent(node);
    ParentOfChildren(NodeParent(node));
    SiblingIsBuddy(NodeParent(node));
    hide NodeParent, NodeBuddy, Pow2;
    DepthInTree(root, node);
    DepthInTree(root, NodeParent(node));
    DepthInTree(root, NodeBuddy(node));
  }

  lemma SiblingIsBuddy(n: nat)
    ensures NodeBuddy(NodeLeft(n)) == NodeRight(n) && NodeBuddy(NodeRight(n)) == NodeLeft(n)
  {
  }

  // ------------------------------------------------------------ addresses

  /** First page of the block of `node`: the left half starts where its parent
      does, the right half one half-block later. */
  function Start(root: nat, node: nat): nat
    requires node < NodeCount(root)
  {
    if node == 0 then 0
    else if node % 2 == 1 then Start(root, NodeParent(node))
    else Start(root, NodeParent(node)) + Pow2(Order(root, node))
  }

  predicate Covers(root: nat, node: nat, page: nat)
    requires node < NodeCount(root)
  {
    Start(root, node) <= page < Start(root, node) + Pow2(Order(root, node))
  }

  /** src/buddy.c: ptr_to_node_index, on page offsets. */
  function PageToNode(root: nat, page: nat, order: nat): nat
    requires order <= root
  {
    Pow2(root - order) - 1 + DivPow2(page, order)
  }

  function DivPow2(page: nat, order: nat): nat {
    DivNonNegative(page, Pow2(order));
    page / Pow2(order)
  }

  /** src/buddy.c: node_index_to_ptr, on page offsets. */
  function NodeToPage(root: nat, node: nat, order: nat): nat
    requires order <= root && node >= Pow2(root - order) - 1
  {
    (node - (Pow2(root - order) - 1)) * Pow2(order)
  }

  function RowIndex(node: nat): nat {
    node - (Pow2(Depth(node)) - 1)
  }

  lemma RowIndexStep(node: nat)
    requires node > 0
    ensures RowIndex(node) == 2 * RowIndex(NodeParent(node)) + (if node % 2 == 1 then 0 else 1)
  {
    ChildOfParent(node);
  }

  lemma Twice(i: nat, p: nat)
    ensures i * (2 * p) == (2 * i) * p
    ensures (2 * i + 1) * p == (2 * i) * p + p
  {
  }

  /** The closed form of the source and the halving definition agree. */
  lemma {:induction false} StartIsProduct(root: nat, node: nat)
    requires node < NodeCount(root)
    ensures Start(root, node) == RowIndex(node) * Pow2(Order(root, node))
  {
    if node > 0 {
      BuddyInTree(root, node);
      StartIsProduct(root, NodeParent(node));
      RowIndexStep(node);
      Twice(RowIndex(NodeParent(node)), Pow2(Order(root, node)));
    }
  }

  lemma {:induction false} StartInPool(root: nat, node: nat)
    requires node < NodeCount(root)
    ensures Start(root, node) + Pow2(Order(root, node)) <= Pow2(root)
  {
    if node > 0 {
      BuddyInTree(root, node);
      StartInPool(root, NodeParent(node));
    }
  }

  /** ptr_to_node_index and node_index_to_ptr are mutually inverse on each row. */
  lemma NodePageInverse(root: nat, node: nat)
    requires node < NodeCount(root)
    ensures Depth(node) <= root
    ensures NodeToPage(root, node, Order(root, node)) == Start(root, node)
    ensures PageToNode(root, Start(root, node), Order(root, node)) == node
    ensures Start(root, node) % Pow2(Order(root, node)) == 0
  {
    DepthInTree(root, node);
    StartIsProduct(root, node);
    DivModUnique(Start(root, node), Pow2(Order(root, node)), RowIndex(node), 0);
  }

  lemma PageNodeInverse(root: nat, page: nat, order: nat)
    requires order <= root && page < Pow2(root) && page % Pow2(order) == 0
    ensures PageToNode(root, page, order) < NodeCount(root)
    ensures Order(root, PageToNode(root, page, order)) == order
    ensures Start(root, PageToNode(root, page, order)) == page
  {
    var i := DivPow2(page, order);
    assert page == i * Pow2(order) by {
      DivExact(page, Pow2(order));
    }
    assert i < Pow2(root - order) by {
      Pow2Add(root - order, order);
      IndexBound(i, Pow2(root - order), Pow2(order));
    }
    NodeAtRow(root, order, i, PageToNode(root, page, order));
  }

  lemma IndexBound(i: nat, rows: nat, size: nat)
    requires i * size < rows * size
    ensures i < rows
  {
    if rows <= i {
      MulMonotone(rows, i, size);
    }
  }

  lemma NodeAtRow(root: nat, order: nat, i: nat, node: nat)
    requires order <= root && i < Pow2(root - order) && node == Pow2(root - order) - 1 + i
    ensures node < NodeCount(root) && Order(root, node) == order && Start(root, node) == i * Pow2(order)
  {
    DepthUnique(node, root - order);
    DepthInTree(root, node);
    StartIsProduct(root, node);
  }

  lemma DivExact(x: nat, d: nat)
    requires d > 0 && x % d == 0
    ensures x == x / d * d
  {
  }

  lemma MulMonotone(a: nat, b: nat, c: nat)
    requires a <= b
    ensures a * c <= b * c
  {
  }

  /** Flipping bit `order` of a page number. */
  function FlipBit(page: nat, order: nat): int {
    if page / Pow2(order) % 2 == 0 then page + Pow2(order) else page - Pow2(order)
  }

  /** The buddy's block is found by flipping the block-size bit of the offset, and
      the parent's block starts at the lower of the two. */
  lemma HalvesAndBuddy(root: nat, node: nat)
    requires 0 < node < NodeCount(root)
    ensures NodeBuddy(node) < NodeCount(root)
    ensures Start(root, NodeBuddy(node)) == FlipBit(Start(root, node), Order(root, node))
    ensures Start(root, NodeParent(node)) ==
            (if Start(root, NodeBuddy(node)) < Start(root, node)
             then Start(root, NodeBuddy(node)) else Start(root, node))
  {
    BuddyStarts(root, node);
    IndexParity(root, node);
  }

  lemma BuddyStarts(root: nat, node: nat)
    requires 0 < node < NodeCount(root)
    ensures NodeBuddy(node) < NodeCount(root)
    ensures Start(root, NodeParent(node)) == Start(root, node) - (if node % 2 == 1 then 0 else Pow2(Order(root, node)))
    ensures Start(root, NodeBuddy(node)) ==
            if node % 2 == 1 then Start(root, node) + Pow2(Order(root, node))
            else Start(root, node) - Pow2(Order(root, node))
  {
    BuddyInTree(root, node);
    ChildOfParent(node);
    ParentOfChildren(NodeParent(node));
  }

  lemma IndexParity(root: nat, node: nat)
    requires 0 < node < NodeCount(root)
    ensures Start(root, node) / Pow2(Order(root, node)) % 2 == if node % 2 == 1 then 0 else 1
  {
    StartIsProduct(root, node);
    RowIndexStep(node);
    DivModUnique(Start(root, node), Pow2(Order(root, node)), RowIndex(node), 0);
    ParityOfEvenPlus(RowIndex(NodeParent(node)), if node % 2 == 1 then 0 else 1);
  }

  lemma ParityOfEvenPlus(i: nat, b: nat)
    requires b < 2
    ensures (2 * i + b) % 2 == b
  {
  }

  lemma ChildStarts(root: nat, node: nat)
    requires node < NodeCount(root) && Order(root, node) > 0
    ensures NodeRight(node) < NodeCount(root)
    ensures Start(root, NodeLeft(node)) == Start(root, node)
    ensures Start(root, NodeRight(node)) == Start(root, node) + Pow2(Order(root, node) - 1)
    ensures Pow2(Order(root, node)) == 2 * Pow2(Order(root, node) - 1)
  {
    ParentOfChildren(node);
    ChildOrders(root, node);
  }

  /** Two nodes of one row that cover a common page are the same node. */
  lemma {:induction false} RowUnique(root: nat, m: nat, n: nat, page: nat)
    requires m < NodeCount(root) && n < NodeCount(root) && Depth(m) == Depth(n)
    requires Covers(root, m, page) && Covers(root, n, page)
    ensures m == n
    decreases m
  {
    if m > 0 && n > 0 {
      ParentCovers(root, m, page);
      ParentCovers(root, n, page);
      BuddyInTree(root, m);
      RowUnique(root, NodeParent(m), NodeParent(n), page);
      ChildOfParent(m);
      ChildOfParent(n);
    }
  }

  lemma ParentCovers(root: nat, n: nat, page: nat)
    requires 0 < n < NodeCount(root) && Covers(root, n, page)
    ensures NodeParent(n) < NodeCount(root) && Covers(root, NodeParent(n), page)
  {
    BuddyInTree(root, n);
  }

  // ------------------------------------------------------------ live marks

  /** A node is live when every proper ancestor is SPLIT; other marks are stale. */
  predicate Live(tree: seq<Mark>, node: nat)
    requires node < |tree|
  {
    node == 0 || (tree[NodeParent(node)] == SPLIT && Live(tree, NodeParent(node)))
  }

  predicate LiveAs(tree: seq<Mark>, node: nat, mark: Mark) {
    node < |tree| && Live(tree, node) && tree[node] == mark
  }

  /** Only SPLIT marks of proper ancestors matter to liveness. */
  lemma {:induction false} LiveAgree(t: seq<Mark>, u: seq<Mark>, node: nat)
    requires |t| == |u| && node < |t|
    requires forall k :: 0 <= k < |t| ==> (t[k] == SPLIT <==> u[k] == SPLIT)
    ensures Live(t, node) == Live(u, node)
  {
    if node > 0 {
      LiveAgree(t, u, NodeParent(node));
    }
  }

  /** Splitting a leaf brings its two children to life and nothing else. */
  lemma {:induction false} LiveSplit(t: seq<Mark>, u: seq<Mark>, n: nat, node: nat)
    requires |t| == |u| && NodeRight(n) < |t| && node < |t|
    requires t[n] != SPLIT && u[n] == SPLIT && u[NodeLeft(n)] != SPLIT && u[NodeRight(n)] != SPLIT
    requires forall k :: 0 <= k < |t| && k != n && k != NodeLeft(n) && k != NodeRight(n) ==> t[k] == u[k]
    requires Live(t, n)
    ensures Live(u, node) <==> (Live(t, node) || node == NodeLeft(n) || node == NodeRight(n))
    ensures Live(t, node) ==> node != NodeLeft(n) && node != NodeRight(n)
  {
    if node > 0 {
      var p := NodeParent(node);
      LiveSplit(t, u, n, p);
      if p == n {
        assert node == NodeLeft(n) || node == NodeRight(n);
      }
    }
  }

  /** A live node strictly above another live node over the same page is SPLIT. */
  lemma {:induction false} AboveIsSplit(root: nat, t: seq<Mark>, m: nat, n: nat, page: nat)
    requires |t| == NodeCount(root) && m < |t| && n < |t|
    requires Live(t, m) && Depth(n) < Depth(m)
    requires Covers(root, m, page) && Covers(root, n, page)
    ensures t[n] == SPLIT && Live(t, n)
    decreases m
  {
    var p := NodeParent(m);
    ParentCovers(root, m, page);
    if Depth(p) == Depth(n) {
      RowUnique(root, p, n, page);
    } else {
      AboveIsSplit(root, t, p, n, page);
    }
  }

  predicate LiveLeaf(tree: seq<Mark>, node: nat) {
    node < |tree| && Live(tree, node) && tree[node] != SPLIT
  }

  /** No page lies in two live leaves. */
  lemma LeafUnique(root: nat, t: seq<Mark>, m: nat, n: nat, page: nat)
    requires |t| == NodeCount(root) && LiveLeaf(t, m) && LiveLeaf(t, n)
    requires Covers(root, m, page) && Covers(root, n, page)
    ensures m == n
  {
    if Depth(m) == Depth(n) {
      RowUnique(root, m, n, page);
    } else if Depth(m) < Depth(n) {
      AboveIsSplit(root, t, n, m, page);
    } else {
      AboveIsSplit(root, t, m, n, page);
    }
  }

  predicate SplitsHaveChildren(root: nat, tree: seq<Mark>) {
    forall n :: 0 <= n < |tree| && LiveAs(tree, n, SPLIT) ==> Depth(n) < root
  }

  /** Every page of a live node's block lies in a live leaf at or below it. */
  lemma {:induction false} LeafBelow(root: nat, t: seq<Mark>, node: nat, page: nat) returns (leaf: nat)
    requires |t| == NodeCount(root) && SplitsHaveChildren(root, t)
    requires node < |t| && Live(t, node) && Covers(root, node, page)
    ensures LiveLeaf(t, leaf) && Covers(root, leaf, page) && Depth(leaf) >= Depth(node)
    ensures Start(root, node) <= Start(root, leaf)
    ensures Start(root, leaf) + Pow2(Order(root, leaf)) <= Start(root, node) + Pow2(Order(root, node))
    decreases Order(root, node)
  {
    if t[node] != SPLIT {
      return node;
    }
    assert LiveAs(t, node, SPLIT);
    ChildStarts(root, node);
    ChildOrders(root, node);
    ParentOfChildren(node);
    hide Start, Pow2, NodeCount;
    if page < Start(root, NodeRight(node)) {
      leaf := LeafBelow(root, t, NodeLeft(node), page);
    } else {
      leaf := LeafBelow(root, t, NodeRight(node), page);
    }
  }

  /** The live leaves tile the pool: each page lies in exactly one of them. */
  lemma LeavesTile(root: nat, t: seq<Mark>, page: nat)
    requires |t| == NodeCount(root) && SplitsHaveChildren(root, t) && page < Pow2(root)
    ensures exists leaf ::
              && LiveLeaf(t, leaf) && Covers(root, leaf, page)
              && forall other :: LiveLeaf(t, other) && Covers(root, other, page) ==> other == leaf
  {
    DepthInTree(root, 0);
    var leaf := LeafBelow(root, t, 0, page);
    forall other | LiveLeaf(t, other) && Covers(root, other, page)
      ensures other == leaf
    {
      LeafUnique(root, t, other, leaf, page);
    }
  }
}
