/** When buddy_alloc answers, in terms of the blocks it has handed out, and which block it
    takes: the condition mentions neither the free lists nor the search. */
module BuddyAnswers {
  import opened Words
  import opened BuddyTree
  import opened BuddySpec
  import opened BuddyTheorems
  import opened BuddyLayout

  // ------------------------------------------------------------------ room

  /** No block that is handed out shares a page with block `m`. */
  ghost predicate Untouched(p: Pool, m: nat)
    requires Shape(p) && m < |p.tree|
  {
    forall f <- Fulls(p) :: !Overlap(p.root, m, f)
  }

  /** Some naturally aligned block of at least `bytes` is untouched. */
  ghost predicate PoolRoom(p: Pool, bytes: nat)
    requires Shape(p)
  {
    exists m: nat :: m < |p.tree| && bytes <= BlockBytes(Order(p.root, m)) && Untouched(p, m)
  }

  /** Half of an untouched block is untouched. */
  lemma HalfUntouched(p: Pool, m: nat)
    requires Shape(p) && m < |p.tree| && Order(p.root, m) > 0 && Untouched(p, m)
    ensures NodeLeft(m) < |p.tree| && Order(p.root, NodeLeft(m)) == Order(p.root, m) - 1 && Untouched(p, NodeLeft(m))
  {
    ChildOrders(p.root, m);
    ChildStarts(p.root, m);
    hide Start, Depth, Order, NodeCount, Live;
    forall f <- Fulls(p)
      ensures !Overlap(p.root, NodeLeft(m), f)
    {
      assert !Overlap(p.root, m, f);
      SmallerPow2(Order(p.root, m));
    }
  }

  lemma SmallerPow2(k: nat)
    requires k > 0
    ensures Pow2(k - 1) <= Pow2(k)
  {
  }

  lemma {:induction false} RoomBelow(p: Pool, m: nat, target: nat) returns (n: nat)
    requires Shape(p) && m < |p.tree| && target <= Order(p.root, m) && Untouched(p, m)
    ensures n < |p.tree| && Order(p.root, n) == target && Untouched(p, n)
    decreases Order(p.root, m)
  {
    if target == Order(p.root, m) {
      return m;
    }
    HalfUntouched(p, m);
    hide Untouched, Order, NodeCount;
    n := RoomBelow(p, NodeLeft(m), target);
  }

  /** A pool answers a request if and only if some naturally aligned block that holds it,
      header, back pointer and alignment slack included, is untouched. */
  lemma PoolServesIff(p: Pool, header: nat, size: nat, alignment: nat)
    requires Inv(p) && PoolFits(p.root, header) && size < WORD && alignment < WORD && AlignmentIsValid(alignment)
    ensures alignment > 0
    ensures Alloc(p, SizeToOrder(p.root, header, size, alignment)).1.Some?
            <==> PoolRoom(p, Footprint(size, header, alignment))
  {
    hide Inv, Alloc, SizeToOrder, AlignmentIsValid, BlockBytes, Footprint, Fulls, Order, NodeCount;
    InvShape(p);
    OrderIsLeast(p.root, header, size, alignment);
    var target := SizeToOrder(p.root, header, size, alignment);
    var bytes := Footprint(size, header, alignment);
    if Alloc(p, target).1.Some? {
      ServedInRange(p, target);
      ServedIsUntouched(p, target);
      assert PoolRoom(p, bytes);
    } else if PoolRoom(p, bytes) {
      var m: nat :| m < |p.tree| && bytes <= BlockBytes(Order(p.root, m)) && Untouched(p, m);
      OrderInRoot(p.root, m);
      HoldsFromTarget(p.root, target, Order(p.root, m), bytes);
      var n := RoomBelow(p, m, target);
      AllocFailsIff(p, target);
      assert false;
    }
  }

  lemma InvShape(p: Pool)
    requires Inv(p)
    ensures Shape(p)
  {
  }

  lemma OrderInRoot(root: nat, m: nat)
    requires m < NodeCount(root)
    ensures Order(root, m) <= root
  {
  }

  lemma ServedInRange(p: Pool, target: nat)
    requires Inv(p) && Alloc(p, target).1.Some?
    ensures target <= p.root
  {
  }

  lemma ServedIsUntouched(p: Pool, target: nat)
    requires Inv(p) && Shape(p) && target <= p.root && Alloc(p, target).1.Some?
    ensures var n := Alloc(p, target).1.value; n < |p.tree| && Order(p.root, n) == target && Untouched(p, n)
  {
    hide Alloc, Order, NodeCount, Overlap;
    AllocSound(p, target);
    var (q, r) := Alloc(p, target);
    forall f <- Fulls(p)
      ensures !Overlap(p.root, r.value, f)
    {
      OutstandingDisjoint(q, r.value, f);
    }
  }

  /** Blocks that hold the request have at least the order that is looked for. */
  lemma HoldsFromTarget(root: nat, target: nat, order: nat, bytes: nat)
    requires order <= root && bytes <= BlockBytes(order)
    requires target <= root <==> bytes <= BlockBytes(root)
    requires target <= root && target > 0 ==> BlockBytes(target - 1) < bytes
    ensures target <= order
  {
    if order < root {
      BlockBytesMonotone(order, root);
    }
    if order < target - 1 {
      BlockBytesMonotone(order, target - 1);
    }
  }

  // ----------------------------------------------------------------- frees

  /** A free takes nothing that is untouched away. */
  lemma FreeKeepsRoom(p: Pool, n: nat, bytes: nat)
    requires Inv(p) && n in Fulls(p)
    ensures Shape(p) && Shape(Free(p, n)) && (PoolRoom(p, bytes) ==> PoolRoom(Free(p, n), bytes))
  {
    hide Inv, Free, Order, BlockBytes, Overlap, NodeCount;
    FreeSound(p, n);
    InvShape(p);
    InvShape(Free(p, n));
    var q := Free(p, n);
    FreeSameShape(p, n);
    if PoolRoom(p, bytes) {
      var m: nat :| m < |p.tree| && bytes <= BlockBytes(Order(p.root, m)) && Untouched(p, m);
      assert Untouched(q, m);
    }
  }

  lemma FreeSameShape(p: Pool, n: nat)
    requires Inv(p) && n in Fulls(p)
    ensures Free(p, n).root == p.root && |Free(p, n).tree| == |p.tree|
  {
    FreeSound(p, n);
  }

  /** What was freed is room. */
  lemma FreedIsRoom(p: Pool, n: nat, bytes: nat)
    requires Inv(p) && n in Fulls(p) && n < NodeCount(p.root) && bytes <= BlockBytes(Order(p.root, n))
    ensures Shape(Free(p, n)) && PoolRoom(Free(p, n), bytes)
  {
    hide Inv, Free, Order, BlockBytes, Overlap, NodeCount;
    FreeSound(p, n);
    InvShape(p);
    InvShape(Free(p, n));
    FreeSameShape(p, n);
    forall f <- Fulls(Free(p, n))
      ensures !Overlap(p.root, n, f)
    {
      OutstandingDisjoint(p, n, f);
    }
    assert Untouched(Free(p, n), n);
  }

  // ------------------------------------------------------ the block taken

  /** Splitting leaves every mark outside the block alone and goes for its start. */
  lemma {:induction false} SplitDownInside(p: Pool, n: nat, order: nat, target: nat)
    requires OnRow(p, n, order) && target <= order
    ensures var (q, m) := SplitDown(p, n, order, target);
            && Below(n, m) && |q.tree| == |p.tree| && (order == target ==> m == n && q == p)
            && forall k: nat :: k < |p.tree| && !Below(n, k) ==> q.tree[k] == p.tree[k]
    decreases order
  {
    if order > target {
      ChildOrders(p.root, n);
      ParentOfChildren(n);
      hide Order, NodeCount, Depth, Pow2;
      var l, s := NodeLeft(n), SplitOnce(p, n, order);
      SplitDownInside(s, l, order - 1, target);
      var (q, m) := SplitDown(p, n, order, target);
      BelowChild(n, l, m);
      forall k: nat | k < |p.tree| && !Below(n, k)
        ensures q.tree[k] == p.tree[k]
      {
        BelowChild(n, l, k);
        BelowChild(n, NodeRight(n), NodeRight(n));
      }
    }
  }

  /** `n` is a free block of the least order that serves. */
  ghost predicate LeastFree(p: Pool, n: nat, target: nat)
    requires Shape(p)
  {
    && n < |p.tree| && LiveAs(p.tree, n, FREE) && target <= Order(p.root, n)
    && forall k: nat :: k < |p.tree| && LiveAs(p.tree, k, FREE) && target <= Order(p.root, k) ==>
         Order(p.root, n) <= Order(p.root, k)
  }

  /** buddy_alloc takes the start of a free block of the least sufficient order, and touches
      no mark outside it; a free block of the very order asked for is not split. */
  lemma AllocTakesLeast(p: Pool, target: nat) returns (n: nat)
    requires Inv(p) && Alloc(p, target).1.Some?
    ensures Shape(p) && LeastFree(p, n, target)
    ensures var (q, r) := Alloc(p, target);
            && r.value < |p.tree| && |q.tree| == |p.tree|
            && Below(n, r.value) && Start(p.root, r.value) == Start(p.root, n)
            && (forall k: nat :: k < |p.tree| && !Below(n, k) ==> q.tree[k] == p.tree[k])
            && (Order(p.root, n) == target ==> r.value == n && q.tree == p.tree[n := FULL])
  {
    InvShape(p);
    var o := FirstNonEmpty(p.lists, target);
    n := p.lists[o][0];
    assert n in p.lists[o];
    Listed(p, o, n);
    LeastListed(p, o, n, target);
    var h := SetList(p, o, Without(p.lists[o], n));
    Take(p, n);
    assert SetMark(h, n, FULL) == SetList(SetMark(p, n, FULL), o, Without(p.lists[o], n));
    hide Inv, Live, Depth, Pow2, Order, NodeCount, Start, LeastFree;
    SplitDownSound(h, n, o, target);
    SplitDownInside(h, n, o, target);
  }

  lemma LeastListed(p: Pool, o: nat, n: nat, target: nat)
    requires Inv(p) && target <= p.root && o == FirstNonEmpty(p.lists, target) && o <= p.root && n in p.lists[o]
    ensures Shape(p) && LeastFree(p, n, target)
  {
    hide Live, Depth, Pow2;
    Listed(p, o, n);
    forall k: nat | k < |p.tree| && LiveAs(p.tree, k, FREE) && target <= Order(p.root, k)
      ensures o <= Order(p.root, k)
    {
      assert k in p.lists[Order(p.root, k)];
      OrderInRoot(p.root, k);
    }
  }
}
