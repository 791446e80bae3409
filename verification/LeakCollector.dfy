/** src/debug.c: the table of leaks and the walks that fill it. The walks only read the
    allocator's state. */
module LeakCollector {
  import opened Words
  import opened BuddyTree
  import opened BuddyTheorems
  import opened BuddyLayout
  import opened SlabLayout
  import opened Arena
  import opened ArenaBlocks
  import opened ArenaSlabs
  import opened Sigma
  import opened ArenaCalls
  import opened SigmaTheorems
  import opened Leaks

  /** What fits the table. */
  function Capped(s: seq<nat>): seq<nat> {
    if |s| <= MAX_LEAKS then s else s[..MAX_LEAKS]
  }

  function SizesOf(s: Sigma, xs: seq<nat>): (r: seq<nat>)
    ensures |r| == |xs| && forall i :: 0 <= i < |xs| ==> r[i] == LeakSize(s, xs[i])
  {
    seq(|xs|, i requires 0 <= i < |xs| => LeakSize(s, xs[i]))
  }

  lemma CappedAppend(a: seq<nat>, b: seq<nat>)
    ensures Capped(Capped(a) + b) == Capped(a + b)
  {
    if |a| <= MAX_LEAKS {
    } else {
      assert (Capped(a) + b)[..MAX_LEAKS] == a[..MAX_LEAKS] == (a + b)[..MAX_LEAKS];
    }
  }

  lemma CappedTwice(s: Sigma, view: seq<nat>, xs: seq<nat>, ys: seq<nat>)
    ensures Capped(Capped(view + SizesOf(s, xs)) + SizesOf(s, ys)) == Capped(view + SizesOf(s, xs + ys))
  {
    CappedAppend(view + SizesOf(s, xs), SizesOf(s, ys));
    assert view + SizesOf(s, xs) + SizesOf(s, ys) == view + SizesOf(s, xs + ys);
  }

  /** is_ptr_in_freelist: following the links from the head meets exactly the list. */
  method IsInFreelist(word: map<nat, nat>, head: nat, ghost list: seq<nat>, x: nat) returns (found: bool)
    requires Chain(word, head, list) && x != 0
    ensures found <==> x in list
  {
    var node := head;
    ghost var i := 0;
    while node != 0
      invariant 0 <= i <= |list| && node == (if i < |list| then list[i] else 0) && x !in list[..i]
      decreases |list| - i
    {
      if node == x {
        return true;
      }
      node := word[node];
      i := i + 1;
    }
    assert list[..i] == list;
    return false;
  }

  /** `x` is one of the two objects behind the large allocation `u`. */
  predicate Tracks(s: Sigma, u: nat, x: nat) {
    u in s.large && (s.large[u].node == x || s.large[u].meta == x)
  }

  /** The scan of the large list for the bookkeeping objects. */
  method IsTracking(s: Sigma, x: nat) returns (found: bool)
    requires SigmaInv(s)
    ensures found <==> x in Infra(s)
  {
    hide SigmaInv, Infra, Tracks;
    OrderIsLarge(s);
    InfraByOrder(s, x);
    for i := 0 to |s.order|
      invariant forall k :: 0 <= k < i ==> !Tracks(s, s.order[k], x)
    {
      if Tracks(s, s.order[i], x) {
        return true;
      }
    }
    return false;
  }

  lemma InfraByOrder(s: Sigma, x: nat)
    requires forall u: nat :: u in s.order <==> u in s.large
    ensures x in Infra(s) <==> exists k :: 0 <= k < |s.order| && Tracks(s, s.order[k], x)
  {
    if x in Infra(s) {
      var u :| u in s.large && (s.large[u].node == x || s.large[u].meta == x);
      var k :| 0 <= k < |s.order| && s.order[k] == u;
    }
  }

  /** A slot that leaks is reported with the object size of its cache. */
  lemma SlotSize(s: Sigma, r: nat, x: nat)
    requires SigmaInv(s) && SlotLeaks(s, r, x) && s.local.arena.slabs[r].cls < NUM_CACHES
    ensures LeakSize(s, x) == SIZE_CLASSES[s.local.arena.slabs[r].cls]
  {
    InvShape(s);
    SlotHeader(s.local.arena, r, x);
    if x in s.large {
      LargeNotOut(s, x);
    }
  }

  lemma SlotHeader(a: Arena, r: nat, x: nat)
    requires ArenaInv(a) && r in a.slabs && x in SlotsOf(a, r) && x !in a.slabs[r].free
    ensures IsOut(a, x) && a.headers[x].SlabHeader? && a.headers[x].slab == r
  {
    hide Taken, BlockAt, SlotsOf, FreeListOk, RegionOk, BlocksOk, ExtentsOk, CachesOk, AlignUp, SizeToOrder,
      Sizes.Capacity, Sizes.Plausible;
    SlabFacts(a, r);
  }

  lemma SlotIsSlot(s: Sigma, r: nat, j: nat)
    requires SigmaInv(s) && r in s.local.arena.slabs && s.local.arena.slabs[r].cls < NUM_CACHES
    requires s.local.arena.sizes.Plausible()
    requires j < s.local.arena.sizes.Capacity(s.local.arena.slabs[r].cls)
    ensures s.local.arena.sizes.Slot(r, s.local.arena.slabs[r].cls, j) in SlotsOf(s.local.arena, r)
  {
    hide SigmaInv, Sizes.Capacity, Sizes.Slot;
    var sz, c := s.local.arena.sizes, s.local.arena.slabs[r].cls;
    CarvedIndex(sz, r, c, sz.Capacity(c), sz.Slot(r, c, j));
  }

  lemma SlabShape(s: Sigma, r: nat)
    requires SigmaInv(s) && r in s.local.arena.slabs
    ensures ArenaInv(s.local.arena) && s.local.arena.slabs[r].cls < NUM_CACHES && s.local.arena.sizes.Plausible()
    ensures Chain(s.local.arena.word, s.local.arena.slabs[r].head, s.local.arena.slabs[r].free)
  {
    hide BlocksOk, ExtentsOk, CachesOk, LargesOk, ExtentsApart, RegionOk, UsedHeadersOk, Sizes.Capacity;
    SlabFacts(s.local.arena, r);
  }

  class LeakTable {
    var leaks: array<nat>
    var count: nat

    ghost predicate Valid()
      reads this
    {
      leaks.Length == MAX_LEAKS && count <= MAX_LEAKS
    }

    ghost function View(): seq<nat>
      reads this, leaks
      requires Valid()
    {
      leaks[..count]
    }

    constructor ()
      ensures Valid() && fresh(leaks) && View() == []
    {
      leaks := new nat[MAX_LEAKS](_ => 0);
      count := 0;
    }

    /** leak_push: what does not fit is dropped. */
    method Push(size: nat)
      requires Valid()
      modifies this`count, leaks
      ensures Valid() && View() == Capped(old(View()) + [size])
    {
      if count < MAX_LEAKS {
        leaks[count] := size;
        count := count + 1;
      } else {
        assert (View() + [size])[..MAX_LEAKS] == View();
      }
    }

    /** One slot: pushed unless it is free or a bookkeeping object. */
    method CollectSlot(s: Sigma, r: nat, c: nat, j: nat)
      requires Valid() && SigmaInv(s) && r in s.local.arena.slabs && s.local.arena.slabs[r].cls == c && c < NUM_CACHES
      requires s.local.arena.sizes.Plausible() && j < s.local.arena.sizes.Capacity(c)
      modifies this`count, leaks
      ensures Valid()
      ensures var x := s.local.arena.sizes.Slot(r, c, j);
              View() == if x !in s.local.arena.slabs[r].free && x !in Infra(s)
                then Capped(old(View()) + [LeakSize(s, x)]) else old(View())
    {
      hide SigmaInv, Infra, Sizes.Plausible, Sizes.Capacity, Sizes.Slot, SlotsOf, Chain, LeakSize, Core;
      SlabShape(s, r);
      SlotIsSlot(s, r, j);
      var user := s.local.arena.sizes.Slot(r, c, j);
      SlotPositive(s, r, user);
      var free := IsInFreelist(s.local.arena.word, s.local.arena.slabs[r].head, s.local.arena.slabs[r].free, user);
      if !free {
        var tracking := IsTracking(s, user);
        if !tracking {
          SlotSize(s, r, user);
          Push(SIZE_CLASSES[c]);
        }
      }
    }

    /** The slots of one slab, in address order. */
    method CollectSlab(s: Sigma, r: nat, c: nat)
      requires Valid() && SigmaInv(s) && r in s.local.arena.slabs && s.local.arena.slabs[r].cls == c && c < NUM_CACHES
      modifies this`count, leaks
      ensures Valid() && View() == Capped(old(View()) + SizesOf(s, SlabLeaked(s, r)))
    {
      hide SigmaInv, Infra, Sizes.Plausible, Sizes.Capacity, Sizes.Slot, SlotsOf, Chain, LeakSize, Core, SlotsLeaked,
        SizesOf, Capped;
      SlabShape(s, r);
      ghost var before := View();
      NothingYet(s, this);
      StartOfSlab(s, r);
      for j := 0 to s.local.arena.sizes.Capacity(c)
        invariant Valid() && View() == Capped(before + SizesOf(s, SlotsLeaked(s, r, j)))
      {
        CollectSlot(s, r, c, j);
        SlotAdded(s, r, j, before);
      }
    }

    /** One list of slabs, all of cache `c`; `before` and `rs` are what came earlier. */
    method CollectList(s: Sigma, c: nat, list: seq<nat>, ghost before: seq<nat>, ghost rs: seq<nat>)
      requires Valid() && SigmaInv(s) && c < NUM_CACHES && View() == Capped(before + SizesOf(s, SlabsLeaked(s, rs)))
      requires forall r <- list :: r in s.local.arena.slabs && s.local.arena.slabs[r].cls == c
      modifies this`count, leaks
      ensures Valid() && View() == Capped(before + SizesOf(s, SlabsLeaked(s, rs + list)))
    {
      hide SigmaInv, SlabLeaked, SlabsLeaked, SizesOf, Capped, LeakSize;
      assert rs + list[..0] == rs;
      for i := 0 to |list|
        invariant Valid() && View() == Capped(before + SizesOf(s, SlabsLeaked(s, rs + list[..i])))
      {
        InList(s, c, list, i);
        CollectSlab(s, list[i], c);
        SlabAdded(s, rs + list[..i], list[i], before);
        assert rs + list[..i + 1] == rs + list[..i] + [list[i]];
      }
      assert list[..|list|] == list;
    }

    /** collect_slab_leaks: for every cache its partial and then its full slabs. */
    method CollectSlabs(s: Sigma)
      requires Valid() && SigmaInv(s) && |s.local.arena.partial| == |s.local.arena.full| == NUM_CACHES
      modifies this`count, leaks
      ensures Valid()
      ensures View() == Capped(old(View()) + SizesOf(s, SlabsLeaked(s, SlabOrder(s.local.arena, NUM_CACHES))))
    {
      hide SigmaInv, SlabLeaked, SlabsLeaked, SizesOf, Capped, LeakSize, SlabOrder;
      ghost var before := View();
      NothingYet(s, this);
      FirstCaches(s);
      for c := 0 to NUM_CACHES
        invariant Valid() && View() == Capped(before + SizesOf(s, SlabsLeaked(s, SlabOrder(s.local.arena, c))))
      {
        ListedClasses(s, c);
        CollectList(s, c, s.local.arena.partial[c], before, SlabOrder(s.local.arena, c));
        CollectList(s, c, s.local.arena.full[c], before, SlabOrder(s.local.arena, c) + s.local.arena.partial[c]);
        NextCache(s.local.arena, c);
      }
    }

    /** traverse_buddy_nodes from a live node. */
    method TraverseBuddyNodes(s: Sigma, e: nat, node: nat, order: nat)
      requires Valid() && SigmaInv(s) && e in s.local.arena.pools && PoolOk(s.local.arena, e)
      requires node < NodeCount(s.local.arena.sizes.root) && Live(s.local.arena.pools[e].tree, node)
      requires order == Order(s.local.arena.sizes.root, node)
      modifies this`count, leaks
      ensures Valid()
      ensures View()
                == Capped(old(View())
                          + SizesOf(s, NodesLeaked(s.local.arena, e,
                                                   Leaves(s.local.arena.sizes.root, s.local.arena.pools[e].tree, node,
                                                          FULL))))
      decreases order
    {
      hide SigmaInv, NodeLeaked, SizesOf, Capped, LeakSize, Live, Depth, Pow2, Order, NodesLeaked;
      var root, tree := s.local.arena.sizes.root, s.local.arena.pools[e].tree;
      ghost var before := View();
      NothingYet(s, this);
      NodesOf(s, e, node);
      var mark := tree[node];
      if mark == FULL {
        FullIsTaken(s, e, node);
        var user := s.local.arena.back[BlockAt(e, root, node)];
        var h := s.local.arena.headers[user];
        if Order(root, h.node) == order && !h.isSlabRegion {
          BlockLeaks(s, user);
          Push(h.size);
        }
        return;
      }
      if mark == SPLIT && order > 0 {
        ChildrenLive(s.local.arena, e, node);
        TraverseBuddyNodes(s, e, NodeLeft(node), order - 1);
        TraverseBuddyNodes(s, e, NodeRight(node), order - 1);
        ghost var l, r := Leaves(root, tree, NodeLeft(node), FULL), Leaves(root, tree, NodeRight(node), FULL);
        NodesAppend(s.local.arena, e, l, r);
        CappedTwice(s, before, NodesLeaked(s.local.arena, e, l), NodesLeaked(s.local.arena, e, r));
      }
    }

    /** collect_arena_buddy_leaks: the extents in list order. */
    method CollectExtents(s: Sigma)
      requires Valid() && SigmaInv(s)
      modifies this`count, leaks
      ensures Valid() && View() == Capped(old(View()) + SizesOf(s, ExtentsLeaked(s.local.arena, s.local.arena.extents)))
    {
      hide SigmaInv, SizesOf, Capped, LeakSize, Live, ExtentsLeaked, ExtentLeaked, Order, NodesLeaked, Leaves;
      ghost var before := View();
      NothingYet(s, this);
      var es := s.local.arena.extents;
      assert es[..0] == [];
      NoExtents(s.local.arena);
      for i := 0 to |es|
        invariant Valid() && View() == Capped(before + SizesOf(s, ExtentsLeaked(s.local.arena, es[..i])))
      {
        ExtentWalk(s, i);
        TraverseBuddyNodes(s, es[i], 0, s.local.arena.sizes.root);
        ExtentAdded(s, es[..i], es[i], before);
        assert es[..i + 1] == es[..i] + [es[i]];
      }
      assert es[..|es|] == es;
    }

    /** collect_large_leaks: the debug list of large allocations. */
    method CollectLarge(s: Sigma)
      requires Valid() && SigmaInv(s)
      modifies this`count, leaks
      ensures Valid() && View() == Capped(old(View()) + SizesOf(s, s.order))
    {
      hide SigmaInv, SizesOf, Capped;
      ghost var before := View();
      NothingYet(s, this);
      OrderIsLarge(s);
      assert s.order[..0] == [];
      for i := 0 to |s.order|
        invariant Valid() && View() == Capped(before + SizesOf(s, s.order[..i]))
      {
        assert s.order[i] in s.order;
        Push(s.large[s.order[i]].size);
        OneMore(s, s.order[..i], s.order[i], before);
        assert s.order[..i + 1] == s.order[..i] + [s.order[i]];
      }
      assert s.order[..|s.order|] == s.order;
    }

    /** sigma_debug_collect_leaks: the table afterwards holds the sizes of the first 4096
        pointers met, and its count is how many users hold and other threads have pushed,
        up to 4096. */
    method CollectLeaks(s: Sigma) returns (n: nat)
      requires Valid() && SigmaInv(s)
      modifies this`count, leaks
      ensures Valid()
      ensures |s.local.arena.partial| == |s.local.arena.full| == NUM_CACHES
      ensures var sizes := SizesOf(s, AllLeaked(s)); View() == if |sizes| <= 4096 then sizes else sizes[..4096]
      ensures var met := |Users(s)| + |s.local.stack|; n == count == if met <= 4096 then met else 4096
    {
      hide SigmaInv, SlabsLeaked, SlabOrder, ExtentsLeaked, Users, LeakSize, SizesOf, Capped;
      CollectorExact(s);
      count := 0;
      for i := 0 to leaks.Length
        invariant count == 0
      {
        leaks[i] := 0;
      }
      assert View() == [];
      CollectSlabs(s);
      CollectExtents(s);
      CollectLarge(s);
      ghost var a := SlabsLeaked(s, SlabOrder(s.local.arena, NUM_CACHES));
      ghost var b := ExtentsLeaked(s.local.arena, s.local.arena.extents);
      CappedTwice(s, [], a, b);
      CappedTwice(s, [], a + b, s.order);
      CappedFromNothing(s, AllLeaked(s));
      n := count;
    }
  }

  lemma NothingYet(s: Sigma, t: LeakTable)
    requires t.Valid()
    ensures t.View() == Capped(t.View() + SizesOf(s, []))
  {
    assert SizesOf(s, []) == [] && t.View() + [] == t.View();
  }

  lemma StartOfSlab(s: Sigma, r: nat)
    requires r in s.local.arena.slabs && s.local.arena.slabs[r].cls < NUM_CACHES
    ensures SlotsLeaked(s, r, 0) == []
  {
  }

  /** One more slot of the walk. */
  lemma SlotAdded(s: Sigma, r: nat, j: nat, before: seq<nat>)
    requires r in s.local.arena.slabs && s.local.arena.slabs[r].cls < NUM_CACHES
    ensures var x := s.local.arena.sizes.Slot(r, s.local.arena.slabs[r].cls, j);
            var view := Capped(before + SizesOf(s, SlotsLeaked(s, r, j)));
            Capped(before + SizesOf(s, SlotsLeaked(s, r, j + 1)))
            == if x !in s.local.arena.slabs[r].free && x !in Infra(s) then Capped(view + [LeakSize(s, x)]) else view
  {
    hide Infra, Sizes.Slot, LeakSize, Capped;
    var x := s.local.arena.sizes.Slot(r, s.local.arena.slabs[r].cls, j);
    var done := SlotsLeaked(s, r, j);
    assert done + [] == done;
    CappedTwice(s, before, done, [x]);
    assert SizesOf(s, [x]) == [LeakSize(s, x)];
  }

  lemma CappedFromNothing(s: Sigma, xs: seq<nat>)
    ensures Capped([] + SizesOf(s, xs)) == if |xs| <= 4096 then SizesOf(s, xs) else SizesOf(s, xs)[..4096]
  {
    assert [] + SizesOf(s, xs) == SizesOf(s, xs);
  }

  lemma OneMore(s: Sigma, xs: seq<nat>, x: nat, before: seq<nat>)
    ensures Capped(before + SizesOf(s, xs + [x])) == Capped(Capped(before + SizesOf(s, xs)) + [LeakSize(s, x)])
  {
    hide LeakSize, Capped;
    CappedTwice(s, before, xs, [x]);
    assert SizesOf(s, [x]) == [LeakSize(s, x)];
  }

  lemma InList(s: Sigma, c: nat, list: seq<nat>, i: nat)
    requires i < |list| && forall r <- list :: r in s.local.arena.slabs && s.local.arena.slabs[r].cls == c
    ensures list[i] in s.local.arena.slabs && s.local.arena.slabs[list[i]].cls == c
  {
  }

  lemma SlabAdded(s: Sigma, rs: seq<nat>, r: nat, before: seq<nat>)
    ensures Capped(before + SizesOf(s, SlabsLeaked(s, rs + [r])))
            == Capped(Capped(before + SizesOf(s, SlabsLeaked(s, rs))) + SizesOf(s, SlabLeaked(s, r)))
  {
    hide SlabLeaked, SizesOf, Capped;
    assert (rs + [r])[..|rs|] == rs;
    CappedTwice(s, before, SlabsLeaked(s, rs), SlabLeaked(s, r));
  }

  lemma FirstCaches(s: Sigma)
    requires |s.local.arena.partial| == |s.local.arena.full| == NUM_CACHES
    ensures SlabsLeaked(s, SlabOrder(s.local.arena, 0)) == []
  {
  }

  lemma NextCache(a: Arena, c: nat)
    requires c < NUM_CACHES && |a.partial| == |a.full| == NUM_CACHES
    ensures SlabOrder(a, c + 1) == SlabOrder(a, c) + a.partial[c] + a.full[c]
  {
  }

  lemma ListedClasses(s: Sigma, c: nat)
    requires SigmaInv(s) && c < NUM_CACHES
    ensures |s.local.arena.partial| == |s.local.arena.full| == NUM_CACHES
    ensures forall r <- s.local.arena.partial[c] :: r in s.local.arena.slabs && s.local.arena.slabs[r].cls == c
    ensures forall r <- s.local.arena.full[c] :: r in s.local.arena.slabs && s.local.arena.slabs[r].cls == c
  {
    hide SlabsOk, BlocksOk, ExtentsOk, LargesOk, ExtentsApart, IsFull;
  }

  /** The tree of an extent's pool has the shape its root order says. */
  predicate PoolOk(a: Arena, e: nat)
    requires e in a.pools
  {
    |a.pools[e].tree| == NodeCount(a.sizes.root) > 0
  }

  /** What the walk below `node` comes upon. */
  lemma NodesOf(s: Sigma, e: nat, node: nat)
    requires e in s.local.arena.pools && PoolOk(s.local.arena, e) && node < NodeCount(s.local.arena.sizes.root)
    ensures var (root, tree) := (s.local.arena.sizes.root, s.local.arena.pools[e].tree);
            && (tree[node] == FULL ==>
                  NodesLeaked(s.local.arena, e, Leaves(root, tree, node, FULL)) == NodeLeaked(s.local.arena, e, node))
            && (!(tree[node] == SPLIT && Order(root, node) > 0) && tree[node] != FULL ==>
                  NodesLeaked(s.local.arena, e, Leaves(root, tree, node, FULL)) == [])
  {
    hide NodeLeaked, Order;
    var n := NodeLeaked(s.local.arena, e, node);
    assert n + NodesLeaked(s.local.arena, e, []) == n;
    assert NodesLeaked(s.local.arena, e, [node]) == n;
  }

  /** A live FULL node is a taken block: its back pointer leads to a header of its own. */
  lemma FullIsTaken(s: Sigma, e: nat, node: nat)
    requires SigmaInv(s) && e in s.local.arena.pools && PoolOk(s.local.arena, e)
    requires node < NodeCount(s.local.arena.sizes.root)
    requires Live(s.local.arena.pools[e].tree, node) && s.local.arena.pools[e].tree[node] == FULL
    ensures var block := BlockAt(e, s.local.arena.sizes.root, node);
            && block in s.local.arena.back && s.local.arena.back[block] in s.local.arena.headers
            && s.local.arena.headers[s.local.arena.back[block]].BuddyHeader?
            && s.local.arena.headers[s.local.arena.back[block]].node == node
            && NodeLeaked(s.local.arena, e, node)
                 == (if s.local.arena.headers[s.local.arena.back[block]].isSlabRegion then []
                     else [s.local.arena.back[block]])
            && (!s.local.arena.headers[s.local.arena.back[block]].isSlabRegion ==>
                  BlockUser(s.local.arena, s.local.arena.back[block]))
  {
    assert Taken(s.local.arena, e, node);
    assert BlockOk(s.local.arena, e, node);
    hide Taken, BlockAt, BlockSize, Placed, ExtentsOk, SlabsOk, CachesOk, LargesOk, ExtentsApart, Order;
  }

  lemma BlockLeaks(s: Sigma, x: nat)
    requires SigmaInv(s) && BlockUser(s.local.arena, x)
    ensures LeakSize(s, x) == s.local.arena.headers[x].size
    ensures SizesOf(s, [x]) == [s.local.arena.headers[x].size]
  {
    OutHasHeader(s.local.arena);
    hide SigmaInv, IsOut;
    if x in s.large {
      LargeNotOut(s, x);
    }
  }

  lemma ChildrenLive(a: Arena, e: nat, node: nat)
    requires e in a.pools && PoolOk(a, e) && node < NodeCount(a.sizes.root) && Live(a.pools[e].tree, node)
    requires a.pools[e].tree[node] == SPLIT && Order(a.sizes.root, node) > 0
    ensures var (l, r) := (NodeLeft(node), NodeRight(node));
            && l < NodeCount(a.sizes.root) && r < NodeCount(a.sizes.root)
            && Live(a.pools[e].tree, l) && Live(a.pools[e].tree, r)
            && Order(a.sizes.root, l) == Order(a.sizes.root, r) == Order(a.sizes.root, node) - 1
            && Leaves(a.sizes.root, a.pools[e].tree, node, FULL)
               == Leaves(a.sizes.root, a.pools[e].tree, l, FULL) + Leaves(a.sizes.root, a.pools[e].tree, r, FULL)
  {
    hide Order, NodeCount, Pow2, Depth;
    ChildOrders(a.sizes.root, node);
    ParentOfChildren(node);
    LiveBelow(a.pools[e].tree, node);
    LeavesBelow(a, e, node);
    hide Leaves, Live;
  }

  lemma LiveBelow(tree: seq<Mark>, node: nat)
    requires NodeRight(node) < |tree| && Live(tree, node) && tree[node] == SPLIT
    ensures Live(tree, NodeLeft(node)) && Live(tree, NodeRight(node))
  {
    ParentOfChildren(node);
  }

  lemma LeavesBelow(a: Arena, e: nat, node: nat)
    requires e in a.pools && PoolOk(a, e) && node < NodeCount(a.sizes.root)
    requires a.pools[e].tree[node] == SPLIT && Order(a.sizes.root, node) > 0
    ensures NodeLeft(node) < NodeCount(a.sizes.root) && NodeRight(node) < NodeCount(a.sizes.root)
    ensures Leaves(a.sizes.root, a.pools[e].tree, node, FULL)
            == Leaves(a.sizes.root, a.pools[e].tree, NodeLeft(node), FULL)
              + Leaves(a.sizes.root, a.pools[e].tree, NodeRight(node), FULL)
  {
    hide Order, NodeCount;
    ChildOrders(a.sizes.root, node);
  }

  lemma {:induction false} NodesAppend(a: Arena, e: nat, xs: seq<nat>, ys: seq<nat>)
    ensures NodesLeaked(a, e, xs + ys) == NodesLeaked(a, e, xs) + NodesLeaked(a, e, ys)
  {
    hide NodeLeaked;
    if xs == [] {
      assert xs + ys == ys;
    } else {
      assert (xs + ys)[1..] == xs[1..] + ys;
      NodesAppend(a, e, xs[1..], ys);
    }
  }

  lemma NoExtents(a: Arena)
    ensures ExtentsLeaked(a, []) == []
  {
  }

  lemma ExtentWalk(s: Sigma, i: nat)
    requires SigmaInv(s) && i < |s.local.arena.extents|
    ensures var e := s.local.arena.extents[i];
            && e in s.local.arena.pools && PoolOk(s.local.arena, e) && Live(s.local.arena.pools[e].tree, 0)
            && 0 < NodeCount(s.local.arena.sizes.root) && Order(s.local.arena.sizes.root, 0) == s.local.arena.sizes.root
            && ExtentLeaked(s.local.arena, e)
                 == NodesLeaked(s.local.arena, e,
                                Leaves(s.local.arena.sizes.root, s.local.arena.pools[e].tree, 0, FULL))
  {
    InvShape(s);
    ExtentsAreListed(s.local.arena);
    assert s.local.arena.extents[i] in s.local.arena.extents;
    PoolShape(s.local.arena, s.local.arena.extents[i]);
  }

  lemma ExtentAdded(s: Sigma, es: seq<nat>, e: nat, before: seq<nat>)
    ensures Capped(before + SizesOf(s, ExtentsLeaked(s.local.arena, es + [e])))
            == Capped(Capped(before + SizesOf(s, ExtentsLeaked(s.local.arena, es)))
                      + SizesOf(s, ExtentLeaked(s.local.arena, e)))
  {
    hide ExtentLeaked, SizesOf, Capped;
    assert (es + [e])[..|es|] == es;
    CappedTwice(s, before, ExtentsLeaked(s.local.arena, es), ExtentLeaked(s.local.arena, e));
  }

  lemma SlotPositive(s: Sigma, r: nat, x: nat)
    requires r in s.local.arena.slabs && x in SlotsOf(s.local.arena, r)
    ensures x > 0
  {
    SlotFacts(s.local.arena.sizes, r, s.local.arena.slabs[r].cls, x);
  }
}
