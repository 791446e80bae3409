/** An extent of an arena with its pool as an object: what buddy_alloc and buddy_free do
    in place on marks, links, heads and headers is what the arena on values records. */
module ExtentPools {
  import opened Words
  import opened BuddyTree
  import opened BuddySpec
  import opened BuddyLayout
  import opened BuddyAddresses
  import BuddyHeap
  import opened Arena
  import opened ArenaOps
  import opened ArenaBlocks
  import opened ArenaFrees
  import opened SlabLayout

  type Pool = BuddyHeap.BuddyPool

  /** The object `p` is the pool of extent `e`, and agrees about who has which block. */
  ghost predicate Represents(p: Pool, a: Arena, e: nat)
    reads p, p.tree, p.heads
  {
    && p.Valid() && e in a.pools && p.View() == a.pools[e]
    && p.root == a.sizes.root && p.headerSize == a.sizes.buddyHeader && p.usable == e
    && forall n: nat :: Taken(a, e, n) ==>
         n in Fulls(p.View()) && BlockAt(e, a.sizes.root, n) in a.back
           && a.back[BlockAt(e, a.sizes.root, n)] == p.User(n)
  }

  lemma TakenAreFull(p: BuddySpec.Pool, a: Arena, e: nat)
    requires ExtentsOk(a) && e in a.pools && p == a.pools[e]
    ensures forall n: nat :: Taken(a, e, n) <==> n in Fulls(p)
  {
    hide Live, Order, Depth;
    forall n: nat
      ensures Taken(a, e, n) <==> n in Fulls(p)
    {
      if Taken(a, e, n) {
        TakenIsFull(a, e, n);
      }
    }
  }

  /** Whom the blocks of the extent belong to once a request has been placed in it. */
  lemma PlacedOwners(a: Arena, e: nat, size: nat, alignment: nat, isRegion: bool)
    requires ExtentsOk(a) && e in a.pools && 0 < alignment < WORD && size < WORD
    requires Serves(a, e, RequestOrder(a.sizes, size, alignment))
    ensures var (b, u) := PlaceIn(a, e, size, alignment, isRegion);
            && u in b.headers && b.headers[u].BuddyHeader?
            && var n := b.headers[u].node;
            && u > 0 && b.sizes == a.sizes && e in b.pools && ExtentsOk(b)
            && b.pools[e] == Alloc(a.pools[e], RequestOrder(a.sizes, size, alignment)).0
            && Alloc(a.pools[e], RequestOrder(a.sizes, size, alignment)).1 == Some(n) && n < NodeCount(a.sizes.root)
            && u == AlignUp(Address(a.sizes.root, e, n) + PTR_SIZE + a.sizes.buddyHeader, alignment)
            && BlockAt(e, a.sizes.root, n) in b.back && b.back[BlockAt(e, a.sizes.root, n)] == u
            && (forall m: nat :: Taken(b, e, m) && m != n ==>
                  Taken(a, e, m) && BlockAt(e, a.sizes.root, m) != BlockAt(e, a.sizes.root, n))
            && b.back.Keys >= a.back.Keys && forall x <- a.back :: x != BlockAt(e, a.sizes.root, n) ==>
                 b.back[x] == a.back[x]
  {
    hide BuddySpec.Inv, Alloc, SizeToOrder, AlignmentIsValid, Live, LiveAs, AlignUp, Order, RequestOrder;
    PlaceFacts(a, e, size, alignment, isRegion);
    var (b, u) := PlaceIn(a, e, size, alignment, isRegion);
    var n := b.headers[u].node;
    forall m: nat | Taken(b, e, m) && m != n
      ensures BlockAt(e, a.sizes.root, m) != BlockAt(e, a.sizes.root, n)
    {
      StartsInBlock(b, e, m);
      if BlockAt(e, a.sizes.root, m) == BlockAt(e, a.sizes.root, n) {
        TakenApart(b, e, m, e, n, BlockAt(e, a.sizes.root, n));
      }
    }
  }

  lemma RefusalKeeps(p: BuddySpec.Pool, target: nat)
    requires BuddySpec.Inv(p)
    ensures Alloc(p, target).1.None? ==> Alloc(p, target).0 == p
  {
  }

  lemma StartsInBlock(a: Arena, e: nat, n: nat)
    requires ExtentsOk(a) && Taken(a, e, n)
    ensures InBlock(a, e, n, BlockAt(e, a.sizes.root, n))
  {
    TakenIsFull(a, e, n);
    hide Pow2, Depth, Live;
  }

  /** The object after a request has been placed, seen from its fields. */
  lemma StillRepresents(p: Pool, a: Arena, b: Arena, e: nat, n: nat, u: nat)
    requires p.Valid() && e in b.pools && p.View() == b.pools[e] && ExtentsOk(b)
    requires p.root == b.sizes.root && p.headerSize == b.sizes.buddyHeader && p.usable == e && a.sizes == b.sizes
    requires n in Fulls(p.View()) && p.User(n) == u && BlockAt(e, b.sizes.root, n) in b.back
    requires b.back[BlockAt(e, b.sizes.root, n)] == u
    requires forall m: nat :: Taken(b, e, m) && m != n ==>
               && m in Fulls(p.View()) && BlockAt(e, b.sizes.root, m) in b.back
               && b.back[BlockAt(e, b.sizes.root, m)] == p.User(m)
    ensures Represents(p, b, e)
  {
    hide Fulls, BlockAt;
    TakenAreFull(p.View(), b, e);
  }

  /** buddy_alloc in place is buddy_alloc of the arena: same answer, same user address,
      same pool, same owner of every block. */
  method AllocIn(p: Pool, ghost a: Arena, e: nat, size: nat, alignment: nat, ghost isRegion: bool) returns (user: nat)
    requires Represents(p, a, e) && ExtentsOk(a) && 0 < alignment < WORD && size < WORD
    modifies p, p.tree, p.heads
    ensures user != 0 <==> Serves(a, e, RequestOrder(a.sizes, size, alignment))
    ensures user == 0 ==> Represents(p, a, e)
    ensures user != 0 ==>
              var (b, u) := PlaceIn(a, e, size, alignment, isRegion); u == user && Represents(p, b, e)
  {
    hide BuddySpec.Inv, Alloc, SizeToOrder, AlignmentIsValid, Address, Fulls, Live, PlaceIn, BlockAt, Taken, ExtentsOk,
      Pool.Wired, Pool.User, Pool.Stamped, BuddyHeap.AllLabelled;
    ghost var target := RequestOrder(a.sizes, size, alignment);
    RefusalKeeps(a.pools[e], target);
    if Serves(a, e, target) {
      ServesInRange(a.pools[e], target);
      PlacedOwners(a, e, size, alignment, isRegion);
    }
    user := p.BuddyAlloc(size, alignment);
    if user != 0 {
      ghost var (b, u) := PlaceIn(a, e, size, alignment, isRegion);
      StillRepresents(p, a, b, e, b.headers[u].node, user);
    }
  }

  /** `b` is `a` with block `n` of extent `e` back in its pool. */
  ghost predicate Returned(a: Arena, b: Arena, e: nat, n: nat)
    requires ExtentsOk(a) && Taken(a, e, n)
  {
    PoolTakes(a, e, n);
    b.pools == a.pools[e := Free(a.pools[e], n)] && b.back == a.back && b.sizes == a.sizes
  }

  lemma PoolTakes(a: Arena, e: nat, n: nat)
    requires ExtentsOk(a) && Taken(a, e, n)
    ensures e in a.pools && BuddySpec.Inv(a.pools[e]) && n in Fulls(a.pools[e]) && LiveAs(a.pools[e].tree, n, FULL)
  {
    TakenIsFull(a, e, n);
  }

  lemma FreeBlockReturns(a: Arena, x: nat)
    requires Core(a) && IsOut(a, x) && a.headers[x].BuddyHeader?
    ensures Returned(a, FreeBlock(a, x), a.headers[x].ext, a.headers[x].node)
  {
    hide BuddySpec.Inv, Free, BlockAt, BlocksOk, SlabsOk, CachesOk;
    PoolTakes(a, a.headers[x].ext, a.headers[x].node);
  }

  lemma RetireReturns(a: Arena, r: nat)
    requires r in a.slabs && a.slabs[r].cls < NUM_CACHES && |a.partial| == NUM_CACHES && r in a.headers
    requires a.headers[r].BuddyHeader?
    requires ExtentsOk(a) && Taken(a, a.slabs[r].ext, a.headers[r].node)
    ensures Returned(a, Retire(a, r), a.slabs[r].ext, a.headers[r].node)
  {
    hide BuddySpec.Inv, Free, Without;
    PoolTakes(a, a.slabs[r].ext, a.headers[r].node);
  }

  /** buddy_free in place, of a block that is out at `x`, does not panic and is the free
      of the arena: FreeBlock and Retire leave such an arena. */
  method FreeIn(p: Pool, ghost a: Arena, ghost e: nat, ghost n: nat, x: nat, ghost b: Arena) returns (panics: bool)
    requires Represents(p, a, e) && ExtentsOk(a) && Taken(a, e, n) && x != 0
    requires BlockAt(e, a.sizes.root, n) in a.back && a.back[BlockAt(e, a.sizes.root, n)] == x && Returned(a, b, e, n)
    modifies p, p.tree, p.heads
    ensures !panics && Represents(p, b, e)
  {
    hide BuddySpec.Inv, Free, Address, Live;
    PoolTakes(a, e, n);
    panics := p.BuddyFree(x);
  }

  /** arena_free_buddy_local on the pool object: the pool that FreeBlock records. */
  method FreeDirect(p: Pool, ghost a: Arena, ghost e: nat, x: nat) returns (panics: bool)
    requires Core(a) && IsOut(a, x) && a.headers[x].BuddyHeader? && e == a.headers[x].ext && Represents(p, a, e)
    modifies p, p.tree, p.heads
    ensures !panics && Represents(p, FreeBlock(a, x), e)
  {
    hide Represents, Core, IsOut, FreeBlock, Returned;
    DirectIs(a, x);
    FreeBlockReturns(a, x);
    panics := FreeIn(p, a, e, a.headers[x].node, x, FreeBlock(a, x));
  }

  lemma DirectIs(a: Arena, x: nat)
    requires Core(a) && IsOut(a, x) && a.headers[x].BuddyHeader?
    ensures var (e, n) := (a.headers[x].ext, a.headers[x].node);
            && x in a.headers && ExtentsOk(a) && Taken(a, e, n) && x != 0
            && BlockAt(e, a.sizes.root, n) in a.back && a.back[BlockAt(e, a.sizes.root, n)] == x
  {
    hide Taken, BlockAt, SlabsOk, CachesOk, ExtentsOk;
    assert BlockOk(a, a.headers[x].ext, a.headers[x].node);
  }

  /** arena_free_slab_region on the pool object: the pool that Retire records. */
  method FreeRegion(p: Pool, ghost a: Arena, ghost e: nat, r: nat) returns (panics: bool)
    requires Core(a) && r in a.slabs && e == a.slabs[r].ext && Represents(p, a, e)
    modifies p, p.tree, p.heads
    ensures !panics && a.slabs[r].cls < NUM_CACHES && |a.partial| == NUM_CACHES && r in a.headers
    ensures a.headers[r].BuddyHeader? && ExtentsOk(a) && Taken(a, e, a.headers[r].node)
    ensures Represents(p, Retire(a, r), e)
  {
    hide Represents, Core, Retire, Returned;
    RegionIs(a, r);
    RetireReturns(a, r);
    panics := FreeIn(p, a, e, a.headers[r].node, r, Retire(a, r));
  }

  lemma RegionIs(a: Arena, r: nat)
    requires Core(a) && r in a.slabs
    ensures a.slabs[r].cls < NUM_CACHES && |a.partial| == NUM_CACHES && r in a.headers && a.headers[r].BuddyHeader?
    ensures var (e, n) := (a.slabs[r].ext, a.headers[r].node);
            && ExtentsOk(a) && Taken(a, e, n) && r != 0
            && BlockAt(e, a.sizes.root, n) in a.back && a.back[BlockAt(e, a.sizes.root, n)] == r
  {
    hide Taken, BlockAt, ExtentsOk;
    assert SlabOk(a, r);
    assert BlockOk(a, a.slabs[r].ext, a.headers[r].node);
  }
}
