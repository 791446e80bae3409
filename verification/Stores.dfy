/** The bytes that each step of the allocator stores to: marks, list links, back
    pointers, headers, descriptors, slot links. Every one is the arena's own before or
    after the step, so no step stores to a byte that somebody holds across it. */
module Stores {
  import opened Words
  import opened BuddyTree
  import opened BuddyLayout
  import opened SlabLayout
  import opened Arena
  import opened ArenaOps
  import opened ArenaBlocks
  import opened ArenaSlabs
  import opened ArenaFrees
  import opened ArenaTheorems
  import opened ArenaBytes

  /** sizeof(buddy_block_t): the two links of a free block. */
  const LINK_BYTES: nat := 16

  // ------------------------------------------------------------ store sets

  /** What buddy_alloc and buddy_free store in extent `e` besides headers: the tree and
      list heads in its metadata, and the links of blocks that are free before or after. */
  ghost predicate PoolStores(a: Arena, b: Arena, e: nat, addr: nat) {
    || (e in a.pools && In(addr, MappingLow(a, e), e))
    || LinkStores(a, e, addr) || LinkStores(b, e, addr)
  }

  ghost predicate LinkStores(a: Arena, e: nat, addr: nat) {
    exists n: nat :: e in a.pools && LiveAs(a.pools[e].tree, n, FREE)
      && In(addr, BlockAt(e, a.sizes.root, n), BlockAt(e, a.sizes.root, n) + LINK_BYTES)
  }

  /** buddy_alloc: moreover the back pointer at the start of the block and the header
      before the user address `u`. */
  ghost predicate PlaceStores(a: Arena, b: Arena, e: nat, u: nat, addr: nat) {
    || PoolStores(a, b, e, addr)
    || (u in b.headers && b.headers[u].BuddyHeader?
        && var block := BlockAt(e, b.sizes.root, b.headers[u].node);
           In(addr, block, block + PTR_SIZE) || (u >= b.sizes.buddyHeader && In(addr, u - b.sizes.buddyHeader, u)))
  }

  /** arena_expand: the metadata of the new extent and the links of its root block. */
  ghost predicate ExpandStores(b: Arena, e: nat, addr: nat) {
    In(addr, MappingLow(b, e), e) || In(addr, e, e + LINK_BYTES)
  }

  /** slab_create: the descriptor, and of every slot the header at its start and the link
      at its user address. */
  ghost predicate CarveStores(d: Arena, r: nat, c: nat, addr: nat) {
    c < NUM_CACHES && d.sizes.Plausible()
    && (|| In(addr, r, r + d.sizes.slab)
        || exists x :: x in Carved(d.sizes, r, c, d.sizes.Capacity(c))
             && (In(addr, SlotLow(d, x), SlotLow(d, x) + d.sizes.objHeader) || In(addr, x, x + PTR_SIZE)))
  }

  /** Descriptors: counts, free-list heads and the links of the cache lists. */
  ghost predicate DescriptorStores(a: Arena, addr: nat) {
    exists q :: q in a.slabs && In(addr, q, q + a.sizes.slab)
  }

  /** The header right before a slot's user address. */
  predicate SlotHeaderStores(a: Arena, x: nat, addr: nat) {
    x >= a.sizes.objHeader && In(addr, x - a.sizes.objHeader, x)
  }

  /** slab_alloc taking the first free slot of slab `r`. */
  ghost predicate TakeStores(a: Arena, r: nat, addr: nat) {
    r in a.slabs && (SlotHeaderStores(a, a.slabs[r].head, addr) || DescriptorStores(a, addr))
  }

  /** slab_free_local putting slot `x` back. */
  ghost predicate PutStores(a: Arena, x: nat, addr: nat) {
    SlotHeaderStores(a, x, addr) || In(addr, x, x + PTR_SIZE) || DescriptorStores(a, addr)
  }

  /** buddy_free of the block with user address `u`: marks, links, and the header fields
      a debug build clears. */
  ghost predicate BlockFreeStores(a: Arena, b: Arena, e: nat, u: nat, addr: nat) {
    PoolStores(a, b, e, addr) || (u >= a.sizes.buddyHeader && In(addr, u - a.sizes.buddyHeader, u))
  }

  /** slab_free_local giving the region of slab `r` back. */
  ghost predicate RetireStores(a: Arena, b: Arena, r: nat, addr: nat) {
    DescriptorStores(a, addr) || (r in a.slabs && BlockFreeStores(a, b, a.slabs[r].ext, r, addr))
  }

  // ------------------------------------------------- they are the arena's own

  lemma BlockHoldsLinks(root: nat, n: nat)
    requires n < NodeCount(root)
    ensures LINK_BYTES <= BlockSize(root, n)
  {
    hide Order, Depth;
    assert BlockBytes(0) == PAGE;
    if Order(root, n) > 0 {
      hide Pow2;
      BlockBytesMonotone(0, Order(root, n));
    }
  }

  lemma LinksOwned(a: Arena, e: nat, addr: nat)
    requires ExtentsOk(a) && LinkStores(a, e, addr)
    ensures InFreeBlock(a, addr)
  {
    hide Live, BlockAt, BlockSize, Order, Depth, Pow2;
    var n: nat :| e in a.pools && LiveAs(a.pools[e].tree, n, FREE)
      && In(addr, BlockAt(e, a.sizes.root, n), BlockAt(e, a.sizes.root, n) + LINK_BYTES);
    BlockHoldsLinks(a.sizes.root, n);
  }

  lemma PoolOwned(a: Arena, b: Arena, e: nat, addr: nat)
    requires ExtentsOk(a) && ExtentsOk(b) && PoolStores(a, b, e, addr)
    ensures ArenaOwn(a, addr) || ArenaOwn(b, addr)
  {
    hide ExtentsOk, InDescriptor, InFreeSlot, InHeader, InFreeBlock, LinkStores, MappingLow;
    if LinkStores(a, e, addr) {
      LinksOwned(a, e, addr);
    } else if LinkStores(b, e, addr) {
      LinksOwned(b, e, addr);
    }
  }

  /** The links of free blocks depend on the pools only. */
  lemma SamePoolsSameLinks(b: Arena, d: Arena, e: nat, addr: nat)
    requires b.pools == d.pools && b.sizes == d.sizes
    ensures LinkStores(b, e, addr) == LinkStores(d, e, addr)
  {
  }

  /** A block placed for a user: what is stored before the user address is the header
      part of the new claim. */
  lemma PlacedOwned(a: Arena, b: Arena, u: nat, addr: nat)
    requires ExtentsOk(a) && Core(b) && IsOut(b, u) && b.headers[u].BuddyHeader?
    requires PlaceStores(a, b, b.headers[u].ext, u, addr)
    ensures ArenaOwn(a, addr) || ArenaOwn(b, addr)
  {
    var e := b.headers[u].ext;
    if PoolStores(a, b, e, addr) {
      CoreShape(b);
      PoolOwned(a, b, e, addr);
    } else {
      ClaimHoldsRequest(b, u);
      hide Core, IsOut, InMetadata, InFreeBlock, InDescriptor, InFreeSlot, BlockAt;
      assert InHeader(b, addr);
    }
  }

  /** A region placed for a slab: what is stored before the descriptor is the region
      header, and everything slab_create stores lies in the new slab. */
  lemma CreatedOwned(a: Arena, b: Arena, d: Arena, r: nat, c: nat, addr: nat)
    requires ExtentsOk(a) && Core(d) && r in d.slabs && d.slabs[r].cls == c < NUM_CACHES && d.sizes.Plausible()
    requires d.pools == b.pools && d.sizes == b.sizes && r in b.headers && r in d.headers
    requires d.headers[r] == b.headers[r]
    requires d.slabs[r].free == Carved(d.sizes, r, c, d.sizes.Capacity(c))
    requires PlaceStores(a, b, d.slabs[r].ext, r, addr) || CarveStores(d, r, c, addr)
    ensures ArenaOwn(a, addr) || ArenaOwn(d, addr)
  {
    var e := d.slabs[r].ext;
    SamePoolsSameLinks(b, d, e, addr);
    CoreShape(d);
    if PoolStores(a, b, e, addr) {
      PoolOwned(a, d, e, addr);
    } else if CarveStores(d, r, c, addr) {
      CarvedOwned(d, r, c, addr);
    } else {
      RegionHeaderOwned(d, r, addr);
    }
  }

  lemma CarvedOwned(d: Arena, r: nat, c: nat, addr: nat)
    requires Core(d) && r in d.slabs && d.slabs[r].cls == c < NUM_CACHES && d.sizes.Plausible()
    requires d.slabs[r].free == Carved(d.sizes, r, c, d.sizes.Capacity(c)) && CarveStores(d, r, c, addr)
    ensures ArenaOwn(d, addr)
  {
    hide Core, Carved, Sizes.Plausible, Sizes.Capacity, ArenaOwn, SlotLow;
    if In(addr, r, r + d.sizes.slab) {
      DescriptorOwned(d, r, addr);
    } else {
      var x :| x in d.slabs[r].free
        && (In(addr, SlotLow(d, x), SlotLow(d, x) + d.sizes.objHeader) || In(addr, x, x + PTR_SIZE));
      FreeSlotOwned(d, r, x, addr);
    }
  }

  lemma DescriptorOwned(a: Arena, r: nat, addr: nat)
    requires Core(a) && r in a.slabs && In(addr, r, r + a.sizes.slab)
    ensures ArenaOwn(a, addr)
  {
    hide Taken, BlockAt, BlockSize, ExtentsOk, BlocksOk, CachesOk, SlabsOk, InMetadata, InFreeBlock, InFreeSlot,
      InHeader;
    RegionBlock(a, r);
    assert InDescriptor(a, addr);
  }

  /** The region header lies between the start of the block and the descriptor. */
  lemma RegionHeaderOwned(a: Arena, r: nat, addr: nat)
    requires Core(a) && r in a.slabs && r in a.headers && a.headers[r].BuddyHeader?
    requires var block := BlockAt(a.slabs[r].ext, a.sizes.root, a.headers[r].node);
             In(addr, block, block + PTR_SIZE) || (r >= a.sizes.buddyHeader && In(addr, r - a.sizes.buddyHeader, r))
    ensures ArenaOwn(a, addr)
  {
    hide Taken, BlockAt, BlockSize, ExtentsOk, CachesOk, InMetadata, InFreeBlock, InFreeSlot, InHeader;
    RegionBlock(a, r);
    assert BlockOk(a, a.slabs[r].ext, a.headers[r].node);
    assert InDescriptor(a, addr);
  }

  /** A free slot with its header is the arena's. */
  lemma FreeSlotOwned(a: Arena, r: nat, x: nat, addr: nat)
    requires Core(a) && r in a.slabs && x in a.slabs[r].free
    requires || In(addr, SlotLow(a, x), SlotLow(a, x) + a.sizes.objHeader)
             || SlotHeaderStores(a, x, addr) || In(addr, x, x + PTR_SIZE)
    ensures ArenaOwn(a, addr)
  {
    hide Taken, BlockAt, BlockSize, ExtentsOk, BlocksOk, CachesOk, SlabsOk, SlotsOf, InMetadata, InFreeBlock,
      InDescriptor, InHeader;
    FreeSlotIsSlot(a, r, x);
    SlotClaim(a, r, x);
    ClassesAligned(a.sizes, a.slabs[r].cls);
    assert InFreeSlot(a, addr);
  }

  lemma ExpandedOwned(a: Arena, e: nat, addr: nat)
    requires ExtentsOk(a) && GrantOk(a, e) && ExpandStores(Expand(a, e), e, addr)
    ensures ArenaOwn(Expand(a, e), addr)
  {
    var b := Expand(a, e);
    hide InDescriptor, InFreeSlot, InHeader, MappingLow, ExtentsOk;
    if In(addr, e, e + LINK_BYTES) {
      RootBlockLinks(a, e, addr);
    } else {
      assert e in b.pools;
    }
  }

  lemma RootBlockLinks(a: Arena, e: nat, addr: nat)
    requires In(addr, e, e + LINK_BYTES)
    ensures InFreeBlock(Expand(a, e), addr)
  {
    var b := Expand(a, e);
    NodeCountAtLeast(a.sizes.root);
    assert LiveAs(b.pools[e].tree, 0, FREE) && BlockAt(e, a.sizes.root, 0) == e;
    hide BlockSize, BlockAt, LiveAs;
    BlockHoldsLinks(a.sizes.root, 0);
  }

  lemma NodeCountAtLeast(root: nat)
    ensures NodeCount(root) > 0
  {
  }

  lemma DescriptorsOwned(a: Arena, addr: nat)
    requires Core(a) && DescriptorStores(a, addr)
    ensures ArenaOwn(a, addr)
  {
    hide Core, ArenaOwn;
    var q :| q in a.slabs && In(addr, q, q + a.sizes.slab);
    DescriptorOwned(a, q, addr);
  }

  lemma TakenOwned(a: Arena, r: nat, addr: nat)
    requires Core(a) && r in a.slabs && a.slabs[r].free != [] && a.slabs[r].head == a.slabs[r].free[0]
    requires TakeStores(a, r, addr)
    ensures ArenaOwn(a, addr)
  {
    hide Core, ArenaOwn, DescriptorStores, SlotHeaderStores;
    if DescriptorStores(a, addr) {
      DescriptorsOwned(a, addr);
    } else {
      FreeSlotOwned(a, r, a.slabs[r].head, addr);
    }
  }

  lemma PutOwned(a: Arena, x: nat, addr: nat)
    requires Core(a) && IsOut(a, x) && a.headers[x].SlabHeader? && PutStores(a, x, addr)
    ensures var r := a.headers[x].slab;
            && r in a.slabs && a.slabs[r].cls < NUM_CACHES && a.sizes.Plausible() && a.slabs[r].used > 0
            && |a.partial| == |a.full| == NUM_CACHES && (ArenaOwn(a, addr) || ArenaOwn(PutSlot(a, x, r), addr))
  {
    OutHasHeader(a);
    hide Core, IsOut, ArenaOwn, DescriptorStores, PutSlot;
    OutSlotFacts(a, x);
    PutSlotCore(a, x);
    PutHeads(a, x, a.headers[x].slab);
    if DescriptorStores(a, addr) {
      DescriptorsOwned(a, addr);
    } else {
      FreeSlotOwned(PutSlot(a, x, a.headers[x].slab), a.headers[x].slab, x, addr);
    }
  }

  lemma PutHeads(a: Arena, x: nat, r: nat)
    requires r in a.slabs && a.slabs[r].cls < NUM_CACHES && a.sizes.Plausible() && a.slabs[r].used > 0
    requires |a.partial| == |a.full| == NUM_CACHES && x in a.headers && a.headers[x].SlabHeader?
    ensures var b := PutSlot(a, x, r); r in b.slabs && x in b.slabs[r].free && b.sizes == a.sizes
  {
    hide Without, Sizes.Capacity, Sizes.Plausible;
  }

  lemma RetiredOwned(a: Arena, b: Arena, r: nat, addr: nat)
    requires Core(a) && ExtentsOk(b) && r in a.slabs && RetireStores(a, b, r, addr)
    ensures ArenaOwn(a, addr) || ArenaOwn(b, addr)
  {
    hide Core, ArenaOwn, DescriptorStores, PoolStores, ExtentsOk;
    if DescriptorStores(a, addr) {
      DescriptorsOwned(a, addr);
    } else if PoolStores(a, b, a.slabs[r].ext, addr) {
      CoreShape(a);
      PoolOwned(a, b, a.slabs[r].ext, addr);
    } else {
      RegionIs(a, r);
      RegionHeaderOwned(a, r, addr);
    }
  }

  lemma RegionIs(a: Arena, r: nat)
    requires Core(a) && r in a.slabs
    ensures r in a.headers && a.headers[r].BuddyHeader?
  {
    hide Taken, BlockAt;
    SlabFacts(a, r);
  }

  lemma BlockFreedOwned(a: Arena, b: Arena, x: nat, addr: nat)
    requires Core(a) && ExtentsOk(b) && IsOut(a, x) && a.headers[x].BuddyHeader?
    requires BlockFreeStores(a, b, a.headers[x].ext, x, addr)
    ensures ArenaOwn(a, addr) || ArenaOwn(b, addr)
  {
    var e := a.headers[x].ext;
    if PoolStores(a, b, e, addr) {
      CoreShape(a);
      PoolOwned(a, b, e, addr);
    } else {
      ClaimHoldsRequest(a, x);
      hide Core, IsOut, InMetadata, InFreeBlock, InDescriptor, InFreeSlot, BlockAt;
      assert InHeader(a, addr);
    }
  }
}
