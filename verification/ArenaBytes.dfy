/** Which bytes an arena keeps for itself, and that none of them was given to a user. */
module ArenaBytes {
  import opened Words
  import opened BuddyTree
  import opened BuddyLayout
  import opened SlabLayout
  import opened Arena
  import opened ArenaTheorems

  predicate In(addr: nat, lo: nat, hi: nat) {
    lo <= addr < hi
  }

  /** What one arena keeps for itself: extent metadata, free blocks, slab descriptors
      with the region headers before them, free slots, and the headers of what is out. */
  ghost predicate ArenaOwn(a: Arena, addr: nat) {
    InMetadata(a, addr) || InFreeBlock(a, addr) || InDescriptor(a, addr) || InFreeSlot(a, addr) || InHeader(a, addr)
  }

  ghost predicate InMetadata(a: Arena, addr: nat) {
    exists e :: e in a.pools && In(addr, MappingLow(a, e), e)
  }

  ghost predicate InFreeBlock(a: Arena, addr: nat) {
    exists e, n: nat :: e in a.pools && LiveAs(a.pools[e].tree, n, FREE)
      && In(addr, BlockAt(e, a.sizes.root, n), BlockAt(e, a.sizes.root, n) + BlockSize(a.sizes.root, n))
  }

  ghost predicate InDescriptor(a: Arena, addr: nat) {
    exists r :: r in a.slabs && In(addr, RegionLow(a, r), r + a.sizes.slab)
  }

  ghost predicate InFreeSlot(a: Arena, addr: nat) {
    exists r, y :: r in a.slabs && y in a.slabs[r].free && In(addr, SlotLow(a, y), SlotHigh(a, r, y))
  }

  ghost predicate InHeader(a: Arena, addr: nat) {
    exists x: nat :: IsOut(a, x) && In(addr, ClaimLow(a, x), x)
  }

  lemma ArenaOwnClear(a: Arena, x: nat, addr: nat)
    requires Core(a) && IsOut(a, x) && x <= addr < ClaimHigh(a, x)
    ensures !ArenaOwn(a, addr)
  {
    hide Core, IsOut, ClaimLow, ClaimHigh, InMetadata, InFreeBlock, InDescriptor, InFreeSlot, InHeader;
    MetadataClear(a, x, addr);
    HeadersClear(a, x, addr);
  }

  lemma MetadataClear(a: Arena, x: nat, addr: nat)
    requires Core(a) && IsOut(a, x) && x <= addr < ClaimHigh(a, x)
    ensures !InMetadata(a, addr) && !InFreeBlock(a, addr) && !InDescriptor(a, addr) && !InFreeSlot(a, addr)
  {
    hide Core, IsOut, ClaimLow, ClaimHigh, BlockAt, BlockSize, LiveAs, MappingLow, RegionLow, SlotLow, SlotHigh;
    ClaimsClearOfMetadata(a, x);
    HeaderBefore(a, x);
  }

  lemma HeadersClear(a: Arena, x: nat, addr: nat)
    requires Core(a) && IsOut(a, x) && x <= addr < ClaimHigh(a, x)
    ensures !InHeader(a, addr)
  {
    hide Core, IsOut, ClaimLow, ClaimHigh;
    HeaderBefore(a, x);
    forall y: nat | IsOut(a, y)
      ensures !In(addr, ClaimLow(a, y), y)
    {
      if y != x {
        ClaimsApart(a, x, y);
        ClaimNotEmpty(a, y);
      }
    }
  }

  lemma ClaimNotEmpty(a: Arena, x: nat)
    requires Core(a) && IsOut(a, x)
    ensures ClaimLow(a, x) < x < ClaimHigh(a, x)
  {
    hide Core, IsOut, ClaimLow, ClaimHigh;
    OutInExtent(a, x);
  }

  /** Everything an arena keeps for itself lies in its extents' mappings. */
  lemma OwnInExtents(a: Arena, addr: nat)
    requires Core(a) && ArenaOwn(a, addr)
    ensures exists e :: e in a.pools && In(addr, MappingLow(a, e), e + BlockBytes(a.sizes.root))
  {
    hide Core, IsOut, ClaimLow, ClaimHigh, BlockOf, BlockAt, BlockSize, BlockBytes, LiveAs, RegionLow, SlotLow,
      SlotHigh;
    if InMetadata(a, addr) {
      var e :| e in a.pools && In(addr, MappingLow(a, e), e);
    } else if InFreeBlock(a, addr) {
      var e, n: nat :| e in a.pools && LiveAs(a.pools[e].tree, n, FREE)
        && In(addr, BlockAt(e, a.sizes.root, n), BlockAt(e, a.sizes.root, n) + BlockSize(a.sizes.root, n));
      LeafInExtent(a, e, n);
    } else if InDescriptor(a, addr) {
      var r :| r in a.slabs && In(addr, RegionLow(a, r), r + a.sizes.slab);
      DescriptorInExtent(a, r);
    } else if InFreeSlot(a, addr) {
      var r, y :| r in a.slabs && y in a.slabs[r].free && In(addr, SlotLow(a, y), SlotHigh(a, r, y));
      FreeSlotInExtent(a, r, y);
    } else {
      var x: nat :| IsOut(a, x) && In(addr, ClaimLow(a, x), x);
      OutInExtent(a, x);
    }
  }

  lemma LeafInExtent(a: Arena, e: nat, n: nat)
    requires Core(a) && e in a.pools && LiveAs(a.pools[e].tree, n, FREE)
    ensures e <= BlockAt(e, a.sizes.root, n)
    ensures BlockAt(e, a.sizes.root, n) + BlockSize(a.sizes.root, n) <= e + BlockBytes(a.sizes.root)
  {
    hide BlocksOk, SlabsOk, CachesOk, Live, BlockAt, BlockSize, BlockBytes, Depth, Pow2, SizeToOrder, AlignUp,
      Sizes.Capacity;
    BlockInPoolBounds(a.sizes.root, e, n);
  }

  lemma DescriptorInExtent(a: Arena, r: nat)
    requires Core(a) && r in a.slabs
    ensures var e := a.slabs[r].ext;
            e in a.pools && e <= RegionLow(a, r) && r + SLAB_SIZE <= e + BlockBytes(a.sizes.root)
              && a.sizes.slab <= SLAB_SIZE
  {
    hide Taken, BlockAt, BlockSize, SlabsOk, BlocksOk, CachesOk, BlockBytes, AlignUp, SizeToOrder, Sizes.Capacity;
    RegionBlock(a, r);
    TakenIsFull(a, a.slabs[r].ext, a.headers[r].node);
    TakenInPools(a, a.slabs[r].ext, a.headers[r].node);
  }

  lemma FreeSlotInExtent(a: Arena, r: nat, y: nat)
    requires Core(a) && r in a.slabs && y in a.slabs[r].free
    ensures var e := a.slabs[r].ext;
            e in a.pools && e <= SlotLow(a, y) && SlotHigh(a, r, y) <= e + BlockBytes(a.sizes.root)
  {
    hide Taken, BlockAt, BlockSize, SlabsOk, BlocksOk, CachesOk, BlockBytes, SlotsOf, AlignUp, SizeToOrder,
      Sizes.Capacity;
    FreeSlotIsSlot(a, r, y);
    SlotClaim(a, r, y);
    TakenIsFull(a, a.slabs[r].ext, a.headers[r].node);
    TakenInPools(a, a.slabs[r].ext, a.headers[r].node);
  }
}
