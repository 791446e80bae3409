/** Everything that lies in an arena's mappings, in one list of items: no two share a byte,
    so what is recorded in one is never overwritten by a store meant for another. */
module ArenaItems {
  import opened Words
  import opened BuddyTree
  import opened BuddyLayout
  import opened SlabLayout
  import opened Arena
  import opened ArenaOps
  import opened ArenaBlocks
  import opened ArenaSlabs
  import opened ArenaFrees
  import opened ArenaTheorems
  import opened ArenaBytes
  import opened Stores

  /** The metadata and tree of an extent; a free block, which starts with its links; the
      start of a slab, with the region's back pointer, header and the descriptor; a free
      slot, with header and link; what is out, with its header. */
  datatype Item =
    | Metadata(e: nat)
    | Unused(e: nat, n: nat)
    | Region(r: nat)
    | FreeSlot(r: nat, y: nat)
    | Outstanding(x: nat)

  ghost predicate Present(a: Arena, i: Item) {
    match i
    case Metadata(e) => e in a.pools
    case Unused(e, n) => e in a.pools && LiveAs(a.pools[e].tree, n, FREE)
    case Region(r) => r in a.slabs
    case FreeSlot(r, y) => r in a.slabs && y in a.slabs[r].free
    case Outstanding(x) => IsOut(a, x)
  }

  ghost function Low(a: Arena, i: Item): nat
    requires Present(a, i)
  {
    match i
    case Metadata(e) => MappingLow(a, e)
    case Unused(e, n) => BlockAt(e, a.sizes.root, n)
    case Region(r) => RegionLow(a, r)
    case FreeSlot(_, y) => SlotLow(a, y)
    case Outstanding(x) => ClaimLow(a, x)
  }

  ghost function High(a: Arena, i: Item): nat
    requires Present(a, i)
  {
    match i
    case Metadata(e) => e
    case Unused(e, n) => BlockAt(e, a.sizes.root, n) + BlockSize(a.sizes.root, n)
    case Region(r) => r + a.sizes.slab
    case FreeSlot(r, y) => SlotHigh(a, r, y)
    case Outstanding(x) => ClaimHigh(a, x)
  }

  /** No two items share a byte. */
  lemma ItemsApart(a: Arena, i: Item, j: Item)
    requires Core(a) && Present(a, i) && Present(a, j) && i != j
    ensures Apart(Low(a, i), High(a, i), Low(a, j), High(a, j))
  {
    hide Core, IsOut, LiveAs, ClaimLow, ClaimHigh, BlockAt, BlockSize, RegionLow, SlotLow, SlotHigh, MappingLow;
    if i.Outstanding? && j.Outstanding? {
      ClaimsApart(a, i.x, j.x);
    } else if i.Outstanding? {
      ClearOfItem(a, i.x, j);
    } else if j.Outstanding? {
      ClearOfItem(a, j.x, i);
    } else if i.Metadata? || j.Metadata? {
      MetadataApart(a, if i.Metadata? then i else j, if i.Metadata? then j else i);
    } else {
      BlockItemsApart(a, i, j);
    }
  }

  lemma ClearOfItem(a: Arena, x: nat, j: Item)
    requires Core(a) && IsOut(a, x) && Present(a, j) && !j.Outstanding?
    ensures Apart(ClaimLow(a, x), ClaimHigh(a, x), Low(a, j), High(a, j))
  {
    hide Core, IsOut, LiveAs, ClaimLow, ClaimHigh, BlockAt, BlockSize, RegionLow, SlotLow, SlotHigh, MappingLow, Apart;
    ClaimsClearOfMetadata(a, x);
  }

  lemma MetadataApart(a: Arena, i: Item, j: Item)
    requires Core(a) && Present(a, i) && Present(a, j) && i != j && i.Metadata? && !j.Outstanding?
    ensures Apart(Low(a, i), High(a, i), Low(a, j), High(a, j))
  {
    hide BlocksOk, SlabsOk, CachesOk, LiveAs, IsOut, BlockAt, BlockSize, BlockBytes, RegionLow, SlotLow, SlotHigh,
      Sizes.Plausible;
    if !j.Metadata? {
      ItemInBlock(a, j);
      HomeInExtent(a, j);
    }
  }

  // ------------------------------------------------------ items in blocks

  predicate InBlockItem(i: Item) {
    i.Unused? || i.Region? || i.FreeSlot?
  }

  /** The live leaf of a pool in which an item lies. */
  ghost function Home(a: Arena, i: Item): (nat, nat)
    requires Present(a, i) && InBlockItem(i)
  {
    match i
    case Unused(e, n) => (e, n)
    case Region(r) => SlabHome(a, r)
    case FreeSlot(r, _) => SlabHome(a, r)
  }

  ghost function SlabHome(a: Arena, r: nat): (nat, nat)
    requires r in a.slabs
  {
    (a.slabs[r].ext, if r in a.headers && a.headers[r].BuddyHeader? then a.headers[r].node else 0)
  }

  lemma ItemInBlock(a: Arena, i: Item)
    requires Core(a) && Present(a, i) && InBlockItem(i)
    ensures var (e, n) := Home(a, i);
            && e in a.pools && LiveLeaf(a.pools[e].tree, n)
            && LiveAs(a.pools[e].tree, n, if i.Unused? then FREE else FULL)
            && BlockAt(e, a.sizes.root, n) <= Low(a, i)
            && High(a, i) <= BlockAt(e, a.sizes.root, n) + BlockSize(a.sizes.root, n)
  {
    hide Live, BlockAt, BlockSize, BlocksOk, SlabsOk, CachesOk, ExtentsOk, SlotsOf, Sizes.Capacity, SizeToOrder,
      AlignUp;
    if i.Region? {
      RegionBlock(a, i.r);
      SlabFitsRegion(a);
    } else if i.FreeSlot? {
      FreeSlotIsSlot(a, i.r, i.y);
      SlotClaim(a, i.r, i.y);
    }
  }

  lemma SlabFitsRegion(a: Arena)
    requires Core(a)
    ensures a.sizes.slab <= SLAB_SIZE
  {
    CoreShape(a);
  }

  lemma HomeInExtent(a: Arena, i: Item)
    requires Core(a) && Present(a, i) && InBlockItem(i)
    ensures var (e, n) := Home(a, i);
            && e in a.pools && e <= BlockAt(e, a.sizes.root, n)
            && BlockAt(e, a.sizes.root, n) + BlockSize(a.sizes.root, n) <= e + BlockBytes(a.sizes.root)
  {
    hide BlockAt, BlockSize, BlockBytes, Home, Live, BlocksOk, SlabsOk, CachesOk;
    ItemInBlock(a, i);
    var (e, n) := Home(a, i);
    BlockInPoolBounds(a.sizes.root, e, n);
  }

  lemma BlockItemsApart(a: Arena, i: Item, j: Item)
    requires Core(a) && Present(a, i) && Present(a, j) && i != j && InBlockItem(i) && InBlockItem(j)
    ensures Apart(Low(a, i), High(a, i), Low(a, j), High(a, j))
  {
    hide Core, IsOut, LiveAs, LiveLeaf, BlockAt, BlockSize, RegionLow, SlotLow, SlotHigh, Home, Low, High, Present;
    ItemInBlock(a, i);
    ItemInBlock(a, j);
    if Home(a, i) == Home(a, j) {
      SameHomeApart(a, i, j);
    } else {
      CoreShape(a);
      LeavesApart(a, Home(a, i).0, Home(a, i).1, Home(a, j).0, Home(a, j).1);
    }
  }

  lemma SameHomeApart(a: Arena, i: Item, j: Item)
    requires Core(a) && Present(a, i) && Present(a, j) && i != j && InBlockItem(i) && InBlockItem(j)
    requires Home(a, i) == Home(a, j)
    ensures Apart(Low(a, i), High(a, i), Low(a, j), High(a, j))
  {
    hide Core, IsOut, BlockAt, BlockSize, RegionLow, SlotLow, SlotHigh;
    ItemInBlock(a, i);
    ItemInBlock(a, j);
    if i.Unused? || j.Unused? {
      assert false;
    } else {
      OneSlabPerBlock(a, i.r, j.r);
      SlabItemsApart(a, i.r, i, j);
    }
  }

  /** A block is the region of one slab at most. */
  lemma OneSlabPerBlock(a: Arena, r: nat, q: nat)
    requires Core(a) && r in a.slabs && q in a.slabs && SlabHome(a, r) == SlabHome(a, q)
    ensures r == q
  {
    hide BlockAt, Taken, ExtentsOk, BlocksOk, CachesOk;
    SlabFacts(a, r);
    SlabFacts(a, q);
  }

  lemma SlabItemsApart(a: Arena, r: nat, i: Item, j: Item)
    requires Core(a) && Present(a, i) && Present(a, j) && i != j && (i.Region? || i.FreeSlot?)
    requires (j.Region? || j.FreeSlot?)
    requires i.r == j.r == r
    ensures Apart(Low(a, i), High(a, i), Low(a, j), High(a, j))
  {
    hide Core, BlockAt, BlockSize, RegionLow, SlotsOf, Taken, Sizes.Plausible, Sizes.UserOffset;
    if i.FreeSlot? {
      FreeSlotIsSlot(a, r, i.y);
      SlotClaim(a, r, i.y);
    }
    if j.FreeSlot? {
      FreeSlotIsSlot(a, r, j.y);
      SlotClaim(a, r, j.y);
    }
    if i.FreeSlot? && j.FreeSlot? {
      FreeSlotsApart(a, r, i.y, j.y);
    }
  }

  lemma FreeSlotsApart(a: Arena, r: nat, x: nat, y: nat)
    requires Core(a) && r in a.slabs && x in SlotsOf(a, r) && y in SlotsOf(a, r) && x != y
    ensures Apart(SlotLow(a, x), SlotHigh(a, r, x), SlotLow(a, y), SlotHigh(a, r, y))
  {
    hide Core, Slots, Sizes.Capacity, Sizes.Plausible, AlignUp;
    if x < y {
      SlotsDisjoint(a.sizes, r, a.slabs[r].cls, x, y);
    } else {
      SlotsDisjoint(a.sizes, r, a.slabs[r].cls, y, x);
    }
  }

  // ------------------------------------------------------ the arena's bytes

  /** Each byte that the arena keeps for itself lies in exactly one item. */
  lemma OwnByteInOneItem(a: Arena, addr: nat) returns (i: Item)
    requires Core(a) && ArenaOwn(a, addr)
    ensures Present(a, i) && In(addr, Low(a, i), High(a, i))
    ensures forall j: Item :: Present(a, j) && j != i ==> !In(addr, Low(a, j), High(a, j))
  {
    hide Core, IsOut, LiveAs, ClaimLow, ClaimHigh, BlockAt, BlockSize, RegionLow, SlotLow, SlotHigh, MappingLow;
    i := ItemOf(a, addr);
    forall j: Item | Present(a, j) && j != i
      ensures !In(addr, Low(a, j), High(a, j))
    {
      ItemsApart(a, i, j);
    }
  }

  lemma ItemOf(a: Arena, addr: nat) returns (i: Item)
    requires Core(a) && ArenaOwn(a, addr)
    ensures Present(a, i) && In(addr, Low(a, i), High(a, i))
  {
    hide Core, IsOut, LiveAs, ClaimLow, ClaimHigh, BlockAt, BlockSize, RegionLow, SlotLow, SlotHigh, MappingLow;
    if InMetadata(a, addr) {
      var e :| e in a.pools && In(addr, MappingLow(a, e), e);
      i := Metadata(e);
    } else if InFreeBlock(a, addr) {
      var e, n: nat :| e in a.pools && LiveAs(a.pools[e].tree, n, FREE)
        && In(addr, BlockAt(e, a.sizes.root, n), BlockAt(e, a.sizes.root, n) + BlockSize(a.sizes.root, n));
      i := Unused(e, n);
    } else if InDescriptor(a, addr) {
      var r :| r in a.slabs && In(addr, RegionLow(a, r), r + a.sizes.slab);
      i := Region(r);
    } else if InFreeSlot(a, addr) {
      var r, y :| r in a.slabs && y in a.slabs[r].free && In(addr, SlotLow(a, y), SlotHigh(a, r, y));
      i := FreeSlot(r, y);
    } else {
      var x: nat :| IsOut(a, x) && In(addr, ClaimLow(a, x), x);
      OutInExtent(a, x);
      i := Outstanding(x);
    }
  }

  // -------------------------------------------------- what a step spares

  lemma DescriptorsSpare(a: Arena, i: Item, addr: nat)
    requires Core(a) && Present(a, i) && !i.Region? && DescriptorStores(a, addr)
    ensures !In(addr, Low(a, i), High(a, i))
  {
    hide Core, IsOut, LiveAs, ClaimLow, ClaimHigh, BlockAt, BlockSize, SlotLow, SlotHigh, MappingLow;
    var q :| q in a.slabs && In(addr, q, q + a.sizes.slab);
    RegionStarts(a, q);
    ItemsApart(a, Region(q), i);
  }

  lemma RegionStarts(a: Arena, r: nat)
    requires Core(a) && r in a.slabs
    ensures RegionLow(a, r) <= r
  {
    hide BlockAt, BlockSize, Taken, ExtentsOk, BlocksOk, SlabsOk, CachesOk;
    RegionBlock(a, r);
  }

  /** Taking a slot stores to no free block, other free slot, extent metadata or header of
      what is out. */
  lemma TakeSpares(a: Arena, r: nat, i: Item, addr: nat)
    requires Core(a) && r in a.slabs && a.slabs[r].free != [] && a.slabs[r].head == a.slabs[r].free[0]
    requires Present(a, i) && !i.Region? && i != FreeSlot(r, a.slabs[r].head) && TakeStores(a, r, addr)
    ensures !In(addr, Low(a, i), High(a, i))
  {
    hide Core, Present, Low, High, SlotLow, SlotHigh, DescriptorStores;
    var x := a.slabs[r].head;
    if DescriptorStores(a, addr) {
      DescriptorsSpare(a, i, addr);
    } else {
      SlotIsItem(a, r, x, addr);
      ItemsApart(a, FreeSlot(r, x), i);
    }
  }

  lemma SlotIsItem(a: Arena, r: nat, x: nat, addr: nat)
    requires Core(a) && r in a.slabs && x in a.slabs[r].free && SlotHeaderStores(a, x, addr)
    ensures Present(a, FreeSlot(r, x)) && In(addr, Low(a, FreeSlot(r, x)), High(a, FreeSlot(r, x)))
  {
    hide Core, SlotsOf, Taken, BlockAt, BlockSize, Sizes.Plausible, Sizes.UserOffset;
    FreeSlotIsSlot(a, r, x);
    SlotClaim(a, r, x);
  }

  /** Putting a slot back stores to none of these either but to what is freed. */
  lemma PutSpares(a: Arena, x: nat, i: Item, addr: nat)
    requires Core(a) && IsOut(a, x) && a.headers[x].SlabHeader? && PutStores(a, x, addr)
    requires Present(a, i) && !i.Region? && i != Outstanding(x)
    ensures !In(addr, Low(a, i), High(a, i))
  {
    hide Core, IsOut, Present, Low, High, DescriptorStores;
    if DescriptorStores(a, addr) {
      DescriptorsSpare(a, i, addr);
    } else {
      ClaimIsItem(a, x, addr);
      ItemsApart(a, Outstanding(x), i);
    }
  }

  /** The back pointer at the start of a block. */
  predicate InBackPointer(a: Arena, e: nat, n: nat, addr: nat) {
    In(addr, BlockAt(e, a.sizes.root, n), BlockAt(e, a.sizes.root, n) + PTR_SIZE)
  }

  /** The header of what is out and the link a free leaves there are its own. */
  lemma ClaimIsItem(a: Arena, x: nat, addr: nat)
    requires Core(a) && IsOut(a, x)
    requires || (a.headers[x].SlabHeader? && (SlotHeaderStores(a, x, addr) || In(addr, x, x + PTR_SIZE)))
             || (a.headers[x].BuddyHeader? && x >= a.sizes.buddyHeader && In(addr, x - a.sizes.buddyHeader, x))
             || (a.headers[x].BuddyHeader? && InBackPointer(a, a.headers[x].ext, a.headers[x].node, addr))
    ensures Present(a, Outstanding(x)) && In(addr, Low(a, Outstanding(x)), High(a, Outstanding(x)))
  {
    hide Core, IsOut, ClaimHigh, BlockOf, BlockAt, BlockSize, Taken;
    ClaimHoldsRequest(a, x);
    ClaimNotEmpty(a, x);
  }

  /** The items that a pool does not manage: slabs, their slots and what is out. */
  predicate Settled(i: Item) {
    i.Region? || i.FreeSlot? || i.Outstanding?
  }

  lemma PoolStoresSpare(a: Arena, b: Arena, e: nat, i: Item, addr: nat)
    requires Core(a) && Core(b) && Present(a, i) && Present(b, i) && Settled(i)
    requires Low(a, i) == Low(b, i) && High(a, i) == High(b, i) && a.sizes == b.sizes && PoolStores(a, b, e, addr)
    ensures !In(addr, Low(a, i), High(a, i))
  {
    hide Core, Present, Low, High, LinkStores;
    if LinkStores(a, e, addr) {
      LinksSpare(a, e, i, addr);
    } else if LinkStores(b, e, addr) {
      LinksSpare(b, e, i, addr);
    } else {
      MetadataSpares(a, e, i, addr);
    }
  }

  lemma MetadataSpares(a: Arena, e: nat, i: Item, addr: nat)
    requires Core(a) && Present(a, i) && Settled(i) && e in a.pools && In(addr, MappingLow(a, e), e)
    ensures !In(addr, Low(a, i), High(a, i))
  {
    hide Core, IsOut, LiveAs, ClaimLow, ClaimHigh, BlockAt, BlockSize, RegionLow, SlotLow, SlotHigh, MappingLow;
    ItemsApart(a, Metadata(e), i);
  }

  lemma LinksSpare(a: Arena, e: nat, i: Item, addr: nat)
    requires Core(a) && Present(a, i) && Settled(i) && LinkStores(a, e, addr)
    ensures !In(addr, Low(a, i), High(a, i))
  {
    hide Core, IsOut, LiveAs, ClaimLow, ClaimHigh, BlockAt, BlockSize, RegionLow, SlotLow, SlotHigh, MappingLow;
    var n: nat :| e in a.pools && LiveAs(a.pools[e].tree, n, FREE)
      && In(addr, BlockAt(e, a.sizes.root, n), BlockAt(e, a.sizes.root, n) + LINK_BYTES);
    LeafInTree(a, e, n);
    BlockHoldsLinks(a.sizes.root, n);
    ItemsApart(a, Unused(e, n), i);
  }

  lemma LeafInTree(a: Arena, e: nat, n: nat)
    requires Core(a) && e in a.pools && LiveAs(a.pools[e].tree, n, FREE)
    ensures n < NodeCount(a.sizes.root)
  {
    hide BlocksOk, SlabsOk, CachesOk, Live;
  }

  /** buddy_free of a block stores to no slab, slot or other thing that is out. */
  lemma BlockFreeSpares(a: Arena, x: nat, i: Item, addr: nat)
    requires Core(a) && ExtentsOk(a) && IsOut(a, x) && a.headers[x].BuddyHeader?
    requires Present(a, i) && Settled(i) && i != Outstanding(x)
    requires BlockFreeStores(a, FreeBlock(a, x), a.headers[x].ext, x, addr)
    ensures !In(addr, Low(a, i), High(a, i))
  {
    hide Core, IsOut, Present, Low, High, PoolStores, ArenaFrees.FreeBlock;
    var b := FreeBlock(a, x);
    FreedFacts(a, x);
    if PoolStores(a, b, a.headers[x].ext, addr) {
      FreedKeepsItem(a, b, x, i);
      PoolStoresSpare(a, b, a.headers[x].ext, i, addr);
    } else {
      ClaimIsItem(a, x, addr);
      ItemsApart(a, Outstanding(x), i);
    }
  }

  lemma FreedFacts(a: Arena, x: nat)
    requires Core(a) && ExtentsOk(a) && IsOut(a, x) && a.headers[x].BuddyHeader?
    ensures x in a.headers
    ensures var b := FreeBlock(a, x);
            && Core(b) && b.sizes == a.sizes && b.slabs == a.slabs && b.headers == a.headers
            && forall y: nat :: IsOut(b, y) <==> IsOut(a, y) && y != x
  {
    OutHasHeader(a);
    hide Core, IsOut;
    FreeBlockSound(a, x);
  }

  lemma FreedKeepsItem(a: Arena, b: Arena, x: nat, i: Item)
    requires b.sizes == a.sizes && b.slabs == a.slabs && b.headers == a.headers
    requires forall y: nat :: IsOut(b, y) <==> IsOut(a, y) && y != x
    requires Present(a, i) && Settled(i) && i != Outstanding(x)
    ensures Present(b, i) && Low(b, i) == Low(a, i) && High(b, i) == High(a, i)
  {
    hide IsOut, BlockAt, BlockSize;
  }

  /** buddy_alloc of a block for a user stores to no slab, slot or thing that was out. */
  lemma PlaceSpares(a: Arena, e: nat, size: nat, alignment: nat, i: Item, addr: nat)
    requires Core(a) && ExtentsOk(a) && e in a.pools && 0 < alignment < WORD && size < WORD
    requires Serves(a, e, RequestOrder(a.sizes, size, alignment)) && Present(a, i) && Settled(i)
    requires var (b, u) := PlaceIn(a, e, size, alignment, false); PlaceStores(a, b, e, u, addr)
    ensures !In(addr, Low(a, i), High(a, i))
  {
    hide Core, IsOut, Present, Low, High, PoolStores, PlaceIn, RequestOrder, Serves, BlockHanded;
    PlaceHands(a, e, size, alignment, false);
    PlacedAt(a, e, size, alignment);
    var (b, u) := PlaceIn(a, e, size, alignment, false);
    BlockBecomesOut(a, b, u, size, alignment);
    PlacedKeepsItem(a, b, u, size, alignment, i);
    if PoolStores(a, b, e, addr) {
      PoolStoresSpare(a, b, e, i, addr);
    } else {
      ClaimIsItem(b, u, addr);
      ItemsApart(b, Outstanding(u), i);
    }
  }

  lemma PlacedAt(a: Arena, e: nat, size: nat, alignment: nat)
    requires ExtentsOk(a) && e in a.pools && 0 < alignment < WORD && size < WORD
    requires Serves(a, e, RequestOrder(a.sizes, size, alignment))
    ensures var (b, u) := PlaceIn(a, e, size, alignment, false);
            u in b.headers && b.headers[u].BuddyHeader? && b.headers[u].ext == e
  {
    PlaceFacts(a, e, size, alignment, false);
  }

  lemma PlacedKeepsItem(a: Arena, b: Arena, u: nat, size: nat, alignment: nat, i: Item)
    requires BlockHanded(a, b, u, false, size, alignment) && HandedOut(a, b, u) && Core(a) && Present(a, i)
    requires Settled(i)
    ensures Present(b, i) && Low(b, i) == Low(a, i) && High(b, i) == High(a, i) && i != Outstanding(u)
  {
    hide Core, IsOut, BlockAt, BlockSize, BlockHanded;
    BlockHandedKeeps(a, b, u, size, alignment);
    if i.Region? {
      RegionHeaderKept(a, b, u, size, alignment, i.r);
    }
    if i.Outstanding? {
      HasHeader(a, i.x);
    }
  }

  lemma HasHeader(a: Arena, x: nat)
    requires IsOut(a, x)
    ensures x in a.headers
  {
    OutHasHeader(a);
    hide IsOut;
  }

  lemma BlockHandedKeeps(a: Arena, b: Arena, u: nat, size: nat, alignment: nat)
    requires BlockHanded(a, b, u, false, size, alignment)
    ensures b.slabs == a.slabs && b.sizes == a.sizes
  {
  }

  lemma RegionHeaderKept(a: Arena, b: Arena, u: nat, size: nat, alignment: nat, r: nat)
    requires Core(a) && BlockHanded(a, b, u, false, size, alignment) && r in a.slabs
    ensures r in a.headers && r in b.headers && b.headers[r] == a.headers[r]
  {
    hide Taken, BlockAt, BlockSize, ExtentsOk, BlocksOk, CachesOk, CoreBut, NewAddress;
    SlabFacts(a, r);
  }

  /** Carving a slab stores to nothing but that slab and its slots. */
  lemma CarveSpares(d: Arena, r: nat, c: nat, i: Item, addr: nat)
    requires Core(d) && r in d.slabs && d.slabs[r].cls == c < NUM_CACHES && d.sizes.Plausible()
    requires d.slabs[r].free == Carved(d.sizes, r, c, d.sizes.Capacity(c)) && CarveStores(d, r, c, addr)
    requires Present(d, i) && i != Region(r) && !(i.FreeSlot? && i.r == r)
    ensures !In(addr, Low(d, i), High(d, i))
  {
    hide Core, Present, Low, High, Carved, Sizes.Capacity, Sizes.Plausible, SlotLow;
    if In(addr, r, r + d.sizes.slab) {
      DescriptorIsItem(d, r, addr);
      ItemsApart(d, Region(r), i);
    } else {
      var x :| x in d.slabs[r].free
        && (In(addr, SlotLow(d, x), SlotLow(d, x) + d.sizes.objHeader) || In(addr, x, x + PTR_SIZE));
      CarvedIsItem(d, r, x, addr);
      ItemsApart(d, FreeSlot(r, x), i);
    }
  }

  lemma DescriptorIsItem(d: Arena, r: nat, addr: nat)
    requires Core(d) && r in d.slabs && In(addr, r, r + d.sizes.slab)
    ensures Present(d, Region(r)) && In(addr, Low(d, Region(r)), High(d, Region(r)))
  {
    hide Core, RegionLow;
    RegionStarts(d, r);
  }

  lemma CarvedIsItem(d: Arena, r: nat, x: nat, addr: nat)
    requires Core(d) && r in d.slabs && x in d.slabs[r].free
    requires In(addr, SlotLow(d, x), SlotLow(d, x) + d.sizes.objHeader) || In(addr, x, x + PTR_SIZE)
    ensures Present(d, FreeSlot(r, x)) && In(addr, Low(d, FreeSlot(r, x)), High(d, FreeSlot(r, x)))
  {
    hide Core, SlotsOf, Taken, BlockAt, BlockSize, Sizes.Plausible, Sizes.UserOffset, Sizes.SlotSize;
    FreeSlotIsSlot(d, r, x);
    SlotClaim(d, r, x);
    ClassesAligned(d.sizes, d.slabs[r].cls);
  }
}
