/** The stores of whole arena calls, step by step along the path each call takes, and
    that none of them touches a byte of a pointer that stays out across the call. */
module ArenaStores {
  import opened Words
  import opened BuddySpec
  import opened BuddyLayout
  import opened SlabLayout
  import opened Arena
  import opened ArenaOps
  import opened ArenaBlocks
  import opened ArenaSlabs
  import opened ArenaFrees
  import opened ArenaTheorems
  import opened ArenaBytes
  import opened ArenaCalls
  import opened Stores

  // ------------------------------------------------------------ store sets

  /** arena_alloc_slab_region and arena_alloc_buddy_region. */
  ghost predicate BlockStores(a: Arena, size: nat, alignment: nat, isRegion: bool, grant: Option<nat>, addr: nat)
    requires ExtentsOk(a) && MaybeGrant(a, grant) && alignment > 0
  {
    var target := RequestOrder(a.sizes, size, alignment);
    match FindExtent(a, target)
    case Some(e) =>
      var (b, u) := PlaceIn(a, e, size, alignment, isRegion);
      PlaceStores(a, b, e, u, addr)
    case None =>
      grant.Some? && NewExtentStores(a, size, alignment, isRegion, grant.value, addr)
  }

  /** arena_expand and the request served by the new extent, if it can be. */
  ghost predicate NewExtentStores(a: Arena, size: nat, alignment: nat, isRegion: bool, e: nat, addr: nat)
    requires ExtentsOk(a) && GrantOk(a, e) && alignment > 0
  {
    ExpandOk(a, e);
    var b := Expand(a, e);
    ExpandStores(b, e, addr)
    || (Serves(b, e, RequestOrder(a.sizes, size, alignment))
        && var (c, u) := PlaceIn(b, e, size, alignment, isRegion); PlaceStores(b, c, e, u, addr))
  }

  /** slab_alloc. */
  ghost predicate SlabStores(a: Arena, size: nat, grant: Option<nat>, addr: nat)
    requires Core(a) && MaybeGrant(a, grant) && size > 0
  {
    var c := CacheOf(size);
    c < NUM_CACHES
    && if a.partial[c] != [] then TakeStores(a, a.partial[c][0], addr) else NewSlabStores(a, c, grant, addr)
  }

  /** slab_create, and the first slot of the new slab being taken. */
  ghost predicate NewSlabStores(a: Arena, c: nat, grant: Option<nat>, addr: nat)
    requires Core(a) && MaybeGrant(a, grant) && c < NUM_CACHES
  {
    var (d, r) := SlabCreate(a, c, grant);
    BlockStores(a, SLAB_SIZE, SLAB_MAX_ALIGNMENT, true, grant, addr)
    || (r != 0 && (CarveStores(d, r, c, addr) || TakeStores(d, r, addr)))
  }

  /** slab_free_local or arena_free_buddy_local. */
  ghost predicate FreeStores(a: Arena, x: nat, addr: nat)
    requires Core(a) && IsOut(a, x)
  {
    match a.headers[x]
    case SlabHeader(_, r, _) =>
      PutSlotCore(a, x);
      var b := PutSlot(a, x, r);
      PutStores(a, x, addr) || (b.slabs[r].used == 0 && (RetireSound(b, r); RetireStores(b, Retire(b, r), r, addr)))
    case BuddyHeader(e, _, _, _, _, _) => BlockFreeStores(a, FreeBlock(a, x), e, x, addr)
  }

  /** A drain. */
  ghost predicate FreeAllStores(a: Arena, s: seq<nat>, addr: nat)
    requires ArenaInv(a) && Distinct(s) && forall x <- s :: IsOut(a, x)
    decreases |s|
  {
    s != []
    && (FreeStores(a, s[0], addr)
        || (FreeLocalSound(a, s[0]); StillOut(a, s); FreeAllStores(FreeLocal(a, s[0]).arena, s[1..], addr)))
  }

  // ------------------------------------------------------- guarded bytes

  /** `addr` is one of the bytes `y` was handed out for. */
  predicate Data(a: Arena, y: nat, addr: nat) {
    y in a.headers && y <= addr < y + a.headers[y].size
  }

  /** Why a byte must not be stored to: a pointer that is out holds it, or it lies outside
      the arena's extents altogether. */
  datatype Guard = HeldBy(y: nat) | Foreign

  predicate Guarded(a: Arena, g: Guard, addr: nat) {
    match g
    case HeldBy(y) => IsOut(a, y) && Data(a, y, addr)
    case Foreign => forall e <- a.pools :: !In(addr, MappingLow(a, e), e + BlockBytes(a.sizes.root))
  }

  /** A new extent does not reach a foreign byte. */
  predicate GrantGuards(sz: Sizes, g: Guard, grant: Option<nat>, addr: nat) {
    g.Foreign? && grant.Some? ==>
      !In(addr, if grant.value >= sz.meta then grant.value - sz.meta else 0, grant.value + BlockBytes(sz.root))
  }

  lemma GuardClear(a: Arena, g: Guard, addr: nat)
    requires Core(a) && Guarded(a, g, addr)
    ensures !ArenaOwn(a, addr)
  {
    hide Core, IsOut, ArenaOwn, ClaimLow, ClaimHigh, BlockOf, MappingLow, BlockBytes;
    match g
    case HeldBy(y) =>
      ClaimHoldsRequest(a, y);
      ArenaOwnClear(a, y, addr);
    case Foreign =>
      if ArenaOwn(a, addr) {
        OwnInExtents(a, addr);
      }
  }

  /** A guard survives a step that keeps the pointer with its header, and the extents. */
  lemma Across(a: Arena, b: Arena, g: Guard, addr: nat)
    requires Guarded(a, g, addr) && a.sizes == b.sizes
    requires g.HeldBy? ==> IsOut(b, g.y) && HeaderKept(a, b, g.y)
    requires g.Foreign? ==> b.pools.Keys <= a.pools.Keys
    ensures Guarded(b, g, addr)
  {
    hide IsOut, BlockBytes;
  }

  /** A byte guarded before and after a step is nobody's own on either side. */
  lemma StepClear(a: Arena, b: Arena, g: Guard, addr: nat)
    requires Core(a) && Core(b) && Guarded(a, g, addr) && Guarded(b, g, addr)
    ensures !ArenaOwn(a, addr) && !ArenaOwn(b, addr)
  {
    hide Core, ArenaOwn, Guarded;
    GuardClear(a, g, addr);
    GuardClear(b, g, addr);
  }

  // ------------------------------------------------------------- requests

  lemma PlaceClear(a: Arena, e: nat, size: nat, alignment: nat, g: Guard, addr: nat)
    requires Core(a) && e in a.pools && 0 < alignment < WORD && size < WORD
    requires Serves(a, e, RequestOrder(a.sizes, size, alignment)) && Guarded(a, g, addr)
    ensures var (b, u) := PlaceIn(a, e, size, alignment, false); !PlaceStores(a, b, e, u, addr)
  {
    PlaceFacts(a, e, size, alignment, false);
    PlaceHands(a, e, size, alignment, false);
    PlaceShape(a, e, size, alignment, false);
    var (b, u) := PlaceIn(a, e, size, alignment, false);
    BlockBecomesOut(a, b, u, size, alignment);
    GuardThroughHand(a, b, u, g, addr);
    hide Core, IsOut, PlaceStores, PlaceIn, BlockHanded, HandedOut, ArenaOwn, Recorded, Guarded;
    StepClear(a, b, g, addr);
    CoreShape(a);
    if PlaceStores(a, b, e, u, addr) {
      PlacedOwned(a, b, u, addr);
    }
  }

  lemma PlaceShape(a: Arena, e: nat, size: nat, alignment: nat, isRegion: bool)
    requires ExtentsOk(a) && e in a.pools && alignment > 0 && Serves(a, e, RequestOrder(a.sizes, size, alignment))
    ensures var (b, u) := PlaceIn(a, e, size, alignment, isRegion);
            b.active == e && b.sizes == a.sizes && b.pools.Keys == a.pools.Keys
  {
    hide Alloc, RequestOrder, UserAt;
  }

  lemma GuardThroughHand(a: Arena, b: Arena, u: nat, g: Guard, addr: nat)
    requires HandedOut(a, b, u) && Guarded(a, g, addr) && b.pools.Keys == a.pools.Keys
    ensures Guarded(b, g, addr) && IsOut(b, u) && u in b.headers
  {
    OutHasHeader(a);
    OutHasHeader(b);
    hide IsOut, MappingLow;
    Across(a, b, g, addr);
  }

  lemma GuardThrough(a: Arena, b: Arena, g: Guard, addr: nat)
    requires KeepsOut(a, b) && (forall x: nat :: IsOut(b, x) <==> IsOut(a, x)) && a.sizes == b.sizes
    requires Guarded(a, g, addr) && (g.Foreign? ==> b.pools.Keys <= a.pools.Keys)
    ensures Guarded(b, g, addr)
  {
    OutHasHeader(a);
    hide IsOut, MappingLow;
    Across(a, b, g, addr);
  }

  lemma ExpandClear(a: Arena, e: nat, g: Guard, addr: nat)
    requires Core(a) && GrantOk(a, e) && Guarded(a, g, addr) && GrantGuards(a.sizes, g, Some(e), addr)
    ensures ExtentsOk(a) && !ExpandStores(Expand(a, e), e, addr)
    ensures Core(Expand(a, e)) && Guarded(Expand(a, e), g, addr)
  {
    CoreShape(a);
    ExpandKeeps(a, e);
    ExpandGuards(a, e, g, addr);
    hide Core, IsOut, ExpandStores, Expand, ArenaOwn, GrantOk, Guarded;
    StepClear(a, Expand(a, e), g, addr);
    if ExpandStores(Expand(a, e), e, addr) {
      ExpandedOwned(a, e, addr);
    }
  }

  lemma ExpandGuards(a: Arena, e: nat, g: Guard, addr: nat)
    requires SameHands(a, Expand(a, e)) && Guarded(a, g, addr) && GrantGuards(a.sizes, g, Some(e), addr)
    ensures Guarded(Expand(a, e), g, addr)
  {
    OutHasHeader(a);
    hide IsOut, BlockBytes, Create;
    if g.HeldBy? {
      Across(a, Expand(a, e), g, addr);
    }
  }

  /** A direct block request stores to no guarded byte. */
  lemma BlockClear(a: Arena, size: nat, alignment: nat, grant: Option<nat>, g: Guard, addr: nat)
    requires Core(a) && MaybeGrant(a, grant) && 0 < alignment < WORD && size < WORD
    requires Guarded(a, g, addr) && GrantGuards(a.sizes, g, grant, addr)
    ensures ExtentsOk(a) && !BlockStores(a, size, alignment, false, grant, addr)
  {
    CoreShape(a);
    hide Core, PlaceStores, PlaceIn, ExpandStores, Expand, RequestOrder, Serves, GrantOk, Guarded;
    var target := RequestOrder(a.sizes, size, alignment);
    match FindExtent(a, target)
    case Some(e) => PlaceClear(a, e, size, alignment, g, addr);
    case None =>
      if grant.Some? {
        var e := grant.value;
        ExpandClear(a, e, g, addr);
        ExpandShape(a, e);
        if Serves(Expand(a, e), e, target) {
          PlaceClear(Expand(a, e), e, size, alignment, g, addr);
        }
      }
  }

  lemma ExpandShape(a: Arena, e: nat)
    requires ExtentsOk(a) && GrantOk(a, e)
    ensures ExtentsOk(Expand(a, e)) && e in Expand(a, e).pools && Expand(a, e).sizes == a.sizes
  {
    ExpandOk(a, e);
  }

  // ---------------------------------------------------------------- slabs

  /** What the region of a new slab looks like once the slab is installed. */
  lemma InstalledShape(b: Arena, r: nat, c: nat)
    requires b.sizes.Plausible() && c < NUM_CACHES && |b.partial| == NUM_CACHES && b.sizes.Capacity(c) >= 1
    requires r !in Carved(b.sizes, r, c, b.sizes.Capacity(c)) && r in b.headers
    ensures var d := Install(b, r, c, b.active);
            && d.pools == b.pools && d.sizes == b.sizes && r in d.headers && d.headers[r] == b.headers[r]
            && r in d.slabs && d.slabs[r].cls == c && d.slabs[r].ext == b.active
            && d.slabs[r].free == Carved(d.sizes, r, c, d.sizes.Capacity(c)) && d.slabs[r].free != []
            && d.slabs[r].head == d.slabs[r].free[0]
  {
    IsInstalled(b, r, c);
    hide Carved, Sizes.Capacity, Sizes.Plausible, Chain;
  }

  /** Placing the region of a slab and carving it stores to no guarded byte. */
  lemma RegionClear(a: Arena, b: Arena, e: nat, r: nat, c: nat, g: Guard, addr: nat)
    requires Core(a) && c < NUM_CACHES && BlockHanded(a, b, r, true, SLAB_SIZE, SLAB_MAX_ALIGNMENT) && b.active == e
    requires Guarded(a, g, addr) && b.pools.Keys == a.pools.Keys
    ensures !PlaceStores(a, b, e, r, addr) && |b.partial| == NUM_CACHES && b.sizes.Plausible()
    ensures b.sizes.Capacity(c) >= 1
    ensures !CarveStores(Install(b, r, c, b.active), r, c, addr)
    ensures Core(Install(b, r, c, b.active)) && Guarded(Install(b, r, c, b.active), g, addr)
  {
    HandedFacts(a, b, r);
    CapacityFits(b.sizes, c);
    InstallSound(a, b, r, c);
    RegionSlotsNew(a, b, r, c);
    CoreShape(a);
    InstalledShape(b, r, c);
    var d := Install(b, r, c, b.active);
    GuardThrough(a, d, g, addr);
    hide Core, IsOut, PlaceStores, CarveStores, BlockHanded, KeepsOut, NewAddress, Carved, ArenaOwn, Install, InBlock,
      Guarded;
    StepClear(a, d, g, addr);
    if PlaceStores(a, b, e, r, addr) || CarveStores(d, r, c, addr) {
      CreatedOwned(a, b, d, r, c, addr);
    }
  }

  lemma TakeClear(a: Arena, r: nat, g: Guard, addr: nat)
    requires Core(a) && r in a.slabs && a.slabs[r].free != [] && a.slabs[r].head == a.slabs[r].free[0]
    requires Guarded(a, g, addr)
    ensures !TakeStores(a, r, addr)
  {
    hide Core, TakeStores, ArenaOwn, Guarded;
    GuardClear(a, g, addr);
    if TakeStores(a, r, addr) {
      TakenOwned(a, r, addr);
    }
  }

  /** slab_create: the region, wherever it is placed, and its slots. */
  lemma NewSlabClear(a: Arena, c: nat, grant: Option<nat>, g: Guard, addr: nat)
    requires Core(a) && MaybeGrant(a, grant) && c < NUM_CACHES && Guarded(a, g, addr)
    requires GrantGuards(a.sizes, g, grant, addr)
    ensures ExtentsOk(a) && !NewSlabStores(a, c, grant, addr)
  {
    CoreShape(a);
    var target := RequestOrder(a.sizes, SLAB_SIZE, SLAB_MAX_ALIGNMENT);
    hide Core, RequestOrder, Serves, NewSlabStores, GrantOk, Guarded;
    match FindExtent(a, target)
    case Some(e) => ServedSlabClear(a, c, grant, e, g, addr);
    case None =>
      if grant.Some? {
        ExpandedSlabClear(a, c, grant.value, g, addr);
      } else {
        NoSlab(a, c, addr);
      }
  }

  lemma NoSlab(a: Arena, c: nat, addr: nat)
    requires Core(a) && ExtentsOk(a) && c < NUM_CACHES
    requires FindExtent(a, RequestOrder(a.sizes, SLAB_SIZE, SLAB_MAX_ALIGNMENT)) == None
    ensures !NewSlabStores(a, c, None, addr)
  {
    hide Core, IsOut, RequestOrder, Serves, ExtentsOk;
    CoreShape(a);
  }

  lemma ServedSlabClear(a: Arena, c: nat, grant: Option<nat>, e: nat, g: Guard, addr: nat)
    requires Core(a) && ExtentsOk(a) && MaybeGrant(a, grant) && c < NUM_CACHES && Guarded(a, g, addr)
    requires FindExtent(a, RequestOrder(a.sizes, SLAB_SIZE, SLAB_MAX_ALIGNMENT)) == Some(e)
    ensures !NewSlabStores(a, c, grant, addr)
  {
    hide Core, ExtentsOk, PlaceStores, PlaceIn, RequestOrder, Serves, GrantOk, CarveStores, TakeStores, Install,
      Guarded;
    CoreShape(a);
    PlacedSlabClear(a, e, c, g, addr);
  }

  lemma ExpandedSlabClear(a: Arena, c: nat, e: nat, g: Guard, addr: nat)
    requires Core(a) && ExtentsOk(a) && GrantOk(a, e) && c < NUM_CACHES
    requires Guarded(a, g, addr) && GrantGuards(a.sizes, g, Some(e), addr)
    requires FindExtent(a, RequestOrder(a.sizes, SLAB_SIZE, SLAB_MAX_ALIGNMENT)) == None
    ensures !NewSlabStores(a, c, Some(e), addr)
  {
    hide Core, ExtentsOk, PlaceStores, PlaceIn, ExpandStores, Expand, RequestOrder, Serves, GrantOk, CarveStores,
      TakeStores, Install, Guarded;
    CoreShape(a);
    ExpandClear(a, e, g, addr);
    ExpandShape(a, e);
    if Serves(Expand(a, e), e, RequestOrder(a.sizes, SLAB_SIZE, SLAB_MAX_ALIGNMENT)) {
      PlacedSlabClear(Expand(a, e), e, c, g, addr);
    }
  }

  lemma PlacedSlabClear(a: Arena, e: nat, c: nat, g: Guard, addr: nat)
    requires Core(a) && e in a.pools && c < NUM_CACHES && Guarded(a, g, addr)
    requires Serves(a, e, RequestOrder(a.sizes, SLAB_SIZE, SLAB_MAX_ALIGNMENT))
    ensures var (b, r) := PlaceIn(a, e, SLAB_SIZE, SLAB_MAX_ALIGNMENT, true);
            && r > 0 && |b.partial| == NUM_CACHES && b.sizes.Plausible() && b.sizes.Capacity(c) >= 1
            && b.sizes == a.sizes
            && !PlaceStores(a, b, e, r, addr) && !CarveStores(Install(b, r, c, b.active), r, c, addr)
            && !TakeStores(Install(b, r, c, b.active), r, addr)
  {
    PlaceHands(a, e, SLAB_SIZE, SLAB_MAX_ALIGNMENT, true);
    PlaceShape(a, e, SLAB_SIZE, SLAB_MAX_ALIGNMENT, true);
    var (b, r) := PlaceIn(a, e, SLAB_SIZE, SLAB_MAX_ALIGNMENT, true);
    hide Core, IsOut, PlaceStores, PlaceIn, RequestOrder, Serves, CarveStores, TakeStores, Install, BlockHanded, Carved,
      NewAddress, Guarded;
    RegionClear(a, b, e, r, c, g, addr);
    HandedFacts(a, b, r);
    RegionSlotsNew(a, b, r, c);
    InstalledShape(b, r, c);
    TakeClear(Install(b, r, c, b.active), r, g, addr);
  }

  /** slab_alloc stores to no guarded byte. */
  lemma SlabClear(a: Arena, size: nat, grant: Option<nat>, g: Guard, addr: nat)
    requires Core(a) && MaybeGrant(a, grant) && size > 0 && Guarded(a, g, addr) && GrantGuards(a.sizes, g, grant, addr)
    ensures !SlabStores(a, size, grant, addr)
  {
    CoreShape(a);
    hide Core, TakeStores, NewSlabStores, Guarded;
    var c := CacheOf(size);
    if c < NUM_CACHES {
      if a.partial[c] != [] {
        HeadHasRoom(a, c);
        TakeClear(a, a.partial[c][0], g, addr);
      } else {
        NewSlabClear(a, c, grant, g, addr);
      }
    }
  }

  // ---------------------------------------------------------------- frees

  /** Freeing `x` stores to no guarded byte but its own. */
  lemma FreeClear(a: Arena, x: nat, g: Guard, addr: nat)
    requires ArenaInv(a) && IsOut(a, x) && g != HeldBy(x) && Guarded(a, g, addr)
    ensures !FreeStores(a, x, addr) && FreeLocal(a, x).Freed? && Guarded(FreeLocal(a, x).arena, g, addr)
  {
    OutHasHeader(a);
    hide Core, IsOut, PutSlot, Retire, FreeBlock, GivenBack, BlockFreeStores, PutStores, RetireStores, FreeLocal,
      Guarded, PoolsFrom;
    FreeLocalSound(a, x);
    FreeLocalPools(a, x);
    GuardBack(a, FreeLocal(a, x).arena, x, g, addr);
    if a.headers[x].BuddyHeader? {
      BlockFreeClear(a, x, g, addr);
    } else {
      SlotFreeClear(a, x, g, addr);
    }
  }

  lemma GuardBack(a: Arena, b: Arena, x: nat, g: Guard, addr: nat)
    requires GivenBack(a, b, x) && PoolsFrom(a, b, None) && g != HeldBy(x) && Guarded(a, g, addr)
    ensures Guarded(b, g, addr)
  {
    OutHasHeader(a);
    hide IsOut, MappingLow;
    Across(a, b, g, addr);
  }

  lemma BlockFreeClear(a: Arena, x: nat, g: Guard, addr: nat)
    requires Core(a) && IsOut(a, x) && a.headers[x].BuddyHeader? && g != HeldBy(x) && Guarded(a, g, addr)
    ensures !BlockFreeStores(a, FreeBlock(a, x), a.headers[x].ext, x, addr)
  {
    FreeBlockSound(a, x);
    var b := FreeBlock(a, x);
    BlockPools(a, x);
    assert PoolsFrom(a, b, None);
    GuardBack(a, b, x, g, addr);
    CoreShape(b);
    hide Core, IsOut, FreeBlock, GivenBack, BlockFreeStores, ArenaOwn, Guarded;
    StepClear(a, b, g, addr);
    if BlockFreeStores(a, b, a.headers[x].ext, x, addr) {
      BlockFreedOwned(a, b, x, addr);
    }
  }

  lemma SlotFreeClear(a: Arena, x: nat, g: Guard, addr: nat)
    requires Core(a) && IsOut(a, x) && a.headers[x].SlabHeader? && g != HeldBy(x) && Guarded(a, g, addr)
    ensures !FreeStores(a, x, addr)
  {
    OutHasHeader(a);
    hide Core, IsOut, PutSlot, Retire, PutStores, RetireStores, Guarded;
    PutClear(a, x, g, addr);
    var b := PutSlot(a, x, a.headers[x].slab);
    if b.slabs[a.headers[x].slab].used == 0 {
      RetireClear(b, a.headers[x].slab, g, addr);
    }
  }

  lemma PutClear(a: Arena, x: nat, g: Guard, addr: nat)
    requires Core(a) && IsOut(a, x) && a.headers[x].SlabHeader? && g != HeldBy(x) && Guarded(a, g, addr)
    ensures var r := a.headers[x].slab;
            && r in a.slabs && a.slabs[r].cls < NUM_CACHES && a.sizes.Plausible() && a.slabs[r].used > 0
            && |a.partial| == |a.full| == NUM_CACHES && !PutStores(a, x, addr)
            && var b := PutSlot(a, x, r); Core(b) && r in b.slabs && Guarded(b, g, addr)
  {
    OutHasHeader(a);
    hide Core, IsOut, PutSlot, GivenBack, PutStores, ArenaOwn, Guarded, PoolsFrom;
    PutSlotCore(a, x);
    var b := PutSlot(a, x, a.headers[x].slab);
    PutPools(a, x, a.headers[x].slab);
    SamePools(a, b);
    GuardBack(a, b, x, g, addr);
    StepClear(a, b, g, addr);
    if PutStores(a, x, addr) {
      PutOwned(a, x, addr);
    }
  }

  lemma SamePools(a: Arena, b: Arena)
    requires a.pools.Keys == b.pools.Keys && a.sizes == b.sizes
    ensures PoolsFrom(a, b, None)
  {
  }

  lemma RetireClear(b: Arena, r: nat, g: Guard, addr: nat)
    requires Core(b) && r in b.slabs && b.slabs[r].used == 0 && Guarded(b, g, addr)
    ensures b.slabs[r].cls < NUM_CACHES && |b.partial| == NUM_CACHES && r in b.headers && b.headers[r].BuddyHeader?
    ensures ExtentsOk(b) && Taken(b, b.slabs[r].ext, b.headers[r].node) && !RetireStores(b, Retire(b, r), r, addr)
  {
    hide Core, IsOut, Retire, RetireStores, ArenaOwn, Guarded;
    CoreShape(b);
    RetireSound(b, r);
    var c := Retire(b, r);
    RetirePools(b, r);
    GuardAfterRetire(b, c, g, addr);
    CoreShape(c);
    StepClear(b, c, g, addr);
    if RetireStores(b, c, r, addr) {
      RetiredOwned(b, c, r, addr);
    }
  }

  lemma RetirePools(b: Arena, r: nat)
    requires r in b.slabs && b.slabs[r].cls < NUM_CACHES && |b.partial| == NUM_CACHES
    requires r in b.headers && b.headers[r].BuddyHeader? && ExtentsOk(b) && Taken(b, b.slabs[r].ext, b.headers[r].node)
    ensures Retire(b, r).pools.Keys == b.pools.Keys && Retire(b, r).sizes == b.sizes
  {
    hide BuddySpec.Free, Without, ExtentsOk;
  }

  lemma GuardAfterRetire(b: Arena, c: Arena, g: Guard, addr: nat)
    requires (forall y: nat :: IsOut(c, y) <==> IsOut(b, y)) && c.headers == b.headers && c.sizes == b.sizes
    requires c.pools.Keys == b.pools.Keys && Guarded(b, g, addr)
    ensures Guarded(c, g, addr)
  {
    OutHasHeader(b);
    hide IsOut, MappingLow;
    Across(b, c, g, addr);
  }

  /** A drain stores to no guarded byte but of what it drains. */
  lemma {:induction false} FreeAllClear(a: Arena, s: seq<nat>, g: Guard, addr: nat)
    requires ArenaInv(a) && Distinct(s) && (forall x <- s :: IsOut(a, x)) && (g.HeldBy? ==> g.y !in s)
    requires Guarded(a, g, addr)
    ensures !FreeAllStores(a, s, addr) && Guarded(FreeAll(a, s), g, addr)
    decreases |s|
  {
    hide Core, IsOut, FreeStores, FreeLocal, Guarded, GivenBack;
    if s != [] {
      TailMembers(s);
      FreeLocalSound(a, s[0]);
      StillOut(a, s);
      FreeClear(a, s[0], g, addr);
      FreeAllClear(FreeLocal(a, s[0]).arena, s[1..], g, addr);
    }
  }
}
