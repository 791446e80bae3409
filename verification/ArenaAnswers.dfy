/** When the calls of src/slab.c and src/arena.c answer NULL, in terms of what is handed
    out, what waits on the remote stack and what the source offers: each condition can be
    read off the state before the call. */
module ArenaAnswers {
  import opened Words
  import opened BuddyTree
  import opened BuddySpec
  import opened BuddyLayout
  import opened BuddyAnswers
  import opened SlabLayout
  import opened Arena
  import opened ArenaOps
  import opened ArenaBlocks
  import opened ArenaSlabs
  import opened ArenaFrees
  import opened ArenaTheorems
  import opened ArenaCalls
  import opened Remote

  // ------------------------------------------------------- what can serve

  /** Extent `e` has an untouched aligned block of at least `bytes`. */
  ghost predicate RoomIn(a: Arena, e: nat, bytes: nat)
    requires ExtentsOk(a)
  {
    e in a.pools && (assert BuddySpec.Inv(a.pools[e]); PoolRoom(a.pools[e], bytes))
  }

  ghost predicate RoomFor(a: Arena, bytes: nat)
    requires ExtentsOk(a)
  {
    exists e: nat :: RoomIn(a, e, bytes)
  }

  /** Class `c` is the smallest that holds `size`. */
  predicate FitsClass(size: nat, c: nat) {
    c < NUM_CACHES && size <= SIZE_CLASSES[c] && forall k :: 0 <= k < c ==> SIZE_CLASSES[k] < size
  }

  /** A slab of the class for `size` has a slot that is not in use. */
  ghost predicate FreeSlotFor(a: Arena, size: nat) {
    exists r :: r in a.slabs && FitsClass(size, a.slabs[r].cls) && a.sizes.Plausible()
      && a.slabs[r].used < a.sizes.Capacity(a.slabs[r].cls)
  }

  /** What the region of a slab takes up: 16 KiB, header, back pointer and slack. */
  function RegionBytes(sz: Sizes): nat {
    16 * 1024 + PTR_SIZE + sz.buddyHeader + 15
  }

  /** A small object can be had without a new extent. */
  ghost predicate Servable(a: Arena, size: nat)
    requires ExtentsOk(a)
  {
    FreeSlotFor(a, size) || RoomFor(a, RegionBytes(a.sizes))
  }

  /** An extent at `g`, with its metadata before it, fits the address space and meets no
      other extent and none of the mappings. */
  predicate UsableExtent(a: Arena, ms: set<Mapping>, g: Option<nat>) {
    g.Some?
    && var lo: int, hi := g.value - a.sizes.meta, g.value + BlockBytes(a.sizes.root);
       && 0 < lo && hi <= WORD
       && (forall f <- a.pools :: hi <= f - a.sizes.meta || f + BlockBytes(a.sizes.root) <= lo)
       && forall m <- ms :: m.lo + m.bytes <= lo || hi <= m.lo
  }

  lemma OfferIffUsable(a: Arena, ms: set<Mapping>, g: Option<nat>)
    ensures Offer(a, ms, g) == if UsableExtent(a, ms, g) then g else None
    ensures UsableExtent(a, ms, g) ==> g.Some?
  {
  }

  // ----------------------------------------------------- block requests

  lemma ServesIffRoom(a: Arena, e: nat, size: nat, alignment: nat)
    requires ExtentsOk(a) && e in a.pools && 0 < size < WORD && alignment < WORD && AlignmentIsValid(alignment)
    ensures alignment > 0
    ensures Serves(a, e, RequestOrder(a.sizes, size, alignment))
            <==> RoomIn(a, e, Footprint(size, a.sizes.buddyHeader, alignment))
  {
    hide Alloc, PoolRoom, SizeToOrder, AlignmentIsValid, Footprint;
    assert BuddySpec.Inv(a.pools[e]);
    hide BuddySpec.Inv;
    PoolServesIff(a.pools[e], a.sizes.buddyHeader, size, alignment);
  }

  lemma FoundIffRoom(a: Arena, size: nat, alignment: nat)
    requires ExtentsOk(a) && 0 < size < WORD && alignment < WORD && AlignmentIsValid(alignment)
    ensures alignment > 0
    ensures FindExtent(a, RequestOrder(a.sizes, size, alignment)).Some?
            <==> RoomFor(a, Footprint(size, a.sizes.buddyHeader, alignment))
  {
    ValidPositive(alignment);
    hide ExtentsOk, Serves, RequestOrder, AlignmentIsValid, Footprint, RoomIn;
    var target := RequestOrder(a.sizes, size, alignment);
    var bytes := Footprint(size, a.sizes.buddyHeader, alignment);
    forall e <- a.pools
      ensures Serves(a, e, target) <==> RoomIn(a, e, bytes)
    {
      ServesIffRoom(a, e, size, alignment);
    }
    RoomInPool(a, bytes);
    if FindExtent(a, target).Some? {
      assert RoomIn(a, FindExtent(a, target).value, bytes);
    }
  }

  lemma RoomInPool(a: Arena, bytes: nat)
    requires ExtentsOk(a)
    ensures forall e: nat :: RoomIn(a, e, bytes) ==> e in a.pools
  {
  }

  /** A new extent has room for what a whole pool holds. */
  lemma NewExtentServesIff(a: Arena, e: nat, size: nat, alignment: nat)
    requires ExtentsOk(a) && GrantOk(a, e) && 0 < size < WORD && alignment < WORD && AlignmentIsValid(alignment)
    ensures alignment > 0 && ExtentsOk(Expand(a, e))
    ensures e in Expand(a, e).pools
    ensures Serves(Expand(a, e), e, RequestOrder(a.sizes, size, alignment))
            <==> Footprint(size, a.sizes.buddyHeader, alignment) <= BlockBytes(a.sizes.root)
  {
    ExpandOk(a, e);
    hide AlignmentIsValid, SizeToOrder, Alloc, BuddySpec.Inv, Create, Footprint, BlockBytes;
    OrderIsLeast(a.sizes.root, a.sizes.buddyHeader, size, alignment);
    FreshServesIff(a.sizes.root, RequestOrder(a.sizes, size, alignment));
  }

  lemma FreshServesIff(root: nat, target: nat)
    ensures BuddySpec.Inv(Create(root)) && (Alloc(Create(root), target).1.Some? <==> target <= root)
  {
    CreateSound(root);
    hide BuddySpec.Inv;
    if target <= root {
      var o := FirstNonEmpty(Create(root).lists, target);
      assert Create(root).lists[root] != [];
    }
  }

  /** A block request answers NULL if and only if no pool has an untouched block for it and
      the source grants no extent, or none that is large enough. */
  lemma BlockFailsExactly(a: Arena, size: nat, alignment: nat, isRegion: bool, grant: Option<nat>)
    requires Core(a) && MaybeGrant(a, grant) && 0 < size < WORD && alignment < WORD && AlignmentIsValid(alignment)
    ensures alignment > 0 && ExtentsOk(a)
    ensures var bytes := Footprint(size, a.sizes.buddyHeader, alignment);
            AllocBlock(a, size, alignment, isRegion, grant).1 == 0
            <==> !RoomFor(a, bytes) && (grant.None? || BlockBytes(a.sizes.root) < bytes)
  {
    CoreShape(a);
    hide Core, ExtentsOk, PlaceIn, RequestOrder, Serves, Expand, RoomFor, AlignmentIsValid, Footprint, GrantOk,
      BlockBytes;
    FoundIffRoom(a, size, alignment);
    var target := RequestOrder(a.sizes, size, alignment);
    match FindExtent(a, target)
    case Some(e) => PlacedNotNull(a, e, size, alignment, isRegion);
    case None =>
      if grant.Some? {
        NewExtentServesIff(a, grant.value, size, alignment);
        ExpandSizes(a, grant.value);
        if Serves(Expand(a, grant.value), grant.value, target) {
          PlacedNotNull(Expand(a, grant.value), grant.value, size, alignment, isRegion);
        }
      }
  }

  lemma ExpandSizes(a: Arena, e: nat)
    ensures Expand(a, e).sizes == a.sizes
  {
  }

  lemma PlacedNotNull(a: Arena, e: nat, size: nat, alignment: nat, isRegion: bool)
    requires ExtentsOk(a) && e in a.pools && 0 < alignment < WORD && size < WORD
    requires Serves(a, e, RequestOrder(a.sizes, size, alignment))
    ensures PlaceIn(a, e, size, alignment, isRegion).1 > 0
  {
    PlaceFacts(a, e, size, alignment, isRegion);
  }

  /** While there is room no extent is mapped, and the active extent comes first. */
  lemma RoomIsUsed(a: Arena, size: nat, alignment: nat, isRegion: bool, grant: Option<nat>)
    requires Core(a) && MaybeGrant(a, grant) && 0 < size < WORD && alignment < WORD && AlignmentIsValid(alignment)
    ensures alignment > 0 && ExtentsOk(a)
    ensures var bytes := Footprint(size, a.sizes.buddyHeader, alignment);
            var b := AllocBlock(a, size, alignment, isRegion, grant).0;
            && (RoomFor(a, bytes) ==> b.pools.Keys == a.pools.Keys && b.active in a.pools)
            && (RoomIn(a, a.active, bytes) ==> b.active == a.active)
            && (forall e <- a.pools :: e != b.active ==> e in b.pools && b.pools[e] == a.pools[e])
            && (!RoomFor(a, bytes) ==> b.pools.Keys == a.pools.Keys + if grant.Some? then {grant.value} else {})
  {
    CoreShape(a);
    hide Core, ExtentsOk, RequestOrder, Serves, RoomFor, RoomIn, AlignmentIsValid, Footprint, GrantOk, Alloc, UserAt,
      Create;
    FoundIffRoom(a, size, alignment);
    ActiveFirst(a, size, alignment);
    var target := RequestOrder(a.sizes, size, alignment);
    match FindExtent(a, target)
    case Some(e) => PlaceTouches(a, e, size, alignment, isRegion);
    case None =>
      if grant.Some? {
        NewExtentServesIff(a, grant.value, size, alignment);
        NewExtentIsNew(a, grant.value);
        if Serves(Expand(a, grant.value), grant.value, target) {
          PlaceTouches(Expand(a, grant.value), grant.value, size, alignment, isRegion);
        }
      }
  }

  lemma NewExtentIsNew(a: Arena, e: nat)
    requires GrantOk(a, e)
    ensures e !in a.pools && Expand(a, e).active == e && Expand(a, e).pools.Keys == a.pools.Keys + {e}
    ensures forall f <- a.pools :: Expand(a, e).pools[f] == a.pools[f]
  {
  }

  lemma ActiveFirst(a: Arena, size: nat, alignment: nat)
    requires ExtentsOk(a) && 0 < size < WORD && alignment < WORD && AlignmentIsValid(alignment)
    ensures alignment > 0
    ensures RoomIn(a, a.active, Footprint(size, a.sizes.buddyHeader, alignment)) ==>
              FindExtent(a, RequestOrder(a.sizes, size, alignment)) == Some(a.active)
  {
    ValidPositive(alignment);
    hide Serves, RequestOrder, AlignmentIsValid, Footprint, RoomIn;
    ServesIffRoom(a, a.active, size, alignment);
  }

  lemma {:induction false} FirstServingIs(a: Arena, es: seq<nat>, target: nat)
    requires ExtentsOk(a) && forall e <- es :: e in a.pools
    ensures FirstServing(a, es, target).Some? ==>
              exists i: nat :: i < |es| && FirstServing(a, es, target).value == es[i]
                               && forall j: nat :: j < i ==> es[j] == a.active || !Serves(a, es[j], target)
    decreases |es|
  {
    hide ExtentsOk, Serves;
    if es != [] && (es[0] == a.active || !Serves(a, es[0], target)) {
      assert forall e <- es[1..] :: e in es;
      FirstServingIs(a, es[1..], target);
      if FirstServing(a, es, target).Some? {
        var i: nat :| i < |es[1..]| && FirstServing(a, es[1..], target).value == es[1..][i]
                      && forall j: nat :: j < i ==> es[1..][j] == a.active || !Serves(a, es[1..][j], target);
        assert es[i + 1] == es[1..][i];
        assert forall j: nat :: 0 < j < i + 1 ==> es[j] == es[1..][j - 1];
      }
    }
  }

  lemma ExtentsInPools(a: Arena)
    requires ExtentsOk(a)
    ensures a.active in a.pools && forall e: nat :: e in a.extents <==> e in a.pools
  {
    assert forall e: nat :: e in Elems(a.extents) <==> e in a.extents;
  }

  lemma FoundFirst(a: Arena, size: nat, alignment: nat)
    requires ExtentsOk(a) && 0 < size < WORD && alignment < WORD && AlignmentIsValid(alignment)
    ensures alignment > 0
    ensures var bytes := Footprint(size, a.sizes.buddyHeader, alignment);
            var found := FindExtent(a, RequestOrder(a.sizes, size, alignment));
            !RoomIn(a, a.active, bytes) && RoomFor(a, bytes) ==>
              && found.Some?
              && exists i: nat :: i < |a.extents| && found.value == a.extents[i] && RoomIn(a, a.extents[i], bytes)
                                  && forall j: nat :: j < i ==> !RoomIn(a, a.extents[j], bytes)
  {
    hide ExtentsOk, RequestOrder, Serves, RoomFor, RoomIn, AlignmentIsValid, Footprint, FirstServing;
    ValidPositive(alignment);
    var target, bytes := RequestOrder(a.sizes, size, alignment), Footprint(size, a.sizes.buddyHeader, alignment);
    FoundIffRoom(a, size, alignment);
    ExtentsInPools(a);
    forall e <- a.pools
      ensures Serves(a, e, target) <==> RoomIn(a, e, bytes)
    {
      ServesIffRoom(a, e, size, alignment);
    }
    FirstServingIs(a, a.extents, target);
    assert forall j: nat :: j < |a.extents| ==> a.extents[j] in a.pools;
  }

  /** When the active extent has no room, the first in the list that has serves and becomes
      the active one. */
  lemma FirstWithRoom(a: Arena, size: nat, alignment: nat, isRegion: bool, grant: Option<nat>)
    requires Core(a) && MaybeGrant(a, grant) && 0 < size < WORD && alignment < WORD && AlignmentIsValid(alignment)
    ensures alignment > 0 && ExtentsOk(a)
    ensures var bytes := Footprint(size, a.sizes.buddyHeader, alignment);
            !RoomIn(a, a.active, bytes) && RoomFor(a, bytes) ==>
              exists i: nat :: i < |a.extents|
                               && AllocBlock(a, size, alignment, isRegion, grant).0.active == a.extents[i]
                               && RoomIn(a, a.extents[i], bytes)
                               && forall j: nat :: j < i ==> !RoomIn(a, a.extents[j], bytes)
  {
    hide Core, ExtentsOk, RequestOrder, Serves, RoomFor, RoomIn, AlignmentIsValid, Footprint, GrantOk, FindExtent,
      PlaceIn;
    CoreShape(a);
    FoundFirst(a, size, alignment);
    var found := FindExtent(a, RequestOrder(a.sizes, size, alignment));
    if found.Some? {
      PlaceTouches(a, found.value, size, alignment, isRegion);
    }
  }

  lemma PlaceTouches(a: Arena, e: nat, size: nat, alignment: nat, isRegion: bool)
    requires ExtentsOk(a) && e in a.pools && alignment > 0 && Serves(a, e, RequestOrder(a.sizes, size, alignment))
    ensures var b := PlaceIn(a, e, size, alignment, isRegion).0;
            && b.active == e && b.pools.Keys == a.pools.Keys
            && forall f <- a.pools :: f != e ==> b.pools[f] == a.pools[f]
  {
    hide Alloc, RequestOrder, UserAt;
  }

  // -------------------------------------------------------- slab requests

  /** The class of a request has a partial slab exactly when it has a free slot. */
  lemma PartialIffFreeSlot(a: Arena, size: nat)
    requires Core(a) && CacheOf(size) < NUM_CACHES
    ensures |a.partial| == NUM_CACHES && (a.partial[CacheOf(size)] != [] <==> FreeSlotFor(a, size))
  {
    hide Core, FreeSlotFor, CachesOk, IsFull, Sizes.Capacity, Sizes.Plausible;
    CoreShape(a);
    CachesAre(a);
    var c := CacheOf(size);
    if a.partial[c] != [] {
      var r := a.partial[c][0];
      OnPartial(a, c, r);
      UsedAtMost(a, r);
      CacheFits(size);
      HasFreeSlot(a, r, size);
    }
    if FreeSlotFor(a, size) {
      var r := FreeSlotIn(a, size);
      OneClass(size, a.slabs[r].cls);
      OnPartial(a, c, r);
    }
  }

  lemma OnPartial(a: Arena, c: nat, r: nat)
    requires CachesOk(a) && c < NUM_CACHES
    ensures |a.partial| == NUM_CACHES && (r in a.partial[c] <==> r in a.slabs && a.slabs[r].cls == c && !IsFull(a, r))
  {
    hide IsFull;
  }

  lemma HasFreeSlot(a: Arena, r: nat, size: nat)
    requires r in a.slabs && FitsClass(size, a.slabs[r].cls) && a.sizes.Plausible()
    requires a.slabs[r].used < a.sizes.Capacity(a.slabs[r].cls)
    ensures FreeSlotFor(a, size)
  {
    hide FitsClass, Sizes.Capacity, Sizes.Plausible;
  }

  lemma FreeSlotIn(a: Arena, size: nat) returns (r: nat)
    requires FreeSlotFor(a, size)
    ensures r in a.slabs && FitsClass(size, a.slabs[r].cls) && !IsFull(a, r)
  {
    hide Sizes.Capacity, Sizes.Plausible;
    r :| r in a.slabs && FitsClass(size, a.slabs[r].cls) && a.sizes.Plausible()
      && a.slabs[r].used < a.sizes.Capacity(a.slabs[r].cls);
  }

  lemma OneClass(size: nat, c: nat)
    requires FitsClass(size, c) && CacheOf(size) < NUM_CACHES
    ensures c == CacheOf(size)
  {
  }

  lemma CachesAre(a: Arena)
    requires Core(a)
    ensures CachesOk(a)
  {
  }

  lemma UsedAtMost(a: Arena, r: nat)
    requires Core(a) && r in a.slabs && a.slabs[r].cls < NUM_CACHES && !IsFull(a, r)
    ensures a.sizes.Plausible() && a.slabs[r].used < a.sizes.Capacity(a.slabs[r].cls)
  {
    CoreShape(a);
    assert SlabOk(a, r);
    hide Sizes.Capacity, SlotsOf, Chain, Sizes.Plausible;
  }

  lemma RegionIsFootprint(sz: Sizes)
    ensures Footprint(SLAB_SIZE, sz.buddyHeader, SLAB_MAX_ALIGNMENT) == RegionBytes(sz)
    ensures AlignmentIsValid(SLAB_MAX_ALIGNMENT) && SLAB_SIZE < WORD
  {
    assert Pow2(4) == 16;
    AlignmentValidIffPow2(16);
  }

  /** A region always fits a pool of its own. */
  lemma RegionFitsPool(sz: Sizes)
    requires sz.Plausible()
    ensures RegionBytes(sz) <= BlockBytes(sz.root)
  {
    RegionIsFootprint(sz);
    hide SizeToOrder, AlignmentIsValid, BlockBytes, Footprint;
    OrderIsLeast(sz.root, sz.buddyHeader, SLAB_SIZE, SLAB_MAX_ALIGNMENT);
  }

  lemma CreateFailsExactly(a: Arena, c: nat, grant: Option<nat>)
    requires Core(a) && MaybeGrant(a, grant) && c < NUM_CACHES
    ensures ExtentsOk(a) && |a.partial| == NUM_CACHES
    ensures SlabCreate(a, c, grant).1 == 0 <==> !RoomFor(a, RegionBytes(a.sizes)) && grant.None?
    ensures SlabCreate(a, c, grant).1 == 0 ==> SlabCreate(a, c, grant).0 == a
  {
    CoreShape(a);
    RegionIsFootprint(a.sizes);
    RegionFitsPool(a.sizes);
    hide Core, ExtentsOk, AllocBlock, Install, RoomFor, AlignmentIsValid, Footprint, GrantOk, Sizes.Plausible,
      BlockBytes;
    BlockFailsExactly(a, SLAB_SIZE, SLAB_MAX_ALIGNMENT, true, grant);
    if SlabCreate(a, c, grant).1 == 0 {
      RefusedIsSame(a);
    }
  }

  lemma RefusedIsSame(a: Arena)
    requires ExtentsOk(a) && AllocBlock(a, SLAB_SIZE, SLAB_MAX_ALIGNMENT, true, None).1 == 0
    requires Core(a)
    ensures AllocBlock(a, SLAB_SIZE, SLAB_MAX_ALIGNMENT, true, None).0 == a
  {
    hide Core, ExtentsOk, PlaceIn, RequestOrder, Serves;
    var target := RequestOrder(a.sizes, SLAB_SIZE, SLAB_MAX_ALIGNMENT);
    match FindExtent(a, target)
    case Some(e) => PlacedNotNull(a, e, SLAB_SIZE, SLAB_MAX_ALIGNMENT, true);
    case None =>
  }

  /** slab_alloc answers NULL if and only if the request exceeds the largest class, or no
      slab of its class has a free slot, no pool has room for a region and the source grants
      no extent; and then the arena is as it was. */
  lemma SlabAllocFailsIff(a: Arena, size: nat, grant: Option<nat>)
    requires Core(a) && MaybeGrant(a, grant) && size > 0
    ensures ExtentsOk(a)
    ensures SlabAlloc(a, size, grant).1 == 0
            <==> size > 1024 || (!FreeSlotFor(a, size) && !RoomFor(a, RegionBytes(a.sizes)) && grant.None?)
    ensures SlabAlloc(a, size, grant).1 == 0 ==> SlabAlloc(a, size, grant).0 == a
  {
    CoreShape(a);
    hide Core, ExtentsOk, SlabCreate, TakeSlot, RoomFor, FreeSlotFor, GrantOk;
    var c := CacheOf(size);
    if c < NUM_CACHES {
      PartialIffFreeSlot(a, size);
      if a.partial[c] != [] {
        HeadHasRoom(a, c);
        HeadNotNull(a, a.partial[c][0]);
      } else {
        CreateFailsExactly(a, c, grant);
        var (b, r) := SlabCreate(a, c, grant);
        if r != 0 {
          SlabCreateSound(a, c, grant);
          NewHasRoom(b, r);
          HeadNotNull(b, r);
        }
      }
    }
  }

  lemma HeadNotNull(a: Arena, r: nat)
    requires Core(a) && r in a.slabs && a.slabs[r].free != []
    ensures a.slabs[r].head > 0
  {
    hide ExtentsOk, BlocksOk, CachesOk, RegionOk, UsedHeadersOk, SlotsOf, Sizes.Capacity, Sizes.Plausible;
    assert SlabOk(a, r);
  }

  /** A free slot is used before anything else: no slab is made and no pool touched. */
  lemma FreeSlotIsUsed(a: Arena, size: nat, grant: Option<nat>)
    requires Core(a) && MaybeGrant(a, grant) && size > 0 && FreeSlotFor(a, size)
    ensures var (b, x) := SlabAlloc(a, size, grant);
            && b.pools == a.pools && b.slabs.Keys == a.slabs.Keys
            && exists r :: r in a.slabs && FitsClass(size, a.slabs[r].cls) && x in a.slabs[r].free
  {
    hide Core, SlabCreate, FreeSlotFor, GrantOk, TakeSlot, FitsClass, Sizes.Plausible;
    FreeSlotSmall(a, size);
    CoreShape(a);
    PartialIffFreeSlot(a, size);
    HeadHasRoom(a, CacheOf(size));
    var r := a.partial[CacheOf(size)][0];
    TakeTouches(a, r, size);
    CacheFits(size);
    assert a.slabs[r].free[0] in a.slabs[r].free;
  }

  lemma TakeTouches(a: Arena, r: nat, size: nat)
    requires r in a.slabs && a.slabs[r].cls < NUM_CACHES && a.sizes.Plausible()
    requires a.slabs[r].free != [] && a.slabs[r].head in a.word && |a.partial| == |a.full| == NUM_CACHES
    ensures TakeSlot(a, r, size).pools == a.pools && TakeSlot(a, r, size).slabs.Keys == a.slabs.Keys
  {
    hide Without, Sizes.Capacity, Sizes.Plausible;
  }

  lemma CacheFits(size: nat)
    requires CacheOf(size) < NUM_CACHES
    ensures FitsClass(size, CacheOf(size))
  {
  }

  lemma FreeSlotSmall(a: Arena, size: nat)
    requires FreeSlotFor(a, size)
    ensures CacheOf(size) < NUM_CACHES
  {
    var r :| r in a.slabs && FitsClass(size, a.slabs[r].cls);
    ClassMultiple(a.slabs[r].cls);
  }

  /** An extent is mapped for a small object only when no free slot and no pool serves. */
  lemma SlabGrowsIff(a: Arena, size: nat, grant: Option<nat>)
    requires Core(a) && MaybeGrant(a, grant) && 0 < size <= 1024
    ensures ExtentsOk(a)
    ensures SlabAlloc(a, size, grant).0.pools.Keys
            == a.pools.Keys + if !Servable(a, size) && grant.Some? then {grant.value} else {}
  {
    CoreShape(a);
    hide Core, ExtentsOk, SlabCreate, TakeSlot, RoomFor, FreeSlotFor, GrantOk;
    PartialIffFreeSlot(a, size);
    if FreeSlotFor(a, size) {
      FreeSlotIsUsed(a, size, grant);
    } else {
      CreateGrows(a, CacheOf(size), grant);
      var (b, r) := SlabCreate(a, CacheOf(size), grant);
      if r != 0 {
        SlabCreateSound(a, CacheOf(size), grant);
        NewHasRoom(b, r);
        TakeTouches(b, r, size);
      }
    }
  }

  lemma CreateGrows(a: Arena, c: nat, grant: Option<nat>)
    requires Core(a) && MaybeGrant(a, grant) && c < NUM_CACHES
    ensures ExtentsOk(a) && |a.partial| == NUM_CACHES
    ensures SlabCreate(a, c, grant).0.pools.Keys
            == a.pools.Keys + if !RoomFor(a, RegionBytes(a.sizes)) && grant.Some? then {grant.value} else {}
  {
    hide Core, ExtentsOk, AllocBlock, SlabCreate, RoomFor, RoomIn, AlignmentIsValid, Footprint, GrantOk;
    CoreShape(a);
    RegionIsFootprint(a.sizes);
    RoomIsUsed(a, SLAB_SIZE, SLAB_MAX_ALIGNMENT, true, grant);
    CreatePools(a, c, grant);
  }

  lemma CreatePools(a: Arena, c: nat, grant: Option<nat>)
    requires ExtentsOk(a) && MaybeGrant(a, grant) && c < NUM_CACHES && |a.partial| == NUM_CACHES
    ensures SlabCreate(a, c, grant).0.pools == AllocBlock(a, SLAB_SIZE, SLAB_MAX_ALIGNMENT, true, grant).0.pools
  {
    hide ExtentsOk, AllocBlock, Install, GrantOk, Sizes.Plausible, Sizes.Capacity;
    var (b, r) := AllocBlock(a, SLAB_SIZE, SLAB_MAX_ALIGNMENT, true, grant);
    if r != 0 {
      PlausibleSizes(a);
      AllocBlockKeepsShape(a, SLAB_SIZE, SLAB_MAX_ALIGNMENT, true, grant);
      CapacityFits(b.sizes, c);
      InstallPools(b, r, c, b.active);
    }
  }

  lemma PlausibleSizes(a: Arena)
    requires ExtentsOk(a)
    ensures a.sizes.Plausible()
  {
    hide BuddySpec.Inv, Sizes.Plausible;
  }

  lemma InstallPools(b: Arena, r: nat, c: nat, e: nat)
    requires c < NUM_CACHES && b.sizes.Plausible() && |b.partial| == NUM_CACHES && b.sizes.Capacity(c) >= 1
    ensures Install(b, r, c, e).pools == b.pools
  {
    CarvePools(b, r, c, b.sizes.Capacity(c));
    hide Carve, Sizes.Capacity, Sizes.Plausible;
  }

  // -------------------------------------------------------------- drains

  /** A pool that has taken a block back has no less room. */
  lemma PoolBackKeepsRoom(a: Arena, b: Arena, e: nat, n: nat, bytes: nat)
    requires ExtentsOk(a) && ExtentsOk(b) && Taken(a, e, n) && b.sizes == a.sizes
    requires BuddySpec.Inv(a.pools[e]) && Shape(a.pools[e]) && n < |a.pools[e].tree|
    requires b.pools == a.pools[e := Free(a.pools[e], n)] && RoomFor(a, bytes)
    ensures RoomFor(b, bytes)
  {
    hide PoolRoom, BuddySpec.Inv, Free;
    var f: nat :| RoomIn(a, f, bytes);
    if f == e {
      TakenIsFull(a, e, n);
      FreeKeepsRoom(a.pools[e], n, bytes);
    }
    assert RoomIn(b, f, bytes);
  }

  lemma TakenFacts(a: Arena, e: nat, n: nat)
    requires ExtentsOk(a) && Taken(a, e, n)
    ensures e in a.pools && BuddySpec.Inv(a.pools[e]) && Shape(a.pools[e]) && n < |a.pools[e].tree|
    ensures a.pools[e].root == a.sizes.root && n in Fulls(a.pools[e])
  {
    TakenIsFull(a, e, n);
  }

  /** Freeing a direct block leaves whatever could be served servable. */
  lemma BlockFreeHelps(a: Arena, x: nat, size: nat)
    requires Core(a) && IsOut(a, x) && a.headers[x].BuddyHeader?
    ensures ExtentsOk(a) && ExtentsOk(FreeBlock(a, x)) && (Servable(a, size) ==> Servable(FreeBlock(a, x), size))
  {
    FreeBlockSound(a, x);
    CoreShape(a);
    CoreShape(FreeBlock(a, x));
    var b := FreeBlock(a, x);
    OutBlockTaken(a, x);
    TakenFacts(a, a.headers[x].ext, a.headers[x].node);
    hide Core, IsOut, ExtentsOk, RoomFor, GivenBack, Taken, BuddySpec.Inv, Free;
    if RoomFor(a, RegionBytes(a.sizes)) {
      PoolBackKeepsRoom(a, b, a.headers[x].ext, a.headers[x].node, RegionBytes(a.sizes));
    }
  }

  lemma OutBlockTaken(a: Arena, x: nat)
    requires IsOut(a, x) && a.headers[x].BuddyHeader?
    ensures x in a.headers && Taken(a, a.headers[x].ext, a.headers[x].node)
  {
    hide Taken, BlockAt;
  }

  /** Putting a slot back does too. */
  lemma PutHelps(a: Arena, x: nat, size: nat)
    requires Core(a) && IsOut(a, x) && a.headers[x].SlabHeader?
    ensures var r := a.headers[x].slab;
            && r in a.slabs && a.slabs[r].cls < NUM_CACHES && a.sizes.Plausible() && a.slabs[r].used > 0
            && |a.partial| == |a.full| == NUM_CACHES && ExtentsOk(a)
            && var b := PutSlot(a, x, r); ExtentsOk(b) && Core(b) && (Servable(a, size) ==> Servable(b, size))
  {
    hide Core, IsOut, ExtentsOk, PutSlot, GivenBack, RoomFor, FreeSlotFor, Sizes.Plausible;
    IsOutHas(a, x);
    PutSlotCore(a, x);
    var r := a.headers[x].slab;
    var b := PutSlot(a, x, r);
    PutPools(a, x, r);
    PutUses(a, x, r);
    CoreShape(a);
    CoreShape(b);
    SlotsGained(a, b, size);
    SamePoolsSameRoom(a, b, RegionBytes(a.sizes));
  }

  lemma IsOutHas(a: Arena, x: nat)
    requires IsOut(a, x)
    ensures x in a.headers
  {
    OutHasHeader(a);
    hide IsOut;
  }

  lemma SlotsGained(a: Arena, b: Arena, size: nat)
    requires b.slabs.Keys == a.slabs.Keys && b.sizes == a.sizes
    requires forall q <- a.slabs :: b.slabs[q].cls == a.slabs[q].cls && b.slabs[q].used <= a.slabs[q].used
    ensures FreeSlotFor(a, size) ==> FreeSlotFor(b, size)
  {
    hide Sizes.Capacity, Sizes.Plausible;
    if FreeSlotFor(a, size) {
      var q :| q in a.slabs && FitsClass(size, a.slabs[q].cls) && a.sizes.Plausible()
        && a.slabs[q].used < a.sizes.Capacity(a.slabs[q].cls);
      assert q in b.slabs && b.slabs[q].cls == a.slabs[q].cls;
    }
  }

  lemma PutUses(a: Arena, x: nat, r: nat)
    requires r in a.slabs && a.slabs[r].cls < NUM_CACHES && a.sizes.Plausible() && a.slabs[r].used > 0
    requires |a.partial| == |a.full| == NUM_CACHES && x in a.headers && a.headers[x].SlabHeader?
    ensures var b := PutSlot(a, x, r);
            && b.slabs.Keys == a.slabs.Keys && b.sizes == a.sizes
            && forall q <- a.slabs :: b.slabs[q].cls == a.slabs[q].cls && b.slabs[q].used <= a.slabs[q].used
  {
    hide Without, Sizes.Plausible, Sizes.Capacity;
  }

  lemma SamePoolsSameRoom(a: Arena, b: Arena, bytes: nat)
    requires ExtentsOk(a) && ExtentsOk(b) && a.pools == b.pools
    ensures RoomFor(a, bytes) ==> RoomFor(b, bytes)
  {
    hide PoolRoom, BuddySpec.Inv;
    if RoomFor(a, bytes) {
      var e: nat :| RoomIn(a, e, bytes);
      assert RoomIn(b, e, bytes);
    }
  }

  /** A retired slab makes room for another region in its place. */
  lemma RetireHelps(a: Arena, r: nat, size: nat)
    requires Core(a) && r in a.slabs && a.slabs[r].used == 0
    ensures a.slabs[r].cls < NUM_CACHES && |a.partial| == NUM_CACHES && r in a.headers && a.headers[r].BuddyHeader?
    ensures ExtentsOk(a) && Taken(a, a.slabs[r].ext, a.headers[r].node)
    ensures ExtentsOk(Retire(a, r)) && Servable(Retire(a, r), size)
  {
    RetireSound(a, r);
    var b := Retire(a, r);
    CoreShape(a);
    CoreShape(b);
    TakenFacts(a, a.slabs[r].ext, a.headers[r].node);
    RegionHolds(a, r);
    RetiredPool(a, r);
    hide Core, IsOut, ExtentsOk, Retire, Taken, PoolRoom, BuddySpec.Inv, Free, Order, BlockBytes;
    FreedIsRoom(a.pools[a.slabs[r].ext], a.headers[r].node, RegionBytes(a.sizes));
    assert RoomIn(b, a.slabs[r].ext, RegionBytes(b.sizes));
  }

  lemma RetiredPool(a: Arena, r: nat)
    requires r in a.slabs && a.slabs[r].cls < NUM_CACHES && |a.partial| == NUM_CACHES && r in a.headers
    requires a.headers[r].BuddyHeader? && ExtentsOk(a) && Taken(a, a.slabs[r].ext, a.headers[r].node)
    ensures var e := a.slabs[r].ext;
            && e in a.pools && BuddySpec.Inv(a.pools[e]) && Shape(a.pools[e]) && a.headers[r].node < |a.pools[e].tree|
            && e in Retire(a, r).pools && Retire(a, r).pools[e] == Free(a.pools[e], a.headers[r].node)
            && Retire(a, r).sizes == a.sizes
  {
    TakenFacts(a, a.slabs[r].ext, a.headers[r].node);
    hide Free, Without, BuddySpec.Inv, ExtentsOk, Taken;
  }

  /** The block of a slab region holds any other region. */
  lemma RegionHolds(a: Arena, r: nat)
    requires Core(a) && r in a.slabs
    ensures r in a.headers && a.headers[r].BuddyHeader? && a.headers[r].node < NodeCount(a.sizes.root)
    ensures RegionBytes(a.sizes) <= BlockBytes(Order(a.sizes.root, a.headers[r].node))
  {
    hide Taken, BlockAt, SlabsOk, CachesOk, Order, Sizes.Capacity, SizeToOrder, AlignUp, BlockBytes;
    SlabFacts(a, r);
    CoreShape(a);
    TakenIsFull(a, a.slabs[r].ext, a.headers[r].node);
    assert BlockOk(a, a.slabs[r].ext, a.headers[r].node);
    BeyondRegion(Order(a.sizes.root, a.headers[r].node), a.sizes);
  }

  lemma BeyondRegion(order: nat, sz: Sizes)
    requires 16 * 1024 < BlockBytes(order) && sz.Plausible()
    ensures RegionBytes(sz) <= BlockBytes(order)
  {
    assert BlockBytes(2) == 16 * 1024 && BlockBytes(3) == 32 * 1024;
    hide BlockBytes;
    if order < 2 {
      BlockBytesMonotone(order, 2);
    } else if order > 3 {
      BlockBytesMonotone(3, order);
    }
  }

  /** A free on the owner's thread, and hence a drain, never makes a request fail. */
  lemma FreeHelps(a: Arena, x: nat, size: nat)
    requires ArenaInv(a) && IsOut(a, x)
    ensures FreeLocal(a, x).Freed? && ArenaInv(FreeLocal(a, x).arena)
    ensures ExtentsOk(a) && ExtentsOk(FreeLocal(a, x).arena)
    ensures Servable(a, size) ==> Servable(FreeLocal(a, x).arena, size)
  {
    hide Core, IsOut, GivenBack, Servable, PutSlot, Retire, FreeBlock, SlabFreeLocal, Taken, ExtentsOk, Sizes.Plausible;
    IsOutHas(a, x);
    FreeLocalSound(a, x);
    CoreShape(a);
    CoreShape(FreeLocal(a, x).arena);
    if a.headers[x].BuddyHeader? {
      BlockFreeHelps(a, x, size);
    } else {
      PutHelps(a, x, size);
      PassesIfOut(a, x);
      SlabFreeIs(a, x);
      var b := PutSlot(a, x, a.headers[x].slab);
      if b.slabs[a.headers[x].slab].used == 0 {
        RetireHelps(b, a.headers[x].slab, size);
      }
    }
  }

  lemma PassesIfOut(a: Arena, x: nat)
    requires ArenaInv(a) && IsOut(a, x) && a.headers[x].SlabHeader?
    ensures HeaderPasses(a, x)
  {
    hide Core;
    OutSlotFacts(a, x);
  }

  lemma {:induction false} FreeAllHelps(a: Arena, s: seq<nat>, size: nat)
    requires ArenaInv(a) && Distinct(s) && forall x <- s :: IsOut(a, x)
    ensures ExtentsOk(a) && ExtentsOk(FreeAll(a, s)) && (Servable(a, size) ==> Servable(FreeAll(a, s), size))
    decreases |s|
  {
    hide Core, IsOut, FreeLocal, Servable;
    CoreShape(a);
    if s != [] {
      TailMembers(s);
      FreeLocalSound(a, s[0]);
      StillOut(a, s);
      FreeHelps(a, s[0], size);
      FreeAllHelps(FreeLocal(a, s[0]).arena, s[1..], size);
    }
  }

  /** `x` is a slot of the class for `size`. */
  predicate SlotFits(a: Arena, x: nat, size: nat) {
    && x in a.headers && a.headers[x].SlabHeader? && a.headers[x].slab in a.slabs
    && FitsClass(size, a.slabs[a.headers[x].slab].cls)
  }

  /** A slot that comes back serves the next request of its class, in its slab or, if that
      is retired, in another made in its place. */
  lemma SlotFreeServes(a: Arena, x: nat, size: nat)
    requires ArenaInv(a) && IsOut(a, x) && SlotFits(a, x, size)
    ensures FreeLocal(a, x).Freed? && ArenaInv(FreeLocal(a, x).arena)
    ensures ExtentsOk(FreeLocal(a, x).arena) && Servable(FreeLocal(a, x).arena, size)
  {
    hide Core, IsOut, GivenBack, FitsClass, RoomFor, FreeSlotFor, PutSlot, Retire, SlabFreeLocal, Taken, ExtentsOk,
      Sizes.Plausible;
    IsOutHas(a, x);
    FreeLocalSound(a, x);
    CoreShape(FreeLocal(a, x).arena);
    PutHelps(a, x, size);
    PassesIfOut(a, x);
    SlabFreeIs(a, x);
    var b := PutSlot(a, x, a.headers[x].slab);
    if b.slabs[a.headers[x].slab].used == 0 {
      RetireHelps(b, a.headers[x].slab, size);
    } else {
      PutLeavesRoom(a, x, size);
    }
  }

  lemma PutLeavesRoom(a: Arena, x: nat, size: nat)
    requires Core(a) && IsOut(a, x) && SlotFits(a, x, size)
    ensures var r := a.headers[x].slab;
            && a.slabs[r].cls < NUM_CACHES && a.sizes.Plausible() && a.slabs[r].used > 0
            && |a.partial| == |a.full| == NUM_CACHES && FreeSlotFor(PutSlot(a, x, r), size)
  {
    OutSlotFacts(a, x);
    var r := a.headers[x].slab;
    SlabCounts(a, r);
    hide Core, IsOut, FitsClass, Without, SlabOk, Sizes.Capacity, Sizes.Plausible;
    assert r in PutSlot(a, x, r).slabs;
  }

  lemma SlabCounts(a: Arena, r: nat)
    requires r in a.slabs && SlabOk(a, r)
    ensures a.slabs[r].used <= a.sizes.Capacity(a.slabs[r].cls)
  {
    hide Slots, Taken, BlockAt, UsedHeadersOk, RegionOk, AlignUp, SizeToOrder, Sizes.Capacity;
  }

  /** A free moves no slab to another class. */
  lemma ClassesKept(a: Arena, x: nat)
    requires ArenaInv(a) && IsOut(a, x)
    ensures FreeLocal(a, x).Freed?
    ensures var b := FreeLocal(a, x).arena; forall q <- b.slabs :: q in a.slabs && b.slabs[q].cls == a.slabs[q].cls
  {
    hide Core, IsOut, GivenBack, PutSlot, Retire, SlabFreeLocal, Taken, ExtentsOk, Sizes.Plausible, SlabOk, Free;
    IsOutHas(a, x);
    FreeLocalSound(a, x);
    if a.headers[x].SlabHeader? {
      OutSlotFacts(a, x);
      PassesIfOut(a, x);
      SlabFreeIs(a, x);
      PutUses(a, x, a.headers[x].slab);
      var b := PutSlot(a, x, a.headers[x].slab);
      if b.slabs[a.headers[x].slab].used == 0 {
        RetireDrops(b, a.headers[x].slab);
      }
    }
  }

  lemma RetireDrops(a: Arena, r: nat)
    requires r in a.slabs && a.slabs[r].cls < NUM_CACHES && |a.partial| == NUM_CACHES
    requires r in a.headers && a.headers[r].BuddyHeader? && ExtentsOk(a) && Taken(a, a.slabs[r].ext, a.headers[r].node)
    ensures forall q <- Retire(a, r).slabs :: q in a.slabs && Retire(a, r).slabs[q].cls == a.slabs[q].cls
  {
    hide Free, Without, ExtentsOk, Taken;
  }

  /** Among pointers that come back one after another a slot of the class is enough. */
  lemma {:induction false} FreeAllServes(a: Arena, s: seq<nat>, x: nat, size: nat)
    requires ArenaInv(a) && Distinct(s) && (forall y <- s :: IsOut(a, y)) && x in s && SlotFits(a, x, size)
    ensures ExtentsOk(FreeAll(a, s)) && Servable(FreeAll(a, s), size)
    decreases |s|
  {
    hide Core, IsOut, FreeLocal, Servable, ExtentsOk, SlotFits, GivenBack;
    FreeLocalSound(a, s[0]);
    StillOut(a, s);
    if x == s[0] {
      SlotFreeServes(a, x, size);
      FreeAllHelps(FreeLocal(a, s[0]).arena, s[1..], size);
    } else {
      OtherSlotStays(a, s[0], x, size);
      InTail(s, x);
      FreeAllServes(FreeLocal(a, s[0]).arena, s[1..], x, size);
    }
  }

  lemma OtherSlotStays(a: Arena, y: nat, x: nat, size: nat)
    requires ArenaInv(a) && IsOut(a, y) && IsOut(a, x) && x != y && SlotFits(a, x, size)
    ensures FreeLocal(a, y).Freed? && SlotFits(FreeLocal(a, y).arena, x, size)
  {
    hide Core, IsOut, FreeLocal, FitsClass;
    FreeLocalSound(a, y);
    ClassesKept(a, y);
    SlabStays(FreeLocal(a, y).arena, x);
  }

  lemma InTail(s: seq<nat>, x: nat)
    requires s != [] && x in s && x != s[0]
    ensures x in s[1..]
  {
    assert s == [s[0]] + s[1..];
  }

  lemma SlabStays(a: Arena, x: nat)
    requires IsOut(a, x) && a.headers[x].SlabHeader?
    ensures x in a.headers && a.headers[x].slab in a.slabs
  {
  }

  // -------------------------------------------------------- arena_alloc

  /** After everything pending has come back no slot of the class is free and no pool has
      room for a region, and neither offer is an extent the arena can use. */
  ghost predicate SmallRefused(l: Local, ms: set<Mapping>, size: nat, first: Option<nat>, second: Option<nat>)
    requires LocalInv(l)
  {
    DrainShape(l);
    && !UsableExtent(l.arena, ms, first) && !UsableExtent(l.arena, ms, second)
    && !Servable(Drained(l).arena, size)
  }

  lemma DrainShape(l: Local)
    requires LocalInv(l)
    ensures LocalInv(Drained(l)) && Drained(l).stack == [] && Drained(l).counter == l.counter
    ensures ExtentsOk(l.arena) && ExtentsOk(Drained(l).arena)
  {
    DrainSound(l, {});
    AttemptInv(l, {}, Drained(l), 0);
    ShapeOf(l);
    ShapeOf(Drained(l));
    DrainedShape(l);
  }

  lemma ShapeOf(l: Local)
    requires LocalInv(l)
    ensures ExtentsOk(l.arena) && Core(l.arena)
  {
    CoreShape(l.arena);
  }

  /** A drain helps, and changes nothing about what extents can be used. */
  lemma DrainHelps(l: Local, ms: set<Mapping>, size: nat, g: Option<nat>)
    requires LocalInv(l)
    ensures LocalInv(Drained(l)) && ExtentsOk(l.arena) && ExtentsOk(Drained(l).arena)
    ensures Servable(l.arena, size) ==> Servable(Drained(l).arena, size)
    ensures UsableExtent(l.arena, ms, g) == UsableExtent(Drained(l).arena, ms, g)
    ensures l.arena.sizes == Drained(l).arena.sizes
  {
    DrainShape(l);
    ChainDistinct(l.arena.word, Head(l.stack), l.stack);
    hide Core, IsOut, FreeAll, Servable, Chain, BlockBytes;
    FreeAllHelps(l.arena, l.stack, size);
    FreeAllKeeps(l.arena, l.stack);
    SameKeysUsable(l.arena, FreeAll(l.arena, l.stack), ms, g);
  }

  lemma SameKeysUsable(a: Arena, b: Arena, ms: set<Mapping>, g: Option<nat>)
    requires PoolsFrom(a, b, None)
    ensures UsableExtent(a, ms, g) == UsableExtent(b, ms, g)
  {
    hide BlockBytes;
    assert forall e :: e in a.pools <==> e in b.pools;
  }

  /** Draining an empty stack changes nothing. */
  lemma DrainedAgain(l: Local)
    requires LocalInv(l) && l.stack == []
    ensures Drained(l) == l
  {
  }

  lemma CounterApart(l: Local, c: nat)
    requires LocalInv(l) && c < WORD
    ensures LocalInv(l.(counter := c)) && Drained(l.(counter := c)) == Drained(l).(counter := c)
  {
    hide Core, StackOk;
  }

  /** One attempt answers NULL, and then changes nothing, exactly when it is hopeless. */
  lemma AttemptFailsIff(l: Local, ms: set<Mapping>, size: nat, g: Option<nat>)
    requires LocalInv(l) && 0 < size <= 1024
    ensures ExtentsOk(l.arena)
    ensures var (b, x) := SlabAlloc(l.arena, size, Offer(l.arena, ms, g));
            && (x == 0 <==> !Servable(l.arena, size) && !UsableExtent(l.arena, ms, g))
            && (x == 0 ==> b == l.arena)
  {
    ShapeOf(l);
    hide Core, StackOk, SlabAlloc, Offer, FreeSlotFor, RoomFor, UsableExtent;
    OfferIffUsable(l.arena, ms, g);
    SlabAllocFailsIff(l.arena, size, Offer(l.arena, ms, g));
  }

  /** arena_alloc answers NULL if and only if after everything pending has come back there
      is neither a free slot nor room for a slab, and the source offers no usable extent on
      either attempt. What it leaves then is the drained arena. */
  lemma ArenaAllocFailsIff(l: Local, ms: set<Mapping>, size: nat, first: Option<nat>, second: Option<nat>)
    requires LocalInv(l) && 0 < size <= 1024
    ensures ArenaAlloc(l, ms, size, first, second).1 == 0 <==> SmallRefused(l, ms, size, first, second)
    ensures ArenaAlloc(l, ms, size, first, second).1 == 0 ==>
              ArenaAlloc(l, ms, size, first, second).0 == Drained(l).(counter := (l.counter + 1) % WORD)
  {
    hide LocalInv, SlabAlloc, Offer, Drained, Servable, UsableExtent, ExtentsOk, Attempted;
    var c := (l.counter + 1) % WORD;
    var k := l.(counter := c);
    CounterApart(l, c);
    DrainHelps(l, ms, size, first);
    DrainHelps(l, ms, size, second);
    DrainHelps(k, ms, size, first);
    DrainShape(k);
    var d := if c % DRAIN_INTERVAL == 0 then Drained(k) else k;
    ShapeOf(d);
    AttemptFailsIff(d, ms, size, first);
    SlabAttempt(d, ms, size, first);
    var (b, x) := SlabAlloc(d.arena, size, Offer(d.arena, ms, first));
    if x == 0 {
      DrainedAgain(Drained(k));
      DrainSound(d.(arena := b), ms);
      AttemptFailsIff(Drained(k), ms, size, second);
    }
  }

  /** The second attempt finds what other threads have freed: while a slot of the class is
      pending no request for it fails, however full the arena and whatever the source offers. */
  lemma PendingServes(l: Local, ms: set<Mapping>, size: nat, first: Option<nat>, second: Option<nat>, x: nat)
    requires LocalInv(l) && 0 < size <= 1024 && x in l.stack && SlotFits(l.arena, x, size)
    ensures ArenaAlloc(l, ms, size, first, second).1 != 0
  {
    ChainDistinct(l.arena.word, Head(l.stack), l.stack);
    hide ArenaInv, IsOut, Chain, ArenaAlloc, FreeAll, Servable, UsableExtent, SlotFits;
    FreeAllServes(l.arena, l.stack, x, size);
    ArenaAllocFailsIff(l, ms, size, first, second);
  }

  /** What is pending is drained on every 64th call and before a second attempt, and stays
      pending otherwise. */
  lemma ArenaDrainsIff(l: Local, ms: set<Mapping>, size: nat, first: Option<nat>, second: Option<nat>)
    requires LocalInv(l) && 0 < size <= 1024
    ensures ExtentsOk(l.arena)
    ensures var k := ArenaAlloc(l, ms, size, first, second).0;
            var drains := (l.counter + 1) % WORD % 64 == 0
                          || (!Servable(l.arena, size) && !UsableExtent(l.arena, ms, first));
            k.stack == if drains then [] else l.stack
  {
    hide LocalInv, SlabAlloc, Offer, Drained, Servable, UsableExtent, ExtentsOk, Attempted;
    var c := (l.counter + 1) % WORD;
    var k := l.(counter := c);
    CounterApart(l, c);
    DrainHelps(l, ms, size, first);
    DrainHelps(k, ms, size, first);
    DrainShape(k);
    var d := if c % DRAIN_INTERVAL == 0 then Drained(k) else k;
    ShapeOf(d);
    AttemptFailsIff(d, ms, size, first);
    SlabAttempt(d, ms, size, first);
    var (b, x) := SlabAlloc(d.arena, size, Offer(d.arena, ms, first));
    if x == 0 {
      DrainSound(d.(arena := b), ms);
      DrainedShapeOf(d.(arena := b), ms, x);
    }
  }

  /** Outside a 64th call the first attempt comes before any drain: with nothing free the
      arena maps an extent, whatever has come back from other threads meanwhile. */
  lemma GrowsBeforeDraining(l: Local, ms: set<Mapping>, size: nat, first: Option<nat>, second: Option<nat>)
    requires LocalInv(l) && 0 < size <= 1024 && (l.counter + 1) % WORD % 64 != 0 && UsableExtent(l.arena, ms, first)
    ensures ExtentsOk(l.arena)
    ensures var k := ArenaAlloc(l, ms, size, first, second).0;
            && k.stack == l.stack
            && k.arena.pools.Keys == l.arena.pools.Keys + if Servable(l.arena, size) then {} else {first.value}
  {
    hide LocalInv, SlabAlloc, Offer, Drained, Servable, UsableExtent, ExtentsOk, Attempted;
    var c := (l.counter + 1) % WORD;
    var k := l.(counter := c);
    CounterApart(l, c);
    ShapeOf(k);
    AttemptFailsIff(k, ms, size, first);
    OfferIffUsable(l.arena, ms, first);
    SlabGrowsIff(l.arena, size, Offer(l.arena, ms, first));
  }

  lemma DrainedShapeOf(l: Local, ms: set<Mapping>, x: nat)
    requires LocalInv(l)
    ensures Drained(l).stack == []
  {
    hide Core, StackOk;
  }

  /** In the interleaved system a call returns NULL only from its second attempt, made after
      a drain, and only if that attempt is hopeless. */
  lemma NullFromSecondAttemptIff(s: System, grant: Option<nat>)
    requires SysInv(s) && Enabled(s, TryAlloc(grant)) && s.pc.size <= 1024
    ensures ExtentsOk(s.arena)
    ensures var w := Next(s, TryAlloc(grant));
            (w.pc.Idle? && w.held == s.held) <==> s.pc.again && !Servable(s.arena, s.pc.size) && grant.None?
  {
    SysArena(s);
    hide SysInv, Core, SlabAlloc, FreeSlotFor, RoomFor, GrantOk, KeepsOut, IsOut;
    SlabAllocFailsIff(s.arena, s.pc.size, grant);
    SlabAllocSound(s.arena, s.pc.size, grant);
    NewNotHeld(s, SlabAlloc(s.arena, s.pc.size, grant).1);
  }

  lemma SysArena(s: System)
    requires SysInv(s)
    ensures ArenaInv(s.arena) && Core(s.arena)
  {
  }

  lemma NewNotHeld(s: System, x: nat)
    requires SysInv(s)
    ensures !IsOut(s.arena, x) ==> x !in s.held
  {
    hide ArenaInv, IsOut, Chain;
  }
}
