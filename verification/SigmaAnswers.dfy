/** When large_alloc, sigma_alloc and sigma_realloc answer NULL, and which tier serves a
    request: conditions on the request, on what is handed out and on what the source
    offers. */
module SigmaAnswers {
  import opened Words
  import opened BuddyLayout
  import opened Arena
  import opened ArenaOps
  import opened ArenaCalls
  import opened ArenaAnswers
  import opened Sigma
  import opened SigmaTheorems
  import opened SigmaFrees
  import opened SigmaStores
  import opened Realloc

  // ----------------------------------------------------- large requests

  /** Whole pages for `total` bytes, or 0 where the rounding passes 2^64. */
  function PagesFor(total: nat): nat {
    if total + 4095 >= WORD then 0 else (total + 4095) / 4096 * 4096
  }

  lemma PagesForIs(shape: Shape, size: nat, alignment: nat)
    requires shape.Plausible() && alignment < WORD && !LargeRefused(shape, size, alignment)
    ensures alignment > 0 && size + shape.header + alignment - 1 < WORD
    ensures MappingBytes(shape, size, alignment) == PagesFor(size + shape.header + alignment - 1)
  {
    MappingBytesIff(shape, size, alignment);
  }

  /** The mapping is not empty, fits the address space, and meets no extent, no large
      allocation and none of the allocator's own storage. */
  predicate MappingUsable(s: Sigma, m: Mapping) {
    && 0 < m.lo && 0 < m.bytes && m.lo + m.bytes <= WORD
    && (forall e <- s.local.arena.pools ::
          m.lo + m.bytes <= e - s.local.arena.sizes.meta || e + BlockBytes(s.local.arena.sizes.root) <= m.lo)
    && (forall u <- s.large :: m.lo + m.bytes <= s.large[u].lo || s.large[u].lo + s.large[u].bytes <= m.lo)
    && forall q <- s.fixed :: m.lo + m.bytes <= q.lo || q.lo + q.bytes <= m.lo
  }

  lemma GrantedIffUsable(s: Sigma, m: Mapping)
    ensures Granted(s, m) <==> MappingUsable(s, m)
  {
    if Granted(s, m) {
      forall u <- s.large
        ensures m.lo + m.bytes <= s.large[u].lo || s.large[u].lo + s.large[u].bytes <= m.lo
      {
        assert Mapping(s.large[u].lo, s.large[u].bytes) in Mappings(s);
      }
      forall e <- s.local.arena.pools
        ensures m.lo + m.bytes <= e - s.local.arena.sizes.meta || e + BlockBytes(s.local.arena.sizes.root) <= m.lo
      {
        assert MappingApart(m, s.local.arena.sizes, e);
      }
    }
  }

  /** No large allocation can be made: the request is malformed or does not fit 64 bits, its
      mapping cannot be used, or one of the two objects that describe it cannot be had. */
  ghost predicate LargeNull(s: Sigma, size: nat, alignment: nat, o: Offers)
    requires LocalInv(s.local) && s.shape.Plausible()
  {
    || size == 0 || !AlignmentIsValid(alignment) || size + s.shape.header + alignment - 1 >= WORD
    || (var m := Mapping(o.backing, PagesFor(size + s.shape.header + alignment - 1));
        !MappingUsable(s, m) || ObjectsNull(s.local, Mappings(s) + {m}, s.shape, o))
  }

  ghost predicate ObjectsNull(l: Local, ms: set<Mapping>, shape: Shape, o: Offers)
    requires LocalInv(l) && shape.Plausible()
  {
    ArenaAllocSound(l, ms, shape.node, o.first, o.second);
    var k := ArenaAlloc(l, ms, shape.node, o.first, o.second).0;
    AttemptInv(l, ms, k, ArenaAlloc(l, ms, shape.node, o.first, o.second).1);
    SmallRefused(l, ms, shape.node, o.first, o.second) || SmallRefused(k, ms, shape.meta, o.third, o.fourth)
  }

  /** large_alloc answers NULL if and only if one of these holds. */
  lemma LargeAllocFailsIff(s: Sigma, size: nat, alignment: nat, o: Offers)
    requires SigmaInv(s) && alignment < WORD
    ensures LocalInv(s.local) && s.shape.Plausible()
    ensures LargeAlloc(s, size, alignment, o).1 == 0 <==> LargeNull(s, size, alignment, o)
  {
    hide SigmaInv, LocalInv, LargeRefused, AlignmentIsValid, MappingBytes, PagesFor, Granted, MappingUsable,
      ObjectsNull, LargeAlloc, Mappings;
    InvShape(s);
    RefusedIff(s.shape, size, alignment);
    if LargeRefused(s.shape, size, alignment) {
      LargeRefuses(s, size, alignment, o);
    } else {
      PagesForIs(s.shape, size, alignment);
      var m := Mapping(o.backing, MappingBytes(s.shape, size, alignment));
      GrantedIffUsable(s, m);
      if Granted(s, m) {
        BackedFailsIff(s, m, size, alignment, o);
      } else {
        NotGranted(s, size, alignment, o);
      }
    }
  }

  /** The guard of large_alloc, in unbounded arithmetic. */
  lemma RefusedIff(shape: Shape, size: nat, alignment: nat)
    requires shape.Plausible() && alignment < WORD
    ensures LargeRefused(shape, size, alignment)
            <==> size == 0 || !AlignmentIsValid(alignment) || size + shape.header + alignment - 1 >= WORD
  {
    hide AlignmentIsValid;
    if AlignmentIsValid(alignment) {
      ValidPositive(alignment);
    }
  }

  lemma BackedFailsIff(s: Sigma, m: Mapping, size: nat, alignment: nat, o: Offers)
    requires SigmaInv(s) && LocalInv(s.local) && s.shape.Plausible() && alignment < WORD
    requires !LargeRefused(s.shape, size, alignment) && alignment > 0 && size + s.shape.header + alignment - 1 < WORD
    requires m == Mapping(o.backing, MappingBytes(s.shape, size, alignment)) && Granted(s, m)
    ensures LargeAlloc(s, size, alignment, o).1 == 0 <==> ObjectsNull(s.local, Mappings(s) + {m}, s.shape, o)
  {
    hide SigmaInv, LocalInv, LargeRefused, AlignmentIsValid, MappingBytes, ArenaAlloc, Undo, LargeUser, Mappings,
      Attempted, SmallRefused, Granted;
    var ms := Mappings(s) + {m};
    ArenaAllocSound(s.local, ms, s.shape.node, o.first, o.second);
    ArenaAllocFailsIff(s.local, ms, s.shape.node, o.first, o.second);
    var (k, node) := ArenaAlloc(s.local, ms, s.shape.node, o.first, o.second);
    AttemptInv(s.local, ms, k, node);
    ArenaAllocSound(k, ms, s.shape.meta, o.third, o.fourth);
    ArenaAllocFailsIff(k, ms, s.shape.meta, o.third, o.fourth);
    GrantedBounds(s, m);
    LargePlaced(s.shape, m, size, alignment);
  }

  // ------------------------------------------------------- sigma_alloc

  /** No pool has room for the block and the source offers no extent that has. */
  ghost predicate BlockRefused(s: Sigma, size: nat, alignment: nat, first: Option<nat>)
    requires LocalInv(s.local)
  {
    ShapeOf(s.local);
    var a := s.local.arena;
    var bytes := size + PTR_SIZE + a.sizes.buddyHeader + alignment - 1;
    bytes >= 0 && !RoomFor(a, bytes) && (!UsableExtent(a, Mappings(s), first) || BlockBytes(a.sizes.root) < bytes)
  }

  /** What a refused block request leaves: the extent, if it got one. */
  function WithExtent(s: Sigma, first: Option<nat>): Sigma {
    if UsableExtent(s.local.arena, Mappings(s), first)
    then s.(local := s.local.(arena := Expand(s.local.arena, first.value))) else s
  }

  lemma BlockFailsHere(s: Sigma, size: nat, alignment: nat, first: Option<nat>)
    requires SigmaInv(s) && 0 < size < WORD && alignment < WORD && AlignmentIsValid(alignment)
    ensures LocalInv(s.local) && ExtentsOk(s.local.arena) && alignment > 0
    ensures var (b, x) := AllocBlock(s.local.arena, size, alignment, false, Offer(s.local.arena, Mappings(s), first));
            && (x == 0 <==> BlockRefused(s, size, alignment, first))
            && (x == 0 ==> s.(local := s.local.(arena := b)) == WithExtent(s, first))
  {
    hide SigmaInv, LocalInv, Core, ExtentsOk, AllocBlock, RoomFor, UsableExtent, AlignmentIsValid, Mappings, Expand,
      Offer, BlockBytes;
    InvShape(s);
    ShapeOf(s.local);
    ValidPositive(alignment);
    var a := s.local.arena;
    OfferIffUsable(a, Mappings(s), first);
    BlockFailsExactly(a, size, alignment, false, Offer(a, Mappings(s), first));
    RefusedBlock(a, size, alignment, Offer(a, Mappings(s), first));
  }

  lemma ExtentStays(s: Sigma, size: nat, alignment: nat, first: Option<nat>)
    requires SigmaInv(s) && LocalInv(s.local) && 0 < size < WORD && alignment < WORD && AlignmentIsValid(alignment)
    requires BlockRefused(s, size, alignment, first)
    ensures SigmaInv(WithExtent(s, first)) && LocalInv(WithExtent(s, first).local)
    ensures WithExtent(s, first).shape == s.shape && s.shape.Plausible()
  {
    ValidPositive(alignment);
    hide SigmaInv, LocalInv, AllocBlock, BlockRefused, UsableExtent, AlignmentIsValid, Expand, Offer, HandedToUser,
      Mappings;
    BlockFailsHere(s, size, alignment, first);
    BuddyAllocHands(s, size, alignment, first);
    InvShape(s);
    InvShape(WithExtent(s, first));
  }

  /** sigma_alloc cannot serve the request. */
  ghost predicate SigmaNull(s: Sigma, size: nat, alignment: nat, o: Offers)
    requires SigmaInv(s) && size < WORD && alignment < WORD
  {
    InvShape(s);
    var pool := BlockBytes(s.local.arena.sizes.root);
    || size == 0 || !AlignmentIsValid(alignment)
    || if size <= 1024 && alignment <= 16 then SmallRefused(s.local, Mappings(s), size, o.first, o.second)
       else if size <= pool && alignment <= pool then
         BlockRefused(s, size, alignment, o.first)
         && (ExtentStays(s, size, alignment, o.first);
             LargeNull(WithExtent(s, o.first), size, alignment, AfterBlock(o)))
       else LargeNull(s, size, alignment, o)
  }

  /** sigma_alloc answers NULL if and only if the request is malformed or its tier cannot
      serve it, nor for a block the large tier. */
  lemma SigmaAllocFailsIff(s: Sigma, size: nat, alignment: nat, o: Offers)
    requires SigmaInv(s) && size < WORD && alignment < WORD
    ensures LocalInv(s.local) && s.shape.Plausible()
    ensures SigmaAlloc(s, size, alignment, o).1 == 0 <==> SigmaNull(s, size, alignment, o)
  {
    InvShape(s);
    if size == 0 || !AlignmentIsValid(alignment) {
      return;
    }
    ValidPositive(alignment);
    hide SigmaInv, LocalInv, AllocBlock, ArenaAlloc, LargeAlloc, LargeNull, SmallRefused, BlockRefused, WithExtent,
      AlignmentIsValid, BlockBytes, Mappings, Offer, HandedToUser;
    var pool := BlockBytes(s.local.arena.sizes.root);
    if size <= 1024 && alignment <= 16 {
      ArenaAllocFailsIff(s.local, Mappings(s), size, o.first, o.second);
    } else if size <= pool && alignment <= pool {
      BlockFailsHere(s, size, alignment, o.first);
      if BlockRefused(s, size, alignment, o.first) {
        ExtentStays(s, size, alignment, o.first);
        LargeAllocFailsIff(WithExtent(s, o.first), size, alignment, AfterBlock(o));
      }
    } else {
      LargeAllocFailsIff(s, size, alignment, o);
    }
  }

  /** Which tier serves: slabs up to 1024 bytes and alignment 16; a pool up to its size if
      it or a new one has room; otherwise a mapping of its own. */
  lemma ServingTier(s: Sigma, size: nat, alignment: nat, o: Offers)
    requires SigmaInv(s) && size < WORD && alignment < WORD
    ensures LocalInv(s.local) && s.shape.Plausible()
    ensures var (t, x) := SigmaAlloc(s, size, alignment, o);
            var pool := BlockBytes(s.local.arena.sizes.root);
            var small := size <= 1024 && alignment <= 16;
            var block := !small && size <= pool && alignment <= pool && !BlockRefused(s, size, alignment, o.first);
            x != 0 ==>
              && (x in t.large <==> !small && !block)
              && (small ==> x in t.local.arena.headers && t.local.arena.headers[x].SlabHeader?)
              && (block ==> x in t.local.arena.headers && t.local.arena.headers[x].BuddyHeader?)
  {
    InvShape(s);
    if size == 0 || !AlignmentIsValid(alignment) {
      return;
    }
    ValidPositive(alignment);
    hide SigmaInv, LocalInv, AllocBlock, ArenaAlloc, LargeAlloc, BlockRefused, WithExtent, AlignmentIsValid, BlockBytes,
      Mappings, Offer, Attempted, IsUser, KeepsUser;
    SigmaAllocSound(s, size, alignment, o);
    var (t, x) := SigmaAlloc(s, size, alignment, o);
    if x != 0 {
      NotHeldNotLarge(s, x);
      var pool := BlockBytes(s.local.arena.sizes.root);
      if size <= 1024 && alignment <= 16 {
        ArenaAllocSound(s.local, Mappings(s), size, o.first, o.second);
      } else if size <= pool && alignment <= pool {
        BlockFailsHere(s, size, alignment, o.first);
        BlockAttempt(s.local, Mappings(s), size, alignment, o.first);
        if BlockRefused(s, size, alignment, o.first) {
          ExtentStays(s, size, alignment, o.first);
          LargeKeepsExtents(WithExtent(s, o.first), size, alignment, AfterBlock(o));
        }
      } else {
        LargeKeepsExtents(s, size, alignment, o);
      }
    }
  }

  lemma NotHeldNotLarge(s: Sigma, x: nat)
    requires !IsUser(s, x)
    ensures x !in s.large
  {
  }

  // ------------------------------------------------------ sigma_realloc

  /** sigma_realloc answers NULL if and only if it was asked to free, or no new storage can
      be had. */
  lemma ReallocFailsIff(s: Sigma, ptr: nat, newSize: nat, alignment: nat, o: Offers)
    requires SigmaInv(s) && newSize < WORD && alignment < WORD && (ptr != 0 ==> IsUser(s, ptr))
    ensures var r := SigmaRealloc(s, ptr, newSize, alignment, o);
            r.Result? && (r.ptr == 0 <==> (ptr != 0 && newSize == 0) || SigmaNull(s, newSize, alignment, o))
  {
    InvShape(s);
    hide SigmaInv, LocalInv, SigmaAlloc, SigmaFree, SigmaNull, IsUser, HandedToUser, TakenBack;
    SigmaAllocFailsIff(s, newSize, alignment, o);
    if ptr != 0 {
      if newSize == 0 {
        SigmaFreeSound(s, ptr, true);
      } else {
        ReallocIs(s, ptr, newSize, alignment, o);
      }
    }
  }
}
