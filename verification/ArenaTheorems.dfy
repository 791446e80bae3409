/** What every reachable arena guarantees its users: disjoint, aligned storage clear
    of all metadata, and full recovery once everything has come back. */
module ArenaTheorems {
  import opened Words
  import opened BuddyTree
  import opened BuddySpec
  import opened BuddyTheorems
  import opened BuddyLayout
  import opened SlabLayout
  import opened Arena
  import opened ArenaOps
  import opened ArenaSlabs
  import opened ArenaFrees

  /** src/arena.c: arena_create, on the first mapping it was granted. */
  function ArenaCreate(sz: Sizes, e: nat): Arena {
    Arena(sz, [e], e, map[e := Create(sz.root)], map[], map[],
          seq(NUM_CACHES, _ => []), seq(NUM_CACHES, _ => []), map[], map[])
  }

  lemma ArenaCreateSound(sz: Sizes, e: nat)
    requires sz.Plausible() && sz.meta < e && e + BlockBytes(sz.root) <= WORD
    ensures ArenaInv(ArenaCreate(sz, e)) && forall x: nat :: !IsOut(ArenaCreate(sz, e), x)
  {
    hide Live, Depth, Pow2, SizeToOrder, AlignUp, Sizes.Capacity;
    CreateSound(sz.root);
    var a := ArenaCreate(sz, e);
    forall f: nat, n: nat
      ensures !Taken(a, f, n)
    {
      CreateTakesNothing(sz.root, n);
    }
  }

  // ------------------------------------------------------- disjointness

  predicate Apart(lo: nat, hi: nat, low: nat, high: nat) {
    hi <= low || high <= lo
  }

  /** Any two different live leaves, of one pool or of two, occupy apart ranges. */
  lemma LeavesApart(a: Arena, e: nat, m: nat, f: nat, n: nat)
    requires ExtentsOk(a) && e in a.pools && f in a.pools && LiveLeaf(a.pools[e].tree, m)
    requires LiveLeaf(a.pools[f].tree, n)
    requires !(e == f && m == n)
    ensures Apart(BlockAt(e, a.sizes.root, m), BlockAt(e, a.sizes.root, m) + BlockSize(a.sizes.root, m),
                  BlockAt(f, a.sizes.root, n), BlockAt(f, a.sizes.root, n) + BlockSize(a.sizes.root, n))
  {
    hide Live, Depth, Pow2, Start, Order, AlignUp, SizeToOrder, Sizes.Capacity;
    BlockInPoolBounds(a.sizes.root, e, m);
    BlockInPoolBounds(a.sizes.root, f, n);
    if e == f {
      LeavesDisjoint(a.pools[e], m, n);
    }
  }

  /** The taken block in which an outstanding pointer lies. */
  function BlockOf(a: Arena, x: nat): (nat, nat)
    requires IsOut(a, x)
  {
    match a.headers[x]
    case SlabHeader(_, r, _) =>
      if r in a.headers && a.headers[r].BuddyHeader? then (a.slabs[r].ext, a.headers[r].node) else (0, 0)
    case BuddyHeader(e, n, _, _, _, _) => (e, n)
  }

  /** What an outstanding pointer claims: header and data. */
  function ClaimLow(a: Arena, x: nat): nat
    requires IsOut(a, x)
  {
    match a.headers[x]
    case SlabHeader(_, _, _) => if a.sizes.UserOffset() <= x then x - a.sizes.UserOffset() else 0
    case BuddyHeader(e, n, _, _, _, _) => BlockAt(e, a.sizes.root, n)
  }

  function ClaimHigh(a: Arena, x: nat): nat
    requires IsOut(a, x)
  {
    match a.headers[x]
    case SlabHeader(_, r, _) => x + (if a.slabs[r].cls < NUM_CACHES then SIZE_CLASSES[a.slabs[r].cls] else 0)
    case BuddyHeader(e, n, _, _, _, _) => BlockAt(e, a.sizes.root, n) + BlockSize(a.sizes.root, n)
  }

  lemma SlotClaim(a: Arena, r: nat, x: nat)
    requires Core(a) && r in a.slabs && x in SlotsOf(a, r)
    ensures RegionOk(a, r) && a.slabs[r].cls < NUM_CACHES && a.sizes.Plausible()
    ensures var e, n := a.slabs[r].ext, a.headers[r].node;
            && Taken(a, e, n)
            && BlockAt(e, a.sizes.root, n) <= r && r + a.sizes.slab + a.sizes.UserOffset() <= x
            && x + SIZE_CLASSES[a.slabs[r].cls] <= r + SLAB_SIZE
            && r + SLAB_SIZE <= BlockAt(e, a.sizes.root, n) + BlockSize(a.sizes.root, n)
            && a.sizes.objHeader <= a.sizes.UserOffset() && x % SLAB_MAX_ALIGNMENT == 0
  {
    hide Taken, Slots, BlockAt, BlockSize, ExtentsOk, CachesOk, Sizes.Capacity, AlignUp, SizeToOrder;
    SlabFacts(a, r);
    assert BlockOk(a, a.slabs[r].ext, a.headers[r].node);
    SlotFacts(a.sizes, r, a.slabs[r].cls, x);
  }

  /** Each outstanding pointer is aligned as asked, holds the size asked for, and has
      its header before it, all inside its own claim. */
  lemma ClaimHoldsRequest(a: Arena, x: nat)
    requires Core(a) && IsOut(a, x)
    ensures x + a.headers[x].size <= ClaimHigh(a, x) && a.headers[x].size > 0 && x + PTR_SIZE <= ClaimHigh(a, x)
    ensures a.headers[x].SlabHeader? ==> ClaimLow(a, x) + a.sizes.objHeader <= x && x % SLAB_MAX_ALIGNMENT == 0
    ensures a.headers[x].BuddyHeader? ==>
              ClaimLow(a, x) + PTR_SIZE + a.sizes.buddyHeader <= x && a.headers[x].alignment > 0
                && x % a.headers[x].alignment == 0
    ensures var (e, n) := BlockOf(a, x);
            && Taken(a, e, n) && BlockAt(e, a.sizes.root, n) <= ClaimLow(a, x)
            && ClaimHigh(a, x) <= BlockAt(e, a.sizes.root, n) + BlockSize(a.sizes.root, n)
  {
    hide Taken, Slots, BlockAt, BlockSize, ExtentsOk, CachesOk, Sizes.Capacity, AlignUp, SizeToOrder;
    match a.headers[x]
    case SlabHeader(_, r, _) =>
      SlotClaim(a, r, x);
      assert SlabOk(a, r);
    case BuddyHeader(e, n, _, _, _, _) =>
      assert BlockOk(a, e, n);
  }

  /** A small request keeps any alignment up to 16: sixteen is a multiple of it. */
  lemma SmallAlignmentHolds(x: nat, alignment: nat)
    requires x % SLAB_MAX_ALIGNMENT == 0 && AlignmentIsValid(alignment) && alignment <= SLAB_MAX_ALIGNMENT
    ensures alignment > 0 && x % alignment == 0
  {
    AlignmentValidIffPow2(alignment);
    var k: nat :| alignment == Pow2(k);
    assert Pow2(4) == 16;
    if k > 4 {
      Pow2Monotone(5, k);
    }
    Pow2Add(k, 4 - k);
    MultipleOfDivides(x, alignment, Pow2(4 - k));
  }

  /** Global disjointness: no two outstanding allocations share a byte, headers and
      padding included. */
  lemma ClaimsApart(a: Arena, x: nat, y: nat)
    requires Core(a) && IsOut(a, x) && IsOut(a, y) && x != y
    ensures Apart(ClaimLow(a, x), ClaimHigh(a, x), ClaimLow(a, y), ClaimHigh(a, y))
  {
    ClaimHoldsRequest(a, x);
    ClaimHoldsRequest(a, y);
    var (e, m) := BlockOf(a, x);
    var (f, n) := BlockOf(a, y);
    if e == f && m == n {
      SameBlockSlots(a, x, y);
    } else {
      assert ExtentsOk(a);
      LeavesApart(a, e, m, f, n);
    }
  }

  lemma SameBlockSlots(a: Arena, x: nat, y: nat)
    requires Core(a) && IsOut(a, x) && IsOut(a, y) && x != y && BlockOf(a, x) == BlockOf(a, y)
    ensures Apart(ClaimLow(a, x), ClaimHigh(a, x), ClaimLow(a, y), ClaimHigh(a, y))
  {
    hide Taken, Slots, BlockAt, BlockSize, ExtentsOk, CachesOk, Sizes.Capacity, AlignUp, SizeToOrder;
    if a.headers[x].SlabHeader? {
      SlotClaim(a, a.headers[x].slab, x);
    }
    if a.headers[y].SlabHeader? {
      SlotClaim(a, a.headers[y].slab, y);
    }
    if a.headers[x].SlabHeader? && a.headers[y].SlabHeader? {
      var r := a.headers[x].slab;
      assert r == a.headers[y].slab;
      if x < y {
        SlotsDisjoint(a.sizes, r, a.slabs[r].cls, x, y);
      } else {
        SlotsDisjoint(a.sizes, r, a.slabs[r].cls, y, x);
      }
    }
  }

  /** Where the block under slab `r` starts: the header of the region comes first. */
  function RegionLow(a: Arena, r: nat): nat
    requires r in a.slabs
  {
    if r in a.headers && a.headers[r].BuddyHeader? then BlockAt(a.slabs[r].ext, a.sizes.root, a.headers[r].node) else r
  }

  /** Where the mapping of extent `e` starts: its metadata and buddy tree come first. */
  function MappingLow(a: Arena, e: nat): nat {
    if e >= a.sizes.meta then e - a.sizes.meta else 0
  }

  /** The bounds of a slot of slab `r` whose user address is `y`, header included. */
  function SlotLow(a: Arena, y: nat): nat {
    if y >= a.sizes.UserOffset() then y - a.sizes.UserOffset() else 0
  }

  function SlotHigh(a: Arena, r: nat, y: nat): nat
    requires r in a.slabs
  {
    if a.slabs[r].cls < NUM_CACHES then y + SIZE_CLASSES[a.slabs[r].cls] else y
  }

  /** No outstanding allocation overlaps a free block of any pool, a slab descriptor
      or the region header before it, a free slot, or the metadata and buddy tree before an extent. */
  lemma ClaimsClearOfMetadata(a: Arena, x: nat)
    requires Core(a) && IsOut(a, x)
    ensures forall e, n: nat | e in a.pools && LiveAs(a.pools[e].tree, n, FREE) ::
              Apart(ClaimLow(a, x), ClaimHigh(a, x), BlockAt(e, a.sizes.root, n),
                    BlockAt(e, a.sizes.root, n) + BlockSize(a.sizes.root, n))
    ensures forall e <- a.pools :: Apart(ClaimLow(a, x), ClaimHigh(a, x), MappingLow(a, e), e)
    ensures forall r <- a.slabs :: Apart(ClaimLow(a, x), ClaimHigh(a, x), RegionLow(a, r), r + a.sizes.slab)
    ensures forall r, y | r in a.slabs && y in a.slabs[r].free ::
              Apart(ClaimLow(a, x), ClaimHigh(a, x), SlotLow(a, y), SlotHigh(a, r, y))
  {
    hide Live, Depth, Pow2, ClaimLow, ClaimHigh, RegionLow, SlotLow, SlotHigh, MappingLow, Slots, BlockOf, IsOut, Chain,
      Core, BlockAt, BlockSize, LiveAs, Apart, AlignUp, SizeToOrder, Sizes.Capacity;
    forall e, n: nat | e in a.pools && LiveAs(a.pools[e].tree, n, FREE)
      ensures Apart(ClaimLow(a, x), ClaimHigh(a, x), BlockAt(e, a.sizes.root, n),
                    BlockAt(e, a.sizes.root, n) + BlockSize(a.sizes.root, n))
    {
      ClearOfFreeBlock(a, x, e, n);
    }
    forall e <- a.pools
      ensures Apart(ClaimLow(a, x), ClaimHigh(a, x), MappingLow(a, e), e)
    {
      ClearOfMapping(a, x, e);
    }
    forall r <- a.slabs
      ensures Apart(ClaimLow(a, x), ClaimHigh(a, x), RegionLow(a, r), r + a.sizes.slab)
    {
      ClearOfDescriptor(a, x, r);
    }
    forall r, y | r in a.slabs && y in a.slabs[r].free
      ensures Apart(ClaimLow(a, x), ClaimHigh(a, x), SlotLow(a, y), SlotHigh(a, r, y))
    {
      ClearOfFreeSlot(a, x, r, y);
    }
  }

  lemma ClearOfFreeBlock(a: Arena, x: nat, e: nat, n: nat)
    requires Core(a) && IsOut(a, x) && e in a.pools && LiveAs(a.pools[e].tree, n, FREE)
    ensures Apart(ClaimLow(a, x), ClaimHigh(a, x), BlockAt(e, a.sizes.root, n),
                  BlockAt(e, a.sizes.root, n) + BlockSize(a.sizes.root, n))
  {
    hide Live, BlockAt, BlockSize, ClaimLow, ClaimHigh, BlockOf, IsOut, AlignUp, SizeToOrder, Sizes.Capacity;
    ClaimHoldsRequest(a, x);
    var (f, m) := BlockOf(a, x);
    LeavesApart(a, f, m, e, n);
  }

  lemma ClearOfMapping(a: Arena, x: nat, e: nat)
    requires Core(a) && IsOut(a, x) && e in a.pools
    ensures e >= a.sizes.meta && Apart(ClaimLow(a, x), ClaimHigh(a, x), MappingLow(a, e), e)
  {
    hide Live, BlockAt, BlockSize, ClaimLow, ClaimHigh, BlockOf, IsOut, BlocksOk, SlabsOk, CachesOk, AlignUp,
      SizeToOrder, Sizes.Capacity;
    ClaimHoldsRequest(a, x);
    var (f, m) := BlockOf(a, x);
    TakenIsFull(a, f, m);
  }

  lemma RegionBlock(a: Arena, r: nat)
    requires Core(a) && r in a.slabs
    ensures RegionOk(a, r) && Taken(a, a.slabs[r].ext, a.headers[r].node)
    ensures var e, n := a.slabs[r].ext, a.headers[r].node;
            BlockAt(e, a.sizes.root, n) <= r
              && r + SLAB_SIZE <= BlockAt(e, a.sizes.root, n) + BlockSize(a.sizes.root, n)
  {
    hide Taken, Slots, BlockAt, BlockSize, ExtentsOk, CachesOk, AlignUp, SizeToOrder, Sizes.Capacity;
    SlabFacts(a, r);
    assert BlockOk(a, a.slabs[r].ext, a.headers[r].node);
  }

  lemma ClearOfDescriptor(a: Arena, x: nat, r: nat)
    requires Core(a) && IsOut(a, x) && r in a.slabs
    ensures Apart(ClaimLow(a, x), ClaimHigh(a, x), RegionLow(a, r), r + a.sizes.slab)
  {
    hide Live, Taken, Slots, BlockAt, BlockSize, CachesOk, SlabOk, BlockOk, Sizes.Capacity, AlignUp, SizeToOrder;
    ClaimHoldsRequest(a, x);
    RegionBlock(a, r);
    var (f, m) := BlockOf(a, x);
    if f == a.slabs[r].ext && m == a.headers[r].node {
      InRegion(a, x, r);
    } else {
      TakenLeaves(a, f, m, a.slabs[r].ext, a.headers[r].node);
    }
  }

  lemma TakenLeaves(a: Arena, e: nat, m: nat, f: nat, n: nat)
    requires ExtentsOk(a) && Taken(a, e, m) && Taken(a, f, n) && !(e == f && m == n)
    ensures Apart(BlockAt(e, a.sizes.root, m), BlockAt(e, a.sizes.root, m) + BlockSize(a.sizes.root, m),
                  BlockAt(f, a.sizes.root, n), BlockAt(f, a.sizes.root, n) + BlockSize(a.sizes.root, n))
  {
    hide BlockAt, BlockSize, AlignUp, SizeToOrder, Sizes.Capacity;
    LeavesApart(a, e, m, f, n);
  }

  /** A pointer in the block of a slab's region is a slot of that slab. */
  lemma InRegion(a: Arena, x: nat, r: nat)
    requires Core(a) && IsOut(a, x) && r in a.slabs && RegionOk(a, r)
    requires BlockOf(a, x) == (a.slabs[r].ext, a.headers[r].node)
    ensures a.headers[x].SlabHeader? && a.headers[x].slab == r && x in SlotsOf(a, r)
    ensures a.slabs[r].cls < NUM_CACHES && a.sizes.Plausible()
    ensures r + a.sizes.slab <= ClaimLow(a, x)
  {
    hide Taken, Slots, BlockAt, BlockSize, ExtentsOk, CachesOk, Sizes.Capacity, AlignUp, SizeToOrder;
    if a.headers[x].SlabHeader? {
      SlotClaim(a, a.headers[x].slab, x);
    }
  }

  lemma ClearOfFreeSlot(a: Arena, x: nat, r: nat, y: nat)
    requires Core(a) && IsOut(a, x) && r in a.slabs && y in a.slabs[r].free
    ensures Apart(ClaimLow(a, x), ClaimHigh(a, x), SlotLow(a, y), SlotHigh(a, r, y))
  {
    hide Live, Taken, Slots, BlockAt, BlockSize, BlockOf, BlocksOk, SlabsOk, CachesOk, IsOut, ClaimLow, ClaimHigh,
      SlotsOf, Sizes.Capacity, Sizes.Plausible, AlignUp, SizeToOrder;
    FreeSlotIsSlot(a, r, y);
    ClaimHoldsRequest(a, x);
    SlotClaim(a, r, y);
    var (f, m) := BlockOf(a, x);
    if f == a.slabs[r].ext && m == a.headers[r].node {
      ClearInRegion(a, x, r, y);
    } else {
      TakenLeaves(a, f, m, a.slabs[r].ext, a.headers[r].node);
    }
  }

  lemma FreeSlotIsSlot(a: Arena, r: nat, y: nat)
    requires Core(a) && r in a.slabs && y in a.slabs[r].free
    ensures y in SlotsOf(a, r)
  {
    hide Taken, Slots, BlockAt, BlockSize, ExtentsOk, CachesOk, Sizes.Capacity, AlignUp, SizeToOrder;
    SlabFacts(a, r);
  }

  lemma ClearInRegion(a: Arena, x: nat, r: nat, y: nat)
    requires Core(a) && IsOut(a, x) && r in a.slabs && y in a.slabs[r].free && y in SlotsOf(a, r) && RegionOk(a, r)
    requires BlockOf(a, x) == (a.slabs[r].ext, a.headers[r].node)
    ensures Apart(ClaimLow(a, x), ClaimHigh(a, x), SlotLow(a, y), SlotHigh(a, r, y))
  {
    hide Live, Taken, Slots, BlockAt, BlockSize, ExtentsOk, BlocksOk, SlabsOk, CachesOk, BlockOf, RegionOk,
      Sizes.Capacity, Sizes.Plausible, AlignUp, SizeToOrder;
    InRegion(a, x, r);
    var c := a.slabs[r].cls;
    if x < y {
      SlotsDisjoint(a.sizes, r, c, x, y);
    } else {
      SlotsDisjoint(a.sizes, r, c, y, x);
    }
  }

  /** Every outstanding pointer of the arena lies in one of its extents. */
  lemma OutInExtent(a: Arena, x: nat)
    requires Core(a) && IsOut(a, x)
    ensures var e := BlockOf(a, x).0;
            e in a.pools && e <= ClaimLow(a, x) && ClaimHigh(a, x) <= e + BlockBytes(a.sizes.root)
    ensures ClaimLow(a, x) < x < ClaimHigh(a, x)
  {
    hide Taken, Slots, BlockAt, BlockSize, BlocksOk, SlabsOk, CachesOk, Sizes.Capacity, AlignUp, SizeToOrder, IsOut,
      ClaimLow, ClaimHigh, BlockOf, BlockBytes;
    ClaimHoldsRequest(a, x);
    var (e, n) := BlockOf(a, x);
    TakenIsFull(a, e, n);
    TakenInPools(a, e, n);
    HeaderBefore(a, x);
  }

  lemma TakenInPools(a: Arena, e: nat, n: nat)
    requires Taken(a, e, n)
    ensures e in a.pools
  {
  }

  lemma HeaderBefore(a: Arena, x: nat)
    requires Core(a) && IsOut(a, x)
    ensures ClaimLow(a, x) < x
  {
    ClaimHoldsRequest(a, x);
    SizesPositive(a);
    hide Core, IsOut, ClaimLow, ClaimHigh, BlockOf, Taken, Sizes.Capacity, AlignUp, SizeToOrder;
  }

  lemma SizesPositive(a: Arena)
    requires Core(a)
    ensures a.sizes.objHeader > 0
  {
    CoreShape(a);
  }

  // ------------------------------------------------------------ recovery

  /** Every cache list is empty and every pool is one free root block, as created. */
  ghost predicate Recovered(a: Arena) {
    && a.slabs == map[] && |a.partial| == |a.full| == NUM_CACHES
    && (forall c :: 0 <= c < NUM_CACHES ==> a.partial[c] == [] && a.full[c] == [])
    && forall e <- a.pools :: SameLive(a.pools[e], Create(a.sizes.root))
  }

  /** With nothing out, everything has been recovered. */
  lemma NothingOut(a: Arena)
    requires ArenaInv(a) && forall x: nat :: !IsOut(a, x)
    ensures Recovered(a)
  {
    hide Live, Depth, Pow2, Slots, Taken, BlockAt, BlockSize, ExtentsOk, BlocksOk, IsOut, SameLive, CachesOk, AlignUp,
      SizeToOrder, Sizes.Capacity;
    if r :| r in a.slabs.Keys {
      SlabHasOut(a, r);
    }
    assert a.slabs.Keys == {};
    assert a.slabs == map[];
    CoreShape(a);
    forall c | 0 <= c < NUM_CACHES
      ensures |a.partial| == |a.full| == NUM_CACHES && a.partial[c] == [] && a.full[c] == []
    {
      ListsEmpty(a, c);
    }
    forall e <- a.pools
      ensures SameLive(a.pools[e], Create(a.sizes.root))
    {
      PoolRecovered(a, e);
    }
  }

  lemma SlabHasOut(a: Arena, r: nat)
    requires ArenaInv(a) && r in a.slabs
    ensures exists x: nat :: IsOut(a, x)
  {
    hide Slots, Taken, BlockAt, BlockSize, ExtentsOk, BlocksOk, CachesOk, AlignUp, SizeToOrder, Sizes.Capacity;
    assert SlabOk(a, r);
    var s := a.slabs[r];
    DistinctSize(s.free);
    SlotCount(a.sizes, r, s.cls);
    var all := SlotsOf(a, r);
    if all <= Elems(s.free) {
      SubsetSize(all, Elems(s.free));
    }
    var x :| x in all && x !in Elems(s.free);
    assert IsOut(a, x);
  }

  lemma ListsEmpty(a: Arena, c: nat)
    requires CachesOk(a) && a.slabs == map[] && c < NUM_CACHES
    ensures |a.partial| == |a.full| == NUM_CACHES && a.partial[c] == [] && a.full[c] == []
  {
    forall r: nat
      ensures r !in a.partial[c] && r !in a.full[c]
    {
    }
    EmptyByMembers(a.partial[c]);
    EmptyByMembers(a.full[c]);
  }

  lemma EmptyByMembers(s: seq<nat>)
    requires forall x: nat :: x !in s
    ensures s == []
  {
    if s != [] {
      IsMember(s, 0);
    }
  }

  lemma IsMember(s: seq<nat>, i: nat)
    requires i < |s|
    ensures s[i] in s
  {
  }

  lemma PoolRecovered(a: Arena, e: nat)
    requires ArenaInv(a) && a.slabs == map[] && e in a.pools && forall x: nat :: !IsOut(a, x)
    ensures SameLive(a.pools[e], Create(a.sizes.root))
  {
    hide Live, Depth, Pow2, BlockAt, BlockSize, AlignUp, SizeToOrder, Sizes.Capacity;
    if n :| n in Fulls(a.pools[e]) {
      TakenHasUser(a, e, n);
    }
    NothingOutstanding(a.pools[e]);
  }

  lemma TakenHasUser(a: Arena, e: nat, n: nat)
    requires ArenaInv(a) && a.slabs == map[] && Taken(a, e, n)
    ensures exists x: nat :: IsOut(a, x)
  {
    hide Taken, BlockAt, BlockSize, AlignUp, SizeToOrder, Sizes.Capacity;
    assert BlockOk(a, e, n);
    assert IsOut(a, a.back[BlockAt(e, a.sizes.root, n)]);
  }

  /** Free the pointers of `s` one after another. */
  function FreeAll(a: Arena, s: seq<nat>): Arena
    requires ArenaInv(a) && Distinct(s) && forall x <- s :: IsOut(a, x)
    decreases |s|
  {
    if s == [] then a
    else
      FreeLocalSound(a, s[0]);
      StillOut(a, s);
      FreeAll(FreeLocal(a, s[0]).arena, s[1..])
  }

  lemma StillOut(a: Arena, s: seq<nat>)
    requires ArenaInv(a) && Distinct(s) && s != [] && forall x <- s :: IsOut(a, x)
    ensures FreeLocal(a, s[0]).Freed? && Distinct(s[1..])
    ensures forall x: nat :: IsOut(FreeLocal(a, s[0]).arena, x) <==> IsOut(a, x) && x != s[0]
    ensures forall x <- s[1..] :: IsOut(FreeLocal(a, s[0]).arena, x)
  {
    hide IsOut, Core, FreeLocal, AlignUp, SizeToOrder, Sizes.Capacity;
    FreeLocalSound(a, s[0]);
    forall x <- s[1..]
      ensures x in s && x != s[0]
    {
      var i :| 0 <= i < |s[1..]| && s[1..][i] == x;
      assert s[i + 1] == x;
    }
  }

  /** Freeing everything that is out, in any order, recovers everything: frees undo
      allocations across slabs and pools. */
  lemma {:induction false} FreeAllRecovers(a: Arena, s: seq<nat>)
    requires ArenaInv(a) && Distinct(s) && (forall x <- s :: IsOut(a, x)) && (forall x: nat :: IsOut(a, x) ==> x in s)
    ensures Recovered(FreeAll(a, s))
    decreases |s|
  {
    hide IsOut, Core, FreeLocal, Recovered, AlignUp, SizeToOrder, Sizes.Capacity;
    if s == [] {
      NothingOut(a);
    } else {
      FreeLocalSound(a, s[0]);
      StillOut(a, s);
      TailMembers(s);
      FreeAllRecovers(FreeLocal(a, s[0]).arena, s[1..]);
    }
  }
}
