/** The double-free check of src/slab.c over runs: the header of a slot that came back
    stays without its magic until the slot is handed out again or its slab retired. */
module SlabDoubleFree {
  import opened Words
  import opened SlabLayout
  import opened Arena
  import opened ArenaOps
  import opened ArenaBlocks
  import opened ArenaSlabs
  import opened ArenaFrees

  /** What the owner may do to its arena between two frees of a pointer. */
  datatype Act =
    | TakeObject(size: nat, grant: Option<nat>)
    | TakeBlock(size: nat, alignment: nat, grant: Option<nat>)
    | GiveBack(y: nat)

  predicate Possible(a: Arena, act: Act) {
    match act
    case TakeObject(size, grant) => size > 0 && MaybeGrant(a, grant)
    case TakeBlock(size, alignment, grant) => size < WORD && 0 < alignment < WORD && MaybeGrant(a, grant)
    case GiveBack(y) => IsOut(a, y)
  }

  /** The arena after an act, and the pointer it handed out or 0. */
  function Acted(a: Arena, act: Act): (Arena, nat)
    requires ArenaInv(a) && Possible(a, act)
  {
    match act
    case TakeObject(size, grant) => SlabAlloc(a, size, grant)
    case TakeBlock(size, alignment, grant) => AllocBlock(a, size, alignment, false, grant)
    case GiveBack(y) =>
      FreeLocalSound(a, y);
      (FreeLocal(a, y).arena, 0)
  }

  lemma ActedSound(a: Arena, act: Act)
    requires ArenaInv(a) && Possible(a, act)
    ensures ArenaInv(Acted(a, act).0)
  {
    hide Core, SlabAlloc, AllocBlock, FreeLocal, IsOut;
    match act
    case TakeObject(size, grant) => SlabAllocSound(a, size, grant);
    case TakeBlock(size, alignment, grant) => BuddyRequestSound(a, size, alignment, grant) by { CoreShape(a); }
    case GiveBack(y) => FreeLocalSound(a, y);
  }

  /** `x` is a free slot of slab `r` whose header has lost its magic. */
  predicate Dead(a: Arena, x: nat, r: nat) {
    && r in a.slabs && x in a.slabs[r].free
    && x in a.headers && a.headers[x].SlabHeader? && !a.headers[x].live && a.headers[x].slab == r
  }

  lemma DeadIsSlot(a: Arena, x: nat, r: nat)
    requires Core(a) && Dead(a, x, r)
    ensures x in SlotsOf(a, r) && !IsOut(a, x) && SlabOk(a, r)
  {
    hide Slots, Taken, BlockAt, BlocksOk, ExtentsOk, CachesOk, Chain, SlotsOf;
    SlabFacts(a, r);
    FreeSlotNotOut(a, r, x);
  }

  // ------------------------------------------------- what each step leaves

  /** Placing a block writes one header, at an address that is no slot. */
  lemma BlockKeepsDead(a: Arena, size: nat, alignment: nat, isRegion: bool, grant: Option<nat>, x: nat, r: nat)
    requires Core(a) && MaybeGrant(a, grant) && 0 < alignment < WORD && size < WORD && Dead(a, x, r)
    ensures Dead(AllocBlock(a, size, alignment, isRegion, grant).0, x, r)
  {
    hide AllocBlock, ExtentsOk, BlocksOk, SlabsOk, CachesOk, IsOut, CoreBut, Placed, BlockAt, BlockSize, InBlock,
      SlotsOf;
    DeadIsSlot(a, x, r);
    AllocBlockKeeps(a, size, alignment, isRegion, grant);
    var (b, u) := AllocBlock(a, size, alignment, isRegion, grant);
    if u == 0 {
      AllocNothing(a, size, alignment, isRegion, grant);
    } else {
      UserIsInBlock(a, b, u, isRegion, size, alignment);
    }
  }

  lemma AllocNothing(a: Arena, size: nat, alignment: nat, isRegion: bool, grant: Option<nat>)
    requires ExtentsOk(a) && MaybeGrant(a, grant) && alignment > 0
    requires AllocBlock(a, size, alignment, isRegion, grant).1 == 0
    requires ExtentsOk(a) && Core(a) && alignment < WORD && size < WORD
    ensures var b := AllocBlock(a, size, alignment, isRegion, grant).0;
            b.headers == a.headers && b.slabs == a.slabs && b.word == a.word
  {
    hide ExtentsOk, BlocksOk, SlabsOk, CachesOk, PlaceIn, RequestOrder, Serves, GrantOk, BlockHanded;
    var target := RequestOrder(a.sizes, size, alignment);
    match FindExtent(a, target)
    case Some(e) => PlaceHands(a, e, size, alignment, isRegion);
    case None =>
      if grant.Some? {
        ExpandKeeps(a, grant.value);
        if Serves(Expand(a, grant.value), grant.value, target) {
          PlaceHands(Expand(a, grant.value), grant.value, size, alignment, isRegion);
        }
      }
  }

  lemma UserIsInBlock(a: Arena, b: Arena, u: nat, isRegion: bool, size: nat, alignment: nat)
    requires BlockHanded(a, b, u, isRegion, size, alignment)
    ensures NewAddress(a, u)
  {
    hide NewAddress, CoreBut, BlockAt, BlockSize;
    assert InBlock(b, b.active, b.headers[u].node, u);
  }

  /** Creating a slab writes headers at new slots only. */
  lemma CreateKeepsDead(a: Arena, c: nat, grant: Option<nat>, x: nat, r: nat)
    requires Core(a) && MaybeGrant(a, grant) && c < NUM_CACHES && Dead(a, x, r)
    ensures |a.partial| == NUM_CACHES && Dead(SlabCreate(a, c, grant).0, x, r) && SlabCreate(a, c, grant).1 != r
  {
    hide AllocBlock, Install, Carve, ExtentsOk, BlocksOk, SlabsOk, CachesOk, IsOut, SlotsOf, BlockHanded, NewAddress,
      Carved, Sizes.Capacity;
    CoreShape(a);
    DeadIsSlot(a, x, r);
    BlockKeepsDead(a, SLAB_SIZE, SLAB_MAX_ALIGNMENT, true, grant, x, r);
    AllocBlockKeeps(a, SLAB_SIZE, SLAB_MAX_ALIGNMENT, true, grant);
    var (b, q) := AllocBlock(a, SLAB_SIZE, SLAB_MAX_ALIGNMENT, true, grant);
    if q != 0 {
      HandedFacts(a, b, q);
      CapacityFits(b.sizes, c);
      RegionSlotsNew(a, b, q, c);
      IsInstalled(b, q, c);
      InstalledKeepsDead(a, b, Install(b, q, c, b.active), q, c, x, r);
    } else {
      SlotNotZero(a, r, x);
    }
  }

  lemma SlotNotZero(a: Arena, r: nat, x: nat)
    requires Core(a) && r in a.slabs && x in SlotsOf(a, r)
    ensures r != 0
  {
    hide Taken, BlockAt, BlockSize, ExtentsOk, CachesOk, SlabsOk, Sizes.Plausible, Sizes.Capacity;
    SlabFacts(a, r);
    assert BlockOk(a, a.slabs[r].ext, a.headers[r].node);
  }

  lemma InstalledKeepsDead(a: Arena, b: Arena, d: Arena, q: nat, c: nat, x: nat, r: nat)
    requires Dead(b, x, r) && c < NUM_CACHES && b.sizes.Plausible() && x in SlotsOf(a, r) && r in a.slabs
    requires q !in b.slabs
    requires Installed(b, d, q, c, Carved(b.sizes, q, c, b.sizes.Capacity(c)))
    requires forall y <- Carved(b.sizes, q, c, b.sizes.Capacity(c)) :: NewAddress(a, y)
    ensures Dead(d, x, r) && q != r
  {
    hide Carved, Sizes.Capacity, SlotsOf, IsOut, Chain;
  }

  /** Taking a slot other than `x` leaves `x` on its free list. */
  lemma TakeKeepsDead(a: Arena, q: nat, size: nat, x: nat, r: nat)
    requires Core(a) && Dead(a, x, r) && q in a.slabs && a.slabs[q].cls < NUM_CACHES && a.sizes.Plausible()
    requires a.slabs[q].free != [] && a.slabs[q].head in a.word && |a.partial| == |a.full| == NUM_CACHES
    requires a.slabs[q].head != x
    ensures Dead(TakeSlot(a, q, size), x, r)
  {
    hide Without, Sizes.Capacity, Sizes.Plausible, ExtentsOk, BlocksOk, CachesOk, SlotsOf;
    SlabFacts(a, q);
    TailMembers(a.slabs[q].free);
  }

  lemma ObjectKeepsDead(a: Arena, size: nat, grant: Option<nat>, x: nat, r: nat)
    requires ArenaInv(a) && size > 0 && MaybeGrant(a, grant) && Dead(a, x, r) && SlabAlloc(a, size, grant).1 != x
    ensures Dead(SlabAlloc(a, size, grant).0, x, r)
  {
    hide TakeSlot, SlabCreate, Core, IsFull, Sizes.Capacity, Sizes.Plausible, Dead;
    var c := CacheOf(size);
    CoreShape(a);
    if c < NUM_CACHES {
      if PartialNonEmpty(a, c) {
        HeadHasRoom(a, c);
        TakeKeepsDead(a, a.partial[c][0], size, x, r);
      } else {
        SlabCreateSound(a, c, grant);
        CreateKeepsDead(a, c, grant, x, r);
        var (b, q) := SlabCreate(a, c, grant);
        if q != 0 {
          NewHasRoom(b, q);
          TakeKeepsDead(b, q, size, x, r);
        }
      }
    }
  }

  /** Putting another slot back, or retiring another slab, leaves `x` as it is. */
  lemma FreeKeepsDead(a: Arena, y: nat, x: nat, r: nat)
    requires ArenaInv(a) && IsOut(a, y) && Dead(a, x, r)
    ensures FreeLocal(a, y).Freed? && (r in FreeLocal(a, y).arena.slabs ==> Dead(FreeLocal(a, y).arena, x, r))
  {
    OutHasHeader(a);
    hide PutSlot, Retire, FreeBlock, Core, IsOut, SlotsOf, Dead;
    FreeLocalSound(a, y);
    DeadIsSlot(a, x, r);
    if a.headers[y].BuddyHeader? {
      FreeBlockSound(a, y);
      BlockFreeKeepsDead(a, y, x, r);
    } else {
      OutSlotFacts(a, y);
      SlabFreeIs(a, y);
      PutKeepsDead(a, y, a.headers[y].slab, x, r);
    }
  }

  lemma BlockFreeKeepsDead(a: Arena, y: nat, x: nat, r: nat)
    requires Core(a) && IsOut(a, y) && a.headers[y].BuddyHeader? && Dead(a, x, r)
    ensures Dead(FreeBlock(a, y), x, r)
  {
    hide BuddySpec.Free, IsOut;
  }

  lemma PutKeepsDead(a: Arena, y: nat, q: nat, x: nat, r: nat)
    requires Dead(a, x, r) && x != y && q in a.slabs && a.slabs[q].cls < NUM_CACHES && a.sizes.Plausible()
    requires a.slabs[q].used > 0
    requires |a.partial| == |a.full| == NUM_CACHES && y in a.headers && a.headers[y].SlabHeader?
    ensures var b := PutSlot(a, y, q);
            && Dead(b, x, r)
            && (q in b.slabs && b.slabs[q].cls < NUM_CACHES && |b.partial| == NUM_CACHES
                && q in b.headers && b.headers[q].BuddyHeader? && ExtentsOk(b)
                && Taken(b, b.slabs[q].ext, b.headers[q].node)
                ==> r in Retire(b, q).slabs ==> Dead(Retire(b, q), x, r))
  {
    hide Without, Sizes.Capacity, Sizes.Plausible, ExtentsOk, Taken, BuddySpec.Free;
  }

  // ----------------------------------------------------------------- runs

  /** Acts that neither hand `x` out nor retire its slab `r`. */
  ghost predicate Leaves(a: Arena, acts: seq<Act>, x: nat, r: nat)
    requires ArenaInv(a)
    decreases |acts|
  {
    acts == []
    || (Possible(a, acts[0]) && Acted(a, acts[0]).1 != x && r in Acted(a, acts[0]).0.slabs
        && (ActedSound(a, acts[0]); Leaves(Acted(a, acts[0]).0, acts[1..], x, r)))
  }

  ghost function AfterActs(a: Arena, acts: seq<Act>, x: nat, r: nat): (b: Arena)
    requires ArenaInv(a) && Leaves(a, acts, x, r)
    ensures ArenaInv(b)
    decreases |acts|
  {
    if acts == [] then a
    else
      ActedSound(a, acts[0]);
      AfterActs(Acted(a, acts[0]).0, acts[1..], x, r)
  }

  lemma ActKeepsDead(a: Arena, act: Act, x: nat, r: nat)
    requires ArenaInv(a) && Possible(a, act) && Dead(a, x, r) && Acted(a, act).1 != x && r in Acted(a, act).0.slabs
    ensures Dead(Acted(a, act).0, x, r)
  {
    hide Core, SlabAlloc, AllocBlock, FreeLocal, IsOut, Dead;
    match act
    case TakeObject(size, grant) => ObjectKeepsDead(a, size, grant, x, r);
    case TakeBlock(size, alignment, grant) =>
      CoreShape(a);
      BlockKeepsDead(a, size, alignment, false, grant, x, r);
    case GiveBack(y) => FreeKeepsDead(a, y, x, r);
  }

  lemma {:induction false} RunKeepsDead(a: Arena, acts: seq<Act>, x: nat, r: nat)
    requires ArenaInv(a) && Dead(a, x, r) && Leaves(a, acts, x, r)
    ensures Dead(AfterActs(a, acts, x, r), x, r)
    decreases |acts|
  {
    hide ArenaInv, Acted, Dead, Possible;
    if acts != [] {
      ActedSound(a, acts[0]);
      ActKeepsDead(a, acts[0], x, r);
      RunKeepsDead(Acted(a, acts[0]).0, acts[1..], x, r);
    }
  }

  /** The first free of a slab pointer leaves a dead header, if its slab survives. */
  lemma FreedIsDead(a: Arena, x: nat)
    requires ArenaInv(a) && IsOut(a, x) && a.headers[x].SlabHeader?
    ensures FreeLocal(a, x).Freed? && ArenaInv(FreeLocal(a, x).arena)
    ensures var r, b := a.headers[x].slab, FreeLocal(a, x).arena; r in b.slabs ==> Dead(b, x, r)
  {
    OutHasHeader(a);
    hide PutSlot, Retire, Core, IsOut, SlotsOf;
    FreeLocalSound(a, x);
    OutSlotFacts(a, x);
    SlabFreeIs(a, x);
    PutIsDead(a, x, a.headers[x].slab);
  }

  lemma PutIsDead(a: Arena, x: nat, r: nat)
    requires r in a.slabs && a.slabs[r].cls < NUM_CACHES && a.sizes.Plausible() && a.slabs[r].used > 0
    requires |a.partial| == |a.full| == NUM_CACHES && x in a.headers && a.headers[x].SlabHeader?
    requires a.headers[x].slab == r
    ensures var b := PutSlot(a, x, r);
            && Dead(b, x, r)
            && ((b.slabs[r].cls < NUM_CACHES && |b.partial| == NUM_CACHES && r in b.headers && b.headers[r].BuddyHeader?
                 && ExtentsOk(b) && Taken(b, b.slabs[r].ext, b.headers[r].node))
                ==> r !in Retire(b, r).slabs)
  {
    hide Without, Sizes.Capacity, Sizes.Plausible, ExtentsOk, Taken, BuddySpec.Free;
  }

  /** A second free of a slab pointer panics after any run of the owner in between, as
      long as the slot has not been handed out again and its slab has not been retired. */
  lemma SlabDoubleFreePanics(a: Arena, x: nat, acts: seq<Act>)
    requires ArenaInv(a) && IsOut(a, x) && a.headers[x].SlabHeader?
    requires FreeLocal(a, x).Freed? && ArenaInv(FreeLocal(a, x).arena)
    requires a.headers[x].slab in FreeLocal(a, x).arena.slabs
    requires Leaves(FreeLocal(a, x).arena, acts, x, a.headers[x].slab)
    ensures var b := AfterActs(FreeLocal(a, x).arena, acts, x, a.headers[x].slab);
            !HeaderPasses(b, x) && SlabFreeLocal(b, x) == Panic
  {
    OutHasHeader(a);
    hide Core, FreeLocal, IsOut, Leaves, AfterActs;
    FreedIsDead(a, x);
    RunKeepsDead(FreeLocal(a, x).arena, acts, x, a.headers[x].slab);
  }
}
