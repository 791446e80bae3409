/** Giving storage back: slab_free_local with the retirement of empty slabs, and
    arena_free_buddy_local (src/slab.c:119-156, src/arena.c:331-346). */
module ArenaFrees {
  import opened Words
  import opened BuddyTree
  import opened BuddySpec
  import opened BuddyLayout
  import opened SlabLayout
  import opened Arena
  import opened ArenaOps
  import opened ArenaBlocks
  import opened ArenaSlabs

  /** `b` is `a` after `x` came back: nothing else changes hands, and whatever stays
      out keeps its header and its first word. */
  ghost predicate GivenBack(a: Arena, b: Arena, x: nat) {
    && a.sizes == b.sizes
    && (forall y: nat :: IsOut(b, y) <==> IsOut(a, y) && y != x)
    && forall y: nat :: IsOut(a, y) && y != x ==>
         && y in b.headers && b.headers[y] == a.headers[y]
         && (y in b.word <==> y in a.word) && (y in a.word ==> b.word[y] == a.word[y])
  }

  // ------------------------------------------------------------- slots

  /** A slab with a slot out counts it. */
  lemma OutSlotIsCounted(a: Arena, r: nat, x: nat)
    requires r in a.slabs && SlabOk(a, r) && x in SlotsOf(a, r) && x !in a.slabs[r].free
    ensures a.slabs[r].used > 0 && |a.slabs[r].free| < a.sizes.Capacity(a.slabs[r].cls)
  {
    hide Slots, Taken, BlockAt, UsedHeadersOk, RegionOk, AlignUp, SizeToOrder, Sizes.Capacity;
    var s := a.slabs[r];
    DistinctSize(s.free);
    SlotCount(a.sizes, r, s.cls);
    var all := SlotsOf(a, r);
    assert Elems(s.free) <= all - {x};
    SubsetSize(Elems(s.free), all - {x});
  }

  /** A slab that counts nothing has every slot on its free list. */
  lemma UnusedSlabIsWhole(a: Arena, r: nat)
    requires r in a.slabs && SlabOk(a, r) && a.slabs[r].used == 0
    ensures forall x <- SlotsOf(a, r) :: x in a.slabs[r].free
    ensures !IsFull(a, r)
  {
    hide Slots, Taken, BlockAt, UsedHeadersOk, RegionOk, AlignUp, SizeToOrder, Sizes.Capacity;
    var s := a.slabs[r];
    DistinctSize(s.free);
    SlotCount(a.sizes, r, s.cls);
    SubsetSize(Elems(s.free), SlotsOf(a, r));
    hide Sizes.Capacity, AlignUp, SizeToOrder;
    assert forall x <- SlotsOf(a, r) :: x in Elems(s.free);
  }

  lemma OutSlotFacts(a: Arena, x: nat)
    requires Core(a) && IsOut(a, x) && a.headers[x].SlabHeader?
    ensures var r := a.headers[x].slab;
            && r in a.slabs && SlabOk(a, r) && x in SlotsOf(a, r) && x !in a.slabs[r].free && a.headers[x].live
            && a.slabs[r].cls < NUM_CACHES && a.sizes.Plausible() && a.slabs[r].used > 0
            && |a.partial| == |a.full| == NUM_CACHES
  {
    hide Taken, BlockAt, Slots, AlignUp, SizeToOrder, Sizes.Capacity;
    var r := a.headers[x].slab;
    SlabFacts(a, r);
    OutSlotIsCounted(a, r, x);
  }

  lemma PutMoves(a: Arena, x: nat, r: nat)
    requires r in a.slabs && a.slabs[r].cls < NUM_CACHES && a.sizes.Plausible() && a.slabs[r].used > 0
    requires |a.partial| == |a.full| == NUM_CACHES && x in a.headers && a.headers[x].SlabHeader?
    requires a.headers[x].slab == r
    requires a.slabs[r].used <= a.sizes.Capacity(a.slabs[r].cls)
    ensures var s, b := a.slabs[r], PutSlot(a, x, r);
            var t := Slab(s.cls, s.ext, s.used - 1, x, [x] + s.free);
            && SlotMoved(a, b, r, x, t, false) && Relisted(a, b, r)
            && b.word == a.word[x := s.head] && b.slabs == a.slabs[r := t] && b.sizes == a.sizes && b.pools == a.pools
            && b.headers == a.headers[x := b.headers[x]]
  {
    hide Without, Sizes.Capacity, AlignUp, SizeToOrder;
  }

  lemma PutSlabOk(a: Arena, b: Arena, r: nat, x: nat, s: Slab)
    requires SlotMoved(a, b, r, x, s, false) && SlabOk(a, r) && Taken(b, s.ext, a.headers[r].node) && x != r && x > 0
    requires x in SlotsOf(a, r) && x !in a.slabs[r].free && b.word == a.word[x := a.slabs[r].head]
    requires a.slabs[r].used > 0
    requires s == Slab(a.slabs[r].cls, a.slabs[r].ext, a.slabs[r].used - 1, x, [x] + a.slabs[r].free)
    ensures SlabOk(b, r) && SlotsOf(b, r) == SlotsOf(a, r)
  {
    hide Slots, Taken, BlockAt, BlockSize, AlignUp, SizeToOrder, Sizes.Capacity;
    assert SlotsOf(b, r) == SlotsOf(a, r);
    ConsDistinct(x, a.slabs[r].free);
    ChainPush(a.word, a.slabs[r].head, a.slabs[r].free, x);
    assert RegionOk(b, r) && UsedHeadersOk(b, r) && FreeListOk(b, r);
  }

  /** Putting a slot back keeps the invariant and gives back exactly that slot. */
  lemma PutSlotCore(a: Arena, x: nat)
    requires Core(a) && IsOut(a, x) && a.headers[x].SlabHeader?
    ensures var r := a.headers[x].slab;
            && r in a.slabs && a.slabs[r].cls < NUM_CACHES && a.sizes.Plausible() && a.slabs[r].used > 0
            && |a.partial| == |a.full| == NUM_CACHES
            && var b := PutSlot(a, x, r);
               && Core(b) && GivenBack(a, b, x) && r in b.slabs && b.slabs.Keys == a.slabs.Keys
               && (forall q <- a.slabs :: q != r ==> b.slabs[q] == a.slabs[q])
               && x in b.headers && b.headers[x].SlabHeader? && !b.headers[x].live && b.headers[x].slab == r
  {
    OutHasHeader(a);
    hide PutSlot, Slots, Taken, BlockAt, BlockSize, ExtentsOk, IsFull, SlotMoved, SlabOk, IsOut, Relisted, BlocksOk,
      CachesOk, Chain, SlotsOf, AlignUp, SizeToOrder, Sizes.Capacity, Sizes.SlotSize, GivenBack;
    OutSlotFacts(a, x);
    var r := a.headers[x].slab;
    FullAtMost(a, r);
    PutMoves(a, x, r);
    var b, s := PutSlot(a, x, r), a.slabs[r];
    var t := Slab(s.cls, s.ext, s.used - 1, x, [x] + s.free);
    TakenSame(a, b);
    SlabFacts(a, r);
    SlotElsewhere(a, r, x, r);
    SlotPositive(a, r, x);
    MovedOthersOk(a, b, r, x, t, false);
    PutSlabOk(a, b, r, x, t);
    MovedCaches(a, b, r, x, t, false);
    PutOut(a, b, r, x, t);
    PutHeader(a, b, r, x, t);
  }

  lemma PutHeader(a: Arena, b: Arena, r: nat, x: nat, t: Slab)
    requires SlotMoved(a, b, r, x, t, false)
    ensures x in b.headers && b.headers[x].SlabHeader? && !b.headers[x].live && b.headers[x].slab == r
  {
  }

  lemma FullAtMost(a: Arena, r: nat)
    requires r in a.slabs && SlabOk(a, r)
    ensures a.slabs[r].cls < NUM_CACHES && a.sizes.Plausible() && a.slabs[r].used <= a.sizes.Capacity(a.slabs[r].cls)
  {
    hide Slots, Taken, BlockAt, Sizes.Capacity, AlignUp, SizeToOrder;
  }

  lemma SlotPositive(a: Arena, r: nat, x: nat)
    requires r in a.slabs && x in SlotsOf(a, r)
    ensures x > 0
  {
    SlotFacts(a.sizes, r, a.slabs[r].cls, x);
  }

  lemma PutOut(a: Arena, b: Arena, r: nat, x: nat, t: Slab)
    requires SlotMoved(a, b, r, x, t, false) && x in SlotsOf(a, r) && IsOut(a, x) && t.free == [x] + a.slabs[r].free
    ensures GivenBack(a, b, x)
  {
    assert forall y: nat :: y in t.free <==> y == x || y in a.slabs[r].free;
    hide IsOut, SlotsOf, AlignUp, SizeToOrder, Sizes.Capacity;
    MovedOut(a, b, r, x, t, false);
  }

  // -------------------------------------------------------- retirement

  /** `b` is `a` with one taken block freed in its pool. */
  ghost predicate OneFewerTaken(a: Arena, b: Arena, e: nat, n: nat) {
    forall f: nat, m: nat :: Taken(b, f, m) <==> (Taken(a, f, m) && !(f == e && m == n))
  }

  lemma PoolFreed(a: Arena, e: nat, n: nat, b: Arena)
    requires ExtentsOk(a) && Taken(a, e, n) && b.pools == a.pools[e := Free(a.pools[e], n)]
    requires b.sizes == a.sizes && b.extents == a.extents && b.active == a.active
    ensures ExtentsOk(b) && OneFewerTaken(a, b, e, n)
  {
    hide Live, Depth, Pow2, Free, BuddySpec.Inv, LiveAs, AlignUp, SizeToOrder, Sizes.Capacity;
    FreeTaken(a.pools[e], n);
    assert b.pools.Keys == a.pools.Keys;
  }

  /** The region block of a slab is the region block of no other slab. */
  lemma RegionsDiffer(a: Arena, r: nat, q: nat)
    requires r in a.slabs && q in a.slabs && r != q && RegionOk(a, r) && RegionOk(a, q)
    ensures !(a.slabs[q].ext == a.slabs[r].ext && a.headers[q].node == a.headers[r].node)
  {
    hide Taken, BlockAt, AlignUp, SizeToOrder, Sizes.Capacity;
  }

  /** An empty slab goes back to its pool: the rest of the arena is as before, and
      nothing out is lost with it. */
  lemma RetireSound(a: Arena, r: nat)
    requires Core(a) && r in a.slabs && a.slabs[r].used == 0
    ensures a.slabs[r].cls < NUM_CACHES && |a.partial| == NUM_CACHES
    ensures r in a.headers && a.headers[r].BuddyHeader? && Taken(a, a.slabs[r].ext, a.headers[r].node)
    ensures var b := Retire(a, r);
            && Core(b) && (forall y: nat :: IsOut(b, y) <==> IsOut(a, y)) && b.headers == a.headers && b.word == a.word
            && b.sizes == a.sizes && b.slabs == a.slabs - {r}
  {
    hide Retire, Taken, Slots, BlockAt, BlockSize, ExtentsOk, IsOut, SlabOk, RegionOk, CachesOk, SlotsOf, AlignUp,
      SizeToOrder, Sizes.Capacity;
    SlabFacts(a, r);
    RetireIs(a, r);
    UnusedSlabIsWhole(a, r);
    var b := Retire(a, r);
    RetireCaches(a, b, r);
    forall f: nat, m: nat | Taken(b, f, m)
      ensures BlockOk(b, f, m)
    {
      RetireKeepsLabel(a, b, r, f, m);
    }
    forall q <- b.slabs
      ensures SlabOk(b, q)
    {
      SlabFacts(a, q);
      RegionsDiffer(a, r, q);
      StillRegion(a, b, r, q);
      FreeSlotsInWord(a, q);
      SlabKept(a, b, q);
    }
    forall y: nat
      ensures IsOut(b, y) <==> IsOut(a, y)
    {
      RetireSameOut(a, b, r, y);
    }
  }

  lemma RetireIs(a: Arena, r: nat)
    requires Core(a) && r in a.slabs && RegionOk(a, r) && a.slabs[r].cls < NUM_CACHES && |a.partial| == NUM_CACHES
    ensures ExtentsOk(a) && Taken(a, a.slabs[r].ext, a.headers[r].node)
    ensures var b := Retire(a, r);
            && b == a.(slabs := a.slabs - {r}, pools := b.pools,
                       partial := a.partial[a.slabs[r].cls := Without(a.partial[a.slabs[r].cls], r)])
            && ExtentsOk(b) && OneFewerTaken(a, b, a.slabs[r].ext, a.headers[r].node)
  {
    hide BlocksOk, SlabsOk, CachesOk, BlockAt, Without, Free;
    PoolFreed(a, a.slabs[r].ext, a.headers[r].node, Retire(a, r));
  }

  lemma StillRegion(a: Arena, b: Arena, r: nat, q: nat)
    requires r in a.slabs && q in a.slabs && RegionOk(a, q) && RegionOk(a, r) && q != r
    requires !(a.slabs[q].ext == a.slabs[r].ext && a.headers[q].node == a.headers[r].node)
    requires OneFewerTaken(a, b, a.slabs[r].ext, a.headers[r].node)
    ensures Taken(b, a.slabs[q].ext, a.headers[q].node)
  {
    hide Taken, BlockAt, AlignUp, SizeToOrder, Sizes.Capacity;
  }

  lemma RetireKeepsLabel(a: Arena, b: Arena, r: nat, f: nat, m: nat)
    requires Core(a) && r in a.slabs && RegionOk(a, r) && OneFewerTaken(a, b, a.slabs[r].ext, a.headers[r].node)
    requires b == a.(slabs := a.slabs - {r}, pools := b.pools, partial := b.partial) && Taken(b, f, m)
    ensures BlockOk(b, f, m)
  {
    hide Taken, BlockAt, BlockSize, Slots, AlignUp, SizeToOrder, Sizes.Capacity;
    assert BlockOk(a, f, m);
    assert BlockOk(a, a.slabs[r].ext, a.headers[r].node);
    BlockKept(a, b, f, m);
  }

  lemma RetireCaches(a: Arena, b: Arena, r: nat)
    requires CachesOk(a) && r in a.slabs && !IsFull(a, r) && a.slabs[r].cls < NUM_CACHES
    requires b == a.(slabs := a.slabs - {r}, pools := b.pools,
                     partial := a.partial[a.slabs[r].cls := Without(a.partial[a.slabs[r].cls], r)])
    ensures CachesOk(b)
  {
    var c := a.slabs[r].cls;
    WithoutDistinct(a.partial[c], r);
    assert forall q <- b.slabs :: IsFull(b, q) == IsFull(a, q);
    hide IsFull, Without, AlignUp, SizeToOrder, Sizes.Capacity;
    forall k: nat, q: nat {:trigger q in b.partial[k]} | k < NUM_CACHES
      ensures q in b.partial[k] <==> q in b.slabs && b.slabs[q].cls == k && !IsFull(b, q)
    {
      assert q in a.partial[k] <==> q in a.slabs && a.slabs[q].cls == k && !IsFull(a, q);
    }
    forall k: nat, q: nat {:trigger q in b.full[k]} | k < NUM_CACHES
      ensures q in b.full[k] <==> q in b.slabs && b.slabs[q].cls == k && IsFull(b, q)
    {
      assert q in a.full[k] <==> q in a.slabs && a.slabs[q].cls == k && IsFull(a, q);
    }
  }

  lemma RetireSameOut(a: Arena, b: Arena, r: nat, y: nat)
    requires Core(a) && r in a.slabs && RegionOk(a, r) && OneFewerTaken(a, b, a.slabs[r].ext, a.headers[r].node)
    requires b == a.(slabs := a.slabs - {r}, pools := b.pools, partial := b.partial)
    requires forall x <- SlotsOf(a, r) :: x in a.slabs[r].free
    ensures IsOut(b, y) <==> IsOut(a, y)
  {
    hide Taken, BlockAt, Slots, AlignUp, SizeToOrder, Sizes.Capacity;
    assert forall q <- b.slabs :: SlotsOf(b, q) == SlotsOf(a, q);
    hide SlotsOf, Core, AlignUp, SizeToOrder, Sizes.Capacity;
    if y in a.headers {
      match a.headers[y]
      case SlabHeader(_, q, _) =>
      case BuddyHeader(f, m, isRegion, _, _, _) =>
        assert Taken(b, f, m) <==> (Taken(a, f, m) && !(f == a.slabs[r].ext && m == a.headers[r].node));
    }
  }

  // -------------------------------------------------------- whole frees

  /** buddy_free through the header: the block goes back to the pool of its extent. */
  function FreeBlock(a: Arena, x: nat): Arena
    requires ExtentsOk(a) && IsOut(a, x) && a.headers[x].BuddyHeader?
  {
    var h := a.headers[x];
    a.(pools := a.pools[h.ext := Free(a.pools[h.ext], h.node)])
  }

  lemma FreeBlockSound(a: Arena, x: nat)
    requires Core(a) && IsOut(a, x) && a.headers[x].BuddyHeader?
    ensures var b := FreeBlock(a, x); Core(b) && GivenBack(a, b, x) && b.slabs == a.slabs && a.headers[x].owned
  {
    var e, n := a.headers[x].ext, a.headers[x].node;
    var b := FreeBlock(a, x);
    PoolFreed(a, e, n, b);
    assert BlockOk(a, e, n);
    assert b == a.(pools := b.pools);
    hide FreeBlock, Taken, Slots, BlockAt, BlockSize, ExtentsOk, SlabOk, SlotsOf, AlignUp, SizeToOrder, Sizes.Capacity;
    forall f: nat, m: nat | Taken(b, f, m)
      ensures BlockOk(b, f, m)
    {
      assert BlockOk(a, f, m);
      BlockKept(a, b, f, m);
    }
    forall q <- b.slabs
      ensures SlabOk(b, q)
    {
      SlabFacts(a, q);
      OtherBlockStays(a, b, x, q);
      FreeSlotsInWord(a, q);
      SlabKept(a, b, q);
    }
    SameFull(a, b);
    FreeBlockOut(a, b, x);
  }

  lemma OtherBlockStays(a: Arena, b: Arena, x: nat, q: nat)
    requires IsOut(a, x) && a.headers[x].BuddyHeader? && BlockOk(a, a.headers[x].ext, a.headers[x].node)
    requires q in a.slabs && RegionOk(a, q) && OneFewerTaken(a, b, a.headers[x].ext, a.headers[x].node)
    ensures Taken(b, a.slabs[q].ext, a.headers[q].node)
  {
    hide Taken, BlockAt, BlockSize, AlignUp, SizeToOrder, Sizes.Capacity;
  }

  lemma FreeBlockOut(a: Arena, b: Arena, x: nat)
    requires IsOut(a, x) && a.headers[x].BuddyHeader? && b == a.(pools := b.pools)
    requires OneFewerTaken(a, b, a.headers[x].ext, a.headers[x].node)
    ensures GivenBack(a, b, x)
  {
    hide Taken, BlockAt, Slots, AlignUp, SizeToOrder, Sizes.Capacity;
    assert forall q <- a.slabs :: SlotsOf(b, q) == SlotsOf(a, q);
    hide SlotsOf, AlignUp, SizeToOrder, Sizes.Capacity;
  }

  /** Outcome of a free: panic() ends the process. */
  datatype FreeResult = Panic | Freed(arena: Arena)

  /** The test of slab_free_local: the magic and type of a slab object, and a slab of
      this arena. */
  predicate HeaderPasses(a: Arena, x: nat) {
    x in a.headers && a.headers[x].SlabHeader? && a.headers[x].live && a.headers[x].slab in a.slabs
  }

  /** slab_free_local. A slot that was never handed out passes the test as well; the
      source does not expect it here. */
  function SlabFreeLocal(a: Arena, x: nat): FreeResult
    requires Core(a) && (HeaderPasses(a, x) ==> IsOut(a, x))
  {
    if !HeaderPasses(a, x) then Panic
    else
      PutSlotCore(a, x);
      var r := a.headers[x].slab;
      var b := PutSlot(a, x, r);
      if b.slabs[r].used == 0 then
        RetireSound(b, r);
        Freed(Retire(b, r))
      else Freed(b)
  }

  /** slab_free_local on values, step by step. */
  lemma SlabFreeIs(a: Arena, x: nat)
    requires Core(a) && (HeaderPasses(a, x) ==> IsOut(a, x))
    ensures !HeaderPasses(a, x) ==> SlabFreeLocal(a, x) == Panic
    ensures HeaderPasses(a, x) ==>
              var r := a.headers[x].slab;
              && a.slabs[r].cls < NUM_CACHES && a.sizes.Plausible() && a.slabs[r].used > 0
              && |a.partial| == |a.full| == NUM_CACHES
              && var b := PutSlot(a, x, r);
                 && Core(b) && r in b.slabs && x in b.headers && b.headers[x].SlabHeader?
                 && (b.slabs[r].used != 0 ==> SlabFreeLocal(a, x) == Freed(b))
                 && (b.slabs[r].used == 0 ==>
                       && b.slabs[r].cls < NUM_CACHES && |b.partial| == NUM_CACHES && r in b.headers
                       && b.headers[r].BuddyHeader?
                       && ExtentsOk(b) && Taken(b, b.slabs[r].ext, b.headers[r].node)
                       && Retire(b, r).headers == b.headers && SlabFreeLocal(a, x) == Freed(Retire(b, r)))
  {
    hide Core, PutSlot, Retire, Sizes.Plausible, Sizes.Capacity, IsOut, Taken, ExtentsOk;
    if HeaderPasses(a, x) {
      PutSlotCore(a, x);
      var b := PutSlot(a, x, a.headers[x].slab);
      if b.slabs[a.headers[x].slab].used == 0 {
        RetireSound(b, a.headers[x].slab);
        CoreShape(b);
      }
    }
  }

  /** The dispatch of a drain or a local free on an outstanding pointer. */
  function FreeLocal(a: Arena, x: nat): FreeResult
    requires Core(a) && IsOut(a, x)
  {
    match a.headers[x]
    case SlabHeader(_, _, _) =>
      OutSlotFacts(a, x);
      SlabFreeLocal(a, x)
    case BuddyHeader(_, _, _, owned, _, _) => if owned then Freed(FreeBlock(a, x)) else Panic
  }

  /** Freeing an outstanding pointer never panics, keeps the invariant, and takes
      exactly that pointer out of the outstanding set. */
  lemma FreeLocalSound(a: Arena, x: nat)
    requires ArenaInv(a) && IsOut(a, x)
    ensures FreeLocal(a, x).Freed? && ArenaInv(FreeLocal(a, x).arena) && GivenBack(a, FreeLocal(a, x).arena, x)
  {
    OutHasHeader(a);
    hide PutSlot, Retire, FreeBlock, Core, IsOut, AlignUp, SizeToOrder, Sizes.Capacity;
    if a.headers[x].BuddyHeader? {
      FreeBlockSound(a, x);
    } else {
      OutSlotFacts(a, x);
      PutSlotCore(a, x);
      var r := a.headers[x].slab;
      var b := PutSlot(a, x, r);
      if b.slabs[r].used == 0 {
        RetireSound(b, r);
      }
    }
  }
}
