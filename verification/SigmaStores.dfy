/** Where the bytes of users lie, which bytes sigma_alloc and sigma_free store to along
    the path each call takes, and that no call stores to a byte somebody holds across
    it. */
module SigmaStores {
  import opened Words
  import opened BuddyLayout
  import opened SlabLayout
  import opened Arena
  import opened ArenaOps
  import opened ArenaBlocks
  import opened ArenaSlabs
  import opened ArenaTheorems
  import opened ArenaBytes
  import opened ArenaCalls
  import opened ArenaStores
  import opened Remote
  import opened Sigma
  import opened SigmaTheorems
  import opened SigmaFrees

  // ------------------------------------------------------- users' bytes

  function UserLow(s: Sigma, x: nat): nat
    requires IsUser(s, x)
  {
    if x in s.large then s.large[x].lo else ClaimLow(s.local.arena, x)
  }

  function UserHigh(s: Sigma, x: nat): nat
    requires IsUser(s, x)
  {
    if x in s.large then s.large[x].lo + s.large[x].bytes else ClaimHigh(s.local.arena, x)
  }

  /** Every pointer holds the size asked for within what it claims, after its header. */
  lemma UserHolds(s: Sigma, x: nat)
    requires SigmaInv(s) && IsUser(s, x)
    ensures 0 < UserLow(s, x) + 1 <= x && SizeOf(s, x) > 0 && x + SizeOf(s, x) <= UserHigh(s, x)
  {
    hide Core, StackOk, IsOut, ClaimLow, ClaimHigh, BlockOf, IsObject, ExtentsApart, FixedApart;
    if x in s.large {
      assert LargeOk(s, x);
    } else {
      ClaimHoldsRequest(s.local.arena, x);
      OutInExtent(s.local.arena, x);
    }
  }

  /** A large allocation is apart from every pointer of the arena. */
  lemma LargeApartFromArena(s: Sigma, u: nat, x: nat)
    requires SigmaInv(s) && u in s.large && IsOut(s.local.arena, x)
    ensures Apart(s.large[u].lo, s.large[u].lo + s.large[u].bytes, ClaimLow(s.local.arena, x),
                  ClaimHigh(s.local.arena, x))
  {
    hide Core, StackOk, IsOut, ClaimLow, ClaimHigh, BlockOf, LargesOk, FixedApart;
    OutInExtent(s.local.arena, x);
    var m := Mapping(s.large[u].lo, s.large[u].bytes);
    assert m in Mappings(s);
    assert MappingApart(m, s.local.arena.sizes, BlockOf(s.local.arena, x).0);
  }

  /** Global disjointness over all tiers: no two pointers in users' hands share a byte
      of what they claim. */
  lemma UsersApart(s: Sigma, x: nat, y: nat)
    requires SigmaInv(s) && IsUser(s, x) && IsUser(s, y) && x != y
    ensures Apart(UserLow(s, x), UserHigh(s, x), UserLow(s, y), UserHigh(s, y))
  {
    hide Core, StackOk, IsOut, ClaimLow, ClaimHigh, LargeOk, ExtentsApart, FixedApart;
    if x in s.large && y in s.large {
      assert LargesApart(s.large[x], s.large[y]);
    } else if x in s.large {
      LargeApartFromArena(s, x, y);
    } else if y in s.large {
      LargeApartFromArena(s, y, x);
    } else {
      ClaimsApart(s.local.arena, x, y);
    }
  }

  // ------------------------------------------------- store sets, arena

  /** arena_drain_remote_frees. */
  ghost predicate DrainStores(l: Local, addr: nat)
    requires LocalInv(l)
  {
    ChainDistinct(l.arena.word, Head(l.stack), l.stack);
    FreeAllStores(l.arena, l.stack, addr)
  }

  /** arena_alloc: its drains and its attempts. */
  ghost predicate ArenaAllocStores(l: Local, ms: set<Mapping>, size: nat, first: Option<nat>, second: Option<nat>,
                                   addr: nat)
    requires LocalInv(l) && 0 < size <= MAX_SLAB_OBJ_SIZE
  {
    var k := l.(counter := (l.counter + 1) % WORD);
    Counted(l, ms, (l.counter + 1) % WORD);
    DrainSound(k, ms);
    var drains := k.counter % DRAIN_INTERVAL == 0;
    var d := if drains then Drained(k) else k;
    SlabAttempt(d, ms, size, first);
    var (b, x) := SlabAlloc(d.arena, size, Offer(d.arena, ms, first));
    (drains && DrainStores(k, addr))
    || SlabStores(d.arena, size, Offer(d.arena, ms, first), addr)
    || (x == 0 && SecondStores(d.(arena := b), ms, size, second, addr))
  }

  ghost predicate SecondStores(l: Local, ms: set<Mapping>, size: nat, second: Option<nat>, addr: nat)
    requires LocalInv(l) && 0 < size <= MAX_SLAB_OBJ_SIZE
  {
    DrainSound(l, ms);
    DrainStores(l, addr) || SlabStores(Drained(l).arena, size, Offer(Drained(l).arena, ms, second), addr)
  }

  /** A free on the owner's thread, or the link that another thread stores in the object. */
  ghost predicate LetGoStores(l: Local, x: nat, here: bool, addr: nat)
    requires LocalInv(l) && InHand(l, x)
  {
    if here then FreeStores(l.arena, x, addr) else In(addr, x, x + PTR_SIZE)
  }

  // ------------------------------------------------ store sets, allocator

  /** arena_t, sigma_allocator_t and the static data. */
  predicate InFixed(s: Sigma, addr: nat) {
    exists m :: m in s.fixed && In(addr, m.lo, m.lo + m.bytes)
  }

  /** The links of the debug list. */
  predicate NodeStores(s: Sigma, addr: nat) {
    exists u :: u in s.large && In(addr, s.large[u].node, s.large[u].node + s.shape.node)
  }

  /** The record of an allocation: sigma_alloc and debug builds complete the header, or
      for a large allocation its metadata object. */
  predicate RecordStores(s: Sigma, x: nat, addr: nat) {
    if x in s.large then In(addr, s.large[x].meta, s.large[x].meta + s.shape.meta)
    else x in s.local.arena.headers && In(addr, HeaderLow(s.local.arena, x), x)
  }

  function HeaderLow(a: Arena, x: nat): nat
    requires x in a.headers
  {
    var size := if a.headers[x].SlabHeader? then a.sizes.objHeader else a.sizes.buddyHeader;
    if x >= size then x - size else 0
  }

  /** large_alloc's way back. */
  ghost predicate UndoStores(l: Local, node: nat, meta: nat, addr: nat)
    requires LocalInv(l) && (node == 0 || meta == 0)
    requires (node != 0 ==> InHand(l, node)) && (meta != 0 ==> InHand(l, meta))
  {
    if node != 0 then LetGoStores(l, node, true, addr)
    else meta != 0 && LetGoStores(l, meta, true, addr)
  }

  /** The two objects that large_alloc asks for, and its way back if it gets only one. */
  ghost predicate ObjectsStored(s: Sigma, ms: set<Mapping>, o: Offers, addr: nat)
    requires LocalInv(s.local) && s.shape.Plausible()
  {
    var (k, node) := ArenaAlloc(s.local, ms, s.shape.node, o.first, o.second);
    ArenaAllocSound(s.local, ms, s.shape.node, o.first, o.second);
    AttemptInv(s.local, ms, k, node);
    var (j, meta) := ArenaAlloc(k, ms, s.shape.meta, o.third, o.fourth);
    ArenaAllocSound(k, ms, s.shape.meta, o.third, o.fourth);
    AttemptInv(k, ms, j, meta);
    StaysInHand(k, ms, j, node, meta);
    ArenaAllocStores(s.local, ms, s.shape.node, o.first, o.second, addr)
    || ArenaAllocStores(k, ms, s.shape.meta, o.third, o.fourth, addr)
    || ((node == 0 || meta == 0) && UndoStores(j, node, meta, addr))
  }

  /** A new large allocation: its header, its two objects, the link of the old head. */
  ghost predicate LargeStores(s: Sigma, u: nat, l: Large, addr: nat) {
    || (u >= s.shape.header && In(addr, u - s.shape.header, u))
    || In(addr, l.node, l.node + s.shape.node) || In(addr, l.meta, l.meta + s.shape.meta)
    || NodeStores(s, addr)
  }

  ghost predicate LargeAllocStores(s: Sigma, size: nat, alignment: nat, o: Offers, addr: nat)
    requires LocalInv(s.local) && s.shape.Plausible() && alignment < WORD
  {
    !LargeRefused(s.shape, size, alignment)
    && var m := Mapping(o.backing, MappingBytes(s.shape, size, alignment));
       Granted(s, m) && BackedStores(s, m, size, alignment, o, addr)
  }

  /** large_alloc once it has its mapping. */
  ghost predicate BackedStores(s: Sigma, m: Mapping, size: nat, alignment: nat, o: Offers, addr: nat)
    requires LocalInv(s.local) && s.shape.Plausible() && 0 < alignment < WORD
  {
    var ms := Mappings(s) + {m};
    var (k, node) := ArenaAlloc(s.local, ms, s.shape.node, o.first, o.second);
    ArenaAllocSound(s.local, ms, s.shape.node, o.first, o.second);
    AttemptInv(s.local, ms, k, node);
    var (j, meta) := ArenaAlloc(k, ms, s.shape.meta, o.third, o.fourth);
    ObjectsStored(s, ms, o, addr)
    || (node != 0 && meta != 0
        && LargeStores(s, LargeUser(s.shape, m.lo, alignment), Large(m.lo, m.bytes, node, meta, size, alignment), addr))
  }

  /** sigma_alloc. */
  ghost predicate SigmaAllocStores(s: Sigma, size: nat, alignment: nat, o: Offers, addr: nat)
    requires LocalInv(s.local) && s.shape.Plausible() && size < WORD && alignment < WORD
  {
    var (t, x) := SigmaAlloc(s, size, alignment, o);
    InFixed(s, addr) || (x != 0 && RecordStores(t, x, addr)) || TierStores(s, size, alignment, o, addr)
  }

  ghost predicate TierStores(s: Sigma, size: nat, alignment: nat, o: Offers, addr: nat)
    requires LocalInv(s.local) && s.shape.Plausible() && size < WORD && alignment < WORD
  {
    var root := s.local.arena.sizes.root;
    if size == 0 || !AlignmentIsValid(alignment) then false
    else if size <= MAX_SLAB_OBJ_SIZE && alignment <= SLAB_MAX_ALIGNMENT then
      ArenaAllocStores(s.local, Mappings(s), size, o.first, o.second, addr)
    else if size <= BlockBytes(root) && alignment <= BlockBytes(root) then
      var offer := Offer(s.local.arena, Mappings(s), o.first);
      BlockAttempt(s.local, Mappings(s), size, alignment, o.first);
      var (a, x) := AllocBlock(s.local.arena, size, alignment, false, offer);
      BlockStores(s.local.arena, size, alignment, false, offer, addr)
      || (x == 0 && LargeAllocStores(s.(local := s.local.(arena := a)), size, alignment, AfterBlock(o), addr))
    else LargeAllocStores(s, size, alignment, o, addr)
  }

  /** sigma_free; a large_free unlinks the node before its two objects go. */
  ghost predicate SigmaFreeStores(s: Sigma, x: nat, here: bool, addr: nat)
    requires SigmaInv(s) && IsUser(s, x)
  {
    InFixed(s, addr)
    || if x in s.large then
         NodeStillOut(s, x, here);
         NodeStores(s, addr) || LetGoStores(s.local, s.large[x].meta, here, addr)
         || LetGoStores(LetGo(s.local, s.large[x].meta, here).local, s.large[x].node, here, addr)
       else
         InvShape(s);
         LetGoStores(s.local, x, here, addr)
  }

  // ------------------------------------------------------ shielded bytes

  /** `addr` is a byte of `y`, which is in somebody's hands, or lies in one of the
      mappings that the extents stay apart from. */
  ghost predicate Shielded(l: Local, ms: set<Mapping>, g: Guard, addr: nat) {
    && ExtentsApart(l.arena, ms)
    && match g
       case HeldBy(y) => InHand(l, y) && Data(l.arena, y, addr)
       case Foreign => exists m :: m in ms && In(addr, m.lo, m.lo + m.bytes)
  }

  lemma ShieldGuards(l: Local, ms: set<Mapping>, g: Guard, addr: nat)
    requires Shielded(l, ms, g, addr)
    ensures Guarded(l.arena, g, addr) && (g.HeldBy? ==> g.y !in l.stack)
  {
    hide IsOut, BlockBytes;
    match g
    case HeldBy(y) =>
    case Foreign =>
      var m :| m in ms && In(addr, m.lo, m.lo + m.bytes);
      forall e <- l.arena.pools
        ensures !In(addr, MappingLow(l.arena, e), e + BlockBytes(l.arena.sizes.root))
      {
        assert MappingApart(m, l.arena.sizes, e);
      }
  }

  lemma OfferGuards(l: Local, ms: set<Mapping>, g: Guard, addr: nat, offer: Option<nat>)
    requires Shielded(l, ms, g, addr)
    ensures GrantGuards(l.arena.sizes, g, Offer(l.arena, ms, offer), addr)
  {
    hide IsOut, BlockBytes, GrantOk;
  }

  lemma ShieldAfter(l: Local, ms: set<Mapping>, k: Local, x: nat, g: Guard, addr: nat)
    requires Attempted(l, ms, k, x) && Shielded(l, ms, g, addr)
    ensures Shielded(k, ms, g, addr)
  {
    hide LocalInv, InHand, MappingApart;
  }

  lemma ShieldBack(l: Local, ms: set<Mapping>, k: Local, x: nat, g: Guard, addr: nat)
    requires Surrendered(l, k, x) && Shielded(l, ms, g, addr) && g != HeldBy(x)
    ensures Shielded(k, ms, g, addr)
  {
    hide LocalInv, InHand, MappingApart;
  }

  // ------------------------------------------------------- the arena's calls

  lemma DrainClear(l: Local, ms: set<Mapping>, g: Guard, addr: nat)
    requires LocalInv(l) && Shielded(l, ms, g, addr)
    ensures !DrainStores(l, addr) && Shielded(Drained(l), ms, g, addr) && LocalInv(Drained(l))
  {
    DrainSound(l, ms);
    AttemptInv(l, ms, Drained(l), 0);
    ShieldAfter(l, ms, Drained(l), 0, g, addr);
    ShieldGuards(l, ms, g, addr);
    ChainDistinct(l.arena.word, Head(l.stack), l.stack);
    hide Core, IsOut, FreeAllStores, FreeAll, Chain, Guarded, Shielded, Attempted;
    FreeAllClear(l.arena, l.stack, g, addr);
  }

  lemma TryClear(l: Local, ms: set<Mapping>, size: nat, offer: Option<nat>, g: Guard, addr: nat)
    requires LocalInv(l) && 0 < size <= MAX_SLAB_OBJ_SIZE && Shielded(l, ms, g, addr)
    ensures !SlabStores(l.arena, size, Offer(l.arena, ms, offer), addr)
    ensures var k := l.(arena := SlabAlloc(l.arena, size, Offer(l.arena, ms, offer)).0);
            LocalInv(k) && Shielded(k, ms, g, addr)
  {
    ShieldGuards(l, ms, g, addr);
    OfferGuards(l, ms, g, addr, offer);
    SlabAttempt(l, ms, size, offer);
    var (b, x) := SlabAlloc(l.arena, size, Offer(l.arena, ms, offer));
    ShieldAfter(l, ms, l.(arena := b), x, g, addr);
    AttemptInv(l, ms, l.(arena := b), x);
    hide Core, StackOk, Offer, SlabStores, SlabAlloc, Guarded, GrantGuards, Shielded, Attempted;
    SlabClear(l.arena, size, Offer(l.arena, ms, offer), g, addr);
  }

  lemma SecondClear(l: Local, ms: set<Mapping>, size: nat, second: Option<nat>, g: Guard, addr: nat)
    requires LocalInv(l) && 0 < size <= MAX_SLAB_OBJ_SIZE && Shielded(l, ms, g, addr)
    ensures !SecondStores(l, ms, size, second, addr)
  {
    hide LocalInv, DrainStores, SlabStores, Offer, Drained, Shielded, Attempted;
    DrainClear(l, ms, g, addr);
    TryClear(Drained(l), ms, size, second, g, addr);
  }

  /** arena_alloc stores to no byte that anybody holds, nor outside its extents. */
  lemma ArenaAllocClear(l: Local, ms: set<Mapping>, size: nat, first: Option<nat>, second: Option<nat>, g: Guard,
                        addr: nat)
    requires LocalInv(l) && 0 < size <= MAX_SLAB_OBJ_SIZE && Shielded(l, ms, g, addr)
    ensures !ArenaAllocStores(l, ms, size, first, second, addr)
  {
    hide DrainStores, SlabStores, SecondStores, Offer, Drained, Shielded, Attempted, Core, StackOk, SlabAlloc;
    var c := (l.counter + 1) % WORD;
    var k := l.(counter := c);
    Counted(l, ms, c);
    AttemptInv(l, ms, k, 0);
    ShieldAfter(l, ms, k, 0, g, addr);
    DrainClear(k, ms, g, addr);
    var d := if c % DRAIN_INTERVAL == 0 then Drained(k) else k;
    TryClear(d, ms, size, first, g, addr);
    SecondClear(d.(arena := SlabAlloc(d.arena, size, Offer(d.arena, ms, first)).0), ms, size, second, g, addr);
  }

  lemma LetGoClear(l: Local, ms: set<Mapping>, x: nat, here: bool, g: Guard, addr: nat)
    requires LocalInv(l) && InHand(l, x) && g != HeldBy(x) && Shielded(l, ms, g, addr)
    ensures !LetGoStores(l, x, here, addr) && LetGo(l, x, here).Went?
    ensures LocalInv(LetGo(l, x, here).local) && Shielded(LetGo(l, x, here).local, ms, g, addr)
  {
    LetGoSound(l, x, here);
    ShieldBack(l, ms, LetGo(l, x, here).local, x, g, addr);
    ShieldGuards(l, ms, g, addr);
    hide Core, StackOk, FreeStores, Guarded, Shielded, Surrendered, LetGo, IsOut, ClaimHigh, ClaimLow, BlockOf;
    if here {
      FreeClear(l.arena, x, g, addr);
    } else {
      ClaimHoldsRequest(l.arena, x);
      ClaimClear(l.arena, x, g, addr);
    }
  }

  /** The claim of one outstanding pointer holds no guarded byte of another. */
  lemma ClaimClear(a: Arena, x: nat, g: Guard, addr: nat)
    requires Core(a) && IsOut(a, x) && g != HeldBy(x) && Guarded(a, g, addr)
    ensures !In(addr, ClaimLow(a, x), ClaimHigh(a, x)) && ClaimLow(a, x) < x
  {
    hide Core, IsOut, ClaimLow, ClaimHigh, BlockOf, BlockBytes;
    OutInExtent(a, x);
    ClaimNotEmpty(a, x);
    match g
    case HeldBy(y) =>
      ClaimsApart(a, x, y);
      ClaimHoldsRequest(a, y);
      ClaimNotEmpty(a, y);
    case Foreign =>
  }

  /** A bookkeeping object holds no byte that another holds. */
  lemma ObjectClear(l: Local, ms: set<Mapping>, x: nat, size: nat, g: Guard, addr: nat)
    requires LocalInv(l) && IsObject(l, x, size) && g != HeldBy(x) && Shielded(l, ms, g, addr)
    ensures !In(addr, x, x + size)
  {
    ShieldGuards(l, ms, g, addr);
    hide Core, StackOk, IsOut, ClaimLow, ClaimHigh, BlockOf, Guarded, Shielded;
    ClaimHoldsRequest(l.arena, x);
    ClaimClear(l.arena, x, g, addr);
  }

  // ------------------------------------------------------- the large tier

  /** What shields the bytes of `y`: its hand in the arena, or its mapping. */
  function GuardOf(s: Sigma, y: nat): Guard {
    if y in s.large then Foreign else HeldBy(y)
  }

  lemma UserShielded(s: Sigma, y: nat, addr: nat)
    requires SigmaInv(s) && IsUser(s, y) && y <= addr < y + SizeOf(s, y)
    ensures Shielded(s.local, Mappings(s), GuardOf(s, y), addr) && !InFixed(s, addr)
    ensures GuardOf(s, y).HeldBy? ==> y !in Infra(s)
  {
    hide SigmaInv, LocalInv, InFixed, ExtentsApart, LargesOk, Mappings, Infra, InHand;
    LargesAre(s);
    if y in s.large {
      LargeByte(s, y, addr);
    } else {
      InvShape(s);
      InHandHas(s.local, y);
      ArenaByteNotFixed(s, y, addr);
    }
  }

  lemma InHandHas(l: Local, y: nat)
    requires InHand(l, y)
    ensures IsOut(l.arena, y) && y in l.arena.headers
  {
    OutHasHeader(l.arena);
    hide IsOut;
  }

  lemma LargeByte(s: Sigma, y: nat, addr: nat)
    requires SigmaInv(s) && y in s.large && y <= addr < y + s.large[y].size
    ensures !InFixed(s, addr) && Mapping(s.large[y].lo, s.large[y].bytes) in Mappings(s)
    ensures In(addr, s.large[y].lo, s.large[y].lo + s.large[y].bytes)
  {
    hide LocalInv, ExtentsApart, IsObject;
    assert LargeOk(s, y);
  }

  lemma ArenaByteNotFixed(s: Sigma, y: nat, addr: nat)
    requires SigmaInv(s) && LocalInv(s.local) && IsOut(s.local.arena, y) && y in s.local.arena.headers
    requires y <= addr < y + s.local.arena.headers[y].size
    ensures !InFixed(s, addr)
  {
    hide SigmaInv, Core, StackOk, IsOut, ClaimLow, ClaimHigh, BlockOf, BlockBytes, BlockAt, BlockSize, Taken, Mappings;
    OutInExtent(s.local.arena, y);
    ClaimHoldsRequest(s.local.arena, y);
    ClaimNotEmpty(s.local.arena, y);
    forall m <- s.fixed
      ensures MappingApart(m, s.local.arena.sizes, BlockOf(s.local.arena, y).0)
    {
      FixedOutside(s, m, BlockOf(s.local.arena, y).0);
    }
  }

  lemma FixedOutside(s: Sigma, m: Mapping, e: nat)
    requires SigmaInv(s) && m in s.fixed && e in s.local.arena.pools
    ensures MappingApart(m, s.local.arena.sizes, e)
  {
    hide LocalInv, LargesOk, FixedApart, MappingApart;
    assert m in Mappings(s);
  }

  lemma WiderShield(l: Local, ms: set<Mapping>, ns: set<Mapping>, g: Guard, addr: nat)
    requires Shielded(l, ms, g, addr) && ms <= ns && ExtentsApart(l.arena, ns)
    ensures Shielded(l, ns, g, addr)
  {
    hide MappingApart, InHand;
  }

  /** A new mapping holds no byte that anybody held before. */
  lemma MappingClear(s: Sigma, m: Mapping, g: Guard, addr: nat)
    requires SigmaInv(s) && Granted(s, m) && Shielded(s.local, Mappings(s), g, addr)
    ensures !In(addr, m.lo, m.lo + m.bytes)
  {
    hide Core, StackOk, LargesOk, FixedApart, IsOut, ClaimLow, ClaimHigh, BlockOf, BlockBytes, Mappings;
    match g
    case HeldBy(y) =>
      OutInExtent(s.local.arena, y);
      ClaimHoldsRequest(s.local.arena, y);
      ClaimNotEmpty(s.local.arena, y);
      assert MappingApart(m, s.local.arena.sizes, BlockOf(s.local.arena, y).0);
    case Foreign =>
  }

  /** The nodes of the debug list are bookkeeping objects. */
  lemma NodesClear(s: Sigma, ms: set<Mapping>, g: Guard, addr: nat)
    requires SigmaInv(s) && Shielded(s.local, ms, g, addr) && (g.HeldBy? ==> g.y !in Infra(s))
    ensures !NodeStores(s, addr)
  {
    hide LocalInv, IsObject, Shielded, FixedApart, ExtentsApart;
    forall u <- s.large
      ensures !In(addr, s.large[u].node, s.large[u].node + s.shape.node)
    {
      assert LargeOk(s, u);
      InfraHas(s, u);
      ObjectClear(s.local, ms, s.large[u].node, s.shape.node, g, addr);
    }
  }

  lemma UndoClear(l: Local, ms: set<Mapping>, node: nat, meta: nat, g: Guard, addr: nat)
    requires LocalInv(l) && (node == 0 || meta == 0) && Shielded(l, ms, g, addr)
    requires (node != 0 ==> InHand(l, node)) && (meta != 0 ==> InHand(l, meta)) && g != HeldBy(node)
    requires g != HeldBy(meta)
    ensures !UndoStores(l, node, meta, addr)
  {
    hide LocalInv, InHand, Shielded, LetGoStores, LetGo;
    if node != 0 {
      LetGoClear(l, ms, node, true, g, addr);
    } else if meta != 0 {
      LetGoClear(l, ms, meta, true, g, addr);
    }
  }

  /** What was not in hand before is not what shields a byte. */
  lemma NewIsNotGuard(l: Local, ms: set<Mapping>, k: Local, x: nat, g: Guard, addr: nat)
    requires Shielded(l, ms, g, addr) && (x != 0 ==> !InHand(l, x)) && (x == 0 ==> !InHand(l, 0))
    ensures g != HeldBy(x)
  {
    hide InHand;
  }

  lemma NullNotInHand(l: Local)
    requires LocalInv(l)
    ensures !InHand(l, 0)
  {
    hide Core, IsOut, StackOk;
    if IsOut(l.arena, 0) {
      OutPositive(l.arena, 0);
    }
  }

  /** An attempt hands out nothing that shields a byte, and keeps the shield. */
  lemma AttemptShield(l: Local, ms: set<Mapping>, k: Local, x: nat, g: Guard, addr: nat)
    requires LocalInv(l) && Attempted(l, ms, k, x) && Shielded(l, ms, g, addr)
    ensures LocalInv(k) && Shielded(k, ms, g, addr) && g != HeldBy(x) && (x != 0 ==> InHand(k, x))
  {
    hide LocalInv, InHand, Shielded, Attempted;
    AttemptInv(l, ms, k, x);
    ShieldAfter(l, ms, k, x, g, addr);
    NullNotInHand(l);
    NewIsNotGuard(l, ms, k, x, g, addr);
  }

  lemma ObjectsClear(s: Sigma, ms: set<Mapping>, o: Offers, g: Guard, addr: nat)
    requires LocalInv(s.local) && s.shape.Plausible() && Shielded(s.local, ms, g, addr)
    ensures !ObjectsStored(s, ms, o, addr)
    ensures var (k, node) := ArenaAlloc(s.local, ms, s.shape.node, o.first, o.second);
            && LocalInv(k)
            && var (j, meta) := ArenaAlloc(k, ms, s.shape.meta, o.third, o.fourth);
               node != 0 && meta != 0 ==>
                 && LocalInv(j) && Shielded(j, ms, g, addr) && g != HeldBy(node) && g != HeldBy(meta)
                 && IsObject(j, node, s.shape.node) && IsObject(j, meta, s.shape.meta)
  {
    hide InHand, Attempted, ArenaAlloc, ArenaAllocStores, UndoStores, Shielded, Core, StackOk, IsObject;
    ArenaAllocClear(s.local, ms, s.shape.node, o.first, o.second, g, addr);
    ArenaAllocSound(s.local, ms, s.shape.node, o.first, o.second);
    var (k, node) := ArenaAlloc(s.local, ms, s.shape.node, o.first, o.second);
    AttemptShield(s.local, ms, k, node, g, addr);
    ArenaAllocClear(k, ms, s.shape.meta, o.third, o.fourth, g, addr);
    ArenaAllocSound(k, ms, s.shape.meta, o.third, o.fourth);
    var (j, meta) := ArenaAlloc(k, ms, s.shape.meta, o.third, o.fourth);
    AttemptShield(k, ms, j, meta, g, addr);
    StaysInHand(k, ms, j, node, meta);
    if node == 0 || meta == 0 {
      UndoClear(j, ms, node, meta, g, addr);
    } else {
      ObjectsHanded(s.local, ms, k, node, j, meta, s.shape);
    }
  }

  lemma BackedClear(s: Sigma, m: Mapping, size: nat, alignment: nat, o: Offers, g: Guard, addr: nat)
    requires SigmaInv(s) && s.shape.Plausible() && alignment < WORD && !LargeRefused(s.shape, size, alignment)
    requires alignment > 0 && size + s.shape.header + alignment - 1 < WORD
    requires Granted(s, m) && m.bytes == MappingBytes(s.shape, size, alignment)
    requires Shielded(s.local, Mappings(s), g, addr) && (g.HeldBy? ==> g.y !in Infra(s))
    ensures LocalInv(s.local) && !BackedStores(s, m, size, alignment, o, addr)
  {
    hide SigmaInv, LocalInv, InHand, Granted, ArenaAlloc, ObjectsStored, LargeStores, Shielded, LargeRefused,
      MappingBytes, Infra, IsObject, Mappings;
    InvShape(s);
    GrantedExtends(s, m);
    var ms := Mappings(s) + {m};
    WiderShield(s.local, Mappings(s), ms, g, addr);
    ObjectsClear(s, ms, o, g, addr);
    var (k, node) := ArenaAlloc(s.local, ms, s.shape.node, o.first, o.second);
    var (j, meta) := ArenaAlloc(k, ms, s.shape.meta, o.third, o.fourth);
    if node != 0 && meta != 0 {
      LargeStoresClear(s, m, j, size, alignment, node, meta, g, addr);
    }
  }

  lemma ObjectsHanded(l: Local, ms: set<Mapping>, k: Local, node: nat, j: Local, meta: nat, shape: Shape)
    requires Attempted(l, ms, k, node) && Attempted(k, ms, j, meta) && node != 0 && meta != 0
    requires node in k.arena.headers && k.arena.headers[node].SlabHeader? && k.arena.headers[node].size == shape.node
    requires meta in j.arena.headers && j.arena.headers[meta].SlabHeader? && j.arena.headers[meta].size == shape.meta
    ensures IsObject(j, node, shape.node) && IsObject(j, meta, shape.meta)
  {
    TwoHanded(l, ms, k, node, j, meta);
    AttemptInv(k, ms, j, meta);
    hide Attempted, InHand, TwoMoreOut;
  }

  lemma LargeStoresClear(s: Sigma, m: Mapping, j: Local, size: nat, alignment: nat, node: nat, meta: nat, g: Guard,
                         addr: nat)
    requires SigmaInv(s) && s.shape.Plausible() && alignment < WORD && !LargeRefused(s.shape, size, alignment)
    requires alignment > 0
    requires size + s.shape.header + alignment - 1 < WORD && Granted(s, m)
    requires m.bytes == MappingBytes(s.shape, size, alignment)
    requires Shielded(s.local, Mappings(s), g, addr) && (g.HeldBy? ==> g.y !in Infra(s))
    requires LocalInv(j) && Shielded(j, Mappings(s) + {m}, g, addr) && g != HeldBy(node) && g != HeldBy(meta)
    requires IsObject(j, node, s.shape.node) && IsObject(j, meta, s.shape.meta)
    ensures !LargeStores(s, LargeUser(s.shape, m.lo, alignment), Large(m.lo, m.bytes, node, meta, size, alignment),
                         addr)
  {
    hide SigmaInv, Granted, LocalInv, IsObject, LargeRefused, MappingBytes, LargeUser, Shielded, NodeStores, Infra,
      Mappings;
    GrantedBounds(s, m);
    LargePlaced(s.shape, m, size, alignment);
    MappingClear(s, m, g, addr);
    NodesClear(s, Mappings(s), g, addr);
    ObjectClear(j, Mappings(s) + {m}, node, s.shape.node, g, addr);
    ObjectClear(j, Mappings(s) + {m}, meta, s.shape.meta, g, addr);
  }

  lemma GrantedBounds(s: Sigma, m: Mapping)
    requires Granted(s, m)
    ensures m.lo > 0 && m.bytes > 0 && m.lo + m.bytes <= WORD
  {
  }

  lemma LargeAllocClear(s: Sigma, size: nat, alignment: nat, o: Offers, g: Guard, addr: nat)
    requires SigmaInv(s) && alignment < WORD && Shielded(s.local, Mappings(s), g, addr)
    requires (g.HeldBy? ==> g.y !in Infra(s))
    ensures LocalInv(s.local) && s.shape.Plausible() && !LargeAllocStores(s, size, alignment, o, addr)
  {
    hide SigmaInv, Granted, LargeRefused, MappingBytes, BackedStores, Shielded, Mappings, Infra, LocalInv;
    InvShape(s);
    if !LargeRefused(s.shape, size, alignment) {
      MappingBytesIff(s.shape, size, alignment);
      var m := Mapping(o.backing, MappingBytes(s.shape, size, alignment));
      if Granted(s, m) {
        BackedClear(s, m, size, alignment, o, g, addr);
      }
    }
  }

  // --------------------------------------------------------- whole calls

  lemma TiersClear(s: Sigma, size: nat, alignment: nat, o: Offers, g: Guard, addr: nat)
    requires SigmaInv(s) && size < WORD && alignment < WORD
    requires Shielded(s.local, Mappings(s), g, addr) && (g.HeldBy? ==> g.y !in Infra(s))
    ensures LocalInv(s.local) && s.shape.Plausible() && !TierStores(s, size, alignment, o, addr)
  {
    InvShape(s);
    if size == 0 || !AlignmentIsValid(alignment) {
      return;
    }
    ValidPositive(alignment);
    hide SigmaInv, AlignmentIsValid, BlockBytes, ArenaAllocStores, LargeAllocStores, AllocBlock, BlockStores, Shielded,
      Offer, Mappings, Core, StackOk;
    var root := s.local.arena.sizes.root;
    if size <= MAX_SLAB_OBJ_SIZE && alignment <= SLAB_MAX_ALIGNMENT {
      ArenaAllocClear(s.local, Mappings(s), size, o.first, o.second, g, addr);
    } else if size <= BlockBytes(root) && alignment <= BlockBytes(root) {
      BlockTierClear(s, size, alignment, o, g, addr);
    } else {
      LargeAllocClear(s, size, alignment, o, g, addr);
    }
  }

  lemma BlockTierClear(s: Sigma, size: nat, alignment: nat, o: Offers, g: Guard, addr: nat)
    requires SigmaInv(s) && size < WORD && 0 < alignment < WORD
    requires Shielded(s.local, Mappings(s), g, addr) && (g.HeldBy? ==> g.y !in Infra(s))
    ensures LocalInv(s.local) && s.shape.Plausible() && ExtentsOk(s.local.arena)
    ensures var offer := Offer(s.local.arena, Mappings(s), o.first);
            var (a, x) := AllocBlock(s.local.arena, size, alignment, false, offer);
            var t := s.(local := s.local.(arena := a));
            && LocalInv(t.local) && !BlockStores(s.local.arena, size, alignment, false, offer, addr)
            && (x == 0 ==> !LargeAllocStores(t, size, alignment, AfterBlock(o), addr))
  {
    InvShape(s);
    CoreShape(s.local.arena);
    hide SigmaInv, LargeAllocStores, AllocBlock, BlockStores, Shielded, Offer, Mappings, Core, StackOk, Guarded,
      GrantGuards, HandedToUser, Attempted, Infra;
    var ms := Mappings(s);
    var offer := Offer(s.local.arena, ms, o.first);
    ShieldGuards(s.local, ms, g, addr);
    OfferGuards(s.local, ms, g, addr, o.first);
    BlockClear(s.local.arena, size, alignment, offer, g, addr);
    BlockAttempt(s.local, ms, size, alignment, o.first);
    var (a, x) := AllocBlock(s.local.arena, size, alignment, false, offer);
    var t := s.(local := s.local.(arena := a));
    AttemptShield(s.local, ms, t.local, x, g, addr);
    BuddyAllocHands(s, size, alignment, o.first);
    SameLarges(s, t);
    if x == 0 {
      LargeAllocClear(t, size, alignment, AfterBlock(o), g, addr);
    }
  }

  lemma SameLarges(s: Sigma, t: Sigma)
    requires s.large == t.large && s.fixed == t.fixed
    ensures Mappings(t) == Mappings(s) && Infra(t) == Infra(s)
  {
  }

  /** The record of a pointer lies in nobody's bytes. */
  lemma RecordClear(s: Sigma, x: nat, y: nat, addr: nat)
    requires SigmaInv(s) && IsUser(s, x) && IsUser(s, y) && y <= addr < y + SizeOf(s, y)
    ensures !RecordStores(s, x, addr)
  {
    UserShielded(s, y, addr);
    InvShape(s);
    hide SizeOf, Shielded, SigmaInv, Infra, ClaimLow, ClaimHigh, LocalInv, InHand;
    if x in s.large {
      MetaIsObject(s, x);
      ObjectClear(s.local, Mappings(s), s.large[x].meta, s.shape.meta, GuardOf(s, y), addr);
    } else {
      HeaderClear(s, x, y, addr);
    }
  }

  lemma MetaIsObject(s: Sigma, x: nat)
    requires SigmaInv(s) && x in s.large
    ensures IsObject(s.local, s.large[x].meta, s.shape.meta) && s.large[x].meta in Infra(s)
  {
    hide LocalInv, IsObject, FixedApart, ExtentsApart;
    assert LargeOk(s, x);
    InfraHas(s, x);
  }

  lemma HeaderClear(s: Sigma, x: nat, y: nat, addr: nat)
    requires SigmaInv(s) && IsUser(s, x) && x !in s.large && IsUser(s, y) && y <= addr < y + SizeOf(s, y)
    requires Shielded(s.local, Mappings(s), GuardOf(s, y), addr) && x in s.local.arena.headers
    ensures !In(addr, HeaderLow(s.local.arena, x), x)
  {
    hide SigmaInv, SizeOf, Shielded, Core, StackOk, Guarded, IsOut, ClaimLow, ClaimHigh, Infra, Mappings, HeaderLow;
    InvShape(s);
    ShieldGuards(s.local, Mappings(s), GuardOf(s, y), addr);
    if x != y {
      ClaimBounds(s.local.arena, x);
      ClaimClear(s.local.arena, x, GuardOf(s, y), addr);
    }
  }

  lemma ClaimBounds(a: Arena, x: nat)
    requires Core(a) && IsOut(a, x)
    ensures x in a.headers && ClaimLow(a, x) <= HeaderLow(a, x) && x < ClaimHigh(a, x)
  {
    hide Core, IsOut, ClaimLow, ClaimHigh, BlockOf, BlockAt, BlockSize, Taken;
    ClaimHoldsRequest(a, x);
    InHandIs(a, x);
  }

  lemma InHandIs(a: Arena, x: nat)
    requires IsOut(a, x)
    ensures x in a.headers
  {
    OutHasHeader(a);
    hide IsOut;
  }

  /** sigma_alloc, whatever tiers it tries and whatever it drains, carves, splits, links
      or maps, stores to no byte of a pointer that a user holds. */
  lemma AllocStoresClear(s: Sigma, size: nat, alignment: nat, o: Offers, y: nat, addr: nat)
    requires SigmaInv(s) && size < WORD && alignment < WORD && IsUser(s, y) && y <= addr < y + SizeOf(s, y)
    ensures LocalInv(s.local) && s.shape.Plausible() && !SigmaAllocStores(s, size, alignment, o, addr)
  {
    InvShape(s);
    hide SigmaInv, LocalInv, TierStores, Shielded, SizeOf, IsUser, RecordStores, SigmaAlloc, HandedToUser, InFixed,
      Infra;
    UserShielded(s, y, addr);
    TiersClear(s, size, alignment, o, GuardOf(s, y), addr);
    SigmaAllocSound(s, size, alignment, o);
    var (t, x) := SigmaAlloc(s, size, alignment, o);
    if x != 0 {
      KeepsHeld(s, t, x, size, alignment, y);
      NowHeld(s, t, x, size, alignment);
      RecordClear(t, x, y, addr);
    }
  }

  lemma KeepsHeld(s: Sigma, t: Sigma, x: nat, size: nat, alignment: nat, y: nat)
    requires HandedToUser(s, t, x, size, alignment) && IsUser(s, y)
    ensures IsUser(t, y) && KeepsUser(s, t, y) && (x != 0 ==> y != x) && SizeOf(t, y) == SizeOf(s, y)
  {
    hide IsUser, KeepsUser, SizeOf;
    SameSize(s, t, y);
  }

  lemma NowHeld(s: Sigma, t: Sigma, x: nat, size: nat, alignment: nat)
    requires HandedToUser(s, t, x, size, alignment) && x != 0
    ensures IsUser(t, x) && SizeOf(t, x) == size
  {
    hide IsUser, KeepsUser, SizeOf;
  }

  lemma SameSize(s: Sigma, t: Sigma, x: nat)
    requires IsUser(s, x) && IsUser(t, x) && KeepsUser(s, t, x)
    ensures SizeOf(t, x) == SizeOf(s, x)
  {
    hide InHand, Infra;
  }

  /** sigma_free, from any thread, stores to no byte of a pointer held by another user. */
  lemma FreeStoresClear(s: Sigma, x: nat, here: bool, y: nat, addr: nat)
    requires SigmaInv(s) && IsUser(s, x) && IsUser(s, y) && x != y && y <= addr < y + SizeOf(s, y)
    ensures !SigmaFreeStores(s, x, here, addr)
  {
    UserShielded(s, y, addr);
    InvShape(s);
    if x in s.large {
      LargeFreeStoresClear(s, x, here, GuardOf(s, y), addr);
      hide SigmaInv, NodeStores, LetGoStores, InFixed, LetGo;
    } else {
      hide SigmaInv, LocalInv, InHand, Shielded, SizeOf, LetGo, LetGoStores, InFixed;
      LetGoClear(s.local, Mappings(s), x, here, GuardOf(s, y), addr);
    }
  }

  lemma LargeFreeStoresClear(s: Sigma, x: nat, here: bool, g: Guard, addr: nat)
    requires SigmaInv(s) && x in s.large && Shielded(s.local, Mappings(s), g, addr) && (g.HeldBy? ==> g.y !in Infra(s))
    ensures LocalInv(s.local) && InHand(s.local, s.large[x].meta) && LetGo(s.local, s.large[x].meta, here).Went?
    ensures var k := LetGo(s.local, s.large[x].meta, here).local;
            && LocalInv(k) && InHand(k, s.large[x].node) && !NodeStores(s, addr)
            && !LetGoStores(s.local, s.large[x].meta, here, addr) && !LetGoStores(k, s.large[x].node, here, addr)
  {
    hide SigmaInv, LocalInv, InHand, Shielded, LetGo, LetGoStores, NodeStores, Infra;
    NodeStillOut(s, x, here);
    InfraHas(s, x);
    NodesClear(s, Mappings(s), g, addr);
    LetGoClear(s.local, Mappings(s), s.large[x].meta, here, g, addr);
    LetGoClear(LetGo(s.local, s.large[x].meta, here).local, Mappings(s), s.large[x].node, here, g, addr);
  }

  // -------------------------------------------------- bytes just handed out

  lemma FreshBackedClear(s: Sigma, m: Mapping, size: nat, alignment: nat, o: Offers, addr: nat)
    requires SigmaInv(s) && s.shape.Plausible() && 0 < alignment < WORD && Granted(s, m)
    requires m.lo <= addr < m.lo + m.bytes && LargeUser(s.shape, m.lo, alignment) <= addr
    ensures LocalInv(s.local) && !BackedStores(s, m, size, alignment, o, addr)
  {
    hide SigmaInv, LocalInv, InHand, Granted, ArenaAlloc, ObjectsStored, NodeStores, Infra, IsObject, Mappings,
      LargeUser, MappingApart;
    InvShape(s);
    GrantedExtends(s, m);
    var ms := Mappings(s) + {m};
    assert Shielded(s.local, ms, Foreign, addr);
    hide Shielded;
    ObjectsClear(s, ms, o, Foreign, addr);
    NodesClear(s, ms, Foreign, addr);
    var (k, node) := ArenaAlloc(s.local, ms, s.shape.node, o.first, o.second);
    var (j, meta) := ArenaAlloc(k, ms, s.shape.meta, o.third, o.fourth);
    if node != 0 && meta != 0 {
      ObjectClear(j, ms, node, s.shape.node, Foreign, addr);
      ObjectClear(j, ms, meta, s.shape.meta, Foreign, addr);
    }
  }

  /** What a large request that succeeded was given, and that its bytes stay as the
      source gave them. */
  lemma FreshLargeClear(s: Sigma, size: nat, alignment: nat, o: Offers, addr: nat)
    requires SigmaInv(s) && alignment < WORD
    ensures LocalInv(s.local) && s.shape.Plausible()
    ensures var (t, p) := LargeAlloc(s, size, alignment, o);
            p != 0 && p <= addr < p + size ==>
              && !LargeAllocStores(s, size, alignment, o, addr)
              && forall e <- s.local.arena.pools ::
                   !In(addr, MappingLow(s.local.arena, e), e + BlockBytes(s.local.arena.sizes.root))
  {
    hide SigmaInv, LocalInv, Granted, LargeRefused, MappingBytes, BackedStores, Mappings, ArenaAlloc, Undo, LargeUser,
      BlockBytes;
    InvShape(s);
    if LargeRefused(s.shape, size, alignment) {
      return;
    }
    MappingBytesIff(s.shape, size, alignment);
    var m := Mapping(o.backing, MappingBytes(s.shape, size, alignment));
    if Granted(s, m) {
      GrantedBounds(s, m);
      LargePlaced(s.shape, m, size, alignment);
      LargeAllocIs(s, m, size, alignment, o);
      if LargeUser(s.shape, m.lo, alignment) <= addr < LargeUser(s.shape, m.lo, alignment) + size {
        FreshBackedClear(s, m, size, alignment, o, addr);
        GrantedForeign(s, m, addr);
      }
    }
  }

  lemma LargeAllocIs(s: Sigma, m: Mapping, size: nat, alignment: nat, o: Offers)
    requires LocalInv(s.local) && s.shape.Plausible() && alignment < WORD && !LargeRefused(s.shape, size, alignment)
    requires alignment > 0 && size + s.shape.header + alignment - 1 < WORD
    requires m == Mapping(o.backing, MappingBytes(s.shape, size, alignment))
    ensures var p := LargeAlloc(s, size, alignment, o).1; p == 0 || p == LargeUser(s.shape, m.lo, alignment)
  {
    hide LocalInv, Granted, LargeRefused, MappingBytes, Mappings, ArenaAlloc, Undo, LargeUser, Attempted;
    var ms := Mappings(s) + {m};
    ArenaAllocSound(s.local, ms, s.shape.node, o.first, o.second);
    var (k, node) := ArenaAlloc(s.local, ms, s.shape.node, o.first, o.second);
    AttemptInv(s.local, ms, k, node);
  }

  lemma GrantedForeign(s: Sigma, m: Mapping, addr: nat)
    requires Granted(s, m) && m.lo <= addr < m.lo + m.bytes
    ensures forall e <- s.local.arena.pools ::
              !In(addr, MappingLow(s.local.arena, e), e + BlockBytes(s.local.arena.sizes.root))
  {
    hide Mappings, BlockBytes;
    forall e <- s.local.arena.pools
      ensures !In(addr, MappingLow(s.local.arena, e), e + BlockBytes(s.local.arena.sizes.root))
    {
      assert MappingApart(m, s.local.arena.sizes, e);
    }
  }

  /** A block request that fails has mapped its extent, if it got one, and no more. */
  lemma RefusedBlock(a: Arena, size: nat, alignment: nat, grant: Option<nat>)
    requires Core(a) && MaybeGrant(a, grant) && 0 < alignment < WORD && size < WORD
    ensures ExtentsOk(a)
    ensures var (b, x) := AllocBlock(a, size, alignment, false, grant);
            x == 0 ==> b == if grant.Some? then Expand(a, grant.value) else a
  {
    hide Core, PlaceIn, RequestOrder, Serves, Expand, ExtentsOk;
    CoreShape(a);
    var target := RequestOrder(a.sizes, size, alignment);
    match FindExtent(a, target)
    case Some(e) => PlacePositive(a, e, size, alignment);
    case None =>
      if grant.Some? {
        ExpandShape(a, grant.value);
        ExpandOk(a, grant.value);
        if Serves(Expand(a, grant.value), grant.value, target) {
          PlacePositive(Expand(a, grant.value), grant.value, size, alignment);
        }
      }
  }

  lemma PlacePositive(a: Arena, e: nat, size: nat, alignment: nat)
    requires ExtentsOk(a) && e in a.pools && 0 < alignment < WORD && size < WORD
    requires Serves(a, e, RequestOrder(a.sizes, size, alignment))
    ensures PlaceIn(a, e, size, alignment, false).1 > 0
  {
    PlaceFacts(a, e, size, alignment, false);
  }

  lemma FreshBlockClear(a: Arena, size: nat, alignment: nat, grant: Option<nat>, addr: nat)
    requires Core(a) && MaybeGrant(a, grant) && 0 < alignment < WORD && size < WORD && ExtentsOk(a)
    requires var (b, x) := AllocBlock(a, size, alignment, false, grant);
             && x == 0
             && forall e <- b.pools :: !In(addr, MappingLow(b, e), e + BlockBytes(b.sizes.root))
    ensures !BlockStores(a, size, alignment, false, grant, addr)
  {
    hide Core, AllocBlock, BlockStores, BlockBytes, ExtentsOk;
    RefusedBlock(a, size, alignment, grant);
    var b := AllocBlock(a, size, alignment, false, grant).0;
    forall e <- a.pools
      ensures !In(addr, MappingLow(a, e), e + BlockBytes(a.sizes.root))
    {
      assert e in b.pools;
    }
    if grant.Some? {
      assert grant.value in b.pools;
    }
    BlockClear(a, size, alignment, grant, Foreign, addr);
  }

  lemma FreshTiersClear(s: Sigma, size: nat, alignment: nat, o: Offers, addr: nat)
    requires SigmaInv(s) && size < WORD && alignment < WORD && LocalInv(s.local) && s.shape.Plausible()
    requires var (t, p) := SigmaAlloc(s, size, alignment, o);
             p != 0 && p in t.large && p !in s.large && p <= addr < p + size
    ensures !TierStores(s, size, alignment, o, addr)
  {
    hide SigmaInv, AlignmentIsValid, BlockBytes, ArenaAllocStores, ArenaAlloc, LargeAlloc, LargeAllocStores, AllocBlock,
      BlockStores, Offer, Mappings, Core, StackOk, HandedToUser;
    if size == 0 || !AlignmentIsValid(alignment) || (size <= MAX_SLAB_OBJ_SIZE && alignment <= SLAB_MAX_ALIGNMENT) {
      return;
    }
    ValidPositive(alignment);
    CoreShape(s.local.arena);
    var root := s.local.arena.sizes.root;
    if size <= BlockBytes(root) && alignment <= BlockBytes(root) {
      var offer := Offer(s.local.arena, Mappings(s), o.first);
      BuddyAllocHands(s, size, alignment, o.first);
      var (a, x) := AllocBlock(s.local.arena, size, alignment, false, offer);
      if x == 0 {
        FreshLargeClear(s.(local := s.local.(arena := a)), size, alignment, AfterBlock(o), addr);
        FreshBlockClear(s.local.arena, size, alignment, offer, addr);
      }
    } else {
      FreshLargeClear(s, size, alignment, o, addr);
    }
  }

  /** While a large allocation is made nothing is stored to its bytes: they are as the
      source gave them. */
  lemma FreshBytesClear(s: Sigma, size: nat, alignment: nat, o: Offers, addr: nat)
    requires SigmaInv(s) && size < WORD && alignment < WORD && LocalInv(s.local) && s.shape.Plausible()
    requires var (t, p) := SigmaAlloc(s, size, alignment, o); p != 0 && p in t.large && p <= addr < p + size
    ensures !SigmaAllocStores(s, size, alignment, o, addr)
  {
    hide SigmaInv, LocalInv, TierStores, SizeOf, RecordStores, SigmaAlloc, InFixed, Infra, KeepsUser;
    SigmaAllocSound(s, size, alignment, o);
    var (t, p) := SigmaAlloc(s, size, alignment, o);
    FixedStays(s, size, alignment, o);
    UserShielded(t, p, addr);
    RecordClear(t, p, p, addr);
    FreshTiersClear(s, size, alignment, o, addr);
  }

  lemma LargeFixedStays(s: Sigma, size: nat, alignment: nat, o: Offers)
    requires LocalInv(s.local) && s.shape.Plausible() && alignment < WORD
    ensures LargeAlloc(s, size, alignment, o).0.fixed == s.fixed
  {
    hide LocalInv, Mappings, ArenaAlloc, Undo, Granted, LargeRefused, LargeUser, MappingBytes, Attempted, InHand;
  }

  lemma FixedStays(s: Sigma, size: nat, alignment: nat, o: Offers)
    requires LocalInv(s.local) && s.shape.Plausible() && size < WORD && alignment < WORD
    ensures SigmaAlloc(s, size, alignment, o).0.fixed == s.fixed
    ensures forall addr: nat :: InFixed(SigmaAlloc(s, size, alignment, o).0, addr) <==> InFixed(s, addr)
  {
    hide LocalInv, Mappings, ArenaAlloc, AllocBlock, LargeAlloc, Offer, AlignmentIsValid, BlockBytes, Attempted, In;
    if size == 0 || !AlignmentIsValid(alignment) || (size <= MAX_SLAB_OBJ_SIZE && alignment <= SLAB_MAX_ALIGNMENT) {
      return;
    }
    LargeFixedStays(s, size, alignment, o);
    if size <= BlockBytes(s.local.arena.sizes.root) && alignment <= BlockBytes(s.local.arena.sizes.root) {
      ValidPositive(alignment);
      CoreOfLocal(s.local);
      BlockAttempt(s.local, Mappings(s), size, alignment, o.first);
      var (a, x) := AllocBlock(s.local.arena, size, alignment, false, Offer(s.local.arena, Mappings(s), o.first));
      AttemptInv(s.local, Mappings(s), s.local.(arena := a), x);
      LargeFixedStays(s.(local := s.local.(arena := a)), size, alignment, AfterBlock(o));
    }
  }

  lemma CoreOfLocal(l: Local)
    requires LocalInv(l)
    ensures ExtentsOk(l.arena)
  {
    CoreShape(l.arena);
  }
}
