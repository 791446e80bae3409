/** The calls of src/arena.c on values, with the stack on which other threads leave what
    they free: arena_alloc with its drains, a local free, and a push by another thread. */
module ArenaCalls {
  import opened Words
  import opened BuddySpec
  import opened BuddyLayout
  import opened SlabLayout
  import opened Arena
  import opened ArenaOps
  import opened ArenaBlocks
  import opened ArenaSlabs
  import opened ArenaFrees
  import opened ArenaTheorems
  import opened Remote

  // ------------------------------------------------------ other mappings

  /** A range of addresses apart from the arena's extents. */
  datatype Mapping = Mapping(lo: nat, bytes: nat)

  predicate MappingApart(m: Mapping, sz: Sizes, e: nat) {
    m.lo + m.bytes <= e - sz.meta || e + BlockBytes(sz.root) <= m.lo
  }

  /** Every extent is apart from the given mappings. */
  predicate ExtentsApart(a: Arena, ms: set<Mapping>) {
    forall e, m | e in a.pools && m in ms :: MappingApart(m, a.sizes, e)
  }

  function Offer(a: Arena, ms: set<Mapping>, g: Option<nat>): (r: Option<nat>)
    ensures MaybeGrant(a, r) && (r.Some? ==> forall m <- ms :: MappingApart(m, a.sizes, r.value))
  {
    if g.Some? && GrantOk(a, g.value) && forall m <- ms :: MappingApart(m, a.sizes, g.value) then g else None
  }

  lemma SameHandsInv(a: Arena, b: Arena)
    requires ArenaInv(a) && Core(b) && a.slabs == b.slabs
    ensures ArenaInv(b)
  {
    hide Core;
  }

  /** Extents only come from the offers that were acceptable, and none ever goes. */
  ghost predicate PoolsFrom(a: Arena, b: Arena, grant: Option<nat>) {
    && a.sizes == b.sizes && a.pools.Keys <= b.pools.Keys
    && forall e <- b.pools :: e in a.pools || grant == Some(e)
  }

  lemma AllocBlockPools(a: Arena, size: nat, alignment: nat, isRegion: bool, grant: Option<nat>)
    requires ExtentsOk(a) && MaybeGrant(a, grant) && alignment > 0
    ensures PoolsFrom(a, AllocBlock(a, size, alignment, isRegion, grant).0, grant)
  {
    hide Alloc, RequestOrder, UserAt, BuddySpec.Inv;
  }

  lemma {:induction false} CarvePools(a: Arena, r: nat, c: nat, k: nat)
    requires c < NUM_CACHES
    ensures Carve(a, r, c, k).pools == a.pools && Carve(a, r, c, k).sizes == a.sizes
  {
    if k > 0 {
      CarvePools(a, r, c, k - 1);
    }
  }

  lemma SlabAllocPools(a: Arena, size: nat, grant: Option<nat>)
    requires Core(a) && MaybeGrant(a, grant) && size > 0
    ensures PoolsFrom(a, SlabAlloc(a, size, grant).0, grant)
  {
    hide AllocBlock, Carve, BlocksOk, SlabsOk, CachesOk, IsOut, Carved, Slots, AlignUp, SizeToOrder, Sizes.Capacity;
    CoreShape(a);
    var c := CacheOf(size);
    if c < NUM_CACHES && !PartialNonEmpty(a, c) {
      AllocBlockPools(a, SLAB_SIZE, SLAB_MAX_ALIGNMENT, true, grant);
      var (b, r) := AllocBlock(a, SLAB_SIZE, SLAB_MAX_ALIGNMENT, true, grant);
      if r != 0 {
        CapacityFits(a.sizes, c);
        AllocBlockKeepsShape(a, SLAB_SIZE, SLAB_MAX_ALIGNMENT, true, grant);
        CarvePools(b, r, c, b.sizes.Capacity(c));
      }
    }
  }

  lemma AllocBlockKeepsShape(a: Arena, size: nat, alignment: nat, isRegion: bool, grant: Option<nat>)
    requires ExtentsOk(a) && MaybeGrant(a, grant) && alignment > 0
    ensures var b := AllocBlock(a, size, alignment, isRegion, grant).0;
            b.sizes == a.sizes && b.partial == a.partial && b.full == a.full
  {
    hide Alloc, RequestOrder, UserAt, BuddySpec.Inv;
  }

  lemma FreeLocalPools(a: Arena, x: nat)
    requires ArenaInv(a) && IsOut(a, x)
    ensures FreeLocal(a, x).Freed? && PoolsFrom(a, FreeLocal(a, x).arena, None)
  {
    OutHasHeader(a);
    hide Core, IsOut, PutSlot, Retire, SlabFreeLocal, FreeBlock, GivenBack;
    FreeLocalSound(a, x);
    if a.headers[x].BuddyHeader? {
      BlockPools(a, x);
    }
    if a.headers[x].SlabHeader? {
      OutSlotFacts(a, x);
      SlabFreeIs(a, x);
      PutPools(a, x, a.headers[x].slab);
    }
  }

  lemma BlockPools(a: Arena, x: nat)
    requires Core(a) && IsOut(a, x) && a.headers[x].BuddyHeader?
    ensures FreeBlock(a, x).pools.Keys == a.pools.Keys && FreeBlock(a, x).sizes == a.sizes
  {
    hide Free, BlocksOk, SlabsOk, CachesOk, BlockAt;
  }

  lemma PutPools(a: Arena, x: nat, r: nat)
    requires Core(a) && r in a.slabs && a.slabs[r].cls < NUM_CACHES && a.sizes.Plausible() && a.slabs[r].used > 0
    requires |a.partial| == |a.full| == NUM_CACHES && x in a.headers && a.headers[x].SlabHeader?
    ensures var b := PutSlot(a, x, r);
            && b.pools == a.pools && b.sizes == a.sizes
            && forall q: nat | q in b.slabs && b.slabs[q].cls < NUM_CACHES && |b.partial| == NUM_CACHES
                 && q in b.headers && b.headers[q].BuddyHeader?
                                 && ExtentsOk(b) && Taken(b, b.slabs[q].ext, b.headers[q].node) ::
                 Retire(b, q).pools.Keys == b.pools.Keys && Retire(b, q).sizes == b.sizes
  {
    hide Free, Without, BlocksOk, SlabsOk, CachesOk, ExtentsOk, Sizes.Capacity, Sizes.Plausible;
  }

  // ------------------------------------------------- the arena of a thread

  /** The arena, the pointers pushed onto its remote stack and not yet drained, newest
      first, and the calls of arena_alloc so far. */
  datatype Local = Local(arena: Arena, stack: seq<nat>, counter: nat)

  function Head(stack: seq<nat>): nat {
    if stack == [] then 0 else stack[0]
  }

  /** The stack threads distinct outstanding pointers through their first words. */
  ghost predicate StackOk(a: Arena, stack: seq<nat>) {
    Chain(a.word, Head(stack), stack) && forall x <- stack :: IsOut(a, x)
  }

  ghost predicate LocalInv(l: Local) {
    ArenaInv(l.arena) && StackOk(l.arena, l.stack) && l.counter < WORD
  }

  /** Out, and not on its way back. */
  predicate InHand(l: Local, x: nat) {
    IsOut(l.arena, x) && x !in l.stack
  }

  /** The header of `y` is the same in both arenas. */
  predicate HeaderKept(a: Arena, b: Arena, y: nat) {
    y in a.headers && y in b.headers && b.headers[y] == a.headers[y]
  }

  /** `k` is `l` after an attempt that handed out `x`, or nothing: nothing else in hand
      changes, whatever was drained, carved, split or mapped meanwhile. */
  ghost predicate Attempted(l: Local, ms: set<Mapping>, k: Local, x: nat) {
    && LocalInv(k) && l.arena.sizes == k.arena.sizes && l.arena.pools.Keys <= k.arena.pools.Keys
    && (ExtentsApart(l.arena, ms) ==> ExtentsApart(k.arena, ms))
    && (forall y: nat :: InHand(l, y) ==> InHand(k, y) && HeaderKept(l.arena, k.arena, y))
    && (forall y: nat :: InHand(k, y) ==> InHand(l, y) || (x != 0 && y == x))
    && (x != 0 ==> !InHand(l, x) && InHand(k, x))
  }

  /** `k` is `l` after `x` left the hands of its holder. */
  ghost predicate Surrendered(l: Local, k: Local, x: nat) {
    && LocalInv(k) && PoolsFrom(l.arena, k.arena, None)
    && (forall y: nat :: InHand(k, y) <==> InHand(l, y) && y != x)
    && (forall y: nat :: InHand(k, y) ==> HeaderKept(l.arena, k.arena, y))
  }

  // -------------------------------------------------------------- a drain

  /** Freeing a list of pointers leaves everything else out. */
  lemma {:induction false} FreeAllOut(a: Arena, s: seq<nat>)
    requires ArenaInv(a) && Distinct(s) && forall x <- s :: IsOut(a, x)
    ensures ArenaInv(FreeAll(a, s)) && forall y: nat :: IsOut(FreeAll(a, s), y) <==> IsOut(a, y) && y !in s
    decreases |s|
  {
    hide IsOut, Core, FreeLocal;
    if s != [] {
      FreeLocalSound(a, s[0]);
      StillOut(a, s);
      TailMembers(s);
      FreeAllOut(FreeLocal(a, s[0]).arena, s[1..]);
    }
  }

  lemma {:induction false} FreeAllKeeps(a: Arena, s: seq<nat>)
    requires ArenaInv(a) && Distinct(s) && forall x <- s :: IsOut(a, x)
    ensures ArenaInv(FreeAll(a, s)) && PoolsFrom(a, FreeAll(a, s), None)
    ensures forall y: nat :: IsOut(a, y) && y !in s ==> HeaderKept(a, FreeAll(a, s), y)
    decreases |s|
  {
    hide IsOut, Core, FreeLocal;
    if s == [] {
      OutHasHeader(a);
    } else {
      FreeLocalSound(a, s[0]);
      FreeLocalPools(a, s[0]);
      StillOut(a, s);
      TailMembers(s);
      OutHasHeader(a);
      var b := FreeLocal(a, s[0]).arena;
      FreeAllKeeps(b, s[1..]);
      FreeAllOut(b, s[1..]);
    }
  }

  /** arena_drain_remote_frees. */
  function Drained(l: Local): Local
    requires LocalInv(l)
  {
    ChainDistinct(l.arena.word, Head(l.stack), l.stack);
    Local(FreeAll(l.arena, l.stack), [], l.counter)
  }

  /** A drain takes nothing out of anybody's hands. */
  lemma DrainSound(l: Local, ms: set<Mapping>)
    requires LocalInv(l)
    ensures Attempted(l, ms, Drained(l), 0)
  {
    hide ArenaInv, IsOut, FreeAll, MappingApart, Chain;
    ChainDistinct(l.arena.word, Head(l.stack), l.stack);
    FreeAllKeeps(l.arena, l.stack);
    FreeAllOut(l.arena, l.stack);
    EmptyChain(FreeAll(l.arena, l.stack).word);
  }

  // ------------------------------------------------------------- attempts

  /** An arena step that keeps everything out keeps the stack. */
  lemma StackKept(a: Arena, b: Arena, stack: seq<nat>)
    requires StackOk(a, stack) && KeepsOut(a, b) && forall y: nat :: IsOut(a, y) ==> IsOut(b, y)
    ensures StackOk(b, stack)
  {
    hide IsOut;
    ChainLinked(a.word, Head(stack), stack);
    ChainKept(a.word, b.word, Head(stack), stack);
  }

  lemma StepIsAttempt(l: Local, ms: set<Mapping>, b: Arena, x: nat, g: Option<nat>)
    requires LocalInv(l) && ArenaInv(b) && PoolsFrom(l.arena, b, g)
    requires (g.Some? ==> forall m <- ms :: MappingApart(m, b.sizes, g.value))
    requires x == 0 ==> KeepsOut(l.arena, b) && forall y: nat :: IsOut(b, y) <==> IsOut(l.arena, y)
    requires x != 0 ==> HandedOut(l.arena, b, x)
    ensures Attempted(l, ms, l.(arena := b), x)
  {
    OutHasHeader(l.arena);
    hide ArenaInv, IsOut, MappingApart, StackOk;
    StackKept(l.arena, b, l.stack);
    StackedAreOut(l);
  }

  lemma StackedAreOut(l: Local)
    requires LocalInv(l)
    ensures forall y <- l.stack :: IsOut(l.arena, y)
  {
    hide ArenaInv, IsOut;
  }

  lemma SlabAttempt(l: Local, ms: set<Mapping>, size: nat, g: Option<nat>)
    requires LocalInv(l) && 0 < size <= MAX_SLAB_OBJ_SIZE
    ensures var (b, x) := SlabAlloc(l.arena, size, Offer(l.arena, ms, g));
            && Attempted(l, ms, l.(arena := b), x)
            && (x != 0 ==> x in b.headers && b.headers[x].SlabHeader? && b.headers[x].size == size)
  {
    var offer := Offer(l.arena, ms, g);
    SlabAllocSound(l.arena, size, offer);
    SlabAllocPools(l.arena, size, offer);
    OutHasHeader(SlabAlloc(l.arena, size, offer).0);
    hide SlabAlloc, Core, IsOut, KeepsOut, StackOk, Offer;
    StepIsAttempt(l, ms, SlabAlloc(l.arena, size, offer).0, SlabAlloc(l.arena, size, offer).1, offer);
  }

  lemma BlockAttempt(l: Local, ms: set<Mapping>, size: nat, alignment: nat, g: Option<nat>)
    requires LocalInv(l) && 0 < alignment < WORD && size < WORD
    ensures var (b, x) := AllocBlock(l.arena, size, alignment, false, Offer(l.arena, ms, g));
            && Attempted(l, ms, l.(arena := b), x)
            && (x != 0 ==>
                  && x in b.headers && b.headers[x].BuddyHeader?
                  && b.headers[x].size == size && b.headers[x].alignment == alignment)
  {
    CoreShape(l.arena);
    var offer := Offer(l.arena, ms, g);
    BuddyRequestSound(l.arena, size, alignment, offer);
    AllocBlockPools(l.arena, size, alignment, false, offer);
    OutHasHeader(AllocBlock(l.arena, size, alignment, false, offer).0);
    SameHandsInv(l.arena, AllocBlock(l.arena, size, alignment, false, offer).0);
    hide AllocBlock, Core, IsOut, KeepsOut, StackOk, Offer;
    StepIsAttempt(l, ms, AllocBlock(l.arena, size, alignment, false, offer).0,
                  AllocBlock(l.arena, size, alignment, false, offer).1, offer);
  }

  lemma AttemptAfter(l: Local, ms: set<Mapping>, k: Local, j: Local, x: nat)
    requires Attempted(l, ms, k, 0) && Attempted(k, ms, j, x)
    ensures Attempted(l, ms, j, x)
  {
    hide LocalInv, InHand;
  }

  /** Another thread may have left something, or the counter moved: not a change. */
  lemma Counted(l: Local, ms: set<Mapping>, c: nat)
    requires LocalInv(l) && c < WORD
    ensures Attempted(l, ms, l.(counter := c), 0)
  {
    OutHasHeader(l.arena);
    hide ArenaInv, IsOut, StackOk;
  }

  /** arena_alloc of an accepted request: the counter, a drain on every 64th call, and
      another drain before a second attempt. */
  function ArenaAlloc(l: Local, ms: set<Mapping>, size: nat, first: Option<nat>, second: Option<nat>): (Local, nat)
    requires LocalInv(l) && 0 < size <= MAX_SLAB_OBJ_SIZE
  {
    var k := l.(counter := (l.counter + 1) % WORD);
    Counted(l, ms, (l.counter + 1) % WORD);
    DrainSound(k, ms);
    var d := if k.counter % DRAIN_INTERVAL == 0 then Drained(k) else k;
    var (b, x) := SlabAlloc(d.arena, size, Offer(d.arena, ms, first));
    SlabAttempt(d, ms, size, first);
    if x != 0 then (d.(arena := b), x)
    else
      DrainSound(d.(arena := b), ms);
      var e := Drained(d.(arena := b));
      var (f, y) := SlabAlloc(e.arena, size, Offer(e.arena, ms, second));
      (e.(arena := f), y)
  }

  /** arena_alloc hands out one slab object of the size asked for, or nothing; whatever
      it drains was in nobody's hands. */
  lemma ArenaAllocSound(l: Local, ms: set<Mapping>, size: nat, first: Option<nat>, second: Option<nat>)
    requires LocalInv(l) && 0 < size <= MAX_SLAB_OBJ_SIZE
    ensures var (k, x) := ArenaAlloc(l, ms, size, first, second);
            && Attempted(l, ms, k, x)
            && (x != 0 ==> x in k.arena.headers && k.arena.headers[x].SlabHeader? && k.arena.headers[x].size == size)
            && (k.stack == l.stack || k.stack == []) && (x == 0 ==> k.stack == [])
            && k.counter == (l.counter + 1) % WORD && (k.counter % 64 == 0 ==> k.stack == [])
  {
    hide SlabAlloc, Core, StackOk, Attempted, Drained, Offer;
    var c := (l.counter + 1) % WORD;
    var k := l.(counter := c);
    Counted(l, ms, c);
    AttemptInv(l, ms, k, 0);
    DrainSound(k, ms);
    AttemptAfter(l, ms, k, Drained(k), 0);
    AttemptInv(k, ms, Drained(k), 0);
    DrainedShape(k);
    var d := if c % DRAIN_INTERVAL == 0 then Drained(k) else k;
    SlabAttempt(d, ms, size, first);
    var (b, x) := SlabAlloc(d.arena, size, Offer(d.arena, ms, first));
    AttemptAfter(l, ms, d, d.(arena := b), x);
    if x == 0 {
      var g := d.(arena := b);
      AttemptInv(d, ms, g, 0);
      DrainSound(g, ms);
      DrainedShape(g);
      AttemptAfter(l, ms, g, Drained(g), 0);
      AttemptInv(g, ms, Drained(g), 0);
      SlabAttempt(Drained(g), ms, size, second);
      var (f, y) := SlabAlloc(Drained(g).arena, size, Offer(Drained(g).arena, ms, second));
      AttemptAfter(l, ms, Drained(g), Drained(g).(arena := f), y);
    }
  }

  lemma DrainedShape(l: Local)
    requires LocalInv(l)
    ensures Drained(l).stack == [] && Drained(l).counter == l.counter
  {
  }

  lemma AttemptInv(l: Local, ms: set<Mapping>, k: Local, x: nat)
    requires Attempted(l, ms, k, x)
    ensures LocalInv(k) && l.arena.sizes == k.arena.sizes && (ExtentsApart(l.arena, ms) ==> ExtentsApart(k.arena, ms))
    ensures (x != 0 ==> InHand(k, x) && !InHand(l, x)) && l.arena.pools.Keys <= k.arena.pools.Keys
  {
    hide LocalInv, InHand;
  }

  // ---------------------------------------------------------- giving back

  /** arena_free_local or arena_free_buddy_local on the owner's thread. */
  function FreeHere(l: Local, x: nat): Local
    requires LocalInv(l) && InHand(l, x)
  {
    FreeLocalSound(l.arena, x);
    l.(arena := FreeLocal(l.arena, x).arena)
  }

  lemma FreeHereSound(l: Local, x: nat)
    requires LocalInv(l) && InHand(l, x)
    ensures FreeLocal(l.arena, x) == Freed(FreeHere(l, x).arena) && Surrendered(l, FreeHere(l, x), x)
  {
    OutHasHeader(l.arena);
    hide Core, IsOut, FreeLocal, StackOk;
    FreeLocalSound(l.arena, x);
    FreeLocalPools(l.arena, x);
    StackSurvives(l.arena, FreeLocal(l.arena, x).arena, l.stack, x);
    StackedAreOut(l);
  }

  lemma StackSurvives(a: Arena, b: Arena, stack: seq<nat>, x: nat)
    requires StackOk(a, stack) && GivenBack(a, b, x) && x !in stack
    ensures StackOk(b, stack)
  {
    hide IsOut;
    ChainLinked(a.word, Head(stack), stack);
    ChainKept(a.word, b.word, Head(stack), stack);
  }

  /** arena_remote_free by another thread, once its swap has succeeded. */
  function Pushed(l: Local, x: nat): Local {
    Local(l.arena.(word := l.arena.word[x := Head(l.stack)]), [x] + l.stack, l.counter)
  }

  lemma PushedSound(l: Local, x: nat)
    requires LocalInv(l) && InHand(l, x)
    ensures Surrendered(l, Pushed(l, x), x)
  {
    OutHasHeader(l.arena);
    hide Core, IsOut, Chain;
    WordWriteKeepsArena(l.arena, x, Head(l.stack));
    OutPositive(l.arena, x);
    PushChain(l.arena.word, Head(l.stack), l.stack, x);
    assert forall y: nat :: y in [x] + l.stack <==> y == x || y in l.stack;
  }

  lemma OutPositive(a: Arena, x: nat)
    requires Core(a) && IsOut(a, x)
    ensures x > 0
  {
    hide Core, IsOut, ClaimLow;
    HeaderBefore(a, x);
  }

  lemma PushChain(word: map<nat, nat>, head: nat, s: seq<nat>, x: nat)
    requires Chain(word, head, s) && x > 0 && x !in s
    ensures Chain(word[x := head], x, [x] + s)
  {
    ConsDistinct(x, s);
    ChainPush(word, head, s, x);
  }
}
