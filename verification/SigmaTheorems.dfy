/** Safety of the whole allocator from the thread that owns the arena: the set of pointers users hold, where
    they lie, and full recovery across all three tiers. */
module SigmaTheorems {
  import opened Words
  import opened BuddySpec
  import opened BuddyLayout
  import opened SlabLayout
  import opened Arena
  import opened ArenaOps
  import opened ArenaBlocks
  import opened ArenaSlabs
  import opened ArenaTheorems
  import opened ArenaCalls
  import opened Sigma

  /** The slab objects that describe large allocations. */
  function Infra(s: Sigma): set<nat> {
    (set u | u in s.large :: s.large[u].node) + (set u | u in s.large :: s.large[u].meta)
  }

  /** `x` is in a user's hands. */
  predicate IsUser(s: Sigma, x: nat) {
    x in s.large || (InHand(s.local, x) && x !in Infra(s))
  }

  function Users(s: Sigma): set<nat> {
    s.large.Keys + (Out(s.local.arena) - Elems(s.local.stack) - Infra(s))
  }

  lemma UsersAre(s: Sigma)
    ensures forall x: nat :: x in Users(s) <==> IsUser(s, x)
  {
    OutHasHeader(s.local.arena);
    hide IsOut, Infra;
  }

  predicate IsInfra(l: Local, x: nat) {
    InHand(l, x) && x in l.arena.headers && l.arena.headers[x].SlabHeader?
  }

  /** `x` is a slab object of `size` bytes that holds bookkeeping. */
  predicate IsObject(l: Local, x: nat, size: nat) {
    IsInfra(l, x) && l.arena.headers[x].size == size
  }

  /** A step from `a` to `b` leaves the bookkeeping object `x` where and what it is. */
  predicate ObjectStays(a: Local, b: Local, x: nat) {
    IsInfra(b, x) && HeaderKept(a.arena, b.arena, x)
  }

  /** The header and the user range lie in the mapping, the address is aligned, and the
      two bookkeeping objects are out. */
  predicate LargeOk(s: Sigma, u: nat)
    requires u in s.large
  {
    var l := s.large[u];
    && l.lo > 0 && l.lo + s.shape.header <= u && l.size > 0 && u + l.size <= l.lo + l.bytes <= WORD
    && l.alignment > 0 && u % l.alignment == 0
    && IsObject(s.local, l.node, s.shape.node) && IsObject(s.local, l.meta, s.shape.meta) && l.node != l.meta
  }

  predicate LargesApart(k: Large, l: Large) {
    && Apart(k.lo, k.lo + k.bytes, l.lo, l.lo + l.bytes)
    && k.node != l.node && k.node != l.meta && k.meta != l.node && k.meta != l.meta
  }

  ghost predicate LargesOk(s: Sigma) {
    && (forall u <- s.large :: LargeOk(s, u))
    && (forall u, v | u in s.large && v in s.large && u != v :: LargesApart(s.large[u], s.large[v]))
  }

  /** Large allocations are apart from the allocator's fixed storage. */
  predicate FixedApart(s: Sigma) {
    forall u, m | u in s.large && m in s.fixed ::
      Apart(s.large[u].lo, s.large[u].lo + s.large[u].bytes, m.lo, m.lo + m.bytes)
  }

  ghost predicate SigmaInv(s: Sigma) {
    && LocalInv(s.local) && s.shape.Plausible() && LargesOk(s) && FixedApart(s)
    && ExtentsApart(s.local.arena, Mappings(s))
    && Distinct(s.order) && Elems(s.order) == s.large.Keys
  }

  // -------------------------------------------------------- large_alloc

  /** The guard bounds the size before rounding: rounding up to a page is exact unless
      it passes 2^64, and then the source is asked for nothing at all. */
  lemma MappingBytesIff(shape: Shape, size: nat, alignment: nat)
    requires shape.Plausible() && alignment < WORD && !LargeRefused(shape, size, alignment)
    ensures alignment > 0 && var total := size + shape.header + alignment - 1;
            && total < WORD
            && (total + (PAGE - 1) < WORD ==> MappingBytes(shape, size, alignment) == AlignUp(total, PAGE) >= total)
            && (total + (PAGE - 1) >= WORD ==> MappingBytes(shape, size, alignment) == 0)
  {
    hide AlignUp, AlignUpWord, AlignmentIsValid;
    assert alignment > 0 by { ValidPositive(alignment); }
    PageIsValid();
    AlignUpWordSpec(size + shape.header + alignment - 1, PAGE);
    AlignUpAbove(size + shape.header + alignment - 1, PAGE);
  }

  lemma PageIsValid()
    ensures AlignmentIsValid(PAGE)
  {
    Pow2Values();
    AlignmentValidIffPow2(PAGE);
  }

  /** The rounding does wrap for requests the guard lets through. */
  lemma MappingBytesCanWrap(shape: Shape)
    requires shape.Plausible()
    ensures var size := WORD - 1 - shape.header;
            !LargeRefused(shape, size, 1) && MappingBytes(shape, size, 1) == 0
  {
    assert AlignmentIsValid(1);
    MappingBytesIff(shape, WORD - 1 - shape.header, 1);
  }

  /** A request placed in the mapping asked for it fits, header, alignment and all, if
      and only if the rounding did not wrap; it then starts at the first address of the
      alignment behind the header. */
  lemma LargePlacedIff(shape: Shape, lo: nat, size: nat, alignment: nat)
    requires shape.Plausible() && alignment < WORD && !LargeRefused(shape, size, alignment) && alignment > 0
    requires size + shape.header + alignment - 1 < WORD && lo > 0 && lo + MappingBytes(shape, size, alignment) <= WORD
    ensures var u := LargeUser(shape, lo, alignment);
            var inside := lo + shape.header <= u && u + size <= lo + MappingBytes(shape, size, alignment);
            && (inside <==> size + shape.header + alignment - 1 + (PAGE - 1) < WORD)
            && (inside ==> u % alignment == 0 && u < lo + shape.header + alignment)
  {
    hide AlignUp, AlignUpWord, AlignmentIsValid;
    MappingBytesIff(shape, size, alignment);
    var x := lo + shape.header;
    if size + shape.header + alignment - 1 + (PAGE - 1) < WORD {
      DivModUnique(x, WORD, 0, x);
      AlignUpWordSpec(x, alignment);
      AlignUpAbove(x, alignment);
    }
  }

  lemma LargePlaced(shape: Shape, m: Mapping, size: nat, alignment: nat)
    requires shape.Plausible() && alignment < WORD && !LargeRefused(shape, size, alignment)
    requires alignment > 0 && m.bytes == MappingBytes(shape, size, alignment) && m.bytes > 0 && m.lo > 0
    requires m.lo + m.bytes <= WORD
    ensures var u := LargeUser(shape, m.lo, alignment);
            m.lo + shape.header <= u && u + size <= m.lo + m.bytes && u % alignment == 0
  {
    hide AlignUp, AlignUpWord, AlignmentIsValid, MappingBytes, LargeUser;
    MappingBytesIff(shape, size, alignment);
    LargePlacedIff(shape, m.lo, size, alignment);
  }

  /** Arena steps that keep what is out keep every large allocation. */
  lemma LargeKept(s: Sigma, b: Local, u: nat)
    requires u in s.large && LargeOk(s, u)
    requires forall y: nat :: IsInfra(s.local, y) && y in Infra(s) ==> ObjectStays(s.local, b, y)
    ensures LargeOk(s.(local := b), u)
  {
    hide InHand;
    assert s.large[u].node in Infra(s) && s.large[u].meta in Infra(s);
  }

  lemma ArenaStepKeeps(s: Sigma, b: Local)
    requires SigmaInv(s) && LocalInv(b) && ExtentsApart(b.arena, Mappings(s))
    requires forall y: nat :: IsInfra(s.local, y) && y in Infra(s) ==> ObjectStays(s.local, b, y)
    ensures SigmaInv(s.(local := b)) && Infra(s.(local := b)) == Infra(s)
  {
    hide LocalInv, IsInfra, LargeOk, ExtentsApart;
    assert Mappings(s.(local := b)) == Mappings(s);
    forall u <- s.large
      ensures LargeOk(s.(local := b), u)
    {
      LargeKept(s, b, u);
    }
  }

  lemma AttemptKeepsInfra(a: Local, ms: set<Mapping>, b: Local, x: nat)
    requires Attempted(a, ms, b, x)
    ensures forall y: nat :: IsInfra(a, y) ==> ObjectStays(a, b, y)
  {
    hide LocalInv, InHand;
  }

  lemma InfraIsOut(s: Sigma, x: nat)
    requires SigmaInv(s) && x in Infra(s)
    ensures IsInfra(s.local, x)
  {
    hide IsInfra, LocalInv, ExtentsApart;
    if u :| u in s.large && (s.large[u].node == x || s.large[u].meta == x) {
      assert LargeOk(s, u);
    }
  }

  // ------------------------------------------------- what changes hands

  function SizeOf(s: Sigma, x: nat): nat
    requires IsUser(s, x)
  {
    if x in s.large then s.large[x].size else s.local.arena.headers[x].size
  }

  /** What is recorded about every pointer in users' hands is kept. */
  ghost predicate KeepsUser(s: Sigma, t: Sigma, y: nat) {
    && (y in s.large <==> y in t.large) && (y in s.large ==> t.large[y] == s.large[y])
    && (y !in s.large ==>
          y in s.local.arena.headers && y in t.local.arena.headers
            && t.local.arena.headers[y] == s.local.arena.headers[y])
  }

  /** NULL changes nothing in users' hands; otherwise exactly `x` is new there, of the
      size and alignment asked for. */
  ghost predicate HandedToUser(s: Sigma, t: Sigma, x: nat, size: nat, alignment: nat) {
    && (forall y: nat :: IsUser(s, y) ==> IsUser(t, y) && KeepsUser(s, t, y))
    && (forall y: nat :: IsUser(t, y) && y != x ==> IsUser(s, y))
    && (x == 0 ==> !IsUser(t, 0))
    && (x != 0 ==> !IsUser(s, x) && IsUser(t, x) && SizeOf(t, x) == size && alignment > 0 && x % alignment == 0)
  }

  /** Nothing in a mapping of its own is a pointer of the arena. */
  lemma MappingNotOut(a: Arena, m: Mapping, x: nat)
    requires Core(a) && (forall e <- a.pools :: MappingApart(m, a.sizes, e)) && m.lo <= x < m.lo + m.bytes
    ensures !IsOut(a, x)
  {
    hide Core, IsOut, ClaimLow, ClaimHigh, BlockOf, BlockBytes;
    if IsOut(a, x) {
      OutInExtent(a, x);
    }
  }

  lemma LargeNotOut(s: Sigma, u: nat)
    requires SigmaInv(s) && u in s.large
    ensures !IsOut(s.local.arena, u) && u != 0
  {
    hide Core, IsOut, IsInfra, StackOk, FixedApart;
    assert LargeOk(s, u);
    var m := Mapping(s.large[u].lo, s.large[u].bytes);
    assert m in Mappings(s);
    MappingNotOut(s.local.arena, m, u);
  }

  lemma NullNotUser(s: Sigma)
    requires SigmaInv(s)
    ensures !IsUser(s, 0)
  {
    hide Core, IsOut, IsInfra, ExtentsApart, LargesOk, FixedApart, StackOk;
    if 0 in s.large {
      LargeNotOut(s, 0);
    }
    if IsOut(s.local.arena, 0) {
      OutInExtent(s.local.arena, 0);
    }
  }

  lemma NewPointerNotLarge(s: Sigma, b: Local, x: nat)
    requires SigmaInv(s) && SigmaInv(s.(local := b)) && InHand(b, x)
    ensures x !in s.large
  {
    hide SigmaInv, IsOut;
    if x in s.large {
      LargeNotOut(s.(local := b), x);
    }
  }

  /** An arena step that hands out `x`, or nothing, seen from the users. */
  lemma ArenaStepHands(s: Sigma, b: Local, x: nat, size: nat, alignment: nat)
    requires SigmaInv(s) && Attempted(s.local, Mappings(s), b, x)
    requires x != 0 ==> x in b.arena.headers && b.arena.headers[x].size == size && alignment > 0 && x % alignment == 0
    ensures SigmaInv(s.(local := b)) && HandedToUser(s, s.(local := b), x, size, alignment)
  {
    AttemptKeepsInfra(s.local, Mappings(s), b, x);
    ArenaStepKeeps(s, b) by { ExtentsStay(s, b, x); }
    NullNotUser(s.(local := b));
    AttemptOuts(s.local, Mappings(s), b, x);
    if x != 0 {
      NewPointerNotLarge(s, b, x);
      NewNotInfra(s, x);
    }
    hide SigmaInv, InHand, IsInfra, Infra, LocalInv, Attempted, HandedToUser;
    HandsFromArena(s, b, x, size, alignment);
  }

  lemma NewNotInfra(s: Sigma, x: nat)
    requires SigmaInv(s) && !InHand(s.local, x)
    ensures x !in Infra(s)
  {
    hide SigmaInv, InHand, Infra;
    if x in Infra(s) {
      InfraIsOut(s, x);
    }
  }

  /** What is out after an attempt, with the headers it keeps. */
  ghost predicate OutsKept(a: Local, b: Local, x: nat) {
    && (forall y: nat :: InHand(a, y) ==>
          InHand(b, y) && y in a.arena.headers && y in b.arena.headers && b.arena.headers[y] == a.arena.headers[y])
    && (forall y: nat :: InHand(b, y) && y != x ==> InHand(a, y))
  }

  lemma AttemptOuts(a: Local, ms: set<Mapping>, b: Local, x: nat)
    requires Attempted(a, ms, b, x)
    ensures OutsKept(a, b, x) && (x != 0 ==> !InHand(a, x) && InHand(b, x))
    ensures (x == 0 ==> OutsKept(a, b, 0) && (InHand(b, 0) ==> InHand(a, 0)))
  {
    hide LocalInv, InHand;
  }

  lemma HandsFromArena(s: Sigma, b: Local, x: nat, size: nat, alignment: nat)
    requires OutsKept(s.local, b, x)
    requires (x != 0 ==> !InHand(s.local, x) && InHand(b, x) && x !in s.large && x !in Infra(s))
    requires x == 0 ==> !IsUser(s.(local := b), 0)
    requires x != 0 ==> x in b.arena.headers && b.arena.headers[x].size == size && alignment > 0 && x % alignment == 0
    ensures HandedToUser(s, s.(local := b), x, size, alignment)
  {
    assert Infra(s.(local := b)) == Infra(s);
    hide InHand, Infra;
  }

  lemma ExtentsStay(s: Sigma, b: Local, x: nat)
    requires SigmaInv(s) && Attempted(s.local, Mappings(s), b, x)
    ensures LocalInv(b) && ExtentsApart(b.arena, Mappings(s))
  {
    hide LocalInv, InHand, LargesOk;
  }

  // ------------------------------------------------- large requests

  lemma AttemptThenNothing(a: Local, ms: set<Mapping>, b: Local, x: nat, c: Local)
    requires Attempted(a, ms, b, x) && Attempted(b, ms, c, 0)
    ensures Attempted(a, ms, c, x)
  {
    hide LocalInv, InHand;
  }

  lemma HandedThenBack(a: Local, ms: set<Mapping>, b: Local, x: nat, c: Local)
    requires Attempted(a, ms, b, x) && x != 0 && Surrendered(b, c, x)
    ensures Attempted(a, ms, c, 0)
  {
    hide LocalInv, InHand;
  }

  lemma NarrowAttempt(a: Local, ms: set<Mapping>, ns: set<Mapping>, b: Local, x: nat)
    requires Attempted(a, ms, b, x) && ExtentsApart(a.arena, ms) && ns <= ms
    ensures Attempted(a, ns, b, x)
  {
    hide LocalInv, InHand, MappingApart;
  }

  /** Whichever of the two objects was had is given back: as if nothing was tried. */
  lemma UndoSound(a: Local, ms: set<Mapping>, b: Local, c: Local, node: nat, meta: nat)
    requires LocalInv(a) && Attempted(a, ms, b, node) && Attempted(b, ms, c, meta) && (node == 0 || meta == 0)
    requires (node != 0 ==> InHand(c, node)) && (meta != 0 ==> InHand(c, meta))
    ensures LocalInv(c) && Attempted(a, ms, Undo(c, node, meta), 0)
  {
    AttemptInv(b, ms, c, meta);
    hide Attempted, LocalInv, InHand, FreeHere, Surrendered;
    if node != 0 {
      AttemptThenNothing(a, ms, b, node, c);
      FreeHereSound(c, node);
      HandedThenBack(a, ms, c, node, FreeHere(c, node));
    } else {
      AttemptAfter(a, ms, b, c, meta);
      if meta != 0 {
        FreeHereSound(c, meta);
        HandedThenBack(a, ms, c, meta, FreeHere(c, meta));
      }
    }
  }

  lemma GrantedExtends(s: Sigma, m: Mapping)
    requires SigmaInv(s) && Granted(s, m)
    ensures ExtentsApart(s.local.arena, Mappings(s) + {m}) && Mappings(s) <= Mappings(s) + {m}
  {
    hide LocalInv, LargesOk, MappingApart;
  }

  /** `l` is a large allocation at `u` apart from everything there is. */
  ghost predicate NewLarge(s: Sigma, b: Local, u: nat, l: Large) {
    && Granted(s, Mapping(l.lo, l.bytes)) && LocalInv(b)
    && ExtentsApart(b.arena, Mappings(s) + {Mapping(l.lo, l.bytes)})
    && l.lo + s.shape.header <= u && l.size > 0 && u + l.size <= l.lo + l.bytes && l.alignment > 0
    && u % l.alignment == 0
    && IsObject(b, l.node, s.shape.node) && IsObject(b, l.meta, s.shape.meta) && l.node != l.meta
    && TwoMoreOut(s.local, b, l.node, l.meta)
  }

  ghost predicate TwoMoreOut(a: Local, b: Local, x: nat, y: nat) {
    && !InHand(a, x) && !InHand(a, y)
    && (forall z: nat :: InHand(a, z) ==>
          InHand(b, z) && z in a.arena.headers && z in b.arena.headers && b.arena.headers[z] == a.arena.headers[z])
    && (forall z: nat :: InHand(b, z) ==> InHand(a, z) || z == x || z == y)
  }

  lemma NewLargeIsFresh(s: Sigma, u: nat, l: Large)
    requires SigmaInv(s) && Granted(s, Mapping(l.lo, l.bytes)) && l.lo + s.shape.header <= u && l.size > 0
    requires u + l.size <= l.lo + l.bytes
    ensures !IsUser(s, u) && u !in s.large && u != 0
  {
    hide Core, StackOk, IsOut, IsInfra, FixedApart;
    MappingNotOut(s.local.arena, Mapping(l.lo, l.bytes), u);
    forall v <- s.large
      ensures v != u
    {
      assert LargeOk(s, v);
      assert Mapping(s.large[v].lo, s.large[v].bytes) in Mappings(s);
    }
  }

  lemma NewLargeInv(s: Sigma, b: Local, u: nat, l: Large)
    requires SigmaInv(s) && NewLarge(s, b, u, l) && u !in s.large
    ensures SigmaInv(WithLarge(s, b, u, l))
  {
    hide LocalInv, InHand, IsInfra, LargeOk, LargesApart, FixedApart, ExtentsApart, MappingApart, Distinct, Elems,
      NewLarge, Infra, Mappings;
    var t := WithLarge(s, b, u, l);
    NewMappings(s, b, u, l);
    NewOrder(s, b, u, l);
    NewLargeOk(s, b, u, l);
    NewFixedApart(s, b, u, l);
    forall v <- s.large
      ensures LargeOk(t, v) && LargesApart(s.large[v], l) && LargesApart(l, s.large[v])
    {
      OldLargeStays(s, b, u, l, v);
    }
  }

  lemma NewFixedApart(s: Sigma, b: Local, u: nat, l: Large)
    requires FixedApart(s) && NewLarge(s, b, u, l)
    ensures FixedApart(WithLarge(s, b, u, l))
  {
    hide LocalInv, InHand, IsInfra, ExtentsApart, MappingApart, TwoMoreOut;
  }

  lemma OldLargeStays(s: Sigma, b: Local, u: nat, l: Large, v: nat)
    requires SigmaInv(s) && NewLarge(s, b, u, l) && u !in s.large && v in s.large
    ensures LargeOk(WithLarge(s, b, u, l), v) && LargesApart(s.large[v], l) && LargesApart(l, s.large[v])
  {
    hide LocalInv, InHand, ExtentsApart, MappingApart, Distinct, Elems;
    assert LargeOk(s, v);
    assert Mapping(s.large[v].lo, s.large[v].bytes) in Mappings(s);
  }

  lemma NewLargeOk(s: Sigma, b: Local, u: nat, l: Large)
    requires NewLarge(s, b, u, l)
    ensures LocalInv(b) && LargeOk(WithLarge(s, b, u, l), u)
  {
    hide LocalInv, InHand, ExtentsApart, MappingApart, IsInfra;
  }

  lemma NewMappings(s: Sigma, b: Local, u: nat, l: Large)
    requires NewLarge(s, b, u, l) && u !in s.large
    ensures Mappings(WithLarge(s, b, u, l)) == Mappings(s) + {Mapping(l.lo, l.bytes)}
    ensures ExtentsApart(b.arena, Mappings(WithLarge(s, b, u, l)))
  {
    hide NewLarge, ExtentsApart;
    var t := WithLarge(s, b, u, l);
    assert forall v <- s.large :: t.large[v] == s.large[v] && v in t.large;
    assert t.large[u] == l;
    assert ExtentsApart(b.arena, Mappings(s) + {Mapping(l.lo, l.bytes)}) by { NewLargeExtents(s, b, u, l); }
  }

  lemma NewLargeExtents(s: Sigma, b: Local, u: nat, l: Large)
    requires NewLarge(s, b, u, l)
    ensures ExtentsApart(b.arena, Mappings(s) + {Mapping(l.lo, l.bytes)})
  {
    hide LocalInv, InHand, ExtentsApart, Mappings;
  }

  lemma NewOrder(s: Sigma, b: Local, u: nat, l: Large)
    requires Distinct(s.order) && Elems(s.order) == s.large.Keys && u !in s.large
    ensures var t := WithLarge(s, b, u, l); Distinct(t.order) && Elems(t.order) == t.large.Keys
  {
    assert u !in Elems(s.order);
    ConsDistinct(u, s.order);
    var t := WithLarge(s, b, u, l);
    assert forall y: nat :: y in t.order <==> y == u || y in s.order;
  }

  lemma NewInfra(s: Sigma, b: Local, u: nat, l: Large)
    requires u !in s.large
    ensures Infra(WithLarge(s, b, u, l)) == Infra(s) + {l.node, l.meta}
  {
    var t := WithLarge(s, b, u, l);
    assert forall v <- s.large :: t.large[v] == s.large[v] && v in t.large;
    assert t.large[u] == l;
  }

  lemma NewLargeHands(s: Sigma, b: Local, u: nat, l: Large)
    requires TwoMoreOut(s.local, b, l.node, l.meta) && l.alignment > 0 && u % l.alignment == 0
    requires u !in s.large && !IsUser(s, u) && u != 0 && forall y: nat :: y in Infra(s) ==> InHand(s.local, y)
    ensures HandedToUser(s, WithLarge(s, b, u, l), u, l.size, l.alignment)
  {
    hide InHand, Infra, IsUser, TwoMoreOut, KeepsUser;
    var t := WithLarge(s, b, u, l);
    forall y: nat
      ensures IsUser(s, y) ==> IsUser(t, y) && KeepsUser(s, t, y)
      ensures IsUser(t, y) && y != u ==> IsUser(s, y)
    {
      UserAcross(s, b, u, l, y);
    }
    LargeIsUser(t, u);
    assert SizeOf(t, u) == l.size;
  }

  lemma LargeIsUser(s: Sigma, u: nat)
    requires u in s.large
    ensures IsUser(s, u)
  {
  }

  lemma UserAcross(s: Sigma, b: Local, u: nat, l: Large, y: nat)
    requires TwoMoreOut(s.local, b, l.node, l.meta) && u !in s.large && !IsUser(s, u)
    requires forall z: nat :: z in Infra(s) ==> InHand(s.local, z)
    ensures var t := WithLarge(s, b, u, l);
            (IsUser(s, y) ==> IsUser(t, y) && KeepsUser(s, t, y)) && (IsUser(t, y) && y != u ==> IsUser(s, y))
  {
    NewInfra(s, b, u, l);
    hide InHand, Infra;
  }

  lemma InfraAllOut(s: Sigma)
    requires SigmaInv(s)
    ensures forall y: nat :: y in Infra(s) ==> InHand(s.local, y)
  {
    hide SigmaInv, Infra, InHand;
    forall y: nat | y in Infra(s)
      ensures InHand(s.local, y)
    {
      InfraIsOut(s, y);
    }
  }

  lemma TwoHanded(a: Local, ms: set<Mapping>, b: Local, node: nat, c: Local, meta: nat)
    requires Attempted(a, ms, b, node) && Attempted(b, ms, c, meta) && node != 0 && meta != 0
    ensures TwoMoreOut(a, c, node, meta) && node != meta && InHand(b, node) && InHand(c, node)
    ensures node in b.arena.headers && node in c.arena.headers && c.arena.headers[node] == b.arena.headers[node]
  {
    hide LocalInv, InHand;
  }

  /** large_alloc: NULL leaves everything users hold as it was, whichever step failed. */
  lemma LargeAllocSound(s: Sigma, size: nat, alignment: nat, o: Offers)
    requires SigmaInv(s) && alignment < WORD
    ensures var (t, x) := LargeAlloc(s, size, alignment, o); SigmaInv(t) && HandedToUser(s, t, x, size, alignment)
  {
    hide SigmaInv, Attempted, Granted, LargeRefused, AlignUpWord, MappingBytes, AlignmentIsValid, ArenaAlloc,
      HandedToUser, InHand, Undo, Core;
    InvShape(s);
    NothingHanded(s, size, alignment);
    if LargeRefused(s.shape, size, alignment) {
      return;
    }
    MappingBytesIff(s.shape, size, alignment);
    var m := Mapping(o.backing, MappingBytes(s.shape, size, alignment));
    if !Granted(s, m) {
      return;
    }
    var ms := Mappings(s) + {m};
    GrantedExtends(s, m);
    var (a, node) := ArenaAlloc(s.local, ms, s.shape.node, o.first, o.second);
    ArenaAllocSound(s.local, ms, s.shape.node, o.first, o.second);
    AttemptInv(s.local, ms, a, node);
    var (b, meta) := ArenaAlloc(a, ms, s.shape.meta, o.third, o.fourth);
    ArenaAllocSound(a, ms, s.shape.meta, o.third, o.fourth);
    AttemptInv(a, ms, b, meta);
    if node == 0 || meta == 0 {
      LargeFails(s, ms, a, b, node, meta, size, alignment);
    } else {
      LargeSucceeds(s, m, a, b, node, meta, size, alignment);
    }
  }

  lemma InvShape(s: Sigma)
    requires SigmaInv(s)
    ensures LocalInv(s.local) && s.shape.Plausible()
  {
  }

  lemma LargeRefuses(s: Sigma, size: nat, alignment: nat, o: Offers)
    requires LocalInv(s.local) && s.shape.Plausible() && alignment < WORD && LargeRefused(s.shape, size, alignment)
    ensures LargeAlloc(s, size, alignment, o) == (s, 0)
  {
    hide LargeRefused, LocalInv;
  }

  lemma NotGranted(s: Sigma, size: nat, alignment: nat, o: Offers)
    requires LocalInv(s.local) && s.shape.Plausible() && alignment < WORD && !LargeRefused(s.shape, size, alignment)
    requires alignment > 0 && size + s.shape.header + alignment - 1 < WORD
    requires !Granted(s, Mapping(o.backing, MappingBytes(s.shape, size, alignment)))
    ensures LargeAlloc(s, size, alignment, o) == (s, 0)
  {
    hide LargeRefused, LocalInv, Accepts, MappingBytes, Mappings;
  }

  lemma NothingHanded(s: Sigma, size: nat, alignment: nat)
    requires SigmaInv(s)
    ensures HandedToUser(s, s, 0, size, alignment)
  {
    NullNotUser(s);
    OutHasHeader(s.local.arena);
    hide SigmaInv, IsOut, Infra;
  }

  lemma LargeFails(s: Sigma, ms: set<Mapping>, a: Local, b: Local, node: nat, meta: nat, size: nat, alignment: nat)
    requires SigmaInv(s) && ExtentsApart(s.local.arena, ms) && Mappings(s) <= ms
    requires Attempted(s.local, ms, a, node) && Attempted(a, ms, b, meta) && (node == 0 || meta == 0)
    requires (node != 0 ==> InHand(a, node)) && (meta != 0 ==> InHand(b, meta))
    ensures LocalInv(b) && (node != 0 ==> InHand(b, node)) && (meta != 0 ==> InHand(b, meta))
    ensures var t := s.(local := Undo(b, node, meta)); SigmaInv(t) && HandedToUser(s, t, 0, size, alignment)
  {
    InvShape(s);
    StaysInHand(a, ms, b, node, meta);
    UndoSound(s.local, ms, a, b, node, meta);
    NarrowAttempt(s.local, ms, Mappings(s), Undo(b, node, meta), 0);
    ArenaStepHands(s, Undo(b, node, meta), 0, size, alignment);
  }

  lemma LargeSucceeds(s: Sigma, m: Mapping, a: Local, b: Local, node: nat, meta: nat, size: nat, alignment: nat)
    requires SigmaInv(s) && alignment < WORD && !LargeRefused(s.shape, size, alignment) && alignment > 0
    requires size + s.shape.header + alignment - 1 < WORD && Granted(s, m)
    requires m.bytes == MappingBytes(s.shape, size, alignment)
    requires var ms := Mappings(s) + {m};
             ExtentsApart(s.local.arena, ms) && Attempted(s.local, ms, a, node) && Attempted(a, ms, b, meta)
               && node != 0 && meta != 0
    requires node in a.arena.headers && a.arena.headers[node].SlabHeader? && a.arena.headers[node].size == s.shape.node
    requires IsObject(b, meta, s.shape.meta)
    ensures var u := LargeUser(s.shape, m.lo, alignment);
            var t := WithLarge(s, b, u, Large(m.lo, m.bytes, node, meta, size, alignment));
            SigmaInv(t) && HandedToUser(s, t, u, size, alignment)
  {
    var ms := Mappings(s) + {m};
    hide LocalInv, InHand, Attempted, AlignUpWord, MappingBytes, AlignmentIsValid, ExtentsApart, LargesOk, HandedToUser,
      MappingApart, Distinct, Infra;
    TwoHanded(s.local, ms, a, node, b, meta);
    AttemptInv(s.local, ms, a, node);
    AttemptInv(a, ms, b, meta);
    LargePlaced(s.shape, m, size, alignment);
    var u := LargeUser(s.shape, m.lo, alignment);
    var l := Large(m.lo, m.bytes, node, meta, size, alignment);
    assert size > 0;
    NewLargeIsFresh(s, u, l);
    NewLargeInv(s, b, u, l);
    InfraAllOut(s);
    NewLargeHands(s, b, u, l);
  }

  // ------------------------------------------------------- sigma_alloc

  lemma ArenaAllocHands(s: Sigma, size: nat, alignment: nat, first: Option<nat>, second: Option<nat>)
    requires SigmaInv(s) && 0 < size <= MAX_SLAB_OBJ_SIZE && AlignmentIsValid(alignment)
    requires alignment <= SLAB_MAX_ALIGNMENT
    ensures LocalInv(s.local)
    ensures var (k, x) := ArenaAlloc(s.local, Mappings(s), size, first, second);
            SigmaInv(s.(local := k)) && HandedToUser(s, s.(local := k), x, size, alignment)
  {
    InvShape(s);
    hide SigmaInv, ArenaAlloc, Attempted, IsOut, HandedToUser, AlignmentIsValid, Core, ClaimLow, ClaimHigh, BlockOf,
      StackOk;
    ArenaAllocSound(s.local, Mappings(s), size, first, second);
    var (k, x) := ArenaAlloc(s.local, Mappings(s), size, first, second);
    AttemptInv(s.local, Mappings(s), k, x);
    if x != 0 {
      ClaimHoldsRequest(k.arena, x);
      SmallAlignmentHolds(x, alignment);
    }
    ArenaStepHands(s, k, x, size, alignment);
  }

  lemma BuddyAllocHands(s: Sigma, size: nat, alignment: nat, first: Option<nat>)
    requires SigmaInv(s) && 0 < alignment < WORD && size < WORD
    ensures ExtentsOk(s.local.arena)
    ensures var (b, x) := AllocBlock(s.local.arena, size, alignment, false, Offer(s.local.arena, Mappings(s), first));
            var t := s.(local := s.local.(arena := b));
            SigmaInv(t) && HandedToUser(s, t, x, size, alignment)
  {
    InvShape(s);
    CoreShape(s.local.arena);
    hide SigmaInv, AllocBlock, IsOut, HandedToUser, Core, ClaimLow, ClaimHigh, BlockOf, StackOk, Attempted, Offer;
    BlockAttempt(s.local, Mappings(s), size, alignment, first);
    var (b, x) := AllocBlock(s.local.arena, size, alignment, false, Offer(s.local.arena, Mappings(s), first));
    var k := s.local.(arena := b);
    AttemptInv(s.local, Mappings(s), k, x);
    if x != 0 {
      ClaimHoldsRequest(b, x);
    }
    ArenaStepHands(s, k, x, size, alignment);
  }

  lemma HandsCompose(s: Sigma, r: Sigma, t: Sigma, x: nat, size: nat, alignment: nat)
    requires HandedToUser(s, r, 0, size, alignment) && HandedToUser(r, t, x, size, alignment)
    ensures HandedToUser(s, t, x, size, alignment)
  {
    hide IsUser;
  }

  /** sigma_alloc: whatever tier serves the request, and whatever it splits, carves or
      maps on the way, users see exactly one new pointer or no change at all. */
  lemma SigmaAllocSound(s: Sigma, size: nat, alignment: nat, o: Offers)
    requires SigmaInv(s) && size < WORD && alignment < WORD
    ensures var (t, x) := SigmaAlloc(s, size, alignment, o); SigmaInv(t) && HandedToUser(s, t, x, size, alignment)
  {
    InvShape(s);
    NothingHanded(s, size, alignment);
    if size == 0 || !AlignmentIsValid(alignment) {
      return;
    }
    ValidPositive(alignment);
    CoreShape(s.local.arena);
    hide SigmaInv, AllocBlock, ArenaAlloc, LargeAlloc, HandedToUser, AlignmentIsValid, Core, StackOk, Offer;
    var root := s.local.arena.sizes.root;
    if size <= MAX_SLAB_OBJ_SIZE && alignment <= SLAB_MAX_ALIGNMENT {
      ArenaAllocHands(s, size, alignment, o.first, o.second);
    } else if size <= BlockBytes(root) && alignment <= BlockBytes(root) {
      BuddyAllocHands(s, size, alignment, o.first);
      var (b, x) := AllocBlock(s.local.arena, size, alignment, false, Offer(s.local.arena, Mappings(s), o.first));
      var t := s.(local := s.local.(arena := b));
      if x == 0 {
        InvShape(t);
        LargeAllocSound(t, size, alignment, AfterBlock(o));
        var (u, y) := LargeAlloc(t, size, alignment, AfterBlock(o));
        HandsCompose(s, t, u, y, size, alignment);
      }
    } else {
      LargeAllocSound(s, size, alignment, o);
    }
  }

  // ---------------------------------------------------- requests too large

  /** A fresh pool serves every order it has. */
  lemma FreshServes(root: nat, target: nat)
    requires target <= root
    ensures BuddySpec.Inv(Create(root)) && Alloc(Create(root), target).1.Some?
  {
    CreateSound(root);
    hide BuddySpec.Inv;
    var o := FirstNonEmpty(Create(root).lists, target);
    assert Create(root).lists[root] != [];
  }

  /** With a source that grants an extent, a block request fails exactly when block,
      header and alignment exceed a whole pool; and then the extent has been mapped all
      the same. */
  lemma BlockFailsIff(a: Arena, size: nat, alignment: nat, isRegion: bool, e: nat)
    requires Core(a) && GrantOk(a, e) && 0 < size < WORD && alignment < WORD && AlignmentIsValid(alignment)
    ensures alignment > 0 && ExtentsOk(a)
    ensures var (b, u) := AllocBlock(a, size, alignment, isRegion, Some(e));
            var tooLarge := Footprint(size, a.sizes.buddyHeader, alignment) > BlockBytes(a.sizes.root);
            (u == 0 <==> tooLarge) && (tooLarge ==> b == Expand(a, e))
  {
    ValidPositive(alignment);
    CoreShape(a);
    hide Core, AlignmentIsValid, SizeToOrder, PlaceIn, Create, BuddySpec.Inv, Alloc, Footprint;
    OrderIsLeast(a.sizes.root, a.sizes.buddyHeader, size, alignment);
    var target := RequestOrder(a.sizes, size, alignment);
    AllocBlockKeeps(a, size, alignment, isRegion, Some(e));
    ExpandOk(a, e);
    match FindExtent(a, target)
    case Some(f) =>
      PlaceHands(a, f, size, alignment, isRegion);
      InRange(a.pools[f], target) by { assert BuddySpec.Inv(a.pools[f]); }
    case None =>
      var b := Expand(a, e);
      if target <= a.sizes.root {
        FreshServes(a.sizes.root, target);
        ExpandKeeps(a, e);
        PlaceHands(b, e, size, alignment, isRegion);
      } else {
        NotServed(b.pools[e], target) by { assert BuddySpec.Inv(b.pools[e]); }
      }
  }

  lemma InRange(p: Pool, target: nat)
    requires BuddySpec.Inv(p)
    ensures Alloc(p, target).1.Some? ==> target <= p.root
  {
  }

  lemma NotServed(p: Pool, target: nat)
    requires BuddySpec.Inv(p) && target > p.root
    ensures Alloc(p, target).1.None?
  {
  }

  /** large_alloc never gives an extent back, not even when it fails. */
  lemma LargeKeepsExtents(s: Sigma, size: nat, alignment: nat, o: Offers)
    requires SigmaInv(s) && alignment < WORD
    ensures LocalInv(s.local) && s.local.arena.pools.Keys <= LargeAlloc(s, size, alignment, o).0.local.arena.pools.Keys
    ensures var (t, x) := LargeAlloc(s, size, alignment, o);
            x != 0 ==> x in t.large && t.large[x].size == size && t.large[x].alignment == alignment
  {
    InvShape(s);
    hide SigmaInv, Core, StackOk, IsOut, Attempted, Granted, LargeRefused, LargeUser, MappingBytes, AlignmentIsValid,
      ArenaAlloc, Undo;
    if LargeRefused(s.shape, size, alignment) {
      return;
    }
    MappingBytesIff(s.shape, size, alignment);
    var m := Mapping(o.backing, MappingBytes(s.shape, size, alignment));
    if !Granted(s, m) {
      return;
    }
    var ms := Mappings(s) + {m};
    var (a, node) := ArenaAlloc(s.local, ms, s.shape.node, o.first, o.second);
    ArenaAllocSound(s.local, ms, s.shape.node, o.first, o.second);
    AttemptInv(s.local, ms, a, node);
    var (b, meta) := ArenaAlloc(a, ms, s.shape.meta, o.third, o.fourth);
    ArenaAllocSound(a, ms, s.shape.meta, o.third, o.fourth);
    AttemptInv(a, ms, b, meta);
    if node == 0 || meta == 0 {
      StaysInHand(a, ms, b, node, meta);
      UndoSound(s.local, ms, a, b, node, meta);
      AttemptInv(s.local, ms, Undo(b, node, meta), 0);
    }
  }

  /** Pools of 4 MiB, as the source has them: a request for 4 MiB maps an extent, which
      cannot serve it and stays, and is then served by the large tier or not at all. */
  lemma WholePoolRequest(s: Sigma, alignment: nat, o: Offers, e: nat)
    requires SigmaInv(s) && s.local.arena.sizes.root == 10 && AlignmentIsValid(alignment) && alignment <= BlockBytes(10)
    requires o.first == Some(e) && GrantOk(s.local.arena, e) && forall m <- Mappings(s) ::
               MappingApart(m, s.local.arena.sizes, e)
    ensures BlockBytes(10) == 4 * 1024 * 1024 && alignment > 0 && LocalInv(s.local) && s.shape.Plausible()
    ensures AllocBlock(s.local.arena, BlockBytes(10), alignment, false, Some(e)) == (Expand(s.local.arena, e), 0)
    ensures var (t, x) := SigmaAlloc(s, BlockBytes(10), alignment, o);
            && e !in s.local.arena.pools && e in t.local.arena.pools
            && (x != 0 ==> x in t.large && t.large[x].size == 4 * 1024 * 1024)
  {
    assert BlockBytes(10) == 4 * 1024 * 1024;
    InvShape(s);
    ValidPositive(alignment);
    hide SigmaInv, Core, StackOk, LargeAlloc, AlignmentIsValid, BlockBytes, AllocBlock, ArenaAlloc;
    var a := s.local.arena;
    BlockFailsIff(a, BlockBytes(10), alignment, false, e);
    assert Footprint(BlockBytes(10), a.sizes.buddyHeader, alignment) > BlockBytes(10);
    OfferStands(a, Mappings(s), o.first);
    BuddyAllocHands(s, BlockBytes(10), alignment, o.first);
    var t := s.(local := s.local.(arena := Expand(a, e)));
    LargeKeepsExtents(t, BlockBytes(10), alignment, AfterBlock(o));
  }

  lemma OfferStands(a: Arena, ms: set<Mapping>, g: Option<nat>)
    requires g.Some? && GrantOk(a, g.value) && forall m <- ms :: MappingApart(m, a.sizes, g.value)
    ensures Offer(a, ms, g) == g
  {
  }
}
