/** Placing a block keeps everything the arena had: the steps shared by slab regions
    and by requests served directly from a pool. */
module ArenaBlocks {
  import opened Words
  import opened BuddyTree
  import opened BuddySpec
  import opened BuddyLayout
  import opened SlabLayout
  import opened Arena
  import opened ArenaOps

  /** Core but for the header of one taken block, still to be accounted for. */
  ghost predicate CoreBut(a: Arena, e: nat, n: nat) {
    && ExtentsOk(a) && SlabsOk(a) && CachesOk(a) && Taken(a, e, n)
    && (forall f: nat, m: nat :: Taken(a, f, m) && !(f == e && m == n) ==> BlockOk(a, f, m))
  }

  /** `b` has taken one more block than `a`. */
  ghost predicate OneMoreTaken(a: Arena, b: Arena, e: nat, n: nat) {
    && !Taken(a, e, n) && Taken(b, e, n)
    && forall f: nat, m: nat :: Taken(b, f, m) <==> (Taken(a, f, m) || (f == e && m == n))
  }

  lemma AlignedRequest(sz: Sizes, size: nat, alignment: nat)
    requires RequestOrder(sz, size, alignment) <= sz.root
    ensures size > 0 && AlignmentIsValid(alignment)
  {
  }

  /** The request fits the block chosen for it. */
  lemma RequestPlaced(sz: Sizes, e: nat, n: nat, size: nat, alignment: nat)
    requires sz.Plausible() && 0 < alignment < WORD && size < WORD && e + BlockBytes(sz.root) <= WORD
    requires n < NodeCount(sz.root) && RequestOrder(sz, size, alignment) == Order(sz.root, n) <= sz.root
    ensures Placed(sz, BlockAt(e, sz.root, n), BlockSize(sz.root, n), UserAt(sz, e, n, alignment), size, alignment)
  {
    hide Live, Depth, Pow2, Start, SizeToOrder, Order, AlignmentIsValid, AlignUp, Sizes.Capacity;
    AlignedRequest(sz, size, alignment);
    BlockInPoolBounds(sz.root, e, n);
    RequestFits(sz.root, sz.buddyHeader, size, alignment, BlockAt(e, sz.root, n));
    LinkFits(sz.root, sz.buddyHeader, size, alignment, BlockAt(e, sz.root, n));
  }

  /** Recording a block that its pool has just given. */
  lemma RecordTakes(a: Arena, e: nat, q: Pool, n: nat, user: nat, size: nat, alignment: nat, isRegion: bool)
    requires ExtentsOk(a) && e in a.pools && BuddySpec.Inv(q) && q.root == a.sizes.root
    requires !LiveAs(a.pools[e].tree, n, FULL)
    requires forall m: nat :: LiveAs(q.tree, m, FULL) <==> (LiveAs(a.pools[e].tree, m, FULL) || m == n)
    ensures var b := Record(a, e, q, n, user, size, alignment, isRegion);
            ExtentsOk(b) && OneMoreTaken(a, b, e, n)
  {
    hide Live, Depth, Pow2, LiveAs, BuddySpec.Inv, AlignUp, SizeToOrder, Sizes.Capacity;
    assert (a.pools[e := q]).Keys == a.pools.Keys;
  }

  ghost predicate Recorded(a: Arena, b: Arena, e: nat, n: nat, u: nat) {
    && ExtentsOk(b) && OneMoreTaken(a, b, e, n) && u in b.headers
    && InBlock(b, e, n, u) && InBlock(b, e, n, BlockAt(e, a.sizes.root, n))
    && b == a.(active := e, pools := b.pools, back := a.back[BlockAt(e, a.sizes.root, n) := u],
               headers := a.headers[u := b.headers[u]])
  }

  lemma PlaceFacts(a: Arena, e: nat, size: nat, alignment: nat, isRegion: bool)
    requires ExtentsOk(a) && e in a.pools && 0 < alignment < WORD && size < WORD
    requires Serves(a, e, RequestOrder(a.sizes, size, alignment))
    ensures var (b, u) := PlaceIn(a, e, size, alignment, isRegion);
            var n := b.headers[u].node;
            && Recorded(a, b, e, n, u) && u > 0
            && b.headers[u] == BuddyHeader(e, n, isRegion, !isRegion, size, alignment)
            && Placed(a.sizes, BlockAt(e, a.sizes.root, n), BlockSize(a.sizes.root, n), u, size, alignment)
  {
    hide Live, Depth, Pow2, Start, Alloc, SizeToOrder, Order, BuddySpec.Inv, LiveAs, AlignmentIsValid, UserAt,
      OneMoreTaken, AlignUp, Sizes.Capacity;
    var target := RequestOrder(a.sizes, size, alignment);
    AllocTaken(a.pools[e], target);
    ServesInRange(a.pools[e], target);
    var (q, r) := Alloc(a.pools[e], target);
    RequestPlaced(a.sizes, e, r.value, size, alignment);
    RecordTakes(a, e, q, r.value, UserAt(a.sizes, e, r.value, alignment), size, alignment, isRegion);
  }

  /** Allocation, told of marks: one live FULL node more. */
  lemma AllocTaken(p: Pool, target: nat)
    requires BuddySpec.Inv(p) && Alloc(p, target).1.Some?
    ensures var (q, r) := Alloc(p, target);
            && BuddySpec.Inv(q) && q.root == p.root && r.value < NodeCount(p.root) && Order(p.root, r.value) == target
            && !LiveAs(p.tree, r.value, FULL)
            && forall m: nat :: LiveAs(q.tree, m, FULL) <==> (LiveAs(p.tree, m, FULL) || m == r.value)
  {
    hide Live, Depth, Pow2, Alloc, AlignUp, SizeToOrder, Sizes.Capacity;
    AllocSound(p, target);
    var (q, r) := Alloc(p, target);
    assert forall m: nat :: LiveAs(q.tree, m, FULL) <==> m in Fulls(q);
    assert forall m: nat :: LiveAs(p.tree, m, FULL) <==> m in Fulls(p);
  }

  /** Freeing, told of marks: one live FULL node less. */
  lemma FreeTaken(p: Pool, n: nat)
    requires BuddySpec.Inv(p) && LiveAs(p.tree, n, FULL)
    ensures BuddySpec.Inv(Free(p, n)) && Free(p, n).root == p.root
    ensures forall m: nat :: LiveAs(Free(p, n).tree, m, FULL) <==> LiveAs(p.tree, m, FULL) && m != n
  {
    hide Live, Depth, Pow2, Free, AlignUp, SizeToOrder, Sizes.Capacity;
    FreeSound(p, n);
    var q := Free(p, n);
    assert forall m: nat :: LiveAs(q.tree, m, FULL) <==> m in Fulls(q);
    assert forall m: nat :: LiveAs(p.tree, m, FULL) <==> m in Fulls(p);
  }

  lemma ServesInRange(p: Pool, target: nat)
    requires BuddySpec.Inv(p) && Alloc(p, target).1.Some?
    ensures target <= p.root
  {
  }

  /** An address inside the new block is inside no block taken before. */
  lemma NewBlockApart(a: Arena, b: Arena, e: nat, n: nat, f: nat, m: nat, x: nat)
    requires ExtentsOk(b) && OneMoreTaken(a, b, e, n) && Taken(a, f, m) && InBlock(b, e, n, x)
    ensures !InBlock(b, f, m, x)
  {
    if InBlock(b, f, m, x) {
      TakenApart(b, e, n, f, m, x);
    }
  }

  /** Placing a block disturbs no other block and no slab. */
  lemma PlaceKeeps(a: Arena, e: nat, size: nat, alignment: nat, isRegion: bool)
    requires Core(a) && e in a.pools && 0 < alignment < WORD && size < WORD
    requires Serves(a, e, RequestOrder(a.sizes, size, alignment))
    ensures var (b, u) := PlaceIn(a, e, size, alignment, isRegion);
            && Recorded(a, b, e, b.headers[u].node, u)
            && CoreBut(b, e, b.headers[u].node) && u !in b.slabs
            && (forall x: nat :: x != u ==> (IsOut(b, x) <==> IsOut(a, x)))
            && (forall x: nat :: InBlock(b, e, b.headers[u].node, x) ==> NewAddress(a, x))
  {
    PlaceFacts(a, e, size, alignment, isRegion);
    var (b, u) := PlaceIn(a, e, size, alignment, isRegion);
    RecordKeeps(a, b, e, b.headers[u].node, u);
  }

  lemma RecordKeeps(a: Arena, b: Arena, e: nat, n: nat, u: nat)
    requires Core(a) && Recorded(a, b, e, n, u)
    ensures CoreBut(b, e, n) && u !in b.slabs
    ensures forall x: nat :: x != u ==> (IsOut(b, x) <==> IsOut(a, x))
    ensures forall x: nat :: InBlock(b, e, n, x) ==> NewAddress(a, x)
  {
    hide Live, Depth, Pow2, Start, Taken, ExtentsOk, Slots, BlockAt, BlockSize, IsOut, SlabOk, SlotsOf, AlignUp,
      SizeToOrder, Sizes.Capacity;
    forall f: nat, m: nat | Taken(a, f, m)
      ensures BlockOk(b, f, m) && BlockAt(f, a.sizes.root, m) != BlockAt(e, a.sizes.root, n)
    {
      OldBlockKept(a, b, e, n, u, f, m);
    }
    forall r <- a.slabs
      ensures SlabOk(b, r) && r != u
    {
      OldSlabKept(a, b, e, n, u, r);
    }
    forall x: nat | x != u
      ensures IsOut(b, x) <==> IsOut(a, x)
    {
      SameOut(a, b, e, n, u, x);
    }
    forall x: nat | InBlock(b, e, n, x)
      ensures NewAddress(a, x)
    {
      InNewBlock(a, b, e, n, u, x);
    }
  }

  /** `x` is nothing the arena knows: no slot, no block's user address, no slab. */
  ghost predicate NewAddress(a: Arena, x: nat) {
    && !IsOut(a, x) && x !in a.slabs
    && (forall f: nat, m: nat :: Taken(a, f, m) ==>
          BlockAt(f, a.sizes.root, m) in a.back && a.back[BlockAt(f, a.sizes.root, m)] != x)
    && (forall r <- a.slabs :: x !in SlotsOf(a, r))
  }

  lemma InNewBlock(a: Arena, b: Arena, e: nat, n: nat, u: nat, x: nat)
    requires Core(a) && Recorded(a, b, e, n, u) && InBlock(b, e, n, x)
    ensures NewAddress(a, x)
  {
    hide Live, Depth, Pow2, Start, Taken, ExtentsOk, BlockAt, BlockSize, Slots, IsOut, AlignUp, SizeToOrder,
      Sizes.Capacity;
    forall f: nat, m: nat | Taken(a, f, m)
      ensures BlockAt(f, a.sizes.root, m) in a.back && a.back[BlockAt(f, a.sizes.root, m)] != x
    {
      assert BlockOk(a, f, m);
      NewBlockApart(a, b, e, n, f, m, x);
    }
    forall r <- a.slabs
      ensures x !in SlotsOf(a, r) && x != r
    {
      assert SlabOk(a, r);
      NewBlockApart(a, b, e, n, a.slabs[r].ext, a.headers[r].node, x);
      if x in SlotsOf(a, r) {
        SlotInBlock(a, r, x);
      }
    }
    NotOut(a, x);
  }

  lemma OldBlockKept(a: Arena, b: Arena, e: nat, n: nat, u: nat, f: nat, m: nat)
    requires BlocksOk(a) && Recorded(a, b, e, n, u) && Taken(a, f, m)
    ensures BlockOk(b, f, m) && BlockAt(f, a.sizes.root, m) != BlockAt(e, a.sizes.root, n)
    ensures BlockAt(f, a.sizes.root, m) in a.back && a.back[BlockAt(f, a.sizes.root, m)] != u
  {
    hide Live, Depth, Pow2, Start, Taken, ExtentsOk, BlockAt, BlockSize, AlignUp, SizeToOrder, Sizes.Capacity;
    assert BlockOk(a, f, m);
    NewBlockApart(a, b, e, n, f, m, u);
    NewBlockApart(a, b, e, n, f, m, BlockAt(e, a.sizes.root, n));
  }

  lemma OldSlabKept(a: Arena, b: Arena, e: nat, n: nat, u: nat, r: nat)
    requires Core(a) && Recorded(a, b, e, n, u) && r in a.slabs
    ensures SlabOk(b, r) && r != u
  {
    hide Live, Depth, Pow2, Start, Taken, ExtentsOk, BlockAt, BlockSize, Slots, AlignUp, SizeToOrder, Sizes.Capacity;
    assert SlabOk(a, r);
    var f, m := a.slabs[r].ext, a.headers[r].node;
    OldBlockKept(a, b, e, n, u, f, m);
    NewBlockApart(a, b, e, n, f, m, u);
    if u in SlotsOf(a, r) {
      SlotInBlock(a, r, u);
    }
    assert RegionOk(b, r);
    assert Chain(b.word, b.slabs[r].head, b.slabs[r].free);
    assert SlotsOf(b, r) == SlotsOf(a, r);
  }

  lemma SameOut(a: Arena, b: Arena, e: nat, n: nat, u: nat, x: nat)
    requires Recorded(a, b, e, n, u) && x != u
    requires forall f: nat, m: nat :: Taken(a, f, m) ==> BlockAt(f, a.sizes.root, m) != BlockAt(e, a.sizes.root, n)
    ensures IsOut(b, x) <==> IsOut(a, x)
  {
    hide Taken, BlockAt, Slots, AlignUp, SizeToOrder, Sizes.Capacity;
  }

  /** An address that is neither a slot nor a block's user address is not out. */
  lemma NotOut(a: Arena, u: nat)
    requires forall f: nat, m: nat :: Taken(a, f, m) ==>
               BlockAt(f, a.sizes.root, m) in a.back && a.back[BlockAt(f, a.sizes.root, m)] != u
    requires forall r <- a.slabs :: u !in SlotsOf(a, r)
    ensures !IsOut(a, u)
  {
    hide Taken, BlockAt, Slots, AlignUp, SizeToOrder, Sizes.Capacity;
  }

  // ------------------------------------------------------- whole requests

  /** `b` is `a` after handing out `u`: nothing else changes hands, and whatever was
      out keeps its header and its first word. */
  ghost predicate HandedOut(a: Arena, b: Arena, u: nat) {
    && u > 0 && !IsOut(a, u) && IsOut(b, u) && SameOutBut(a, b, u) && KeepsOut(a, b) && a.sizes == b.sizes
  }

  ghost predicate SameOutBut(a: Arena, b: Arena, u: nat) {
    forall x: nat :: x != u ==> (IsOut(b, x) <==> IsOut(a, x))
  }

  ghost predicate KeepsOut(a: Arena, b: Arena) {
    forall x: nat :: IsOut(a, x) ==>
      && x in b.headers && b.headers[x] == a.headers[x]
      && (x in b.word <==> x in a.word) && (x in a.word ==> b.word[x] == a.word[x])
  }

  /** `b` is `a` with nothing handed out or given back (it may have a new extent). */
  ghost predicate SameHands(a: Arena, b: Arena) {
    && (forall x: nat :: IsOut(b, x) <==> IsOut(a, x)) && KeepsOut(a, b) && a.sizes == b.sizes
    && a.slabs == b.slabs && a.partial == b.partial && a.full == b.full
  }

  /** `b` differs from `a` in its pools only, and the same blocks are taken. */
  ghost predicate SameTaken(a: Arena, b: Arena) {
    && b == a.(extents := b.extents, active := b.active, pools := b.pools)
    && forall f: nat, n: nat :: Taken(b, f, n) <==> Taken(a, f, n)
  }

  lemma SameTakenBlock(a: Arena, b: Arena, f: nat, m: nat)
    requires SameTaken(a, b) && BlockOk(a, f, m)
    ensures BlockOk(b, f, m)
  {
    hide Taken, BlockAt, BlockSize, AlignUp, SizeToOrder, Sizes.Capacity;
  }

  lemma SameTakenSlab(a: Arena, b: Arena, r: nat)
    requires SameTaken(a, b) && r in a.slabs && SlabOk(a, r)
    ensures SlabOk(b, r)
  {
    hide Taken, BlockAt, BlockSize, Slots, AlignUp, SizeToOrder, Sizes.Capacity;
    assert SlotsOf(b, r) == SlotsOf(a, r);
    assert RegionOk(b, r) && UsedHeadersOk(b, r);
    assert FreeListOk(b, r);
  }

  lemma SameTakenOut(a: Arena, b: Arena, x: nat)
    requires SameTaken(a, b)
    ensures IsOut(b, x) <==> IsOut(a, x)
    ensures NewAddress(b, x) ==> NewAddress(a, x)
  {
    hide Taken, BlockAt, BlockSize, Slots, AlignUp, SizeToOrder, Sizes.Capacity;
    forall r <- a.slabs
      ensures SlotsOf(b, r) == SlotsOf(a, r)
    {
    }
    assert IsOut(b, x) <==> IsOut(a, x);
    hide SlotsOf, IsOut, AlignUp, SizeToOrder, Sizes.Capacity;
  }

  lemma ExpandKeeps(a: Arena, e: nat)
    requires Core(a) && GrantOk(a, e)
    ensures Core(Expand(a, e)) && SameHands(a, Expand(a, e))
    ensures forall x: nat :: NewAddress(Expand(a, e), x) ==> NewAddress(a, x)
  {
    hide Taken, ExtentsOk, BlocksOk, SlabsOk, CachesOk, SameHands, NewAddress, AlignUp, SizeToOrder, Sizes.Capacity;
    ExpandOk(a, e);
    SameTakenKeeps(a, Expand(a, e));
  }

  lemma SameTakenKeeps(a: Arena, b: Arena)
    requires Core(a) && ExtentsOk(b) && SameTaken(a, b)
    ensures Core(b) && SameHands(a, b)
    ensures forall x: nat :: NewAddress(b, x) ==> NewAddress(a, x)
  {
    hide Taken, ExtentsOk, BlockOk, SlabOk, IsOut, NewAddress, AlignUp, SizeToOrder, Sizes.Capacity;
    forall f: nat, m: nat | Taken(b, f, m)
      ensures BlockOk(b, f, m)
    {
      SameTakenBlock(a, b, f, m);
    }
    forall r <- a.slabs
      ensures SlabOk(b, r)
    {
      SameTakenSlab(a, b, r);
    }
    forall x: nat
      ensures IsOut(b, x) <==> IsOut(a, x)
      ensures NewAddress(b, x) ==> NewAddress(a, x)
    {
      SameTakenOut(a, b, x);
    }
    OutHasHeader(a);
    SameIsKept(a, b);
    SameFull(a, b);
  }

  lemma SameFull(a: Arena, b: Arena)
    requires CachesOk(a) && a.slabs == b.slabs && a.partial == b.partial && a.full == b.full && a.sizes == b.sizes
    ensures CachesOk(b)
  {
  }

  lemma SameIsKept(a: Arena, b: Arena)
    requires a.headers == b.headers && a.word == b.word && forall x: nat :: IsOut(a, x) ==> x in a.headers
    ensures KeepsOut(a, b)
  {
    hide IsOut, AlignUp, SizeToOrder, Sizes.Capacity;
  }

  /** What a placed block leaves: every invariant but its own label, and only new
      addresses inside the block. */
  ghost predicate BlockHanded(a: Arena, b: Arena, u: nat, isRegion: bool, size: nat, alignment: nat) {
    && u in b.headers && b.headers[u].BuddyHeader?
    && var e, n := b.active, b.headers[u].node;
       && b.headers[u] == BuddyHeader(e, n, isRegion, !isRegion, size, alignment)
       && CoreBut(b, e, n) && u !in b.slabs
       && BlockAt(e, b.sizes.root, n) in b.back && b.back[BlockAt(e, b.sizes.root, n)] == u
       && Placed(b.sizes, BlockAt(e, b.sizes.root, n), BlockSize(b.sizes.root, n), u, size, alignment)
       && SameOutBut(a, b, u)
       && (forall x: nat :: InBlock(b, e, n, x) ==> NewAddress(a, x))
       && a.slabs == b.slabs && a.partial == b.partial && a.full == b.full && a.word == b.word && a.sizes == b.sizes
       && (forall x: nat :: x != u && x in a.headers ==> x in b.headers && b.headers[x] == a.headers[x])
  }

  lemma PlaceHands(a: Arena, e: nat, size: nat, alignment: nat, isRegion: bool)
    requires Core(a) && e in a.pools && 0 < alignment < WORD && size < WORD
    requires Serves(a, e, RequestOrder(a.sizes, size, alignment))
    ensures var (b, u) := PlaceIn(a, e, size, alignment, isRegion);
            u > 0 && BlockHanded(a, b, u, isRegion, size, alignment)
  {
    PlaceFacts(a, e, size, alignment, isRegion);
    PlaceKeeps(a, e, size, alignment, isRegion);
    hide Live, Taken, ExtentsOk, Slots, IsOut, PlaceIn, RequestOrder, SlabsOk, CachesOk, NewAddress, BlockAt, BlockSize,
      Placed, AlignUp, SizeToOrder, Sizes.Capacity;
  }

  lemma HandedThroughExpansion(a: Arena, b: Arena, c: Arena, u: nat, isRegion: bool, size: nat, alignment: nat)
    requires SameHands(a, b) && a.headers == b.headers && a.word == b.word
    requires forall x: nat :: NewAddress(b, x) ==> NewAddress(a, x)
    requires BlockHanded(b, c, u, isRegion, size, alignment)
    ensures BlockHanded(a, c, u, isRegion, size, alignment)
  {
    hide CoreBut, NewAddress, IsOut, Placed, BlockAt, BlockSize, AlignUp, SizeToOrder, Sizes.Capacity;
  }

  lemma AllocBlockKeeps(a: Arena, size: nat, alignment: nat, isRegion: bool, grant: Option<nat>)
    requires Core(a) && MaybeGrant(a, grant) && 0 < alignment < WORD && size < WORD
    ensures var (b, u) := AllocBlock(a, size, alignment, isRegion, grant);
            && (u == 0 ==> Core(b) && SameHands(a, b))
            && (u != 0 ==> BlockHanded(a, b, u, isRegion, size, alignment))
  {
    hide Taken, IsOut, PlaceIn, RequestOrder, SlabsOk, CachesOk, BlocksOk, BlockHanded, NewAddress, ExtentsOk, Serves,
      AlignUp, SizeToOrder, Sizes.Capacity;
    var target := RequestOrder(a.sizes, size, alignment);
    match FindExtent(a, target)
    case Some(e) =>
      PlaceHands(a, e, size, alignment, isRegion);
    case None =>
      SameIsKept(a, a) by { OutHasHeader(a); }
      if grant.Some? {
        var b := Expand(a, grant.value);
        ExpandKeeps(a, grant.value);
        if Serves(b, grant.value, target) {
          PlaceHands(b, grant.value, size, alignment, isRegion);
          var (c, u) := PlaceIn(b, grant.value, size, alignment, isRegion);
          HandedThroughExpansion(a, b, c, u, isRegion, size, alignment);
        }
      }
  }

  lemma OutHasHeader(a: Arena)
    ensures forall x: nat :: IsOut(a, x) ==> x in a.headers
  {
  }

  /** A request served directly from a pool. */
  lemma BuddyRequestSound(a: Arena, size: nat, alignment: nat, grant: Option<nat>)
    requires Core(a) && MaybeGrant(a, grant) && 0 < alignment < WORD && size < WORD
    ensures var (b, u) := AllocBlock(a, size, alignment, false, grant);
            && Core(b) && a.slabs == b.slabs && a.partial == b.partial && a.full == b.full
            && (u == 0 ==> SameHands(a, b))
            && (u != 0 ==> HandedOut(a, b, u) && b.headers[u].BuddyHeader?
                           && b.headers[u].size == size && b.headers[u].alignment == alignment)
  {
    AllocBlockKeeps(a, size, alignment, false, grant);
    var (b, u) := AllocBlock(a, size, alignment, false, grant);
    if u != 0 {
      BlockBecomesOut(a, b, u, size, alignment);
    }
  }

  lemma BlockBecomesOut(a: Arena, b: Arena, u: nat, size: nat, alignment: nat)
    requires BlockHanded(a, b, u, false, size, alignment)
    ensures Core(b) && HandedOut(a, b, u)
  {
    hide Live, Taken, ExtentsOk, Slots, BlockAt, BlockSize, SlabsOk, CachesOk, NewAddress, AlignUp, SizeToOrder,
      Sizes.Capacity;
    var e, n := b.active, b.headers[u].node;
    assert BlockOk(b, e, n);
    assert InBlock(b, e, n, u);
    NewIsNotOut(a, u);
    assert IsOut(b, u);
    OutHasHeader(a);
    hide IsOut, AlignUp, SizeToOrder, Sizes.Capacity;
  }

  lemma NewIsNotOut(a: Arena, x: nat)
    requires NewAddress(a, x)
    ensures !IsOut(a, x)
  {
  }
}
