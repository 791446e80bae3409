/** One arena of src/arena.c and src/slab.c on values: extents with their buddy
    pools, slabs carved from them, cache lists, and the memory words and headers the
    allocator keeps inside its blocks. */
module Arena {
  import opened Words
  import opened BuddyTree
  import opened BuddySpec
  import opened BuddyTheorems
  import opened BuddyLayout
  import opened BuddyAddresses
  import opened SlabLayout

  /** alloc_header_t with the fields around it, keyed by the user address. `live` is
      the slab magic; `owned` says header->arena is set. */
  datatype Header =
    | SlabHeader(live: bool, slab: nat, size: nat)
    | BuddyHeader(ext: nat, node: nat, isSlabRegion: bool, owned: bool, size: nat, alignment: nat)

  /** slab_t: `head` is the free_list pointer and `free` the list it heads. */
  datatype Slab = Slab(cls: nat, ext: nat, used: nat, head: nat, free: seq<nat>)

  /** `word` is the first word of each object: the free-list link of a free slot and
      the remote-free link of a freed one. An extent is named by its usable start. */
  datatype Arena = Arena(
    sizes: Sizes,
    extents: seq<nat>, active: nat, pools: map<nat, Pool>, back: map<nat, nat>,
    slabs: map<nat, Slab>, partial: seq<seq<nat>>, full: seq<seq<nat>>,
    word: map<nat, nat>, headers: map<nat, Header>)

  // ------------------------------------------------------------- blocks

  function BlockAt(ext: nat, root: nat, node: nat): nat {
    if node < NodeCount(root) then Address(root, ext, node) else 0
  }

  function BlockSize(root: nat, node: nat): nat {
    if node < NodeCount(root) then BlockBytes(Order(root, node)) else 0
  }

  /** `node` of extent `ext` is a block its pool has handed out. */
  predicate Taken(a: Arena, ext: nat, node: nat) {
    ext in a.pools && LiveAs(a.pools[ext].tree, node, FULL)
  }

  predicate InBlock(a: Arena, ext: nat, node: nat, x: nat) {
    BlockAt(ext, a.sizes.root, node) <= x < BlockAt(ext, a.sizes.root, node) + BlockSize(a.sizes.root, node)
  }

  /** Each extent's pool is sound, fits the address space after its metadata, and is
      apart from every other extent's mapping. */
  ghost predicate ExtentsOk(a: Arena) {
    && a.sizes.Plausible() && Distinct(a.extents) && Elems(a.extents) == a.pools.Keys && a.active in a.pools
    && (forall e <- a.pools :: BuddySpec.Inv(a.pools[e]) && a.pools[e].root == a.sizes.root)
    && (forall e <- a.pools :: a.sizes.meta < e && e + BlockBytes(a.sizes.root) <= WORD)
    && (forall e, f | e in a.pools && f in a.pools && e != f :: MappingsApart(a.sizes, e, f))
  }

  predicate MappingsApart(sz: Sizes, e: nat, f: nat) {
    e + BlockBytes(sz.root) <= f - sz.meta || f + BlockBytes(sz.root) <= e - sz.meta
  }

  /** The header written for a request sits, with the user range, inside the block, and
      so would the link of a remote free, however small the request. */
  predicate Placed(sz: Sizes, block: nat, bytes: nat, user: nat, size: nat, alignment: nat) {
    && alignment > 0 && user % alignment == 0
    && block + PTR_SIZE + sz.buddyHeader <= user && user + size <= block + bytes && size > 0
    && user + PTR_SIZE <= block + bytes
  }

  /** A taken block has a back pointer to its user address and a header there; it is
      a slab region exactly when the arena keeps a slab at that address. */
  predicate BlockOk(a: Arena, ext: nat, node: nat) {
    var block := BlockAt(ext, a.sizes.root, node);
    && block in a.back && a.back[block] in a.headers
    && var user := a.back[block];
       match a.headers[user]
       case SlabHeader(_, _, _) => false
       case BuddyHeader(e, n, isRegion, owned, size, alignment) =>
         && e == ext && n == node && (isRegion <==> user in a.slabs) && owned == !isRegion
         && Placed(a.sizes, block, BlockSize(a.sizes.root, node), user, size, alignment)
         && (isRegion ==> a.slabs[user].ext == ext && size == SLAB_SIZE && alignment == SLAB_MAX_ALIGNMENT)
  }

  ghost predicate BlocksOk(a: Arena) {
    forall e: nat, n: nat :: Taken(a, e, n) ==> BlockOk(a, e, n)
  }

  // -------------------------------------------------------------- slabs

  /** Following free_list from `head` through the slots' words visits `s`. */
  ghost predicate Chain(word: map<nat, nat>, head: nat, s: seq<nat>) {
    && 0 !in s && Distinct(s) && head == (if s == [] then 0 else s[0])
    && (forall i :: 0 <= i < |s| ==> s[i] in word)
    && (forall i {:trigger word[s[i]]} :: 0 <= i < |s| ==> word[s[i]] == if i + 1 < |s| then s[i + 1] else 0)
  }

  function SlotsOf(a: Arena, r: nat): set<nat> {
    if r in a.slabs && a.slabs[r].cls < NUM_CACHES && a.sizes.Plausible() then Slots(a.sizes, r, a.slabs[r].cls) else {}
  }

  /** The free list of a slab: distinct slots of that slab, one for each slot that is
      not in use. */
  ghost predicate FreeListOk(a: Arena, r: nat)
    requires r in a.slabs
  {
    var s := a.slabs[r];
    && s.cls < NUM_CACHES && a.sizes.Plausible()
    && Chain(a.word, s.head, s.free)
    && (forall x <- s.free :: x in SlotsOf(a, r))
    && s.used + |s.free| == a.sizes.Capacity(s.cls)
  }

  /** Every slot in use carries a live header that names its slab. */
  predicate UsedHeadersOk(a: Arena, r: nat)
    requires r in a.slabs && a.slabs[r].cls < NUM_CACHES
  {
    forall x <- SlotsOf(a, r) :: x !in a.slabs[r].free ==>
      x in a.headers && a.headers[x].SlabHeader? && a.headers[x].live && a.headers[x].slab == r
      && 0 < a.headers[x].size <= SIZE_CLASSES[a.slabs[r].cls]
  }

  /** The region of a slab is a block taken from the pool of its extent. */
  predicate RegionOk(a: Arena, r: nat)
    requires r in a.slabs
  {
    && r in a.headers && a.headers[r].BuddyHeader? && a.headers[r].isSlabRegion
    && var n := a.headers[r].node;
       Taken(a, a.slabs[r].ext, n) && a.back.Keys >= {BlockAt(a.slabs[r].ext, a.sizes.root, n)}
       && a.back[BlockAt(a.slabs[r].ext, a.sizes.root, n)] == r
  }

  ghost predicate SlabOk(a: Arena, r: nat)
    requires r in a.slabs
  {
    FreeListOk(a, r) && UsedHeadersOk(a, r) && RegionOk(a, r)
  }

  ghost predicate SlabsOk(a: Arena) {
    forall r <- a.slabs :: SlabOk(a, r)
  }

  predicate IsFull(a: Arena, r: nat) {
    && r in a.slabs && a.slabs[r].cls < NUM_CACHES && a.sizes.Plausible()
    && a.slabs[r].used == a.sizes.Capacity(a.slabs[r].cls)
  }

  /** Each slab is on exactly one list, that of its class and fullness. */
  ghost predicate CachesOk(a: Arena) {
    && |a.partial| == |a.full| == NUM_CACHES
    && (forall c :: 0 <= c < NUM_CACHES ==> Distinct(a.partial[c]) && Distinct(a.full[c]))
    && (forall c: nat, r: nat {:trigger r in a.partial[c]} :: c < NUM_CACHES ==>
          (r in a.partial[c] <==> r in a.slabs && a.slabs[r].cls == c && !IsFull(a, r)))
    && (forall c: nat, r: nat {:trigger r in a.full[c]} :: c < NUM_CACHES ==>
          (r in a.full[c] <==> r in a.slabs && a.slabs[r].cls == c && IsFull(a, r)))
  }

  /** What holds even while slab_alloc has a slab of which nothing is used yet. */
  ghost predicate Core(a: Arena) {
    ExtentsOk(a) && BlocksOk(a) && SlabsOk(a) && CachesOk(a)
  }

  /** The invariant between calls: moreover no slab is empty. */
  ghost predicate ArenaInv(a: Arena) {
    Core(a) && forall r <- a.slabs :: a.slabs[r].used > 0
  }

  // ------------------------------------------------ outstanding pointers

  /** `x` has been handed out and not yet been given back to a slab or a pool. */
  predicate IsOut(a: Arena, x: nat) {
    && x in a.headers
    && match a.headers[x]
       case SlabHeader(_, r, _) => r in a.slabs && x in SlotsOf(a, r) && x !in a.slabs[r].free
       case BuddyHeader(e, n, isRegion, _, _, _) =>
         !isRegion && Taken(a, e, n) && BlockAt(e, a.sizes.root, n) in a.back
           && a.back[BlockAt(e, a.sizes.root, n)] == x
  }

  function Out(a: Arena): set<nat> {
    set x | x in a.headers && IsOut(a, x)
  }

  // -------------------------------------------------------- disjointness

  lemma TakenIsFull(a: Arena, e: nat, n: nat)
    requires ExtentsOk(a) && Taken(a, e, n)
    ensures n in Fulls(a.pools[e]) && n < NodeCount(a.sizes.root)
    ensures e <= BlockAt(e, a.sizes.root, n)
    ensures BlockAt(e, a.sizes.root, n) + BlockSize(a.sizes.root, n) <= e + BlockBytes(a.sizes.root)
  {
    hide Live, Depth, Pow2, Start, AlignUp, SizeToOrder, Sizes.Capacity;
    StartInPool(a.sizes.root, n);
    BlockInPoolBounds(a.sizes.root, e, n);
  }

  lemma BlockInPoolBounds(root: nat, e: nat, n: nat)
    requires n < NodeCount(root)
    ensures e <= BlockAt(e, root, n) && BlockAt(e, root, n) + BlockSize(root, n) <= e + BlockBytes(root)
  {
    StartInPool(root, n);
  }

  /** No address lies in two taken blocks, within a pool or across extents. */
  lemma TakenApart(a: Arena, e: nat, m: nat, f: nat, n: nat, x: nat)
    requires ExtentsOk(a) && Taken(a, e, m) && Taken(a, f, n) && InBlock(a, e, m, x) && InBlock(a, f, n, x)
    ensures e == f && m == n
  {
    hide Live, Depth, Pow2, Start, Order, AlignUp, SizeToOrder, Sizes.Capacity;
    TakenIsFull(a, e, m);
    TakenIsFull(a, f, n);
    if e == f && m != n {
      OutstandingDisjoint(a.pools[e], m, n);
    }
  }

  /** A slot lies in the block of its slab's region. */
  lemma SlotInBlock(a: Arena, r: nat, x: nat)
    requires ExtentsOk(a) && BlocksOk(a) && r in a.slabs && RegionOk(a, r) && x in SlotsOf(a, r)
    ensures InBlock(a, a.slabs[r].ext, a.headers[r].node, x) && r < x
    ensures InBlock(a, a.slabs[r].ext, a.headers[r].node, r)
  {
    hide Live, Depth, Pow2, Slots, AlignUp, SizeToOrder, Sizes.Capacity;
    var e, n := a.slabs[r].ext, a.headers[r].node;
    assert BlockOk(a, e, n);
    SlotFacts(a.sizes, r, a.slabs[r].cls, x);
  }

  /** Slots of different slabs are different addresses. */
  lemma SlotsOfApart(a: Arena, r: nat, q: nat, x: nat)
    requires ExtentsOk(a) && BlocksOk(a) && r in a.slabs && q in a.slabs && RegionOk(a, r) && RegionOk(a, q)
    requires x in SlotsOf(a, r) && x in SlotsOf(a, q)
    ensures r == q
  {
    SlotInBlock(a, r, x);
    SlotInBlock(a, q, x);
    TakenApart(a, a.slabs[r].ext, a.headers[r].node, a.slabs[q].ext, a.headers[q].node, x);
  }

  /** A slot is never the user address of a taken block. */
  lemma SlotNotUser(a: Arena, r: nat, x: nat, e: nat, n: nat)
    requires ExtentsOk(a) && BlocksOk(a) && r in a.slabs && RegionOk(a, r) && x in SlotsOf(a, r) && Taken(a, e, n)
    ensures BlockAt(e, a.sizes.root, n) in a.back && a.back[BlockAt(e, a.sizes.root, n)] != x
  {
    SlotInBlock(a, r, x);
    assert BlockOk(a, e, n);
    if a.back[BlockAt(e, a.sizes.root, n)] == x {
      TakenApart(a, a.slabs[r].ext, a.headers[r].node, e, n, x);
    }
  }
}
