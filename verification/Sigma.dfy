/** The allocator as its users see it from the thread that owns the arena: the routing
    of src/alloc.c and the direct tier of src/large.c, whose bookkeeping lives in slab
    objects of the same arena. */
module Sigma {
  import opened Words
  import opened BuddySpec
  import opened BuddyLayout
  import opened SlabLayout
  import opened ArenaOps
  import opened ArenaCalls

  /** Sizes of large_header_t, large_node_t and large_metadata_t. */
  datatype Shape = Shape(header: nat, node: nat, meta: nat) {
    predicate Plausible() {
      PTR_SIZE <= header <= PAGE && 0 < node <= MAX_SLAB_OBJ_SIZE && 0 < meta <= MAX_SLAB_OBJ_SIZE
    }
  }

  /** A large allocation, keyed by its user address: its mapping and the two slab
      objects that describe it. */
  datatype Large = Large(lo: nat, bytes: nat, node: nat, meta: nat, size: nat, alignment: nat)

  /** `fixed` is where arena_t, sigma_allocator_t and the library's static data lie;
      `order` is the debug list of large allocations, newest first. */
  datatype Sigma = Sigma(local: Local, fixed: set<Mapping>, shape: Shape, large: map<nat, Large>, order: seq<nat>)

  /** What the memory source offers during one call: a mapping for a large request and
      extents for the attempts of the arena. An unacceptable offer stands for NULL. */
  datatype Offers = Offers(
    backing: nat, first: Option<nat>, second: Option<nat>, third: Option<nat>, fourth: Option<nat>, fifth: Option<nat>)

  function MappingsOf(large: map<nat, Large>): set<Mapping> {
    set u | u in large :: Mapping(large[u].lo, large[u].bytes)
  }

  /** Everything the extents must stay apart from. */
  function Mappings(s: Sigma): set<Mapping> {
    MappingsOf(s.large) + s.fixed
  }

  // ----------------------------------------------------------- operations

  /** The size large_alloc asks of its source: page rounding in 64-bit arithmetic. */
  function MappingBytes(shape: Shape, size: nat, alignment: nat): nat
    requires size + shape.header + alignment - 1 < WORD && alignment > 0
  {
    AlignUpWord(size + shape.header + alignment - 1, PAGE)
  }

  predicate LargeRefused(shape: Shape, size: nat, alignment: nat) {
    size == 0 || !AlignmentIsValid(alignment) || size > WORD - 1 - shape.header - (alignment - 1)
  }

  /** A mapping the source may grant: not empty, apart from the extents and all others. */
  predicate Accepts(sz: Sizes, pools: map<nat, Pool>, ms: set<Mapping>, m: Mapping) {
    && m.lo > 0 && m.bytes > 0 && m.lo + m.bytes <= WORD
    && (forall e <- pools :: MappingApart(m, sz, e))
    && forall q <- ms :: m.lo + m.bytes <= q.lo || q.lo + q.bytes <= m.lo
  }

  predicate Granted(s: Sigma, m: Mapping) {
    Accepts(s.local.arena.sizes, s.local.arena.pools, Mappings(s), m)
  }

  /** large_alloc's way back when only one of its two objects could be had. */
  function Undo(l: Local, node: nat, meta: nat): Local
    requires LocalInv(l) && (node == 0 || meta == 0)
    requires (node != 0 ==> InHand(l, node)) && (meta != 0 ==> InHand(l, meta))
  {
    if node != 0 then FreeHere(l, node)
    else if meta != 0 then FreeHere(l, meta)
    else l
  }

  /** Where the user range of a large allocation starts. */
  function LargeUser(shape: Shape, lo: nat, alignment: nat): nat
    requires 0 < alignment < WORD
  {
    AlignUpWord((lo + shape.header) % WORD, alignment)
  }

  function LargeAlloc(s: Sigma, size: nat, alignment: nat, o: Offers): (Sigma, nat)
    requires LocalInv(s.local) && s.shape.Plausible() && alignment < WORD
  {
    if LargeRefused(s.shape, size, alignment) then (s, 0)
    else
      var m := Mapping(o.backing, MappingBytes(s.shape, size, alignment));
      if !Granted(s, m) then (s, 0)
      else
        var ms := Mappings(s) + {m};
        var (k, node) := ArenaAlloc(s.local, ms, s.shape.node, o.first, o.second);
        ArenaAllocSound(s.local, ms, s.shape.node, o.first, o.second);
        AttemptInv(s.local, ms, k, node);
        var (j, meta) := ArenaAlloc(k, ms, s.shape.meta, o.third, o.fourth);
        ArenaAllocSound(k, ms, s.shape.meta, o.third, o.fourth);
        AttemptInv(k, ms, j, meta);
        if node == 0 || meta == 0 then
          StaysInHand(k, ms, j, node, meta);
          (s.(local := Undo(j, node, meta)), 0)
        else
          var user := LargeUser(s.shape, m.lo, alignment);
          (WithLarge(s, j, user, Large(m.lo, m.bytes, node, meta, size, alignment)), user)
  }

  /** The state large_alloc leaves on success. */
  function WithLarge(s: Sigma, k: Local, u: nat, l: Large): Sigma {
    s.(local := k, large := s.large[u := l], order := [u] + s.order)
  }

  lemma StaysInHand(l: Local, ms: set<Mapping>, k: Local, node: nat, meta: nat)
    requires Attempted(l, ms, k, meta) && (node != 0 ==> InHand(l, node))
    ensures node != 0 ==> InHand(k, node)
  {
    hide LocalInv, InHand;
  }

  /** sigma_alloc. */
  function SigmaAlloc(s: Sigma, size: nat, alignment: nat, o: Offers): (Sigma, nat)
    requires LocalInv(s.local) && s.shape.Plausible() && size < WORD && alignment < WORD
  {
    var root := s.local.arena.sizes.root;
    if size == 0 || !AlignmentIsValid(alignment) then (s, 0)
    else if size <= MAX_SLAB_OBJ_SIZE && alignment <= SLAB_MAX_ALIGNMENT then
      var (k, x) := ArenaAlloc(s.local, Mappings(s), size, o.first, o.second);
      (s.(local := k), x)
    else if size <= BlockBytes(root) && alignment <= BlockBytes(root) then
      var (a, x) := AllocBlock(s.local.arena, size, alignment, false, Offer(s.local.arena, Mappings(s), o.first));
      BlockAttempt(s.local, Mappings(s), size, alignment, o.first);
      var t := s.(local := s.local.(arena := a));
      if x != 0 then (t, x) else LargeAlloc(t, size, alignment, AfterBlock(o))
    else LargeAlloc(s, size, alignment, o)
  }

  /** The offers left for large_alloc once the block request has used the first. */
  function AfterBlock(o: Offers): Offers {
    o.(first := o.second, second := o.third, third := o.fourth, fourth := o.fifth)
  }
}
