/** The operations of src/slab.c and src/arena.c that one owner thread performs on
    its arena, as functions on values. NULL is 0. */
module ArenaOps {
  import opened Words
  import opened BuddyTree
  import opened BuddySpec
  import opened BuddyLayout
  import opened SlabLayout
  import opened Arena

  /** What the memory source may grant: a mapping apart from all others. */
  predicate Acceptable(sz: Sizes, pools: map<nat, Pool>, e: nat) {
    sz.meta < e && e + BlockBytes(sz.root) <= WORD && e !in pools && forall f <- pools :: MappingsApart(sz, e, f)
  }

  predicate GrantOk(a: Arena, e: nat) {
    Acceptable(a.sizes, a.pools, e)
  }

  predicate MaybeGrant(a: Arena, grant: Option<nat>) {
    grant.None? || GrantOk(a, grant.value)
  }

  /** The order buddy_alloc looks for, or one past the last if it refuses at once. */
  function RequestOrder(sz: Sizes, size: nat, alignment: nat): nat {
    if size == 0 || !AlignmentIsValid(alignment) then sz.root + 1
    else SizeToOrder(sz.root, sz.buddyHeader, size, alignment)
  }

  predicate Serves(a: Arena, e: nat, target: nat)
    requires ExtentsOk(a) && e in a.pools
  {
    Alloc(a.pools[e], target).1.Some?
  }

  /** The loop over the extents that are not active. */
  function FirstServing(a: Arena, es: seq<nat>, target: nat): (r: Option<nat>)
    requires ExtentsOk(a) && forall e <- es :: e in a.pools
    ensures r.Some? ==> r.value in es && Serves(a, r.value, target)
    ensures r.None? ==> forall e <- es :: e == a.active || !Serves(a, e, target)
  {
    if es == [] then None
    else if es[0] != a.active && Serves(a, es[0], target) then Some(es[0])
    else FirstServing(a, es[1..], target)
  }

  /** The active extent first, then the others in list order. */
  function FindExtent(a: Arena, target: nat): (r: Option<nat>)
    requires ExtentsOk(a)
    ensures r.Some? ==> r.value in a.pools && Serves(a, r.value, target)
    ensures r.None? <==> forall e <- a.pools :: !Serves(a, e, target)
  {
    if Serves(a, a.active, target) then Some(a.active)
    else
      assert forall e :: e in Elems(a.extents) <==> e in a.extents;
      FirstServing(a, a.extents, target)
  }

  /** The user address for a request served by block `n` of extent `e`. */
  function UserAt(sz: Sizes, e: nat, n: nat, alignment: nat): nat
    requires alignment > 0
  {
    AlignUp(BlockAt(e, sz.root, n) + PTR_SIZE + sz.buddyHeader, alignment)
  }

  /** What buddy_alloc records when extent `e`, left with pool `q`, gives block `n`. */
  function Record(a: Arena, e: nat, q: Pool, n: nat, user: nat, size: nat, alignment: nat, isRegion: bool): Arena {
    a.(active := e, pools := a.pools[e := q], back := a.back[BlockAt(e, a.sizes.root, n) := user],
       headers := a.headers[user := BuddyHeader(e, n, isRegion, !isRegion, size, alignment)])
  }

  /** buddy_alloc in one extent that can serve, with the header it writes. */
  function PlaceIn(a: Arena, e: nat, size: nat, alignment: nat, isRegion: bool): (Arena, nat)
    requires ExtentsOk(a) && e in a.pools && alignment > 0
    requires Serves(a, e, RequestOrder(a.sizes, size, alignment))
  {
    var (q, r) := Alloc(a.pools[e], RequestOrder(a.sizes, size, alignment));
    var user := UserAt(a.sizes, e, r.value, alignment);
    (Record(a, e, q, r.value, user, size, alignment, isRegion), user)
  }

  /** src/arena.c: arena_expand with the mapping the source granted. */
  function Expand(a: Arena, e: nat): Arena {
    a.(extents := [e] + a.extents, active := e, pools := a.pools[e := Create(a.sizes.root)])
  }

  lemma CreateTakesNothing(root: nat, n: nat)
    ensures !LiveAs(Create(root).tree, n, FULL)
  {
    hide Live, Depth, Pow2;
    CreateSound(root);
    assert n !in Fulls(Create(root));
  }

  lemma ExpandOk(a: Arena, e: nat)
    requires ExtentsOk(a) && GrantOk(a, e)
    ensures ExtentsOk(Expand(a, e))
    ensures forall f: nat, n: nat :: Taken(Expand(a, e), f, n) <==> Taken(a, f, n)
  {
    hide Live, Depth, Pow2;
    CreateSound(a.sizes.root);
    var b := Expand(a, e);
    assert forall f :: f in Elems(a.extents) <==> f in a.extents;
    forall f: nat, n: nat
      ensures Taken(b, f, n) <==> Taken(a, f, n)
    {
      CreateTakesNothing(a.sizes.root, n);
    }
  }

  /** arena_alloc_slab_region and arena_alloc_buddy_region: the active extent, the
      others, then a new extent, which is mapped even when the request is too large
      for any pool. */
  function AllocBlock(a: Arena, size: nat, alignment: nat, isRegion: bool, grant: Option<nat>): (Arena, nat)
    requires ExtentsOk(a) && MaybeGrant(a, grant) && alignment > 0
  {
    var target := RequestOrder(a.sizes, size, alignment);
    match FindExtent(a, target)
    case Some(e) => PlaceIn(a, e, size, alignment, isRegion)
    case None =>
      if grant.None? then (a, 0)
      else
        ExpandOk(a, grant.value);
        var b := Expand(a, grant.value);
        if Serves(b, grant.value, target) then PlaceIn(b, grant.value, size, alignment, isRegion) else (b, 0)
  }

  /** The carving loop of slab_create after `k` turns: headers written, slots linked. */
  function Carve(a: Arena, r: nat, c: nat, k: nat): (b: Arena)
    requires c < NUM_CACHES
  {
    if k == 0 then a
    else
      var b := Carve(a, r, c, k - 1);
      var x := a.sizes.Slot(r, c, k - 1);
      b.(word := b.word[x := if k == 1 then 0 else a.sizes.Slot(r, c, k - 2)],
         headers := b.headers[x := SlabHeader(true, r, 0)])
  }

  /** slab_create and the slab_push that follows it. */
  function SlabCreate(a: Arena, c: nat, grant: Option<nat>): (Arena, nat)
    requires ExtentsOk(a) && MaybeGrant(a, grant) && c < NUM_CACHES && |a.partial| == NUM_CACHES
  {
    var (b, r) := AllocBlock(a, SLAB_SIZE, SLAB_MAX_ALIGNMENT, true, grant);
    if r == 0 then (b, 0)
    else
      CapacityFits(a.sizes, c);
      (Install(b, r, c, b.active), r)
  }

  /** A region becomes a slab with every slot free, at the head of its partial list. */
  function Install(b: Arena, r: nat, c: nat, e: nat): Arena
    requires c < NUM_CACHES && b.sizes.Plausible() && |b.partial| == NUM_CACHES && b.sizes.Capacity(c) >= 1
  {
    var n := b.sizes.Capacity(c);
    var free := Carved(b.sizes, r, c, n);
    Carve(b, r, c, n).(slabs := b.slabs[r := Slab(c, e, 0, free[0], free)],
                       partial := b.partial[c := [r] + b.partial[c]])
  }

  /** The part of slab_alloc that takes the first free slot of slab `r`. */
  function TakeSlot(a: Arena, r: nat, size: nat): Arena
    requires r in a.slabs && a.slabs[r].cls < NUM_CACHES && a.sizes.Plausible()
    requires a.slabs[r].free != [] && a.slabs[r].head in a.word && |a.partial| == |a.full| == NUM_CACHES
  {
    var s := a.slabs[r];
    var c := s.cls;
    var b := a.(slabs := a.slabs[r := Slab(c, s.ext, s.used + 1, a.word[s.head], s.free[1..])],
                headers := a.headers[s.head := SlabHeader(true, r, size)]);
    if s.used + 1 == a.sizes.Capacity(c) then
      b.(partial := b.partial[c := Without(b.partial[c], r)], full := b.full[c := [r] + b.full[c]])
    else b
  }

  /** The first part of slab_free_local: the slot heads the free list again. */
  function PutSlot(a: Arena, x: nat, r: nat): Arena
    requires r in a.slabs && a.slabs[r].cls < NUM_CACHES && a.sizes.Plausible() && a.slabs[r].used > 0
    requires |a.partial| == |a.full| == NUM_CACHES && x in a.headers && a.headers[x].SlabHeader?
  {
    var s := a.slabs[r];
    var c := s.cls;
    var b := a.(slabs := a.slabs[r := Slab(c, s.ext, s.used - 1, x, [x] + s.free)],
                headers := a.headers[x := a.headers[x].(live := false)], word := a.word[x := s.head]);
    if s.used == a.sizes.Capacity(c) then
      b.(full := b.full[c := Without(b.full[c], r)], partial := b.partial[c := [r] + b.partial[c]])
    else b
  }

  /** The last part of slab_free_local: an empty slab goes back to its pool. */
  function Retire(a: Arena, r: nat): Arena
    requires r in a.slabs && a.slabs[r].cls < NUM_CACHES && |a.partial| == NUM_CACHES
    requires r in a.headers && a.headers[r].BuddyHeader? && ExtentsOk(a) && Taken(a, a.slabs[r].ext, a.headers[r].node)
  {
    var s := a.slabs[r];
    a.(slabs := a.slabs - {r}, partial := a.partial[s.cls := Without(a.partial[s.cls], r)],
       pools := a.pools[s.ext := Free(a.pools[s.ext], a.headers[r].node)])
  }
}
