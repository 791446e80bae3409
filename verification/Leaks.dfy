/** What src/debug.c reports: the pointers its walks over slabs, buddy trees and the
    large list come upon, and their agreement with the pointers users hold. */
module Leaks {
  import opened Words
  import opened BuddyTree
  import opened BuddySpec
  import opened BuddyTheorems
  import opened BuddyLayout
  import opened SlabLayout
  import opened Arena
  import opened ArenaBlocks
  import opened ArenaSlabs
  import opened ArenaTheorems
  import opened Sigma
  import opened ArenaCalls
  import opened SigmaTheorems

  const MAX_LEAKS: nat := 4096

  // ----------------------------------------------------------- the walks

  /** The first `k` slots of slab `r` that are neither free nor bookkeeping objects. */
  function SlotsLeaked(s: Sigma, r: nat, k: nat): seq<nat>
    requires r in s.local.arena.slabs && s.local.arena.slabs[r].cls < NUM_CACHES
  {
    if k == 0 then []
    else
      var x := s.local.arena.sizes.Slot(r, s.local.arena.slabs[r].cls, k - 1);
      SlotsLeaked(s, r, k - 1) + (if x !in s.local.arena.slabs[r].free && x !in Infra(s) then [x] else [])
  }

  function SlabLeaked(s: Sigma, r: nat): seq<nat> {
    if r in s.local.arena.slabs && s.local.arena.slabs[r].cls < NUM_CACHES && s.local.arena.sizes.Plausible()
    then SlotsLeaked(s, r, s.local.arena.sizes.Capacity(s.local.arena.slabs[r].cls)) else []
  }

  /** collect_slab_leaks over one list of slabs. */
  function SlabsLeaked(s: Sigma, rs: seq<nat>): seq<nat> {
    if rs == [] then [] else SlabsLeaked(s, rs[..|rs| - 1]) + SlabLeaked(s, rs[|rs| - 1])
  }

  /** The slabs of the first `k` caches in the order of the walk: partial, then full. */
  function SlabOrder(a: Arena, k: nat): seq<nat>
    requires k <= NUM_CACHES && |a.partial| == |a.full| == NUM_CACHES
  {
    if k == 0 then [] else SlabOrder(a, k - 1) + a.partial[k - 1] + a.full[k - 1]
  }

  /** What traverse_buddy_nodes reports at a FULL node of extent `e`. */
  function NodeLeaked(a: Arena, e: nat, n: nat): seq<nat> {
    var block := BlockAt(e, a.sizes.root, n);
    if block in a.back && a.back[block] in a.headers && n < NodeCount(a.sizes.root) then
      match a.headers[a.back[block]]
      case SlabHeader(_, _, _) => []
      case BuddyHeader(_, m, isRegion, _, _, _) =>
        if m < NodeCount(a.sizes.root) && Order(a.sizes.root, m) == Order(a.sizes.root, n) && !isRegion
          then [a.back[block]] else []
    else []
  }

  function NodesLeaked(a: Arena, e: nat, ns: seq<nat>): seq<nat> {
    if ns == [] then [] else NodeLeaked(a, e, ns[0]) + NodesLeaked(a, e, ns[1..])
  }

  function ExtentLeaked(a: Arena, e: nat): seq<nat> {
    if e in a.pools && |a.pools[e].tree| == NodeCount(a.pools[e].root) > 0
    then NodesLeaked(a, e, Leaves(a.pools[e].root, a.pools[e].tree, 0, FULL)) else []
  }

  /** collect_arena_buddy_leaks. */
  function ExtentsLeaked(a: Arena, es: seq<nat>): seq<nat> {
    if es == [] then [] else ExtentsLeaked(a, es[..|es| - 1]) + ExtentLeaked(a, es[|es| - 1])
  }

  /** Everything sigma_debug_collect_leaks comes upon, in order. */
  function AllLeaked(s: Sigma): seq<nat>
    requires |s.local.arena.partial| == |s.local.arena.full| == NUM_CACHES
  {
    SlabsLeaked(s, SlabOrder(s.local.arena, NUM_CACHES)) + ExtentsLeaked(s.local.arena, s.local.arena.extents) + s.order
  }

  /** The size reported for a pointer: the object size of its cache, or the size asked. */
  function LeakSize(s: Sigma, x: nat): nat {
    if x in s.large then s.large[x].size
    else if x in s.local.arena.headers then
      match s.local.arena.headers[x]
      case SlabHeader(_, r, _) =>
        if r in s.local.arena.slabs && s.local.arena.slabs[r].cls < NUM_CACHES
        then SIZE_CLASSES[s.local.arena.slabs[r].cls] else 0
      case BuddyHeader(_, _, _, _, size, _) => size
    else 0
  }

  // ------------------------------------------------------------- slabs

  predicate SlotLeaks(s: Sigma, r: nat, x: nat) {
    r in s.local.arena.slabs && x in SlotsOf(s.local.arena, r) && x !in s.local.arena.slabs[r].free && x !in Infra(s)
  }

  lemma {:induction false} SlotsLeakedAre(s: Sigma, r: nat, k: nat)
    requires r in s.local.arena.slabs && s.local.arena.slabs[r].cls < NUM_CACHES && s.local.arena.sizes.Plausible()
    ensures Distinct(SlotsLeaked(s, r, k))
    ensures forall x: nat :: x in SlotsLeaked(s, r, k) <==>
              x in Carved(s.local.arena.sizes, r, s.local.arena.slabs[r].cls, k) && x !in s.local.arena.slabs[r].free
                && x !in Infra(s)
  {
    hide Infra, Sizes.Slot, Sizes.Plausible;
    if k > 0 {
      SlotsLeakedAre(s, r, k - 1);
      var c := s.local.arena.slabs[r].cls;
      CarvedDistinct(s.local.arena.sizes, r, c, k);
      var x := s.local.arena.sizes.Slot(r, c, k - 1);
      LastNotEarlier(Carved(s.local.arena.sizes, r, c, k));
      AppendDistinct(SlotsLeaked(s, r, k - 1), if x !in s.local.arena.slabs[r].free && x !in Infra(s) then [x] else []);
    }
  }

  lemma LastNotEarlier(s: seq<nat>)
    requires s != [] && Distinct(s)
    ensures s[0] !in s[1..] && forall x: nat :: x in s <==> x == s[0] || x in s[1..]
  {
    TailMembers(s);
  }

  lemma AppendDistinct(s: seq<nat>, t: seq<nat>)
    requires Distinct(s) && Distinct(t) && forall x <- t :: x !in s
    ensures Distinct(s + t) && forall x: nat :: x in s + t <==> x in s || x in t
  {
    forall i, j | 0 <= i < j < |s + t|
      ensures (s + t)[i] != (s + t)[j]
    {
      if i < |s| <= j {
        assert (s + t)[j] in t;
      }
    }
  }

  lemma SlabLeakedIs(s: Sigma, r: nat)
    requires SigmaInv(s) && r in s.local.arena.slabs
    ensures Distinct(SlabLeaked(s, r)) && forall x: nat :: x in SlabLeaked(s, r) <==> SlotLeaks(s, r, x)
  {
    hide Infra, Sizes.Capacity, AlignUp, SizeToOrder, Carved, SlotsLeaked, RegionOk, BlocksOk, ExtentsOk, CachesOk,
      LargesOk, ExtentsApart;
    SlabFacts(s.local.arena, r);
    SlotsLeakedAre(s, r, s.local.arena.sizes.Capacity(s.local.arena.slabs[r].cls));
  }

  /** Slots of different slabs differ, so no slot is reported twice. */
  lemma SlotLeaksOnce(s: Sigma, r: nat, q: nat, x: nat)
    requires SigmaInv(s) && SlotLeaks(s, r, x) && SlotLeaks(s, q, x)
    ensures r == q
  {
    hide Infra, LargesOk, ExtentsApart, SlotsOf, AlignUp, SizeToOrder;
    SlabFacts(s.local.arena, r);
    SlabFacts(s.local.arena, q);
    SlotsOfApart(s.local.arena, r, q, x);
  }

  lemma {:induction false} SlabsLeakedAre(s: Sigma, rs: seq<nat>)
    requires SigmaInv(s) && Distinct(rs) && forall r <- rs :: r in s.local.arena.slabs
    ensures Distinct(SlabsLeaked(s, rs))
    ensures forall x: nat :: x in SlabsLeaked(s, rs) <==> exists r :: r in rs && SlotLeaks(s, r, x)
    decreases |rs|
  {
    hide SigmaInv, SlotLeaks, SlabLeaked;
    if rs != [] {
      var front, r := rs[..|rs| - 1], rs[|rs| - 1];
      assert rs == front + [r];
      SlabsLeakedAre(s, front);
      SlabLeakedIs(s, r);
      forall x <- SlabLeaked(s, r)
        ensures x !in SlabsLeaked(s, front)
      {
        if x in SlabsLeaked(s, front) {
          var q :| q in front && SlotLeaks(s, q, x);
          SlotLeaksOnce(s, q, r, x);
        }
      }
      AppendDistinct(SlabsLeaked(s, front), SlabLeaked(s, r));
    }
  }

  lemma {:induction false} SlabOrderIs(a: Arena, k: nat)
    requires CachesOk(a) && k <= NUM_CACHES
    ensures Distinct(SlabOrder(a, k))
    ensures forall r: nat :: r in SlabOrder(a, k) <==> r in a.slabs && a.slabs[r].cls < k
  {
    hide IsFull;
    if k > 0 {
      SlabOrderIs(a, k - 1);
      AppendDistinct(SlabOrder(a, k - 1), a.partial[k - 1]);
      AppendDistinct(SlabOrder(a, k - 1) + a.partial[k - 1], a.full[k - 1]);
    }
  }

  predicate SlabUser(s: Sigma, x: nat) {
    IsOut(s.local.arena, x) && s.local.arena.headers[x].SlabHeader? && x !in Infra(s)
  }

  lemma SlotLeaksAreUsers(s: Sigma, x: nat)
    requires SigmaInv(s)
    ensures (exists r :: r in s.local.arena.slabs && SlotLeaks(s, r, x)) <==> SlabUser(s, x)
  {
    hide Infra, SlotsOf, AlignUp, SizeToOrder, LargesOk, ExtentsApart, BlocksOk, ExtentsOk, CachesOk;
    if r :| r in s.local.arena.slabs && SlotLeaks(s, r, x) {
      SlabFacts(s.local.arena, r);
    }
    if SlabUser(s, x) {
      assert SlotLeaks(s, s.local.arena.headers[x].slab, x);
    }
  }

  /** The slab walk reports each slab object in users' hands once. */
  lemma SlabWalkExact(s: Sigma)
    requires SigmaInv(s)
    ensures |s.local.arena.partial| == |s.local.arena.full| == NUM_CACHES
    ensures Distinct(SlabsLeaked(s, SlabOrder(s.local.arena, NUM_CACHES)))
    ensures forall x: nat :: x in SlabsLeaked(s, SlabOrder(s.local.arena, NUM_CACHES)) <==> SlabUser(s, x)
  {
    ClassesBelow(s);
    hide SigmaInv, SlotLeaks, SlabUser, SlabOrder;
    var rs := SlabOrder(s.local.arena, NUM_CACHES);
    SlabsLeakedAre(s, rs);
    forall x: nat
      ensures x in SlabsLeaked(s, rs) <==> SlabUser(s, x)
    {
      SlotLeaksAreUsers(s, x);
    }
  }

  lemma ClassesBelow(s: Sigma)
    requires SigmaInv(s)
    ensures |s.local.arena.partial| == |s.local.arena.full| == NUM_CACHES
    ensures Distinct(SlabOrder(s.local.arena, NUM_CACHES))
    ensures forall r: nat :: r in SlabOrder(s.local.arena, NUM_CACHES) <==> r in s.local.arena.slabs
  {
    hide SlabOk, BlocksOk, ExtentsOk, CachesOk, LargesOk, ExtentsApart;
    CoreShape(s.local.arena);
    SlabOrderIs(s.local.arena, NUM_CACHES);
    forall r <- s.local.arena.slabs
      ensures s.local.arena.slabs[r].cls < NUM_CACHES
    {
      SlabFacts(s.local.arena, r);
    }
  }

  // ------------------------------------------------------------- blocks

  predicate BlockUser(a: Arena, x: nat) {
    IsOut(a, x) && a.headers[x].BuddyHeader?
  }

  /** At a taken block the walk reports its user pointer, unless it is a slab region. */
  lemma NodeLeakedIs(a: Arena, e: nat, n: nat)
    requires ArenaInv(a) && Taken(a, e, n)
    ensures Distinct(NodeLeaked(a, e, n))
    ensures forall x: nat :: x in NodeLeaked(a, e, n) <==>
              BlockUser(a, x) && a.headers[x].ext == e && a.headers[x].node == n
  {
    TakenIsFull(a, e, n);
    assert BlockOk(a, e, n);
    hide Taken, BlockAt, BlockSize, Placed, ExtentsOk, BlocksOk, SlabsOk, CachesOk, Order;
  }

  lemma {:induction false} NodesLeakedAre(a: Arena, e: nat, ns: seq<nat>)
    requires ArenaInv(a) && Distinct(ns) && forall n <- ns :: Taken(a, e, n)
    ensures Distinct(NodesLeaked(a, e, ns))
    ensures forall x: nat :: x in NodesLeaked(a, e, ns) <==>
              BlockUser(a, x) && a.headers[x].ext == e && a.headers[x].node in ns
    decreases |ns|
  {
    hide ArenaInv, Taken, BlockUser, NodeLeaked;
    if ns != [] {
      LastNotEarlier(ns);
      NodeLeakedIs(a, e, ns[0]);
      NodesLeakedAre(a, e, ns[1..]);
      AppendDistinct(NodeLeaked(a, e, ns[0]), NodesLeaked(a, e, ns[1..]));
    }
  }

  lemma PoolShape(a: Arena, e: nat)
    requires ArenaInv(a) && e in a.pools
    ensures BuddySpec.Inv(a.pools[e]) && a.pools[e].root == a.sizes.root
    ensures |a.pools[e].tree| == NodeCount(a.sizes.root) > 0
  {
    hide BlocksOk, SlabsOk, CachesOk, Live, Depth, Pow2, Coalesced, ListsSound;
    NodeCountPositive(a.sizes.root);
  }

  lemma NodeCountPositive(root: nat)
    ensures NodeCount(root) > 0
  {
  }

  lemma ExtentLeakedIs(a: Arena, e: nat)
    requires ArenaInv(a) && e in a.pools
    ensures Distinct(ExtentLeaked(a, e))
    ensures forall x: nat :: x in ExtentLeaked(a, e) <==> BlockUser(a, x) && a.headers[x].ext == e
  {
    PoolShape(a, e);
    TraversalExact(a.pools[e], FULL);
    var ns := Leaves(a.pools[e].root, a.pools[e].tree, 0, FULL);
    forall n: nat
      ensures n in ns <==> Taken(a, e, n)
    {
    }
    hide ArenaInv, BuddySpec.Inv, Leaves;
    NodesLeakedAre(a, e, ns);
    forall x: nat
      ensures x in NodesLeaked(a, e, ns) <==> BlockUser(a, x) && a.headers[x].ext == e
    {
      UserBlockTaken(a, x);
    }
  }

  lemma UserBlockTaken(a: Arena, x: nat)
    ensures BlockUser(a, x) ==> Taken(a, a.headers[x].ext, a.headers[x].node)
  {
    hide Taken, BlockAt;
  }

  lemma {:induction false} ExtentsLeakedAre(a: Arena, es: seq<nat>)
    requires ArenaInv(a) && Distinct(es) && forall e <- es :: e in a.pools
    ensures Distinct(ExtentsLeaked(a, es))
    ensures forall x: nat :: x in ExtentsLeaked(a, es) <==> BlockUser(a, x) && a.headers[x].ext in es
    decreases |es|
  {
    hide ArenaInv, BlockUser, ExtentLeaked;
    if es != [] {
      var front, e := es[..|es| - 1], es[|es| - 1];
      assert es == front + [e];
      ExtentsLeakedAre(a, front);
      ExtentLeakedIs(a, e);
      AppendDistinct(ExtentsLeaked(a, front), ExtentLeaked(a, e));
    }
  }

  /** The buddy walk reports each block in users' hands once: stale marks are never
      looked at and slab regions are skipped. */
  lemma BuddyWalkExact(a: Arena)
    requires ArenaInv(a)
    ensures Distinct(ExtentsLeaked(a, a.extents))
    ensures forall x: nat :: x in ExtentsLeaked(a, a.extents) <==> BlockUser(a, x)
  {
    ExtentsAreListed(a);
    hide ArenaInv, BlockUser, ExtentsLeaked;
    ExtentsLeakedAre(a, a.extents);
    forall x: nat | BlockUser(a, x)
      ensures a.headers[x].ext in a.extents
    {
      UserBlockTaken(a, x);
      TakenInPools(a, a.headers[x].ext, a.headers[x].node);
    }
  }

  lemma ExtentsAreListed(a: Arena)
    requires ArenaInv(a)
    ensures Distinct(a.extents) && forall e: nat :: e in a.extents <==> e in a.pools
  {
    hide BlocksOk, SlabsOk, CachesOk;
    assert forall e: nat :: e in a.extents <==> e in Elems(a.extents);
  }

  // ------------------------------------------------------------- the whole

  /** What the collector comes upon: everything in users' hands, and what other threads
      have pushed and no drain has reached. */
  predicate IsMet(s: Sigma, x: nat) {
    IsUser(s, x) || x in s.local.stack
  }

  /** The collector comes upon every pointer users hold, and every one still pending on
      the remote stack, exactly once and upon nothing else: bookkeeping objects, slab
      regions and stale marks are left out. */
  lemma CollectorExact(s: Sigma)
    requires SigmaInv(s)
    ensures |s.local.arena.partial| == |s.local.arena.full| == NUM_CACHES
    ensures Distinct(AllLeaked(s)) && Elems(AllLeaked(s)) == Users(s) + Elems(s.local.stack)
    ensures |AllLeaked(s)| == |Users(s)| + |s.local.stack|
  {
    SlabWalkExact(s);
    hide SigmaInv, SlabUser, BlockUser, IsMet, IsOut, Infra, SlabsLeaked, SlabOrder, ExtentsLeaked, Users, Elems, Core,
      StackOk;
    InvShape(s);
    BuddyWalkExact(s.local.arena);
    OrderIsLarge(s);
    forall x: nat
      ensures IsMet(s, x) <==> SlabUser(s, x) || BlockUser(s.local.arena, x) || x in s.large
      ensures !(SlabUser(s, x) && BlockUser(s.local.arena, x))
      ensures x in s.large ==> !SlabUser(s, x) && !BlockUser(s.local.arena, x)
    {
      MetKinds(s, x);
    }
    var a := SlabsLeaked(s, SlabOrder(s.local.arena, NUM_CACHES));
    var b := ExtentsLeaked(s.local.arena, s.local.arena.extents);
    AppendDistinct(a, b);
    AppendDistinct(a + b, s.order);
    SameMembers(s, AllLeaked(s));
  }

  /** Without pushes waiting for a drain, the collector reports exactly what users hold;
      otherwise more. */
  lemma CollectorCountsUsersIff(s: Sigma)
    requires SigmaInv(s)
    ensures |s.local.arena.partial| == |s.local.arena.full| == NUM_CACHES
    ensures |AllLeaked(s)| == |Users(s)| <==> s.local.stack == []
    ensures s.local.stack == [] ==> Elems(AllLeaked(s)) == Users(s)
  {
    hide SigmaInv, AllLeaked, Users, Distinct;
    CollectorExact(s);
    hide Elems;
    ElemsOfNone(s.local.stack);
  }

  lemma ElemsOfNone(s: seq<nat>)
    ensures s == [] ==> Elems(s) == {}
  {
  }

  /** Three kinds of pointers are met, and no pointer is of two kinds. */
  lemma MetKinds(s: Sigma, x: nat)
    requires SigmaInv(s)
    ensures IsMet(s, x) <==> SlabUser(s, x) || BlockUser(s.local.arena, x) || x in s.large
    ensures !(SlabUser(s, x) && BlockUser(s.local.arena, x))
    ensures (x in s.large ==> !SlabUser(s, x) && !BlockUser(s.local.arena, x))
  {
    OutHasHeader(s.local.arena);
    StackNotInfra(s, x);
    if x in s.large {
      LargeNotOut(s, x);
    }
    if BlockUser(s.local.arena, x) {
      BlockNotInfra(s, x);
    }
    hide SigmaInv, IsOut, Infra;
  }

  lemma StackNotInfra(s: Sigma, x: nat)
    requires SigmaInv(s)
    ensures x in s.local.stack ==> x !in Infra(s) && IsOut(s.local.arena, x)
  {
    InvShape(s);
    StackedAreOut(s.local);
    hide SigmaInv, LocalInv, IsOut, Infra;
    if x in Infra(s) {
      InfraIsOut(s, x);
    }
  }

  lemma SameMembers(s: Sigma, xs: seq<nat>)
    requires SigmaInv(s) && Distinct(xs) && forall x: nat :: x in xs <==> IsMet(s, x)
    ensures Elems(xs) == Users(s) + Elems(s.local.stack) && |xs| == |Users(s)| + |s.local.stack|
  {
    UsersAre(s);
    InvShape(s);
    ChainDistinct(s.local.arena.word, Head(s.local.stack), s.local.stack);
    StackNotUsers(s);
    hide SigmaInv, LocalInv, IsUser, Users;
    assert Elems(xs) == Users(s) + Elems(s.local.stack);
    DistinctSize(xs);
    DistinctSize(s.local.stack);
  }

  lemma StackNotUsers(s: Sigma)
    requires SigmaInv(s)
    ensures Users(s) !! Elems(s.local.stack)
  {
    UsersAre(s);
    forall x <- s.local.stack
      ensures !IsUser(s, x)
    {
      StackNotInfra(s, x);
      if x in s.large {
        LargeNotOut(s, x);
      }
    }
    hide SigmaInv, IsUser, Users;
  }

  lemma OrderIsLarge(s: Sigma)
    requires SigmaInv(s)
    ensures Distinct(s.order) && forall x: nat :: x in s.order <==> x in s.large
  {
    hide ArenaInv, LargesOk, ExtentsApart;
    assert forall x: nat :: x in s.order <==> x in Elems(s.order);
  }

  lemma BlockNotInfra(s: Sigma, x: nat)
    requires SigmaInv(s) && BlockUser(s.local.arena, x)
    ensures x !in Infra(s)
  {
    hide SigmaInv, Infra, IsOut;
    if x in Infra(s) {
      InfraIsOut(s, x);
    }
  }

  /** Each reported size holds what was asked for. */
  lemma LeakSizeHolds(s: Sigma, x: nat)
    requires SigmaInv(s) && IsUser(s, x)
    ensures LeakSize(s, x) >= SizeOf(s, x)
    ensures !SlabUser(s, x) ==> LeakSize(s, x) == SizeOf(s, x)
  {
    InvShape(s);
    hide SigmaInv, ArenaInv, IsOut, Infra;
    if x !in s.large && s.local.arena.headers[x].SlabHeader? {
      SlotHolds(s.local.arena, x);
    }
  }

  lemma SlotHolds(a: Arena, x: nat)
    requires ArenaInv(a) && IsOut(a, x) && a.headers[x].SlabHeader?
    ensures var r := a.headers[x].slab;
            r in a.slabs && a.slabs[r].cls < NUM_CACHES && a.headers[x].size <= SIZE_CLASSES[a.slabs[r].cls]
  {
    hide Taken, BlockAt, SlotsOf, FreeListOk, RegionOk, BlocksOk, ExtentsOk, CachesOk, AlignUp, SizeToOrder,
      Sizes.Capacity, Sizes.Plausible;
    SlabFacts(a, a.headers[x].slab);
  }
}
