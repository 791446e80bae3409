/** The allocator object of one thread: src/alloc.c, src/large.c, src/free.c and
    sigma_realloc over an arena object, with the debug list of large allocations
    linked through their nodes. Every method is proved against the operations on
    values. */
module SigmaHeap {
  import opened Words
  import opened BuddyLayout
  import opened LinkedLists
  import opened SlabLayout
  import opened Arena
  import opened ArenaOps
  import opened ArenaSlabs
  import opened ArenaFrees
  import opened ArenaCalls
  import opened ArenaHeap
  import opened Remote
  import opened Sigma
  import opened SigmaTheorems
  import opened SigmaFrees
  import opened Realloc

  /** The nodes of the large allocations in list order. */
  function NodesIn(large: map<nat, Large>, order: seq<nat>): (r: seq<nat>)
    ensures |r| == |order|
  {
    seq(|order|, i requires 0 <= i < |order| => if order[i] in large then large[order[i]].node else 0)
  }

  /** large_free's unlinking: the head moves only when the node has no predecessor. */
  function UnlinkedHead(m: LinkedLists.Memory, head: nat, x: nat): nat
    requires x in m
  {
    if m[x].prev != 0 then head else m[x].next
  }

  function Unlinked(m: LinkedLists.Memory, x: nat): LinkedLists.Memory
    requires x in m
  {
    var l := m[x];
    var m1 := if l.prev != 0 then SetNext(m, l.prev, l.next) else m;
    if l.next != 0 then SetPrev(m1, l.next, l.prev) else m1
  }

  /** Unlinking takes exactly that node out of the list, whose own links go stale. */
  lemma UnlinkList(m: LinkedLists.Memory, head: nat, s: seq<nat>, x: nat)
    requires ListAt(m, head, s) && x in s
    ensures x in m && ListAt(Unlinked(m, x), UnlinkedHead(m, head, x), Without(s, x))
  {
    RemoveList(m, head, s, x);
    WithoutDistinct(s, x);
    var k :| 0 <= k < |s| && s[k] == x;
    assert m[s[k]] == Link(At(s, k + 1), At(s, k - 1));
    if k > 0 {
      assert s[k - 1] in s;
      assert head != x;
    }
    hide Without;
    Frame(Remove(m, x), Unlinked(m, x), RemoveHead(m, head, x), Without(s, x));
  }

  lemma NodesDistinct(s: Sigma)
    requires SigmaInv(s)
    ensures Distinct(NodesIn(s.large, s.order)) && forall x ::
              x in NodesIn(s.large, s.order) <==> exists u :: u in s.large && s.large[u].node == x
  {
    hide LocalInv, LargeOk, ExtentsApart, FixedApart;
    OrderListed(s);
    var ns := NodesIn(s.large, s.order);
    forall i, j | 0 <= i < j < |ns|
      ensures ns[i] != ns[j]
    {
      assert s.order[i] in s.order && s.order[j] in s.order && s.order[i] != s.order[j];
      assert LargesApart(s.large[s.order[i]], s.large[s.order[j]]);
    }
    forall x
      ensures x in ns <==> exists u :: u in s.large && s.large[u].node == x
    {
      if u :| u in s.large && s.large[u].node == x {
        var i :| 0 <= i < |s.order| && s.order[i] == u;
        assert ns[i] == x;
      }
      if x in ns {
        var i :| 0 <= i < |ns| && ns[i] == x;
        assert s.order[i] in s.order;
      }
    }
  }

  lemma OrderListed(s: Sigma)
    requires SigmaInv(s)
    ensures Distinct(s.order) && forall u :: u in s.order <==> u in s.large
  {
    hide LocalInv, LargesOk, ExtentsApart, FixedApart;
    assert forall x :: x in s.order <==> x in Elems(s.order);
  }

  /** Taking `u` off the order takes its node off the nodes. */
  lemma NodesWithout(s: Sigma, u: nat)
    requires SigmaInv(s) && u in s.large
    ensures NodesIn(s.large - {u}, Without(s.order, u)) == Without(NodesIn(s.large, s.order), s.large[u].node)
  {
    hide SigmaInv, Without, NodesIn;
    OrderListed(s);
    NodesDistinct(s);
    var i :| 0 <= i < |s.order| && s.order[i] == u;
    WithoutAt(s.order, i);
    WithoutAt(NodesIn(s.large, s.order), i);
    NodesCut(s.large, s.order, i);
  }

  lemma NodesCut(large: map<nat, Large>, order: seq<nat>, i: nat)
    requires i < |order| && Distinct(order) && forall u <- order :: u in large
    ensures var ns := NodesIn(large, order);
            NodesIn(large - {order[i]}, order[..i] + order[i + 1..]) == ns[..i] + ns[i + 1..]
              && ns[i] == large[order[i]].node
  {
    var rest, ns := order[..i] + order[i + 1..], NodesIn(large, order);
    var ms := NodesIn(large - {order[i]}, rest);
    forall k | 0 <= k < |rest|
      ensures ms[k] == (ns[..i] + ns[i + 1..])[k]
    {
      var j := if k < i then k else k + 1;
      assert rest[k] == order[j] && order[j] in order && order[j] != order[i];
    }
  }

  /** A new large allocation puts its node in front. */
  lemma NodesPushed(large: map<nat, Large>, order: seq<nat>, u: nat, l: Large)
    requires u !in order
    ensures NodesIn(large[u := l], [u] + order) == [l.node] + NodesIn(large, order)
  {
    var t := [u] + order;
    forall i | 0 < i < |t|
      ensures t[i] != u
    {
      assert t[i] == order[i - 1] && order[i - 1] in order;
    }
  }

  /** Offers that respect the other mappings, so that the arena need not know them. */
  function Clear(sz: Sizes, ms: set<Mapping>, g: Option<nat>): Option<nat> {
    if g.Some? && forall m <- ms :: MappingApart(m, sz, g.value) then g else None
  }

  lemma ClearOffer(a: Arena, ms: set<Mapping>, g: Option<nat>)
    ensures Offer(a, {}, Clear(a.sizes, ms, g)) == Offer(a, ms, g)
  {
    hide MappingApart, MappingsApart;
  }

  /** arena_alloc with offers that are clear of the other mappings. */
  lemma ClearAlloc(l: Local, ms: set<Mapping>, size: nat, first: Option<nat>, second: Option<nat>)
    requires LocalInv(l) && 0 < size <= MAX_SLAB_OBJ_SIZE
    ensures ArenaAlloc(l, {}, size, Clear(l.arena.sizes, ms, first), Clear(l.arena.sizes, ms, second))
            == ArenaAlloc(l, ms, size, first, second)
  {
    hide Core, StackOk, ArenaSlabs.SlabAlloc, Offer, Clear, Drained, Attempted;
    var k := l.(counter := (l.counter + 1) % WORD);
    Counted(l, ms, (l.counter + 1) % WORD);
    DrainSound(k, ms);
    AttemptInv(k, ms, Drained(k), 0);
    var d := if k.counter % DRAIN_INTERVAL == 0 then Drained(k) else k;
    ClearOffer(d.arena, ms, first);
    SlabAttempt(d, ms, size, first);
    var (b, x) := ArenaSlabs.SlabAlloc(d.arena, size, Offer(d.arena, ms, first));
    AttemptInv(d, ms, d.(arena := b), x);
    if x == 0 {
      DrainSound(d.(arena := b), ms);
      AttemptInv(d.(arena := b), ms, Drained(d.(arena := b)), 0);
      ClearOffer(Drained(d.(arena := b)).arena, ms, second);
    }
  }

  /** The alignment of large_node_t and large_metadata_t. */
  const POINTER_ALIGN: nat := 8

  lemma PointerAlignValid(size: nat)
    requires 0 < size <= MAX_SLAB_OBJ_SIZE
    ensures !Rejected(size, POINTER_ALIGN)
  {
    assert Words.Pow2(3) == POINTER_ALIGN;
    AlignmentValidIffPow2(POINTER_ALIGN);
  }

  class SigmaObject {
    const arena: ArenaObject
    const shape: Shape
    /** Where the structures that lie in no extent are. */
    const fixed: set<Mapping>
    var large: map<nat, Large>
    var head: nat
    var links: LinkedLists.Memory
    ghost var order: seq<nat>

    ghost function View(): Sigma
      reads this, arena
    {
      Sigma(arena.LocalView(), fixed, shape, large, order)
    }

    ghost predicate Valid()
      reads this, arena
    {
      arena.Ready() && SigmaInv(View()) && ListAt(links, head, NodesIn(large, order))
    }

    /** sigma_allocator_init over a first arena. */
    constructor (a: ArenaObject, f: set<Mapping>, sh: Shape)
      requires a.Ready() && SigmaInv(Sigma(a.LocalView(), f, sh, map[], []))
      ensures Valid() && arena == a && View() == Sigma(a.LocalView(), f, sh, map[], [])
    {
      arena, fixed, shape := a, f, sh;
      large, head, links, order := map[], 0, map[], [];
    }

    /** arena_alloc on the arena of this thread. */
    method Small(ms: set<Mapping>, size: nat, alignment: nat, first: Option<nat>, second: Option<nat>) returns (x: nat)
      requires arena.Ready() && !Rejected(size, alignment)
      modifies arena
      ensures arena.Ready() && LocalInv(old(arena.LocalView()))
      ensures (arena.LocalView(), x) == ArenaAlloc(old(arena.LocalView()), ms, size, first, second)
    {
      hide ArenaAlloc, Clear, LocalInv, ArenaObject.Linked, AlignmentIsValid;
      ClearAlloc(arena.LocalView(), ms, size, first, second);
      x := arena.ArenaAlloc(size, alignment, Clear(arena.sizes, ms, first), Clear(arena.sizes, ms, second));
    }

    /** Giving an object back: on this thread, or by another that pushes it. */
    method Back(x: nat, here: bool)
      requires arena.Ready() && InHand(arena.LocalView(), x)
      modifies arena
      ensures arena.Ready() && LocalInv(old(arena.LocalView())) && InHand(old(arena.LocalView()), x)
      ensures LetGo(old(arena.LocalView()), x, here) == Went(arena.LocalView())
    {
      hide Core, IsOut, StackOk, FreeLocal, ArenaObject.Linked, Surrendered;
      ghost var l := arena.LocalView();
      LetGoSound(l, x, here);
      if here {
        var panics := arena.FreeLocal(x);
      } else {
        arena.RemoteFree(x);
      }
    }

    /** The way out of large_alloc when one of its two objects could not be had. */
    method GiveUp(node: nat, meta: nat)
      requires arena.Ready() && (node == 0 || meta == 0)
      requires (node != 0 ==> InHand(arena.LocalView(), node)) && (meta != 0 ==> InHand(arena.LocalView(), meta))
      modifies arena
      ensures arena.Ready() && LocalInv(old(arena.LocalView()))
      ensures (node != 0 ==> InHand(old(arena.LocalView()), node))
      ensures (meta != 0 ==> InHand(old(arena.LocalView()), meta))
      ensures arena.LocalView() == Undo(old(arena.LocalView()), node, meta)
    {
      hide LocalInv, InHand, FreeLocal, ArenaObject.Linked;
      if node != 0 {
        FreeHereIs(arena.LocalView(), node);
        Back(node, true);
      }
      if meta != 0 {
        FreeHereIs(arena.LocalView(), meta);
        Back(meta, true);
      }
    }

    /** The node of a new large allocation becomes the head of the debug list. */
    method LinkLarge(u: nat, l: Large)
      requires ListAt(links, head, NodesIn(large, order)) && u !in order && l.node != 0
      requires l.node !in NodesIn(large, order)
      modifies this
      ensures large == old(large)[u := l] && order == [u] + old(order) && ListAt(links, head, NodesIn(large, order))
    {
      hide NodesIn, Push;
      NodesPushed(large, order, u, l);
      PushList(links, head, NodesIn(large, order), l.node);
      links := Push(links, head, l.node);
      head := l.node;
      large := large[u := l];
      order := [u] + order;
    }

    /** large_alloc. */
    method AllocLarge(size: nat, alignment: nat, o: Offers) returns (x: nat)
      requires Valid() && alignment < WORD
      modifies this, arena
      ensures Valid() && LocalInv(old(View()).local) && shape.Plausible()
      ensures (View(), x) == LargeAlloc(old(View()), size, alignment, o)
    {
      hide SigmaInv, LocalInv, InHand, ArenaAlloc, LargeAlloc, NodesIn, ListAt, ArenaObject.Ready, Undo,
        AlignmentIsValid, LargeRefused, LargeUser, MappingBytes, Rejected, Accepts;
      ghost var s := View();
      InvShape(s);
      LargeAllocSound(s, size, alignment, o);
      if LargeRefused(shape, size, alignment) {
        LargeRefuses(s, size, alignment, o);
        return 0;
      }
      MappingBytesIff(shape, size, alignment);
      var m := Mapping(o.backing, MappingBytes(shape, size, alignment));
      if !Accepts(arena.sizes, arena.pools, MappingsOf(large) + fixed, m) {
        NotGranted(s, size, alignment, o);
        return 0;
      }
      LargePath(s, size, alignment, o);
      PointerAlignValid(shape.node);
      PointerAlignValid(shape.meta);
      var ms := MappingsOf(large) + fixed + {m};
      var node := Small(ms, shape.node, POINTER_ALIGN, o.first, o.second);
      var meta := Small(ms, shape.meta, POINTER_ALIGN, o.third, o.fourth);
      if node == 0 || meta == 0 {
        GiveUp(node, meta);
        return 0;
      }
      x := LargeUser(shape, m.lo, alignment);
      LinkLarge(x, Large(m.lo, m.bytes, node, meta, size, alignment));
    }

    /** large_free's unlinking of the node of `u` from the debug list. */
    method UnlinkLarge(u: nat)
      requires SigmaInv(View()) && ListAt(links, head, NodesIn(large, order)) && u in large
      modifies this
      ensures large == old(large) - {u} && order == Without(old(order), u) && ListAt(links, head, NodesIn(large, order))
    {
      hide NodesIn, SigmaInv, ListAt, Without, Unlinked, UnlinkedHead;
      NodeListed(View(), u);
      NodesWithout(View(), u);
      var node := large[u].node;
      UnlinkList(links, head, NodesIn(large, order), node);
      links, head := Unlinked(links, node), UnlinkedHead(links, head, node);
      large := large - {u};
      order := Without(order, u);
    }

    /** large_free: the list first, then the two objects, the node last. */
    method FreeLarge(x: nat, here: bool) returns (panics: bool)
      requires Valid() && x in large
      modifies this, arena
      ensures SigmaInv(old(View())) && x in old(View()).large
      ensures !panics && Valid() && LargeFree(old(View()), x, here) == Done(View())
    {
      hide SigmaInv, LocalInv, InHand, NodesIn, ListAt, ArenaObject.Ready, LetGo, Surrendered, Without;
      ghost var s := View();
      NodeStillOut(s, x, here);
      LargeFreeSound(s, x, here);
      var l := large[x];
      UnlinkLarge(x);
      Back(l.meta, here);
      Back(l.node, here);
      panics := false;
    }

    /** sigma_alloc: slabs, then pools, then a mapping of its own. */
    method Allocate(size: nat, alignment: nat, o: Offers) returns (x: nat)
      requires Valid() && size < WORD && alignment < WORD
      modifies this, arena
      ensures Valid() && LocalInv(old(View()).local) && shape.Plausible()
      ensures (View(), x) == SigmaAlloc(old(View()), size, alignment, o)
    {
      hide SigmaInv, LocalInv, NodesIn, ListAt, ArenaObject.Ready, ArenaAlloc, LargeAlloc, AllocBlock, AlignmentIsValid,
        Offer, HandedToUser;
      ghost var s := View();
      InvShape(s);
      SigmaAllocSound(s, size, alignment, o);
      if size == 0 || !AlignmentIsValid(alignment) {
        return 0;
      }
      if size <= MAX_SLAB_OBJ_SIZE && alignment <= SLAB_MAX_ALIGNMENT {
        x := Small(MappingsOf(large) + fixed, size, alignment, o.first, o.second);
        return;
      }
      if size <= BlockBytes(arena.sizes.root) && alignment <= BlockBytes(arena.sizes.root) {
        ValidPositive(alignment);
        BuddyAllocHands(s, size, alignment, o.first);
        x := Block(size, alignment, o.first);
        if x != 0 {
          return;
        }
        x := AllocLarge(size, alignment, AfterBlock(o));
        return;
      }
      x := AllocLarge(size, alignment, o);
    }

    lemma InvOf()
      requires Valid()
      ensures arena.Ready() && SigmaInv(View()) && LocalInv(View().local)
    {
      InvShape(View());
    }

    /** arena_alloc_buddy_region on the arena of this thread. */
    method Block(size: nat, alignment: nat, first: Option<nat>) returns (x: nat)
      requires Valid() && 0 < alignment < WORD && size < WORD
      modifies arena
      ensures ExtentsOk(old(arena.View())) && arena.Ready()
      ensures var (b, y) := AllocBlock(old(arena.View()), size, alignment, false,
                                       Offer(old(arena.View()), Mappings(old(View())), first));
              x == y && arena.LocalView() == old(arena.LocalView()).(arena := b)
    {
      hide SigmaInv, Core, IsOut, StackOk, NodesIn, ListAt, AllocBlock, ListsAt, Offer, MappingApart, GrantOk,
        Attempted, ExtentsOk, SigmaObject.Valid;
      ghost var s := View();
      InvOf();
      CoreShape(s.local.arena);
      var ms := MappingsOf(large) + fixed;
      OfferIs(s.local.arena, ms, first);
      var offer := if first.Some? && Acceptable(arena.sizes, arena.pools, first.value)
            && Fits(arena.sizes, ms, first.value)
                   then first else None;
      BlockAttempt(s.local, ms, size, alignment, first);
      AttemptInv(s.local, ms, s.local.(arena := AllocBlock(s.local.arena, size, alignment, false, offer).0),
                 AllocBlock(s.local.arena, size, alignment, false, offer).1);
      x := arena.AllocRegion(size, alignment, false, offer);
    }

    /** sigma_free, from this thread or another. */
    method Release(x: nat, here: bool) returns (panics: bool)
      requires Valid() && IsUser(View(), x)
      modifies this, arena
      ensures SigmaInv(old(View())) && IsUser(old(View()), x)
      ensures !panics && Valid() && SigmaFree(old(View()), x, here) == Done(View())
    {
      hide SigmaInv, LocalInv, InHand, NodesIn, ListAt, ArenaObject.Ready, LetGo, LargeFree, TakenBack;
      ghost var s := View();
      SigmaFreeSound(s, x, here);
      if x in large {
        panics := FreeLarge(x, here);
      } else {
        InvShape(s);
        Back(x, here);
        panics := false;
      }
    }

    /** sigma_realloc but for the copy, which Realloc accounts for: the new pointer
        exists before the old one is given back. */
    method Reallocate(x: nat, newSize: nat, alignment: nat, o: Offers) returns (panics: bool, p: nat)
      requires Valid() && newSize < WORD && alignment < WORD && (x != 0 ==> IsUser(View(), x))
      modifies this, arena
      ensures SigmaInv(old(View())) && (x != 0 ==> IsUser(old(View()), x))
      ensures !panics && Valid() && SigmaRealloc(old(View()), x, newSize, alignment, o) == Result(View(), p)
    {
      hide SigmaInv, LocalInv, IsUser, NodesIn, ListAt, ArenaObject.Ready, SigmaAlloc, SigmaFree, HandedToUser,
        TakenBack;
      panics, p := false, 0;
      if x == 0 {
        p := Allocate(newSize, alignment, o);
        return;
      }
      if newSize == 0 {
        panics := Release(x, true);
        return;
      }
      ReallocIs(View(), x, newSize, alignment, o);
      p := Allocate(newSize, alignment, o);
      if p != 0 {
        panics := Release(x, true);
      }
    }
  }

  /** large_alloc on values once it has its mapping. */
  lemma LargePath(s: Sigma, size: nat, alignment: nat, o: Offers)
    requires SigmaInv(s) && LocalInv(s.local) && s.shape.Plausible() && alignment < WORD
    requires !LargeRefused(s.shape, size, alignment)
    requires alignment > 0 && size + s.shape.header + alignment - 1 < WORD
    requires Granted(s, Mapping(o.backing, MappingBytes(s.shape, size, alignment)))
    ensures var m := Mapping(o.backing, MappingBytes(s.shape, size, alignment));
            var ms := Mappings(s) + {m};
            var (a, node) := ArenaAlloc(s.local, ms, s.shape.node, o.first, o.second);
            && LocalInv(a)
            && var (b, meta) := ArenaAlloc(a, ms, s.shape.meta, o.third, o.fourth);
               && LocalInv(b)
               && (if node == 0 || meta == 0 then
                     && (node != 0 ==> InHand(b, node)) && (meta != 0 ==> InHand(b, meta))
                     && LargeAlloc(s, size, alignment, o) == (s.(local := Undo(b, node, meta)), 0)
                   else
                     var u := LargeUser(s.shape, m.lo, alignment);
                     var l := Large(m.lo, m.bytes, node, meta, size, alignment);
                     && LargeAlloc(s, size, alignment, o) == (WithLarge(s, b, u, l), u)
                     && u !in s.order && node !in NodesIn(s.large, s.order))
  {
    hide SigmaInv, LocalInv, InHand, ArenaAlloc, NodesIn, Undo, LargeRefused, LargeUser, MappingBytes, Granted,
      Attempted, HandedToUser, Mappings;
    var m := Mapping(o.backing, MappingBytes(s.shape, size, alignment));
    var ms := Mappings(s) + {m};
    ArenaAllocSound(s.local, ms, s.shape.node, o.first, o.second);
    var (a, node) := ArenaAlloc(s.local, ms, s.shape.node, o.first, o.second);
    AttemptInv(s.local, ms, a, node);
    ArenaAllocSound(a, ms, s.shape.meta, o.third, o.fourth);
    var (b, meta) := ArenaAlloc(a, ms, s.shape.meta, o.third, o.fourth);
    AttemptInv(a, ms, b, meta);
    StaysInHand(a, ms, b, node, meta);
    if node != 0 && meta != 0 {
      NodeIsNew(s, a, ms, node);
      GrantedFits(s, m);
      LargePlaced(s.shape, m, size, alignment);
      UserIsNew(s, m, LargeUser(s.shape, m.lo, alignment), size) by { SizePositive(s.shape, size, alignment); }
    }
  }

  lemma SizePositive(shape: Shape, size: nat, alignment: nat)
    requires !LargeRefused(shape, size, alignment)
    ensures size > 0
  {
  }

  lemma GrantedFits(s: Sigma, m: Mapping)
    requires Granted(s, m)
    ensures m.lo > 0 && m.bytes > 0 && m.lo + m.bytes <= WORD
  {
  }

  lemma NodeIsNew(s: Sigma, b: Local, ms: set<Mapping>, node: nat)
    requires SigmaInv(s) && Attempted(s.local, ms, b, node) && node != 0
    ensures node !in NodesIn(s.large, s.order)
  {
    NodesDistinct(s);
    AttemptInv(s.local, ms, b, node);
    hide SigmaInv, NodesIn, InHand, Attempted;
    forall u <- s.large
      ensures s.large[u].node != node
    {
      LargeObjectsOut(s, u);
    }
  }

  lemma UserIsNew(s: Sigma, m: Mapping, u: nat, size: nat)
    requires SigmaInv(s) && Granted(s, m) && m.lo + s.shape.header <= u && size > 0 && u + size <= m.lo + m.bytes
    ensures u !in s.order
  {
    NewLargeIsFresh(s, u, Large(m.lo, m.bytes, 0, 0, size, 1));
    OrderListed(s);
    hide SigmaInv;
  }

  lemma NodeListed(s: Sigma, u: nat)
    requires SigmaInv(s) && u in s.large
    ensures s.large[u].node in NodesIn(s.large, s.order)
  {
    NodesDistinct(s);
    hide SigmaInv, NodesIn;
  }

  predicate Fits(sz: Sizes, ms: set<Mapping>, e: nat) {
    forall m <- ms :: MappingApart(m, sz, e)
  }

  lemma OfferIs(a: Arena, ms: set<Mapping>, g: Option<nat>)
    ensures Offer(a, ms, g) == if g.Some? && Acceptable(a.sizes, a.pools, g.value) && Fits(a.sizes, ms, g.value) then g
              else None
  {
    hide MappingApart, MappingsApart;
  }
}
