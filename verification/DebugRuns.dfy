/** What a debug build tells its ring of freed pointers during the calls of users: every
    pointer that leaves arena_alloc or sigma_alloc is forgotten, every one that enters
    sigma_free is checked and recorded, bookkeeping objects included. */
module DebugRuns {
  import opened Words
  import opened BuddyLayout
  import opened SlabLayout
  import opened Arena
  import opened ArenaOps
  import opened ArenaBlocks
  import opened ArenaTheorems
  import opened ArenaCalls
  import FreedRing
  import opened Sigma
  import opened SigmaTheorems
  import opened SigmaFrees
  import opened Realloc
  import opened SigmaRuns

  type Event = FreedRing.Event
  type State = FreedRing.State

  // ------------------------------------------------------------- events

  function ArenaEvents(x: nat): seq<Event> {
    if x == 0 then [] else [FreedRing.Out(x)]
  }

  /** large_alloc asks for two objects, and frees the one it got if it got only one. */
  function LargeAllocEvents(s: Sigma, size: nat, alignment: nat, o: Offers): seq<Event>
    requires LocalInv(s.local) && s.shape.Plausible() && alignment < WORD
  {
    if LargeRefused(s.shape, size, alignment) then []
    else
      var m := Mapping(o.backing, MappingBytes(s.shape, size, alignment));
      if !Granted(s, m) then []
      else
        var ms := Mappings(s) + {m};
        var (k, node) := ArenaAlloc(s.local, ms, s.shape.node, o.first, o.second);
        ArenaAllocSound(s.local, ms, s.shape.node, o.first, o.second);
        AttemptInv(s.local, ms, k, node);
        var (j, meta) := ArenaAlloc(k, ms, s.shape.meta, o.third, o.fourth);
        ObjectEvents(node, meta) + if node == 0 || meta == 0 then []
          else [FreedRing.Out(LargeUser(s.shape, m.lo, alignment))]
  }

  function ObjectEvents(node: nat, meta: nat): seq<Event> {
    if node != 0 && meta != 0 then [FreedRing.Out(node), FreedRing.Out(meta)]
    else if node != 0 then [FreedRing.Out(node), FreedRing.In(node)]
    else if meta != 0 then [FreedRing.Out(meta), FreedRing.In(meta)]
    else []
  }

  /** finish_alloc forgets once more what arena_alloc has forgotten: no further event. */
  function AllocEvents(s: Sigma, size: nat, alignment: nat, o: Offers): seq<Event>
    requires LocalInv(s.local) && s.shape.Plausible() && size < WORD && alignment < WORD
  {
    var root := s.local.arena.sizes.root;
    if size == 0 || !AlignmentIsValid(alignment) then []
    else if size <= MAX_SLAB_OBJ_SIZE && alignment <= SLAB_MAX_ALIGNMENT then
      ArenaEvents(ArenaAlloc(s.local, Mappings(s), size, o.first, o.second).1)
    else if size <= BlockBytes(root) && alignment <= BlockBytes(root) then
      var (a, x) := AllocBlock(s.local.arena, size, alignment, false, Offer(s.local.arena, Mappings(s), o.first));
      BlockAttempt(s.local, Mappings(s), size, alignment, o.first);
      if x != 0 then [FreedRing.Out(x)]
      else LargeAllocEvents(s.(local := s.local.(arena := a)), size, alignment, AfterBlock(o))
    else LargeAllocEvents(s, size, alignment, o)
  }

  /** sigma_free records the pointer, and large_free passes its two objects to it. */
  function FreeEvents(s: Sigma, x: nat): seq<Event> {
    if x in s.large then [FreedRing.In(x), FreedRing.In(s.large[x].meta), FreedRing.In(s.large[x].node)]
    else [FreedRing.In(x)]
  }

  function CallEvents(s: Sigma, c: Call): seq<Event>
    requires SigmaInv(s) && Legal(s, c)
  {
    InvShape(s);
    match c
    case Malloc(size, alignment, o) => AllocEvents(s, size, alignment, o)
    case Release(x, _) => if x == 0 then [] else FreeEvents(s, x)
    case Resize(x, size, alignment, o) =>
      if x == 0 then AllocEvents(s, size, alignment, o)
      else if size == 0 then FreeEvents(s, x)
      else
        var (t, p) := SigmaAlloc(s, size, alignment, o);
        AllocEvents(s, size, alignment, o) + if p == 0 then [] else FreeEvents(t, x)
  }

  ghost function RunEvents(s: Sigma, calls: seq<Call>): seq<Event>
    requires SigmaInv(s) && IsRun(s, calls)
    decreases |calls|
  {
    if calls == [] then []
    else
      CallSound(s, calls[0]);
      CallEvents(s, calls[0]) + RunEvents(Perform(s, calls[0]).sigma, calls[1..])
  }

  // ------------------------------------------------------------- what lives

  function Hands(l: Local): set<nat> {
    Out(l.arena) - Elems(l.stack)
  }

  /** Handed out and not yet passed to sigma_free. */
  function Live(s: Sigma): set<nat> {
    s.large.Keys + Hands(s.local)
  }

  lemma HandsAre(l: Local)
    ensures forall x: nat :: x in Hands(l) <==> InHand(l, x)
  {
    OutHasHeader(l.arena);
    hide IsOut;
  }

  /** That is what users hold and the bookkeeping objects. */
  lemma LiveIs(s: Sigma)
    requires SigmaInv(s)
    ensures Live(s) == Users(s) + Infra(s)
  {
    InfraAllOut(s);
    HandsAre(s.local);
    UsersAre(s);
    hide SigmaInv, InHand, Infra, Users, Hands;
  }

  /** From `d` the events are possible one after another, and `live` is left. */
  ghost predicate Follows(d: State, events: seq<Event>, live: set<nat>) {
    d.ring.next < |d.ring.entries| && FreedRing.IsRun(d, events) && FreedRing.AfterAll(d, events).live == live
  }

  lemma {:induction false} FollowsThen(d: State, a: seq<Event>, mid: set<nat>, b: seq<Event>, live: set<nat>)
    requires Follows(d, a, mid) && Follows(FreedRing.AfterAll(d, a), b, live)
    ensures Follows(d, a + b, live) && FreedRing.AfterAll(d, a + b) == FreedRing.AfterAll(FreedRing.AfterAll(d, a), b)
    decreases |a|
  {
    hide FreedRing.Possible, FreedRing.After;
    if a == [] {
      assert a + b == b;
    } else {
      AfterKeepsSize(d, a[0]);
      FollowsThen(FreedRing.After(d, a[0]), a[1..], mid, b, live);
      assert (a + b)[0] == a[0] && (a + b)[1..] == a[1..] + b;
    }
  }

  lemma AfterKeepsSize(d: State, e: Event)
    requires d.ring.next < |d.ring.entries|
    ensures FreedRing.After(d, e).ring.next < |FreedRing.After(d, e).ring.entries|
  {
  }

  lemma OneOut(d: State, x: nat)
    requires d.ring.next < |d.ring.entries| && x != 0 && x !in d.live
    ensures Follows(d, [FreedRing.Out(x)], d.live + {x})
  {
  }

  lemma OneIn(d: State, x: nat)
    requires d.ring.next < |d.ring.entries| && x in d.live
    ensures Follows(d, [FreedRing.In(x)], d.live - {x})
  {
  }

  lemma Nothing(d: State)
    requires d.ring.next < |d.ring.entries|
    ensures Follows(d, [], d.live)
  {
  }

  // -------------------------------------------------------------- calls

  lemma AttemptLive(l: Local, ms: set<Mapping>, k: Local, x: nat)
    requires Attempted(l, ms, k, x)
    ensures Hands(k) == Hands(l) + (if x == 0 then {} else {x}) && (x != 0 ==> x !in Hands(l))
  {
    HandsAre(l);
    HandsAre(k);
    hide InHand, LocalInv, Hands;
  }

  lemma SurrenderLive(l: Local, k: Local, x: nat)
    requires Surrendered(l, k, x)
    ensures Hands(k) == Hands(l) - {x}
  {
    HandsAre(l);
    HandsAre(k);
    hide InHand, LocalInv, Hands;
  }

  /** Nothing an arena hands out is the address of a large allocation. */
  lemma HandsNotLarge(s: Sigma, k: Local)
    requires SigmaInv(s) && LocalInv(k) && ExtentsApart(k.arena, Mappings(s))
    ensures s.large.Keys !! Hands(k) && 0 !in Hands(k)
  {
    HandsAre(k);
    hide Core, StackOk, IsOut, IsObject, FixedApart, Hands;
    forall u <- s.large
      ensures !IsOut(k.arena, u)
    {
      assert LargeOk(s, u);
      MappingNotOut(k.arena, Mapping(s.large[u].lo, s.large[u].bytes), u);
    }
    if IsOut(k.arena, 0) {
      OutPositive(k.arena, 0);
    }
  }

  lemma AttemptFollows(s: Sigma, ms: set<Mapping>, k: Local, x: nat, d: State)
    requires SigmaInv(s) && Attempted(s.local, ms, k, x) && Mappings(s) <= ms && ExtentsApart(s.local.arena, ms)
    requires d.ring.next < |d.ring.entries| && d.live == Live(s)
    ensures Follows(d, ArenaEvents(x), Live(s.(local := k)))
  {
    hide SigmaInv, Attempted, Hands, Mappings, Follows, ExtentsApart;
    AttemptInv(s.local, ms, k, x);
    FewerMappingsApart(k.arena, Mappings(s), ms);
    AttemptLive(s.local, ms, k, x);
    HandsNotLarge(s, k);
    if x == 0 {
      Nothing(d);
      assert Live(s.(local := k)) == Live(s);
    } else {
      OneOut(d, x);
      assert Live(s.(local := k)) == Live(s) + {x};
    }
  }

  lemma ObjectsFollow(d: State, node: nat, meta: nat)
    requires d.ring.next < |d.ring.entries| && (node != 0 ==> node !in d.live)
    requires (meta != 0 ==> meta !in d.live && meta != node)
    ensures Follows(d, ObjectEvents(node, meta), d.live + if node != 0 && meta != 0 then {node, meta} else {})
  {
    hide Follows;
    if node != 0 && meta != 0 {
      TwoOut(d, node, meta);
    } else if node != 0 {
      OutAndIn(d, node);
    } else if meta != 0 {
      OutAndIn(d, meta);
    } else {
      Nothing(d);
      assert d.live + {} == d.live;
    }
  }

  lemma TwoOut(d: State, x: nat, y: nat)
    requires d.ring.next < |d.ring.entries| && x != 0 && x !in d.live && y != 0 && y !in d.live && x != y
    ensures Follows(d, [FreedRing.Out(x), FreedRing.Out(y)], d.live + {x, y})
  {
    var e := FreedRing.After(d, FreedRing.Out(x));
    OneOut(d, x);
    OneOut(e, y);
    FollowsThen(d, [FreedRing.Out(x)], d.live + {x}, [FreedRing.Out(y)], d.live + {x} + {y});
    assert [FreedRing.Out(x)] + [FreedRing.Out(y)] == [FreedRing.Out(x), FreedRing.Out(y)];
    assert d.live + {x} + {y} == d.live + {x, y};
  }

  lemma OutAndIn(d: State, x: nat)
    requires d.ring.next < |d.ring.entries| && x != 0 && x !in d.live
    ensures Follows(d, [FreedRing.Out(x), FreedRing.In(x)], d.live + {})
  {
    var e := FreedRing.After(d, FreedRing.Out(x));
    OneOut(d, x);
    OneIn(e, x);
    FollowsThen(d, [FreedRing.Out(x)], d.live + {x}, [FreedRing.In(x)], d.live + {x} - {x});
    assert [FreedRing.Out(x)] + [FreedRing.In(x)] == [FreedRing.Out(x), FreedRing.In(x)];
    assert d.live + {x} - {x} == d.live + {};
  }

  lemma ThreeIn(d: State, x: nat, y: nat, z: nat)
    requires d.ring.next < |d.ring.entries| && x in d.live && y in d.live && z in d.live && x != y && x != z && y != z
    ensures Follows(d, [FreedRing.In(x), FreedRing.In(y), FreedRing.In(z)], d.live - {x, y, z})
  {
    var e := FreedRing.After(d, FreedRing.In(x));
    var f := FreedRing.After(e, FreedRing.In(y));
    OneIn(d, x);
    OneIn(e, y);
    OneIn(f, z);
    FollowsThen(d, [FreedRing.In(x)], d.live - {x}, [FreedRing.In(y)], d.live - {x} - {y});
    assert [FreedRing.In(x)] + [FreedRing.In(y)] == [FreedRing.In(x), FreedRing.In(y)];
    FollowsThen(d, [FreedRing.In(x), FreedRing.In(y)], d.live - {x} - {y}, [FreedRing.In(z)], d.live - {x} - {y} - {z});
    assert [FreedRing.In(x), FreedRing.In(y)] + [FreedRing.In(z)]
             == [FreedRing.In(x), FreedRing.In(y), FreedRing.In(z)];
    assert d.live - {x} - {y} - {z} == d.live - {x, y, z};
  }

  lemma LargeFailsFollow(s: Sigma, ms: set<Mapping>, k: Local, j: Local, node: nat, meta: nat, d: State)
    requires SigmaInv(s) && Mappings(s) <= ms && ExtentsApart(s.local.arena, ms)
    requires Attempted(s.local, ms, k, node) && Attempted(k, ms, j, meta) && (node == 0 || meta == 0)
    requires d.ring.next < |d.ring.entries| && d.live == Live(s)
    ensures LocalInv(j) && (node != 0 ==> InHand(j, node)) && (meta != 0 ==> InHand(j, meta))
    ensures Follows(d, ObjectEvents(node, meta), Live(s.(local := Undo(j, node, meta))))
  {
    hide SigmaInv, LocalInv, InHand, Attempted, Hands, Mappings, Follows, ExtentsApart, Undo, ObjectEvents;
    InvShape(s);
    AttemptInv(s.local, ms, k, node);
    AttemptInv(k, ms, j, meta);
    StaysInHand(k, ms, j, node, meta);
    UndoSound(s.local, ms, k, j, node, meta);
    AttemptLive(s.local, ms, Undo(j, node, meta), 0);
    ObjectsAreNew(s, ms, k, j, node, meta);
    ObjectsFollow(d, node, meta);
    assert Live(s.(local := Undo(j, node, meta))) == Live(s) + {};
  }

  lemma ObjectsAreNew(s: Sigma, ms: set<Mapping>, k: Local, j: Local, node: nat, meta: nat)
    requires SigmaInv(s) && Mappings(s) <= ms && ExtentsApart(s.local.arena, ms)
    requires Attempted(s.local, ms, k, node) && Attempted(k, ms, j, meta)
    ensures (node != 0 ==> node !in Live(s)) && (meta != 0 ==> meta !in Live(s) && meta != node)
    ensures Hands(j) == Hands(s.local) + (if node == 0 then {} else {node}) + (if meta == 0 then {} else {meta})
    ensures s.large.Keys !! Hands(j) && 0 !in Hands(j)
  {
    hide SigmaInv, LocalInv, InHand, Attempted, Hands, Mappings, ExtentsApart;
    AttemptInv(s.local, ms, k, node);
    AttemptInv(k, ms, j, meta);
    AttemptLive(s.local, ms, k, node);
    AttemptLive(k, ms, j, meta);
    FewerMappingsApart(j.arena, Mappings(s), ms);
    HandsNotLarge(s, j);
  }

  lemma LargeSucceedsFollow(s: Sigma, m: Mapping, k: Local, j: Local, node: nat, meta: nat, u: nat, l: Large, d: State)
    requires SigmaInv(s) && ExtentsApart(s.local.arena, Mappings(s) + {m}) && Granted(s, m)
    requires Attempted(s.local, Mappings(s) + {m}, k, node) && Attempted(k, Mappings(s) + {m}, j, meta) && node != 0
    requires meta != 0
    requires m.lo + s.shape.header <= u < m.lo + m.bytes
    requires d.ring.next < |d.ring.entries| && d.live == Live(s)
    ensures Follows(d, ObjectEvents(node, meta) + [FreedRing.Out(u)], Live(WithLarge(s, j, u, l)))
  {
    hide SigmaInv, LocalInv, InHand, Attempted, Hands, Mappings, Follows, ExtentsApart, Granted;
    var ms := Mappings(s) + {m};
    ObjectsAreNew(s, ms, k, j, node, meta);
    ObjectsFollow(d, node, meta);
    FollowsSize(d, ObjectEvents(node, meta), d.live + {node, meta});
    UserNotLive(s, m, k, j, node, meta, u);
    OneOut(FreedRing.AfterAll(d, ObjectEvents(node, meta)), u);
    FollowsThen(d, ObjectEvents(node, meta), d.live + {node, meta}, [FreedRing.Out(u)], d.live + {node, meta} + {u});
    assert Live(WithLarge(s, j, u, l)) == d.live + {node, meta} + {u};
  }

  lemma FollowsSize(d: State, events: seq<Event>, live: set<nat>)
    requires Follows(d, events, live)
    ensures d.ring.next < |d.ring.entries| && FreedRing.AfterAll(d, events).live == live
    ensures FreedRing.AfterAll(d, events).ring.next < |FreedRing.AfterAll(d, events).ring.entries|
  {
  }

  /** The user address of a new mapping is not handed out already. */
  lemma UserNotLive(s: Sigma, m: Mapping, k: Local, j: Local, node: nat, meta: nat, u: nat)
    requires SigmaInv(s) && ExtentsApart(s.local.arena, Mappings(s) + {m}) && Granted(s, m)
    requires Attempted(s.local, Mappings(s) + {m}, k, node) && Attempted(k, Mappings(s) + {m}, j, meta)
    requires m.lo + s.shape.header <= u < m.lo + m.bytes
    ensures u !in s.large && u !in Hands(j) && u != 0
  {
    hide SigmaInv, InHand, Attempted, Hands, Granted, Core, StackOk, IsOut;
    NewLargeIsFresh(s, u, Large(m.lo, m.bytes, 0, 0, 1, 1));
    AttemptInv(s.local, Mappings(s) + {m}, k, node);
    AttemptInv(k, Mappings(s) + {m}, j, meta);
    MappingNotInHands(j, Mappings(s) + {m}, m, u);
  }

  lemma MappingNotInHands(l: Local, ms: set<Mapping>, m: Mapping, u: nat)
    requires LocalInv(l) && ExtentsApart(l.arena, ms) && m in ms && m.lo <= u < m.lo + m.bytes
    ensures u !in Hands(l)
  {
    hide Core, StackOk, IsOut, MappingApart;
    HandsAre(l);
    MappingNotOut(l.arena, m, u);
  }

  lemma LargeAllocFollows(s: Sigma, size: nat, alignment: nat, o: Offers, d: State)
    requires SigmaInv(s) && alignment < WORD && d.ring.next < |d.ring.entries| && d.live == Live(s)
    ensures LocalInv(s.local) && s.shape.Plausible()
    ensures Follows(d, LargeAllocEvents(s, size, alignment, o), Live(LargeAlloc(s, size, alignment, o).0))
  {
    hide SigmaInv, LocalInv, InHand, Attempted, Granted, LargeRefused, LargeUser, MappingBytes, ArenaAlloc, Undo,
      Follows, Live, Mappings, ObjectEvents, ExtentsApart;
    InvShape(s);
    Nothing(d);
    if LargeRefused(s.shape, size, alignment) {
      return;
    }
    MappingBytesIff(s.shape, size, alignment);
    var m := Mapping(o.backing, MappingBytes(s.shape, size, alignment));
    if Granted(s, m) {
      BackedFollows(s, m, size, alignment, o, d);
    }
  }

  lemma BackedFollows(s: Sigma, m: Mapping, size: nat, alignment: nat, o: Offers, d: State)
    requires SigmaInv(s) && alignment < WORD && d.ring.next < |d.ring.entries| && d.live == Live(s)
    requires !LargeRefused(s.shape, size, alignment) && alignment > 0 && size + s.shape.header + alignment - 1 < WORD
    requires m == Mapping(o.backing, MappingBytes(s.shape, size, alignment)) && Granted(s, m)
    ensures LocalInv(s.local) && s.shape.Plausible()
    ensures Follows(d, LargeAllocEvents(s, size, alignment, o), Live(LargeAlloc(s, size, alignment, o).0))
  {
    hide SigmaInv, LocalInv, InHand, Attempted, Granted, LargeRefused, LargeUser, MappingBytes, ArenaAlloc, Undo,
      Follows, Live, Mappings, ObjectEvents, ExtentsApart;
    InvShape(s);
    GrantedExtends(s, m);
    var ms := Mappings(s) + {m};
    ArenaAllocSound(s.local, ms, s.shape.node, o.first, o.second);
    var (k, node) := ArenaAlloc(s.local, ms, s.shape.node, o.first, o.second);
    AttemptInv(s.local, ms, k, node);
    ArenaAllocSound(k, ms, s.shape.meta, o.third, o.fourth);
    var (j, meta) := ArenaAlloc(k, ms, s.shape.meta, o.third, o.fourth);
    if node == 0 || meta == 0 {
      LargeFailsFollow(s, ms, k, j, node, meta, d);
      assert ObjectEvents(node, meta) + [] == ObjectEvents(node, meta);
    } else {
      RoomForUser(s, m, size, alignment);
      var u := LargeUser(s.shape, m.lo, alignment);
      LargeSucceedsFollow(s, m, k, j, node, meta, u, Large(m.lo, m.bytes, node, meta, size, alignment), d);
    }
  }

  lemma RoomForUser(s: Sigma, m: Mapping, size: nat, alignment: nat)
    requires s.shape.Plausible() && alignment < WORD && !LargeRefused(s.shape, size, alignment) && alignment > 0
    requires m.bytes == MappingBytes(s.shape, size, alignment) && Granted(s, m)
    ensures m.lo + s.shape.header <= LargeUser(s.shape, m.lo, alignment) < m.lo + m.bytes
  {
    hide LargeUser, MappingBytes, AlignmentIsValid, Mappings;
    LargePlaced(s.shape, m, size, alignment);
  }

  lemma AllocFollows(s: Sigma, size: nat, alignment: nat, o: Offers, d: State)
    requires SigmaInv(s) && size < WORD && alignment < WORD && d.ring.next < |d.ring.entries| && d.live == Live(s)
    ensures LocalInv(s.local) && s.shape.Plausible()
    ensures Follows(d, AllocEvents(s, size, alignment, o), Live(SigmaAlloc(s, size, alignment, o).0))
  {
    hide SigmaInv, LocalInv, Attempted, ArenaAlloc, AllocBlock, LargeAlloc, LargeAllocEvents, Offer, AlignmentIsValid,
      BlockBytes, Follows, Live, Mappings, HandedToUser;
    InvShape(s);
    Nothing(d);
    var root := s.local.arena.sizes.root;
    if size == 0 || !AlignmentIsValid(alignment) {
      return;
    }
    if size <= MAX_SLAB_OBJ_SIZE && alignment <= SLAB_MAX_ALIGNMENT {
      ArenaAllocSound(s.local, Mappings(s), size, o.first, o.second);
      OwnMappings(s);
      var (k, x) := ArenaAlloc(s.local, Mappings(s), size, o.first, o.second);
      AttemptFollows(s, Mappings(s), k, x, d);
    } else if size <= BlockBytes(root) && alignment <= BlockBytes(root) {
      BlockFollows(s, size, alignment, o, d);
    } else {
      LargeAllocFollows(s, size, alignment, o, d);
    }
  }

  lemma OwnMappings(s: Sigma)
    requires SigmaInv(s)
    ensures ExtentsApart(s.local.arena, Mappings(s))
  {
  }

  lemma BlockFollows(s: Sigma, size: nat, alignment: nat, o: Offers, d: State)
    requires SigmaInv(s) && size < WORD && alignment < WORD && d.ring.next < |d.ring.entries| && d.live == Live(s)
    requires size > 0 && AlignmentIsValid(alignment) && (size > MAX_SLAB_OBJ_SIZE || alignment > SLAB_MAX_ALIGNMENT)
    requires size <= BlockBytes(s.local.arena.sizes.root) && alignment <= BlockBytes(s.local.arena.sizes.root)
    ensures LocalInv(s.local) && s.shape.Plausible()
    ensures Follows(d, AllocEvents(s, size, alignment, o), Live(SigmaAlloc(s, size, alignment, o).0))
  {
    hide SigmaInv, LocalInv, Attempted, AllocBlock, LargeAlloc, LargeAllocEvents, Offer, AlignmentIsValid, BlockBytes,
      Follows, Live, Mappings, HandedToUser;
    InvShape(s);
    OwnMappings(s);
    ValidPositive(alignment);
    BlockAttempt(s.local, Mappings(s), size, alignment, o.first);
    BuddyAllocHands(s, size, alignment, o.first);
    var (a, x) := AllocBlock(s.local.arena, size, alignment, false, Offer(s.local.arena, Mappings(s), o.first));
    var t := s.(local := s.local.(arena := a));
    AttemptFollows(s, Mappings(s), t.local, x, d);
    if x == 0 {
      FollowsSize(d, [], Live(t));
      LargeAllocFollows(t, size, alignment, AfterBlock(o), d);
    }
  }

  lemma FreeFollows(s: Sigma, x: nat, here: bool, d: State)
    requires SigmaInv(s) && IsUser(s, x) && d.ring.next < |d.ring.entries| && d.live == Live(s)
    ensures SigmaFree(s, x, here).Done? && Follows(d, FreeEvents(s, x), Live(SigmaFree(s, x, here).sigma))
  {
    hide SigmaInv, InHand, LocalInv, Hands, Follows, Surrendered, LetGo, TakenBack;
    SigmaFreeSound(s, x, here);
    InvShape(s);
    OwnMappings(s);
    HandsNotLarge(s, s.local);
    if x in s.large {
      LargeFreeFollows(s, x, here, d);
    } else {
      LetGoSound(s.local, x, here);
      SurrenderLive(s.local, LetGo(s.local, x, here).local, x);
      HandsAre(s.local);
      OneIn(d, x);
      assert Live(s.(local := LetGo(s.local, x, here).local)) == Live(s) - {x};
    }
  }

  lemma LargeFreeFollows(s: Sigma, x: nat, here: bool, d: State)
    requires SigmaInv(s) && x in s.large && d.ring.next < |d.ring.entries| && d.live == Live(s)
    ensures LargeFree(s, x, here).Done? && Follows(d, FreeEvents(s, x), Live(LargeFree(s, x, here).sigma))
  {
    hide SigmaInv, InHand, LocalInv, Hands, Follows, Surrendered, LetGo, TakenBack, Without;
    OwnMappings(s);
    InvShape(s);
    HandsNotLarge(s, s.local);
    LargeFreeSound(s, x, here);
    NodeStillOut(s, x, here);
    LargeObjectsOut(s, x);
    HandsAre(s.local);
    var l := s.large[x];
    var k := LetGo(s.local, l.meta, here).local;
    var j := LetGo(k, l.node, here).local;
    SurrenderLive(s.local, k, l.meta);
    SurrenderLive(k, j, l.node);
    ThreeIn(d, x, l.meta, l.node);
    assert (s.large - {x}).Keys == s.large.Keys - {x};
    assert Live(WithoutLarge(s, j, x)) == d.live - {x, l.meta, l.node};
  }

  // --------------------------------------------------------------- runs

  /** The events of one call are possible, and keep account of what lives. */
  lemma CallFollows(s: Sigma, c: Call, d: State)
    requires SigmaInv(s) && Legal(s, c) && d.ring.next < |d.ring.entries| && d.live == Live(s)
    ensures Perform(s, c).Returned? && Follows(d, CallEvents(s, c), Live(Perform(s, c).sigma))
  {
    hide SigmaInv, LocalInv, IsUser, SigmaAlloc, SigmaFree, AllocEvents, FreeEvents, Follows, Live, HandedToUser,
      TakenBack;
    InvShape(s);
    CallSound(s, c);
    Nothing(d);
    match c
    case Malloc(size, alignment, o) => AllocFollows(s, size, alignment, o, d);
    case Release(x, here) =>
      if x != 0 {
        FreeFollows(s, x, here, d);
      }
    case Resize(x, size, alignment, o) =>
      if x == 0 {
        AllocFollows(s, size, alignment, o, d);
      } else if size == 0 {
        FreeFollows(s, x, true, d);
      } else {
        ResizeFollows(s, x, size, alignment, o, d);
      }
  }

  lemma ResizeFollows(s: Sigma, x: nat, size: nat, alignment: nat, o: Offers, d: State)
    requires SigmaInv(s) && 0 < size < WORD && alignment < WORD && x != 0 && IsUser(s, x)
    requires d.ring.next < |d.ring.entries| && d.live == Live(s)
    ensures var r := SigmaRealloc(s, x, size, alignment, o);
            r.Result? && Follows(d, CallEvents(s, Resize(x, size, alignment, o)), Live(r.sigma))
  {
    hide SigmaInv, LocalInv, IsUser, SigmaAlloc, SigmaFree, SigmaRealloc, AllocEvents, FreeEvents, Follows, Live,
      HandedToUser, TakenBack;
    ReallocIs(s, x, size, alignment, o);
    var (t, p) := SigmaAlloc(s, size, alignment, o);
    AllocFollows(s, size, alignment, o, d);
    var events := AllocEvents(s, size, alignment, o);
    if p == 0 {
      assert events + [] == events;
    } else {
      FollowsSize(d, events, Live(t));
      FreeFollows(t, x, true, FreedRing.AfterAll(d, events));
      FollowsThen(d, events, Live(t), FreeEvents(t, x), Live(SigmaFree(t, x, true).sigma));
    }
  }

  lemma {:induction false} RunFollows(s: Sigma, calls: seq<Call>, d: State)
    requires SigmaInv(s) && IsRun(s, calls) && d.ring.next < |d.ring.entries| && d.live == Live(s)
    ensures Follows(d, RunEvents(s, calls), Live(AfterRun(s, calls)))
    decreases |calls|
  {
    hide SigmaInv, Perform, CallEvents, Legal, Live, Follows;
    if calls == [] {
      Nothing(d);
    } else {
      CallSound(s, calls[0]);
      CallFollows(s, calls[0], d);
      var events, t := CallEvents(s, calls[0]), Perform(s, calls[0]).sigma;
      FollowsSize(d, events, Live(t));
      RunFollows(t, calls[1..], FreedRing.AfterAll(d, events));
      FollowsThen(d, events, Live(t), RunEvents(t, calls[1..]), Live(AfterRun(t, calls[1..])));
    }
  }

  /** The check that sigma_free makes first passes at every free among the events. */
  ghost predicate ChecksPass(d: State, events: seq<Event>)
    requires d.ring.next < |d.ring.entries|
    decreases |events|
  {
    events == []
    || ((events[0].In? ==> !FreedRing.IsDoubleFree(d.ring, events[0].p))
        && ChecksPass(FreedRing.After(d, events[0]), events[1..]))
  }

  lemma {:induction false} PossibleIsClean(d: State, events: seq<Event>)
    requires FreedRing.Inv(d) && FreedRing.IsRun(d, events)
    ensures ChecksPass(d, events) && FreedRing.Inv(FreedRing.AfterAll(d, events))
    decreases |events|
  {
    if events != [] {
      FreedRing.StepKeeps(d, events[0]);
      PossibleIsClean(FreedRing.After(d, events[0]), events[1..]);
    }
  }

  /** No legal call panics in a debug build: over every run every check for a double free
      passes, those for bookkeeping objects included, and what the ring takes for live
      are the pointers users hold and the bookkeeping objects. */
  lemma LegalFreesPass(s: Sigma, calls: seq<Call>, d: State)
    requires SigmaInv(s) && IsRun(s, calls) && FreedRing.Inv(d) && d.live == Users(s) + Infra(s)
    ensures var t, e := AfterRun(s, calls), FreedRing.AfterAll(d, RunEvents(s, calls));
            && ChecksPass(d, RunEvents(s, calls)) && FreedRing.Inv(e) && e.live == Users(t) + Infra(t)
            && forall x: nat :: IsUser(t, x) ==> !FreedRing.IsDoubleFree(e.ring, x)
  {
    hide SigmaInv, Users, Infra, Live, IsUser, Perform, FreedRing.IsRun, ChecksPass;
    LiveIs(s);
    RunFollows(s, calls, d);
    var t := AfterRun(s, calls);
    LiveIs(t);
    UsersAre(t);
    PossibleIsClean(d, RunEvents(s, calls));
    FreedRing.NoFalseAlarm(d, RunEvents(s, calls));
  }

  /** The ring as the program starts. */
  function EmptyRing(): State {
    FreedRing.State(FreedRing.Ring(seq(FreedRing.FREED_RECORDS, _ => 0), 0), {})
  }

  /** From the start of a program on, with an empty ring, no check ever stops a legal free. */
  lemma StartLegal(sz: Sizes, shape: Shape, fixed: set<Mapping>, e: nat, calls: seq<Call>)
    requires sz.Plausible() && shape.Plausible() && sz.meta < e && e + BlockBytes(sz.root) <= WORD
    requires forall m <- fixed :: MappingApart(m, sz, e)
    requires (StartSound(sz, shape, fixed, e); IsRun(Start(sz, shape, fixed, e), calls))
    ensures (StartSound(sz, shape, fixed, e); ChecksPass(EmptyRing(), RunEvents(Start(sz, shape, fixed, e), calls)))
  {
    hide SigmaInv, Users, ArenaCreate, Perform, ChecksPass, RunEvents, MappingApart;
    StartSound(sz, shape, fixed, e);
    LegalFreesPass(Start(sz, shape, fixed, e), calls, EmptyRing());
  }

  /** What the ring hears between a free of `x` and the end of the calls that follow it. */
  ghost function Since(s: Sigma, x: nat, t: Sigma, calls: seq<Call>): seq<Event>
    requires SigmaInv(t) && IsRun(t, calls)
  {
    FreeEvents(s, x)[1..] + RunEvents(t, calls)
  }

  /** A second free of `x` panics once the ring has heard `later` after the first. */
  ghost predicate SecondFreePanics(d: State, x: nat, later: seq<Event>)
    requires FreedRing.Inv(d)
  {
    FreedRing.IsDoubleFree(FreedRing.AfterAll(FreedRing.After(d, FreedRing.In(x)), later).ring, x)
  }

  /** Freeing `x` a second time, after any legal calls that have not handed it out again,
      panics exactly if fewer than 8192 frees were recorded since, of users' pointers and
      bookkeeping objects together. */
  lemma SecondFreeCaughtIff(s: Sigma, x: nat, here: bool, t: Sigma, calls: seq<Call>, d: State)
    requires SigmaInv(s) && IsUser(s, x) && FreedRing.Inv(d) && d.live == Users(s) + Infra(s)
    requires |d.ring.entries| == FreedRing.FREED_RECORDS
    requires SigmaFree(s, x, here) == Done(t) && SigmaInv(t) && IsRun(t, calls)
    requires !FreedRing.HandedOutIn(RunEvents(t, calls), x)
    ensures SecondFreePanics(d, x, Since(s, x, t, calls))
            <==> FreedRing.Frees(Since(s, x, t, calls)) < 8192
  {
    hide SigmaInv, Users, Infra, Live, IsUser, SigmaFree, Perform, FreedRing.IsDoubleFree, FreedRing.Frees, RunEvents,
      IsRun;
    LiveIs(s);
    UsersAre(s);
    FreeFollows(s, x, here, d);
    FollowsSize(d, FreeEvents(s, x), Live(t));
    RunFollows(t, calls, FreedRing.AfterAll(d, FreeEvents(s, x)));
    FollowsThen(d, FreeEvents(s, x), Live(t), RunEvents(t, calls), Live(AfterRun(t, calls)));
    assert (FreeEvents(s, x) + RunEvents(t, calls))[1..] == Since(s, x, t, calls);
    NotHandedOutLater(s, x, RunEvents(t, calls));
    FreedRing.DoubleFreeCaughtIff(d, x, Since(s, x, t, calls));
  }

  lemma NotHandedOutLater(s: Sigma, x: nat, events: seq<Event>)
    requires !FreedRing.HandedOutIn(events, x)
    ensures !FreedRing.HandedOutIn(FreeEvents(s, x)[1..] + events, x)
  {
    var own := FreeEvents(s, x)[1..];
    var later := own + events;
    forall i | 0 <= i < |later|
      ensures later[i] != FreedRing.Out(x)
    {
      if i >= |own| {
        assert later[i] == events[i - |own|];
      } else {
        assert later[i].In?;
      }
    }
  }
}
