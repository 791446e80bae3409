/** Whole runs of the allocator on the thread that owns the arena, with frees from any
    thread: what users hold is always what they were given and have not given back, and
    the leak collector counts that and what waits for a drain. */
module SigmaRuns {
  import opened Words
  import opened BuddyLayout
  import opened SlabLayout
  import opened Arena
  import opened ArenaOps
  import opened ArenaSlabs
  import opened ArenaTheorems
  import opened ArenaCalls
  import opened ArenaAnswers
  import opened Sigma
  import opened SigmaTheorems
  import opened SigmaFrees
  import opened Realloc
  import opened Leaks

  /** A call by a user: sigma_alloc, sigma_free on the owner's thread (`here`) or on another,
      or sigma_realloc. */
  datatype Call =
    | Malloc(size: nat, alignment: nat, offers: Offers)
    | Release(x: nat, here: bool)
    | Resize(x: nat, size: nat, alignment: nat, offers: Offers)

  /** Users pass NULL or what they hold. */
  predicate Legal(s: Sigma, c: Call) {
    match c
    case Malloc(size, alignment, _) => size < WORD && alignment < WORD
    case Release(x, _) => x == 0 || IsUser(s, x)
    case Resize(x, size, alignment, _) => (x == 0 || IsUser(s, x)) && size < WORD && alignment < WORD
  }

  datatype Outcome = Panicked | Returned(sigma: Sigma, ptr: nat)

  function Perform(s: Sigma, c: Call): Outcome
    requires SigmaInv(s) && Legal(s, c)
  {
    InvShape(s);
    match c
    case Malloc(size, alignment, o) =>
      var (t, p) := SigmaAlloc(s, size, alignment, o);
      Returned(t, p)
    case Release(x, here) =>
      if x == 0 then Returned(s, 0)
      else
        (match SigmaFree(s, x, here)
         case Panics => Outcome.Panicked
         case Done(t) => Returned(t, 0))
    case Resize(x, size, alignment, o) =>
      match SigmaRealloc(s, x, size, alignment, o)
      case ReallocPanics => Outcome.Panicked
      case Result(t, p) => Returned(t, p)
  }

  /** What users hold after a call that returned `p`, as they see it. */
  function HeldAfter(held: set<nat>, c: Call, p: nat): set<nat> {
    match c
    case Malloc(_, _, _) => if p == 0 then held else held + {p}
    case Release(x, _) => held - {x}
    case Resize(x, size, _, _) => if p == 0 && size != 0 then held else (held - {x}) + (if p == 0 then {} else {p})
  }

  lemma UsersGrow(s: Sigma, t: Sigma, x: nat, size: nat, alignment: nat)
    requires HandedToUser(s, t, x, size, alignment)
    ensures Users(t) == if x == 0 then Users(s) else Users(s) + {x}
    ensures x != 0 ==> x !in Users(s)
  {
    UsersAre(s);
    UsersAre(t);
    hide IsUser, KeepsUser, Users, SizeOf;
  }

  lemma UsersShrink(s: Sigma, t: Sigma, x: nat)
    requires TakenBack(s, t, x)
    ensures Users(t) == Users(s) - {x}
  {
    UsersAre(s);
    UsersAre(t);
    hide IsUser, KeepsUser, Users;
  }

  lemma NullIsNobodys(s: Sigma)
    requires SigmaInv(s)
    ensures 0 !in Users(s)
  {
    UsersAre(s);
    NullNotUser(s);
  }

  /** No legal call panics, and users hold after it what its result tells them. */
  lemma CallSound(s: Sigma, c: Call)
    requires SigmaInv(s) && Legal(s, c)
    ensures Perform(s, c).Returned? && SigmaInv(Perform(s, c).sigma)
    ensures Users(Perform(s, c).sigma) == HeldAfter(Users(s), c, Perform(s, c).ptr)
  {
    hide SigmaInv, Core, Users, SigmaAlloc, SigmaFree, SigmaRealloc, IsUser;
    InvShape(s);
    match c
    case Malloc(size, alignment, o) => MallocUsers(s, size, alignment, o);
    case Release(x, here) =>
      if x == 0 {
        NullIsNobodys(s);
      } else {
        ReleaseUsers(s, x, here);
      }
    case Resize(x, size, alignment, o) =>
      if x == 0 || size == 0 {
        TrivialResize(s, x, size, alignment, o);
      } else {
        ResizeUsers(s, x, size, alignment, o);
      }
  }

  lemma MallocUsers(s: Sigma, size: nat, alignment: nat, o: Offers)
    requires SigmaInv(s) && size < WORD && alignment < WORD
    ensures LocalInv(s.local) && s.shape.Plausible()
    ensures var (t, p) := SigmaAlloc(s, size, alignment, o);
            SigmaInv(t) && Users(t) == if p == 0 then Users(s) else Users(s) + {p}
  {
    hide SigmaInv, Core, Users, SigmaAlloc, HandedToUser;
    InvShape(s);
    SigmaAllocSound(s, size, alignment, o);
    UsersGrow(s, SigmaAlloc(s, size, alignment, o).0, SigmaAlloc(s, size, alignment, o).1, size, alignment);
  }

  lemma ReleaseUsers(s: Sigma, x: nat, here: bool)
    requires SigmaInv(s) && IsUser(s, x)
    ensures SigmaFree(s, x, here).Done? && SigmaInv(SigmaFree(s, x, here).sigma)
    ensures Users(SigmaFree(s, x, here).sigma) == Users(s) - {x}
  {
    hide SigmaInv, IsUser, Users, SigmaFree, TakenBack;
    SigmaFreeSound(s, x, here);
    UsersShrink(s, SigmaFree(s, x, here).sigma, x);
  }

  /** Of NULL, sigma_realloc is sigma_alloc; to size 0 it is sigma_free. */
  lemma TrivialResize(s: Sigma, x: nat, size: nat, alignment: nat, o: Offers)
    requires SigmaInv(s) && size < WORD && alignment < WORD && (x != 0 ==> IsUser(s, x)) && (x == 0 || size == 0)
    ensures var r := SigmaRealloc(s, x, size, alignment, o);
            && r.Result? && SigmaInv(r.sigma)
            && Users(r.sigma) == HeldAfter(Users(s), Resize(x, size, alignment, o), r.ptr)
  {
    hide SigmaInv, Core, IsUser, Users, SigmaAlloc, SigmaFree;
    NullIsNobodys(s);
    if x == 0 {
      MallocUsers(s, size, alignment, o);
      ZeroSizeFails(s, alignment, o);
    } else {
      InvShape(s);
      ReleaseUsers(s, x, true);
    }
  }

  lemma ZeroSizeFails(s: Sigma, alignment: nat, o: Offers)
    requires SigmaInv(s) && alignment < WORD
    ensures LocalInv(s.local) && s.shape.Plausible() && SigmaAlloc(s, 0, alignment, o) == (s, 0)
  {
    InvShape(s);
  }

  lemma ResizeUsers(s: Sigma, x: nat, size: nat, alignment: nat, o: Offers)
    requires SigmaInv(s) && 0 < size < WORD && alignment < WORD && x != 0 && IsUser(s, x)
    ensures var r := SigmaRealloc(s, x, size, alignment, o);
            && r.Result? && SigmaInv(r.sigma)
            && Users(r.sigma) == if r.ptr == 0 then Users(s) else (Users(s) - {x}) + {r.ptr}
  {
    hide SigmaInv, Core, Users, SigmaAlloc, SigmaFree, SigmaRealloc, HandedToUser, TakenBack, IsUser;
    ReallocIs(s, x, size, alignment, o);
    MallocUsers(s, size, alignment, o);
    UserIn(s, x);
    var (t, p) := SigmaAlloc(s, size, alignment, o);
    if p != 0 {
      UsersGrow(s, t, p, size, alignment);
      UsersShrink(t, SigmaFree(t, x, true).sigma, x);
    }
  }

  lemma UserIn(s: Sigma, x: nat)
    requires IsUser(s, x)
    ensures x in Users(s)
  {
    UsersAre(s);
  }

  // ---------------------------------------------------------------- runs

  ghost predicate IsRun(s: Sigma, calls: seq<Call>)
    requires SigmaInv(s)
    decreases |calls|
  {
    calls == [] || (Legal(s, calls[0]) && (CallSound(s, calls[0]); IsRun(Perform(s, calls[0]).sigma, calls[1..])))
  }

  ghost function AfterRun(s: Sigma, calls: seq<Call>): (r: Sigma)
    requires SigmaInv(s) && IsRun(s, calls)
    ensures SigmaInv(r)
    decreases |calls|
  {
    if calls == [] then s
    else
      CallSound(s, calls[0]);
      AfterRun(Perform(s, calls[0]).sigma, calls[1..])
  }

  /** What users believe they hold, from the results of their calls alone. */
  ghost function Believed(s: Sigma, calls: seq<Call>, held: set<nat>): set<nat>
    requires SigmaInv(s) && IsRun(s, calls)
    decreases |calls|
  {
    if calls == [] then held
    else
      CallSound(s, calls[0]);
      var r := Perform(s, calls[0]);
      Believed(r.sigma, calls[1..], HeldAfter(held, calls[0], r.ptr))
  }

  /** sigma_allocator_init with the first arena; `fixed` is where the structures that are
      in no extent lie. */
  function Start(sz: Sizes, shape: Shape, fixed: set<Mapping>, e: nat): Sigma {
    Sigma(Local(ArenaCreate(sz, e), [], 0), fixed, shape, map[], [])
  }

  lemma StartSound(sz: Sizes, shape: Shape, fixed: set<Mapping>, e: nat)
    requires sz.Plausible() && shape.Plausible() && sz.meta < e && e + BlockBytes(sz.root) <= WORD
    requires forall m <- fixed :: MappingApart(m, sz, e)
    ensures SigmaInv(Start(sz, shape, fixed, e)) && Users(Start(sz, shape, fixed, e)) == {}
  {
    hide ArenaInv, IsOut, MappingApart, Users, IsUser, ArenaCreate;
    ArenaCreateSound(sz, e);
    CreatedShape(sz, e);
    var s := Start(sz, shape, fixed, e);
    EmptyChain(s.local.arena.word);
    forall f, m | f in s.local.arena.pools && m in Mappings(s)
      ensures MappingApart(m, sz, f)
    {
    }
    NobodyYet(s);
  }

  // ------------------------------------------------------ the first call

  /** The outcome of arena_create: no arena, with the mappings it gave back, or one. */
  datatype Birth = Unborn(returned: set<Mapping>) | Born(sigma: Sigma)

  /** A mapping of `bytes` for arena_t, apart from the static data. */
  predicate HomeOk(data: set<Mapping>, home: Mapping) {
    home.lo > 0 && forall m <- data :: home.lo + home.bytes <= m.lo || m.lo + m.bytes <= home.lo
  }

  predicate ExtentFits(sz: Sizes, ms: set<Mapping>, e: nat) {
    sz.meta < e && e + BlockBytes(sz.root) <= WORD && forall m <- ms :: MappingApart(m, sz, e)
  }

  /** The first sigma_alloc of a thread makes its arena: arena_t in a mapping of its own,
      then an extent; without an extent the mapping goes back. */
  function FirstArena(sz: Sizes, shape: Shape, data: set<Mapping>, bytes: nat, home: Option<nat>,
                      first: Option<nat>): Birth {
    if home.None? || !HomeOk(data, Mapping(home.value, bytes)) then Unborn({})
    else
      var m := Mapping(home.value, bytes);
      if first.None? || !ExtentFits(sz, data + {m}, first.value) then Unborn({m})
      else Born(Start(sz, shape, data + {m}, first.value))
  }

  /** An arena is made exactly when both mappings are granted; it is sound, empty and keeps
      both. Otherwise whatever was granted has gone back. */
  lemma FirstArenaSound(sz: Sizes, shape: Shape, data: set<Mapping>, bytes: nat, home: Option<nat>, first: Option<nat>)
    requires sz.Plausible() && shape.Plausible()
    ensures var b := FirstArena(sz, shape, data, bytes, home, first);
            var granted := home.Some? && HomeOk(data, Mapping(home.value, bytes));
            && (b.Born? <==> granted && first.Some? && ExtentFits(sz, data + {Mapping(home.value, bytes)}, first.value))
            && (b.Born? ==> && SigmaInv(b.sigma) && Users(b.sigma) == {} && first.value in b.sigma.local.arena.pools
                            && b.sigma.fixed == data + {Mapping(home.value, bytes)})
            && (b.Unborn? ==> b.returned == if granted then {Mapping(home.value, bytes)} else {})
  {
    hide SigmaInv, Users, Start, ArenaCreate, MappingApart;
    var b := FirstArena(sz, shape, data, bytes, home, first);
    if b.Born? {
      StartSound(sz, shape, data + {Mapping(home.value, bytes)}, first.value);
      StartShape(sz, shape, data + {Mapping(home.value, bytes)}, first.value);
    }
  }

  lemma StartShape(sz: Sizes, shape: Shape, fixed: set<Mapping>, e: nat)
    ensures Start(sz, shape, fixed, e).fixed == fixed && e in Start(sz, shape, fixed, e).local.arena.pools
  {
  }

  lemma CreatedShape(sz: Sizes, e: nat)
    ensures ArenaCreate(sz, e).sizes == sz && ArenaCreate(sz, e).pools.Keys == {e}
  {
  }

  lemma NobodyYet(s: Sigma)
    requires s.large == map[] && forall x: nat :: !IsOut(s.local.arena, x)
    ensures Users(s) == {}
  {
    UsersAre(s);
    hide IsOut, Users;
  }

  /** Over every run the pointers in users' hands are exactly those the allocator
      accounts for, whatever tier served them and whatever calls failed. */
  lemma {:induction false} HeldIsBelieved(s: Sigma, calls: seq<Call>)
    requires SigmaInv(s) && IsRun(s, calls)
    ensures Users(AfterRun(s, calls)) == Believed(s, calls, Users(s))
    decreases |calls|
  {
    hide SigmaInv, Perform, Users, HeldAfter, Legal;
    if calls != [] {
      CallSound(s, calls[0]);
      HeldIsBelieved(Perform(s, calls[0]).sigma, calls[1..]);
    }
  }

  /** The leak collector, after any run, meets exactly the pointers users hold and those
      other threads have pushed and no drain has taken yet. */
  lemma LeaksAfterRun(s: Sigma, calls: seq<Call>)
    requires SigmaInv(s) && IsRun(s, calls)
    ensures var t := AfterRun(s, calls);
            && |t.local.arena.partial| == |t.local.arena.full| == NUM_CACHES
            && Elems(AllLeaked(t)) == Believed(s, calls, Users(s)) + Elems(t.local.stack)
            && |AllLeaked(t)| == |Believed(s, calls, Users(s))| + |t.local.stack|
  {
    hide SigmaInv, Perform, Users, HeldAfter, Legal, AllLeaked;
    HeldIsBelieved(s, calls);
    CollectorExact(AfterRun(s, calls));
  }

  /** The collector does report what has been freed. A pointer that another thread frees
      while nothing is pending is still reported, though nobody holds it; of a large
      allocation the two bookkeeping objects are, each as a leak. */
  lemma PushedIsReported(s: Sigma, x: nat)
    requires SigmaInv(s) && IsUser(s, x) && s.local.stack == []
    ensures SigmaFree(s, x, false).Done?
    ensures var t := SigmaFree(s, x, false).sigma;
            && SigmaInv(t) && x !in Users(t)
            && |t.local.arena.partial| == |t.local.arena.full| == NUM_CACHES
            && (x !in s.large ==> x in AllLeaked(t) && |AllLeaked(t)| == |Users(t)| + 1)
            && (x in s.large ==>
                  && s.large[x].node in AllLeaked(t) && s.large[x].meta in AllLeaked(t)
                  && s.large[x].node !in Users(t) && s.large[x].meta !in Users(t)
                  && |AllLeaked(t)| == |Users(t)| + 2)
  {
    hide SigmaInv, LocalInv, InHand, IsUser, TakenBack, AllLeaked, Users;
    SigmaFreeSound(s, x, false);
    var t := SigmaFree(s, x, false).sigma;
    CollectorExact(t);
    UsersShrink(s, t, x);
    OthersPush(s, x);
    assert forall y: nat :: y in t.local.stack ==> y in Elems(t.local.stack);
    assert forall y: nat :: y in AllLeaked(t) <==> y in Elems(AllLeaked(t));
    if x in s.large {
      ObjectsNotHeld(s, x);
    }
  }

  lemma ObjectsNotHeld(s: Sigma, x: nat)
    requires SigmaInv(s) && x in s.large
    ensures s.large[x].node !in Users(s) && s.large[x].meta !in Users(s)
  {
    hide SigmaInv, LocalInv, Infra, InHand;
    InfraHas(s, x);
    LargeObjectsOut(s, x);
    UsersAre(s);
    OutsNotLarge(s, s.large[x].node);
    OutsNotLarge(s, s.large[x].meta);
  }

  lemma OutsNotLarge(s: Sigma, x: nat)
    requires SigmaInv(s) && InHand(s.local, x)
    ensures x !in s.large
  {
    hide SigmaInv, IsOut;
    if x in s.large {
      LargeNotOut(s, x);
    }
  }

  // ----------------------------------------------- runs on one thread

  /** sigma_alloc adds nothing to the stack: it leaves it alone or drains all of it. */
  lemma AllocStack(s: Sigma, size: nat, alignment: nat, o: Offers)
    requires SigmaInv(s) && size < WORD && alignment < WORD
    ensures LocalInv(s.local) && s.shape.Plausible()
    ensures var stack := SigmaAlloc(s, size, alignment, o).0.local.stack; stack == s.local.stack || stack == []
  {
    hide SigmaInv, LocalInv, AllocBlock, ArenaAlloc, LargeAlloc, AlignmentIsValid, BlockBytes, Mappings, Offer,
      Attempted, ExtentsOk, Core;
    InvShape(s);
    if size == 0 || !AlignmentIsValid(alignment) {
      return;
    }
    ValidPositive(alignment);
    var pool := BlockBytes(s.local.arena.sizes.root);
    if size <= 1024 && alignment <= 16 {
      ArenaAllocSound(s.local, Mappings(s), size, o.first, o.second);
    } else if size <= pool && alignment <= pool {
      ShapeOf(s.local);
      BlockAttempt(s.local, Mappings(s), size, alignment, o.first);
      var (a, x) := AllocBlock(s.local.arena, size, alignment, false, Offer(s.local.arena, Mappings(s), o.first));
      AttemptInv(s.local, Mappings(s), s.local.(arena := a), x);
      LargeStack(s.(local := s.local.(arena := a)), size, alignment, AfterBlock(o));
    } else {
      LargeStack(s, size, alignment, o);
    }
  }

  lemma LargeStack(s: Sigma, size: nat, alignment: nat, o: Offers)
    requires LocalInv(s.local) && s.shape.Plausible() && alignment < WORD
    ensures var stack := LargeAlloc(s, size, alignment, o).0.local.stack; stack == s.local.stack || stack == []
  {
    hide LocalInv, InHand, LargeRefused, MappingBytes, Granted, ArenaAlloc, LargeUser, Mappings, Attempted;
    if !LargeRefused(s.shape, size, alignment) {
      MappingBytesIff(s.shape, size, alignment);
      var m := Mapping(o.backing, MappingBytes(s.shape, size, alignment));
      var ms := Mappings(s) + {m};
      ArenaAllocSound(s.local, ms, s.shape.node, o.first, o.second);
      var (k, node) := ArenaAlloc(s.local, ms, s.shape.node, o.first, o.second);
      AttemptInv(s.local, ms, k, node);
      ArenaAllocSound(k, ms, s.shape.meta, o.third, o.fourth);
    }
  }

  /** No call on the owner's thread adds to the remote stack. */
  lemma CallStack(s: Sigma, c: Call)
    requires SigmaInv(s) && Legal(s, c) && (c.Release? ==> c.here)
    ensures Perform(s, c).Returned?
    ensures var stack := Perform(s, c).sigma.local.stack; stack == s.local.stack || stack == []
  {
    hide SigmaInv, LocalInv, IsUser, SigmaAlloc, SigmaFree, HandedToUser, TakenBack;
    CallSound(s, c);
    InvShape(s);
    match c
    case Malloc(size, alignment, o) => AllocStack(s, size, alignment, o);
    case Release(x, here) =>
      if x != 0 {
        OwnerFreesAtOnce(s, x);
      }
    case Resize(x, size, alignment, o) =>
      if x == 0 {
        AllocStack(s, size, alignment, o);
      } else if size == 0 {
        OwnerFreesAtOnce(s, x);
      } else {
        ResizeStack(s, x, size, alignment, o);
      }
  }

  lemma ResizeStack(s: Sigma, x: nat, size: nat, alignment: nat, o: Offers)
    requires SigmaInv(s) && 0 < size < WORD && alignment < WORD && x != 0 && IsUser(s, x)
    ensures var r := SigmaRealloc(s, x, size, alignment, o);
            r.Result? && (r.sigma.local.stack == s.local.stack || r.sigma.local.stack == [])
  {
    hide SigmaInv, LocalInv, IsUser, SigmaAlloc, SigmaFree, SigmaRealloc, HandedToUser, TakenBack;
    AllocStack(s, size, alignment, o);
    ReallocIs(s, x, size, alignment, o);
    var (t, p) := SigmaAlloc(s, size, alignment, o);
    if p != 0 {
      OwnerFreesAtOnce(t, x);
    }
  }

  /** Nobody but the owner of the arena frees. */
  predicate OneThread(calls: seq<Call>) {
    forall c <- calls :: c.Release? ==> c.here
  }

  lemma {:induction false} OneThreadStack(s: Sigma, calls: seq<Call>)
    requires SigmaInv(s) && IsRun(s, calls) && OneThread(calls) && s.local.stack == []
    ensures AfterRun(s, calls).local.stack == []
    decreases |calls|
  {
    hide SigmaInv, Perform, Legal, Users, HeldAfter;
    if calls != [] {
      CallSound(s, calls[0]);
      CallStack(s, calls[0]);
      OneThreadStack(Perform(s, calls[0]).sigma, calls[1..]);
    }
  }

  /** In a program of one thread the collector is exact: after any run it reports each
      pointer that was handed out and not given back, once, and nothing else. */
  lemma OneThreadLeaks(s: Sigma, calls: seq<Call>)
    requires SigmaInv(s) && IsRun(s, calls) && s.local.stack == []
    requires forall c <- calls :: c.Release? ==> c.here
    ensures var t := AfterRun(s, calls);
            && t.local.stack == []
            && |t.local.arena.partial| == |t.local.arena.full| == NUM_CACHES
            && Distinct(AllLeaked(t))
            && Elems(AllLeaked(t)) == Believed(s, calls, Users(s))
            && |AllLeaked(t)| == |Believed(s, calls, Users(s))|
  {
    hide SigmaInv, IsRun, AfterRun, Believed, Users, AllLeaked, Distinct;
    OneThreadStack(s, calls);
    LeaksAfterRun(s, calls);
    CollectorExact(AfterRun(s, calls));
  }
}
