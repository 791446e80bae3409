/** Safety over whole interleaved runs: where every pointer is, that nothing pushed is
    lost or freed twice, that a drain never meets reused storage, and how soon a push
    is reclaimed. */
module RemoteTheorems {
  import opened Words
  import opened BuddyLayout
  import opened SlabLayout
  import opened Arena
  import opened ArenaOps
  import opened ArenaBlocks
  import opened ArenaSlabs
  import opened ArenaFrees
  import opened ArenaTheorems
  import opened Remote

  datatype Place = AllocatorFree | Held | Pushing | Pending | Detached

  function PlaceOf(s: System, x: nat): Place {
    if x in s.held then Held
    else if x in InFlight(s) then Pushing
    else if x in s.pending then Pending
    else if x in s.detached then Detached
    else AllocatorFree
  }

  /** The places are exclusive, and a pointer is with the allocator exactly when the
      arena does not count it as out. */
  lemma OnePlaceOnly(s: System, x: nat)
    requires SysInv(s)
    ensures PlaceOf(s, x) == AllocatorFree <==> !IsOut(s.arena, x)
    ensures x in s.held <==> PlaceOf(s, x) == Held
    ensures x in InFlight(s) <==> PlaceOf(s, x) == Pushing
    ensures x in s.pending <==> PlaceOf(s, x) == Pending
    ensures x in s.detached <==> PlaceOf(s, x) == Detached
  {
    hide ArenaInv, IsOut, Chain;
    assert x in s.pending <==> x in Elems(s.pending);
    assert x in s.detached <==> x in Elems(s.detached);
  }

  /** The pointer an allocating step hands out, or 0. */
  function HandedBy(s: System, step: Step): nat
    requires SysInv(s) && Enabled(s, step)
  {
    match step
    case TryAlloc(grant) => SlabAlloc(s.arena, s.pc.size, grant).1
    case BuddyAlloc(bytes, alignment, grant) => AllocBlock(s.arena, bytes, alignment, false, grant).1
    case _ => 0
  }

  /** Where `x` is after a step, from where it was: each step moves the pointers it
      names along held, pushing, pending, detached, free, and no others. */
  function PlaceAfter(s: System, step: Step, x: nat): Place
    requires SysInv(s) && Enabled(s, step)
  {
    match step
    case TryAlloc(_) => if x == HandedBy(s, step) && x != 0 then Held else PlaceOf(s, x)
    case BuddyAlloc(_, _, _) => if x == HandedBy(s, step) && x != 0 then Held else PlaceOf(s, x)
    case LocalFree(y) => if x == y then AllocatorFree else PlaceOf(s, x)
    case PushBegin(_, y) => if x == y then Pushing else PlaceOf(s, x)
    case PushCas(t, spurious) =>
      if x == s.pushers[t].ptr && !spurious && s.remote == s.pushers[t].head then Pending else PlaceOf(s, x)
    case Exchange => if PlaceOf(s, x) == Pending then Detached else PlaceOf(s, x)
    case DrainOne => if x == s.node then AllocatorFree else PlaceOf(s, x)
    case _ => PlaceOf(s, x)
  }

  /** Conservation step by step: nothing changes place but by the moves above, and what
      is handed out was the allocator's. */
  lemma StepMoves(s: System, step: Step, x: nat)
    requires SysInv(s) && Enabled(s, step)
    ensures PlaceOf(Next(s, step), x) == PlaceAfter(s, step, x)
    ensures HandedBy(s, step) == x != 0 ==> PlaceOf(s, x) == AllocatorFree
  {
    hide SysInv, Next, SlabAlloc, AllocBlock, PlaceAfter, PlaceOf;
    match step
    case PushBegin(_, _) => PushBeginMoves(s, step, x);
    case PushCas(_, _) => PushCasMoves(s, step, x);
    case TryAlloc(_) =>
      HandedWasFree(s, step);
      AllocStepMoves(s, step, x);
    case BuddyAlloc(_, _, _) =>
      HandedWasFree(s, step);
      AllocStepMoves(s, step, x);
    case Exchange => ExchangeMoves(s, x);
    case DrainOne => DrainOneMoves(s, x);
    case LocalFree(_) => LocalFreeMoves(s, step, x);
    case _ => QuietStepMoves(s, step, x);
  }

  lemma PushBeginMoves(s: System, step: Step, x: nat)
    requires SysInv(s) && Enabled(s, step) && step.PushBegin?
    ensures PlaceOf(Next(s, step), x) == PlaceAfter(s, step, x) && HandedBy(s, step) == 0
  {
    hide SysInv, InFlight, IsOut;
    OnePlaceOnly(s, step.x);
    FlightGrows(s, Next(s, step), step.t);
  }

  lemma PushCasMoves(s: System, step: Step, x: nat)
    requires SysInv(s) && Enabled(s, step) && step.PushCas?
    ensures PlaceOf(Next(s, step), x) == PlaceAfter(s, step, x) && HandedBy(s, step) == 0
  {
    hide SysInv, InFlight, IsOut, Next, Enabled, PlaceOf;
    PushCasState(s, step);
    FlightHas(s, step.t);
    if !step.spurious && s.remote == s.pushers[step.t].head {
      FlightShrinks(s, Next(s, step), step.t);
      PushWins(s, Next(s, step), step.t, x);
    } else {
      SameInFlight(s, Next(s, step), step.t);
      SamePlace(s, Next(s, step), x);
    }
  }

  lemma PushWins(s: System, w: System, t: nat, x: nat)
    requires t in s.pushers && PlaceOf(s, s.pushers[t].ptr) == Pushing
    requires InFlight(w) == InFlight(s) - {s.pushers[t].ptr}
    requires w.held == s.held && w.pending == [s.pushers[t].ptr] + s.pending && w.detached == s.detached
    ensures PlaceOf(w, x) == if x == s.pushers[t].ptr then Pending else PlaceOf(s, x)
  {
    hide InFlight;
  }

  lemma SamePlace(s: System, w: System, x: nat)
    requires InFlight(w) == InFlight(s) && w.held == s.held && w.pending == s.pending && w.detached == s.detached
    ensures PlaceOf(w, x) == PlaceOf(s, x)
  {
    hide InFlight;
  }

  /** A swap that succeeds moves the node onto the stack; one that fails moves nothing. */
  lemma PushCasState(s: System, step: Step)
    requires SysInv(s) && Enabled(s, step) && step.PushCas?
    ensures step.t in s.pushers
    ensures var p, w := s.pushers[step.t], Next(s, step);
            if !step.spurious && s.remote == p.head then
              w == s.(remote := p.ptr, pending := [p.ptr] + s.pending, pushers := s.pushers - {step.t})
            else w == s.(pushers := s.pushers[step.t := Pusher(p.ptr, ToLoad, 0)])
  {
    hide SysInv;
  }

  lemma AllocStepMoves(s: System, step: Step, x: nat)
    requires SysInv(s) && Enabled(s, step) && (step.TryAlloc? || step.BuddyAlloc?)
    ensures PlaceOf(Next(s, step), x) == PlaceAfter(s, step, x)
  {
    hide SysInv, Core, IsOut, Chain, Partitioned, SlabAlloc, AllocBlock, InFlight;
    SameFlight(s, Next(s, step));
  }

  lemma ExchangeMoves(s: System, x: nat)
    requires SysInv(s) && s.pc.ToExchange?
    ensures PlaceOf(Next(s, Exchange), x) == PlaceAfter(s, Exchange, x) && HandedBy(s, Exchange) == 0
  {
    OnePlaceOnly(s, x);
    NotDetachedUnlessDraining(s);
    hide SysInv, InFlight, IsOut;
    SameFlight(s, Next(s, Exchange));
  }

  lemma DrainOneMoves(s: System, x: nat)
    requires SysInv(s) && Enabled(s, DrainOne)
    ensures PlaceOf(Next(s, DrainOne), x) == PlaceAfter(s, DrainOne, x) && HandedBy(s, DrainOne) == 0
  {
    NodeIsOut(s);
    TailMembers(s.detached);
    OnePlaceOnly(s, s.node);
    hide SysInv, InFlight, IsOut, FreeLocal;
    SameFlight(s, Next(s, DrainOne));
  }

  lemma LocalFreeMoves(s: System, step: Step, x: nat)
    requires SysInv(s) && Enabled(s, step) && step.LocalFree?
    ensures PlaceOf(Next(s, step), x) == PlaceAfter(s, step, x) && HandedBy(s, step) == 0
  {
    LocalFreeState(s, step);
    OnePlaceOnly(s, step.x);
    hide SysInv, InFlight, IsOut, Next, Enabled;
    SameFlight(s, Next(s, step));
  }

  lemma LocalFreeState(s: System, step: Step)
    requires SysInv(s) && Enabled(s, step) && step.LocalFree?
    ensures step.x in s.held && Next(s, step) == s.(arena := Next(s, step).arena, held := s.held - {step.x})
  {
    hide SysInv, IsOut, FreeLocal;
  }

  lemma QuietStepMoves(s: System, step: Step, x: nat)
    requires SysInv(s) && Enabled(s, step)
    requires step.AllocEnter? || step.DrainDone? || step.UserWrite? || step.PushLoad? || step.PushWrite?
    ensures PlaceOf(Next(s, step), x) == PlaceAfter(s, step, x) && HandedBy(s, step) == 0
  {
    hide SysInv, InFlight;
    if step.PushLoad? || step.PushWrite? {
      SameInFlight(s, Next(s, step), step.t);
    } else {
      SameFlight(s, Next(s, step));
    }
  }

  lemma NotDetachedUnlessDraining(s: System)
    requires SysInv(s) && !s.pc.Draining?
    ensures s.detached == []
  {
    hide ArenaInv, Partitioned, Chain;
  }

  lemma SameFlight(s: System, w: System)
    requires w.pushers == s.pushers
    ensures InFlight(w) == InFlight(s)
  {
  }

  lemma FlightGrows(s: System, w: System, t: nat)
    requires t !in s.pushers && t in w.pushers && w.pushers == s.pushers[t := w.pushers[t]]
    ensures InFlight(w) == InFlight(s) + {w.pushers[t].ptr}
  {
    assert forall u <- s.pushers :: w.pushers[u] == s.pushers[u] && s.pushers[u].ptr in InFlight(w);
    assert w.pushers[t].ptr in InFlight(w);
  }

  lemma HandedWasFree(s: System, step: Step)
    requires SysInv(s) && Enabled(s, step) && (step.TryAlloc? || step.BuddyAlloc?)
    ensures HandedBy(s, step) != 0 ==> PlaceOf(s, HandedBy(s, step)) == AllocatorFree
  {
    OnePlaceOnly(s, HandedBy(s, step));
    hide IsOut, Chain, Partitioned, SlabAlloc, AllocBlock, ExtentsOk, BlocksOk, SlabsOk, CachesOk;
    if step.TryAlloc? {
      SlabAllocSound(s.arena, s.pc.size, step.grant);
    } else {
      BuddyRequestSound(s.arena, step.bytes, step.alignment, step.grant);
    }
  }

  // ------------------------------------------------------------- runs

  /** A fresh arena that no other thread has seen yet. */
  function StartSystem(sz: Sizes, e: nat): System {
    System(ArenaCreate(sz, e), 0, Idle, 0, 0, map[], {}, [], [])
  }

  lemma StartSystemSound(sz: Sizes, e: nat)
    requires sz.Plausible() && sz.meta < e && e + BlockBytes(sz.root) <= WORD
    ensures SysInv(StartSystem(sz, e))
  {
    ArenaCreateSound(sz, e);
    var s := StartSystem(sz, e);
    hide ArenaInv, IsOut, ArenaCreate;
    assert InFlight(s) == {} && Elems(s.pending) == {} && Elems(s.detached) == {};
  }

  /** `steps` can be taken one after another from `s`. */
  ghost predicate IsRun(s: System, steps: seq<Step>)
    requires SysInv(s)
    decreases |steps|
  {
    steps == [] || (Enabled(s, steps[0]) && (StepKeeps(s, steps[0]); IsRun(Next(s, steps[0]), steps[1..])))
  }

  /** The state a run ends in. */
  ghost function After(s: System, steps: seq<Step>): (r: System)
    requires SysInv(s) && IsRun(s, steps)
    ensures SysInv(r)
    decreases |steps|
  {
    if steps == [] then s
    else
      StepKeeps(s, steps[0]);
      After(Next(s, steps[0]), steps[1..])
  }

  /** How often `x` is handed to arena_remote_free in a run. */
  ghost function Pushes(steps: seq<Step>, x: nat): nat {
    if steps == [] then 0
    else (if steps[0].PushBegin? && steps[0].x == x then 1 else 0) + Pushes(steps[1..], x)
  }

  /** How often a drain frees `x` in a run. */
  ghost function Drains(s: System, steps: seq<Step>, x: nat): nat
    requires SysInv(s) && IsRun(s, steps)
    decreases |steps|
  {
    if steps == [] then 0
    else
      StepKeeps(s, steps[0]);
      (if steps[0].DrainOne? && s.node == x then 1 else 0) + Drains(Next(s, steps[0]), steps[1..], x)
  }

  predicate InTransit(s: System, x: nat) {
    PlaceOf(s, x) in {Pushing, Pending, Detached}
  }

  /** Over every run, pushes of a pointer and drains of it balance, but for one in
      transit at either end: none is lost and none is freed twice. */
  lemma {:induction false} PushesAreDrained(s: System, steps: seq<Step>, x: nat)
    requires SysInv(s) && IsRun(s, steps)
    ensures (if InTransit(s, x) then 1 else 0) + Pushes(steps, x)
            == Drains(s, steps, x) + (if InTransit(After(s, steps), x) then 1 else 0)
    decreases |steps|
  {
    hide SysInv, Next, HandedBy, Enabled;
    if steps != [] {
      StepKeeps(s, steps[0]);
      TransitStep(s, steps[0], x);
      PushesAreDrained(Next(s, steps[0]), steps[1..], x);
    }
  }

  lemma TransitStep(s: System, step: Step, x: nat)
    requires SysInv(s) && Enabled(s, step)
    ensures (if InTransit(s, x) then 1 else 0) + (if step.PushBegin? && step.x == x then 1 else 0)
            == (if step.DrainOne? && s.node == x then 1 else 0) + (if InTransit(Next(s, step), x) then 1 else 0)
  {
    StepMoves(s, step, x);
    OnePlaceOnly(s, x);
    if step.DrainOne? {
      NodeIsOut(s);
    }
    hide SysInv, Next, HandedBy, IsOut;
  }

  // ------------------------------------------------------- drain safety

  /** Anything in transit still lies in storage its allocator has not reclaimed: its
      block is taken, its slab exists and counts it. */
  lemma TransitStorageIsKept(s: System, x: nat)
    requires SysInv(s) && InTransit(s, x)
    ensures IsOut(s.arena, x)
    ensures var (e, n) := BlockOf(s.arena, x); Taken(s.arena, e, n)
    ensures s.arena.headers[x].SlabHeader? ==>
              var r := s.arena.headers[x].slab;
              r in s.arena.slabs && s.arena.slabs[r].used > 0 && x !in s.arena.slabs[r].free
  {
    OnePlaceOnly(s, x);
    ClaimHoldsRequest(s.arena, x);
    hide Taken, Slots, BlockAt, Sizes.Capacity, AlignUp, SizeToOrder;
    if s.arena.headers[x].SlabHeader? {
      OutSlotFacts(s.arena, x);
    }
  }

  /** A slab's `used` counts exactly its slots that are held, being pushed, pending or
      detached, so `used == 0` cannot strand any of them. */
  lemma UsedCountsEveryPlace(s: System, r: nat)
    requires SysInv(s) && r in s.arena.slabs
    ensures s.arena.slabs[r].used == |set x | x in SlotsOf(s.arena, r) && PlaceOf(s, x) != AllocatorFree|
  {
    hide Taken, Slots, BlockAt, Partitioned, ExtentsOk, BlocksOk, CachesOk, AlignUp, SizeToOrder, SlotsOf, Chain,
      PlaceOf;
    var a := s.arena;
    SlabFacts(a, r);
    var f := a.slabs[r];
    FreeMembers(a, r);
    var inUse := set x | x in SlotsOf(a, r) && PlaceOf(s, x) != AllocatorFree;
    forall x <- SlotsOf(a, r)
      ensures PlaceOf(s, x) != AllocatorFree <==> x !in f.free
    {
      OnePlaceOnly(s, x);
      SlotOutIffNotFree(a, r, x);
    }
    assert inUse == SlotsOf(a, r) - Elems(f.free);
  }

  lemma FreeMembers(a: Arena, r: nat)
    requires r in a.slabs && SlabOk(a, r)
    ensures Elems(a.slabs[r].free) <= SlotsOf(a, r)
    ensures |SlotsOf(a, r) - Elems(a.slabs[r].free)| == a.slabs[r].used
  {
    hide Slots, Taken, BlockAt, UsedHeadersOk, RegionOk, AlignUp, SizeToOrder;
    DistinctSize(a.slabs[r].free);
    SlotCount(a.sizes, r, a.slabs[r].cls);
    var all, free := SlotsOf(a, r), Elems(a.slabs[r].free);
    assert free <= all;
    assert all == free + (all - free);
  }

  lemma SlotOutIffNotFree(a: Arena, r: nat, x: nat)
    requires Core(a) && r in a.slabs && x in SlotsOf(a, r)
    ensures IsOut(a, x) <==> x !in a.slabs[r].free
  {
    hide Slots, Taken, BlockAt, BlockSize, ExtentsOk, BlocksOk, CachesOk, AlignUp, SizeToOrder, Chain;
    SlabFacts(a, r);
    if x in a.slabs[r].free {
      FreeSlotNotOut(a, r, x);
    }
  }

  /** Once users hold nothing and every push has been drained, everything has been
      recovered, whatever the order in which things came back. */
  lemma QuietSystemRecovered(s: System)
    requires SysInv(s) && s.held == {} && s.pushers == map[] && s.pending == [] && s.detached == []
    ensures Recovered(s.arena)
  {
    forall x: nat
      ensures !IsOut(s.arena, x)
    {
      OnePlaceOnly(s, x);
    }
    NothingOut(s.arena);
  }

  // ------------------------------------------------- bounded reclamation

  /** Accepted calls of arena_alloc in a run. */
  ghost function Enters(steps: seq<Step>): nat {
    if steps == [] then 0 else (if steps[0].AllocEnter? then 1 else 0) + Enters(steps[1..])
  }

  /** Calls still needed before the owner detaches the pending stack. */
  function CallsToExchange(s: System): nat {
    if s.pc.ToExchange? then 0 else DRAIN_INTERVAL - s.counter % DRAIN_INTERVAL
  }

  /** The counter wraps at a multiple of the interval, so every 64th call drains even
      across the wrap. */
  lemma CounterWraps(c: nat)
    requires c < WORD
    ensures ((c + 1) % WORD) % 64 == (c % 64 + 1) % 64
  {
    if c + 1 < WORD {
      assert (c + 1) % WORD == c + 1;
    } else {
      assert (c + 1) % WORD == 0;
    }
  }

  /** `x` is back with the allocator in some state of the run. */
  ghost predicate Returned(s: System, steps: seq<Step>, x: nat)
    requires SysInv(s) && IsRun(s, steps)
    decreases |steps|
  {
    PlaceOf(s, x) == AllocatorFree
    || (steps != [] && (StepKeeps(s, steps[0]); Returned(Next(s, steps[0]), steps[1..], x)))
  }

  lemma {:induction false} ReclaimedInRun(s: System, steps: seq<Step>, x: nat)
    requires SysInv(s) && IsRun(s, steps) && After(s, steps).pc.Idle?
    requires PlaceOf(s, x) == Detached || (PlaceOf(s, x) == Pending && Enters(steps) >= CallsToExchange(s))
    ensures Returned(s, steps, x)
    decreases |steps|
  {
    OnePlaceOnly(s, x);
    if steps == [] {
      NotDetachedUnlessDraining(s);
      LessThanInterval(s.counter);
    } else {
      StepKeeps(s, steps[0]);
      ReclaimStep(s, steps[0], x);
      var w := Next(s, steps[0]);
      hide SysInv, Next, IsOut;
      if PlaceOf(w, x) == AllocatorFree {
      } else {
        ReclaimedInRun(w, steps[1..], x);
      }
    }
  }

  lemma LessThanInterval(c: nat)
    ensures c % DRAIN_INTERVAL < DRAIN_INTERVAL
  {
  }

  /** One step brings a pending pointer nearer to its drain, or drains it. */
  lemma ReclaimStep(s: System, step: Step, x: nat)
    requires SysInv(s) && Enabled(s, step)
    ensures var w := Next(s, step);
            && (PlaceOf(s, x) == Detached ==> PlaceOf(w, x) in {Detached, AllocatorFree})
            && (PlaceOf(s, x) == Pending ==>
                  PlaceOf(w, x) == Detached
                  || (PlaceOf(w, x) == Pending
                      && CallsToExchange(w) <= (if step.AllocEnter? && CallsToExchange(s) > 0
                                                then CallsToExchange(s) - 1 else CallsToExchange(s))))
  {
    StepMoves(s, step, x);
    if !step.Exchange? {
      CallsStep(s, step);
    }
    OnePlaceOnly(s, x);
    if step.LocalFree? {
      OnePlaceOnly(s, step.x);
    } else if step.PushBegin? {
      OnePlaceOnly(s, step.x);
    } else if step.PushCas? {
      FlightHas(s, step.t);
    } else if step.TryAlloc? || step.BuddyAlloc? {
      HandedWasFree(s, step);
    }
    hide SysInv, Next, HandedBy, PlaceOf, CallsToExchange, IsOut;
  }

  lemma CallsStep(s: System, step: Step)
    requires SysInv(s) && Enabled(s, step) && !step.Exchange?
    ensures CallsToExchange(Next(s, step))
            <= (if step.AllocEnter? && CallsToExchange(s) > 0 then CallsToExchange(s) - 1 else CallsToExchange(s))
  {
    hide SysInv, Next;
    CounterBelow(s);
    LessThanInterval(s.counter);
    NextCounter(s, step);
    CallsDrop(s.counter);
  }

  /** The distance to the next multiple of the interval shrinks by one per call. */
  lemma CallsDrop(c: nat)
    requires c < WORD
    ensures var d := (c + 1) % WORD;
            if d % DRAIN_INTERVAL == 0 then c % DRAIN_INTERVAL == DRAIN_INTERVAL - 1
            else d % DRAIN_INTERVAL == c % DRAIN_INTERVAL + 1
  {
    CounterWraps(c);
    NextResidue(c % DRAIN_INTERVAL);
  }

  lemma NextResidue(r: nat)
    requires r < DRAIN_INTERVAL
    ensures (r + 1) % DRAIN_INTERVAL == if r + 1 == DRAIN_INTERVAL then 0 else r + 1
  {
  }

  lemma NextCounter(s: System, step: Step)
    requires SysInv(s) && Enabled(s, step)
    ensures var w := Next(s, step);
            && w.counter == (if step.AllocEnter? then (s.counter + 1) % WORD else s.counter)
            && (step.AllocEnter? ==> s.pc.Idle? && (w.pc.ToExchange? <==> w.counter % DRAIN_INTERVAL == 0))
            && (!step.AllocEnter? && !step.Exchange? && s.pc.ToExchange? ==> w.pc.ToExchange?)
  {
    hide SysInv, SlabAlloc, AllocBlock, FreeLocal;
  }

  lemma CounterBelow(s: System)
    requires SysInv(s)
    ensures s.counter < WORD
  {
    hide ArenaInv, Partitioned, Chain;
  }

  lemma FlightHas(s: System, t: nat)
    requires SysInv(s) && t in s.pushers
    ensures PlaceOf(s, s.pushers[t].ptr) == Pushing
  {
    OnePlaceOnly(s, s.pushers[t].ptr);
  }

  /** A push completed before 64 accepted calls of arena_alloc on its arena has been
      returned to its slab or pool by the end of those calls, whatever the other
      threads do meanwhile. */
  lemma BoundedReclamation(s: System, steps: seq<Step>, x: nat)
    requires SysInv(s) && IsRun(s, steps) && PlaceOf(s, x) in {Pending, Detached}
    requires Enters(steps) >= 64 && After(s, steps).pc.Idle?
    ensures Returned(s, steps, x)
  {
    ReclaimedInRun(s, steps, x);
  }
}
