/** Cross-thread frees: the owner of an arena and any number of other threads as one
    transition system. The stack of src/arena.c is threaded through the first word of
    the freed objects, the same word the slab free lists and the users write. */
module Remote {
  import opened Words
  import opened BuddyLayout
  import opened SlabLayout
  import opened Arena
  import opened ArenaOps
  import opened ArenaBlocks
  import opened ArenaSlabs
  import opened ArenaFrees

  const DRAIN_INTERVAL: nat := 64

  /** Where a thread stands inside arena_remote_free. */
  datatype PushPc = ToLoad | ToWrite | ToCas

  datatype Pusher = Pusher(ptr: nat, pc: PushPc, head: nat)

  /** Where the owner stands inside arena_alloc; `again` marks the second attempt. */
  datatype OwnerPc =
    | Idle
    | ToExchange(size: nat, again: bool)
    | Draining(size: nat, again: bool)
    | Trying(size: nat, again: bool)

  /** `remote` is the atomic head, `node` the drain's cursor. `held` are pointers in
      users' hands; `pending` and `detached` spell out the two chains. */
  datatype System = System(
    arena: Arena, counter: nat, pc: OwnerPc, node: nat, remote: nat, pushers: map<nat, Pusher>,
    held: set<nat>, pending: seq<nat>, detached: seq<nat>)

  datatype Step =
    | AllocEnter(size: nat)
    | Exchange
    | DrainOne
    | DrainDone
    | TryAlloc(grant: Option<nat>)
    | BuddyAlloc(bytes: nat, alignment: nat, grant: Option<nat>)
    | LocalFree(x: nat)
    | UserWrite(x: nat, value: nat)
    | PushBegin(t: nat, x: nat)
    | PushLoad(t: nat)
    | PushWrite(t: nat)
    | PushCas(t: nat, spurious: bool)

  function InFlight(s: System): set<nat> {
    set t | t in s.pushers :: s.pushers[t].ptr
  }

  /** Every pointer that is out is in exactly one place; both chains are what memory
      says; and a pusher about to swap has linked its node to the head it loaded. */
  ghost predicate SysInv(s: System) {
    && ArenaInv(s.arena) && s.counter < WORD
    && Partitioned(s)
    && Chain(s.arena.word, s.remote, s.pending) && Chain(s.arena.word, s.node, s.detached)
    && (s.pc.Draining? || s.detached == [])
    && (forall t <- s.pushers :: s.pushers[t].pc == ToCas ==>
          s.pushers[t].ptr in s.arena.word && s.arena.word[s.pushers[t].ptr] == s.pushers[t].head)
  }

  ghost predicate Partitioned(s: System) {
    && (forall t, u | t in s.pushers && u in s.pushers && t != u :: s.pushers[t].ptr != s.pushers[u].ptr)
    && s.held !! InFlight(s) !! Elems(s.pending) !! Elems(s.detached)
    && forall x: nat :: IsOut(s.arena, x) <==> x in s.held || x in InFlight(s) || x in s.pending || x in s.detached
  }

  predicate Enabled(s: System, step: Step) {
    match step
    case AllocEnter(size) => s.pc.Idle? && 0 < size <= MAX_SLAB_OBJ_SIZE
    case Exchange => s.pc.ToExchange?
    case DrainOne => s.pc.Draining? && s.node != 0
    case DrainDone => s.pc.Draining? && s.node == 0
    case TryAlloc(grant) => s.pc.Trying? && s.pc.size > 0 && MaybeGrant(s.arena, grant)
    case BuddyAlloc(bytes, alignment, grant) =>
      s.pc.Idle? && 0 < alignment < WORD && bytes < WORD && MaybeGrant(s.arena, grant)
    case LocalFree(x) => s.pc.Idle? && x in s.held
    case UserWrite(x, _) => x in s.held
    case PushBegin(t, x) => t !in s.pushers && x in s.held
    case PushLoad(t) => t in s.pushers && s.pushers[t].pc == ToLoad
    case PushWrite(t) => t in s.pushers && s.pushers[t].pc == ToWrite
    case PushCas(t, _) => t in s.pushers && s.pushers[t].pc == ToCas
  }

  function WriteWord(s: System, x: nat, value: nat): System {
    s.(arena := s.arena.(word := s.arena.word[x := value]))
  }

  /** One atomic step. */
  function Next(s: System, step: Step): System
    requires SysInv(s) && Enabled(s, step)
  {
    match step
    case AllocEnter(size) =>
      var c := (s.counter + 1) % WORD;
      s.(counter := c, pc := if c % DRAIN_INTERVAL == 0 then ToExchange(size, false) else Trying(size, false))
    case Exchange =>
      s.(pc := Draining(s.pc.size, s.pc.again), node := s.remote, remote := 0, detached := s.pending, pending := [])
    case DrainOne =>
      NodeIsOut(s);
      FreeLocalSound(s.arena, s.node);
      s.(arena := FreeLocal(s.arena, s.node).arena, node := s.arena.word[s.node], detached := s.detached[1..])
    case DrainDone => s.(pc := Trying(s.pc.size, s.pc.again))
    case TryAlloc(grant) =>
      var (b, x) := SlabAlloc(s.arena, s.pc.size, grant);
      if x != 0 then s.(arena := b, held := s.held + {x}, pc := Idle)
      else if s.pc.again then s.(arena := b, pc := Idle)
      else s.(arena := b, pc := ToExchange(s.pc.size, true))
    case BuddyAlloc(bytes, alignment, grant) =>
      var (b, x) := AllocBlock(s.arena, bytes, alignment, false, grant);
      if x != 0 then s.(arena := b, held := s.held + {x}) else s.(arena := b)
    case LocalFree(x) =>
      FreeLocalSound(s.arena, x);
      s.(arena := FreeLocal(s.arena, x).arena, held := s.held - {x})
    case UserWrite(x, value) => WriteWord(s, x, value)
    case PushBegin(t, x) => s.(pushers := s.pushers[t := Pusher(x, ToLoad, 0)], held := s.held - {x})
    case PushLoad(t) => s.(pushers := s.pushers[t := Pusher(s.pushers[t].ptr, ToWrite, s.remote)])
    case PushWrite(t) =>
      var p := s.pushers[t];
      WriteWord(s, p.ptr, p.head).(pushers := s.pushers[t := Pusher(p.ptr, ToCas, p.head)])
    case PushCas(t, spurious) =>
      var p := s.pushers[t];
      if spurious || s.remote != p.head then s.(pushers := s.pushers[t := Pusher(p.ptr, ToLoad, 0)])
      else s.(remote := p.ptr, pending := [p.ptr] + s.pending, pushers := s.pushers - {t})
  }

  /** The drain's cursor is an outstanding pointer whose link can be read. */
  lemma NodeIsOut(s: System)
    requires SysInv(s) && s.node != 0
    ensures s.detached != [] && s.node == s.detached[0] && IsOut(s.arena, s.node) && s.node in s.arena.word
    ensures Chain(s.arena.word, s.arena.word[s.node], s.detached[1..]) && s.node !in s.detached[1..]
  {
    hide IsOut;
    ChainPop(s.arena.word, s.node, s.detached);
  }

  // ------------------------------------------------------- preservation

  /** A step of the allocator that keeps the words of what was out keeps both chains
      and every link a pusher has written. */
  ghost predicate WordsKept(a: Arena, b: Arena, xs: set<nat>) {
    forall x <- xs :: (x in b.word <==> x in a.word) && (x in a.word ==> b.word[x] == a.word[x])
  }

  lemma ChainsKept(s: System, b: Arena, xs: set<nat>)
    requires SysInv(s) && WordsKept(s.arena, b, xs)
    requires Elems(s.pending) + Elems(s.detached) + InFlight(s) <= xs
    ensures Chain(b.word, s.remote, s.pending) && Chain(b.word, s.node, s.detached)
    ensures forall t <- s.pushers :: s.pushers[t].pc == ToCas ==>
              s.pushers[t].ptr in b.word && b.word[s.pushers[t].ptr] == s.pushers[t].head
  {
    hide ArenaInv, IsOut, Partitioned;
    assert forall x <- s.pending :: x in Elems(s.pending);
    assert forall x <- s.detached :: x in Elems(s.detached);
    assert forall t <- s.pushers :: s.pushers[t].ptr in InFlight(s);
    ChainKept(s.arena.word, b.word, s.remote, s.pending);
    ChainKept(s.arena.word, b.word, s.node, s.detached);
  }

  /** Handing out one pointer. */
  lemma HandOutKeeps(s: System, b: Arena, x: nat, pc: OwnerPc)
    requires SysInv(s) && ArenaInv(b) && HandedOut(s.arena, b, x) && !s.pc.Draining?
    ensures SysInv(s.(arena := b, held := s.held + {x}, pc := pc))
  {
    hide ArenaInv, IsOut, Chain;
    var xs := Elems(s.pending) + Elems(s.detached) + InFlight(s);
    ChainsKept(s, b, xs);
    assert InFlight(s.(arena := b, held := s.held + {x}, pc := pc)) == InFlight(s);
  }

  /** A failed attempt changes nothing that is out. */
  lemma FailedKeeps(s: System, b: Arena, pc: OwnerPc)
    requires SysInv(s) && ArenaInv(b) && KeepsOut(s.arena, b) && (forall y: nat :: IsOut(b, y) <==> IsOut(s.arena, y))
    requires !s.pc.Draining?
    ensures SysInv(s.(arena := b, pc := pc))
  {
    hide ArenaInv, IsOut, Chain;
    var xs := Elems(s.pending) + Elems(s.detached) + InFlight(s);
    ChainsKept(s, b, xs);
    assert InFlight(s.(arena := b, pc := pc)) == InFlight(s);
  }

  lemma LocalFreeKeeps(s: System, b: Arena, x: nat)
    requires SysInv(s) && ArenaInv(b) && GivenBack(s.arena, b, x) && x in s.held
    ensures SysInv(s.(arena := b, held := s.held - {x}))
  {
    hide ArenaInv, IsOut, Chain;
    var xs := Elems(s.pending) + Elems(s.detached) + InFlight(s);
    ChainsKept(s, b, xs);
    assert InFlight(s.(arena := b, held := s.held - {x})) == InFlight(s);
  }

  /** Freeing the cursor after its link was read: the rest of the list stays intact
      although the free overwrites the link. */
  lemma DrainOneKeeps(s: System, b: Arena)
    requires SysInv(s) && s.node != 0 && s.pc.Draining? && ArenaInv(b) && GivenBack(s.arena, b, s.node)
    requires s.detached != [] && s.node == s.detached[0] && s.node in s.arena.word && s.node !in s.detached[1..]
    requires Chain(s.arena.word, s.arena.word[s.node], s.detached[1..])
    ensures SysInv(s.(arena := b, node := s.arena.word[s.node], detached := s.detached[1..]))
  {
    hide ArenaInv, IsOut, Chain;
    var e := s.(arena := b, node := s.arena.word[s.node], detached := s.detached[1..]);
    TailMembers(s.detached);
    TailElems(s.detached);
    assert InFlight(e) == InFlight(s);
    DrainOneChains(s, b);
    hide InFlight, GivenBack;
    DrainOnePartition(s, e, b);
  }

  lemma DrainOnePartition(s: System, e: System, b: Arena)
    requires Partitioned(s) && s.detached != [] && e == s.(arena := b, node := e.node, detached := s.detached[1..])
    requires s.node == s.detached[0] && s.node !in s.detached[1..] && GivenBack(s.arena, b, s.node)
    requires Elems(s.detached[1..]) == Elems(s.detached) - {s.node}
    ensures Partitioned(e)
  {
    hide IsOut;
    TailMembers(s.detached);
    assert InFlight(e) == InFlight(s);
    assert s.node in Elems(s.detached);
    assert forall x <- s.pending :: x in Elems(s.pending);
    hide InFlight, Elems;
  }

  lemma TailElems(s: seq<nat>)
    requires s != [] && s[0] !in s[1..]
    ensures Elems(s[1..]) == Elems(s) - {s[0]}
  {
    TailMembers(s);
  }

  lemma DrainOneChains(s: System, b: Arena)
    requires SysInv(s) && GivenBack(s.arena, b, s.node) && s.detached != [] && s.node == s.detached[0]
    requires s.node !in s.detached[1..]
    requires s.node in s.arena.word && Chain(s.arena.word, s.arena.word[s.node], s.detached[1..])
    ensures Chain(b.word, s.remote, s.pending) && Chain(b.word, s.arena.word[s.node], s.detached[1..])
    ensures forall t <- s.pushers :: s.pushers[t].pc == ToCas ==>
              s.pushers[t].ptr in b.word && b.word[s.pushers[t].ptr] == s.pushers[t].head
  {
    hide ArenaInv, IsOut, Chain;
    TailMembers(s.detached);
    assert forall x <- s.pending :: x in Elems(s.pending);
    assert forall t <- s.pushers :: s.pushers[t].ptr in InFlight(s);
    assert s.node in Elems(s.detached);
    assert forall x <- s.detached[1..] :: x in Elems(s.detached) && x != s.node;
    ChainKept(s.arena.word, b.word, s.remote, s.pending) by { PendingLinked(s); }
    ChainKept(s.arena.word, b.word, s.arena.word[s.node], s.detached[1..])
      by { ChainLinked(s.arena.word, s.arena.word[s.node], s.detached[1..]); }
  }

  lemma PendingLinked(s: System)
    requires SysInv(s)
    ensures forall x <- s.pending :: x in s.arena.word
  {
    hide ArenaInv, IsOut;
    ChainLinked(s.arena.word, s.remote, s.pending);
  }

  /** Writing the first word of something that is out disturbs no free list. */
  lemma WordWriteKeepsArena(a: Arena, x: nat, value: nat)
    requires ArenaInv(a) && IsOut(a, x)
    ensures var b := a.(word := a.word[x := value]); ArenaInv(b) && forall y: nat :: IsOut(b, y) <==> IsOut(a, y)
  {
    hide Taken, Slots, BlockAt, BlockSize, ExtentsOk, CachesOk, Sizes.Capacity, AlignUp, SizeToOrder, SlabOk, BlockOk,
      IsOut, SlotsOf;
    var b := a.(word := a.word[x := value]);
    TakenSame(a, b);
    forall e: nat, n: nat | Taken(b, e, n)
      ensures BlockOk(b, e, n)
    {
      WordWriteBlock(a, x, value, e, n);
    }
    forall r <- b.slabs
      ensures SlabOk(b, r)
    {
      WordWriteSlab(a, x, value, r);
    }
    SameExtents(a, b);
    SameFull(a, b);
    forall y: nat
      ensures IsOut(b, y) <==> IsOut(a, y)
    {
      WordWriteOut(a, x, value, y);
    }
  }

  lemma WordWriteBlock(a: Arena, x: nat, value: nat, e: nat, n: nat)
    requires BlocksOk(a) && Taken(a, e, n)
    ensures BlockOk(a.(word := a.word[x := value]), e, n)
  {
    hide Taken, BlockAt, BlockSize, Placed;
    assert BlockOk(a, e, n);
  }

  lemma WordWriteSlab(a: Arena, x: nat, value: nat, r: nat)
    requires Core(a) && IsOut(a, x) && r in a.slabs
    ensures SlabOk(a.(word := a.word[x := value]), r)
  {
    hide Taken, Slots, BlockAt, BlockSize, ExtentsOk, CachesOk, BlocksOk, Chain, IsOut, SlotsOf, Sizes.Capacity,
      AlignUp, SizeToOrder;
    var b := a.(word := a.word[x := value]);
    TakenSame(a, b);
    SlabFacts(a, r);
    FreeSlotsInWord(a, r);
    forall y <- a.slabs[r].free
      ensures y != x
    {
      FreeSlotNotOut(a, r, y);
    }
    SlabKept(a, b, r);
  }

  lemma WordWriteOut(a: Arena, x: nat, value: nat, y: nat)
    ensures IsOut(a.(word := a.word[x := value]), y) <==> IsOut(a, y)
  {
    hide Slots, BlockAt, Sizes.Capacity, AlignUp, SizeToOrder;
    var b := a.(word := a.word[x := value]);
    TakenSame(a, b);
    assert forall r <- a.slabs :: SlotsOf(b, r) == SlotsOf(a, r);
    hide SlotsOf, Taken;
  }

  lemma SameExtents(a: Arena, b: Arena)
    requires ExtentsOk(a) && b.sizes == a.sizes && b.pools == a.pools && b.extents == a.extents && b.active == a.active
    ensures ExtentsOk(b)
  {
  }

  /** A write to an out pointer that is in neither chain. */
  lemma WriteKeepsChains(s: System, x: nat, value: nat)
    requires SysInv(s) && x !in s.pending && x !in s.detached
    ensures var word := s.arena.word[x := value]; Chain(word, s.remote, s.pending) && Chain(word, s.node, s.detached)
  {
    hide ArenaInv, IsOut, Partitioned;
    ChainLinked(s.arena.word, s.remote, s.pending);
    ChainLinked(s.arena.word, s.node, s.detached);
    ChainKept(s.arena.word, s.arena.word[x := value], s.remote, s.pending);
    ChainKept(s.arena.word, s.arena.word[x := value], s.node, s.detached);
  }

  /** A write by a holder: the pointer is in neither chain and no pusher has it. */
  lemma UserWriteKeeps(s: System, x: nat, value: nat)
    requires SysInv(s) && x in s.held
    ensures SysInv(WriteWord(s, x, value))
  {
    hide ArenaInv, IsOut, Chain;
    HeldIsOut(s, x);
    WordWriteKeepsArena(s.arena, x, value);
    HeldElsewhere(s, x);
    WriteKeepsChains(s, x, value);
    WritePartition(s, WriteWord(s, x, value));
    hide Partitioned;
  }

  lemma HeldElsewhere(s: System, x: nat)
    requires Partitioned(s) && x in s.held
    ensures x !in s.pending && x !in s.detached && forall t <- s.pushers :: s.pushers[t].ptr != x
  {
    hide IsOut;
    assert x !in Elems(s.pending) && x !in Elems(s.detached);
    assert forall t <- s.pushers :: s.pushers[t].ptr in InFlight(s);
  }

  lemma WritePartition(s: System, w: System)
    requires Partitioned(s) && w == s.(arena := w.arena) && forall y: nat :: IsOut(w.arena, y) <==> IsOut(s.arena, y)
    ensures Partitioned(w)
  {
    hide IsOut;
    assert InFlight(w) == InFlight(s);
  }

  lemma PushWriteKeeps(s: System, t: nat)
    requires SysInv(s) && t in s.pushers
    ensures var p := s.pushers[t];
            SysInv(WriteWord(s, p.ptr, p.head).(pushers := s.pushers[t := Pusher(p.ptr, ToCas, p.head)]))
  {
    hide ArenaInv, IsOut, Chain;
    var p := s.pushers[t];
    assert p.ptr in InFlight(s);
    WordWriteKeepsArena(s.arena, p.ptr, p.head);
    var w := WriteWord(s, p.ptr, p.head).(pushers := s.pushers[t := Pusher(p.ptr, ToCas, p.head)]);
    SameInFlight(s, w, t);
    assert forall y <- s.pending :: y in Elems(s.pending);
    assert forall y <- s.detached :: y in Elems(s.detached);
    WriteKeepsChains(s, p.ptr, p.head);
  }

  lemma SameInFlight(s: System, w: System, t: nat)
    requires t in s.pushers && w.pushers.Keys == s.pushers.Keys
    requires forall u <- s.pushers :: w.pushers[u].ptr == s.pushers[u].ptr
    ensures InFlight(w) == InFlight(s)
  {
    assert forall u <- s.pushers :: s.pushers[u].ptr in InFlight(w);
    assert forall u <- w.pushers :: w.pushers[u].ptr in InFlight(s);
  }

  lemma PusherMoves(s: System, t: nat, pc: PushPc, head: nat)
    requires SysInv(s) && t in s.pushers && pc != ToCas
    ensures SysInv(s.(pushers := s.pushers[t := Pusher(s.pushers[t].ptr, pc, head)]))
  {
    hide ArenaInv, IsOut, Chain;
    SameInFlight(s, s.(pushers := s.pushers[t := Pusher(s.pushers[t].ptr, pc, head)]), t);
  }

  lemma PushBeginKeeps(s: System, t: nat, x: nat)
    requires SysInv(s) && t !in s.pushers && x in s.held
    ensures SysInv(s.(pushers := s.pushers[t := Pusher(x, ToLoad, 0)], held := s.held - {x}))
  {
    hide ArenaInv, IsOut, Chain;
    var w := s.(pushers := s.pushers[t := Pusher(x, ToLoad, 0)], held := s.held - {x});
    assert forall u <- s.pushers :: s.pushers[u].ptr in InFlight(s) && w.pushers[u] == s.pushers[u];
    assert w.pushers[t].ptr == x;
    forall y: nat
      ensures y in InFlight(w) <==> y in InFlight(s) || y == x
    {
      if y in InFlight(s) {
        var u :| u in s.pushers && s.pushers[u].ptr == y;
        assert w.pushers[u].ptr == y;
      }
    }
  }

  lemma FlightShrinks(s: System, w: System, t: nat)
    requires SysInv(s) && t in s.pushers && w.pushers == s.pushers - {t}
    ensures InFlight(w) == InFlight(s) - {s.pushers[t].ptr} && s.pushers[t].ptr in InFlight(s)
  {
    hide ArenaInv, IsOut, Chain;
    assert forall u <- w.pushers :: w.pushers[u] == s.pushers[u] && u in s.pushers && s.pushers[u].ptr in InFlight(s);
    assert forall u <- s.pushers :: u != t ==> u in w.pushers && w.pushers[u].ptr in InFlight(w);
  }

  /** A successful swap: the head is the one linked, whatever happened in between. */
  lemma PushCasKeeps(s: System, t: nat)
    requires SysInv(s) && t in s.pushers && s.pushers[t].pc == ToCas && s.remote == s.pushers[t].head
    ensures SysInv(s.(remote := s.pushers[t].ptr, pending := [s.pushers[t].ptr] + s.pending,
                      pushers := s.pushers - {t}))
  {
    hide ArenaInv, IsOut, Chain;
    var x := s.pushers[t].ptr;
    var w := s.(remote := x, pending := [x] + s.pending, pushers := s.pushers - {t});
    FlightShrinks(s, w, t);
    assert x !in Elems(s.pending);
    OutIsPositive(s, x);
    ConsDistinct(x, s.pending) by { ChainDistinct(s.arena.word, s.remote, s.pending); }
    assert s.arena.word == s.arena.word[x := s.remote];
    ChainPush(s.arena.word, s.remote, s.pending, x);
    hide InFlight;
    PushCasPartition(s, w, x);
  }

  lemma PushCasPartition(s: System, w: System, x: nat)
    requires Partitioned(s) && w == s.(remote := x, pending := [x] + s.pending, pushers := w.pushers)
    requires w.pushers.Keys <= s.pushers.Keys && forall t <- w.pushers :: w.pushers[t] == s.pushers[t]
    requires InFlight(w) == InFlight(s) - {x} && x in InFlight(s)
    ensures Partitioned(w)
  {
    hide IsOut, InFlight;
    assert forall y: nat :: y in w.pending <==> y == x || y in s.pending;
    assert Elems(w.pending) == Elems(s.pending) + {x};
    hide Elems;
  }

  lemma OutIsPositive(s: System, x: nat)
    requires SysInv(s) && IsOut(s.arena, x)
    ensures x > 0
  {
    hide Taken, Slots, BlockAt, BlockSize, ExtentsOk, CachesOk, Sizes.Capacity, AlignUp, SizeToOrder;
    var a := s.arena;
    if a.headers[x].SlabHeader? {
      SlotPositive(a, a.headers[x].slab, x);
    } else {
      assert BlockOk(a, a.headers[x].ext, a.headers[x].node);
    }
  }

  lemma ExchangeKeeps(s: System)
    requires SysInv(s) && s.pc.ToExchange?
    ensures SysInv(s.(pc := Draining(s.pc.size, s.pc.again), node := s.remote, remote := 0, detached := s.pending,
                      pending := []))
  {
    hide ArenaInv, IsOut, Chain;
    var w := s.(pc := Draining(s.pc.size, s.pc.again), node := s.remote, remote := 0, detached := s.pending,
                pending := []);
    assert InFlight(w) == InFlight(s);
    EmptyChain(s.arena.word);
  }

  lemma DrainDoneKeeps(s: System, pc: OwnerPc)
    requires SysInv(s) && s.node == 0
    ensures SysInv(s.(pc := pc))
  {
    assert s.detached == [] by { hide ArenaInv, IsOut; }
    hide ArenaInv, IsOut, Chain;
    assert InFlight(s.(pc := pc)) == InFlight(s);
  }

  lemma EnterKeeps(s: System, c: nat, pc: OwnerPc)
    requires SysInv(s) && s.pc.Idle? && c < WORD
    ensures SysInv(s.(counter := c, pc := pc))
  {
    hide ArenaInv, IsOut, Chain;
    assert InFlight(s.(counter := c, pc := pc)) == InFlight(s);
  }

  /** Every step of every interleaving keeps the invariant. */
  lemma StepKeeps(s: System, step: Step)
    requires SysInv(s) && Enabled(s, step)
    ensures SysInv(Next(s, step))
  {
    hide Core, IsOut, Chain, Partitioned, SlabAlloc, AllocBlock, FreeLocal, HandedOut, KeepsOut, GivenBack;
    match step
    case AllocEnter(size) =>
      var c := (s.counter + 1) % WORD;
      EnterKeeps(s, c, if c % DRAIN_INTERVAL == 0 then ToExchange(size, false) else Trying(size, false));
    case Exchange => ExchangeKeeps(s);
    case DrainOne =>
      NodeIsOut(s);
      FreeLocalSound(s.arena, s.node);
      DrainOneKeeps(s, FreeLocal(s.arena, s.node).arena);
    case DrainDone => DrainDoneKeeps(s, Trying(s.pc.size, s.pc.again));
    case TryAlloc(grant) =>
      SlabAllocSound(s.arena, s.pc.size, grant);
      var (b, x) := SlabAlloc(s.arena, s.pc.size, grant);
      if x != 0 {
        HandOutKeeps(s, b, x, Idle);
      } else {
        FailedKeeps(s, b, if s.pc.again then Idle else ToExchange(s.pc.size, true));
      }
    case BuddyAlloc(bytes, alignment, grant) =>
      BuddyRequestKeeps(s, bytes, alignment, grant);
    case LocalFree(x) =>
      HeldIsOut(s, x);
      FreeLocalSound(s.arena, x);
      LocalFreeKeeps(s, FreeLocal(s.arena, x).arena, x);
    case UserWrite(x, value) => UserWriteKeeps(s, x, value);
    case PushBegin(t, x) => PushBeginKeeps(s, t, x);
    case PushLoad(t) => PusherMoves(s, t, ToWrite, s.remote);
    case PushWrite(t) => PushWriteKeeps(s, t);
    case PushCas(t, spurious) =>
      if spurious || s.remote != s.pushers[t].head {
        PusherMoves(s, t, ToLoad, 0);
      } else {
        PushCasKeeps(s, t);
      }
  }

  lemma HeldIsOut(s: System, x: nat)
    requires SysInv(s) && x in s.held
    ensures IsOut(s.arena, x)
  {
    hide ArenaInv, IsOut, Chain;
  }

  lemma BuddyRequestKeeps(s: System, bytes: nat, alignment: nat, grant: Option<nat>)
    requires SysInv(s) && s.pc.Idle? && 0 < alignment < WORD && bytes < WORD && MaybeGrant(s.arena, grant)
    ensures var (b, x) := AllocBlock(s.arena, bytes, alignment, false, grant);
            SysInv(if x != 0 then s.(arena := b, held := s.held + {x}) else s.(arena := b))
  {
    hide Core, IsOut, Chain, Partitioned, AllocBlock, HandedOut, KeepsOut;
    CoreShape(s.arena);
    BuddyRequestSound(s.arena, bytes, alignment, grant);
    var (b, x) := AllocBlock(s.arena, bytes, alignment, false, grant);
    if x != 0 {
      HandOutKeeps(s, b, x, Idle);
      assert s.(arena := b, held := s.held + {x}, pc := Idle) == s.(arena := b, held := s.held + {x});
    } else {
      FailedKeeps(s, b, Idle);
      assert s.(arena := b, pc := Idle) == s.(arena := b);
    }
  }
}
