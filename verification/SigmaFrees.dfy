/** Giving pointers back across the tiers, from the owner's thread or another: src/free.c
    and large_free, and what is left once everything has come back. */
module SigmaFrees {
  import opened Words
  import opened Arena
  import opened ArenaSlabs
  import opened ArenaFrees
  import opened ArenaTheorems
  import opened ArenaCalls
  import opened Sigma
  import opened SigmaTheorems

  datatype SigmaResult = Panics | Done(sigma: Sigma)

  /** `t` is `s` after `x` came back from a user; everything else is kept. */
  ghost predicate TakenBack(s: Sigma, t: Sigma, x: nat) {
    forall y: nat :: (IsUser(t, y) <==> IsUser(s, y) && y != x) && (IsUser(t, y) ==> KeepsUser(s, t, y))
  }

  // ------------------------------------------------------------- one object

  datatype Gone = Panicked | Went(local: Local)

  /** An object of the arena is freed on the owner's thread (`here`) or pushed onto its
      remote stack by another. */
  function LetGo(l: Local, x: nat, here: bool): Gone
    requires LocalInv(l) && InHand(l, x)
  {
    if here then
      match FreeLocal(l.arena, x)
      case Panic => Panicked
      case Freed(a) => Went(l.(arena := a))
    else Went(Pushed(l, x))
  }

  lemma LetGoSound(l: Local, x: nat, here: bool)
    requires LocalInv(l) && InHand(l, x)
    ensures LetGo(l, x, here).Went? && Surrendered(l, LetGo(l, x, here).local, x) && LocalInv(LetGo(l, x, here).local)
  {
    hide Core, IsOut, StackOk, FreeLocal, Pushed;
    if here {
      FreeHereSound(l, x);
    } else {
      PushedSound(l, x);
    }
  }

  lemma FreeHereIs(l: Local, x: nat)
    requires LocalInv(l) && InHand(l, x)
    ensures LetGo(l, x, true) == Went(FreeHere(l, x))
  {
    hide LocalInv, InHand, FreeLocal, Surrendered;
    FreeHereSound(l, x);
  }

  // ------------------------------------------------------------ operations

  lemma LargeObjectsOut(s: Sigma, x: nat)
    requires SigmaInv(s) && x in s.large
    ensures IsInfra(s.local, s.large[x].node) && IsInfra(s.local, s.large[x].meta) && s.large[x].node != s.large[x].meta
    ensures LocalInv(s.local) && InHand(s.local, s.large[x].node) && InHand(s.local, s.large[x].meta)
  {
    hide LocalInv, InHand;
    assert LargeOk(s, x);
  }

  /** After the metadata object has gone the node is still there. */
  lemma NodeStillOut(s: Sigma, x: nat, here: bool)
    requires SigmaInv(s) && x in s.large
    ensures LocalInv(s.local) && InHand(s.local, s.large[x].meta) && LetGo(s.local, s.large[x].meta, here).Went?
    ensures var k := LetGo(s.local, s.large[x].meta, here).local;
            && LocalInv(k) && Surrendered(s.local, k, s.large[x].meta) && InHand(k, s.large[x].node)
            && LetGo(k, s.large[x].node, here).Went?
            && var j := LetGo(k, s.large[x].node, here).local; LocalInv(j) && Surrendered(k, j, s.large[x].node)
  {
    LargeObjectsOut(s, x);
    hide SigmaInv, LocalInv, InHand, LetGo, IsInfra;
    LetGoSound(s.local, s.large[x].meta, here);
    LetGoSound(LetGo(s.local, s.large[x].meta, here).local, s.large[x].node, here);
  }

  /** The state large_free leaves. */
  function WithoutLarge(s: Sigma, k: Local, x: nat): Sigma {
    s.(local := k, large := s.large - {x}, order := Without(s.order, x))
  }

  /** large_free: the metadata object, then the node, then the mapping. */
  function LargeFree(s: Sigma, x: nat, here: bool): SigmaResult
    requires SigmaInv(s) && x in s.large
  {
    NodeStillOut(s, x, here);
    var l := s.large[x];
    match LetGo(s.local, l.meta, here)
    case Panicked => Panics
    case Went(k) =>
      match LetGo(k, l.node, here)
      case Panicked => Panics
      case Went(j) => Done(WithoutLarge(s, j, x))
  }

  /** sigma_free: dispatch on the type in the header and on the calling thread. */
  function SigmaFree(s: Sigma, x: nat, here: bool): SigmaResult
    requires SigmaInv(s) && IsUser(s, x)
  {
    if x in s.large then LargeFree(s, x, here)
    else
      InvShape(s);
      match LetGo(s.local, x, here)
      case Panicked => Panics
      case Went(k) => Done(s.(local := k))
  }

  // ------------------------------------------------------------ soundness

  lemma SmallFreeSound(s: Sigma, x: nat, here: bool)
    requires SigmaInv(s) && IsUser(s, x) && x !in s.large
    ensures SigmaFree(s, x, here).Done? && SigmaInv(SigmaFree(s, x, here).sigma)
    ensures TakenBack(s, SigmaFree(s, x, here).sigma, x)
  {
    InvShape(s);
    hide SigmaInv, LocalInv, InHand, LetGo, Infra, Surrendered, TakenBack;
    LetGoSound(s.local, x, here);
    var k := LetGo(s.local, x, here).local;
    InfraKept(s.local, k, x, Infra(s));
    FewerExtentsApart(s, s.local, k, x);
    ArenaStepKeeps(s, k);
    OneTakenBack(s, k, x);
  }

  lemma OneTakenBack(s: Sigma, k: Local, x: nat)
    requires x !in s.large && Infra(s.(local := k)) == Infra(s) && Surrendered(s.local, k, x)
    ensures TakenBack(s, s.(local := k), x)
  {
    hide LocalInv, InHand, Infra;
  }

  lemma InfraKept(l: Local, k: Local, x: nat, xs: set<nat>)
    requires Surrendered(l, k, x) && x !in xs
    ensures forall y: nat :: IsInfra(l, y) && y in xs ==> ObjectStays(l, k, y)
  {
    hide LocalInv, InHand;
  }

  lemma FewerExtentsApart(s: Sigma, l: Local, k: Local, x: nat)
    requires SigmaInv(s) && ExtentsApart(l.arena, Mappings(s)) && Surrendered(l, k, x)
    ensures ExtentsApart(k.arena, Mappings(s))
  {
    hide LocalInv, InHand, LargesOk, FixedApart, MappingApart;
  }

  /** What a large_free takes out of the arena: the two objects of `l`. */
  ghost predicate TwoFewerOut(a: Local, b: Local, l: Large) {
    && (forall y: nat :: InHand(b, y) <==> InHand(a, y) && y != l.node && y != l.meta)
    && (forall y: nat :: InHand(b, y) ==> HeaderKept(a.arena, b.arena, y))
  }

  lemma TwoGivenBack(a: Local, b: Local, c: Local, l: Large)
    requires Surrendered(a, b, l.meta) && Surrendered(b, c, l.node)
    ensures TwoFewerOut(a, c, l)
  {
    hide LocalInv, InHand;
  }

  lemma OtherLargeKept(s: Sigma, b: Local, x: nat, v: nat)
    requires SigmaInv(s) && x in s.large && v in s.large && v != x && TwoFewerOut(s.local, b, s.large[x])
    ensures LargeOk(WithoutLarge(s, b, x), v)
  {
    hide LocalInv, InHand, ExtentsApart, FixedApart;
    assert LargeOk(s, v);
    assert LargesApart(s.large[v], s.large[x]);
  }

  lemma LargeGoneInv(s: Sigma, b: Local, x: nat)
    requires SigmaInv(s) && x in s.large && TwoFewerOut(s.local, b, s.large[x]) && LocalInv(b)
    requires ExtentsApart(b.arena, Mappings(s))
    ensures SigmaInv(WithoutLarge(s, b, x))
  {
    hide LocalInv, InHand, ExtentsApart, LargeOk, LargesApart, Distinct, Elems, TwoFewerOut, Without, Mappings;
    var t := WithoutLarge(s, b, x);
    FewerMappings(s, b, x);
    FewerMappingsApart(b.arena, Mappings(t), Mappings(s));
    OrderWithout(s, x);
    forall v <- t.large
      ensures LargeOk(t, v)
    {
      OtherLargeKept(s, b, x, v);
    }
    assert forall v <- t.large :: v in s.large && t.large[v] == s.large[v];
  }

  lemma OrderWithout(s: Sigma, x: nat)
    requires Distinct(s.order) && Elems(s.order) == s.large.Keys
    ensures Distinct(Without(s.order, x)) && Elems(Without(s.order, x)) == (s.large - {x}).Keys
  {
    WithoutDistinct(s.order, x);
    assert forall y: nat :: y in s.order <==> y in Elems(s.order);
  }

  lemma FewerMappings(s: Sigma, b: Local, x: nat)
    ensures Mappings(WithoutLarge(s, b, x)) <= Mappings(s)
  {
    var t := WithoutLarge(s, b, x);
    assert forall v <- t.large :: v in s.large && t.large[v] == s.large[v];
  }

  lemma FewerMappingsApart(b: Arena, ms: set<Mapping>, ns: set<Mapping>)
    requires ms <= ns && ExtentsApart(b, ns)
    ensures ExtentsApart(b, ms)
  {
    hide MappingApart;
  }

  lemma InfraWithout(s: Sigma, b: Local, x: nat)
    requires LargesOk(s) && x in s.large
    ensures Infra(WithoutLarge(s, b, x)) == Infra(s) - {s.large[x].node, s.large[x].meta}
  {
    hide LargeOk;
    var t := WithoutLarge(s, b, x);
    assert forall v <- t.large :: v in s.large && t.large[v] == s.large[v] && LargesApart(s.large[v], s.large[x]);
    assert forall v <- s.large :: v != x ==> v in t.large && t.large[v] == s.large[v];
  }

  lemma LargeGoneHands(s: Sigma, b: Local, x: nat)
    requires SigmaInv(s) && x in s.large && TwoFewerOut(s.local, b, s.large[x])
    ensures TakenBack(s, WithoutLarge(s, b, x), x)
  {
    LargesAre(s);
    InfraWithout(s, b, x);
    LargeNotOut(s, x);
    InfraHas(s, x);
    LargeNotInHand(s, x);
    hide SigmaInv, TwoFewerOut, TakenBack, Infra, InHand, WithoutLarge, LargesOk, IsOut;
    LargeGoneForAll(s, b, x);
  }

  lemma LargeNotInHand(s: Sigma, x: nat)
    requires !IsOut(s.local.arena, x)
    ensures !InHand(s.local, x)
  {
  }

  lemma LargeGoneForAll(s: Sigma, b: Local, x: nat)
    requires x in s.large && TwoFewerOut(s.local, b, s.large[x]) && !InHand(s.local, x)
    requires Infra(WithoutLarge(s, b, x)) == Infra(s) - {s.large[x].node, s.large[x].meta}
    requires s.large[x].node in Infra(s) && s.large[x].meta in Infra(s)
    ensures TakenBack(s, WithoutLarge(s, b, x), x)
  {
    hide InHand, Infra, Without, IsUser, TwoFewerOut, KeepsUser, WithoutLarge;
    forall y: nat
      ensures IsUser(WithoutLarge(s, b, x), y) <==> IsUser(s, y) && y != x
      ensures IsUser(WithoutLarge(s, b, x), y) ==> KeepsUser(s, WithoutLarge(s, b, x), y)
    {
      LargeGoneHand(s, b, x, y);
    }
  }

  lemma LargeGoneHand(s: Sigma, b: Local, x: nat, y: nat)
    requires x in s.large && TwoFewerOut(s.local, b, s.large[x]) && !InHand(s.local, x)
    requires Infra(WithoutLarge(s, b, x)) == Infra(s) - {s.large[x].node, s.large[x].meta}
    requires s.large[x].node in Infra(s) && s.large[x].meta in Infra(s)
    ensures var t := WithoutLarge(s, b, x);
            (IsUser(t, y) <==> IsUser(s, y) && y != x) && (IsUser(t, y) ==> KeepsUser(s, t, y))
  {
    hide InHand, Infra, Without;
    var t := WithoutLarge(s, b, x);
    assert y in t.large <==> y in s.large && y != x;
  }

  lemma LargesAre(s: Sigma)
    requires SigmaInv(s)
    ensures LargesOk(s) && ExtentsApart(s.local.arena, Mappings(s))
  {
  }

  lemma InfraHas(s: Sigma, x: nat)
    requires x in s.large
    ensures s.large[x].node in Infra(s) && s.large[x].meta in Infra(s)
  {
  }

  lemma LargeFreeSound(s: Sigma, x: nat, here: bool)
    requires SigmaInv(s) && x in s.large
    ensures LargeFree(s, x, here).Done? && SigmaInv(LargeFree(s, x, here).sigma)
    ensures TakenBack(s, LargeFree(s, x, here).sigma, x)
  {
    hide SigmaInv, LocalInv, InHand, LetGo, Surrendered, TwoFewerOut, TakenBack, LargesOk, ExtentsApart, Mappings;
    NodeStillOut(s, x, here);
    LargesAre(s);
    var l := s.large[x];
    var k := LetGo(s.local, l.meta, here).local;
    var j := LetGo(k, l.node, here).local;
    FewerExtentsApart(s, s.local, k, l.meta);
    FewerExtentsApart(s, k, j, l.node);
    TwoGivenBack(s.local, k, j, l);
    LargeGoneInv(s, j, x);
    LargeGoneHands(s, j, x);
  }

  /** sigma_free on any pointer a user holds, from any thread, never panics and takes
      back exactly that pointer, whichever tier it came from. */
  lemma SigmaFreeSound(s: Sigma, x: nat, here: bool)
    requires SigmaInv(s) && IsUser(s, x)
    ensures SigmaFree(s, x, here).Done? && SigmaInv(SigmaFree(s, x, here).sigma)
    ensures TakenBack(s, SigmaFree(s, x, here).sigma, x)
  {
    hide SigmaInv, InHand, LetGo, LargeFree, TakenBack;
    if x in s.large {
      LargeFreeSound(s, x, here);
    } else {
      SmallFreeSound(s, x, here);
    }
  }

  // ------------------------------------------------ which thread frees

  lemma OutOrPending(l: Local)
    requires LocalInv(l)
    ensures forall y: nat :: IsOut(l.arena, y) <==> InHand(l, y) || y in l.stack
  {
    hide ArenaInv, IsOut, Chain;
  }

  /** On the owner's thread an object goes out of the arena and the stack stays; on another
      the arena keeps it and it heads the stack. */
  lemma LetGoExactly(l: Local, x: nat, here: bool)
    requires LocalInv(l) && InHand(l, x)
    ensures LetGo(l, x, here).Went? && LocalInv(LetGo(l, x, here).local)
    ensures LetGo(l, x, here).local.stack == if here then l.stack else [x] + l.stack
    ensures forall y: nat :: IsOut(LetGo(l, x, here).local.arena, y) <==> IsOut(l.arena, y) && !(here && y == x)
  {
    hide LocalInv, InHand, FreeLocal, IsOut;
    LetGoSound(l, x, here);
    OutOrPending(l);
    OutOrPending(LetGo(l, x, here).local);
    NotPending(l, x);
  }

  lemma NotPending(l: Local, x: nat)
    requires InHand(l, x)
    ensures IsOut(l.arena, x) && x !in l.stack
  {
  }

  /** The objects of the arena that one free lets go, in the order in which pushes leave
      them on the stack. */
  function ObjectsOf(s: Sigma, x: nat): seq<nat> {
    if x in s.large then [s.large[x].node, s.large[x].meta] else [x]
  }

  /** A free by the owner of the arena returns at once what it frees and never touches the
      remote stack, whatever is pending there. */
  lemma OwnerFreesAtOnce(s: Sigma, x: nat)
    requires SigmaInv(s) && IsUser(s, x)
    ensures SigmaFree(s, x, true).Done?
    ensures var t := SigmaFree(s, x, true).sigma;
            var objects := if x in s.large then [s.large[x].node, s.large[x].meta] else [x];
            && t.local.stack == s.local.stack
            && (forall y: nat :: IsOut(t.local.arena, y) <==> IsOut(s.local.arena, y) && y !in objects)
  {
    FreeExactly(s, x, true);
  }

  /** A free by any other thread returns nothing to the arena and puts what it frees in
      front of what is pending. */
  lemma OthersPush(s: Sigma, x: nat)
    requires SigmaInv(s) && IsUser(s, x)
    ensures SigmaFree(s, x, false).Done?
    ensures var t := SigmaFree(s, x, false).sigma;
            var objects := if x in s.large then [s.large[x].node, s.large[x].meta] else [x];
            && t.local.stack == objects + s.local.stack
            && (forall y: nat :: IsOut(t.local.arena, y) <==> IsOut(s.local.arena, y))
  {
    FreeExactly(s, x, false);
  }

  lemma FreeExactly(s: Sigma, x: nat, here: bool)
    requires SigmaInv(s) && IsUser(s, x)
    ensures SigmaFree(s, x, here).Done?
    ensures var t := SigmaFree(s, x, here).sigma;
            && t.local.stack == (if here then s.local.stack else ObjectsOf(s, x) + s.local.stack)
            && (forall y: nat :: IsOut(t.local.arena, y)
                  <==> IsOut(s.local.arena, y) && !(here && y in ObjectsOf(s, x)))
  {
    hide SigmaInv, LocalInv, InHand, IsOut, LetGo, Surrendered, LargeFree;
    InvShape(s);
    if x in s.large {
      LargeFreeExactly(s, x, here);
    } else {
      LetGoExactly(s.local, x, here);
    }
  }

  lemma LargeFreeExactly(s: Sigma, x: nat, here: bool)
    requires SigmaInv(s) && x in s.large
    ensures LargeFree(s, x, here).Done?
    ensures var t := LargeFree(s, x, here).sigma;
            && t.local.stack == (if here then s.local.stack else [s.large[x].node, s.large[x].meta] + s.local.stack)
            && (forall y: nat :: IsOut(t.local.arena, y)
                  <==> IsOut(s.local.arena, y) && !(here && (y == s.large[x].node || y == s.large[x].meta)))
  {
    hide SigmaInv, LocalInv, InHand, IsOut, LetGo, Surrendered, Without;
    NodeStillOut(s, x, here);
    var l := s.large[x];
    LetGoExactly(s.local, l.meta, here);
    LetGoExactly(LetGo(s.local, l.meta, here).local, l.node, here);
    assert [l.node] + ([l.meta] + s.local.stack) == [l.node, l.meta] + s.local.stack;
  }

  // ------------------------------------------------------------- recovery

  /** A pointer coming back, and whether on the owner's thread. */
  datatype Return = Return(x: nat, here: bool)

  function Pointers(rs: seq<Return>): (xs: seq<nat>)
    ensures |xs| == |rs|
  {
    seq(|rs|, i requires 0 <= i < |rs| => rs[i].x)
  }

  /** The pointers come back one after another, each from its own thread. */
  ghost function FreeEach(s: Sigma, rs: seq<Return>): (t: Sigma)
    requires SigmaInv(s) && Distinct(Pointers(rs)) && forall x <- Pointers(rs) :: IsUser(s, x)
    ensures SigmaInv(t)
    decreases |rs|
  {
    if rs == [] then s
    else
      assert rs[0].x == Pointers(rs)[0];
      SigmaFreeSound(s, rs[0].x, rs[0].here);
      StillUsers(s, rs);
      FreeEach(SigmaFree(s, rs[0].x, rs[0].here).sigma, rs[1..])
  }

  lemma StillUsers(s: Sigma, rs: seq<Return>)
    requires SigmaInv(s) && rs != [] && Distinct(Pointers(rs)) && forall x <- Pointers(rs) :: IsUser(s, x)
    ensures IsUser(s, rs[0].x) && SigmaFree(s, rs[0].x, rs[0].here).Done?
    ensures Pointers(rs)[1..] == Pointers(rs[1..]) && Distinct(Pointers(rs[1..]))
    ensures forall x <- Pointers(rs[1..]) :: IsUser(SigmaFree(s, rs[0].x, rs[0].here).sigma, x)
    ensures forall x: nat :: IsUser(SigmaFree(s, rs[0].x, rs[0].here).sigma, x) <==> IsUser(s, x) && x != rs[0].x
  {
    hide SigmaInv, IsUser, SigmaFree;
    assert rs[0].x == Pointers(rs)[0] && Pointers(rs)[0] in Pointers(rs);
    SigmaFreeSound(s, rs[0].x, rs[0].here);
    assert Pointers(rs)[1..] == Pointers(rs[1..]);
    forall x <- Pointers(rs[1..])
      ensures x in Pointers(rs) && x != rs[0].x
    {
      var i :| 0 <= i < |Pointers(rs[1..])| && Pointers(rs[1..])[i] == x;
      assert Pointers(rs)[i + 1] == x;
    }
  }

  /** Once everything users hold has come back, in any order and from any threads, a
      drain leaves nothing of any tier: no slab, no mapping and no bookkeeping object,
      and every pool is one free block. */
  lemma {:induction false} FreeEachRecovers(s: Sigma, rs: seq<Return>)
    requires SigmaInv(s) && Distinct(Pointers(rs)) && (forall x <- Pointers(rs) :: IsUser(s, x))
    requires forall x: nat :: IsUser(s, x) ==> x in Pointers(rs)
    ensures var t := FreeEach(s, rs);
            && LocalInv(t.local) && Recovered(Drained(t.local).arena)
            && t.large == map[] && t.order == [] && MappingsOf(t.large) == {}
    decreases |rs|
  {
    hide SigmaInv, LocalInv, IsUser, SigmaFree, Recovered, Drained, MappingsOf;
    if rs == [] {
      NobodyHolds(s);
    } else {
      StillUsers(s, rs);
      SigmaFreeSound(s, rs[0].x, rs[0].here);
      TailMembers(Pointers(rs));
      FreeEachRecovers(SigmaFree(s, rs[0].x, rs[0].here).sigma, rs[1..]);
    }
  }

  lemma NobodyHolds(s: Sigma)
    requires SigmaInv(s) && forall x: nat :: !IsUser(s, x)
    ensures LocalInv(s.local) && Recovered(Drained(s.local).arena) && s.large == map[] && s.order == []
    ensures MappingsOf(s.large) == {}
  {
    hide LocalInv, InHand, LargesOk, FixedApart, ExtentsApart, Recovered, Drained;
    assert forall x: nat :: x in s.large ==> IsUser(s, x);
    assert s.large.Keys == {};
    assert s.large == map[];
    assert forall x: nat :: x in s.order <==> x in Elems(s.order);
    EmptyByMembers(s.order);
    assert forall x: nat :: InHand(s.local, x) ==> IsUser(s, x);
    NothingInHand(s.local);
  }

  lemma NothingInHand(l: Local)
    requires LocalInv(l) && forall x: nat :: !InHand(l, x)
    ensures Recovered(Drained(l).arena)
  {
    DrainSound(l, {});
    OutIsInHand(Drained(l)) by { DrainedShape(l); }
    hide InHand, IsOut, Core, Recovered, Drained;
    NothingOut(Drained(l).arena);
  }

  lemma OutIsInHand(l: Local)
    requires l.stack == []
    ensures forall x: nat :: IsOut(l.arena, x) <==> InHand(l, x)
  {
    hide IsOut;
  }
}
