/** The slab operations keep the arena invariant and move exactly one slot between
    the allocator and its users (src/slab.c). */
module ArenaSlabs {
  import opened Words
  import opened BuddyLayout
  import opened SlabLayout
  import opened Arena
  import opened ArenaOps
  import opened ArenaBlocks

  // ------------------------------------------------------------ carving

  /** Outside the addresses in `s` the two arenas have the same words and headers. */
  ghost predicate SameElsewhere(b: Arena, d: Arena, s: seq<nat>) {
    && (forall x: nat :: x !in s ==> (x in d.word <==> x in b.word) && (x in b.word ==> d.word[x] == b.word[x]))
    && (forall x: nat :: x !in s ==>
          (x in d.headers <==> x in b.headers) && (x in b.headers ==> d.headers[x] == b.headers[x]))
  }

  /** After `k` turns the words link the carved slots and nothing else changed. */
  lemma {:induction false} CarveLinks(b: Arena, r: nat, c: nat, k: nat)
    requires b.sizes.Plausible() && c < NUM_CACHES && k <= b.sizes.Capacity(c)
    ensures var d := Carve(b, r, c, k);
            var s := Carved(b.sizes, r, c, k);
            && d == b.(word := d.word, headers := d.headers) && SameElsewhere(b, d, s)
            && Chain(d.word, if k == 0 then 0 else s[0], s)
            && (forall x <- s :: x in d.headers && d.headers[x] == SlabHeader(true, r, 0))
  {
    CarvedDistinct(b.sizes, r, c, k);
    hide AlignUp, Chain, SameElsewhere, SizeToOrder, Sizes.Capacity;
    if k == 0 {
      EmptyCarving(b);
    } else {
      CarveLinks(b, r, c, k - 1);
      SlotInside(b.sizes, r, c, k - 1);
      CarveStep(b, Carve(b, r, c, k - 1), r, Carved(b.sizes, r, c, k - 1), b.sizes.Slot(r, c, k - 1));
    }
  }

  lemma EmptyCarving(b: Arena)
    ensures SameElsewhere(b, b, []) && Chain(b.word, 0, [])
  {
  }

  /** One turn: slot `x` is given a header and pushed on the free list. */
  lemma CarveStep(b: Arena, d: Arena, r: nat, s: seq<nat>, x: nat)
    requires SameElsewhere(b, d, s) && Chain(d.word, if s == [] then 0 else s[0], s) && Distinct([x] + s) && x > 0
    requires forall y <- s :: y in d.headers && d.headers[y] == SlabHeader(true, r, 0)
    ensures var e := d.(word := d.word[x := if s == [] then 0 else s[0]],
                        headers := d.headers[x := SlabHeader(true, r, 0)]);
            && SameElsewhere(b, e, [x] + s) && Chain(e.word, x, [x] + s)
            && forall y <- [x] + s :: y in e.headers && e.headers[y] == SlabHeader(true, r, 0)
  {
    ChainPush(d.word, if s == [] then 0 else s[0], s, x);
    hide Chain, Distinct, AlignUp, SizeToOrder, Sizes.Capacity;
    var t := [x] + s;
    assert forall y: nat :: y in t <==> y == x || y in s;
    SameElsewhereStep(b, d, s, t, x, if s == [] then 0 else s[0], SlabHeader(true, r, 0));
  }

  lemma SameElsewhereStep(b: Arena, d: Arena, s: seq<nat>, t: seq<nat>, x: nat, w: nat, h: Header)
    requires SameElsewhere(b, d, s) && forall y: nat :: y in t <==> y == x || y in s
    ensures SameElsewhere(b, d.(word := d.word[x := w], headers := d.headers[x := h]), t)
  {
  }

  lemma ChainPush(word: map<nat, nat>, head: nat, s: seq<nat>, x: nat)
    requires Chain(word, head, s) && x > 0 && Distinct([x] + s)
    ensures Chain(word[x := head], x, [x] + s) && x !in s
  {
    var t := [x] + s;
    forall i | 0 <= i < |s|
      ensures s[i] != x && s[i] == t[i + 1]
    {
      assert t[0] != t[i + 1];
    }
    assert forall i :: 1 <= i < |t| ==> t[i] == s[i - 1];
  }

  lemma ChainPop(word: map<nat, nat>, head: nat, s: seq<nat>)
    requires Chain(word, head, s) && s != []
    ensures head == s[0] && head in word && head > 0 && Chain(word, word[head], s[1..]) && head !in s[1..]
  {
    assert word[s[0]] == if 1 < |s| then s[1] else 0;
    assert forall i :: 0 <= i < |s[1..]| ==> s[1..][i] == s[i + 1];
  }

  lemma ChainLinked(word: map<nat, nat>, head: nat, s: seq<nat>)
    requires Chain(word, head, s)
    ensures forall x <- s :: x in word
  {
  }

  lemma ChainDistinct(word: map<nat, nat>, head: nat, s: seq<nat>)
    requires Chain(word, head, s)
    ensures Distinct(s)
  {
  }

  lemma EmptyChain(word: map<nat, nat>)
    ensures Chain(word, 0, [])
  {
  }

  lemma ChainKept(word: map<nat, nat>, word': map<nat, nat>, head: nat, s: seq<nat>)
    requires Chain(word, head, s) && forall x <- s :: x in word' && x in word && word'[x] == word[x]
    ensures Chain(word', head, s)
  {
    assert forall i :: 0 <= i < |s| ==> s[i] in s;
  }

  // ------------------------------------------------- what depends on what

  /** A block's label survives changes away from its user address. */
  lemma BlockKept(a: Arena, b: Arena, e: nat, n: nat)
    requires BlockOk(a, e, n) && a.sizes == b.sizes && a.back == b.back
    requires var u := a.back[BlockAt(e, a.sizes.root, n)];
             && u in b.headers && b.headers[u] == a.headers[u]
             && (u in a.slabs <==> u in b.slabs) && (u in a.slabs ==> b.slabs[u].ext == a.slabs[u].ext)
    ensures BlockOk(b, e, n)
  {
    hide BlockAt, BlockSize, AlignUp, SizeToOrder, Sizes.Capacity;
  }

  /** A slab survives changes away from its slots, header and region. */
  lemma SlabKept(a: Arena, b: Arena, r: nat)
    requires r in a.slabs && SlabOk(a, r) && a.sizes == b.sizes && a.back == b.back
    requires r in b.slabs && b.slabs[r] == a.slabs[r] && r in b.headers && b.headers[r] == a.headers[r]
    requires Taken(b, a.slabs[r].ext, a.headers[r].node)
    requires forall x <- SlotsOf(a, r) :: x in a.headers && x !in a.slabs[r].free ==>
               x in b.headers && b.headers[x] == a.headers[x]
    requires forall x <- a.slabs[r].free :: x in b.word && x in a.word && b.word[x] == a.word[x]
    ensures SlabOk(b, r) && SlotsOf(b, r) == SlotsOf(a, r)
  {
    hide Taken, BlockAt, BlockSize, Slots, AlignUp, SizeToOrder, Sizes.Capacity;
    assert SlotsOf(b, r) == SlotsOf(a, r);
    ChainKept(a.word, b.word, a.slabs[r].head, a.slabs[r].free);
    assert RegionOk(b, r) && UsedHeadersOk(b, r) && FreeListOk(b, r);
  }

  // --------------------------------------------------------- slab_create

  /** A region just placed becomes a slab; nothing changes hands. */
  lemma InstallSound(a: Arena, b: Arena, r: nat, c: nat)
    requires Core(a) && BlockHanded(a, b, r, true, SLAB_SIZE, SLAB_MAX_ALIGNMENT) && c < NUM_CACHES
    requires b.sizes.Capacity(c) >= 1
    ensures var d := Install(b, r, c, b.active);
            && Core(d) && KeepsOut(a, d) && (forall x: nat :: IsOut(d, x) <==> IsOut(a, x)) && a.sizes == d.sizes
            && r in d.slabs && d.slabs[r].cls == c && d.slabs[r].free != [] && r in d.partial[c] && d.partial[c][0] == r
            && (forall q <- a.slabs :: q in d.slabs && d.slabs[q] == a.slabs[q]) && d.slabs.Keys == a.slabs.Keys + {r}
  {
    hide Install, Carve, Carved, Slots, Taken, BlockAt, BlockSize, NewAddress, BlockHanded, Core, KeepsOut, IsOut,
      Chain, SameElsewhere, AlignUp, SizeToOrder, InBlock, Sizes.Capacity;
    HandedFacts(a, b, r);
    var s := Carved(b.sizes, r, c, b.sizes.Capacity(c));
    RegionSlotsNew(a, b, r, c);
    IsInstalled(b, r, c);
    InstallCore(a, b, Install(b, r, c, b.active), r, c, s);
    InstallHands(a, b, Install(b, r, c, b.active), r, c, s);
  }

  lemma HandedFacts(a: Arena, b: Arena, r: nat)
    requires BlockHanded(a, b, r, true, SLAB_SIZE, SLAB_MAX_ALIGNMENT)
    ensures r in b.headers && b.headers[r].BuddyHeader? && r !in b.slabs
    ensures a.slabs == b.slabs && a.partial == b.partial && a.sizes == b.sizes && b.sizes.Plausible()
    ensures |b.partial| == NUM_CACHES
  {
  }

  lemma IsInstalled(b: Arena, r: nat, c: nat)
    requires b.sizes.Plausible() && c < NUM_CACHES && |b.partial| == NUM_CACHES && b.sizes.Capacity(c) >= 1
    ensures Installed(b, Install(b, r, c, b.active), r, c, Carved(b.sizes, r, c, b.sizes.Capacity(c)))
  {
    hide Carve, Carved, Chain, AlignUp, SizeToOrder, Sizes.Capacity;
    CarveLinks(b, r, c, b.sizes.Capacity(c));
  }

  /** Every slot of the new region is an address the arena did not know. */
  lemma RegionSlotsNew(a: Arena, b: Arena, r: nat, c: nat)
    requires BlockHanded(a, b, r, true, SLAB_SIZE, SLAB_MAX_ALIGNMENT) && c < NUM_CACHES
    ensures forall x <- Carved(b.sizes, r, c, b.sizes.Capacity(c)) ::
              NewAddress(a, x) && x > r && InBlock(b, b.active, b.headers[r].node, x)
    ensures NewAddress(a, r) && r > 0 && InBlock(b, b.active, b.headers[r].node, r)
  {
    hide Taken, BlockAt, BlockSize, NewAddress, Carved, SlabsOk, CachesOk, AlignUp, SizeToOrder, Sizes.Capacity;
    forall x <- Carved(b.sizes, r, c, b.sizes.Capacity(c))
      ensures NewAddress(a, x) && x > r && InBlock(b, b.active, b.headers[r].node, x)
    {
      assert x in Slots(b.sizes, r, c);
      SlotFacts(b.sizes, r, c, x);
      assert InBlock(b, b.active, b.headers[r].node, x);
    }
    assert InBlock(b, b.active, b.headers[r].node, r);
  }

  /** How the arena with the new slab differs from the one with the bare region. */
  ghost predicate Installed(b: Arena, d: Arena, r: nat, c: nat, s: seq<nat>) {
    && c < NUM_CACHES && b.sizes.Plausible() && |b.partial| == NUM_CACHES && s != [] && |s| == b.sizes.Capacity(c)
    && d == b.(word := d.word, headers := d.headers, slabs := b.slabs[r := Slab(c, b.active, 0, s[0], s)],
               partial := b.partial[c := [r] + b.partial[c]])
    && Chain(d.word, s[0], s) && Elems(s) == Slots(b.sizes, r, c)
    && SameElsewhere(b, d, s)
    && (forall x <- s :: x in d.headers && d.headers[x] == SlabHeader(true, r, 0))
  }

  lemma InstallCore(a: Arena, b: Arena, d: Arena, r: nat, c: nat, s: seq<nat>)
    requires Core(a) && BlockHanded(a, b, r, true, SLAB_SIZE, SLAB_MAX_ALIGNMENT) && Installed(b, d, r, c, s)
    requires (forall x <- s :: NewAddress(a, x) && x > r && InBlock(b, b.active, b.headers[r].node, x))
    requires NewAddress(a, r)
    ensures Core(d)
  {
    hide Taken, Slots, BlockAt, BlockSize, IsOut, AlignUp, SizeToOrder, Sizes.Capacity;
    var e, n := b.active, b.headers[r].node;
    assert r !in s;
    assert forall f: nat, m: nat :: Taken(d, f, m) <==> Taken(b, f, m) by { TakenSame(b, d); }
    assert ExtentsOk(d);
    forall f: nat, m: nat | Taken(d, f, m)
      ensures BlockOk(d, f, m)
    {
      if f == e && m == n {
        LabelForSlab(b, d, r, c, s);
      } else {
        OtherLabelKept(a, b, d, r, c, s, f, m);
      }
    }
    forall q <- d.slabs
      ensures SlabOk(d, q)
    {
      if q == r {
        NewSlabOk(b, d, r, c, s);
      } else {
        OtherSlabKept(a, b, d, r, c, s, q);
      }
    }
    NewSlabListed(b, d, r, c, s);
  }

  lemma TakenSame(b: Arena, d: Arena)
    requires b.pools == d.pools
    ensures forall f: nat, m: nat :: Taken(d, f, m) <==> Taken(b, f, m)
  {
  }

  lemma LabelForSlab(b: Arena, d: Arena, r: nat, c: nat, s: seq<nat>)
    requires Installed(b, d, r, c, s) && r !in s && r in b.headers && b.headers[r].BuddyHeader?
    requires var n := b.headers[r].node;
             && b.headers[r] == BuddyHeader(b.active, n, true, false, SLAB_SIZE, SLAB_MAX_ALIGNMENT)
             && BlockAt(b.active, b.sizes.root, n) in b.back && b.back[BlockAt(b.active, b.sizes.root, n)] == r
             && Placed(b.sizes, BlockAt(b.active, b.sizes.root, n), BlockSize(b.sizes.root, n), r, SLAB_SIZE,
                       SLAB_MAX_ALIGNMENT)
    ensures BlockOk(d, b.active, b.headers[r].node)
  {
    hide BlockAt, BlockSize, Slots, Placed, AlignUp, SizeToOrder, Sizes.Capacity;
  }

  lemma OtherLabelKept(a: Arena, b: Arena, d: Arena, r: nat, c: nat, s: seq<nat>, f: nat, m: nat)
    requires BlockHanded(a, b, r, true, SLAB_SIZE, SLAB_MAX_ALIGNMENT) && Installed(b, d, r, c, s)
    requires Taken(b, f, m) && !(f == b.active && m == b.headers[r].node)
    requires forall x <- s :: InBlock(b, b.active, b.headers[r].node, x)
    ensures BlockOk(d, f, m)
  {
    hide Taken, BlockAt, BlockSize, Slots, IsOut, NewAddress, AlignUp, SizeToOrder, Sizes.Capacity;
    assert BlockOk(b, f, m);
    var u := b.back[BlockAt(f, b.sizes.root, m)];
    UserElsewhere(a, b, r, f, m, s);
    BlockKept(b, d, f, m);
  }

  /** The user address of another block is neither the new region nor a slot of it. */
  lemma UserElsewhere(a: Arena, b: Arena, r: nat, f: nat, m: nat, s: seq<nat>)
    requires BlockHanded(a, b, r, true, SLAB_SIZE, SLAB_MAX_ALIGNMENT)
    requires Taken(b, f, m) && !(f == b.active && m == b.headers[r].node) && BlockOk(b, f, m)
    requires b.sizes.Plausible()
    requires forall x <- s :: InBlock(b, b.active, b.headers[r].node, x)
    ensures b.back[BlockAt(f, b.sizes.root, m)] != r && b.back[BlockAt(f, b.sizes.root, m)] !in s
  {
    hide Taken, BlockAt, BlockSize, Slots, IsOut, NewAddress, SlabsOk, CachesOk, AlignUp, SizeToOrder, Sizes.Capacity;
    var u := b.back[BlockAt(f, b.sizes.root, m)];
    assert InBlock(b, f, m, u);
    assert InBlock(b, b.active, b.headers[r].node, r);
    if u == r || u in s {
      TakenApart(b, f, m, b.active, b.headers[r].node, u);
    }
  }

  lemma NewSlabOk(b: Arena, d: Arena, r: nat, c: nat, s: seq<nat>)
    requires Installed(b, d, r, c, s) && r !in s && r in b.headers && b.headers[r].BuddyHeader?
    requires b.headers[r].isSlabRegion
    requires Taken(b, b.active, b.headers[r].node)
    requires BlockAt(b.active, b.sizes.root, b.headers[r].node) in b.back
    requires b.back[BlockAt(b.active, b.sizes.root, b.headers[r].node)] == r
    ensures SlabOk(d, r)
  {
    hide Taken, BlockAt, Slots, AlignUp, SizeToOrder, Sizes.Capacity;
    TakenSame(b, d);
    assert SlotsOf(d, r) == Elems(s);
    assert FreeListOk(d, r) && UsedHeadersOk(d, r) && RegionOk(d, r);
  }

  lemma OtherSlabKept(a: Arena, b: Arena, d: Arena, r: nat, c: nat, s: seq<nat>, q: nat)
    requires SlabsOk(b) && a.slabs == b.slabs && a.sizes == b.sizes && q in b.slabs && q != r
    requires Installed(b, d, r, c, s)
    requires forall x <- s :: NewAddress(a, x)
    ensures SlabOk(d, q)
  {
    hide Taken, BlockAt, Slots, Chain, IsOut, AlignUp, SizeToOrder, Sizes.Capacity;
    TakenSame(b, d);
    assert SlabOk(b, q);
    forall x | x in SlotsOf(b, q) || x == q
      ensures x !in s
    {
      assert SlotsOf(a, q) == SlotsOf(b, q);
    }
    FreeSlotsInWord(b, q);
    SlabKept(b, d, q);
  }

  lemma FreeSlotsInWord(a: Arena, r: nat)
    requires r in a.slabs && FreeListOk(a, r)
    ensures forall x <- a.slabs[r].free :: x in a.word && x in SlotsOf(a, r) && x > 0
  {
    hide Slots, AlignUp, SizeToOrder, Sizes.Capacity;
  }

  lemma NewSlabFullness(b: Arena, d: Arena, r: nat, c: nat, s: seq<nat>)
    requires Installed(b, d, r, c, s) && r !in b.slabs
    ensures !IsFull(d, r) && forall q <- b.slabs :: IsFull(d, q) == IsFull(b, q)
  {
    hide Slots, Chain, SameElsewhere, AlignUp, SizeToOrder, Sizes.Capacity;
  }

  lemma NewSlabListed(b: Arena, d: Arena, r: nat, c: nat, s: seq<nat>)
    requires CachesOk(b) && Installed(b, d, r, c, s) && r !in b.slabs
    ensures CachesOk(d)
  {
    hide Slots, IsFull, Chain, SameElsewhere, AlignUp, SizeToOrder, Sizes.Capacity, Distinct;
    NewSlabFullness(b, d, r, c, s);
    assert r !in b.partial[c];
    ConsDistinct(r, b.partial[c]);
    forall k: nat, q: nat {:trigger q in d.partial[k]} | k < NUM_CACHES
      ensures q in d.partial[k] <==> q in d.slabs && d.slabs[q].cls == k && !IsFull(d, q)
    {
      assert q in d.partial[k] <==> q in b.partial[k] || (q == r && k == c);
    }
    forall k: nat, q: nat {:trigger q in d.full[k]} | k < NUM_CACHES
      ensures q in d.full[k] <==> q in d.slabs && d.slabs[q].cls == k && IsFull(d, q)
    {
      assert q in d.full[k] <==> q in b.full[k];
    }
  }

  lemma InstallHands(a: Arena, b: Arena, d: Arena, r: nat, c: nat, s: seq<nat>)
    requires Core(a) && BlockHanded(a, b, r, true, SLAB_SIZE, SLAB_MAX_ALIGNMENT) && Installed(b, d, r, c, s)
    requires (forall x <- s :: NewAddress(a, x) && x > r) && NewAddress(a, r)
    ensures KeepsOut(a, d) && forall x: nat :: IsOut(d, x) <==> IsOut(a, x)
  {
    hide Taken, BlockAt, Slots, ExtentsOk, SlabsOk, CachesOk, BlocksOk, BlockSize, Chain, AlignUp, SizeToOrder,
      Sizes.Capacity;
    hide IsOut, AlignUp, SizeToOrder, Sizes.Capacity;
    forall x: nat
      ensures IsOut(d, x) <==> IsOut(a, x)
    {
      if x in s || x == r {
        NewNotOut(a, s, r);
        FreshSlotNotOut(b, d, r, c, s, x);
      } else {
        SameUnlessSlot(b, d, r, c, s, x);
      }
    }
    OutHasHeader(a);
    NewNotOut(a, s, r);
  }

  lemma FreshSlotNotOut(b: Arena, d: Arena, r: nat, c: nat, s: seq<nat>, x: nat)
    requires Installed(b, d, r, c, s) && (x in s || x == r) && r !in s
    requires r in b.headers && b.headers[r].BuddyHeader? && b.headers[r].isSlabRegion
    ensures !IsOut(d, x)
  {
    hide Taken, BlockAt, Slots, Chain, AlignUp, SizeToOrder, Sizes.Capacity;
  }

  /** A header left by an earlier slab in the same region makes nothing out. */
  lemma SameUnlessSlot(b: Arena, d: Arena, r: nat, c: nat, s: seq<nat>, x: nat)
    requires Installed(b, d, r, c, s) && x !in s && r !in b.slabs
    ensures IsOut(d, x) <==> IsOut(b, x)
  {
    hide Taken, BlockAt, Slots, Chain, AlignUp, SizeToOrder, Sizes.Capacity;
    TakenSame(b, d);
    forall q <- b.slabs
      ensures SlotsOf(d, q) == SlotsOf(b, q) && d.slabs[q] == b.slabs[q]
    {
    }
    assert SlotsOf(d, r) == Elems(s);
  }

  lemma NewNotOut(a: Arena, s: seq<nat>, r: nat)
    requires (forall x <- s :: NewAddress(a, x)) && NewAddress(a, r)
    ensures forall x: nat :: IsOut(a, x) ==> x !in s && x != r
  {
    hide IsOut, AlignUp, SizeToOrder, Sizes.Capacity;
  }

  /** slab_create: on success a slab with every slot free joins the arena; either way
      nothing changes hands. */
  lemma SlabCreateSound(a: Arena, c: nat, grant: Option<nat>)
    requires Core(a) && MaybeGrant(a, grant) && c < NUM_CACHES
    ensures var (b, r) := SlabCreate(a, c, grant);
            && Core(b) && KeepsOut(a, b) && (forall x: nat :: IsOut(b, x) <==> IsOut(a, x)) && a.sizes == b.sizes
            && (r == 0 ==> a.slabs == b.slabs)
            && (r != 0 ==> && r in b.slabs && b.slabs[r].cls == c && b.slabs[r].free != []
                           && (forall q <- a.slabs :: q in b.slabs && b.slabs[q] == a.slabs[q])
                           && b.slabs.Keys == a.slabs.Keys + {r})
  {
    hide AllocBlock, Install, Carve, Taken, SlabOk, BlockOk, ExtentsOk, CachesOk, IsOut, BlockHanded, KeepsOut, AlignUp,
      SizeToOrder, Sizes.Capacity;
    AllocBlockKeeps(a, SLAB_SIZE, SLAB_MAX_ALIGNMENT, true, grant);
    var (b, r) := AllocBlock(a, SLAB_SIZE, SLAB_MAX_ALIGNMENT, true, grant);
    if r != 0 {
      HandedFacts(a, b, r);
      CapacityFits(b.sizes, c);
      InstallSound(a, b, r, c);
    }
  }

  // ----------------------------------------------------------- slab_alloc

  lemma PartialHasRoom(a: Arena, r: nat)
    requires Core(a) && r in a.slabs && !IsFull(a, r)
    ensures a.slabs[r].cls < NUM_CACHES && a.slabs[r].free != [] && a.sizes.Plausible()
    ensures a.slabs[r].head == a.slabs[r].free[0] && a.slabs[r].head in a.word && a.slabs[r].head in SlotsOf(a, r)
    ensures a.slabs[r].used < a.sizes.Capacity(a.slabs[r].cls)
  {
    hide Slots, Taken, ExtentsOk, BlocksOk, BlockAt, AlignUp, SizeToOrder, Sizes.Capacity;
    assert SlabOk(a, r);
    var s := a.slabs[r];
    if s.free != [] {
      ChainPop(a.word, s.head, s.free);
    }
  }

  /** Taking the first free slot of a slab with room keeps the invariant ... */
  lemma TakeSlotCore(a: Arena, r: nat, size: nat)
    requires Core(a) && r in a.slabs && !IsFull(a, r) && 0 < size && a.slabs[r].cls < NUM_CACHES
    requires size <= SIZE_CLASSES[a.slabs[r].cls]
    requires |a.partial| == |a.full| == NUM_CACHES && a.sizes.Plausible()
    requires a.slabs[r].free != [] && a.slabs[r].head in a.word
    ensures var b := TakeSlot(a, r, size);
            && Core(b) && SlotsOf(b, r) == SlotsOf(a, r)
            && b.slabs.Keys == a.slabs.Keys
            && (forall q <- a.slabs :: b.slabs[q].used == a.slabs[q].used + if q == r then 1 else 0)
  {
    hide TakeSlot, Slots, Taken, BlockAt, BlockSize, ExtentsOk, IsFull, SlotMoved, SlabOk, IsOut, Relisted, BlocksOk,
      CachesOk, Chain, SlotsOf, AlignUp, SizeToOrder, Sizes.Capacity, Sizes.SlotSize;
    PartialHasRoom(a, r);
    SlabFacts(a, r);
    var s, b, x := a.slabs[r], TakeSlot(a, r, size), a.slabs[r].head;
    var taken := Slab(s.cls, s.ext, s.used + 1, a.word[x], s.free[1..]);
    TakeMoves(a, r, size);
    TakenSame(a, b);
    SlotElsewhere(a, r, x, r);
    MovedOthersOk(a, b, r, x, taken, true);
    TakenSlabOk(a, b, r, x, taken);
    MovedCaches(a, b, r, x, taken, true);
  }

  /** ... and hands out exactly that slot. */
  lemma TakeSlotSound(a: Arena, r: nat, size: nat)
    requires Core(a) && r in a.slabs && !IsFull(a, r) && 0 < size && a.slabs[r].cls < NUM_CACHES
    requires size <= SIZE_CLASSES[a.slabs[r].cls]
    ensures a.slabs[r].free != [] && a.slabs[r].head in a.word && |a.partial| == |a.full| == NUM_CACHES
    ensures a.sizes.Plausible()
    ensures var b := TakeSlot(a, r, size);
            var x := a.slabs[r].head;
            && Core(b) && HandedOut(a, b, x) && b.headers[x] == SlabHeader(true, r, size) && x in SlotsOf(b, r)
            && b.slabs.Keys == a.slabs.Keys
            && (forall q <- a.slabs :: b.slabs[q].used == a.slabs[q].used + if q == r then 1 else 0)
  {
    hide TakeSlot, Slots, Core, IsFull, SlotMoved, SlabOk, IsOut, Relisted, SlotsOf, AlignUp, SizeToOrder,
      Sizes.Capacity;
    PartialHasRoom(a, r);
    SlabFacts(a, r);
    TakeSlotCore(a, r, size);
    var s, b, x := a.slabs[r], TakeSlot(a, r, size), a.slabs[r].head;
    TakeMoves(a, r, size);
    HeadLeaves(a, r);
    FreeSlotNotOut(a, r, x);
    MovedOut(a, b, r, x, Slab(s.cls, s.ext, s.used + 1, a.word[x], s.free[1..]), true);
  }

  lemma SlabFacts(a: Arena, r: nat)
    requires Core(a) && r in a.slabs
    ensures SlabOk(a, r) && RegionOk(a, r) && a.slabs[r].cls < NUM_CACHES && a.sizes.Plausible()
    ensures |a.partial| == |a.full| == NUM_CACHES
  {
    assert SlabOk(a, r);
  }

  lemma HeadLeaves(a: Arena, r: nat)
    requires r in a.slabs && SlabOk(a, r) && a.slabs[r].free != []
    ensures forall y: nat :: y != a.slabs[r].head ==> (y in a.slabs[r].free[1..] <==> y in a.slabs[r].free)
    ensures a.slabs[r].head !in a.slabs[r].free[1..] && a.slabs[r].head in a.slabs[r].free && a.slabs[r].head > 0
  {
    TailMembers(a.slabs[r].free);
    ChainPop(a.word, a.slabs[r].head, a.slabs[r].free);
  }

  lemma TakeMoves(a: Arena, r: nat, size: nat)
    requires r in a.slabs && a.slabs[r].cls < NUM_CACHES && a.sizes.Plausible() && !IsFull(a, r)
    requires a.slabs[r].free != [] && a.slabs[r].head in a.word && |a.partial| == |a.full| == NUM_CACHES
    ensures var s, b, x := a.slabs[r], TakeSlot(a, r, size), a.slabs[r].head;
            && SlotMoved(a, b, r, x, Slab(s.cls, s.ext, s.used + 1, a.word[x], s.free[1..]), true)
            && Relisted(a, b, r) && b.word == a.word && b.headers[x] == SlabHeader(true, r, size)
            && b.slabs == a.slabs[r := Slab(s.cls, s.ext, s.used + 1, a.word[x], s.free[1..])]
            && b.sizes == a.sizes && b.pools == a.pools
  {
    hide Without, AlignUp, SizeToOrder, Sizes.Capacity;
  }

  /** A slot on its slab's free list is not out. */
  lemma FreeSlotNotOut(a: Arena, r: nat, x: nat)
    requires Core(a) && r in a.slabs && SlabOk(a, r) && x in a.slabs[r].free
    ensures !IsOut(a, x) && x in SlotsOf(a, r)
  {
    hide Slots, BlockAt, BlockSize, Chain, AlignUp, SizeToOrder, Sizes.Capacity;
    forall q <- a.slabs | q != r
      ensures x !in SlotsOf(a, q)
    {
      assert SlabOk(a, q);
      SlotElsewhere(a, r, x, q);
    }
    forall f: nat, m: nat | Taken(a, f, m)
      ensures BlockAt(f, a.sizes.root, m) in a.back && a.back[BlockAt(f, a.sizes.root, m)] != x
    {
      SlotNotUser(a, r, x, f, m);
    }
    hide SlotsOf, Taken, AlignUp, SizeToOrder, Sizes.Capacity;
  }

  /** `b` is `a` with slot `x` of slab `r` moved in or out of use. */
  ghost predicate SlotMoved(a: Arena, b: Arena, r: nat, x: nat, s: Slab, live: bool) {
    && r in a.slabs && x in b.headers && b.headers[x].SlabHeader? && b.headers[x].slab == r && b.headers[x].live == live
    && b == a.(slabs := a.slabs[r := s], headers := a.headers[x := b.headers[x]], word := b.word,
               partial := b.partial, full := b.full)
    && s.cls == a.slabs[r].cls && s.ext == a.slabs[r].ext
    && (forall y: nat :: y != x ==> (y in b.word <==> y in a.word) && (y in a.word ==> b.word[y] == a.word[y]))
  }

  /** Moving a slot disturbs no block label and no other slab. */
  lemma MovedOthersOk(a: Arena, b: Arena, r: nat, x: nat, s: Slab, live: bool)
    requires Core(a) && SlotMoved(a, b, r, x, s, live) && x in SlotsOf(a, r)
    ensures ExtentsOk(b) && BlocksOk(b) && forall q <- b.slabs :: q != r ==> SlabOk(b, q)
  {
    hide Taken, Slots, BlockAt, BlockSize, AlignUp, SizeToOrder, Sizes.Capacity;
    TakenSame(a, b);
    assert ExtentsOk(b);
    forall f: nat, m: nat | Taken(b, f, m)
      ensures BlockOk(b, f, m)
    {
      assert BlockOk(a, f, m) && SlabOk(a, r);
      SlotNotUser(a, r, x, f, m);
      BlockKept(a, b, f, m);
    }
    forall q <- b.slabs | q != r
      ensures SlabOk(b, q)
    {
      assert SlabOk(a, q) && SlabOk(a, r);
      SlotElsewhere(a, r, x, q);
      FreeSlotsInWord(a, q);
      SlabKept(a, b, q);
    }
  }

  /** A slot of one slab is no slot and no region of another. */
  lemma SlotElsewhere(a: Arena, r: nat, x: nat, q: nat)
    requires ExtentsOk(a) && BlocksOk(a) && r in a.slabs && q in a.slabs && SlabOk(a, r) && SlabOk(a, q)
    requires x in SlotsOf(a, r)
    ensures q != r ==> x !in SlotsOf(a, q)
    ensures x != q
  {
    hide Slots, AlignUp, SizeToOrder, Sizes.Capacity;
    if x in SlotsOf(a, q) {
      SlotsOfApart(a, r, q, x);
    }
    SlotNotUser(a, r, x, a.slabs[q].ext, a.headers[q].node);
  }

  lemma TakenSlabOk(a: Arena, b: Arena, r: nat, x: nat, s: Slab)
    requires SlotMoved(a, b, r, x, s, true) && SlabOk(a, r) && Taken(b, s.ext, a.headers[r].node) && x != r
    requires a.slabs[r].free != [] && x == a.slabs[r].free[0] && b.word == a.word && x in a.word
    requires s.head == a.word[x] && s.free == a.slabs[r].free[1..] && s.used == a.slabs[r].used + 1
    requires 0 < b.headers[x].size <= SIZE_CLASSES[s.cls]
    ensures SlabOk(b, r) && SlotsOf(b, r) == SlotsOf(a, r)
  {
    hide Slots, Taken, BlockAt, BlockSize, AlignUp, SizeToOrder, Sizes.Capacity;
    assert SlotsOf(b, r) == SlotsOf(a, r);
    ChainPop(a.word, x, a.slabs[r].free);
    TailMembers(a.slabs[r].free);
    assert RegionOk(b, r) && UsedHeadersOk(b, r) && FreeListOk(b, r);
  }

  lemma TailMembers(s: seq<nat>)
    requires s != []
    ensures forall y: nat :: y in s <==> y == s[0] || y in s[1..]
  {
    assert s == [s[0]] + s[1..];
  }

  /** The list a slab is on follows its fullness. */
  ghost predicate Relisted(a: Arena, b: Arena, r: nat) {
    && |a.partial| == |a.full| == NUM_CACHES && r in a.slabs && a.slabs[r].cls < NUM_CACHES
    && var c := a.slabs[r].cls;
       if IsFull(a, r) == IsFull(b, r) then b.partial == a.partial && b.full == a.full
       else if IsFull(b, r) then b.partial == a.partial[c := Without(a.partial[c], r)]
         && b.full == a.full[c := [r] + a.full[c]]
       else b.full == a.full[c := Without(a.full[c], r)] && b.partial == a.partial[c := [r] + a.partial[c]]
  }

  lemma MovedFullness(a: Arena, b: Arena, r: nat, x: nat, s: Slab, live: bool)
    requires SlotMoved(a, b, r, x, s, live)
    ensures forall q <- b.slabs :: q != r ==> IsFull(b, q) == IsFull(a, q)
  {
    hide Sizes.Capacity, AlignUp, SizeToOrder;
  }

  lemma MovedCaches(a: Arena, b: Arena, r: nat, x: nat, s: Slab, live: bool)
    requires CachesOk(a) && SlotMoved(a, b, r, x, s, live) && Relisted(a, b, r)
    ensures CachesOk(b)
  {
    hide IsFull, Slots, Without, Distinct, AlignUp, SizeToOrder, Sizes.Capacity;
    MovedFullness(a, b, r, x, s, live);
    var c := s.cls;
    WithoutDistinct(a.partial[c], r);
    WithoutDistinct(a.full[c], r);
    assert r in a.partial[c] <==> !IsFull(a, r);
    assert r in a.full[c] <==> IsFull(a, r);
    if r !in a.partial[c] {
      ConsDistinct(r, a.partial[c]);
    } else {
      ConsDistinct(r, a.full[c]);
    }
    forall k: nat, q: nat {:trigger q in b.partial[k]} | k < NUM_CACHES
      ensures q in b.partial[k] <==> q in b.slabs && b.slabs[q].cls == k && !IsFull(b, q)
    {
      assert q in a.partial[k] <==> q in a.slabs && a.slabs[q].cls == k && !IsFull(a, q);
    }
    forall k: nat, q: nat {:trigger q in b.full[k]} | k < NUM_CACHES
      ensures q in b.full[k] <==> q in b.slabs && b.slabs[q].cls == k && IsFull(b, q)
    {
      assert q in a.full[k] <==> q in a.slabs && a.slabs[q].cls == k && IsFull(a, q);
    }
  }

  /** Only slot `x` changes hands. */
  lemma MovedOut(a: Arena, b: Arena, r: nat, x: nat, s: Slab, live: bool)
    requires SlotMoved(a, b, r, x, s, live) && x in SlotsOf(a, r)
    requires forall y: nat :: y != x ==> (y in s.free <==> y in a.slabs[r].free)
    requires live <==> x !in s.free
    ensures SameOutBut(a, b, x) && (IsOut(b, x) <==> live)
    ensures forall y: nat :: IsOut(a, y) && y != x ==>
              && y in b.headers && b.headers[y] == a.headers[y]
              && (y in b.word <==> y in a.word) && (y in a.word ==> b.word[y] == a.word[y])
  {
    hide Slots, Taken, BlockAt, AlignUp, SizeToOrder, Sizes.Capacity;
    TakenSame(a, b);
    forall q <- a.slabs
      ensures SlotsOf(b, q) == SlotsOf(a, q)
    {
    }
    hide SlotsOf, AlignUp, SizeToOrder, Sizes.Capacity;
    forall y: nat | y != x
      ensures IsOut(b, y) <==> IsOut(a, y)
    {
    }
  }

  /** src/slab.c: slab_alloc. */
  function SlabAlloc(a: Arena, size: nat, grant: Option<nat>): (Arena, nat)
    requires Core(a) && MaybeGrant(a, grant) && size > 0
  {
    var c := CacheOf(size);
    if c >= NUM_CACHES then (a, 0)
    else if a.partial[c] != [] then
      HeadHasRoom(a, c);
      var r := a.partial[c][0];
      (TakeSlot(a, r, size), a.slabs[r].head)
    else
      var (b, r) := SlabCreate(a, c, grant);
      if r == 0 then (b, 0)
      else
        SlabCreateSound(a, c, grant);
        NewHasRoom(b, r);
        (TakeSlot(b, r, size), b.slabs[r].head)
  }

  /** slab_alloc never dereferences an empty free list: the slab it finds first on a
      partial list has a free slot. */
  lemma HeadHasRoom(a: Arena, c: nat)
    requires Core(a) && c < NUM_CACHES && a.partial[c] != []
    ensures var r := a.partial[c][0];
            && r in a.slabs && a.slabs[r].cls == c && !IsFull(a, r) && a.slabs[r].free != []
            && a.slabs[r].head == a.slabs[r].free[0] && a.slabs[r].head in a.word && |a.full| == NUM_CACHES
            && a.sizes.Plausible()
  {
    hide Slots, Taken, ExtentsOk, BlocksOk, SlabsOk, IsFull, AlignUp, SizeToOrder, Sizes.Capacity;
    var r := a.partial[c][0];
    assert r in a.partial[c];
    PartialHasRoom(a, r);
  }

  lemma NewHasRoom(a: Arena, r: nat)
    requires Core(a) && r in a.slabs && a.slabs[r].free != []
    ensures !IsFull(a, r) && a.slabs[r].head in a.word && a.slabs[r].cls < NUM_CACHES
    ensures |a.partial| == |a.full| == NUM_CACHES && a.sizes.Plausible()
  {
    hide Slots, Taken, ExtentsOk, BlocksOk, CachesOk, Sizes.Capacity, AlignUp, SizeToOrder;
    assert SlabOk(a, r);
    ChainPop(a.word, a.slabs[r].head, a.slabs[r].free);
    assert |a.partial| == |a.full| == NUM_CACHES by { SlabFacts(a, r); }
  }

  /** slab_alloc hands out one slot of the smallest class that fits, or nothing. */
  lemma SlabAllocSound(a: Arena, size: nat, grant: Option<nat>)
    requires ArenaInv(a) && MaybeGrant(a, grant) && size > 0
    ensures var (b, x) := SlabAlloc(a, size, grant);
            && ArenaInv(b) && a.sizes == b.sizes
            && (x == 0 ==> KeepsOut(a, b) && forall y: nat :: IsOut(b, y) <==> IsOut(a, y))
            && (x != 0 ==> && HandedOut(a, b, x) && CacheOf(size) < NUM_CACHES
                           && b.headers[x].SlabHeader? && b.headers[x].size == size && b.headers[x].live
                           && b.headers[x].slab in b.slabs && b.slabs[b.headers[x].slab].cls == CacheOf(size))
  {
    hide TakeSlot, SlabCreate, Core, IsFull, SlotsOf, IsOut, AlignUp, SizeToOrder, Sizes.Capacity;
    var c := CacheOf(size);
    CoreShape(a);
    OutHasHeader(a);
    SameIsKept(a, a);
    if c < NUM_CACHES {
      if PartialNonEmpty(a, c) {
        HeadHasRoom(a, c);
        TakeSlotSound(a, a.partial[c][0], size);
        TakeKeepsClass(a, a.partial[c][0], size);
      } else {
        SlabCreateSound(a, c, grant);
        var (b, r) := SlabCreate(a, c, grant);
        if r != 0 {
          NewHasRoom(b, r);
          TakeSlotSound(b, r, size);
          TakeKeepsClass(b, r, size);
          HandedAfterCreate(a, b, TakeSlot(b, r, size), b.slabs[r].head);
        }
      }
    }
  }

  lemma CoreShape(a: Arena)
    requires Core(a)
    ensures ExtentsOk(a) && |a.partial| == |a.full| == NUM_CACHES && a.sizes.Plausible()
  {
  }

  predicate PartialNonEmpty(a: Arena, c: nat) {
    c < |a.partial| && a.partial[c] != []
  }

  lemma TakeKeepsClass(a: Arena, r: nat, size: nat)
    requires r in a.slabs && a.slabs[r].cls < NUM_CACHES && a.sizes.Plausible()
    requires a.slabs[r].free != [] && a.slabs[r].head in a.word && |a.partial| == |a.full| == NUM_CACHES
    ensures TakeSlot(a, r, size).slabs[r].cls == a.slabs[r].cls && TakeSlot(a, r, size).slabs.Keys == a.slabs.Keys
    ensures TakeSlot(a, r, size).sizes == a.sizes
  {
    hide Without, AlignUp, SizeToOrder, Sizes.Capacity;
  }

  lemma HandedAfterCreate(a: Arena, b: Arena, d: Arena, x: nat)
    requires KeepsOut(a, b) && (forall y: nat :: IsOut(b, y) <==> IsOut(a, y)) && a.sizes == b.sizes
    requires HandedOut(b, d, x)
    ensures HandedOut(a, d, x)
  {
    hide IsOut, AlignUp, SizeToOrder, Sizes.Capacity;
  }
}
