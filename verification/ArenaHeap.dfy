/** One arena as src/arena.c and src/slab.c keep it: headers and first words in memory,
    slabs on doubly linked lists through their descriptors, list heads in the caches.
    Every method is proved against the operations on values. */
module ArenaHeap {
  import opened Words
  import opened BuddyTree
  import opened BuddySpec
  import opened BuddyLayout
  import opened LinkedLists
  import opened SlabLayout
  import opened Arena
  import opened ArenaOps
  import opened ArenaBlocks
  import opened ArenaSlabs
  import opened ArenaFrees
  import opened ArenaTheorems
  import opened Remote
  import opened ArenaCalls

  // ------------------------------------------------------- the cache lists

  /** `heads` and `links` spell out the lists. */
  ghost predicate ListsAt(links: LinkedLists.Memory, heads: seq<nat>, lists: seq<seq<nat>>) {
    |heads| == |lists| && forall c :: 0 <= c < |lists| ==> ListAt(links, heads[c], lists[c])
  }

  /** No element of `s` is on any of `lists`. */
  ghost predicate OffLists(lists: seq<seq<nat>>, s: seq<nat>) {
    forall c, r :: 0 <= c < |lists| && r in s ==> r !in lists[c]
  }

  /** Slabs are on one list only. */
  ghost predicate ListsApart(lists: seq<seq<nat>>, others: seq<seq<nat>>) {
    && (forall c :: 0 <= c < |lists| ==> OffLists(others, lists[c]))
    && (forall c, d, r :: 0 <= c < |lists| && 0 <= d < |lists| && c != d && r in lists[c] ==> r !in lists[d])
  }

  lemma PushLists(links: LinkedLists.Memory, heads: seq<nat>, lists: seq<seq<nat>>, c: nat, r: nat)
    requires ListsAt(links, heads, lists) && c < |lists| && r != 0 && OffLists(lists, [r]) && ListsApart(lists, [])
    ensures ListsAt(Push(links, heads[c], r), heads[c := r], lists[c := [r] + lists[c]])
  {
    hide Push, ListAt;
    assert r in [r];
    PushList(links, heads[c], lists[c], r);
    forall d | 0 <= d < |lists| && d != c
      ensures ListAt(Push(links, heads[c], r), heads[d], lists[d])
    {
      PushFrame(links, heads[c], lists[c], r, heads[d], lists[d]);
    }
  }

  lemma PushOthers(links: LinkedLists.Memory, heads: seq<nat>, lists: seq<seq<nat>>, c: nat, r: nat, os: seq<nat>,
                   others: seq<seq<nat>>)
    requires ListsAt(links, heads, lists) && ListsAt(links, os, others) && c < |lists| && OffLists(others, [r])
    requires OffLists(others, lists[c])
    ensures ListsAt(Push(links, heads[c], r), os, others)
  {
    hide Push, ListAt;
    assert r in [r];
    forall d | 0 <= d < |others|
      ensures ListAt(Push(links, heads[c], r), os[d], others[d])
    {
      PushFrame(links, heads[c], lists[c], r, os[d], others[d]);
    }
  }

  lemma RemoveLists(links: LinkedLists.Memory, heads: seq<nat>, lists: seq<seq<nat>>, c: nat, r: nat)
    requires ListsAt(links, heads, lists) && c < |lists| && r in lists[c] && ListsApart(lists, [])
    ensures r in links
    ensures ListsAt(Remove(links, r), heads[c := RemoveHead(links, heads[c], r)], lists[c := Without(lists[c], r)])
  {
    hide Remove, RemoveHead, ListAt, Without;
    RemoveList(links, heads[c], lists[c], r);
    forall d | 0 <= d < |lists| && d != c
      ensures ListAt(Remove(links, r), heads[d], lists[d])
    {
      RemoveFrame(links, heads[c], lists[c], r, heads[d], lists[d]);
    }
  }

  lemma RemoveOthers(links: LinkedLists.Memory, heads: seq<nat>, lists: seq<seq<nat>>, c: nat, r: nat, os: seq<nat>,
                     others: seq<seq<nat>>)
    requires ListsAt(links, heads, lists) && ListsAt(links, os, others) && c < |lists| && r in lists[c]
    requires OffLists(others, lists[c])
    ensures r in links && ListsAt(Remove(links, r), os, others)
  {
    hide Remove, ListAt;
    RemoveList(links, heads[c], lists[c], r);
    forall d | 0 <= d < |others|
      ensures ListAt(Remove(links, r), os[d], others[d])
    {
      RemoveFrame(links, heads[c], lists[c], r, os[d], others[d]);
    }
  }

  /** In a sound arena the lists are apart, and hold slabs only. */
  lemma CachesApart(a: Arena)
    requires CachesOk(a)
    ensures ListsApart(a.partial, a.full) && ListsApart(a.full, a.partial) && ListsApart(a.partial, [])
    ensures ListsApart(a.full, [])
    ensures forall r: nat :: r !in a.slabs ==> OffLists(a.partial, [r]) && OffLists(a.full, [r])
  {
    hide IsFull;
  }

  lemma WithoutApart(lists: seq<seq<nat>>, others: seq<seq<nat>>, c: nat, r: nat)
    requires ListsApart(lists, others) && ListsApart(others, lists) && c < |lists| && Distinct(lists[c])
    requires r in lists[c]
    ensures var l := lists[c := Without(lists[c], r)];
            ListsApart(l, others) && ListsApart(others, l) && OffLists(l, [r]) && OffLists(others, [r])
  {
    hide Without;
    WithoutDistinct(lists[c], r);
    WithoutMembers(lists[c], r);
    var l := lists[c := Without(lists[c], r)];
    assert forall d, q :: 0 <= d < |l| && q in l[d] ==> q in lists[d];
  }

  lemma WithoutMembers(s: seq<nat>, x: nat)
    ensures forall y :: y in Without(s, x) ==> y in s
  {
  }

  lemma EmptyIff(links: LinkedLists.Memory, head: nat, s: seq<nat>)
    requires ListAt(links, head, s)
    ensures head == (if s == [] then 0 else s[0]) && (head == 0 <==> s == [])
  {
    if s != [] {
      assert s[0] in s;
    }
  }

  // ------------------------------------------------------ slab descriptors

  /** slab_t without its links: `head` is the free_list pointer. */
  datatype Descriptor = Descriptor(cls: nat, ext: nat, used: nat, head: nat)

  /** The descriptors with their free lists spelled out. */
  ghost function Spelled(slabs: map<nat, Descriptor>, free: map<nat, seq<nat>>): map<nat, Slab> {
    map r | r in slabs ::
      Slab(slabs[r].cls, slabs[r].ext, slabs[r].used, slabs[r].head, if r in free then free[r] else [])
  }

  lemma SpelledSet(slabs: map<nat, Descriptor>, free: map<nat, seq<nat>>, r: nat, d: Descriptor, f: seq<nat>)
    ensures Spelled(slabs[r := d], free[r := f]) == Spelled(slabs, free)[r := Slab(d.cls, d.ext, d.used, d.head, f)]
  {
  }

  lemma SpelledGone(slabs: map<nat, Descriptor>, free: map<nat, seq<nat>>, r: nat)
    ensures Spelled(slabs - {r}, free) == Spelled(slabs, free) - {r}
  {
  }

  // ----------------------------------------------------------- the object

  class ArenaObject {
    const sizes: Sizes
    var extents: seq<nat>
    var active: nat
    var pools: map<nat, Pool>
    var back: map<nat, nat>
    var slabs: map<nat, Descriptor>
    var links: LinkedLists.Memory
    var partialHeads: seq<nat>
    var fullHeads: seq<nat>
    var word: map<nat, nat>
    var headers: map<nat, Header>
    /** The stack of remote frees and the calls of arena_alloc so far. */
    var remote: nat
    var counter: nat
    ghost var free: map<nat, seq<nat>>
    ghost var pending: seq<nat>
    ghost var partial: seq<seq<nat>>
    ghost var full: seq<seq<nat>>

    ghost function View(): Arena
      reads this
    {
      Arena(sizes, extents, active, pools, back, Spelled(slabs, free), partial, full, word, headers)
    }

    /** The linked lists are the lists of the view. */
    ghost predicate Linked()
      reads this
    {
      ListsAt(links, partialHeads, partial) && ListsAt(links, fullHeads, full)
    }

    ghost predicate Valid()
      reads this
    {
      Linked() && ArenaInv(View())
    }

    /** The arena with its remote stack and the count of its calls. */
    ghost function LocalView(): Local
      reads this
    {
      Local(View(), pending, counter)
    }

    /** Sound between calls: the stack threads distinct outstanding pointers. */
    ghost predicate Ready()
      reads this
    {
      Linked() && LocalInv(LocalView()) && remote == Head(pending)
    }

    constructor (sz: Sizes, e: nat)
      requires sz.Plausible() && sz.meta < e && e + BlockBytes(sz.root) <= WORD
      ensures Ready() && LocalView() == Local(ArenaCreate(sz, e), [], 0)
    {
      sizes, extents, active, pools, back, headers := sz, [e], e, map[e := Create(sz.root)], map[], map[];
      slabs, links, word, free := map[], map[], map[], map[];
      remote, counter, pending := 0, 0, [];
      partialHeads, fullHeads := seq(NUM_CACHES, _ => 0), seq(NUM_CACHES, _ => 0);
      partial, full := seq(NUM_CACHES, _ => []), seq(NUM_CACHES, _ => []);
      new;
      ArenaCreateSound(sz, e);
    }

    /** slab_push onto the partial list of cache `c`. */
    method PushPartial(c: nat, r: nat)
      requires Linked() && c < |partial| && r != 0 && OffLists(partial, [r]) && OffLists(full, [r])
      requires ListsApart(partial, full) && ListsApart(partial, [])
      modifies this`links, this`partialHeads, this`partial
      ensures Linked() && partial == old(partial)[c := [r] + old(partial)[c]]
    {
      hide ListAt, ListsAt, Push, OffLists;
      HeadsFit(links, partialHeads, partial);
      PushLists(links, partialHeads, partial, c, r);
      PushOthers(links, partialHeads, partial, c, r, fullHeads, full);
      links, partialHeads := Push(links, partialHeads[c], r), partialHeads[c := r];
      partial := partial[c := [r] + partial[c]];
    }

    method PushFull(c: nat, r: nat)
      requires Linked() && c < |full| && r != 0 && OffLists(partial, [r]) && OffLists(full, [r])
      requires ListsApart(full, partial) && ListsApart(full, [])
      modifies this`links, this`fullHeads, this`full
      ensures Linked() && full == old(full)[c := [r] + old(full)[c]]
    {
      hide ListAt, ListsAt, Push, OffLists;
      HeadsFit(links, fullHeads, full);
      PushLists(links, fullHeads, full, c, r);
      PushOthers(links, fullHeads, full, c, r, partialHeads, partial);
      links, fullHeads := Push(links, fullHeads[c], r), fullHeads[c := r];
      full := full[c := [r] + full[c]];
    }

    /** slab_remove from the partial list of cache `c`. */
    method RemovePartial(c: nat, r: nat)
      requires Linked() && c < |partial| && r in partial[c] && ListsApart(partial, full) && ListsApart(partial, [])
      modifies this`links, this`partialHeads, this`partial
      ensures Linked() && partial == old(partial)[c := Without(old(partial)[c], r)]
    {
      hide ListAt, ListsAt, Remove, RemoveHead, OffLists;
      HeadsFit(links, partialHeads, partial);
      RemoveLists(links, partialHeads, partial, c, r);
      RemoveOthers(links, partialHeads, partial, c, r, fullHeads, full);
      links, partialHeads := Remove(links, r), partialHeads[c := RemoveHead(links, partialHeads[c], r)];
      partial := partial[c := Without(partial[c], r)];
    }

    method RemoveFull(c: nat, r: nat)
      requires Linked() && c < |full| && r in full[c] && ListsApart(full, partial) && ListsApart(full, [])
      modifies this`links, this`fullHeads, this`full
      ensures Linked() && full == old(full)[c := Without(old(full)[c], r)]
    {
      hide ListAt, ListsAt, Remove, RemoveHead, OffLists;
      HeadsFit(links, fullHeads, full);
      RemoveLists(links, fullHeads, full, c, r);
      RemoveOthers(links, fullHeads, full, c, r, partialHeads, partial);
      links, fullHeads := Remove(links, r), fullHeads[c := RemoveHead(links, fullHeads[c], r)];
      full := full[c := Without(full[c], r)];
    }

    /** A slab of which the last slot was taken. */
    method MoveToFull(c: nat, r: nat)
      requires Linked() && c < |partial| == |full| && r in partial[c] && r != 0 && Distinct(partial[c])
      requires ListsApart(partial, full) && ListsApart(full, partial) && ListsApart(partial, []) && ListsApart(full, [])
      modifies this`links, this`partialHeads, this`fullHeads, this`partial, this`full
      ensures Linked() && partial == old(partial)[c := Without(old(partial)[c], r)]
      ensures full == old(full)[c := [r] + old(full)[c]]
    {
      hide ListAt, ListsAt, OffLists, ListsApart, Without;
      WithoutApart(partial, full, c, r);
      RemovePartial(c, r);
      PushFull(c, r);
    }

    /** A slab that was full and has a free slot again. */
    method MoveToPartial(c: nat, r: nat)
      requires Linked() && c < |partial| == |full| && r in full[c] && r != 0 && Distinct(full[c])
      requires ListsApart(partial, full) && ListsApart(full, partial) && ListsApart(partial, []) && ListsApart(full, [])
      modifies this`links, this`partialHeads, this`fullHeads, this`partial, this`full
      ensures Linked() && full == old(full)[c := Without(old(full)[c], r)]
      ensures partial == old(partial)[c := [r] + old(partial)[c]]
    {
      hide ListAt, ListsAt, OffLists, ListsApart, Without;
      WithoutApart(full, partial, c, r);
      RemoveFull(c, r);
      PushPartial(c, r);
    }

    // ----------------------------------------------------------- blocks

    /** buddy_alloc in extent `e` with the header it writes, if the extent can serve. */
    method TryExtent(e: nat, size: nat, alignment: nat, isRegion: bool) returns (user: nat)
      requires ExtentsOk(View()) && e in pools && 0 < alignment < WORD && size < WORD
      modifies this`active, this`pools, this`back, this`headers
      ensures Serves(old(View()), e, RequestOrder(sizes, size, alignment)) ==>
                (View(), user) == PlaceIn(old(View()), e, size, alignment, isRegion) && user > 0
      ensures !Serves(old(View()), e, RequestOrder(sizes, size, alignment)) ==> View() == old(View()) && user == 0
    {
      var target := RequestOrder(sizes, size, alignment);
      hide Alloc, RequestOrder, BuddySpec.Inv, UserAt, BlockAt;
      var (q, n) := Alloc(pools[e], target);
      match n {
        case None => return 0;
        case Some(node) =>
          PlaceFacts(View(), e, size, alignment, isRegion);
          user := UserAt(sizes, e, node, alignment);
          active, pools := e, pools[e := q];
          back := back[BlockAt(e, sizes.root, node) := user];
          headers := headers[user := BuddyHeader(e, node, isRegion, !isRegion, size, alignment)];
      }
    }

    /** arena_alloc_slab_region and arena_alloc_buddy_region: the active extent, the
        others in list order, then a new one. */
    method AllocRegion(size: nat, alignment: nat, isRegion: bool, grant: Option<nat>) returns (user: nat)
      requires ExtentsOk(View()) && MaybeGrant(View(), grant) && 0 < alignment < WORD && size < WORD
      modifies this`extents, this`active, this`pools, this`back, this`headers
      ensures (View(), user) == AllocBlock(old(View()), size, alignment, isRegion, grant)
    {
      ghost var a := View();
      ghost var target := RequestOrder(sizes, size, alignment);
      hide ExtentsOk, PlaceIn, RequestOrder, Serves, GrantOk;
      ExtentsListed(a);
      user := TryExtent(active, size, alignment, isRegion);
      if user != 0 {
        return;
      }
      assert extents[0..] == extents;
      var i := 0;
      while i < |extents|
        invariant i <= |extents| && View() == a
        invariant FirstServing(a, extents, target) == FirstServing(a, extents[i..], target)
        decreases |extents| - i
      {
        ServingStep(a, extents, i, target);
        if extents[i] != active {
          user := TryExtent(extents[i], size, alignment, isRegion);
          if user != 0 {
            return;
          }
        }
        i := i + 1;
      }
      assert FirstServing(a, extents[i..], target) == None;
      if grant.None? {
        return 0;
      }
      ExpandOk(a, grant.value);
      extents, active, pools := [grant.value] + extents, grant.value, pools[grant.value := Create(sizes.root)];
      user := TryExtent(active, size, alignment, isRegion);
    }

    // ------------------------------------------------------------ slabs

    /** The carving loop of slab_create: headers written, slots linked one before the
        other. */
    method CarveSlots(r: nat, c: nat, capacity: nat) returns (freeList: nat)
      requires c < NUM_CACHES && sizes.Plausible() && capacity == sizes.Capacity(c)
      modifies this`word, this`headers
      ensures View() == Carve(old(View()), r, c, capacity)
      ensures freeList == if capacity == 0 then 0 else sizes.Slot(r, c, capacity - 1)
    {
      hide Sizes.Slot, Sizes.Capacity;
      ghost var b := View();
      freeList := 0;
      for k := 0 to capacity
        invariant View() == Carve(b, r, c, k)
        invariant freeList == if k == 0 then 0 else sizes.Slot(r, c, k - 1)
      {
        CarveKeeps(b, r, c, k);
        var x := sizes.Slot(r, c, k);
        headers := headers[x := SlabHeader(true, r, 0)];
        word := word[x := freeList];
        freeList := x;
      }
    }

    /** A region becomes a slab on the partial list of its cache. */
    method InstallSlab(r: nat, c: nat)
      requires Linked() && c < NUM_CACHES && |partial| == NUM_CACHES && sizes.Plausible() && sizes.Capacity(c) >= 1
      requires r != 0
      requires OffLists(partial, [r]) && OffLists(full, [r]) && ListsApart(partial, full) && ListsApart(partial, [])
      modifies this
      ensures unchanged(this`remote, this`counter, this`pending)
      ensures View() == Install(old(View()), r, c, old(active)) && Linked()
    {
      hide Install, Carve, Sizes.Plausible, Sizes.Capacity, Sizes.Slot, Carved, ListAt, OffLists, ListsApart, Push,
        Spelled;
      ghost var b := View();
      InstallIs(b, r, c);
      var capacity := sizes.Capacity(c);
      var freeList := CarveSlots(r, c, capacity);
      CarveKeeps(b, r, c, capacity);
      SpelledSet(slabs, free, r, Descriptor(c, active, 0, freeList), Carved(sizes, r, c, capacity));
      slabs := slabs[r := Descriptor(c, active, 0, freeList)];
      free := free[r := Carved(sizes, r, c, capacity)];
      PushPartial(c, r);
    }

    /** slab_create with the slab_push that follows it. */
    method CreateSlab(c: nat, grant: Option<nat>) returns (r: nat)
      requires Core(View()) && Linked() && MaybeGrant(View(), grant) && c < NUM_CACHES && |partial| == NUM_CACHES
      modifies this
      ensures unchanged(this`remote, this`counter, this`pending)
      ensures (View(), r) == SlabCreate(old(View()), c, grant) && Linked() && Core(View())
    {
      hide Core, SlabCreate, AllocBlock, Install, GrantOk, Sizes.Plausible, Sizes.Capacity, ListAt, OffLists,
        ListsApart, Spelled;
      ghost var a := View();
      CoreShape(a);
      SlabCreateSound(a, c, grant);
      RegionReady(a, c, grant);
      r := AllocRegion(SLAB_SIZE, SLAB_MAX_ALIGNMENT, true, grant);
      if r != 0 {
        InstallSlab(r, c);
      }
    }

    /** The tail of slab_alloc: the first free slot of slab `r`, which moves to the full
        list if it was the last. */
    method TakeFirst(r: nat, size: nat) returns (x: nat)
      requires Core(View()) && Linked() && r in slabs && !IsFull(View(), r) && slabs[r].cls < NUM_CACHES
      requires sizes.Plausible()
      requires View().slabs[r].free != [] && slabs[r].head in word && |partial| == |full| == NUM_CACHES
      modifies this`slabs, this`free, this`headers, this`links, this`partialHeads, this`fullHeads, this`partial,
                 this`full
      ensures Linked() && x == old(slabs)[r].head && View() == TakeSlot(old(View()), r, size)
    {
      hide Core, Without, Sizes.Plausible, Sizes.Capacity, ListAt, OffLists, ListsApart, ListsAt, Spelled, Push, Remove,
        RemoveHead, IsFull, CachesOk;
      ghost var a := View();
      CoreCaches(a);
      CachesApart(a);
      SpelledAt(slabs, free, r);
      OnItsList(a, r);
      var s := slabs[r];
      x := s.head;
      ghost var rest := a.slabs[r].free[1..];
      SpelledSet(slabs, free, r, Descriptor(s.cls, s.ext, s.used + 1, word[x]), rest);
      slabs := slabs[r := Descriptor(s.cls, s.ext, s.used + 1, word[x])];
      free := free[r := rest];
      headers := headers[x := SlabHeader(true, r, size)];
      if s.used + 1 == sizes.Capacity(s.cls) {
        RegionPositive(a, r);
        MoveToFull(s.cls, r);
      }
    }

    /** slab_alloc. */
    method SlabAlloc(size: nat, grant: Option<nat>) returns (x: nat)
      requires Valid() && MaybeGrant(View(), grant) && size > 0
      modifies this
      ensures unchanged(this`remote, this`counter, this`pending)
      ensures (View(), x) == ArenaSlabs.SlabAlloc(old(View()), size, grant) && Valid()
    {
      hide Core, TakeSlot, SlabCreate, GrantOk, Sizes.Plausible, Sizes.Capacity, ListAt, Spelled, IsFull, ListsAt;
      ghost var a := View();
      CoreShape(a);
      SlabAllocSound(a, size, grant);
      var c := GetCache(size);
      if c >= NUM_CACHES {
        return 0;
      }
      HeadIs(links, partialHeads, partial, c);
      var r := partialHeads[c];
      if r == 0 {
        r := CreateSlab(c, grant);
        if r == 0 {
          return 0;
        }
        SlabCreateSound(a, c, grant);
        NewHasRoom(View(), r);
        SpelledAt(slabs, free, r);
      } else {
        HeadHasRoom(a, c);
        SpelledAt(slabs, free, r);
      }
      x := TakeFirst(r, size);
    }

    /** The slot is the first of its slab's free list again. */
    method LinkSlot(x: nat, r: nat)
      requires r in slabs && slabs[r].used > 0 && x in headers && headers[x].SlabHeader?
      modifies this`slabs, this`free, this`word, this`headers
      ensures r in old(View()).slabs
      ensures var s := old(View()).slabs[r];
              View() == old(View()).(slabs := old(View()).slabs[r := Slab(s.cls, s.ext, s.used - 1, x, [x] + s.free)],
                                     headers := old(headers)[x := old(headers)[x].(live := false)],
                                     word := old(word)[x := s.head])
    {
      hide Spelled;
      SpelledAt(slabs, free, r);
      var s := slabs[r];
      ghost var all := [x] + View().slabs[r].free;
      SpelledSet(slabs, free, r, Descriptor(s.cls, s.ext, s.used - 1, x), all);
      headers := headers[x := headers[x].(live := false)];
      word := word[x := s.head];
      slabs := slabs[r := Descriptor(s.cls, s.ext, s.used - 1, x)];
      free := free[r := all];
    }

    /** The first part of slab_free_local: the slot heads the free list again, and a slab
        that was full moves to the partial list. */
    method PutBack(x: nat, r: nat)
      requires Core(View()) && Linked() && r in slabs && slabs[r].cls < NUM_CACHES && sizes.Plausible()
      requires slabs[r].used > 0
      requires |partial| == |full| == NUM_CACHES && x in headers && headers[x].SlabHeader?
      modifies this`slabs, this`free, this`word, this`headers, this`links, this`partialHeads, this`fullHeads,
                 this`partial, this`full
      ensures Linked() && View().slabs.Keys == old(View()).slabs.Keys && View() == PutSlot(old(View()), x, r)
    {
      hide Core, Without, PutSlot, IsFull, Sizes.Plausible, Sizes.Capacity, ListAt, OffLists, ListsApart, ListsAt,
        Spelled, CachesOk;
      ghost var a := View();
      CoreCaches(a);
      CachesApart(a);
      SpelledAt(slabs, free, r);
      OnItsList(a, r);
      PutIs(a, x, r);
      RegionPositive(a, r);
      var c, wasFull := slabs[r].cls, slabs[r].used == sizes.Capacity(slabs[r].cls);
      LinkSlot(x, r);
      if wasFull {
        MoveToPartial(c, r);
      }
    }

    /** The last part of slab_free_local: an empty slab leaves its list and its region
        goes back to the pool of its extent. */
    method RetireSlab(r: nat)
      requires Core(View()) && Linked() && r in slabs && slabs[r].used == 0
      modifies this`slabs, this`free, this`links, this`partialHeads, this`partial, this`pools
      ensures slabs == old(slabs) - {r}
      ensures Linked() && Core(old(View())) && r in old(View()).slabs && old(View()).slabs[r].cls < NUM_CACHES
      ensures |old(partial)| == NUM_CACHES
      ensures r in headers && headers[r].BuddyHeader? && ExtentsOk(old(View()))
      ensures Taken(old(View()), old(slabs)[r].ext, headers[r].node)
      ensures View() == Retire(old(View()), r)
    {
      hide Core, Without, Free, Sizes.Plausible, Sizes.Capacity, ListAt, OffLists, ListsApart, ListsAt, Spelled, Push,
        Remove, RemoveHead, CachesOk, BuddySpec.Inv, LiveAs, Taken;
      ghost var a := View();
      CoreCaches(a);
      CoreShape(a);
      CachesApart(a);
      SpelledAt(slabs, free, r);
      RetireSound(a, r);
      EmptyIsPartial(a, r);
      TakenPool(a, slabs[r].ext, headers[r].node);
      RemovePartial(slabs[r].cls, r);
      SpelledGone(slabs, free, r);
      pools := pools[slabs[r].ext := Free(pools[slabs[r].ext], headers[r].node)];
      slabs := slabs - {r};
    }

    /** slab_free_local: panics on a header without the magic, of another type, or of a
        slab that is not this arena's. */
    method SlabFreeLocal(x: nat) returns (panics: bool)
      requires Valid() && (HeaderPasses(View(), x) ==> IsOut(View(), x))
      modifies this`slabs, this`free, this`word, this`headers, this`links, this`partialHeads, this`fullHeads,
               this`partial, this`full, this`pools
      ensures Core(old(View()))
      ensures panics <==> !HeaderPasses(old(View()), x)
      ensures var r := ArenaFrees.SlabFreeLocal(old(View()), x);
              (panics <==> r.Panic?) && (if panics then View() == old(View()) else View() == r.arena && Linked())
    {
      hide Core, PutSlot, Retire, Sizes.Plausible, Sizes.Capacity, Spelled, ListsAt, IsOut, ArenaFrees.SlabFreeLocal;
      ghost var a := View();
      SlabFreeIs(a, x);
      if x !in headers || !headers[x].SlabHeader? || !headers[x].live {
        return true;
      }
      var r := headers[x].slab;
      SpelledAt(slabs, free, r);
      if r !in slabs {
        return true;
      }
      PutBack(x, r);
      SpelledAt(slabs, free, r);
      if slabs[r].used == 0 {
        RetireSlab(r);
      }
      return false;
    }

    // ----------------------------------------------------- remote frees

    /** arena_free_local or arena_free_buddy_local, by the type in the header. */
    method FreeLocal(x: nat) returns (panics: bool)
      requires Valid() && IsOut(View(), x)
      modifies this`slabs, this`free, this`word, this`headers, this`links, this`partialHeads, this`fullHeads,
                 this`partial, this`full, this`pools
      ensures Core(old(View())) && !panics && Valid() && ArenaFrees.FreeLocal(old(View()), x) == Freed(View())
    {
      hide Core, Spelled, ListsAt, ArenaFrees.SlabFreeLocal, BuddySpec.Free, Sizes.Plausible, Taken, BlockAt,
        BuddySpec.Inv, SlotsOf;
      ghost var a := View();
      FreeLocalSound(a, x);
      match headers[x] {
        case SlabHeader(_, r, _) =>
          OutSlotFacts(a, x);
          SpelledAt(slabs, free, r);
          panics := SlabFreeLocal(x);
        case BuddyHeader(e, n, _, owned, _, _) =>
          FreeBlockSound(a, x);
          if !owned {
            return true;
          }
          CoreShape(a);
          TakenPool(a, e, n);
          pools := pools[e := BuddySpec.Free(pools[e], n)];
          panics := false;
      }
    }

    /** arena_drain_remote_frees: the link of each node is read before it is freed, which
        overwrites it. */
    method Drain()
      requires Ready()
      modifies this
      ensures Ready() && LocalInv(old(LocalView())) && LocalView() == Drained(old(LocalView()))
    {
      hide Core, IsOut, ListsAt, ArenaFrees.FreeLocal, Chain, GivenBack;
      ghost var a := View();
      ghost var all := pending;
      ghost var rest := pending;
      var node := remote;
      ChainDistinct(word, node, rest);
      remote, pending := 0, [];
      while node != 0
        invariant Valid() && Chain(word, node, rest) && Distinct(rest) && (forall x <- rest :: IsOut(View(), x))
        invariant FreeAll(View(), rest) == FreeAll(a, all)
        invariant remote == 0 && pending == [] && counter == old(counter)
        decreases |rest|
      {
        ghost var before := View();
        NodeHeads(word, node, rest);
        var next := word[node];
        FreeLocalSound(before, node);
        StillOut(before, rest);
        var _ := FreeLocal(node);
        RestChained(before, View(), node, next, rest[1..]);
        node := next;
        rest := rest[1..];
      }
      ChainIsEmpty(word, rest);
    }

    /** arena_remote_free with nobody else at the stack: the node is linked before the
        head and becomes the head. */
    method RemoteFree(x: nat)
      requires Ready() && InHand(LocalView(), x)
      modifies this`word, this`remote, this`pending
      ensures Ready() && LocalView() == Pushed(old(LocalView()), x)
    {
      hide Core, IsOut, StackOk, ListsAt;
      PushedSound(LocalView(), x);
      word := word[x := remote];
      remote := x;
      pending := [x] + pending;
    }

    /** arena_alloc: a drain on every 64th accepted call, and another before a second
        attempt when the first fails. */
    method ArenaAlloc(size: nat, alignment: nat, first: Option<nat>, second: Option<nat>) returns (x: nat)
      requires Ready()
      modifies this
      ensures Ready() && LocalInv(old(LocalView()))
      ensures if size == 0 || size > 1024 || !AlignmentIsValid(alignment) || alignment > 16
              then x == 0 && LocalView() == old(LocalView())
              else (LocalView(), x) == ArenaCalls.ArenaAlloc(old(LocalView()), {}, size, first, second)
    {
      hide Core, IsOut, StackOk, ListsAt, GrantOk, AlignmentIsValid, Drained, ArenaSlabs.SlabAlloc, Offer;
      if Rejected(size, alignment) {
        return 0;
      }
      ghost var l := LocalView();
      ArenaAllocSound(l, {}, size, first, second);
      Counted(l, {}, (counter + 1) % WORD);
      counter := (counter + 1) % WORD;
      AttemptInv(l, {}, LocalView(), 0);
      if counter % DRAIN_INTERVAL == 0 {
        Drain();
      }
      x := AttemptAlloc(size, first);
      if x != 0 {
        return;
      }
      Drain();
      x := AttemptAlloc(size, second);
    }

    /** slab_alloc with the remote stack in place: it stays as it was. */
    method AttemptAlloc(size: nat, grant: Option<nat>) returns (x: nat)
      requires Ready() && 0 < size <= MAX_SLAB_OBJ_SIZE
      modifies this
      ensures Ready() && Core(old(View()))
      ensures var (b, y) := ArenaSlabs.SlabAlloc(old(View()), size, Offer(old(View()), {}, grant));
              x == y && LocalView() == old(LocalView()).(arena := b)
    {
      hide Core, IsOut, StackOk, ListsAt, ArenaSlabs.SlabAlloc, MappingsApart, Attempted;
      ghost var l := LocalView();
      var offer := if grant.Some? && Acceptable(sizes, pools, grant.value) then grant else None;
      SlabAttempt(l, {}, size, grant);
      x := SlabAlloc(size, offer);
      AttemptInv(l, {}, LocalView(), x);
    }
  }

  /** A region just allocated is on no list yet; slab_create makes a slab of it. */
  lemma RegionReady(a: Arena, c: nat, grant: Option<nat>)
    requires Core(a) && MaybeGrant(a, grant) && c < NUM_CACHES
    ensures var (b, r) := AllocBlock(a, SLAB_SIZE, SLAB_MAX_ALIGNMENT, true, grant);
            && b.partial == a.partial && b.full == a.full && |b.partial| == NUM_CACHES
            && (r == 0 ==> SlabCreate(a, c, grant) == (b, 0))
            && (r != 0 ==>
                  && b.sizes.Plausible() && b.sizes.Capacity(c) >= 1
                  && SlabCreate(a, c, grant) == (Install(b, r, c, b.active), r)
                  && OffLists(b.partial, [r]) && OffLists(b.full, [r])
                  && ListsApart(b.partial, b.full) && ListsApart(b.partial, []))
  {
    hide AllocBlock, Install, ExtentsOk, BlocksOk, SlabsOk, Sizes.Capacity, BlockHanded, OffLists, ListsApart,
      SameHands, IsOut;
    CoreShape(a);
    AllocBlockKeeps(a, SLAB_SIZE, SLAB_MAX_ALIGNMENT, true, grant);
    var (b, r) := AllocBlock(a, SLAB_SIZE, SLAB_MAX_ALIGNMENT, true, grant);
    CachesApart(a);
    if r != 0 {
      HandedFacts(a, b, r);
      HandedLists(a, b, r);
      CapacityFits(b.sizes, c);
    } else {
      SameHandsLists(a, b);
    }
  }

  lemma HandedLists(a: Arena, b: Arena, r: nat)
    requires BlockHanded(a, b, r, true, SLAB_SIZE, SLAB_MAX_ALIGNMENT)
    ensures b.full == a.full
  {
  }

  lemma SameHandsLists(a: Arena, b: Arena)
    requires SameHands(a, b)
    ensures b.partial == a.partial && b.full == a.full
  {
  }

  lemma InstallIs(b: Arena, r: nat, c: nat)
    requires c < NUM_CACHES && b.sizes.Plausible() && |b.partial| == NUM_CACHES && b.sizes.Capacity(c) >= 1
    ensures var n := b.sizes.Capacity(c);
            var d := Carve(b, r, c, n);
            Install(b, r, c, b.active)
            == d.(slabs := b.slabs[r := Slab(c, b.active, 0, b.sizes.Slot(r, c, n - 1), Carved(b.sizes, r, c, n))],
                  partial := b.partial[c := [r] + b.partial[c]])
  {
    hide Sizes.Slot, Sizes.Capacity, Sizes.Plausible;
  }

  lemma CoreCaches(a: Arena)
    requires Core(a)
    ensures CachesOk(a)
  {
  }

  lemma OnItsList(a: Arena, r: nat)
    requires CachesOk(a) && r in a.slabs && a.slabs[r].cls < NUM_CACHES
    ensures |a.partial| == |a.full| == NUM_CACHES
    ensures if IsFull(a, r) then r in a.full[a.slabs[r].cls] else r in a.partial[a.slabs[r].cls]
    ensures Distinct(a.partial[a.slabs[r].cls]) && Distinct(a.full[a.slabs[r].cls])
  {
    hide IsFull;
  }

  lemma SpelledAt(slabs: map<nat, Descriptor>, free: map<nat, seq<nat>>, r: nat)
    ensures r in Spelled(slabs, free) <==> r in slabs
    ensures r in slabs ==>
              var s := Spelled(slabs, free)[r];
              s.cls == slabs[r].cls && s.ext == slabs[r].ext
              && s.used == slabs[r].used && s.head == slabs[r].head
  {
  }

  /** A slab's region lies above address 0. */
  lemma RegionPositive(a: Arena, r: nat)
    requires Core(a) && r in a.slabs
    ensures r != 0
  {
    hide Taken, BlockAt, BlockSize, ExtentsOk, CachesOk, SlabsOk, Sizes.Plausible, Sizes.Capacity;
    SlabFacts(a, r);
    assert BlockOk(a, a.slabs[r].ext, a.headers[r].node);
  }

  lemma HeadIs(links: LinkedLists.Memory, heads: seq<nat>, lists: seq<seq<nat>>, c: nat)
    requires ListsAt(links, heads, lists) && c < |lists|
    ensures |heads| == |lists| && heads[c] == (if lists[c] == [] then 0 else lists[c][0])
    ensures (heads[c] == 0 <==> lists[c] == [])
  {
    EmptyIff(links, heads[c], lists[c]);
  }

  lemma EmptyIsPartial(a: Arena, r: nat)
    requires Core(a) && r in a.slabs && a.slabs[r].used == 0
    ensures a.slabs[r].cls < NUM_CACHES && |a.partial| == NUM_CACHES && r in a.partial[a.slabs[r].cls]
  {
    SlabFacts(a, r);
    UnusedSlabIsWhole(a, r);
    hide SlabOk, Core, IsFull;
    CoreCaches(a);
    OnItsList(a, r);
  }

  lemma TakenPool(a: Arena, e: nat, n: nat)
    requires ExtentsOk(a) && Taken(a, e, n)
    ensures e in a.pools && BuddySpec.Inv(a.pools[e]) && LiveAs(a.pools[e].tree, n, FULL)
  {
  }

  lemma ChainIsEmpty(word: map<nat, nat>, s: seq<nat>)
    requires Chain(word, 0, s)
    ensures s == [] && Chain(word, 0, [])
  {
  }

  lemma NodeHeads(word: map<nat, nat>, node: nat, s: seq<nat>)
    requires Chain(word, node, s) && node != 0
    ensures s != [] && node == s[0] && node in s && node in word && node !in s[1..] && Chain(word, word[node], s[1..])
  {
    ChainPop(word, node, s);
  }

  /** Freeing the first node leaves the links of the others as they were. */
  lemma RestChained(a: Arena, b: Arena, x: nat, next: nat, rest: seq<nat>)
    requires GivenBack(a, b, x) && Chain(a.word, next, rest) && x !in rest && forall y <- rest :: IsOut(b, y)
    ensures Chain(b.word, next, rest)
  {
    hide IsOut;
    ChainLinked(a.word, next, rest);
    ChainKept(a.word, b.word, next, rest);
  }

  predicate Rejected(size: nat, alignment: nat) {
    size == 0 || size > MAX_SLAB_OBJ_SIZE || !AlignmentIsValid(alignment) || alignment > SLAB_MAX_ALIGNMENT
  }

  /** The first part of slab_free_local on values. */
  lemma PutIs(a: Arena, x: nat, r: nat)
    requires r in a.slabs && a.slabs[r].cls < NUM_CACHES && a.sizes.Plausible() && a.slabs[r].used > 0
    requires |a.partial| == |a.full| == NUM_CACHES && x in a.headers && a.headers[x].SlabHeader?
    ensures var (s, c) := (a.slabs[r], a.slabs[r].cls);
            var b := a.(slabs := a.slabs[r := Slab(c, s.ext, s.used - 1, x, [x] + s.free)],
                        headers := a.headers[x := a.headers[x].(live := false)], word := a.word[x := s.head]);
            && IsFull(a, r) == (s.used == a.sizes.Capacity(c))
            && PutSlot(a, x, r) == if s.used == a.sizes.Capacity(c)
                                   then b.(full := a.full[c := Without(a.full[c], r)],
                                           partial := a.partial[c := [r] + a.partial[c]])
                                   else b
  {
    hide Without, Sizes.Plausible, Sizes.Capacity;
  }

  lemma {:induction false} CarveKeeps(b: Arena, r: nat, c: nat, k: nat)
    requires c < NUM_CACHES
    ensures var d := Carve(b, r, c, k); d == b.(word := d.word, headers := d.headers)
  {
    hide Sizes.Slot;
    if k > 0 {
      CarveKeeps(b, r, c, k - 1);
    }
  }

  lemma HeadsFit(links: LinkedLists.Memory, heads: seq<nat>, lists: seq<seq<nat>>)
    requires ListsAt(links, heads, lists)
    ensures |heads| == |lists|
  {
  }

  lemma ExtentsListed(a: Arena)
    requires ExtentsOk(a)
    ensures a.active in a.pools && forall e <- a.extents :: e in a.pools
  {
    assert forall e :: e in Elems(a.extents) <==> e in a.extents;
  }

  /** One turn of the search: the extent at `i` answers, or the rest decides. */
  lemma ServingStep(a: Arena, es: seq<nat>, i: nat, target: nat)
    requires ExtentsOk(a) && (forall e <- es :: e in a.pools) && i < |es|
    ensures es[i] in a.pools && forall e <- es[i..] :: e in a.pools
    ensures forall e <- es[i + 1..] :: e in a.pools
    ensures FirstServing(a, es[i..], target)
            == if es[i] != a.active && Serves(a, es[i], target) then Some(es[i])
              else FirstServing(a, es[i + 1..], target)
  {
    hide ExtentsOk, Serves;
    assert es[i..][0] == es[i] && es[i..][1..] == es[i + 1..];
  }
}
