/** The buddy pool as src/buddy.c keeps it: an array of marks, an array of list
    heads, links and back pointers inside the blocks, headers before the user
    addresses. Every method is proved against BuddySpec. */
module BuddyHeap {
  import opened Words
  import opened BuddyTree
  import opened BuddySpec
  import opened BuddyLayout
  import opened LinkedLists
  import opened BuddyAddresses
  import opened BuddyTheorems
  import opened BuddyDoubleFree

  const BUDDY_MAGIC: nat := 0x67

  /** buddy_header_t, keyed by the user address that follows it. */
  datatype Header = Header(magic: nat, order: nat, block: nat, isSlabRegion: bool, size: nat, alignment: nat)

  lemma FirstNonEmptyIs(lists: seq<seq<nat>>, o: nat, r: nat)
    requires o <= r <= |lists| && (forall k :: o <= k < r ==> lists[k] == []) && (r < |lists| ==> lists[r] != [])
    ensures FirstNonEmpty(lists, o) == r
    decreases r - o
  {
    if o < r {
      FirstNonEmptyIs(lists, o + 1, r);
    }
  }

  /** A block about to be pushed starts where no listed block starts. */
  lemma PushedIsUnlisted(q: Pool, o: nat, n: nat, rest: seq<nat>)
    requires Inv(q) && o <= q.root && q.lists[o] == [n] + rest
    ensures Unlisted(q.root, q.lists[o := rest], n)
  {
    hide Live, Pow2, Start, ListsSound, Coalesced, SplitsHaveChildren, Order;
    var others := q.lists[o := rest];
    assert n in q.lists[o];
    Listed(q, o, n);
    ListsDistinct(q, o);
    HeadNotInRest(n, rest);
    forall k: nat, m: nat {:trigger m in others[k]} | k < |others| && m in others[k]
      ensures m < NodeCount(q.root) && Start(q.root, m) != Start(q.root, n)
    {
      Listed(q, k, m);
      OtherStartDiffers(q, n, k, m);
    }
  }

  lemma ListsDistinct(q: Pool, o: nat)
    requires Inv(q) && o <= q.root
    ensures Distinct(q.lists[o])
  {
  }

  lemma OtherStartDiffers(q: Pool, n: nat, k: nat, m: nat)
    requires Inv(q) && LiveAs(q.tree, n, FREE) && k <= q.root && m in q.lists[k] && m != n
    ensures m < NodeCount(q.root) && Start(q.root, m) != Start(q.root, n)
  {
    Listed(q, k, m);
    if Start(q.root, m) == Start(q.root, n) {
      LeafStartsDiffer(q, m, n);
    }
  }

  lemma HeadNotInRest(n: nat, rest: seq<nat>)
    requires Distinct([n] + rest)
    ensures n !in rest
  {
    var s := [n] + rest;
    forall i | 0 <= i < |rest|
      ensures rest[i] != n
    {
      assert s[i + 1] == rest[i];
      DistinctAt(s, 0, i + 1);
    }
  }

  lemma HoldingIsSpread(p: Pool, n: nat)
    requires Holding(p, n)
    ensures Spread(p.root, p.lists)
  {
    SoundIsSpread(SetMark(p, n, FULL));
  }

  /** Outstanding blocks occupy disjoint address ranges. */
  lemma BlocksApart(p: Pool, usable: nat, m: nat, n: nat)
    requires Inv(p) && m in Fulls(p) && n in Fulls(p) && m != n
    ensures var a, b := Address(p.root, usable, m), Address(p.root, usable, n);
            a + BlockBytes(Order(p.root, m)) <= b || b + BlockBytes(Order(p.root, n)) <= a
  {
    OutstandingDisjoint(p, m, n);
  }

  lemma BlockInPool(root: nat, usable: nat, n: nat)
    requires n < NodeCount(root)
    ensures usable <= Address(root, usable, n)
    ensures Address(root, usable, n) + BlockBytes(Order(root, n)) <= usable + BlockBytes(root)
  {
    StartInPool(root, n);
  }

  lemma SplitOffUnlisted(p: Pool, n: nat, order: nat)
    requires Holding(p, n) && OnRow(p, n, order) && order > 0
    ensures Unlisted(p.root, p.lists, NodeRight(n))
    ensures forall m <- Held(p, n) ::
              m < NodeCount(p.root) && (m != n ==> Start(p.root, m) != Start(p.root, NodeRight(n)))
  {
    SplitOnceHolds(p, n, order);
    var q := SplitOnce(p, n, order);
    var f := SetMark(q, NodeLeft(n), FULL);
    PushedIsUnlisted(f, order - 1, NodeRight(n), p.lists[order - 1]);
    assert f.lists[order - 1 := p.lists[order - 1]] == p.lists;
    SoundIsSpread(f);
    assert NodeRight(n) in f.lists[order - 1];
    assert forall m <- Held(p, n) :: m != n ==> m in Fulls(f);
  }

  /** Where blocks and headers are: the fixed parameters of one pool. */
  datatype Frame = Frame(root: nat, headerSize: nat, usable: nat) {
    predicate Fits() {
      PoolFits(root, headerSize) && 0 < usable && usable + BlockBytes(root) <= WORD
    }

    function Block(n: nat): nat {
      if n < NodeCount(root) then Address(root, usable, n) else 0
    }
  }

  /** A block handed out carries its back pointer and, inside the block, its header. */
  predicate Labelled(f: Frame, back: map<nat, nat>, headers: map<nat, Header>, n: nat) {
    var block := f.Block(n);
    && n < NodeCount(f.root)
    && block in back && back[block] + f.headerSize in headers
    && var h := headers[back[block] + f.headerSize];
       && h.magic == BUDDY_MAGIC && h.order == Order(f.root, n) && h.block == block
       && block + PTR_SIZE <= back[block] && back[block] + f.headerSize < block + BlockBytes(h.order)
  }

  /** A header that names a block of the pool. */
  ghost predicate Described(f: Frame, h: Header) {
    h.magic == BUDDY_MAGIC && exists n: nat ::
      n < NodeCount(f.root) && h.block == f.Block(n) && h.order == Order(f.root, n)
  }

  ghost predicate AllLabelled(f: Frame, back: map<nat, nat>, headers: map<nat, Header>, nodes: set<nat>) {
    forall n <- nodes :: Labelled(f, back, headers, n)
  }

  lemma LabelledInside(f: Frame, back: map<nat, nat>, headers: map<nat, Header>, n: nat)
    requires Labelled(f, back, headers, n)
    ensures n < NodeCount(f.root) && f.Block(n) in back
    ensures f.Block(n) <= back[f.Block(n)] + f.headerSize < f.Block(n) + BlockBytes(Order(f.root, n))
  {
  }

  /** The labels of two outstanding blocks occupy different memory. */
  lemma LabelsApart(p: Pool, f: Frame, back: map<nat, nat>, headers: map<nat, Header>, m: nat, n: nat, user: nat)
    requires Inv(p) && p.root == f.root && m in Fulls(p) && n in Fulls(p) && m != n
    requires Labelled(f, back, headers, m)
    requires f.Block(n) <= user < f.Block(n) + BlockBytes(Order(f.root, n))
    ensures f.Block(m) != f.Block(n) && f.Block(m) in back && back[f.Block(m)] + f.headerSize != user
  {
    BlocksApart(p, f.usable, m, n);
    LabelledInside(f, back, headers, m);
  }

  /** Labelling one more block disturbs no other label. */
  lemma AddLabel(p: Pool, f: Frame, back: map<nat, nat>, headers: map<nat, Header>, n: nat, user: nat, h: Header)
    requires Inv(p) && p.root == f.root && n in Fulls(p) && f.headerSize <= user
    requires AllLabelled(f, back, headers, Fulls(p) - {n})
    requires h.magic == BUDDY_MAGIC && h.order == Order(f.root, n) && h.block == f.Block(n)
    requires f.Block(n) + PTR_SIZE + f.headerSize <= user < f.Block(n) + BlockBytes(h.order)
    ensures AllLabelled(f, back[f.Block(n) := user - f.headerSize], headers[user := h], Fulls(p))
    ensures forall m <- Fulls(p) - {n} :: f.Block(m) != f.Block(n) && f.Block(m) in back
  {
    forall m <- Fulls(p) - {n}
      ensures f.Block(m) != f.Block(n) && f.Block(m) in back
      ensures Labelled(f, back[f.Block(n) := user - f.headerSize], headers[user := h], m)
    {
      LabelsApart(p, f, back, headers, m, n, user);
    }
  }

  lemma CreateWired(root: nat, usable: nat, heads: seq<nat>, links: Memory)
    requires usable > 0 && |heads| == root + 1 && heads[root] == usable && links == map[usable := Link(0, 0)]
    requires forall k :: 0 <= k < root ==> heads[k] == 0
    ensures ListsAgree(root, usable, heads, links, Create(root).lists)
  {
    hide Live, Depth, Start;
    var lists := Create(root).lists;
    StartIsProduct(root, 0);
    assert Addresses(root, usable, [0]) == [usable];
    assert ListAt(links, usable, [usable]);
    forall o | 0 <= o < root
      ensures ListAt(links, 0, Addresses(root, usable, lists[o]))
    {
      assert Addresses(root, usable, lists[o]) == [];
    }
  }

  lemma HeadOf(root: nat, usable: nat, head: nat, links: Memory, s: seq<nat>)
    requires NodesValid(root, s) && ListAt(links, head, Addresses(root, usable, s)) && usable > 0
    ensures head == 0 <==> s == []
    ensures s != [] ==> head == Address(root, usable, s[0])
  {
    if s != [] {
      assert Addresses(root, usable, s)[0] == Address(root, usable, s[0]);
    }
  }

  class BuddyPool {
    const root: nat
    const headerSize: nat
    const usable: nat
    const tree: array<Mark>
    const heads: array<nat>
    var links: Memory
    var back: map<nat, nat>
    var headers: map<nat, Header>
    ghost var lists: seq<seq<nat>>
    /** Every address handed out since the pool was created. */
    ghost var given: set<nat>

    ghost function View(): Pool
      reads this, tree
    {
      Pool(root, tree[..], lists)
    }

    /** The shape every intermediate state keeps. */
    ghost predicate Wired()
      reads this, tree, heads
    {
      && Layout().Fits() && Shape(View())
      && ListsAgree(root, usable, heads[..], links, lists)
    }

    function Layout(): Frame {
      Frame(root, headerSize, usable)
    }

    ghost predicate Valid()
      reads this, tree, heads
    {
      && Wired() && Inv(View())
      && AllLabelled(Layout(), back, headers, Fulls(View()))
    }

    /** Each address ever handed out still has the header it was given, which describes a
        block of the pool: nothing clears it. */
    ghost predicate Stamped()
      reads this
    {
      given == headers.Keys && forall pp <- headers :: Described(Layout(), headers[pp])
    }

    /** The user address of an outstanding block. */
    ghost function User(n: nat): nat
      reads this, tree, heads
      requires Valid() && n in Fulls(View())
    {
      back[Layout().Block(n)] + headerSize
    }

    /** src/buddy.c: buddy_pool_create. */
    constructor (root: nat, headerSize: nat, usable: nat)
      requires PoolFits(root, headerSize) && 0 < usable && usable + BlockBytes(root) <= WORD
      ensures Valid() && View() == Create(root)
      ensures this.root == root && this.headerSize == headerSize && this.usable == usable
      ensures fresh(tree) && fresh(heads)
      ensures Stamped() && given == {}
    {
      hide Described, Order, Depth, Live, Pow2, Inv;
      given := {};
      this.root, this.headerSize, this.usable := root, headerSize, usable;
      var marks := new Mark[NodeCount(root)];
      tree := marks;
      var firsts := new nat[root + 1];
      heads := firsts;
      links := map[usable := Link(0, 0)];
      back, headers := map[], map[];
      lists := Create(root).lists;
      new;
      for i := 0 to NodeCount(root)
        invariant forall k :: 0 <= k < i ==> tree[k] == FULL
        modifies tree
      {
        tree[i] := FULL;
      }
      tree[0] := FREE;
      for i := 0 to root + 1
        invariant forall k :: 0 <= k < i ==> heads[k] == 0
        invariant tree[..] == Create(root).tree
        modifies heads
      {
        heads[i] := 0;
      }
      heads[root] := usable;
      CreateSound(root);
      CreateWired(root, usable, heads[..], links);
      assert AllLabelled(Layout(), back, headers, {});
    }

    /** list_remove on the free list of an order. */
    method ListRemove(order: nat, block: nat, ghost n: nat)
      requires Wired() && Spread(root, lists)
      requires order <= root && n in lists[order] && n < NodeCount(root) && block == Address(root, usable, n)
      modifies this`links, this`lists, heads
      ensures Wired() && lists == old(lists)[order := Without(old(lists)[order], n)]
      ensures block in old(links)
    {
      RemoveAgrees(root, usable, heads[..], links, lists, order, n);
      ghost var links0, head0 := links, heads[order];
      var l := links[block];
      if l.prev != 0 {
        links := SetNext(links, l.prev, l.next);
      }
      if l.next != 0 {
        links := SetPrev(links, l.next, l.prev);
      }
      if heads[order] == block {
        heads[order] := l.next;
      }
      links := links[block := Link(0, 0)];
      lists := lists[order := Without(lists[order], n)];
      assert links == Remove(links0, block);
      assert heads[..] == old(heads[..])[order := RemoveHead(links0, head0, block)];
    }

    /** list_push on the free list of an order. */
    method ListPush(order: nat, block: nat, ghost n: nat)
      requires Wired() && Spread(root, lists) && Unlisted(root, lists, n)
      requires order <= root && block == Address(root, usable, n)
      modifies this`links, this`lists, this`back, heads
      ensures Wired() && lists == old(lists)[order := [n] + old(lists)[order]]
      ensures back == old(back) - {block}
    {
      PushAgrees(root, usable, heads[..], links, lists, order, n);
      ghost var links0, head0 := links, heads[order];
      links := links[block := Link(heads[order], 0)];
      if heads[order] != 0 {
        links := SetPrev(links, heads[order], block);
      }
      heads[order] := block;
      // The links overwrite the back pointer at the start of the block.
      back := back - {block};
      lists := lists[order := [n] + lists[order]];
      assert links == Push(links0, head0, block);
      assert heads[..] == old(heads[..])[order := block];
    }

    /** One turn of the splitting loop of buddy_alloc. */
    method SplitStep(block: nat, order: nat, ghost n: nat)
      requires Wired() && Holding(View(), n) && OnRow(View(), n, order) && order > 0
      requires block == Address(root, usable, n)
      modifies this`links, this`lists, this`back, heads, tree
      ensures Wired() && View() == SplitOnce(old(View()), n, order)
      ensures NodeRight(n) < NodeCount(root) && back == old(back) - {Address(root, usable, NodeRight(n))}
    {
      ChildOrders(root, n);
      ChildStarts(root, n);
      IndexAddressInverse(root, usable, n);
      SplitOffUnlisted(View(), n, order);
      HoldingIsSpread(View(), n);
      var node := PtrToNodeIndex(root, usable, block, order);
      tree[node] := SPLIT;
      var left, right := NodeLeft(node), NodeRight(node);
      tree[left] := FREE;
      tree[right] := FREE;
      var buddy := block + BlockBytes(order - 1);
      ListPush(order - 1, buddy, right);
      assert tree[..] == SplitOnce(old(View()), n, order).tree;
    }

    /** The order a call asks for, or one past the last when it is refused at once. */
    function RequestOrder(size: nat, alignment: nat): nat {
      if size == 0 || !AlignmentIsValid(alignment) then root + 1
      else SizeToOrder(root, headerSize, size, alignment)
    }

    /** The searching loop of buddy_alloc. */
    method SearchOrder(target: nat) returns (current: nat)
      requires Valid() && target <= root
      ensures current == FirstNonEmpty(lists, target)
    {
      hide Live, Depth, Pow2, Start;
      assert |lists| == root + 1;
      current := target;
      while current <= root && heads[current] == 0
        invariant target <= current <= root + 1
        invariant forall k :: target <= k < current ==> lists[k] == []
      {
        HeadOf(root, usable, heads[current], links, lists[current]);
        current := current + 1;
      }
      if current <= root {
        HeadOf(root, usable, heads[current], links, lists[current]);
      }
      FirstNonEmptyIs(lists, target, current);
    }

    /** The splitting loop of buddy_alloc, ending with the mark. */
    method SplitTo(first: nat, order: nat, target: nat, ghost n0: nat, ghost out: set<nat>)
      returns (ghost n: nat)
      requires Wired() && Holding(View(), n0) && OnRow(View(), n0, order) && target <= order
      requires first == Address(root, usable, n0) && Held(View(), n0) == out + {n0} && n0 !in out
      requires AllLabelled(Layout(), back, headers, out)
      modifies this`links, this`lists, this`back, heads, tree
      ensures Wired() && OnRow(old(View()), n0, order)
      ensures var (q, m) := SplitDown(old(View()), n0, order, target);
              n == m && View() == SetMark(q, m, FULL) && n < NodeCount(root) && first == Address(root, usable, n)
      ensures AllLabelled(Layout(), back, headers, out)
      ensures forall m <- out ::
                Layout().Block(m) in old(back) && back[Layout().Block(m)] == old(back)[Layout().Block(m)]
    {
      hide Live, Depth, Pow2, SplitOnce, Holding, Held, Start;
      ghost var p := View();
      n := n0;
      var current := order;
      while current > target
        invariant target <= current <= root && Wired()
        invariant Holding(View(), n) && OnRow(View(), n, current) && first == Address(root, usable, n)
        invariant Held(View(), n) == out + {n} && n !in out
        invariant SplitDown(View(), n, current, target) == SplitDown(p, n0, order, target)
        invariant AllLabelled(Layout(), back, headers, out)
        invariant forall m <- out ::
                    Layout().Block(m) in back && Layout().Block(m) in old(back)
                      && back[Layout().Block(m)] == old(back)[Layout().Block(m)]
      {
        SplitOffUnlisted(View(), n, current);
        SplitOnceHolds(View(), n, current);
        ChildStarts(root, n);
        SplitStep(first, current, n);
        n, current := NodeLeft(n), current - 1;
      }
      IndexAddressInverse(root, usable, n);
      var final := PtrToNodeIndex(root, usable, first, target);
      tree[final] := FULL;
    }

    /** Searching and splitting: the block is marked FULL and is on no list; its
        header is still to be written. */
    method TakeBlock(target: nat) returns (block: nat, ghost n: nat)
      requires Valid() && target <= root
      modifies this`links, this`lists, this`back, heads, tree
      ensures Wired()
      ensures View() == Alloc(old(View()), target).0
      ensures block == 0 <==> Alloc(old(View()), target).1.None?
      ensures block == 0 ==> back == old(back)
      ensures block != 0 ==>
                n < NodeCount(root) && Alloc(old(View()), target).1 == Some(n) && block == Address(root, usable, n)
      ensures AllLabelled(Layout(), back, headers, old(Fulls(View())))
      ensures forall m <- old(Fulls(View())) ::
                Layout().Block(m) in old(back) && back[Layout().Block(m)] == old(back)[Layout().Block(m)]
    {
      hide Live, Depth, Pow2, Start, Inv, Holding, Held, Without, Fulls, Spread, SplitDown, ListAt, Addresses, Distinct;
      ghost var p, out := View(), Fulls(View());
      n := 0;
      var current := SearchOrder(target);
      if current == root + 1 {
        return 0, 0;
      }
      ghost var n0 := lists[current][0];
      HeadOf(root, usable, heads[current], links, lists[current]);
      Listed(p, current, n0);
      HeldAfterTake(p, current, n0);
      block := heads[current];
      ListRemove(current, block, n0);
      assert View() == SetList(p, current, Without(p.lists[current], n0));
      n := SplitTo(block, current, target, n0, out);
    }

    /** src/buddy.c: buddy_alloc. NULL is 0. */
    method BuddyAlloc(size: nat, alignment: nat) returns (ptr: nat)
      requires Valid() && size < WORD && alignment < WORD
      modifies this`links, this`lists, this`back, this`headers, this`given, heads, tree
      ensures Valid() && (old(Stamped()) ==> Stamped())
      ensures given == if ptr == 0 then old(given) else old(given) + {ptr}
      ensures RequestOrder(size, alignment) > root ==> ptr == 0 && View() == old(View())
      ensures RequestOrder(size, alignment) <= root ==>
                View() == Alloc(old(View()), RequestOrder(size, alignment)).0
      ensures ptr == 0 ==> back == old(back) && headers == old(headers)
      ensures ptr != 0 <==> RequestOrder(size, alignment) <= root
                            && Alloc(old(View()), RequestOrder(size, alignment)).1.Some?
      ensures ptr != 0 ==>
                var order := RequestOrder(size, alignment);
                var n := Alloc(old(View()), order).1.value;
                && n in Fulls(View()) && ptr == User(n)
                && ptr == AlignUp(Address(root, usable, n) + PTR_SIZE + headerSize, alignment)
                && ptr + size <= Address(root, usable, n) + BlockBytes(order)
                && headers == old(headers)[ptr := Header(BUDDY_MAGIC, order, Address(root, usable, n), false, size,
                                                         alignment)]
      ensures forall m <- old(Fulls(View())) :: m in Fulls(View()) && User(m) == old(User(m))
    {
      hide Inv, Live, Depth, Pow2, Start, Alloc, ListsAgree, Address, BlockBytes, AllLabelled;
      if size == 0 || !AlignmentIsValid(alignment) {
        return 0;
      }
      var target := SizeToOrder(root, headerSize, size, alignment);
      if target >= root + 1 {
        return 0;
      }
      ghost var p := View();
      AllocSound(p, target);
      ghost var n;
      ptr, n := TakeBlock(target);
      if ptr != 0 {
        ghost var block := ptr;
        ptr := WriteHeader(ptr, target, size, alignment, n);
        given := given + {ptr};
        assert Described(Layout(), Header(BUDDY_MAGIC, target, block, false, size, alignment));
      }
    }

    /** The part of buddy_alloc that places the header and the back pointer. */
    method WriteHeader(block: nat, order: nat, size: nat, alignment: nat, ghost n: nat) returns (ptr: nat)
      requires Wired() && Inv(View()) && n in Fulls(View())
      requires AllLabelled(Layout(), back, headers, Fulls(View()) - {n})
      requires 0 < size < WORD && alignment < WORD && AlignmentIsValid(alignment)
      requires SizeToOrder(root, headerSize, size, alignment) == order == Order(root, n)
      requires block == Layout().Block(n)
      modifies this`links, this`back, this`headers
      ensures Valid() && View() == old(View()) && ptr == User(n) && ptr != 0
      ensures ptr == AlignUp(block + PTR_SIZE + headerSize, alignment) && ptr + size <= block + BlockBytes(order)
      ensures headers == old(headers)[ptr := Header(BUDDY_MAGIC, order, block, false, size, alignment)]
      ensures back == old(back)[block := ptr - headerSize]
      ensures forall m <- Fulls(View()) - {n} :: Layout().Block(m) != block && Layout().Block(m) in old(back)
    {
      hide Inv, Live, Depth, Pow2, Start, SizeToOrder, ListsAgree, Address, BlockBytes, AllLabelled, Labelled,
        Unlisted, Spread, AlignUpWord;
      BlockInPool(root, usable, n);
      RequestFits(root, headerSize, size, alignment, block);
      SoundIsSpread(View());
      ForgetLink(root, usable, heads[..], links, lists, n);
      ptr := UserAddress(block, headerSize, alignment);
      var h := Header(BUDDY_MAGIC, order, block, false, size, alignment);
      AddLabel(View(), Layout(), back, headers, n, ptr, h);
      links := links - {block};
      back := back[block := ptr - headerSize];
      headers := headers[ptr := h];
    }

    /** One turn of the coalescing loop of buddy_free: the running block stays at the
        address of the running node. */
    method MergeStep(block: nat, order: nat, node: nat) returns (lower: nat)
      requires Wired() && Holding(View(), node) && OnRow(View(), node, order) && node > 0
      requires block == Address(root, usable, node)
      requires NodeBuddy(node) < NodeCount(root) && View().tree[NodeBuddy(node)] == FREE
      modifies this`links, this`lists, heads, tree
      ensures Wired() && View() == MergeOnce(old(View()), node, order)
      ensures NodeParent(node) < NodeCount(root) && lower == Address(root, usable, NodeParent(node))
    {
      hide Inv, Live, Depth, Pow2, Start, Holding, Spread, Without, ListAt, Addresses;
      BuddyInTree(root, node);
      HalvesAndBuddy(root, node);
      BuddyIsListed(View(), node, order);
      HoldingIsSpread(View(), node);
      IndexAddressInverse(root, usable, NodeBuddy(node));
      var buddy := NodeBuddy(node);
      var buddyBlock := NodeIndexToPtr(root, usable, buddy, order);
      ListRemove(order, buddyBlock, buddy);
      var parent := NodeParent(node);
      tree[node] := FREE;
      tree[buddy] := FREE;
      tree[parent] := FREE;
      lower := if buddyBlock < block then buddyBlock else block;
      assert tree[..] == MergeOnce(old(View()), node, order).tree;
    }

    /** The coalescing loop of buddy_free and the push that ends it. */
    method CoalesceFrom(start: nat, first: nat, row: nat, ghost out: set<nat>)
      requires Wired() && Holding(View(), first) && OnRow(View(), first, row)
      requires start == Address(root, usable, first)
      requires Held(View(), first) == out + {first} && first !in out && AllLabelled(Layout(), back, headers, out)
      modifies this`links, this`lists, this`back, heads, tree
      ensures OnRow(old(View()), first, row)
      ensures Valid() && View() == Coalesce(old(View()), first, row) && Fulls(View()) == out
      ensures forall m <- out ::
                Layout().Block(m) in old(back) && back[Layout().Block(m)] == old(back)[Layout().Block(m)]
    {
      hide Inv, Live, Depth, Pow2, Start, Holding, Held, Spread, MergeOnce, ListAt, Addresses, Labelled, AllLabelled,
        Order, NodeParent, NodeBuddy;
      ghost var p := View();
      var block, node, order := start, first, row;
      RowZero(root, node);
      while order < root && tree[NodeBuddy(node)] == FREE
        invariant order <= root && Wired() && node < NodeCount(root)
        invariant order < root ==> node > 0 && NodeBuddy(node) < NodeCount(root)
        invariant order == root ==> node == 0
        invariant Holding(View(), node) && OnRow(View(), node, order) && block == Address(root, usable, node)
        invariant Held(View(), node) == out + {node} && node !in out
        invariant Coalesce(View(), node, order) == Coalesce(p, first, row)
        invariant back == old(back) && headers == old(headers)
        decreases root - order
      {
        MergeOnceHolds(View(), node, order);
        block := MergeStep(block, order, node);
        node, order := NodeParent(node), order + 1;
        RowZero(root, node);
      }
      CoalesceEnds(View(), node, order);
      FinalPush(View(), node, order, out, Layout(), back, headers);
      HoldingIsSpread(View(), node);
      ListPush(order, block, node);
    }

    /** The magic check of buddy_free. Of the pointers handed out since the pool was
        created it stops none, outstanding or not. */
    method MagicFails(pp: nat) returns (fails: bool)
      requires pp != 0
      ensures fails <==> pp !in headers || headers[pp].magic != BUDDY_MAGIC
      ensures Stamped() ==> (fails <==> pp !in given)
    {
      fails := pp !in headers || headers[pp].magic != BUDDY_MAGIC;
    }

    /** What lies beyond the check for a pointer that is no longer outstanding: the
        header leads to a block that either somebody else holds by now, under another
        address, or whose free breaks the pool or drops a block that is outstanding, even
        where it follows no stale links (LinksInUse). */
    lemma SecondFree(pp: nat) returns (n: nat)
      requires Valid() && Stamped() && pp in given && forall m <- Fulls(View()) :: User(m) != pp
      ensures pp in headers && n < NodeCount(root)
      ensures headers[pp].block == Layout().Block(n) && headers[pp].order == Order(root, n)
      ensures if n in Fulls(View()) then User(n) != pp else !Faithful(View(), Free(View(), n), n)
    {
      hide Inv, Live, Order, Free, Faithful, ListsAgree;
      assert Described(Layout(), headers[pp]);
      n :| n < NodeCount(root) && headers[pp].block == Layout().Block(n) && headers[pp].order == Order(root, n);
      FreeIsFaithfulIff(View(), n);
    }

    /** src/buddy.c: buddy_free. The magic is checked but not cleared, so the pointer
        passes the check again afterwards; SecondFree says what would follow. */
    method BuddyFree(pp: nat) returns (panicked: bool)
      requires Valid()
      requires pp in headers && headers[pp].magic == BUDDY_MAGIC ==> exists n <- Fulls(View()) :: User(n) == pp
      modifies this`links, this`lists, this`back, heads, tree
      ensures Valid()
      ensures panicked <==> pp != 0 && (pp !in headers || headers[pp].magic != BUDDY_MAGIC)
      ensures pp == 0 || panicked ==> View() == old(View()) && back == old(back)
      ensures forall n <- old(Fulls(View())) | pp != 0 && pp == old(User(n)) ::
                View() == Free(old(View()), n) && Fulls(View()) == old(Fulls(View())) - {n}
      ensures forall m <- Fulls(View()) :: m in old(Fulls(View())) && User(m) == old(User(m))
      ensures pp != 0 && !panicked ==>
                && pp in headers && headers[pp] == old(headers)[pp] && headers[pp].magic == BUDDY_MAGIC
                && forall m <- Fulls(View()) :: User(m) != pp
      ensures old(Stamped()) ==> Stamped()
    {
      hide Inv, Live, Depth, Pow2, Start, Holding, Held, Coalesce, ListsAgree, ListAt, Spread;
      if pp == 0 {
        return false;
      }
      var fails := MagicFails(pp);
      if fails {
        forall n <- Fulls(View())
          ensures User(n) != pp
        {
          assert Labelled(Layout(), back, headers, n);
        }
        return true;
      }
      ghost var n :| n in Fulls(View()) && User(n) == pp;
      forall m <- Fulls(View()) | m != n
        ensures User(m) != pp
      {
        assert Labelled(Layout(), back, headers, m) && Labelled(Layout(), back, headers, n);
        LabelledInside(Layout(), back, headers, n);
        LabelsApart(View(), Layout(), back, headers, m, n, pp);
      }
      assert Labelled(Layout(), back, headers, n);
      var order, block := headers[pp].order, headers[pp].block;
      IndexAddressInverse(root, usable, n);
      var node := PtrToNodeIndex(root, usable, block, order);
      HeldBeforeFree(View(), n);
      ghost var p := View();
      tree[node] := FREE;
      assert View() == SetMark(p, n, FREE);
      CoalesceFrom(block, node, order, Fulls(p) - {n});
      panicked := false;
    }
  }

  lemma BuddyIsListed(p: Pool, n: nat, order: nat)
    requires Holding(p, n) && OnRow(p, n, order) && n > 0
    requires NodeBuddy(n) < NodeCount(p.root) && p.tree[NodeBuddy(n)] == FREE
    ensures NodeBuddy(n) in p.lists[order]
  {
    BuddyInTree(p.root, n);
    var f := SetMark(p, n, FULL);
    LiveAgreeAt(p.tree, f.tree, n);
    BuddyIsLive(f, n);
    FreeIsListed(f, NodeBuddy(n));
  }

  lemma HeldBeforeFree(p: Pool, n: nat)
    requires Inv(p) && n in Fulls(p)
    ensures Holding(SetMark(p, n, FREE), n) && Held(SetMark(p, n, FREE), n) == (Fulls(p) - {n}) + {n}
  {
    var h := SetMark(p, n, FREE);
    LiveAgreeAt(h.tree, p.tree, n);
    assert SetMark(h, n, FULL).tree == p.tree;
  }

  /** The push that ends buddy_free overwrites no label of an outstanding block. */
  lemma FinalPush(p: Pool, n: nat, order: nat, out: set<nat>, f: Frame, back: map<nat, nat>, headers: map<nat, Header>)
    requires OnRow(p, n, order) && Inv(SetList(p, order, [n] + p.lists[order]))
    requires Fulls(SetList(p, order, [n] + p.lists[order])) == out
    requires p.root == f.root && AllLabelled(f, back, headers, out)
    ensures Unlisted(p.root, p.lists, n)
    ensures AllLabelled(f, back - {f.Block(n)}, headers, out)
    ensures forall m <- out :: f.Block(m) in back && f.Block(m) != f.Block(n)
  {
    var q := SetList(p, order, [n] + p.lists[order]);
    PushedIsUnlisted(q, order, n, p.lists[order]);
    assert q.lists[order := p.lists[order]] == p.lists;
    SoundIsSpread(q);
    assert n in q.lists[order];
    forall m <- out
      ensures f.Block(m) in back && f.Block(m) != f.Block(n)
      ensures Labelled(f, back - {f.Block(n)}, headers, m)
    {
      assert Labelled(f, back, headers, m) && Start(p.root, m) != Start(p.root, n);
    }
  }

  lemma HeldAfterTake(p: Pool, o: nat, n: nat)
    requires Inv(p) && o <= p.root && n in p.lists[o]
    ensures Spread(p.root, p.lists) && n < NodeCount(p.root)
    ensures var h := SetList(p, o, Without(p.lists[o], n));
            Holding(h, n) && OnRow(h, n, o) && Held(h, n) == Fulls(p) + {n} && n !in Fulls(p)
  {
    Listed(p, o, n);
    Take(p, n);
    SoundIsSpread(p);
    var h := SetList(p, o, Without(p.lists[o], n));
    assert SetMark(h, n, FULL) == SetList(SetMark(p, n, FULL), o, Without(p.lists[o], n));
  }

  /** BUDDY_TREE_SIZE, with `markSize` for the size of a mark. */
  function TreeBytes(root: nat, markSize: nat): nat {
    AlignUp(NodeCount(root) * markSize, PAGE)
  }

  /** src/buddy.c: buddy_pool_create, which answers NULL exactly when it is given no memory
      or less than the tree and the blocks need. */
  method BuddyPoolCreate(root: nat, headerSize: nat, markSize: nat, rawMem: nat,
                         poolSize: nat) returns (pool: BuddyPool?)
    requires PoolFits(root, headerSize) && rawMem + poolSize <= WORD
    ensures pool == null <==> rawMem == 0 || poolSize < TreeBytes(root, markSize) + BlockBytes(root)
    ensures pool != null ==>
              && fresh(pool) && pool.Valid() && pool.View() == Create(root) && pool.Stamped()
              && pool.headerSize == headerSize
              && rawMem + TreeBytes(root, markSize) <= pool.usable
              && pool.usable + BlockBytes(root) <= rawMem + poolSize
  {
    hide NodeCount;
    if rawMem == 0 || poolSize < TreeBytes(root, markSize) + BlockBytes(root) {
      return null;
    }
    pool := new BuddyPool(root, headerSize, rawMem + TreeBytes(root, markSize));
  }
}
