/** src/arena_allocator.c: the arena object, its list of blocks linked through their
    headers, and its dealings with the parent allocator. */
module BumpArena {
  import opened Words
  import opened ZeroFill
  import opened BumpSpec
  import opened BumpTheorems

  /** The header at the start of a block. */
  datatype BlockHeader = BlockHeader(next: nat, allocationSize: nat, used: nat, capacity: nat)

  type Headers = map<nat, BlockHeader>

  /** Following `next` from `head` visits exactly `list`. */
  ghost predicate LinkedAt(headers: Headers, head: nat, list: seq<nat>)
    decreases |list|
  {
    if list == [] then head == 0
    else
      head == list[0] != 0 && head in headers && head !in list[1..]
      && LinkedAt(headers, headers[head].next, list[1..])
  }

  ghost function BlockAt(headers: Headers, x: nat): Block {
    if x in headers then Block(x, headers[x].allocationSize, headers[x].used, headers[x].capacity)
    else Block(x, 0, 0, 0)
  }

  ghost function BlocksOf(headers: Headers, list: seq<nat>): (r: seq<Block>)
    ensures |r| == |list| && forall i :: 0 <= i < |r| ==> r[i] == BlockAt(headers, list[i])
  {
    seq(|list|, i requires 0 <= i < |list| => BlockAt(headers, list[i]))
  }

  /** Headers of other blocks do not matter to a list. */
  lemma {:induction false} LinkedFrame(headers: Headers, headers': Headers, head: nat, list: seq<nat>)
    requires LinkedAt(headers, head, list) && forall x <- list ::
               x in headers' && x in headers && headers'[x] == headers[x]
    ensures LinkedAt(headers', head, list) && BlocksOf(headers', list) == BlocksOf(headers, list)
    decreases |list|
  {
    if list != [] {
      assert list[0] in list && forall x <- list[1..] :: x in list;
      LinkedFrame(headers, headers', headers[head].next, list[1..]);
    }
  }

  lemma {:induction false} LinkedMembers(headers: Headers, head: nat, list: seq<nat>)
    requires LinkedAt(headers, head, list)
    ensures forall x <- list :: x in headers && x != 0
    decreases |list|
  {
    if list != [] {
      LinkedMembers(headers, headers[head].next, list[1..]);
      assert list == [list[0]] + list[1..];
    }
  }

  class BumpArena {
    var parent: Allocator
    var head: nat
    var headers: Headers
    var blockSize: nat
    /** The list, what has been handed out since the last reset, and what has been
        obtained from the parent and not yet returned to it. */
    ghost var list: seq<nat>
    ghost var handed: set<Range>
    ghost var ledger: set<Range>

    ghost function View(): (r: Allocator)
      reads this
      ensures r.Bump?
    {
      Bump(parent, BlocksOf(headers, list), blockSize, handed)
    }

    /** The arena owns exactly what it has obtained and not returned. */
    ghost predicate Valid()
      reads this
    {
      LinkedAt(headers, head, list) && Inv(View()) && ledger == Owned(BlocksOf(headers, list)) && blockSize < WORD
    }

    /** allocator_arena_init. */
    constructor (parentState: Allocator, size: nat)
      requires Inv(parentState) && size < WORD
      ensures Valid() && View() == Bump(parentState, [], size, {}) && ledger == {}
    {
      parent, head, headers, blockSize := parentState, 0, map[], size;
      list, handed, ledger := [], {}, {};
    }

    /** arena_new_block: what is asked of the parent, and the new head of the list. */
    method NewBlock(minimum: nat, choice: nat) returns (block: nat)
      requires Valid() && minimum < WORD
      modifies this
      ensures var (base, b) := BumpSpec.NewBlock(old(View()), minimum, choice);
              && parent == base.parent && blockSize == old(blockSize) && handed == old(handed)
              && (b.None? ==> block == 0 && View() == base && LinkedAt(headers, head, list) && ledger == old(ledger))
              && (b.Some? ==>
                    && block == head == b.value.start != 0 && block in headers && list == [block] + old(list)
                    && LinkedAt(headers, head, list)
                    && BlocksOf(headers, list) == [b.value] + old(BlocksOf(headers, list))
                    && b.value.Origin() !in old(ledger) && ledger == old(ledger) + {b.value.Origin()})
    {
      ghost var a := View();
      hide Inv, AllocFrom, Usable, LinkedAt, BlocksOf;
      ParentOk(a);
      var capacity := if blockSize < minimum then minimum else blockSize;
      if capacity > WORD - 1 - BLOCK_HEADER {
        return 0;
      }
      var (p, start) := AllocFrom(parent, BLOCK_HEADER + capacity, MAX_ALIGN, choice);
      AllocMeetsContract(parent, BLOCK_HEADER + capacity, MAX_ALIGN, choice);
      parent := p;
      if start == 0 {
        return 0;
      }
      ghost var b := Block(start, BLOCK_HEADER + capacity, 0, capacity);
      FreshStart(a, b);
      PushBlock(headers, head, list, b);
      headers := headers[start := BlockHeader(head, BLOCK_HEADER + capacity, 0, capacity)];
      head := start;
      list := [start] + list;
      ledger := ledger + {b.Origin()};
      return start;
    }

    /** The newest block's `used` is set to `used`. */
    method SetUsed(used: nat)
      requires LinkedAt(headers, head, list) && list != []
      modifies this`headers
      ensures LinkedAt(headers, head, list)
      ensures var bs := old(BlocksOf(headers, list)); BlocksOf(headers, list) == [bs[0].(used := used)] + bs[1..]
    {
      GrowHead(headers, head, list, used);
      headers := headers[head := headers[head].(used := used)];
    }

    /** arena_alloc_internal: the arena's state and result are those of the
        specification, for every size, alignment and answer of the source. */
    method Alloc(size: nat, alignment: nat, choice: nat) returns (p: nat)
      requires Valid() && size < WORD && alignment < WORD
      modifies this
      ensures Valid() && (View(), p) == AllocFrom(old(View()), size, alignment, choice)
      ensures ledger == old(ledger) + (Live(parent) - old(Live(parent)))
    {
      ghost var a := View();
      hide Inv, AllocFrom, Usable, LinkedAt, AlignmentIsValid, AlignUpWord, AlignUp, Owned, LiveOk;
      AllocMeetsContract(a, size, alignment, choice);
      AcquiredLedger(a, AllocFrom(a, size, alignment, choice).0);
      if size == 0 || !AlignmentIsValid(alignment) || size > WORD - 1 - (alignment - 1) {
        RefusedAnswer(a, size, alignment, choice);
        return 0;
      }
      ValidPositive(alignment);
      EmptyIff(headers, head, list);
      if head != 0 {
        HeadBlock(headers, head, list);
        OldBlockOk(a);
        var b := headers[head];
        var current := (head + BLOCK_HEADER + b.used) % WORD;
        var aligned := AlignUpWord(current, alignment);
        var padding := (aligned - current) % WORD;
        hide BlocksOf;
        if padding <= b.capacity - b.used && size <= b.capacity - b.used - padding {
          FastPath(a, size, alignment, choice);
          SetUsed(b.used + padding + size);
          handed := handed + {Range(aligned, size, alignment)};
          return aligned;
        }
      }
      p := SlowAlloc(size, alignment, choice);
    }

    /** The second half of arena_alloc_internal: a new block for the request. */
    method SlowAlloc(size: nat, alignment: nat, choice: nat) returns (p: nat)
      requires Valid() && size < WORD && 0 < alignment < WORD && !Refused(size, alignment)
      requires View().blocks == [] || !Fits(View().blocks[0], size, alignment)
      modifies this
      ensures Valid() && (View(), p) == AllocFrom(old(View()), size, alignment, choice)
      ensures ledger == old(ledger) + (Live(parent) - old(Live(parent)))
    {
      ghost var a := View();
      hide Inv, AllocFrom, Usable, LinkedAt, AlignmentIsValid, AlignUpWord, AlignUp, Owned, LiveOk, BlocksOf, Fits,
        Refused;
      AllocMeetsContract(a, size, alignment, choice);
      AcquiredLedger(a, AllocFrom(a, size, alignment, choice).0);
      SlowPath(a, size, alignment, choice);
      RequestInWord(size, alignment);
      var block := NewBlock(size + alignment - 1, choice);
      if block == 0 {
        return 0;
      }
      var data := block + BLOCK_HEADER;
      p := AlignUpWord(data % WORD, alignment);
      SetUsed((p - data) % WORD + size);
      handed := handed + {Range(p, size, alignment)};
      BlockAdded(a.blocks, View().blocks[0]);
    }

    /** arena_realloc: NULL exactly for a size of 0 or when the arena refuses the new range,
        and then nothing changes; otherwise the new range starts with the first
        min(oldSize, newSize) bytes of the old one, which stays as it was. `m` is the whole
        address space. */
    method Realloc(m: array<Byte>, ptr: nat, oldSize: nat, newSize: nat, alignment: nat, choice: nat) returns (p: nat)
      requires Valid() && oldSize < WORD && newSize < WORD && alignment < WORD && m.Length == WORD
      requires ptr != 0 ==> exists r <- handed :: r.start == ptr && oldSize <= r.size
      modifies this, m
      ensures Valid() && (View(), p) == AllocFrom(old(View()), newSize, alignment, choice)
      ensures p == 0 ==> View() == old(View())
      ensures newSize == 0 ==> p == 0
      ensures ptr == 0 ==> m[..] == old(m[..])
      ensures p == 0 ==> m[..] == old(m[..]) && handed == old(handed)
      ensures p != 0 ==> handed == old(handed) + {Range(p, newSize, alignment)} && p + newSize <= WORD
      ensures p != 0 && ptr != 0 ==>
                var n := if oldSize < newSize then oldSize else newSize;
                && ptr + n <= WORD && p + n <= WORD && m[p..p + n] == old(m[ptr..ptr + n])
                && forall k :: 0 <= k < m.Length && !(p <= k < p + n) ==> m[k] == old(m[k])
    {
      ghost var a := View();
      hide Inv, AllocFrom, LinkedAt, AlignmentIsValid, AlignUpWord, AlignUp, Owned, BlocksOf, HasRoom;
      AllocMeetsContract(a, newSize, alignment, choice);
      if AllocFrom(a, newSize, alignment, choice).1 == 0 {
        RefusalChangesNothing(a, newSize, alignment, choice);
      }
      RefusesIff(a, newSize, alignment, choice);
      if ptr == 0 {
        p := Alloc(newSize, alignment, choice);
        return;
      }
      if newSize == 0 {
        return 0;
      }
      p := Alloc(newSize, alignment, choice);
      if p != 0 {
        OldRangeApart(a, Range(p, newSize, alignment), ptr, oldSize);
        var n := if oldSize < newSize then oldSize else newSize;
        Memcpy(m, p, ptr, n);
      }
    }

    /** allocator_arena_reset: each block goes back exactly once, as it was obtained. */
    method Reset()
      requires Valid()
      modifies this
      ensures Valid() && View() == BumpSpec.Reset(old(View())) && ledger == {}
    {
      ghost var a := View();
      ResetReturnsAll(a);
      var block := head;
      ghost var rest := list;
      while block != 0
        invariant LinkedAt(headers, block, rest)
        invariant FreeBlocks(parent, BlocksOf(headers, rest)) == FreeBlocks(a.parent, a.blocks)
        invariant ledger == Owned(BlocksOf(headers, rest)) && DistinctStarts(BlocksOf(headers, rest))
        invariant blockSize == a.blockSize
        decreases |rest|
      {
        var next := headers[block].next;
        ghost var bs := BlocksOf(headers, rest);
        FirstReturned(bs);
        assert bs[0].Origin() in ledger;
        ledger := ledger - {bs[0].Origin()};
        parent := FreeTo(parent, Range(block, headers[block].allocationSize, MAX_ALIGN));
        ghost var was := headers;
        headers := headers - {block};
        LinkedMembers(was, next, rest[1..]);
        LinkedFrame(was, headers, next, rest[1..]);
        assert BlocksOf(headers, rest[1..]) == bs[1..];
        block := next;
        rest := rest[1..];
      }
      head, list, handed := 0, [], {};
    }
  }

  ghost predicate DistinctStarts(bs: seq<Block>) {
    forall i, j :: 0 <= i < j < |bs| ==> bs[i].start != bs[j].start
  }

  /** Returning the first block leaves exactly the others owned. */
  lemma FirstReturned(bs: seq<Block>)
    requires bs != [] && DistinctStarts(bs)
    ensures bs[0].Origin() in Owned(bs) && Owned(bs) - {bs[0].Origin()} == Owned(bs[1..]) && DistinctStarts(bs[1..])
  {
    assert bs == [bs[0]] + bs[1..];
    assert forall b: Block :: b in bs <==> b == bs[0] || b in bs[1..];
    forall b <- bs[1..]
      ensures b.start != bs[0].start
    {
      var i :| 0 <= i < |bs[1..]| && bs[1..][i] == b;
      assert bs[i + 1] == b;
    }
  }

  /** arena_new_block's link: the new block heads the list. */
  lemma PushBlock(headers: Headers, head: nat, list: seq<nat>, b: Block)
    requires LinkedAt(headers, head, list) && b.start != 0 && forall c <- BlocksOf(headers, list) :: c.start != b.start
    ensures var headers' := headers[b.start := BlockHeader(head, b.allocationSize, b.used, b.capacity)];
            && LinkedAt(headers', b.start, [b.start] + list)
            && BlocksOf(headers', [b.start] + list) == [b] + BlocksOf(headers, list)
  {
    var headers' := headers[b.start := BlockHeader(head, b.allocationSize, b.used, b.capacity)];
    var bs := BlocksOf(headers, list);
    forall x <- list
      ensures x != b.start
    {
      var i :| 0 <= i < |list| && list[i] == x;
      assert bs[i] in bs;
    }
    LinkedMembers(headers, head, list);
    LinkedFrame(headers, headers', head, list);
    assert ([b.start] + list)[1..] == list;
    assert BlocksOf(headers', [b.start] + list) == [b] + BlocksOf(headers', list);
  }

  lemma GrowHead(headers: Headers, head: nat, list: seq<nat>, used: nat)
    requires LinkedAt(headers, head, list) && list != []
    ensures head in headers
    ensures var headers', bs := headers[head := headers[head].(used := used)], BlocksOf(headers, list);
            LinkedAt(headers', head, list) && BlocksOf(headers', list) == [bs[0].(used := used)] + bs[1..]
  {
    var headers' := headers[head := headers[head].(used := used)];
    LinkedMembers(headers, headers[head].next, list[1..]);
    LinkedFrame(headers, headers', headers[head].next, list[1..]);
    var bs, cs := BlocksOf(headers, list), BlocksOf(headers', list);
    assert bs[1..] == BlocksOf(headers, list[1..]) && cs[1..] == BlocksOf(headers', list[1..]);
    assert cs == [cs[0]] + cs[1..];
  }

  lemma EmptyIff(headers: Headers, head: nat, list: seq<nat>)
    requires LinkedAt(headers, head, list)
    ensures head == 0 <==> list == []
  {
  }

  lemma OldRangeApart(a: Allocator, r: Range, ptr: nat, size: nat)
    requires Inv(a) && (forall q <- Live(a) :: Apart(r, q)) && exists q ::
               q in Live(a) && q.start == ptr && size <= q.size
    ensures ptr + size <= WORD && (r.start + r.size <= ptr || ptr + size <= r.start)
  {
  }

  lemma RequestInWord(size: nat, alignment: nat)
    requires size < WORD && alignment < WORD && !Refused(size, alignment)
    ensures alignment > 0 && size > 0 && size + alignment - 1 < WORD
  {
  }

  lemma AcquiredLedger(a: Allocator, b: Allocator)
    requires a.Bump? && Inv(a) && Acquired(a, b)
    ensures Owned(b.blocks) == Owned(a.blocks) + (Live(b.parent) - Live(a.parent))
  {
    OwnedIsLive(a);
  }

  lemma HeadBlock(headers: Headers, head: nat, list: seq<nat>)
    requires LinkedAt(headers, head, list) && head != 0
    ensures list != [] && head in headers && BlocksOf(headers, list)[0] == BlockAt(headers, head)
  {
  }

  lemma OldBlockOk(a: Allocator)
    requires a.Bump? && Inv(a) && a.blocks != []
    ensures BlockOk(a.blocks[0])
  {
    assert a.blocks[0] in a.blocks;
  }

  /** A block just obtained starts where no other block does. */
  lemma FreshStart(a: Allocator, b: Block)
    requires a.Bump? && Inv(a) && Usable(b.Origin()) && forall q <- Live(a.parent) :: Apart(b.Origin(), q)
    ensures forall c <- a.blocks :: c.start != b.start
    ensures b.Origin() !in Owned(a.blocks)
  {
    forall c <- a.blocks
      ensures c.start != b.start
    {
      assert c.Origin() in Live(a.parent);
      assert Apart(b.Origin(), c.Origin());
      assert Usable(c.Origin());
    }
    assert forall c <- a.blocks :: c.Origin() != b.Origin();
  }
}
