/** What the bump arena guarantees, for towers of any depth over any source. */
module BumpTheorems {
  import opened Words
  import opened BumpSpec

  /** The contract of alloc: NULL changes nothing that is live; otherwise the result is
      a usable range apart from everything live, which becomes live. */
  ghost predicate AllocContract(a: Allocator, size: nat, alignment: nat, b: Allocator, p: nat) {
    var r := Range(p, size, alignment);
    if p == 0 then Live(b) == Live(a)
    else Live(b) == Live(a) + {r} && Usable(r) && forall q <- Live(a) :: Apart(r, q)
  }

  lemma NotApartFromItself(r: Range)
    requires r.size > 0
    ensures !Apart(r, r)
  {
  }

  lemma LiveGrows(live: set<Range>, r: Range)
    requires LiveOk(live) && Usable(r) && forall q <- live :: Apart(r, q)
    ensures LiveOk(live + {r}) && r !in live
  {
    NotApartFromItself(r);
  }

  lemma ApartWithin(b: Block, x: nat, size: nat, alignment: nat, q: Range)
    requires BlockOk(b) && Within(b, q) && b.Data() + b.used <= x
    ensures Apart(Range(x, size, alignment), q)
  {
  }

  /** Ranges inside different blocks are apart. */
  lemma ApartBlocks(b: Block, c: Block, r: Range, q: Range)
    requires BlockOk(b) && BlockOk(c) && Apart(b.Origin(), c.Origin())
    requires b.Data() <= r.start && r.start + r.size <= b.Data() + b.capacity && Within(c, q)
    ensures Apart(r, q)
  {
  }

  /** Bumping the newest block: the result is apart from all that the arena handed out. */
  lemma BumpedApart(a: Allocator, x: nat, size: nat, alignment: nat)
    requires a.Bump? && Inv(a) && a.blocks != []
    requires var b := a.blocks[0]; b.Data() + b.used <= x && x + size <= b.Data() + b.capacity
    ensures forall q <- a.handed :: Apart(Range(x, size, alignment), q)
  {
    var b, r := a.blocks[0], Range(x, size, alignment);
    forall q <- a.handed
      ensures Apart(r, q)
    {
      var c :| c in a.blocks && Within(c, q);
      if c == b {
        ApartWithin(b, x, size, alignment, q);
      } else {
        ApartBlocks(b, c, r, q);
      }
    }
  }

  /** Any change of a block that keeps its used part keeps what was handed out in it. */
  lemma HandedKept(blocks: seq<Block>, handed: set<Range>, used: nat, r: Range)
    requires HandedOk(blocks, handed) && blocks != [] && blocks[0].used <= used
    requires Within(blocks[0].(used := used), r)
    ensures HandedOk([blocks[0].(used := used)] + blocks[1..], handed + {r})
  {
    var bs := [blocks[0].(used := used)] + blocks[1..];
    assert bs[0] in bs;
    forall q <- handed
      ensures exists b :: b in bs && Within(b, q)
    {
      var c :| c in blocks && Within(c, q);
      if c == blocks[0] {
        assert Within(bs[0], q);
      } else {
        InTail(blocks, c);
        assert c in bs;
      }
    }
  }

  lemma InTail(s: seq<Block>, x: Block)
    requires s != [] && x in s && x != s[0]
    ensures x in s[1..]
  {
    var i :| 0 <= i < |s| && s[i] == x;
    assert s[1..][i - 1] == x;
  }

  lemma BumpKeeps(a: Allocator, size: nat, alignment: nat, choice: nat)
    requires a.Bump? && Inv(a) && size < WORD && alignment < WORD && !Refused(size, alignment)
    requires a.blocks != [] && Fits(a.blocks[0], size, alignment)
    ensures var (b, p) := AllocFrom(a, size, alignment, choice);
            p != 0 && Inv(b) && AllocContract(a, size, alignment, b, p) && Acquired(a, b)
  {
    hide AlignUp, AlignUpWord;
    var b := a.blocks[0];
    var c := Current(b);
    assert alignment > 0 && c < WORD;
    hide AlignmentIsValid, Current;
    assert Usable(b.Origin());
    FitsIff(b, size, alignment);
    var p := AlignUpWord(Current(b), alignment);
    AlignUpAbove(b.Data() + b.used, alignment);
    BumpedApart(a, p, size, alignment);
    var r := Range(p, size, alignment);
    LiveGrows(a.handed, r);
    var used := b.used + Padding(b, alignment) + size;
    hide Padding, Fits;
    HandedKept(a.blocks, a.handed, used, r);
    GrownBlocks(a.parent, a.blocks, used);
    AcquiredNothing(a, AllocFrom(a, size, alignment, choice).0);
  }

  lemma GrownBlocks(parent: Allocator, blocks: seq<Block>, used: nat)
    requires BlocksOk(parent, blocks) && blocks != [] && used <= blocks[0].capacity
    ensures BlocksOk(parent, [blocks[0].(used := used)] + blocks[1..])
    ensures Owned([blocks[0].(used := used)] + blocks[1..]) == Owned(blocks)
  {
    var bs := [blocks[0].(used := used)] + blocks[1..];
    assert blocks[0] in blocks && bs[0] in bs && bs[0].Origin() == blocks[0].Origin();
    forall b <- blocks
      ensures b.Origin() in Owned(bs)
    {
      if b != blocks[0] {
        InTail(blocks, b);
        assert b in bs;
      }
    }
    forall b <- bs
      ensures b.Origin() in Owned(blocks) && BlockOk(b) && b.Origin() in Live(parent)
    {
      if b != bs[0] {
        InTail(bs, b);
        assert b in blocks;
      }
    }
    assert forall i :: 0 < i < |bs| ==> bs[i] == blocks[i];
  }

  /** A new block, with the request placed in it, joins the list. */
  lemma NewBlockJoins(a: Allocator, parent: Allocator, b: Block, r: Range)
    requires a.Bump? && Inv(a) && Inv(parent) && BlockOk(b) && Usable(r) && Within(b, r)
    requires Live(parent) == Live(a.parent) + {b.Origin()} && (forall q <- Live(a.parent) :: Apart(b.Origin(), q))
    requires b.start > 0 && b.Origin() !in Live(a.parent)
    ensures var c := Bump(parent, [b] + a.blocks, a.blockSize, a.handed + {r});
            Inv(c) && Acquired(a, c) && forall q <- a.handed :: Apart(r, q)
  {
    hide Usable;
    var bs := [b] + a.blocks;
    BlockAdded(a.blocks, b);
    OwnedIsLive(a);
    forall q <- a.handed
      ensures Apart(r, q) && exists c :: c in bs && Within(c, q)
    {
      var c :| c in a.blocks && Within(c, q);
      assert Apart(b.Origin(), c.Origin());
      ApartBlocks(b, c, r, q);
      assert c in bs;
    }
    assert b in bs;
    LiveGrows(a.handed, r);
    forall c <- a.blocks
      ensures c.start != b.start
    {
      assert Apart(b.Origin(), c.Origin());
    }
    assert BlocksOk(parent, bs);
  }

  lemma BlockAdded(blocks: seq<Block>, b: Block)
    ensures Owned([b] + blocks) == Owned(blocks) + {b.Origin()}
  {
    var bs := [b] + blocks;
    assert forall c: Block :: c in bs <==> c == b || c in blocks;
  }

  /** A parent whose live ranges only grow keeps the arena's invariant. */
  lemma ParentGrows(a: Allocator, parent: Allocator)
    requires a.Bump? && Inv(a) && Inv(parent) && Live(a.parent) <= Live(parent)
    ensures Inv(a.(parent := parent))
  {
  }

  /** Closure under composition: a tower of arenas of any depth, over a source that
      meets the contract, meets the contract itself, keeps its invariant, and owns
      exactly what it newly obtains. */
  lemma {:induction false} AllocMeetsContract(a: Allocator, size: nat, alignment: nat, choice: nat)
    requires Inv(a) && size < WORD && alignment < WORD
    ensures var (b, p) := AllocFrom(a, size, alignment, choice);
            Inv(b) && AllocContract(a, size, alignment, b, p) && (a.Bump? ==> Acquired(a, b))
    decreases a
  {
    hide AlignUp, AlignUpWord, AlignmentIsValid, Fits, Padding, Current, Inv, Acquired, FirstUser, FirstUsed, Owned;
    match a
    case Source(live) => SourceMeetsContract(a, size, alignment, choice);
    case Bump(parent, blocks, blockSize, handed) =>
      AcquiredNothing(a, a);
      if Refused(size, alignment) {
        return;
      }
      ValidPositive(alignment);
      if blocks != [] && Fits(blocks[0], size, alignment) {
        BumpKeeps(a, size, alignment, choice);
      } else if NewCapacity(blockSize, size + alignment - 1) <= WORD - 1 - BLOCK_HEADER {
        ParentOk(a);
        AllocMeetsContract(parent, BLOCK_HEADER + NewCapacity(blockSize, size + alignment - 1), MAX_ALIGN, choice);
        GrowthKeeps(a, size, alignment, choice);
      }
  }

  lemma ParentOk(a: Allocator)
    requires a.Bump? && Inv(a)
    ensures Inv(a.parent)
  {
  }

  lemma SourceMeetsContract(a: Allocator, size: nat, alignment: nat, choice: nat)
    requires a.Source? && Inv(a) && size < WORD && alignment < WORD
    ensures var (b, p) := AllocFrom(a, size, alignment, choice);
            Inv(b) && AllocContract(a, size, alignment, b, p)
  {
    var r := Range(choice, size, alignment);
    if Usable(r) && forall q <- a.live :: Apart(r, q) {
      LiveGrows(a.live, r);
    }
  }

  lemma FastPath(a: Allocator, size: nat, alignment: nat, choice: nat)
    requires a.Bump? && size < WORD && 0 < alignment < WORD && !Refused(size, alignment)
    requires a.blocks != [] && Fits(a.blocks[0], size, alignment)
    ensures var b, p := a.blocks[0], AlignUpWord(Current(a.blocks[0]), alignment);
            AllocFrom(a, size, alignment, choice)
            == (Bump(a.parent, [b.(used := b.used + Padding(b, alignment) + size)] + a.blocks[1..], a.blockSize,
                     a.handed + {Range(p, size, alignment)}), p)
  {
    hide AlignUp, AlignUpWord, AlignmentIsValid, Fits, Padding, Current, Refused;
  }

  /** The slow path, told of the parent's answer. */
  lemma SlowPath(a: Allocator, size: nat, alignment: nat, choice: nat)
    requires a.Bump? && size < WORD && 0 < alignment < WORD && !Refused(size, alignment)
    requires a.blocks == [] || !Fits(a.blocks[0], size, alignment)
    ensures var capacity := NewCapacity(a.blockSize, size + alignment - 1);
            var r := AllocFrom(a, size, alignment, choice);
            if capacity > WORD - 1 - BLOCK_HEADER then r == (a, 0)
            else
              var (q, start) := AllocFrom(a.parent, BLOCK_HEADER + capacity, MAX_ALIGN, choice);
              if start == 0 then r == (a.(parent := q), 0)
              else
                var b := Block(start, BLOCK_HEADER + capacity, 0, capacity);
                var p := FirstUser(b, alignment);
                r == (Bump(q, [b.(used := FirstUsed(b, size, alignment))] + a.blocks, a.blockSize,
                           a.handed + {Range(p, size, alignment)}), p)
  {
    hide AlignUp, AlignUpWord, AlignmentIsValid, Fits, Padding, Current, Refused;
  }

  /** The slow path: what is newly live at the parent is exactly what the arena newly
      owns. */
  lemma GrowthKeeps(a: Allocator, size: nat, alignment: nat, choice: nat)
    requires a.Bump? && Inv(a) && size < WORD && alignment < WORD && !Refused(size, alignment)
    requires a.blocks == [] || !Fits(a.blocks[0], size, alignment)
    requires NewCapacity(a.blockSize, size + alignment - 1) <= WORD - 1 - BLOCK_HEADER
    requires var want := BLOCK_HEADER + NewCapacity(a.blockSize, size + alignment - 1);
             var (q, start) := AllocFrom(a.parent, want, MAX_ALIGN, choice);
             Inv(q) && AllocContract(a.parent, want, MAX_ALIGN, q, start)
    ensures var (b, p) := AllocFrom(a, size, alignment, choice);
            Inv(b) && AllocContract(a, size, alignment, b, p) && Acquired(a, b)
  {
    hide AllocFrom, Inv, Refused, Fits, FirstUser, FirstUsed, Acquired, Usable, Within, LiveOk, BlockOk, NewCapacity,
      AlignmentIsValid, Apart;
    PositiveRequest(size, alignment);
    SlowPath(a, size, alignment, choice);
    var capacity := NewCapacity(a.blockSize, size + alignment - 1);
    var (parent, start) := AllocFrom(a.parent, BLOCK_HEADER + capacity, MAX_ALIGN, choice);
    if start == 0 {
      ParentGrows(a, parent);
      AcquiredNothing(a, a.(parent := parent));
    } else {
      CapacityIs(a.blockSize, size + alignment - 1);
      GrowthPlaced(a, parent, Block(start, BLOCK_HEADER + capacity, 0, capacity), size, alignment);
    }
  }

  lemma PositiveRequest(size: nat, alignment: nat)
    requires !Refused(size, alignment)
    ensures alignment > 0
  {
  }

  /** A block just obtained joins the list with the request placed in it. */
  lemma GrowthPlaced(a: Allocator, parent: Allocator, b: Block, size: nat, alignment: nat)
    requires a.Bump? && Inv(a) && Inv(parent) && 0 < alignment < WORD && !Refused(size, alignment)
    requires b.used == 0 && b.allocationSize == BLOCK_HEADER + b.capacity && size + alignment - 1 <= b.capacity
    requires b.start > 0
    requires Live(parent) == Live(a.parent) + {b.Origin()} && Usable(b.Origin()) && forall q <- Live(a.parent) ::
               Apart(b.Origin(), q)
    ensures var p := FirstUser(b, alignment);
            var r := Range(p, size, alignment);
            var c := Bump(parent, [b.(used := FirstUsed(b, size, alignment))] + a.blocks, a.blockSize, a.handed + {r});
            p != 0 && Inv(c) && AllocContract(a, size, alignment, c, p) && Acquired(a, c)
  {
    hide Inv, Refused, FirstUser, FirstUsed, Acquired, Usable, Within, LiveOk, AlignmentIsValid, Apart;
    NewBlockHolds(b, size, alignment);
    OldLive(a.parent, b.Origin());
    NewBlockJoins(a, parent, b.(used := FirstUsed(b, size, alignment)),
                  Range(FirstUser(b, alignment), size, alignment));
  }

  /** What is newly live at the parent is exactly what the arena newly owns. */
  ghost predicate Acquired(a: Allocator, b: Allocator)
    requires a.Bump?
  {
    && b.Bump? && Owned(a.blocks) <= Owned(b.blocks)
    && Live(b.parent) == Live(a.parent) + (Owned(b.blocks) - Owned(a.blocks))
    && (Owned(b.blocks) - Owned(a.blocks)) !! Live(a.parent)
  }

  lemma AcquiredNothing(a: Allocator, b: Allocator)
    requires a.Bump? && b.Bump? && Owned(a.blocks) == Owned(b.blocks) && Live(a.parent) == Live(b.parent)
    ensures Acquired(a, b)
  {
  }

  /** The request placed in its new block is usable and inside it. */
  lemma NewBlockHolds(b: Block, size: nat, alignment: nat)
    requires Usable(b.Origin()) && BlockOk(b) && 0 < alignment < WORD && !Refused(size, alignment)
    requires size + alignment - 1 <= b.capacity
    ensures var c, r := b.(used := FirstUsed(b, size, alignment)), Range(FirstUser(b, alignment), size, alignment);
            Usable(r) && Within(c, r) && BlockOk(c) && r.start > 0
  {
    hide FirstUser, FirstUsed, AlignUp, AlignmentIsValid;
    NewBlockFits(b, size, alignment);
  }

  lemma OldLive(parent: Allocator, r: Range)
    requires Usable(r) && forall q <- Live(parent) :: Apart(r, q)
    ensures r !in Live(parent)
  {
    NotApartFromItself(r);
  }

  /** No block header lies in what has been handed out. */
  lemma HeadersClear(a: Allocator, b: Block, r: Range)
    requires a.Bump? && Inv(a) && b in a.blocks && r in a.handed
    ensures b.Data() <= r.start || r.start + r.size <= b.start
  {
    var c :| c in a.blocks && Within(c, r);
    if c != b {
      SameStart(a.blocks, b, c);
      assert Apart(b.Origin(), c.Origin());
    }
  }

  lemma SameStart(blocks: seq<Block>, b: Block, c: Block)
    requires b in blocks && c in blocks && b != c
    requires forall i, j :: 0 <= i < j < |blocks| ==> blocks[i].start != blocks[j].start
    ensures b.start != c.start
  {
    var i :| 0 <= i < |blocks| && blocks[i] == b;
    var j :| 0 <= j < |blocks| && blocks[j] == c;
    assert blocks[if i < j then i else j].start != blocks[if i < j then j else i].start;
  }

  // ------------------------------------------------------- completeness

  /** The guard of arena_alloc_internal, in unbounded arithmetic. */
  lemma RefusedIff(size: nat, alignment: nat)
    requires alignment < WORD
    ensures Refused(size, alignment)
            <==> size == 0 || !AlignmentIsValid(alignment) || size + alignment - 1 >= WORD
  {
    hide AlignmentIsValid;
    if AlignmentIsValid(alignment) {
      ValidPositive(alignment);
    }
  }

  /** The newest block has room from its first free address of the alignment on. */
  predicate HasRoom(a: Allocator, size: nat, alignment: nat)
    requires a.Bump? && alignment > 0
  {
    a.blocks != []
    && AlignUp(a.blocks[0].start + 32 + a.blocks[0].used, alignment) + size
       <= a.blocks[0].start + 32 + a.blocks[0].capacity
  }

  lemma FitsIffRoom(a: Allocator, size: nat, alignment: nat)
    requires a.Bump? && Inv(a) && 0 < size && alignment < WORD && AlignmentIsValid(alignment)
    ensures alignment > 0 && (HasRoom(a, size, alignment) <==> a.blocks != [] && Fits(a.blocks[0], size, alignment))
  {
    hide AlignmentIsValid, AlignUp, Fits;
    ValidPositive(alignment);
    if a.blocks != [] {
      assert a.blocks[0] in a.blocks && Usable(a.blocks[0].Origin());
      FitsIff(a.blocks[0], size, alignment);
    }
  }

  /** The capacity of a new block: what the arena was made with, or more if the request
      needs it. */
  lemma CapacityIs(blockSize: nat, minimum: nat)
    ensures NewCapacity(blockSize, minimum) >= blockSize && NewCapacity(blockSize, minimum) >= minimum
    ensures NewCapacity(blockSize, minimum) == blockSize || NewCapacity(blockSize, minimum) == minimum
  {
  }

  /** An arena refuses exactly when the request is malformed or does not fit 64 bits, or
      when its newest block has no room for it and a new block, of the greater of the block
      size and what the request can need, does not fit 64 bits or is refused below. */
  lemma RefusesIff(a: Allocator, size: nat, alignment: nat, choice: nat)
    requires a.Bump? && Inv(a) && size < WORD && alignment < WORD
    ensures AllocFrom(a, size, alignment, choice).1 == 0
            <==> || size == 0 || !AlignmentIsValid(alignment) || size + alignment - 1 >= WORD
                 || (!HasRoom(a, size, alignment)
                     && var minimum := size + alignment - 1;
                        var capacity := if minimum < a.blockSize then a.blockSize else minimum;
                        32 + capacity >= WORD || AllocFrom(a.parent, 32 + capacity, 16, choice).1 == 0)
  {
    hide AlignUp, AlignUpWord, AlignmentIsValid, Padding, Current, Inv, Fits, Refused, AllocFrom, HasRoom, NewCapacity;
    RefusedIff(size, alignment);
    if Refused(size, alignment) {
      RefusedAnswer(a, size, alignment, choice);
      return;
    }
    FitsIffRoom(a, size, alignment);
    CapacityIs(a.blockSize, size + alignment - 1);
    if HasRoom(a, size, alignment) {
      BumpKeeps(a, size, alignment, choice);
    } else {
      SlowPathAnswers(a, size, alignment, choice);
    }
  }

  lemma RefusedAnswer(a: Allocator, size: nat, alignment: nat, choice: nat)
    requires a.Bump? && size < WORD && alignment < WORD && Refused(size, alignment)
    ensures AllocFrom(a, size, alignment, choice) == (a, 0)
  {
    hide Refused;
  }

  /** Straight over a source that is a question about the address it offers. */
  lemma OverSourceRefusesIff(a: Allocator, size: nat, alignment: nat, choice: nat)
    requires a.Bump? && Inv(a) && size < WORD && alignment < WORD && a.parent.Source?
    ensures AllocFrom(a, size, alignment, choice).1 == 0
            <==> || size == 0 || !AlignmentIsValid(alignment) || size + alignment - 1 >= WORD
                 || (!HasRoom(a, size, alignment)
                     && var minimum := size + alignment - 1;
                        var capacity := if minimum < a.blockSize then a.blockSize else minimum;
                        || choice == 0 || choice % 16 != 0 || choice + 32 + capacity > WORD
                        || exists q <- a.parent.live :: choice < q.start + q.size && q.start < choice + 32 + capacity)
  {
    RefusesIff(a, size, alignment, choice);
    hide AlignUp, AlignmentIsValid, Inv, HasRoom;
  }

  /** A refusal, at whatever depth of the tower, leaves every arena and the source as they
      were. */
  lemma {:induction false} RefusalChangesNothing(a: Allocator, size: nat, alignment: nat, choice: nat)
    requires Inv(a) && size < WORD && alignment < WORD && AllocFrom(a, size, alignment, choice).1 == 0
    ensures AllocFrom(a, size, alignment, choice).0 == a
    decreases a
  {
    hide AlignUp, AlignUpWord, AlignmentIsValid, Fits, Padding, Current, Inv, Refused, NewCapacity, FirstUser,
      FirstUsed;
    if a.Bump? && !Refused(size, alignment) {
      PositiveRequest(size, alignment);
      if a.blocks != [] && Fits(a.blocks[0], size, alignment) {
        BumpKeeps(a, size, alignment, choice);
      } else {
        SlowPathAnswers(a, size, alignment, choice);
        SlowPath(a, size, alignment, choice);
        var capacity := NewCapacity(a.blockSize, size + alignment - 1);
        if capacity <= WORD - 1 - BLOCK_HEADER {
          ParentOk(a);
          RefusalChangesNothing(a.parent, BLOCK_HEADER + capacity, MAX_ALIGN, choice);
        }
      }
    }
  }

  /** Where a request is served: from the newest block while it has room, at the first
      address of the alignment and with no other change; otherwise at the first such address
      of a new block, the remaining blocks as they were. */
  lemma ServedFrom(a: Allocator, size: nat, alignment: nat, choice: nat)
    requires a.Bump? && Inv(a) && size < WORD && alignment < WORD && AllocFrom(a, size, alignment, choice).1 != 0
    ensures alignment > 0
    ensures var (b, p) := AllocFrom(a, size, alignment, choice);
            && b.Bump? && b.blockSize == a.blockSize && b.handed == a.handed + {Range(p, size, alignment)}
            && if HasRoom(a, size, alignment) then
                 var newest := a.blocks[0];
                 && p == AlignUp(newest.start + 32 + newest.used, alignment) && b.parent == a.parent
                 && b.blocks == [newest.(used := p + size - (newest.start + 32))] + a.blocks[1..]
               else
                 var minimum := size + alignment - 1;
                 var capacity := if minimum < a.blockSize then a.blockSize else minimum;
                 && 32 + capacity < WORD
                 && var (below, start) := AllocFrom(a.parent, 32 + capacity, 16, choice);
                    && start != 0 && p == AlignUp(start + 32, alignment) && b.parent == below
                    && b.blocks == [Block(start, 32 + capacity, p + size - (start + 32), capacity)] + a.blocks
  {
    hide AlignUp, AlignUpWord, AlignmentIsValid, Padding, Current, Inv, Fits, Refused, AllocFrom, HasRoom, NewCapacity,
      FirstUser, FirstUsed;
    RefusedIff(size, alignment);
    if Refused(size, alignment) {
      RefusedAnswer(a, size, alignment, choice);
      return;
    }
    FitsIffRoom(a, size, alignment);
    if HasRoom(a, size, alignment) {
      FastPath(a, size, alignment, choice);
      OldBlockRoom(a, size, alignment);
    } else {
      CapacityIs(a.blockSize, size + alignment - 1);
      SlowPath(a, size, alignment, choice);
      var capacity := NewCapacity(a.blockSize, size + alignment - 1);
      if capacity <= WORD - 1 - BLOCK_HEADER && AllocFrom(a.parent, 32 + capacity, 16, choice).1 != 0 {
        NewBlockRoom(a, capacity, size, alignment, choice);
      }
    }
  }

  lemma OldBlockRoom(a: Allocator, size: nat, alignment: nat)
    requires a.Bump? && Inv(a) && size > 0 && 0 < alignment < WORD && AlignmentIsValid(alignment)
    requires a.blocks != [] && Fits(a.blocks[0], size, alignment)
    ensures var b := a.blocks[0];
            && AlignUpWord(Current(b), alignment) == AlignUp(b.Data() + b.used, alignment)
            && Padding(b, alignment) == AlignUp(b.Data() + b.used, alignment) - (b.Data() + b.used)
  {
    hide AlignmentIsValid, AlignUp, AlignUpWord, Fits, Padding, Current;
    assert a.blocks[0] in a.blocks && Usable(a.blocks[0].Origin());
    FitsIff(a.blocks[0], size, alignment);
  }

  lemma NewBlockRoom(a: Allocator, capacity: nat, size: nat, alignment: nat, choice: nat)
    requires a.Bump? && Inv(a) && 0 < alignment < WORD && !Refused(size, alignment)
    requires size + alignment - 1 <= capacity <= WORD - 1 - BLOCK_HEADER
    requires AllocFrom(a.parent, BLOCK_HEADER + capacity, MAX_ALIGN, choice).1 != 0
    ensures var start := AllocFrom(a.parent, BLOCK_HEADER + capacity, MAX_ALIGN, choice).1;
            var b := Block(start, BLOCK_HEADER + capacity, 0, capacity);
            && FirstUser(b, alignment) == AlignUp(start + 32, alignment)
            && FirstUsed(b, size, alignment) == AlignUp(start + 32, alignment) - (start + 32) + size
  {
    hide AllocFrom, Inv, Refused, FirstUser, FirstUsed, AlignUp;
    ParentOk(a);
    AllocMeetsContract(a.parent, BLOCK_HEADER + capacity, MAX_ALIGN, choice);
    NewBlockFits(Block(AllocFrom(a.parent, BLOCK_HEADER + capacity, MAX_ALIGN, choice).1, BLOCK_HEADER + capacity, 0,
                       capacity), size, alignment);
  }

  lemma SlowPathAnswers(a: Allocator, size: nat, alignment: nat, choice: nat)
    requires a.Bump? && Inv(a) && size < WORD && alignment < WORD && !Refused(size, alignment)
    requires a.blocks == [] || !Fits(a.blocks[0], size, alignment)
    ensures var capacity := NewCapacity(a.blockSize, size + alignment - 1);
            AllocFrom(a, size, alignment, choice).1 == 0 <==>
              || capacity > WORD - 1 - BLOCK_HEADER
              || AllocFrom(a.parent, BLOCK_HEADER + capacity, MAX_ALIGN, choice).1 == 0
  {
    ValidPositive(alignment);
    SlowPath(a, size, alignment, choice);
    var capacity := NewCapacity(a.blockSize, size + alignment - 1);
    if capacity <= WORD - 1 - BLOCK_HEADER {
      ParentAnswerHolds(a, capacity, size, alignment, choice);
    }
    hide AllocFrom, Inv, Refused, Fits, FirstUser, FirstUsed, NewCapacity, AlignmentIsValid;
  }

  lemma ParentAnswerHolds(a: Allocator, capacity: nat, size: nat, alignment: nat, choice: nat)
    requires a.Bump? && Inv(a) && 0 < alignment < WORD && !Refused(size, alignment)
    requires size + alignment - 1 <= capacity <= WORD - 1 - BLOCK_HEADER
    ensures var start := AllocFrom(a.parent, BLOCK_HEADER + capacity, MAX_ALIGN, choice).1;
            start != 0 ==> FirstUser(Block(start, BLOCK_HEADER + capacity, 0, capacity), alignment) > 0
  {
    ParentOk(a);
    AllocMeetsContract(a.parent, BLOCK_HEADER + capacity, MAX_ALIGN, choice);
    hide AllocFrom, Inv, Refused, FirstUser, FirstUsed, Usable;
    var start := AllocFrom(a.parent, BLOCK_HEADER + capacity, MAX_ALIGN, choice).1;
    if start != 0 {
      NewBlockHolds(Block(start, BLOCK_HEADER + capacity, 0, capacity), size, alignment);
    }
  }

  // ----------------------------------------------------------- ownership

  lemma {:induction false} FreeBlocksLive(a: Allocator, blocks: seq<Block>)
    requires Inv(a)
    ensures Inv(FreeBlocks(a, blocks))
    ensures a.Source? ==> FreeBlocks(a, blocks).Source? && Live(FreeBlocks(a, blocks)) == Live(a) - Owned(blocks)
    ensures a.Bump? ==> FreeBlocks(a, blocks) == a
    decreases |blocks|
  {
    if blocks != [] {
      FreeBlocksLive(FreeTo(a, blocks[0].Origin()), blocks[1..]);
      assert forall b: Block :: b in blocks <==> b == blocks[0] || b in blocks[1..] by {
        assert blocks == [blocks[0]] + blocks[1..];
      }
      assert Owned(blocks) == {blocks[0].Origin()} + Owned(blocks[1..]);
    }
  }

  /** Reset gives every block back in the form it was obtained and leaves the arena
      owning nothing; a parent that is itself an arena keeps them until its own reset. */
  lemma ResetReturnsAll(a: Allocator)
    requires a.Bump? && Inv(a)
    ensures Inv(Reset(a)) && Owned(Reset(a).blocks) == {} && Live(Reset(a)) == {}
    ensures Owned(a.blocks) <= Live(a.parent)
    ensures a.parent.Source? ==> Live(Reset(a).parent) == Live(a.parent) - Owned(a.blocks)
    ensures a.parent.Bump? ==> Reset(a).parent == a.parent
  {
    FreeBlocksLive(a.parent, a.blocks);
    assert Owned([]) == {};
  }

  datatype Op = Alloc(size: nat, alignment: nat, choice: nat) | Free(r: Range) | ResetAll

  predicate OpOk(op: Op) {
    op.Alloc? ==> op.size < WORD && op.alignment < WORD
  }

  function Perform(a: Allocator, op: Op): Allocator
    requires a.Bump? && OpOk(op)
  {
    match op
    case Alloc(size, alignment, choice) => AllocFrom(a, size, alignment, choice).0
    case Free(r) => FreeTo(a, r)
    case ResetAll => Reset(a)
  }

  function Performed(a: Allocator, ops: seq<Op>): Allocator
    requires a.Bump? && forall op <- ops :: OpOk(op)
    decreases |ops|
  {
    if ops == [] then a
    else
      assert ops[0] in ops && forall op <- ops[1..] :: op in ops;
      StaysBump(a, ops[0]);
      Performed(Perform(a, ops[0]), ops[1..])
  }

  lemma StaysBump(a: Allocator, op: Op)
    requires a.Bump? && OpOk(op)
    ensures Perform(a, op).Bump?
  {
    hide AlignUp, AlignUpWord, AlignmentIsValid, Fits, Padding, Current;
  }

  /** Over any run on a source of its own, what the source counts as live beyond the
      arena's blocks never changes: every block obtained is in the list until it is
      returned, and nothing else is ever returned. */
  lemma {:induction false} OwnershipConserved(a: Allocator, ops: seq<Op>)
    requires a.Bump? && a.parent.Source? && Inv(a) && forall op <- ops :: OpOk(op)
    ensures var b := Performed(a, ops);
            && Inv(b) && b.Bump? && b.parent.Source?
            && Owned(b.blocks) <= Live(b.parent)
            && Live(b.parent) - Owned(b.blocks) == Live(a.parent) - Owned(a.blocks)
    decreases |ops|
  {
    hide AllocFrom, Reset, FreeTo, LiveOk, HandedOk, Owned;
    OwnedIsLive(a);
    if ops != [] {
      assert ops[0] in ops && forall op <- ops[1..] :: op in ops;
      StepConserves(a, ops[0]);
      OwnershipConserved(Perform(a, ops[0]), ops[1..]);
    }
  }

  lemma OwnedIsLive(a: Allocator)
    requires a.Bump? && Inv(a)
    ensures Owned(a.blocks) <= Live(a.parent)
  {
  }

  lemma StepConserves(a: Allocator, op: Op)
    requires a.Bump? && a.parent.Source? && Inv(a) && OpOk(op)
    ensures var b := Perform(a, op);
            && Inv(b) && b.Bump? && b.parent.Source?
            && Live(b.parent) - Owned(b.blocks) == Live(a.parent) - Owned(a.blocks)
  {
    StaysBump(a, op);
    OwnedIsLive(a);
    match op
    case Alloc(size, alignment, choice) =>
      AllocMeetsContract(a, size, alignment, choice);
      SourceStays(a, size, alignment, choice);
      hide AllocFrom, Inv, Owned;
    case Free(_) =>
    case ResetAll =>
      ResetReturnsAll(a);
      FreeBlocksLive(a.parent, a.blocks) by { ParentOk(a); }
      hide Inv, Owned, FreeBlocks;
  }

  lemma SourceStays(a: Allocator, size: nat, alignment: nat, choice: nat)
    requires a.Bump? && a.parent.Source? && size < WORD && alignment < WORD
    ensures AllocFrom(a, size, alignment, choice).0.Bump? && AllocFrom(a, size, alignment, choice).0.parent.Source?
  {
    if Refused(size, alignment) {
      return;
    }
    ValidPositive(alignment);
    hide AlignUp, AlignUpWord, AlignmentIsValid, Fits, Padding, Current;
    if a.blocks == [] || !Fits(a.blocks[0], size, alignment) {
      SlowPath(a, size, alignment, choice);
    }
  }

  // ------------------------------------------- ownership over any parent

  /** The ranges the arena's blocks were obtained as. */
  function Origins(blocks: seq<Block>): (r: seq<Range>)
    ensures |r| == |blocks|
  {
    seq(|blocks|, i requires 0 <= i < |blocks| => blocks[i].Origin())
  }

  /** free called on an allocator of the tower for one range after another. */
  function ReturnTo(a: Allocator, rs: seq<Range>): Allocator
    decreases |rs|
  {
    if rs == [] then a else ReturnTo(FreeTo(a, rs[0]), rs[1..])
  }

  lemma {:induction false} FreeBlocksReturns(a: Allocator, blocks: seq<Block>)
    ensures FreeBlocks(a, blocks) == ReturnTo(a, Origins(blocks))
    decreases |blocks|
  {
    if blocks != [] {
      FreeBlocksReturns(FreeTo(a, blocks[0].Origin()), blocks[1..]);
      assert Origins(blocks)[1..] == Origins(blocks[1..]);
    }
  }

  /** What the parent's alloc gave the arena during one call. */
  function Obtained(a: Allocator, op: Op): seq<Range>
    requires a.Bump? && OpOk(op)
  {
    match op
    case Alloc(size, alignment, choice) =>
      if Refused(size, alignment) || (a.blocks != [] && Fits(a.blocks[0], size, alignment)) then []
      else
        (match NewBlock(a, size + alignment - 1, choice).1
         case None => []
         case Some(b) => [b.Origin()])
    case _ => []
  }

  /** What the arena passed to the parent's free during one call. */
  function Returned(a: Allocator, op: Op): seq<Range>
    requires a.Bump?
  {
    if op.ResetAll? then Origins(a.blocks) else []
  }

  /** A call changes the block list by what it obtains and returns, and deals with the
      parent in those ranges only. */
  ghost predicate StepAccounts(a: Allocator, op: Op)
    requires a.Bump? && OpOk(op)
  {
    var b := Perform(a, op);
    && Inv(b) && b.Bump?
    && multiset(Origins(a.blocks)) + multiset(Obtained(a, op))
         == multiset(Returned(a, op)) + multiset(Origins(b.blocks))
    && (forall r <- Obtained(a, op) :: op.Alloc? && r !in Live(a.parent) && r in Live(b.parent)
          && AllocFrom(a.parent, r.size, r.alignment, op.choice) == (b.parent, r.start))
    && (op.ResetAll? ==> b.parent == ReturnTo(a.parent, Returned(a, op)))
  }

  lemma StepBalance(a: Allocator, op: Op)
    requires a.Bump? && Inv(a) && OpOk(op)
    ensures StepAccounts(a, op)
  {
    StaysBump(a, op);
    match op
    case Alloc(size, alignment, choice) => AllocBalance(a, size, alignment, choice);
    case Free(_) =>
    case ResetAll =>
      ResetReturnsAll(a);
      FreeBlocksReturns(a.parent, a.blocks);
      assert Origins([]) == [];
  }

  lemma AllocBalance(a: Allocator, size: nat, alignment: nat, choice: nat)
    requires a.Bump? && Inv(a) && size < WORD && alignment < WORD
    ensures StepAccounts(a, Alloc(size, alignment, choice))
  {
    AllocMeetsContract(a, size, alignment, choice);
    hide AlignUp, AlignUpWord, AlignmentIsValid, Padding, Current, Inv, Fits, FirstUser, FirstUsed, Acquired;
    if Refused(size, alignment) {
      return;
    }
    ValidPositive(alignment);
    if a.blocks != [] && Fits(a.blocks[0], size, alignment) {
      FastPath(a, size, alignment, choice);
      var used := a.blocks[0].used + Padding(a.blocks[0], alignment) + size;
      assert Origins([a.blocks[0].(used := used)] + a.blocks[1..]) == Origins(a.blocks);
    } else {
      SlowBalance(a, size, alignment, choice);
    }
  }

  lemma SlowBalance(a: Allocator, size: nat, alignment: nat, choice: nat)
    requires a.Bump? && Inv(a) && size < WORD && 0 < alignment < WORD && !Refused(size, alignment)
    requires a.blocks == [] || !Fits(a.blocks[0], size, alignment)
    requires Inv(AllocFrom(a, size, alignment, choice).0) && AllocFrom(a, size, alignment, choice).0.Bump?
    ensures StepAccounts(a, Alloc(size, alignment, choice))
  {
    hide Inv, Fits, FirstUser, FirstUsed, Refused, Usable, Apart, Obtained, NewBlock, AllocFrom;
    SlowPath(a, size, alignment, choice);
    SlowObtains(a, size, alignment, choice);
    NothingObtained(a.blocks);
    var op := Alloc(size, alignment, choice);
    var capacity := NewCapacity(a.blockSize, size + alignment - 1);
    if capacity > WORD - 1 - BLOCK_HEADER {
      return;
    }
    var (q, start) := AllocFrom(a.parent, BLOCK_HEADER + capacity, MAX_ALIGN, choice);
    if start == 0 {
      return;
    }
    ParentOk(a);
    AllocMeetsContract(a.parent, BLOCK_HEADER + capacity, MAX_ALIGN, choice);
    var b := Block(start, BLOCK_HEADER + capacity, 0, capacity);
    OldLive(a.parent, b.Origin());
    OneObtained(a.blocks, b.(used := FirstUsed(b, size, alignment)));
    hide NewCapacity, Origins;
    assert Obtained(a, op) == [b.Origin()];
  }

  lemma NothingObtained(blocks: seq<Block>)
    ensures multiset(Origins(blocks)) + multiset([]) == multiset([]) + multiset(Origins(blocks))
  {
  }

  lemma OneObtained(blocks: seq<Block>, b: Block)
    ensures multiset(Origins(blocks)) + multiset([b.Origin()]) == multiset([]) + multiset(Origins([b] + blocks))
  {
    assert Origins([b] + blocks) == [b.Origin()] + Origins(blocks);
  }

  lemma BalancesCompose(start: seq<Range>, got: seq<Range>, gave: seq<Range>, middle: seq<Range>,
                        got': seq<Range>, gave': seq<Range>, end: seq<Range>)
    requires multiset(start) + multiset(got) == multiset(gave) + multiset(middle)
    requires multiset(middle) + multiset(got') == multiset(gave') + multiset(end)
    ensures multiset(start) + multiset(got + got') == multiset(gave + gave') + multiset(end)
  {
    assert multiset(got + got') == multiset(got) + multiset(got');
    assert multiset(gave + gave') == multiset(gave) + multiset(gave');
    MultisetBalance(multiset(start), multiset(got), multiset(gave), multiset(middle), multiset(got'), multiset(gave'),
                    multiset(end));
  }

  lemma MultisetBalance(s: multiset<Range>, g: multiset<Range>, v: multiset<Range>, m: multiset<Range>,
                        g': multiset<Range>, v': multiset<Range>, e: multiset<Range>)
    requires s + g == v + m && m + g' == v' + e
    ensures s + (g + g') == (v + v') + e
  {
    forall r: Range
      ensures (s + (g + g'))[r] == ((v + v') + e)[r]
    {
      assert (s + g)[r] == (v + m)[r] && (m + g')[r] == (v' + e)[r];
    }
  }

  lemma SlowObtains(a: Allocator, size: nat, alignment: nat, choice: nat)
    requires a.Bump? && size < WORD && 0 < alignment < WORD && !Refused(size, alignment)
    requires a.blocks == [] || !Fits(a.blocks[0], size, alignment)
    ensures var capacity := NewCapacity(a.blockSize, size + alignment - 1);
            Obtained(a, Alloc(size, alignment, choice))
            == if capacity > WORD - 1 - BLOCK_HEADER then []
               else
                 var start := AllocFrom(a.parent, BLOCK_HEADER + capacity, MAX_ALIGN, choice).1;
                 if start == 0 then [] else [Range(start, BLOCK_HEADER + capacity, MAX_ALIGN)]
  {
    hide AllocFrom, AlignmentIsValid, Fits;
  }

  function ObtainedIn(a: Allocator, ops: seq<Op>): seq<Range>
    requires a.Bump? && forall op <- ops :: OpOk(op)
    decreases |ops|
  {
    if ops == [] then []
    else
      assert ops[0] in ops && forall op <- ops[1..] :: op in ops;
      StaysBump(a, ops[0]);
      Obtained(a, ops[0]) + ObtainedIn(Perform(a, ops[0]), ops[1..])
  }

  function ReturnedIn(a: Allocator, ops: seq<Op>): seq<Range>
    requires a.Bump? && forall op <- ops :: OpOk(op)
    decreases |ops|
  {
    if ops == [] then []
    else
      assert ops[0] in ops && forall op <- ops[1..] :: op in ops;
      StaysBump(a, ops[0]);
      Returned(a, ops[0]) + ReturnedIn(Perform(a, ops[0]), ops[1..])
  }

  /** Over any run, on a parent of any depth, the blocks in the list are exactly those
      obtained from the parent and not yet passed back to it, each in the size and with
      the alignment it was obtained with: none is returned twice and none is lost. */
  lemma {:induction false} OwnershipBalance(a: Allocator, ops: seq<Op>)
    requires a.Bump? && Inv(a) && forall op <- ops :: OpOk(op)
    ensures var b := Performed(a, ops);
            && Inv(b) && b.Bump?
            && multiset(Origins(a.blocks)) + multiset(ObtainedIn(a, ops))
               == multiset(ReturnedIn(a, ops)) + multiset(Origins(b.blocks))
    decreases |ops|
  {
    hide Perform, Obtained, Returned, Inv, Origins;
    if ops == [] {
      assert multiset(ObtainedIn(a, ops)) == multiset{} && multiset(ReturnedIn(a, ops)) == multiset{};
    } else {
      assert ops[0] in ops && forall op <- ops[1..] :: op in ops;
      StepBalance(a, ops[0]);
      var b := Perform(a, ops[0]);
      OwnershipBalance(b, ops[1..]);
      BalancesCompose(Origins(a.blocks), Obtained(a, ops[0]), Returned(a, ops[0]), Origins(b.blocks),
                      ObtainedIn(b, ops[1..]), ReturnedIn(b, ops[1..]), Origins(Performed(b, ops[1..]).blocks));
    }
  }
}
