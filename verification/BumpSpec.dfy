/** The public bump arena of src/arena_allocator.c on values: a tower of arenas over
    a memory source, each drawing its blocks from the one below. NULL is 0. */
module BumpSpec {
  import opened Words

  /** sizeof(allocator_arena_block_t): four words; and the alignment of max_align_t. */
  const BLOCK_HEADER: nat := 32
  const MAX_ALIGN: nat := 16

  /** Storage handed to a client, with the size and alignment asked for. */
  datatype Range = Range(start: nat, size: nat, alignment: nat)

  datatype Block = Block(start: nat, allocationSize: nat, used: nat, capacity: nat) {
    function Data(): nat {
      start + BLOCK_HEADER
    }
    /** The range the block was obtained as. */
    function Origin(): Range {
      Range(start, allocationSize, MAX_ALIGN)
    }
  }

  /** `live` is what clients of the source hold; `handed` what an arena has handed out
      since its last reset. */
  datatype Allocator =
    | Source(live: set<Range>)
    | Bump(parent: Allocator, blocks: seq<Block>, blockSize: nat, handed: set<Range>)

  function Live(a: Allocator): set<Range> {
    match a
    case Source(live) => live
    case Bump(_, _, _, handed) => handed
  }

  predicate Apart(r: Range, q: Range) {
    r.start + r.size <= q.start || q.start + q.size <= r.start
  }

  predicate Usable(r: Range) {
    0 < r.start && 0 < r.size && r.start + r.size <= WORD && 0 < r.alignment && r.start % r.alignment == 0
  }

  // --------------------------------------------------------- operations

  /** The uintptr at which the free part of a block starts; it wraps to 0 when a full
      block ends with the address space. */
  function Current(b: Block): nat {
    (b.Data() + b.used) % WORD
  }

  function Padding(b: Block, alignment: nat): nat
    requires 0 < alignment < WORD
  {
    (AlignUpWord(Current(b), alignment) - Current(b)) % WORD
  }

  /** The two tests of arena_alloc_internal on the newest block. */
  predicate Fits(b: Block, size: nat, alignment: nat)
    requires 0 < alignment < WORD
  {
    b.used <= b.capacity && Padding(b, alignment) <= b.capacity - b.used
      && size <= b.capacity - b.used - Padding(b, alignment)
  }

  /** Where a request is placed in a new block, and what is then used of the block. */
  function FirstUser(b: Block, alignment: nat): nat
    requires 0 < alignment < WORD
  {
    AlignUpWord(b.Data() % WORD, alignment)
  }

  function FirstUsed(b: Block, size: nat, alignment: nat): nat
    requires 0 < alignment < WORD
  {
    (FirstUser(b, alignment) - b.Data()) % WORD + size
  }

  predicate Refused(size: nat, alignment: nat) {
    size == 0 || !AlignmentIsValid(alignment) || size > WORD - 1 - (alignment - 1)
  }

  /** The capacity of the block made for a request, if its size can be represented. */
  function NewCapacity(blockSize: nat, minimum: nat): nat {
    if blockSize < minimum then minimum else blockSize
  }

  /** alloc of any allocator of the tower: the new state and the address, or 0.
      `choice` is the address the source offers; an unacceptable one stands for NULL. */
  function AllocFrom(a: Allocator, size: nat, alignment: nat, choice: nat): (Allocator, nat)
    requires size < WORD && alignment < WORD
    decreases a
  {
    match a
    case Source(live) =>
      var r := Range(choice, size, alignment);
      if Usable(r) && forall q <- live :: Apart(r, q) then (Source(live + {r}), choice) else (a, 0)
    case Bump(parent, blocks, blockSize, handed) =>
      if Refused(size, alignment) then (a, 0)
      else if blocks != [] && Fits(blocks[0], size, alignment) then
        var b := blocks[0];
        var p := AlignUpWord(Current(b), alignment);
        (Bump(parent, [b.(used := b.used + Padding(b, alignment) + size)] + blocks[1..], blockSize,
              handed + {Range(p, size, alignment)}), p)
      else
        var (base, b) := NewBlock(a, size + alignment - 1, choice);
        if b.None? then (base, 0)
        else
          var p := FirstUser(b.value, alignment);
          (Bump(base.parent, [b.value.(used := FirstUsed(b.value, size, alignment))] + blocks, blockSize,
                handed + {Range(p, size, alignment)}), p)
  }

  /** arena_new_block but for the link: the arena with its parent's new state, and the
      block obtained. */
  function NewBlock(a: Allocator, minimum: nat, choice: nat): (r: (Allocator, Option<Block>))
    requires a.Bump? && minimum < WORD
    ensures r.0.Bump?
    decreases a, 0
  {
    var capacity := NewCapacity(a.blockSize, minimum);
    if capacity > WORD - 1 - BLOCK_HEADER then (a, None)
    else
      var (parent, start) := AllocFrom(a.parent, BLOCK_HEADER + capacity, MAX_ALIGN, choice);
      if start == 0 then (a.(parent := parent), None)
      else (a.(parent := parent), Some(Block(start, BLOCK_HEADER + capacity, 0, capacity)))
  }

  /** free of any allocator of the tower: an arena ignores it. */
  function FreeTo(a: Allocator, r: Range): Allocator {
    match a
    case Source(live) => Source(live - {r})
    case Bump(_, _, _, _) => a
  }

  function FreeBlocks(a: Allocator, blocks: seq<Block>): Allocator
    decreases |blocks|
  {
    if blocks == [] then a else FreeBlocks(FreeTo(a, blocks[0].Origin()), blocks[1..])
  }

  /** allocator_arena_reset. */
  function Reset(a: Allocator): Allocator
    requires a.Bump?
  {
    Bump(FreeBlocks(a.parent, a.blocks), [], a.blockSize, {})
  }

  // ---------------------------------------------------------- invariant

  function Owned(blocks: seq<Block>): set<Range> {
    set b | b in blocks :: b.Origin()
  }

  /** What is live is usable and pairwise apart: the contract every client relies on. */
  ghost predicate LiveOk(live: set<Range>) {
    && (forall r <- live :: Usable(r))
    && forall r, q | r in live && q in live && r != q :: Apart(r, q)
  }

  predicate BlockOk(b: Block) {
    b.allocationSize == BLOCK_HEADER + b.capacity && b.used <= b.capacity
  }

  /** `r` lies in the used part of the block's data. */
  predicate Within(b: Block, r: Range) {
    b.Data() <= r.start && r.start + r.size <= b.Data() + b.used
  }

  ghost predicate BlocksOk(parent: Allocator, blocks: seq<Block>) {
    && (forall b <- blocks :: BlockOk(b) && b.Origin() in Live(parent))
    && forall i, j :: 0 <= i < j < |blocks| ==> blocks[i].start != blocks[j].start
  }

  ghost predicate HandedOk(blocks: seq<Block>, handed: set<Range>) {
    forall r <- handed :: exists b :: b in blocks && Within(b, r)
  }

  ghost predicate Inv(a: Allocator) {
    LiveOk(Live(a)) && (a.Bump? ==> Inv(a.parent) && BlocksOk(a.parent, a.blocks) && HandedOk(a.blocks, a.handed))
  }

  // ------------------------------------------------------ the bump tests

  /** The wrap-around tests accept exactly the requests that fit in real arithmetic,
      and the address they yield is the least aligned one. */
  lemma FitsIff(b: Block, size: nat, alignment: nat)
    requires BlockOk(b) && 0 < b.start && b.Data() + b.capacity <= WORD
    requires 0 < size && alignment < WORD && AlignmentIsValid(alignment)
    ensures Fits(b, size, alignment) <==> AlignUp(b.Data() + b.used, alignment) + size <= b.Data() + b.capacity
    ensures Fits(b, size, alignment) ==>
              && AlignUpWord(Current(b), alignment) == AlignUp(b.Data() + b.used, alignment)
              && Padding(b, alignment) == AlignUp(b.Data() + b.used, alignment) - (b.Data() + b.used)
  {
    hide AlignUpWord, AlignmentIsValid, AlignUp;
    var x := b.Data() + b.used;
    if x == WORD {
      assert Current(b) == 0;
      AlignUpWordSpec(0, alignment);
    } else {
      DivModUnique(x, WORD, 0, x);
      AlignUpWordSpec(x, alignment);
      AlignUpAbove(x, alignment);
      if x + (alignment - 1) >= WORD {
        DivModUnique(-x, WORD, -1, WORD - x);
        NoRoomAbove(x, alignment, size, b.Data() + b.capacity);
      } else {
        var d := AlignUp(x, alignment) - x;
        DivModUnique(d, WORD, 0, d);
      }
    }
  }

  /** When rounding up would pass 2^64, no aligned range is left below it. */
  lemma NoRoomAbove(x: nat, a: nat, size: nat, end: nat)
    requires x < WORD && 0 < a < WORD && AlignmentIsValid(a) && x + (a - 1) >= WORD && size > 0 && end <= WORD
    ensures AlignUp(x, a) + size > end
  {
    var r := AlignUp(x, a);
    if r < WORD {
      WordIsMultiple(a);
      MultipleGap(r, WORD, a);
    }
  }

  lemma WordIsMultiple(a: nat)
    requires 0 < a < WORD && AlignmentIsValid(a)
    ensures WORD % a == 0
  {
    AlignmentValidIffPow2(a);
    var k: nat :| a == Pow2(k);
    Pow2Values();
    hide Pow2;
    if k > 64 {
      Pow2Monotone(64, k);
    }
    Pow2Add(64 - k, k);
    DivModUnique(WORD, a, Pow2(64 - k), 0);
  }

  lemma MultipleGap(r: nat, w: nat, a: nat)
    requires a > 0 && r % a == 0 && w % a == 0 && r < w
    ensures r + a <= w
  {
    var i, j := r / a, w / a;
    assert r == i * a && w == j * a;
    assert (j - i) * a == w - r;
    MulAtLeast(j - i, a);
  }

  /** A block made for a request always has room for it, without wrapping. */
  lemma NewBlockFits(b: Block, size: nat, alignment: nat)
    requires 0 < b.start && b.Data() + b.capacity <= WORD && !Refused(size, alignment) && alignment < WORD
    requires size + alignment - 1 <= b.capacity
    ensures var p := FirstUser(b, alignment);
            && p == AlignUp(b.Data(), alignment) && FirstUsed(b, size, alignment) == p - b.Data() + size
            && b.Data() <= p && p + size <= b.Data() + b.capacity && p % alignment == 0
  {
    assert alignment > 0;
    hide AlignUpWord, AlignmentIsValid, AlignUp;
    AlignUpAbove(b.Data(), alignment);
    DivModUnique(b.Data(), WORD, 0, b.Data());
    AlignUpWordSpec(b.Data(), alignment);
    var d := AlignUp(b.Data(), alignment) - b.Data();
    DivModUnique(d, WORD, 0, d);
  }
}
